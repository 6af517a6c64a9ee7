/** The in-place Fisher-Yates shuffle of `shuffleArray` (index.js:46-54).
    The random index `Math.floor(Math.random() * (i + 1))` of step `i` is
    supplied by the caller as `picks[i]`, any value in `0..i`. */
module Shuffle {
  import opened Seqs

  /** The random choices of one shuffle of `n` elements: the index drawn at
      step `i` lies in `0..i`. Entry 0 is never drawn (the loop stops at 1). */
  predicate ValidPicks(picks: seq<nat>, n: nat) {
    |picks| == n && forall i :: 0 <= i < n ==> picks[i] <= i
  }

  /** `s` with positions `i` and `j` exchanged (the two may coincide). */
  function Swap<T>(s: seq<T>, i: nat, j: nat): (r: seq<T>)
    requires i < |s| && j < |s|
    ensures |r| == |s| && r[i] == s[j] && r[j] == s[i]
    ensures forall k :: 0 <= k < |s| && k != i && k != j ==> r[k] == s[k]
  {
    s[i := s[j]][j := s[i]]
  }

  /** The shuffle's steps `i`, `i - 1`, ..., `1` applied to `s`. */
  function ShuffleDown<T>(s: seq<T>, picks: seq<nat>, i: int): (r: seq<T>)
    requires ValidPicks(picks, |s|) && i < |s|
    ensures |r| == |s|
    decreases i
  {
    if i <= 0 then s else ShuffleDown(Swap(s, i, picks[i]), picks, i - 1)
  }

  /** The whole shuffle: steps `|s| - 1` down to `1`. */
  function Shuffled<T>(s: seq<T>, picks: seq<nat>): seq<T>
    requires ValidPicks(picks, |s|)
  {
    ShuffleDown(s, picks, |s| - 1)
  }

  lemma SwapPermutes<T>(s: seq<T>, i: nat, j: nat)
    requires i < |s| && j < |s|
    ensures multiset(Swap(s, i, j)) == multiset(s)
  {
    var r := Swap(s, i, j);
    if i != j {
      assert s[i := s[j]] == s[..i] + [s[j]] + s[i + 1..];
      assert r == s[i := s[j]][j := s[i]];
    }
  }

  lemma SwapKeepsDistinct<T>(s: seq<T>, i: nat, j: nat)
    requires i < |s| && j < |s| && Distinct(s)
    ensures Distinct(Swap(s, i, j))
  {
    var r := Swap(s, i, j);
    forall a, b | 0 <= a < b < |r| ensures r[a] != r[b] {
      var a' := if a == i then j else if a == j then i else a;
      var b' := if b == i then j else if b == j then i else b;
      assert r[a] == s[a'] && r[b] == s[b'] && a' != b';
    }
  }

  /** The shuffle is a permutation: same length, same multiset of elements. */
  lemma {:induction false} ShuffleDownPermutes<T>(s: seq<T>, picks: seq<nat>, i: int)
    requires ValidPicks(picks, |s|) && i < |s|
    ensures multiset(ShuffleDown(s, picks, i)) == multiset(s)
    decreases i
  {
    if i > 0 {
      SwapPermutes(s, i, picks[i]);
      ShuffleDownPermutes(Swap(s, i, picks[i]), picks, i - 1);
    }
  }

  lemma ShuffledPermutes<T>(s: seq<T>, picks: seq<nat>)
    requires ValidPicks(picks, |s|)
    ensures |Shuffled(s, picks)| == |s|
    ensures multiset(Shuffled(s, picks)) == multiset(s)
  {
    ShuffleDownPermutes(s, picks, |s| - 1);
  }

  /** A pool without duplicates stays without duplicates. */
  lemma {:induction false} ShuffleDownKeepsDistinct<T>(s: seq<T>, picks: seq<nat>, i: int)
    requires ValidPicks(picks, |s|) && i < |s|
    ensures Distinct(s) ==> Distinct(ShuffleDown(s, picks, i))
    decreases i
  {
    if i > 0 && Distinct(s) {
      SwapKeepsDistinct(s, i, picks[i]);
      ShuffleDownKeepsDistinct(Swap(s, i, picks[i]), picks, i - 1);
    }
  }

  /** Steps `i` down to `1` never touch the positions above `i`. */
  lemma {:induction false} ShuffleDownFixesAbove<T>(s: seq<T>, picks: seq<nat>, i: int, k: nat)
    requires ValidPicks(picks, |s|) && i < k < |s|
    ensures ShuffleDown(s, picks, i)[k] == s[k]
    decreases i
  {
    if i > 0 {
      ShuffleDownFixesAbove(Swap(s, i, picks[i]), picks, i - 1, k);
    }
  }

  /** The first step settles the last position: it receives the element at
      the index drawn for it. */
  lemma ShuffledLast<T>(s: seq<T>, picks: seq<nat>)
    requires ValidPicks(picks, |s|) && |s| > 0
    ensures Shuffled(s, picks)[|s| - 1] == s[picks[|s| - 1]]
  {
    var n := |s|;
    if n > 1 {
      ShuffleDownFixesAbove(Swap(s, n - 1, picks[n - 1]), picks, n - 2, n - 1);
    }
  }

  /** `shuffleArray`: for `i` from the last index down to 1, swap `a[i]` with
      `a[picks[i]]`. */
  method ShuffleArray<T>(a: array<T>, picks: seq<nat>)
    requires ValidPicks(picks, a.Length)
    modifies a
    ensures a[..] == Shuffled(old(a[..]), picks)
    ensures multiset(a[..]) == multiset(old(a[..]))
  {
    var i: int := a.Length - 1;
    while i > 0
      invariant -1 <= i < a.Length
      invariant ShuffleDown(a[..], picks, i) == Shuffled(old(a[..]), picks)
    {
      var j := picks[i];
      ghost var before := a[..];
      a[i], a[j] := a[j], a[i];
      assert a[..] == Swap(before, i, j);
      i := i - 1;
    }
    ShuffledPermutes(old(a[..]), picks);
  }
}
