/** Small facts about sequences used by the question store and the scoring of answers. */
module Seqs {

  /** No element occurs twice. */
  predicate Distinct<T(==)>(s: seq<T>) {
    forall i, j :: 0 <= i < j < |s| ==> s[i] != s[j]
  }

  /** The position of the first occurrence of `x` in `s`. */
  function FirstIndex(s: seq<string>, x: string): (k: nat)
    requires x in s
    ensures k < |s| && s[k] == x
    ensures forall j :: 0 <= j < k ==> s[j] != x
  {
    if s[0] == x then 0 else 1 + FirstIndex(s[1..], x)
  }

  /** Appending an element moves no first occurrence of the earlier ones. */
  lemma FirstIndexPrefix(s: seq<string>)
    requires s != []
    ensures forall x :: x in s[..|s| - 1] ==> FirstIndex(s, x) == FirstIndex(s[..|s| - 1], x)
  {
    var p := s[..|s| - 1];
    forall x | x in p ensures FirstIndex(s, x) == FirstIndex(p, x) {
      assert s[FirstIndex(p, x)] == x;
    }
  }

  /** `r` holds each element of `s` once, ordered by first occurrence in `s`. */
  ghost predicate FirstOccurrences(s: seq<string>, r: seq<string>) {
    && Distinct(r)
    && (forall x :: x in r <==> x in s)
    && (forall i, j :: 0 <= i < j < |r| ==> r[i] in s && r[j] in s && FirstIndex(s, r[i]) < FirstIndex(s, r[j]))
  }

  /** The step of `Dedup` when the last element occurred before: nothing is
      added. */
  lemma FirstOccurrencesKeep(s: seq<string>, t: seq<string>)
    requires s != [] && FirstOccurrences(s[..|s| - 1], t) && s[|s| - 1] in t
    ensures FirstOccurrences(s, t)
  {
    var p := s[..|s| - 1];
    assert forall x :: x in s <==> x in p || x == s[|s| - 1];
    FirstIndexPrefix(s);
    forall i, j | 0 <= i < j < |t|
      ensures t[i] in s && t[j] in s && FirstIndex(s, t[i]) < FirstIndex(s, t[j])
    {
      assert t[i] in p && t[j] in p;
    }
  }

  /** The step of `Dedup` when the last element is new: it is added at the
      end. */
  lemma FirstOccurrencesAdd(s: seq<string>, t: seq<string>)
    requires s != [] && FirstOccurrences(s[..|s| - 1], t) && s[|s| - 1] !in t
    ensures FirstOccurrences(s, t + [s[|s| - 1]])
  {
    var p, last := s[..|s| - 1], s[|s| - 1];
    assert forall x :: x in s <==> x in p || x == last;
    FirstIndexPrefix(s);
    assert last !in p;
    assert FirstIndex(s, last) == |s| - 1;
    var r := t + [last];
    forall i, j | 0 <= i < j < |r|
      ensures r[i] in s && r[j] in s && FirstIndex(s, r[i]) < FirstIndex(s, r[j])
    {
      assert r[i] == t[i] && r[i] in p;
      if j < |t| {
        assert r[j] == t[j] && r[j] in p;
      }
    }
  }

  /** The elements of `s` in the order of their first occurrence. This is the
      order in which a JavaScript object enumerates its keys when they were
      inserted in the order of `s`. */
  function Dedup(s: seq<string>): (r: seq<string>)
    ensures FirstOccurrences(s, r)
    ensures |r| <= |s|
    ensures Distinct(s) ==> r == s
  {
    if s == [] then []
    else
      var p, last := s[..|s| - 1], s[|s| - 1];
      var t := Dedup(p);
      assert Distinct(s) ==> Distinct(p) && last !in p && s == p + [last];
      if last in t then FirstOccurrencesKeep(s, t); t
      else FirstOccurrencesAdd(s, t); t + [last]
  }

  /** With items ["b", "a", "b"] the keys are enumerated as ["b", "a"]. */
  lemma DedupExample()
    ensures Dedup(["b", "a", "b"]) == ["b", "a"]
  {
    var s: seq<string> := ["b", "a", "b"];
    assert Distinct(s[..2]) by {
      assert s[..2] == ["b", "a"];
    }
    assert Dedup(s[..2]) == ["b", "a"];
    assert s[..2] == s[..|s| - 1];
  }
}
