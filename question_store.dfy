/** Loading the question set: shuffle the parsed pool in place and keep its
    first 20 records (index.js:29-30 in `init`, index.js:460-461 in `reset`). */
module QuestionStore {
  import opened Seqs
  import opened Shuffle
  import opened QuizData

  /** The `slice(0, 20)` cap on the question set. */
  const QuestionLimit: nat := 20

  function Min(a: nat, b: nat): nat {
    if a <= b then a else b
  }

  /** The question set a load produces from `pool` with the random choices
      `picks`. */
  function Loaded(pool: seq<Question>, picks: seq<nat>): (qs: seq<Question>)
    requires ValidPicks(picks, |pool|)
    ensures |qs| == Min(|pool|, QuestionLimit)
    ensures multiset(qs) <= multiset(pool)
    ensures forall k :: 0 <= k < |qs| ==> qs[k] in pool
    ensures Distinct(pool) ==> Distinct(qs)
  {
    var shuffled := Shuffled(pool, picks);
    ShuffledPermutes(pool, picks);
    ShuffleDownKeepsDistinct(pool, picks, |pool| - 1);
    var n := Min(|pool|, QuestionLimit);
    assert shuffled == shuffled[..n] + shuffled[n..];
    assert multiset(shuffled) == multiset(shuffled[..n]) + multiset(shuffled[n..]);
    assert forall k :: 0 <= k < n ==> shuffled[..n][k] in multiset(pool);
    shuffled[..n]
  }

  /** The body of the `then` callback: `shuffleArray(data)` followed by
      `data.slice(0, 20)`. */
  method Load(pool: array<Question>, picks: seq<nat>) returns (qs: seq<Question>)
    requires ValidPicks(picks, pool.Length)
    modifies pool
    ensures pool[..] == Shuffled(old(pool[..]), picks)
    ensures qs == Shuffled(old(pool[..]), picks)[..Min(pool.Length, QuestionLimit)]
    ensures qs == Loaded(old(pool[..]), picks)
  {
    ShuffleArray(pool, picks);
    qs := pool[..Min(pool.Length, QuestionLimit)];
  }
}
