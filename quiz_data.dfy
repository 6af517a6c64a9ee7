/** The question records of the quiz and the points each one is worth. */
module QuizData {

  datatype Option<T> = None | Some(value: T)

  /** A question record as read from the question file. The record's `type`
      field is the constructor; `Unrecognized` stands for a record whose type
      is none of the four the app renders (index.js:90-91). */
  datatype Question =
    | MultipleChoice(prompt: string, options: seq<string>, correctOption: string)
    | TrueFalse(prompt: string, options: seq<string>, correctOption: string)
    | Matching(prompt: string, items: seq<string>, matches: seq<string>,
               correctMatches: map<string, string>)
    | FillInTheBlank(prompt: string, correctOptions: seq<string>)
    | Unrecognized(prompt: string, kind: string)

  /** The points the end-of-quiz total counts for one question: 4 for a
      matching question, 1 for any other type. */
  function Points(q: Question): nat {
    if q.Matching? then 4 else 1
  }

  /** The total possible score: the `reduce` of `handleEndOfQuiz`, a left fold
      adding each question's points to the total. */
  function PossibleScore(qs: seq<Question>): nat {
    if qs == [] then 0 else PossibleScore(qs[..|qs| - 1]) + Points(qs[|qs| - 1])
  }

  lemma {:induction false} PossibleScoreAppend(a: seq<Question>, b: seq<Question>)
    ensures PossibleScore(a + b) == PossibleScore(a) + PossibleScore(b)
    decreases |b|
  {
    if b == [] {
      assert a + b == a;
    } else {
      var b' := b[..|b| - 1];
      assert (a + b)[..|a + b| - 1] == a + b';
      assert (a + b)[|a + b| - 1] == b[|b| - 1];
      PossibleScoreAppend(a, b');
    }
  }

  /** One more question raises the total by that question's points. */
  lemma PossibleScorePrefix(qs: seq<Question>, i: nat)
    requires i < |qs|
    ensures PossibleScore(qs[..i + 1]) == PossibleScore(qs[..i]) + Points(qs[i])
  {
    assert qs[..i + 1][..i] == qs[..i];
  }

  lemma {:induction false} PossibleScoreBounds(qs: seq<Question>)
    ensures |qs| <= PossibleScore(qs) <= 4 * |qs|
  {
    if qs != [] {
      PossibleScoreBounds(qs[..|qs| - 1]);
    }
  }

  /** The total equals the number of questions exactly when no question is a
      matching one. */
  lemma {:induction false} PossibleScoreIsCountIffNoMatching(qs: seq<Question>)
    ensures PossibleScore(qs) == |qs| <==> forall k :: 0 <= k < |qs| ==> !qs[k].Matching?
  {
    if qs != [] {
      var init := qs[..|qs| - 1];
      PossibleScoreIsCountIffNoMatching(init);
      PossibleScoreBounds(init);
      assert forall k :: 0 <= k < |init| ==> init[k] == qs[k];
    }
  }

  /** Four one-point questions and one matching question: 8 possible points. */
  lemma PossibleScoreExample()
    ensures PossibleScore([
      MultipleChoice("q1", ["a", "b"], "a"),
      TrueFalse("q2", ["True", "False"], "True"),
      Matching("q3", ["A", "B", "C", "D"], ["W", "X", "Y", "Z"], map[]),
      FillInTheBlank("q4", ["paris"]),
      MultipleChoice("q5", ["a", "b"], "b")]) == 8
  {
    var qs := [
      MultipleChoice("q1", ["a", "b"], "a"),
      TrueFalse("q2", ["True", "False"], "True"),
      Matching("q3", ["A", "B", "C", "D"], ["W", "X", "Y", "Z"], map[]),
      FillInTheBlank("q4", ["paris"]),
      MultipleChoice("q5", ["a", "b"], "b")];
    assert PossibleScore(qs[..1]) == 1 by { assert qs[..1][..0] == []; }
    assert PossibleScore(qs[..2]) == 2 by { assert qs[..2][..1] == qs[..1]; }
    assert PossibleScore(qs[..3]) == 6 by { assert qs[..3][..2] == qs[..2]; }
    assert PossibleScore(qs[..4]) == 7 by { assert qs[..4][..3] == qs[..3]; }
    assert qs[..5][..4] == qs[..4];
  }
}
