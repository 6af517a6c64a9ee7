/** How the submit handler scores an answer, in its three helpers: `showCorrectAnswer`
    (index.js:319-337), `showCorrectMatches` (index.js:339-400) and
    `showCorrectFillInTheBlank` (index.js:402-428). Each loop of index.js
    is a method here that reads its inputs and returns what the loop
    computed; the session adds the points to the score. */
module Grading {
  import opened Seqs
  import opened QuizData

  // ---------------------------------------------------------------------
  // Single choice and true/false

  /** Exact string equality between the chosen option's text and the
      correct option: one point or none. */
  function ChoicePoints(selected: string, correctOption: string): (p: nat)
    ensures p <= 1
    ensures p == 1 <==> selected == correctOption
  {
    if selected == correctOption then 1 else 0
  }

  // ---------------------------------------------------------------------
  // Fill in the blank

  /** `toLowerCase` on one character, for the ASCII letters. */
  function LowerChar(c: char): char {
    if 'A' <= c <= 'Z' then (c as int + 32) as char else c
  }

  function ToLower(s: string): (r: string)
    ensures |r| == |s|
    ensures forall k :: 0 <= k < |r| ==> !('A' <= r[k] <= 'Z')
    ensures forall k :: 0 <= k < |s| && !('A' <= s[k] <= 'Z') ==> r[k] == s[k]
    ensures forall k :: 0 <= k < |s| && 'A' <= s[k] <= 'Z' ==> r[k] as int == s[k] as int + 32
  {
    seq(|s|, k requires 0 <= k < |s| => LowerChar(s[k]))
  }

  lemma ToLowerIdempotent(s: string)
    ensures ToLower(ToLower(s)) == ToLower(s)
  {
    var t := ToLower(s);
    assert forall k :: 0 <= k < |t| ==> ToLower(t)[k] == t[k];
  }

  /** The fill-in-the-blank rule: the input is accepted when, lower-cased, it
      equals some correct option lower-cased. Nothing is trimmed. */
  predicate Accepts(correctOptions: seq<string>, input: string) {
    exists k :: 0 <= k < |correctOptions| && ToLower(input) == ToLower(correctOptions[k])
  }

  /** The loop of `showCorrectFillInTheBlank`: `isCorrect` starts false and
      becomes true at every correct option that matches. */
  method GradeFillInTheBlank(correctOptions: seq<string>, input: string) returns (isCorrect: bool)
    ensures isCorrect == Accepts(correctOptions, input)
  {
    isCorrect := false;
    for k := 0 to |correctOptions|
      invariant isCorrect <==> exists m :: 0 <= m < k && ToLower(input) == ToLower(correctOptions[m])
    {
      if ToLower(input) == ToLower(correctOptions[k]) {
        isCorrect := true;
      }
    }
  }

  /** Every correct option is accepted as typed, and so is any spelling that
      differs from one only in the case of its letters. */
  lemma AcceptsCaseVariants(correctOptions: seq<string>, k: nat, input: string)
    requires k < |correctOptions|
    requires ToLower(input) == ToLower(correctOptions[k])
    ensures Accepts(correctOptions, input)
    ensures Accepts(correctOptions, correctOptions[k])
    ensures Accepts(correctOptions, ToLower(input))
  {
    ToLowerIdempotent(input);
  }

  /** Lower-casing the input first never changes the verdict. */
  lemma AcceptsIgnoresCase(correctOptions: seq<string>, input: string)
    ensures Accepts(correctOptions, ToLower(input)) == Accepts(correctOptions, input)
  {
    ToLowerIdempotent(input);
  }

  /** "Paris" is accepted for "paris"; "pariss" is not, and neither is
      " paris" nor "paris ", since the input is not trimmed. */
  lemma FillInTheBlankExamples()
    ensures Accepts(["paris"], "Paris")
    ensures !Accepts(["paris"], "pariss")
    ensures !Accepts(["paris"], " paris")
    ensures !Accepts(["paris"], "paris ")
  {
    var lower := ToLower("Paris");
    assert lower[0] == 'p';
    assert lower == "paris";
    assert ToLower(["paris"][0]) == "paris";
    assert |ToLower("pariss")| == 6;
    assert ToLower(" paris")[0] == ' ';
    assert ToLower("paris ")[5] == ' ';
  }

  // ---------------------------------------------------------------------
  // Matching

  /** `replaceAll(from, to)` for single characters. */
  function ReplaceAll(s: string, from: char, to: char): (r: string)
    ensures |r| == |s|
    ensures from != to ==> from !in r
    ensures forall k :: 0 <= k < |s| && s[k] != from ==> r[k] == s[k]
    ensures forall k :: 0 <= k < |s| && s[k] == from ==> r[k] == to
  {
    seq(|s|, k requires 0 <= k < |s| => if s[k] == from then to else s[k])
  }

  /** The key under which the answer key stores an item: its double quotes
      turned into single quotes. */
  function MatchKey(item: string): string {
    ReplaceAll(item, '"', '\'')
  }

  /** The expected match as compared with the chosen one: the stored value's
      single quotes turned into double quotes. */
  function ExpectedMatch(value: string): string {
    ReplaceAll(value, '\'', '"')
  }

  /** One item of a matching response earns its point: the answer key has an
      entry for it and the chosen match equals that entry's value. */
  predicate ItemCorrect(answers: map<string, string>, correct: map<string, string>, item: string) {
    item in answers && MatchKey(item) in correct
    && answers[item] == ExpectedMatch(correct[MatchKey(item)])
  }

  /** The number of items in `order` that earn their point. */
  function CountCorrect(order: seq<string>, answers: map<string, string>,
                        correct: map<string, string>): (n: nat)
    ensures n <= |order|
  {
    if order == [] then 0
    else CountCorrect(order[..|order| - 1], answers, correct)
         + (if ItemCorrect(answers, correct, order[|order| - 1]) then 1 else 0)
  }

  /** The position of the first item in `order` whose key is missing from the
      answer key, or `|order|` when there is none. */
  function FirstMissing(order: seq<string>, correct: map<string, string>): (f: nat)
    ensures f <= |order|
    ensures forall k :: 0 <= k < f ==> MatchKey(order[k]) in correct
    ensures f < |order| ==> MatchKey(order[f]) !in correct
  {
    if order == [] then 0
    else if MatchKey(order[0]) !in correct then 0
    else 1 + FirstMissing(order[1..], correct)
  }

  /** The loop of `showCorrectMatches` over the keys of `answers`, which it
      enumerates in `order`. Each item whose choice equals the expected match
      earns a point; the lookup of a key the answer key lacks throws, which
      ends the loop with the points earned so far (`completed` false). */
  method GradeMatches(order: seq<string>, answers: map<string, string>,
                      correct: map<string, string>) returns (points: nat, completed: bool)
    requires Distinct(order) && forall x :: x in order <==> x in answers
    ensures completed <==> FirstMissing(order, correct) == |order|
    ensures completed <==> forall x :: x in answers ==> MatchKey(x) in correct
    ensures points == CountCorrect(order[..FirstMissing(order, correct)], answers, correct)
  {
    points := 0;
    var k := 0;
    while k < |order|
      invariant 0 <= k <= |order|
      invariant forall m :: 0 <= m < k ==> MatchKey(order[m]) in correct
      invariant points == CountCorrect(order[..k], answers, correct)
    {
      var item := order[k];
      var key := MatchKey(item);
      if key !in correct {
        completed := false;
        return;
      }
      assert order[..k + 1][..k] == order[..k];
      if answers[item] == ExpectedMatch(correct[key]) {
        points := points + 1;
      }
      k := k + 1;
    }
    assert order[..k] == order;
    completed := true;
  }

  /** A matching question whose answer key works as intended with `showCorrectMatches`:
      at most four items (the points the end-of-quiz total counts for it),
      each with an entry in the answer key. */
  predicate WellFormed(q: Question) {
    q.Matching? ==>
      |q.items| <= 4 && forall k :: 0 <= k < |q.items| ==> MatchKey(q.items[k]) in q.correctMatches
  }

  predicate AllWellFormed(qs: seq<Question>) {
    forall k :: 0 <= k < |qs| ==> WellFormed(qs[k])
  }

  /** On a well-formed matching question the grading loop always completes
      and earns at most the question's points. */
  lemma WellFormedMatchingBounded(q: Question, answers: map<string, string>)
    requires q.Matching? && WellFormed(q)
    ensures FirstMissing(Dedup(q.items), q.correctMatches) == |Dedup(q.items)|
    ensures CountCorrect(Dedup(q.items), answers, q.correctMatches) <= Points(q)
  {
    forall x | x in Dedup(q.items) ensures MatchKey(x) in q.correctMatches {
      assert x in q.items;
      var k :| 0 <= k < |q.items| && q.items[k] == x;
    }
  }

  /** Items ["A", "B"] with key {A: X, B: Y}: the response {A: X, B: Y} earns
      2 points and {A: Y, B: X} earns none. */
  lemma MatchingExample()
    ensures CountCorrect(["A", "B"], map["A" := "X", "B" := "Y"], map["A" := "X", "B" := "Y"]) == 2
    ensures CountCorrect(["A", "B"], map["A" := "Y", "B" := "X"], map["A" := "X", "B" := "Y"]) == 0
  {
    assert MatchKey("A") == "A" && MatchKey("B") == "B";
    assert ExpectedMatch("X") == "X" && ExpectedMatch("Y") == "Y";
    assert ["A", "B"][..1] == ["A"] && ["A"][..0] == [];
  }

  /** Quotes are normalised on both sides: an item written with double quotes
      finds its entry stored with single quotes, and the stored value's single
      quotes are compared as double quotes. */
  lemma MatchingQuoteExample()
    ensures ItemCorrect(map["say \"hi\"" := "a \"b\""], map["say 'hi'" := "a 'b'"], "say \"hi\"")
    ensures !ItemCorrect(map["say \"hi\"" := "a 'b'"], map["say 'hi'" := "a 'b'"], "say \"hi\"")
  {
    assert MatchKey("say \"hi\"") == "say 'hi'";
    assert ExpectedMatch("a 'b'") == "a \"b\"";
  }
}
