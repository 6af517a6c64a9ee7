/** The quiz session of `App` as a state machine over values: one function
    per handler of index.js, the invariant those handlers keep, and what each
    handler promises. The class in app.dfy changes its fields as these
    functions say. */
module Session {
  import opened Seqs
  import opened QuizData
  import opened QuestionStore
  import opened Grading

  /** A dropdown menu of a matching question: the rendering it belongs to and
      the position of its item. Every rendering replaces the elements of the
      previous one, so a menu of an earlier rendering is a stale element. */
  datatype Dropdown = Dropdown(render: nat, item: nat)

  /** The final text: the score and the total possible score. */
  datatype Summary = Summary(score: nat, possible: nat)

  /** The text of a dropdown button before a match is chosen. */
  const SelectLabel: string := "Select"

  /** The `maxlength` of the fill-in-the-blank input. */
  const InputMaxLength: nat := 25

  /** The fields of `App`, with the parts of the page the handlers read or
      write reduced to values: the two buttons' enabled flags, the shown
      dropdown menus, the text on each item's dropdown button, the value of
      the text input, the final text (present while the final view is
      shown), a count of renderings that gives page elements their
      identity, and the question whose elements `$currentQuestion` holds
      (the last one `renderQuestion` rendered; none before the first).
      `selectedOption` holds the text of the selected option. */
  datatype AppState = AppState(
    questions: seq<Question>,
    currentIndex: nat,
    isSubmitted: bool,
    selectedOption: Option<string>,
    userScore: nat,
    currentDropdown: Option<Dropdown>,
    submitEnabled: bool,
    nextEnabled: bool,
    shownDropdowns: set<Dropdown>,
    buttonTexts: map<string, string>,
    inputValue: string,
    summary: Option<Summary>,
    renders: nat,
    page: Option<Question>)

  /** The state the constructor sets up (index.js:2-20). */
  function Initial(): AppState {
    AppState([], 0, false, None, 0, None, false, false, {}, map[], "", None, 0, None)
  }

  predicate IsChoice(q: Question) {
    q.MultipleChoice? || q.TrueFalse?
  }

  /** A question is on screen: the index points into the question set. */
  predicate HasCurrent(s: AppState) {
    s.currentIndex < |s.questions|
  }

  function Current(s: AppState): Question
    requires HasCurrent(s)
  {
    s.questions[s.currentIndex]
  }

  /** Every item's dropdown button reading "Select". */
  function AllSelect(items: seq<string>): map<string, string> {
    map item | item in items :: SelectLabel
  }

  // ---------------------------------------------------------------------
  // The handlers

  /** `renderQuestion` (index.js:75-93) as far as the session sees it: the
      current question's fresh elements, no menu shown, every dropdown button
      reading "Select", an empty text input. A record of unknown type is only
      logged, and the previous question's elements stay on the page. */
  function Rendered(s: AppState): AppState
    requires HasCurrent(s)
  {
    var q := Current(s);
    if q.Unrecognized? then s
    else
      s.(page := Some(q), renders := s.renders + 1, shownDropdowns := {},
         buttonTexts := if q.Matching? then AllSelect(q.items) else map[],
         inputValue := "")
  }

  /** The question view is shown and holds the elements of a question. */
  predicate HasPage(s: AppState) {
    HasCurrent(s) && s.page.Some?
  }

  /** `newQuestion` (index.js:56-73): both buttons disabled, nothing
      submitted, nothing selected, the current question rendered. With no
      question at the index, `renderQuestion` throws after the reset. */
  function NewQuestionStep(s: AppState): AppState {
    var reset := s.(submitEnabled := false, nextEnabled := false,
                    isSubmitted := false, selectedOption := None);
    if HasCurrent(reset) then Rendered(reset) else reset
  }

  /** `init` after the constructor: the loaded set, then `newQuestion`. */
  function Started(s: AppState, loaded: seq<Question>): AppState {
    NewQuestionStep(s.(questions := loaded))
  }

  /** `handleOptionClick` (index.js:247-260). */
  function OptionClicked(s: AppState, option: string): AppState {
    if s.isSubmitted then s
    else s.(selectedOption := Some(option), submitEnabled := true)
  }

  /** A click on the dropdown button of item `i` (index.js:186-196): the
      tracked menu is hidden, the item's menu is shown and tracked. */
  function DropdownOpened(s: AppState, i: nat): AppState {
    var menu := Dropdown(s.renders, i);
    match s.currentDropdown
    case None => s.(currentDropdown := Some(menu), shownDropdowns := s.shownDropdowns + {menu})
    case Some(open) =>
      s.(shownDropdowns := s.shownDropdowns - {open} + {menu}, currentDropdown := Some(menu))
  }

  /** `handleMatchingClick` (index.js:262-274): submit is enabled once no
      dropdown button reads "Select". */
  function MatchingClicked(s: AppState): AppState {
    if s.isSubmitted then s
    else if SelectLabel !in s.buttonTexts.Values then s.(submitEnabled := true)
    else s
  }

  /** A click on match `m` in the menu of item `i` (index.js:201-209): the
      button shows the match, the menu is hidden, then `handleMatchingClick`. */
  function MatchPicked(s: AppState, i: nat, m: string): AppState
    requires s.page.Some? && s.page.value.Matching? && i < |s.page.value.items|
  {
    var item := s.page.value.items[i];
    MatchingClicked(s.(buttonTexts := s.buttonTexts[item := m],
                       shownDropdowns := s.shownDropdowns - {Dropdown(s.renders, i)}))
  }

  /** `handleTextInput` (index.js:276-282). */
  function TextInputHandled(s: AppState): AppState {
    if s.isSubmitted then s else s.(submitEnabled := true)
  }

  /** An `input` event (index.js:224-228): the value changes, and a non-empty
      value goes on to `handleTextInput`. */
  function TextEntered(s: AppState, value: string): AppState {
    var typed := s.(inputValue := value);
    if value != "" then TextInputHandled(typed) else typed
  }

  /** `showCorrectAnswer` (index.js:319-337). Without a selected option the
      read of its text throws before anything changes. */
  function AnswerShown(s: AppState): AppState
    requires HasCurrent(s) && IsChoice(Current(s))
  {
    match s.selectedOption
    case None => s
    case Some(selected) =>
      s.(userScore := s.userScore + ChoicePoints(selected, Current(s).correctOption),
         isSubmitted := true, submitEnabled := false)
  }

  /** The order in which the grading loop visits the items of a matching
      question: the keys of the answers object, inserted in display order. */
  function MatchOrder(q: Question): seq<string>
    requires q.Matching?
  {
    Dedup(q.items)
  }

  /** The grading loop of the current matching question runs to its end: no
      item's key is missing from the answer key. */
  predicate MatchKeysComplete(s: AppState)
    requires HasCurrent(s) && Current(s).Matching?
  {
    FirstMissing(MatchOrder(Current(s)), Current(s).correctMatches) == |MatchOrder(Current(s))|
  }

  /** `showCorrectMatches` (index.js:339-400): the points of the items
      graded before the loop stopped are added; only a loop that ran to its
      end goes on to mark the question submitted and disable submit. */
  function MatchesShown(s: AppState): AppState
    requires HasCurrent(s) && Current(s).Matching?
  {
    var q := Current(s);
    var order := MatchOrder(q);
    var f := FirstMissing(order, q.correctMatches);
    var scored := s.(userScore := s.userScore + CountCorrect(order[..f], s.buttonTexts, q.correctMatches));
    if MatchKeysComplete(s) then scored.(isSubmitted := true, submitEnabled := false) else scored
  }

  /** `showCorrectFillInTheBlank` (index.js:402-428). */
  function FillInTheBlankShown(s: AppState): AppState
    requires HasCurrent(s) && Current(s).FillInTheBlank?
  {
    var gained := if Accepts(Current(s).correctOptions, s.inputValue) then 1 else 0;
    s.(userScore := s.userScore + gained, isSubmitted := true, submitEnabled := false)
  }

  /** A click on the submit button (index.js:285-299). A disabled button
      delivers no click. The scoring helper of the question's type runs, then next is
      enabled, unless that helper threw. */
  function SubmitClicked(s: AppState): AppState
    requires HasCurrent(s)
  {
    if !s.submitEnabled then s
    else
      var q := Current(s);
      if IsChoice(q) then
        if s.selectedOption.None? then s else AnswerShown(s).(nextEnabled := true)
      else if q.Matching? then
        if MatchKeysComplete(s) then MatchesShown(s).(nextEnabled := true) else MatchesShown(s)
      else if q.FillInTheBlank? then FillInTheBlankShown(s).(nextEnabled := true)
      else s.(nextEnabled := true)
  }

  /** `handleEndOfQuiz` (index.js:436-446): the final text shows the score
      out of the total possible score. */
  function EndOfQuiz(s: AppState): AppState {
    s.(summary := Some(Summary(s.userScore, PossibleScore(s.questions))))
  }

  /** A click on the next button (index.js:301-309). */
  function NextClicked(s: AppState): AppState {
    if !s.nextEnabled then s
    else
      var advanced := s.(currentIndex := s.currentIndex + 1);
      if advanced.currentIndex == |s.questions| then EndOfQuiz(advanced)
      else NewQuestionStep(advanced)
  }

  /** A click anywhere on the page (index.js:311-316): one outside every
      question option hides the tracked menu and stops tracking it. */
  function DocumentClicked(s: AppState, insideOption: bool): AppState {
    match s.currentDropdown
    case Some(open) =>
      if insideOption then s
      else s.(shownDropdowns := s.shownDropdowns - {open}, currentDropdown := None)
    case None => s
  }

  /** A click on the restart button (index.js:450-472) once the set
      `loaded` has been loaded: index and score back to 0, then `newQuestion`,
      and the final view is left. With an empty set `newQuestion` throws and
      the final view stays. */
  function Restarted(s: AppState, loaded: seq<Question>): AppState {
    var reset := s.(currentIndex := 0, userScore := 0, questions := loaded);
    var next := NewQuestionStep(reset);
    if |loaded| > 0 then next.(summary := None) else next
  }

  // ---------------------------------------------------------------------
  // Events

  /** The user events the page delivers to the session. */
  datatype Event =
    | OptionClick(option: string)
    | DropdownOpen(item: nat)
    | MatchPick(item: nat, choice: string)
    | TextInput(value: string)
    | SubmitClick
    | NextClick
    | DocumentClick(insideOption: bool)
    | RestartClick(loaded: seq<Question>)

  /** The event can happen: its element is on the page. Options, dropdowns
      and the text input are those of the question whose elements the page
      holds: the current question, or while a record of unknown type is
      current, the question rendered before it. A match can be picked only
      from a shown menu; the question controls belong to the question view,
      the restart button to the final view. */
  predicate Possible(s: AppState, e: Event) {
    match e
    case OptionClick(option) =>
      HasPage(s) && IsChoice(s.page.value) && option in s.page.value.options
    case DropdownOpen(i) =>
      HasPage(s) && s.page.value.Matching? && i < |s.page.value.items|
    case MatchPick(i, m) =>
      HasPage(s) && s.page.value.Matching? && i < |s.page.value.items|
      && m in s.page.value.matches && Dropdown(s.renders, i) in s.shownDropdowns
    case TextInput(value) =>
      HasPage(s) && s.page.value.FillInTheBlank? && |value| <= InputMaxLength
    case SubmitClick => HasCurrent(s)
    case NextClick => HasCurrent(s)
    case DocumentClick(_) => true
    case RestartClick(loaded) => s.summary.Some? && |loaded| <= QuestionLimit
  }

  function Step(s: AppState, e: Event): AppState
    requires Possible(s, e)
  {
    match e
    case OptionClick(option) => OptionClicked(s, option)
    case DropdownOpen(i) => DropdownOpened(s, i)
    case MatchPick(i, m) => MatchPicked(s, i, m)
    case TextInput(value) => TextEntered(s, value)
    case SubmitClick => SubmitClicked(s)
    case NextClick => NextClicked(s)
    case DocumentClick(inside) => DocumentClicked(s, inside)
    case RestartClick(loaded) => Restarted(s, loaded)
  }

  /** The state after a sequence of events; an event that cannot happen in
      the state it meets changes nothing. */
  function Run(s: AppState, es: seq<Event>): AppState
    decreases |es|
  {
    if es == [] then s
    else Run(if Possible(s, es[0]) then Step(s, es[0]) else s, es[1..])
  }

  // ---------------------------------------------------------------------
  // The invariant

  /** The one-open-dropdown rule: a shown menu is always the tracked one. */
  predicate DropdownsConsistent(shown: set<Dropdown>, current: Option<Dropdown>) {
    forall d :: d in shown ==> current == Some(d)
  }

  /** The points the questions before the index are worth, and the current
      question's once it is submitted. */
  function ScoreBound(s: AppState): nat
    requires s.currentIndex <= |s.questions|
  {
    PossibleScore(s.questions[..s.currentIndex])
    + (if s.isSubmitted && HasCurrent(s) then Points(Current(s)) else 0)
  }

  ghost predicate Inv(s: AppState) {
    && s.currentIndex <= |s.questions| <= QuestionLimit
    && (s.isSubmitted ==> !s.submitEnabled)
    // Next is enabled only by a completed submission or on a record of
    // unknown type, which submit does not mark submitted.
    && (s.nextEnabled && HasCurrent(s) ==> s.isSubmitted || Current(s).Unrecognized?)
    // A question of a known type is the one whose elements are on the page.
    && (HasCurrent(s) && !Current(s).Unrecognized? ==> s.page == Some(Current(s)))
    && (s.submitEnabled && HasCurrent(s) && IsChoice(Current(s)) ==> s.selectedOption.Some?)
    && (s.page.Some? && s.page.value.Matching? ==>
          s.buttonTexts.Keys == set item | item in s.page.value.items)
    // Each dropdown button reads "Select" or one of the page's matches, and
    // an open matching question can be submitted only once every button
    // shows a match.
    && (s.page.Some? && s.page.value.Matching? ==>
          forall v :: v in s.buttonTexts.Values ==> v == SelectLabel || v in s.page.value.matches)
    && (s.submitEnabled && !s.isSubmitted && HasCurrent(s) && Current(s).Matching? ==>
          forall v :: v in s.buttonTexts.Values ==> v in Current(s).matches)
    && DropdownsConsistent(s.shownDropdowns, s.currentDropdown)
    && (s.summary.Some? ==> s.currentIndex == |s.questions|)
    && (s.summary.Some? && |s.questions| > 0 ==>
          s.summary.value == Summary(s.userScore, PossibleScore(s.questions)))
    && (AllWellFormed(s.questions) ==> s.userScore <= ScoreBound(s))
  }

  // ---------------------------------------------------------------------
  // What the handlers promise

  /** At most one menu is shown, and none while none is tracked. */
  lemma AtMostOneDropdownShown(shown: set<Dropdown>, current: Option<Dropdown>)
    requires DropdownsConsistent(shown, current)
    ensures |shown| <= 1
    ensures current.None? ==> shown == {}
  {
    if current.Some? {
      if current.value in shown {
        assert shown == {current.value};
      } else {
        assert shown == {};
      }
    }
  }

  /** The first load: a set of at most 20 questions, the first one rendered
      and nothing enabled. */
  lemma StartedSpec(loaded: seq<Question>)
    requires |loaded| <= QuestionLimit
    ensures Inv(Started(Initial(), loaded))
    ensures Started(Initial(), loaded).currentIndex == 0
    ensures Started(Initial(), loaded).userScore == 0
    ensures !Started(Initial(), loaded).submitEnabled && !Started(Initial(), loaded).nextEnabled
  {
  }

  /** `newQuestion` resets the submission state and disables both buttons.
      A question of a known type replaces the page's elements; a record of
      unknown type leaves the previous question's elements, their menus,
      button texts and input value in place. */
  lemma NewQuestionSpec(s: AppState)
    ensures var t := NewQuestionStep(s);
      !t.isSubmitted && t.selectedOption.None? && !t.submitEnabled && !t.nextEnabled
      && t.questions == s.questions && t.currentIndex == s.currentIndex && t.userScore == s.userScore
      && (HasCurrent(s) && !Current(s).Unrecognized? ==>
            t.page == Some(Current(s)) && t.renders == s.renders + 1
            && t.shownDropdowns == {} && t.inputValue == "")
      && (HasCurrent(s) && Current(s).Matching? ==> t.buttonTexts == AllSelect(Current(s).items))
      && (HasCurrent(s) && Current(s).Unrecognized? ==>
            t.page == s.page && t.shownDropdowns == s.shownDropdowns
            && t.buttonTexts == s.buttonTexts && t.inputValue == s.inputValue)
  {
  }

  /** Once submitted, the option, matching and text handlers change nothing. */
  lemma SubmittedHandlersInert(s: AppState)
    requires s.isSubmitted
    ensures forall option :: OptionClicked(s, option) == s
    ensures MatchingClicked(s) == s
    ensures TextInputHandled(s) == s
  {
  }

  /** Before submission, choosing an option enables submit. */
  lemma OptionClickedSpec(s: AppState, option: string)
    requires Inv(s) && Possible(s, OptionClick(option))
    ensures Inv(OptionClicked(s, option))
    ensures !s.isSubmitted ==>
      OptionClicked(s, option).selectedOption == Some(option) && OptionClicked(s, option).submitEnabled
  {
  }

  /** Opening a menu hides the one tracked before: afterwards exactly the new
      menu is shown, and it is tracked. */
  lemma DropdownOpenedSpec(s: AppState, i: nat)
    requires Inv(s) && Possible(s, DropdownOpen(i))
    ensures Inv(DropdownOpened(s, i))
    ensures DropdownOpened(s, i).shownDropdowns == {Dropdown(s.renders, i)}
    ensures DropdownOpened(s, i).currentDropdown == Some(Dropdown(s.renders, i))
  {
    AtMostOneDropdownShown(s.shownDropdowns, s.currentDropdown);
    var menu := Dropdown(s.renders, i);
    if s.currentDropdown.Some? {
      assert s.shownDropdowns - {s.currentDropdown.value} == {};
    }
    var t := DropdownOpened(s, i);
    assert t.shownDropdowns == {menu} && t.currentDropdown == Some(menu);
    assert t == s.(shownDropdowns := {menu}, currentDropdown := Some(menu));
    assert DropdownsConsistent(t.shownDropdowns, t.currentDropdown);
  }

  /** Picking a match records it on the item's button; before submission,
      submit becomes enabled exactly when no button reads "Select" any more
      (or it was enabled already). */
  lemma MatchPickedSpec(s: AppState, i: nat, m: string)
    requires Inv(s) && Possible(s, MatchPick(i, m))
    ensures Inv(MatchPicked(s, i, m))
    ensures MatchPicked(s, i, m).buttonTexts == s.buttonTexts[s.page.value.items[i] := m]
    ensures MatchPicked(s, i, m).userScore == s.userScore
    ensures !s.isSubmitted ==>
      (MatchPicked(s, i, m).submitEnabled <==>
         s.submitEnabled || SelectLabel !in s.buttonTexts[s.page.value.items[i] := m].Values)
    ensures s.isSubmitted ==> MatchPicked(s, i, m).submitEnabled == s.submitEnabled
  {
    var item := s.page.value.items[i];
    assert item in set x | x in s.page.value.items;
    assert s.buttonTexts[item := m].Keys == s.buttonTexts.Keys;
  }

  /** A non-empty input enables submit before submission; an empty one
      changes only the value. */
  lemma TextEnteredSpec(s: AppState, value: string)
    requires Inv(s) && Possible(s, TextInput(value))
    ensures Inv(TextEntered(s, value))
    ensures TextEntered(s, value).inputValue == value
    ensures TextEntered(s, value).submitEnabled == (s.submitEnabled || (!s.isSubmitted && value != ""))
  {
  }

  /** A click outside every question option leaves no menu shown or tracked. */
  lemma DocumentClickedSpec(s: AppState, insideOption: bool)
    requires Inv(s)
    ensures Inv(DocumentClicked(s, insideOption))
    ensures !insideOption ==>
      DocumentClicked(s, insideOption).shownDropdowns == {}
      && DocumentClicked(s, insideOption).currentDropdown.None?
    ensures insideOption ==> DocumentClicked(s, insideOption) == s
  {
    AtMostOneDropdownShown(s.shownDropdowns, s.currentDropdown);
    if s.currentDropdown.Some? {
      assert s.shownDropdowns - {s.currentDropdown.value} == {};
    }
  }

  /** Submitting a single-choice or true/false question adds one point exactly
      when the selected text equals the correct option, marks the question
      submitted, disables submit and enables next. */
  lemma SubmitChoiceSpec(s: AppState)
    requires Inv(s) && HasCurrent(s) && s.submitEnabled && IsChoice(Current(s))
    ensures var t := SubmitClicked(s);
      t.userScore == s.userScore + (if s.selectedOption.value == Current(s).correctOption then 1 else 0)
      && t.isSubmitted && !t.submitEnabled && t.nextEnabled
      && t.currentIndex == s.currentIndex && t.questions == s.questions
  {
  }

  /** Submitting a fill-in-the-blank question adds one point exactly when the
      input is accepted. */
  lemma SubmitFillInTheBlankSpec(s: AppState)
    requires Inv(s) && HasCurrent(s) && s.submitEnabled && Current(s).FillInTheBlank?
    ensures var t := SubmitClicked(s);
      t.userScore == s.userScore + (if Accepts(Current(s).correctOptions, s.inputValue) then 1 else 0)
      && t.isSubmitted && !t.submitEnabled && t.nextEnabled
  {
  }

  /** Submitting a matching question whose every item has an entry in the
      answer key adds one point per item whose chosen match equals the
      expected match, marks the question submitted, disables submit and
      enables next. */
  lemma SubmitMatchingSpec(s: AppState)
    requires Inv(s) && HasCurrent(s) && s.submitEnabled && Current(s).Matching?
    requires forall k :: 0 <= k < |Current(s).items| ==> MatchKey(Current(s).items[k]) in Current(s).correctMatches
    ensures var t := SubmitClicked(s);
      var q := Current(s);
      t.userScore == s.userScore + CountCorrect(MatchOrder(q), s.buttonTexts, q.correctMatches)
      && t.userScore <= s.userScore + |q.items|
      && t.isSubmitted && !t.submitEnabled && t.nextEnabled
  {
    var q := Current(s);
    var order := MatchOrder(q);
    forall x | x in order ensures MatchKey(x) in q.correctMatches {
      var k :| 0 <= k < |q.items| && q.items[k] == x;
    }
    assert order[..FirstMissing(order, q.correctMatches)] == order;
  }

  /** When an item of a matching question has no entry in the answer key,
      the lookup throws: exactly the points of the items graded before the
      first such item are added, fewer than the number of items, and the
      question stays unsubmitted with submit enabled and next disabled. */
  lemma SubmitMatchingMissingSpec(s: AppState, k: nat)
    requires Inv(s) && HasCurrent(s) && s.submitEnabled && Current(s).Matching?
    requires k < |Current(s).items| && MatchKey(Current(s).items[k]) !in Current(s).correctMatches
    ensures var t := SubmitClicked(s);
      var q := Current(s);
      var f := FirstMissing(MatchOrder(q), q.correctMatches);
      f < |MatchOrder(q)|
      && t.userScore == s.userScore + CountCorrect(MatchOrder(q)[..f], s.buttonTexts, q.correctMatches)
      && t.userScore < s.userScore + |q.items|
      && !t.isSubmitted && t.submitEnabled && !t.nextEnabled
  {
    var q := Current(s);
    assert q.items[k] in MatchOrder(q);
  }

  /** Submitting on a record of unknown type scores nothing and does not mark
      it submitted, but enables next. Submit stays enabled. */
  lemma SubmitUnrecognizedSpec(s: AppState)
    requires Inv(s) && HasCurrent(s) && s.submitEnabled && Current(s).Unrecognized?
    ensures var t := SubmitClicked(s);
      t.userScore == s.userScore && !t.isSubmitted && t.submitEnabled && t.nextEnabled
      && t.currentIndex == s.currentIndex
  {
  }

  /** Submit is enabled on an open matching question only when the response
      is complete: every item's button shows one of the question's matches. */
  lemma MatchingSubmitNeedsComplete(s: AppState)
    requires Inv(s) && HasCurrent(s) && Current(s).Matching?
    requires s.submitEnabled && !s.isSubmitted
    ensures forall item :: item in Current(s).items ==>
      item in s.buttonTexts && s.buttonTexts[item] in Current(s).matches
  {
    forall item | item in Current(s).items
      ensures item in s.buttonTexts && s.buttonTexts[item] in Current(s).matches
    {
      assert item in set x | x in Current(s).items;
      assert s.buttonTexts[item] in s.buttonTexts.Values;
    }
  }

  /** A disabled submit button changes nothing. */
  lemma SubmitDisabledInert(s: AppState)
    requires HasCurrent(s) && !s.submitEnabled
    ensures SubmitClicked(s) == s
  {
  }

  /** Submitting keeps the invariant, and with well-formed questions the
      score stays within the points of the questions reached. */
  lemma SubmitClickedInv(s: AppState)
    requires Inv(s) && HasCurrent(s)
    ensures Inv(SubmitClicked(s))
  {
    if s.submitEnabled {
      var q := Current(s);
      if q.Matching? && AllWellFormed(s.questions) {
        assert WellFormed(s.questions[s.currentIndex]);
        WellFormedMatchingBounded(q, s.buttonTexts);
        assert MatchOrder(q)[..|MatchOrder(q)|] == MatchOrder(q);
      }
    }
  }

  /** Next moves the index on by exactly one; the quiz ends exactly when the
      index reaches the number of questions, and otherwise the next question
      starts unsubmitted with both buttons disabled. */
  lemma NextClickedSpec(s: AppState)
    requires Inv(s) && HasCurrent(s) && s.nextEnabled
    ensures var t := NextClicked(s);
      t.currentIndex == s.currentIndex + 1 && t.userScore == s.userScore
      && (t.summary.Some? <==> t.currentIndex == |s.questions|)
      && (t.summary.Some? ==> t.summary.value == Summary(s.userScore, PossibleScore(s.questions)))
      && (t.currentIndex < |s.questions| ==>
            !t.isSubmitted && t.selectedOption.None? && !t.submitEnabled && !t.nextEnabled)
  {
  }

  lemma NextClickedInv(s: AppState)
    requires Inv(s) && HasCurrent(s)
    ensures Inv(NextClicked(s))
  {
    if s.nextEnabled {
      var i := s.currentIndex;
      PossibleScorePrefix(s.questions, i);
      assert s.questions[..|s.questions|] == s.questions;
    }
  }

  /** Restart sets index and score to 0 and shows the new set's first question. */
  lemma RestartedSpec(s: AppState, loaded: seq<Question>)
    requires Inv(s) && Possible(s, RestartClick(loaded))
    ensures Inv(Restarted(s, loaded))
    ensures Restarted(s, loaded).currentIndex == 0 && Restarted(s, loaded).userScore == 0
    ensures Restarted(s, loaded).questions == loaded
    ensures |loaded| > 0 ==> Restarted(s, loaded).summary.None?
  {
  }

  /** Every event keeps the invariant. */
  lemma StepKeepsInv(s: AppState, e: Event)
    requires Inv(s) && Possible(s, e)
    ensures Inv(Step(s, e))
  {
    match e
    case OptionClick(option) => OptionClickedSpec(s, option);
    case DropdownOpen(i) => DropdownOpenedSpec(s, i);
    case MatchPick(i, m) => MatchPickedSpec(s, i, m);
    case TextInput(value) => TextEnteredSpec(s, value);
    case SubmitClick => SubmitClickedInv(s);
    case NextClick => NextClickedInv(s);
    case DocumentClick(inside) => DocumentClickedSpec(s, inside);
    case RestartClick(loaded) => RestartedSpec(s, loaded);
  }

  /** Every event but restart keeps the question set, and never lowers the
      score or the index. */
  lemma StepMonotone(s: AppState, e: Event)
    requires Inv(s) && Possible(s, e) && !e.RestartClick?
    ensures Step(s, e).questions == s.questions
    ensures Step(s, e).userScore >= s.userScore
    ensures Step(s, e).currentIndex >= s.currentIndex
  {
  }

  lemma {:induction false} RunKeepsInv(s: AppState, es: seq<Event>)
    requires Inv(s)
    ensures Inv(Run(s, es))
    decreases |es|
  {
    if es != [] {
      var t := if Possible(s, es[0]) then Step(s, es[0]) else s;
      if Possible(s, es[0]) {
        StepKeepsInv(s, es[0]);
      }
      RunKeepsInv(t, es[1..]);
    }
  }

  /** Between restarts the score never decreases, the index never moves
      back, and both stay within their bounds. */
  lemma {:induction false} RunMonotone(s: AppState, es: seq<Event>)
    requires Inv(s)
    requires forall k :: 0 <= k < |es| ==> !es[k].RestartClick?
    ensures Run(s, es).questions == s.questions
    ensures Run(s, es).userScore >= s.userScore
    ensures s.currentIndex <= Run(s, es).currentIndex <= |s.questions|
    decreases |es|
  {
    if es != [] {
      var t := if Possible(s, es[0]) then Step(s, es[0]) else s;
      if Possible(s, es[0]) {
        StepKeepsInv(s, es[0]);
        StepMonotone(s, es[0]);
      }
      RunKeepsInv(t, es[1..]);
      RunMonotone(t, es[1..]);
    }
  }

  /** With well-formed questions the final text never shows more points than
      the total possible score. */
  lemma FinalScoreWithinPossible(s: AppState)
    requires Inv(s) && AllWellFormed(s.questions) && s.summary.Some? && |s.questions| > 0
    ensures s.summary.value.score <= s.summary.value.possible
  {
    assert s.questions[..s.currentIndex] == s.questions;
  }

  /** The scenario of a two-question quiz: submit is refused while nothing is
      selected, then a correct choice is submitted and next moves on to the
      second question. */
  lemma ScenarioExample()
    ensures var qs := [TrueFalse("p1", ["True", "False"], "True"),
                       MultipleChoice("p2", ["a", "b", "c"], "b")];
      var s0 := Started(Initial(), qs);
      var s1 := SubmitClicked(s0);
      var s2 := OptionClicked(s1, "True");
      var s3 := SubmitClicked(s2);
      var s4 := NextClicked(s3);
      s0.currentIndex == 0 && s1 == s0 && s2.submitEnabled
      && s3.isSubmitted && s3.userScore == 1 && s3.nextEnabled
      && s4.currentIndex == 1 && !s4.isSubmitted && !s4.submitEnabled && s4.userScore == 1
  {
  }

  /** A record of unknown type after a single-choice question: the first
      question's options are still on the page, a click on one enables
      submit, submit enables next without scoring, and next ends the quiz
      with 1 point out of 2. */
  lemma PassUnrecognizedExample()
    ensures var qs := [MultipleChoice("p1", ["a", "b"], "a"), Unrecognized("p2", "essay")];
      var s0 := Started(Initial(), qs);
      var s1 := OptionClicked(s0, "a");
      var s2 := SubmitClicked(s1);
      var s3 := NextClicked(s2);
      var s4 := OptionClicked(s3, "b");
      var s5 := SubmitClicked(s4);
      var s6 := NextClicked(s5);
      Possible(s0, OptionClick("a")) && s2.userScore == 1 && s3.currentIndex == 1
      && s3.page == Some(qs[0]) && Possible(s3, OptionClick("b"))
      && s4.submitEnabled && s5.nextEnabled && !s5.isSubmitted && s5.userScore == 1
      && s6.summary == Some(Summary(1, 2))
  {
    var qs := [MultipleChoice("p1", ["a", "b"], "a"), Unrecognized("p2", "essay")];
    assert PossibleScore(qs[..1]) == 1;
    assert qs[..2][..1] == qs[..1];
  }
}
