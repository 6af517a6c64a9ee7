/** The `App` class of index.js: its fields, assigned in place by one method
    per handler. Each event method leaves `State()` equal to the state
    machine's step (module Session) from the state before, and keeps the
    invariant `Valid()`. */
module Quiz {
  import opened Seqs
  import opened Shuffle
  import opened QuizData
  import opened QuestionStore
  import opened Grading
  import opened Session

  class App {
    var questions: seq<Question>
    var currentIndex: nat
    var isSubmitted: bool
    var selectedOption: Option<string>
    var userScore: nat
    var currentDropdown: Option<Dropdown>
    // The page elements the handlers read and write, as values.
    var submitEnabled: bool
    var nextEnabled: bool
    var shownDropdowns: set<Dropdown>
    var buttonTexts: map<string, string>
    var inputValue: string
    var summary: Option<Summary>
    var renders: nat
    // The question whose elements `$currentQuestion` holds.
    var page: Option<Question>

    ghost function State(): AppState
      reads this
    {
      AppState(questions, currentIndex, isSubmitted, selectedOption, userScore,
               currentDropdown, submitEnabled, nextEnabled, shownDropdowns,
               buttonTexts, inputValue, summary, renders, page)
    }

    ghost predicate Valid()
      reads this
    {
      Inv(State())
    }

    constructor ()
      ensures State() == Initial() && Valid()
    {
      questions := [];
      currentIndex := 0;
      isSubmitted := false;
      selectedOption := None;
      userScore := 0;
      currentDropdown := None;
      submitEnabled := false;
      nextEnabled := false;
      shownDropdowns := {};
      buttonTexts := map[];
      inputValue := "";
      summary := None;
      renders := 0;
      page := None;
    }

    /** `init` (index.js:22-44) once the question file has been parsed into
        `pool`: load the question set, then show its first question. */
    method Init(pool: array<Question>, picks: seq<nat>)
      requires State() == Initial() && ValidPicks(picks, pool.Length)
      modifies this, pool
      ensures pool[..] == Shuffled(old(pool[..]), picks)
      ensures State() == Started(Initial(), Loaded(old(pool[..]), picks))
      ensures Valid()
    {
      questions := Load(pool, picks);
      NewQuestion();
      StartedSpec(questions);
    }

    /** `newQuestion` (index.js:56-73), with `renderQuestion` (index.js:75-93)
        reduced to the state it resets; a record of unknown type renders
        nothing. */
    method NewQuestion()
      modifies this
      ensures State() == NewQuestionStep(old(State()))
    {
      submitEnabled := false;
      nextEnabled := false;
      isSubmitted := false;
      selectedOption := None;
      if currentIndex < |questions| && !questions[currentIndex].Unrecognized? {
        var question := questions[currentIndex];
        page := Some(question);
        renders := renders + 1;
        shownDropdowns := {};
        buttonTexts := if question.Matching? then AllSelect(question.items) else map[];
        inputValue := "";
      }
    }

    /** `handleOptionClick` (index.js:247-260). */
    method HandleOptionClick(option: string)
      requires Valid() && Possible(State(), OptionClick(option))
      modifies this
      ensures State() == Step(old(State()), OptionClick(option)) && Valid()
    {
      StepKeepsInv(State(), OptionClick(option));
      if isSubmitted {
        return;
      }
      selectedOption := Some(option);
      submitEnabled := true;
    }

    /** The click listener of the dropdown button of item `i`
        (index.js:186-196). */
    method OpenDropdown(i: nat)
      requires Valid() && Possible(State(), DropdownOpen(i))
      modifies this
      ensures State() == Step(old(State()), DropdownOpen(i)) && Valid()
    {
      StepKeepsInv(State(), DropdownOpen(i));
      var menu := Dropdown(renders, i);
      if currentDropdown.None? {
        currentDropdown := Some(menu);
        shownDropdowns := shownDropdowns + {menu};
      } else {
        shownDropdowns := shownDropdowns - {currentDropdown.value};
        currentDropdown := Some(menu);
        shownDropdowns := shownDropdowns + {menu};
      }
    }

    /** The click listener of match `m` in the menu of item `i`
        (index.js:201-209). */
    method PickMatch(i: nat, m: string)
      requires Valid() && Possible(State(), MatchPick(i, m))
      modifies this
      ensures State() == Step(old(State()), MatchPick(i, m)) && Valid()
    {
      StepKeepsInv(State(), MatchPick(i, m));
      var item := page.value.items[i];
      buttonTexts := buttonTexts[item := m];
      shownDropdowns := shownDropdowns - {Dropdown(renders, i)};
      HandleMatchingClick();
    }

    /** `handleMatchingClick` (index.js:262-274). */
    method HandleMatchingClick()
      modifies this
      ensures State() == MatchingClicked(old(State()))
    {
      if isSubmitted {
        return;
      }
      if SelectLabel !in buttonTexts.Values {
        submitEnabled := true;
      }
    }

    /** The `input` listener of the fill-in-the-blank input (index.js:224-228)
        with the input's new value. */
    method InputText(value: string)
      requires Valid() && Possible(State(), TextInput(value))
      modifies this
      ensures State() == Step(old(State()), TextInput(value)) && Valid()
    {
      StepKeepsInv(State(), TextInput(value));
      inputValue := value;
      if value != "" {
        HandleTextInput();
      }
    }

    /** `handleTextInput` (index.js:276-282). */
    method HandleTextInput()
      modifies this
      ensures State() == TextInputHandled(old(State()))
    {
      if isSubmitted {
        return;
      }
      submitEnabled := true;
    }

    /** The click listener of the submit button (index.js:285-299). */
    method ClickSubmit()
      requires Valid() && Possible(State(), SubmitClick)
      modifies this
      ensures State() == Step(old(State()), SubmitClick) && Valid()
    {
      StepKeepsInv(State(), SubmitClick);
      if !submitEnabled {
        return;
      }
      var question := questions[currentIndex];
      if question.TrueFalse? || question.MultipleChoice? {
        ShowCorrectAnswer();
      } else if question.Matching? {
        var completed := ShowCorrectMatches();
        if !completed {
          // The answer-key lookup threw: the listener ends here.
          return;
        }
      } else if question.FillInTheBlank? {
        ShowCorrectFillInTheBlank();
      }
      nextEnabled := true;
    }

    /** `showCorrectAnswer` (index.js:319-337). */
    method ShowCorrectAnswer()
      requires HasCurrent(State()) && IsChoice(Current(State())) && selectedOption.Some?
      modifies this
      ensures State() == AnswerShown(old(State()))
    {
      var selected := selectedOption.value;
      var correct := questions[currentIndex].correctOption;
      if selected == correct {
        userScore := userScore + 1;
      }
      isSubmitted := true;
      submitEnabled := false;
    }

    /** `showCorrectMatches` (index.js:339-400) on the response held by the
        dropdown buttons. `completed` is false when the lookup of an item's
        key threw. */
    method ShowCorrectMatches() returns (completed: bool)
      requires HasCurrent(State()) && Current(State()).Matching?
      requires buttonTexts.Keys == set item | item in Current(State()).items
      modifies this
      ensures completed == MatchKeysComplete(old(State()))
      ensures State() == MatchesShown(old(State()))
    {
      var question := questions[currentIndex];
      var order := MatchOrder(question);
      assert Distinct(order) && forall x :: x in order <==> x in question.items;
      assert forall x :: x in order <==> x in buttonTexts;
      var points;
      points, completed := GradeMatches(order, buttonTexts, question.correctMatches);
      userScore := userScore + points;
      if !completed {
        return;
      }
      isSubmitted := true;
      submitEnabled := false;
    }

    /** `showCorrectFillInTheBlank` (index.js:402-428). */
    method ShowCorrectFillInTheBlank()
      requires HasCurrent(State()) && Current(State()).FillInTheBlank?
      modifies this
      ensures State() == FillInTheBlankShown(old(State()))
    {
      var isCorrect := GradeFillInTheBlank(questions[currentIndex].correctOptions, inputValue);
      if isCorrect {
        userScore := userScore + 1;
      }
      isSubmitted := true;
      submitEnabled := false;
    }

    /** The click listener of the next button (index.js:301-309). */
    method ClickNext()
      requires Valid() && Possible(State(), NextClick)
      modifies this
      ensures State() == Step(old(State()), NextClick) && Valid()
    {
      StepKeepsInv(State(), NextClick);
      if !nextEnabled {
        return;
      }
      currentIndex := currentIndex + 1;
      if currentIndex == |questions| {
        HandleEndOfQuiz();
      } else {
        NewQuestion();
      }
    }

    /** The document's click listener (index.js:311-316); `insideOption` says
        whether the click landed inside a question option. */
    method ClickDocument(insideOption: bool)
      requires Valid()
      modifies this
      ensures State() == Step(old(State()), DocumentClick(insideOption)) && Valid()
    {
      StepKeepsInv(State(), DocumentClick(insideOption));
      if currentDropdown.Some? && !insideOption {
        shownDropdowns := shownDropdowns - {currentDropdown.value};
        currentDropdown := None;
      }
    }

    /** `handleEndOfQuiz` (index.js:436-446). */
    method HandleEndOfQuiz()
      modifies this
      ensures State() == EndOfQuiz(old(State()))
    {
      var totalPossibleScore := PossibleScore(questions);
      summary := Some(Summary(userScore, totalPossibleScore));
    }

    /** The restart button's listener (index.js:450-472) once the question
        file has been parsed into `pool` again. */
    method Restart(pool: array<Question>, picks: seq<nat>)
      requires Valid() && summary.Some? && ValidPicks(picks, pool.Length)
      modifies this, pool
      ensures pool[..] == Shuffled(old(pool[..]), picks)
      ensures State() == Step(old(State()), RestartClick(Loaded(old(pool[..]), picks)))
      ensures Valid()
    {
      ghost var before := State();
      currentIndex := 0;
      userScore := 0;
      questions := Load(pool, picks);
      ghost var loaded := questions;
      assert State() == before.(currentIndex := 0, userScore := 0, questions := loaded);
      StepKeepsInv(before, RestartClick(loaded));
      NewQuestion();
      // `newQuestion` throws on an empty set, before the final view is left.
      if |questions| > 0 {
        summary := None;
      }
    }
  }
}
