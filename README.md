# Quiz session model

This project models the quiz session in `index.js`. The page loads a pool of question records and shuffles it in place with Fisher–Yates. It keeps the first 20 records and shows them one at a time. A question is multiple-choice, true/false, matching or fill-in-the-blank. The page grades each submitted response, keeps a running score, and shows the score against the total possible score at the end. The user can then restart.

Modules:

- `Seqs` (seqs.dfy): distinctness, and `Dedup`, which gives the order in which a JavaScript object enumerates keys that were inserted in a given order.
- `Shuffle` (shuffle.dfy): `shuffleArray` as an in-place method on an `array`. It is specified by `Shuffled`, a function on sequences. Lemmas prove that the shuffle is a permutation, keeps a pool free of duplicates, and fixes the last position to the element at the drawn index.
- `QuizData` (quiz_data.dfy): the question record as a datatype, with one constructor per type. A record of an unknown type is `Unrecognized`. This module also holds the end-of-quiz total-score fold.
- `QuestionStore` (question_store.dfy): loading the set: shuffle, then `slice(0, 20)`.
- `Grading` (grading.dfy): how each question type is scored. The two scoring loops of index.js are read-only methods, proved against reference predicates and functions.
- `Session` (session.dfy): the session as a state machine over values. It has one function per handler, an invariant `Inv`, and lemmas for what each handler promises. Runs of events keep the invariant, and between restarts the score never decreases.
- `Quiz` (app.dfy): the `App` class. Its fields are assigned in place, with one method per handler. After each event method, `State()` equals the state machine's step from the old state, and `Valid()` is kept.

Assumptions and decisions:

- **Page state as values.** The page elements the handlers read or write become values:
  - the submit and next buttons become `submitEnabled` and `nextEnabled`;
  - the shown dropdown menus become a set of menu identities; a menu is identified by the rendering it belongs to and its item position, so an element from an earlier rendering is stale;
  - the dropdown buttons become a map from item text to button text, reading "Select" until a match is picked;
  - the text input becomes its value;
  - the final text becomes a score/possible pair, present while the final view is shown.
- **Selected option.** `selectedOption` holds the text of the selected option element.
- **Random choices.** `Math.random` becomes a caller-supplied sequence `picks`, with `picks[i] <= i`.
- **Loading.** The fetch and JSON parsing become a parameter: the parsed pool, passed as an array.
- **Matching response.** A matching response is the map from item to chosen match. The grading loop visits the map's keys in insertion order, which is display order with duplicates dropped.
- **Matching lookup failure.** If an item's key is missing from `correctMatches`, the lookup `correct[...]` yields `undefined`, and `.replaceAll` on it throws. The model keeps this behaviour:
  - the points of the items graded before that item are kept;
  - the question stays unsubmitted;
  - submit stays enabled and next stays disabled.

  Counting a missing key as incorrect and going on would change this. The model follows the code.
- **No trimming.** The fill-in-the-blank rule compares lower-cased strings and does not trim the input (index.js:409), so `" paris"` is rejected. The model follows the code.
- **Empty question set.** `renderQuestion` throws when there is no question at the index. At start this means nothing is rendered and no listener is set up. At restart the final view stays. The model does the same: `newQuestion` resets its flags, and nothing is rendered.
- **Final view.** The question view's controls are taken to be out of reach while the final view is shown. Events on them require a question at the index (`Possible`).
- **Record of unknown type.** For an unknown `type`, `renderQuestion` only logs (index.js:90-91). It leaves the previous question's elements and their listeners on the page, and `newQuestion` has just cleared `isSubmitted`. The model keeps this: `page` names the question whose elements are on the page, and option, dropdown, pick and text events act on `page`. So a click on an old option enables submit. Submit then takes no branch and enables next while the record stays unsubmitted and scores nothing (`Session.SubmitUnrecognizedSpec`). Next moves past the record (`Session.PassUnrecognizedExample`). When no question was ever rendered the page has no controls, submit stays disabled, and the quiz cannot move past the record.
- **Score bound.** The score stays within the points of the questions reached only for well-formed questions (`Grading.WellFormed`). For a matching question, well-formed means at most 4 items, each with an entry in `correctMatches`. Other matching questions can break the bound. With more than 4 items a question can earn more points than the 4 the total counts. With a missing key, each repeated submit re-earns the points of the items graded before the key.

## Model

| member | source | states |
|---|---|---|
| Shuffle.ShuffleArray | index.js:46-54 | the array ends up as `Shuffled` of its old contents: a swap of `a[i]` and `a[picks[i]]` for `i` from the last index down to 1; its multiset is unchanged |
| Shuffle.Shuffled | index.js:46-54 | the whole shuffle of a sequence, steps `|s| - 1` down to 1 (definition; proved a permutation by `ShuffledPermutes`) |
| Shuffle.Swap | index.js:50 | exchanges exactly positions `i` and `j`, keeping the length and every other position |
| Shuffle.ShuffleDown | index.js:48-51 | the remaining steps of the shuffle keep the length |
| Shuffle.ShuffleDownPermutes | index.js:48-51 | the remaining steps of the shuffle keep the multiset of elements |
| Shuffle.ShuffledPermutes | index.js:46-54 | the shuffle is a permutation: same length, same multiset |
| Shuffle.ShuffleDownKeepsDistinct | index.js:48-51 | a pool without duplicates has none after the shuffle |
| Shuffle.ShuffleDownFixesAbove | index.js:48-51 | a step never touches positions above its index |
| Shuffle.ShuffledLast | index.js:48-50 | the last position receives the element at the index drawn for it |
| Seqs.Dedup | index.js:362-367 | the keys of the answers object in enumeration order: each item once, ordered by its first occurrence among the items; items without repeats are enumerated as they stand |
| Seqs.DedupExample | index.js:362-367 | items `["b", "a", "b"]` are enumerated as `["b", "a"]` |
| QuestionStore.Loaded | index.js:29-30 | the loaded set has `min(|pool|, 20)` questions, all from the pool, with a sub-multiset of pool elements, and no duplicates when the pool has none |
| QuestionStore.Load | index.js:458-461 | shuffles the pool in place and returns its first `min(|pool|, 20)` records |
| QuizData.Points | index.js:438 | a matching question is worth 4 points, any other question 1 (definition; its sums are stated by the lemmas below) |
| QuizData.PossibleScore | index.js:437-439 | the `reduce`: the sum of the questions' points, as a left fold (definition; see the lemmas below) |
| QuizData.PossibleScoreAppend | index.js:437-439 | the total of two concatenated sets is the sum of their totals |
| QuizData.PossibleScorePrefix | index.js:437-439 | one more question adds its own 4 or 1 points |
| QuizData.PossibleScoreBounds | index.js:437-439 | the total lies between the number of questions and four times that number |
| QuizData.PossibleScoreIsCountIffNoMatching | index.js:437-439 | the total equals the number of questions if and only if none of them is a matching question |
| QuizData.PossibleScoreExample | index.js:437-439 | four one-point questions and one matching question total 8 |
| Grading.ChoicePoints | index.js:320-328 | one point exactly when the selected text equals `correctOption`, otherwise none |
| Grading.ToLower | index.js:409 | lower-casing keeps the length, leaves no ASCII capital, and changes only ASCII capitals |
| Grading.ToLowerIdempotent | index.js:409 | lower-casing twice is lower-casing once |
| Grading.GradeFillInTheBlank | index.js:407-412 | the loop's `isCorrect` is true if and only if the lower-cased input equals some lower-cased correct option |
| Grading.Accepts | index.js:407-412 | the fill-in-the-blank verdict: some correct option equals the input once both are lower-cased (definition; the loop is proved equal to it) |
| Grading.AcceptsCaseVariants | index.js:408-412 | every correct option, and any spelling of it differing only in letter case, is accepted |
| Grading.AcceptsIgnoresCase | index.js:409 | lower-casing the input first never changes the verdict |
| Grading.FillInTheBlankExamples | index.js:407-412 | "Paris" is accepted for "paris"; "pariss", " paris" and "paris " are not, since nothing is trimmed |
| Grading.ReplaceAll | index.js:369-370 | replaces every occurrence of one character and leaves the others; none of it remains |
| Grading.MatchKey | index.js:368-369 | the answer-key lookup key of an item: its double quotes turned into single quotes (definition) |
| Grading.ExpectedMatch | index.js:368-370 | the expected match as compared: the stored value's single quotes turned into double quotes (definition) |
| Grading.ItemCorrect | index.js:367-387 | an item earns its point when its key is in the answer key and its choice equals the expected match (definition) |
| Grading.CountCorrect | index.js:385-387 | the points earned never exceed the number of items graded |
| Grading.FirstMissing | index.js:367-370 | the first item of the enumeration whose quote-swapped key is missing from the answer key, or the end if none is |
| Grading.GradeMatches | index.js:367-391 | the loop completes if and only if every answered item's key is in the answer key. The points are those of the items whose choice equals the expected match, counted up to the first missing key |
| Grading.WellFormedMatchingBounded | index.js:367-391 | on a well-formed matching question the loop completes and earns at most 4 points |
| Grading.MatchingExample | index.js:367-391 | items A, B with key {A: X, B: Y}: response {A: X, B: Y} earns 2 points, {A: Y, B: X} none |
| Grading.MatchingQuoteExample | index.js:368-370 | an item with double quotes finds its key stored with single quotes, and the stored value's single quotes compare as double quotes |
| Session.Rendered | index.js:75-93 | `renderQuestion`: a known type gets fresh elements (no menu shown, every button "Select", empty input); an unknown type changes nothing (definition) |
| Session.NewQuestionStep | index.js:56-73 | `newQuestion`: both buttons disabled, nothing submitted or selected, then the render (definition; see `NewQuestionSpec`) |
| Session.Started | index.js:22-34 | `init`: the loaded set, then `newQuestion` (definition; see `StartedSpec`) |
| Session.OptionClicked | index.js:247-260 | `handleOptionClick` (definition; see `OptionClickedSpec`) |
| Session.DropdownOpened | index.js:186-196 | the dropdown button's listener (definition; see `DropdownOpenedSpec`) |
| Session.MatchingClicked | index.js:262-274 | `handleMatchingClick` (definition; see `MatchPickedSpec`) |
| Session.MatchPicked | index.js:201-209 | the dropdown item's listener (definition; see `MatchPickedSpec`) |
| Session.TextInputHandled | index.js:276-282 | `handleTextInput` (definition; see `TextEnteredSpec`) |
| Session.TextEntered | index.js:224-228 | the input listener (definition; see `TextEnteredSpec`) |
| Session.AnswerShown | index.js:319-337 | `showCorrectAnswer`; with nothing selected the read of the text throws (definition; see `SubmitChoiceSpec`) |
| Session.MatchesShown | index.js:339-400 | `showCorrectMatches` with the loop's points up to the first missing key (definition; see the two matching lemmas) |
| Session.FillInTheBlankShown | index.js:402-428 | `showCorrectFillInTheBlank` (definition; see `SubmitFillInTheBlankSpec`) |
| Session.SubmitClicked | index.js:285-299 | the submit listener (definition; see the submit lemmas) |
| Session.EndOfQuiz | index.js:436-446 | `handleEndOfQuiz`: the final text with the score and the total (definition; see `NextClickedSpec`) |
| Session.NextClicked | index.js:301-309 | the next listener (definition; see `NextClickedSpec`) |
| Session.DocumentClicked | index.js:311-316 | the document's click listener (definition; see `DocumentClickedSpec`) |
| Session.Restarted | index.js:450-472 | the restart listener (definition; see `RestartedSpec`) |
| Session.Possible | index.js:284-317 | which events the page can deliver: controls of the question on the page, the restart button on the final view (definition) |
| Session.Inv | index.js:56-472 | what the handlers keep: buttons consistent with `isSubmitted`, submit on an open matching question only once every button shows a match, a known question's elements on the page, one open menu, the summary, the well-formed score bound (definition; see `StepKeepsInv`) |
| Session.AtMostOneDropdownShown | index.js:188-195 | under the one-open-dropdown rule at most one menu is shown, and none while none is tracked |
| Session.StartedSpec | index.js:22-34 | after the first load the invariant holds at index 0 and score 0, with submit and next disabled |
| Session.NewQuestionSpec | index.js:56-93 | `newQuestion` clears `isSubmitted` and `selectedOption`, disables submit and next, and keeps the set, index and score. A question of a known type replaces the page's elements: a fresh rendering with no menu shown, an empty input, and for a matching question every button reading "Select". A record of unknown type leaves the previous page, its menus, button texts and input in place |
| Session.SubmittedHandlersInert | index.js:247-282 | once submitted, `handleOptionClick`, `handleMatchingClick` and `handleTextInput` change nothing |
| Session.OptionClickedSpec | index.js:247-260 | before submission a click selects the option and enables submit; the invariant is kept |
| Session.DropdownOpenedSpec | index.js:186-196 | opening a menu hides the tracked one: afterwards exactly the new menu is shown and tracked |
| Session.MatchPickedSpec | index.js:201-209 | a pick sets the item's button text. Before submission, submit is then enabled if and only if it already was or no button still reads "Select". The score is unchanged |
| Session.TextEnteredSpec | index.js:224-228 | the input's value changes; submit becomes enabled if and only if it was enabled, or the question is unsubmitted and the value is non-empty |
| Session.DocumentClickedSpec | index.js:311-316 | a click outside every question option leaves no menu shown or tracked; a click inside changes nothing |
| Session.SubmitChoiceSpec | index.js:319-337 | the score rises by 1 exactly when the selected text equals `correctOption`, and is otherwise unchanged. The question is then submitted, submit disabled and next enabled |
| Session.SubmitFillInTheBlankSpec | index.js:402-428 | the score rises by 1 exactly when the input is accepted; the question is then submitted, submit disabled and next enabled |
| Session.SubmitMatchingSpec | index.js:339-400 | with every key present, the score rises by one per correctly matched item (at most the number of items), and the question is submitted with next enabled |
| Session.SubmitMatchingMissingSpec | index.js:367-370 | with some item's key missing, the score rises by exactly the points of the items graded before the first missing key, which is fewer than the number of items. The question stays unsubmitted, submit enabled, next disabled |
| Session.SubmitUnrecognizedSpec | index.js:285-298 | on a record of unknown type submit scores nothing and leaves it unsubmitted, but enables next |
| Session.MatchingSubmitNeedsComplete | index.js:262-274 | while a matching question is open, submit is enabled only when every item's button shows one of the question's matches |
| Session.SubmitDisabledInert | index.js:285-299 | a disabled submit button changes nothing |
| Session.SubmitClickedInv | index.js:285-299 | submitting keeps the invariant, including the score bound for well-formed questions |
| Session.NextClickedSpec | index.js:301-309 | the index rises by exactly 1. The end of the quiz is entered exactly when the index equals the number of questions, showing the score out of the total. Otherwise the next question starts fresh |
| Session.NextClickedInv | index.js:301-309 | advancing keeps the invariant |
| Session.RestartedSpec | index.js:448-472 | restart sets index and score to 0, installs the new set, leaves the final view when the set is non-empty, and keeps the invariant |
| Session.StepKeepsInv | index.js:284-317 | every event the page can deliver keeps the invariant, including clicks on the previous question's controls while a record of unknown type is current |
| Session.StepMonotone | index.js:284-317 | every event except restart keeps the question set and never lowers the score or the index |
| Session.RunKeepsInv | index.js:284-317 | any sequence of events keeps the invariant |
| Session.RunMonotone | index.js:284-317 | between restarts, along any sequence of events, the score never decreases and the index only grows within its bound |
| Session.FinalScoreWithinPossible | index.js:436-443 | with well-formed questions the final text never shows more points than the total possible score |
| Session.PassUnrecognizedExample | index.js:75-93 | after a single-choice question, a record of unknown type is passed by clicking the old options: submit enables next without scoring, and the quiz ends with 1 of 2 points |
| Session.ScenarioExample | index.js:285-309 | in a two-question quiz, submit with nothing selected is refused; a correct choice then scores 1, and next moves to question 2 with the buttons disabled |
| Quiz.App.constructor | index.js:2-20 | the initial state: no questions, index 0, score 0, nothing selected or tracked |
| Quiz.App.Init | index.js:22-44 | the pool is shuffled in place; the state is the loaded set with its first question shown |
| Quiz.App.NewQuestion | index.js:56-73 | the fields become `newQuestion`'s reset of the old state, with the current question rendered |
| Quiz.App.HandleOptionClick | index.js:247-260 | the fields change as `handleOptionClick` does; the invariant is kept |
| Quiz.App.OpenDropdown | index.js:186-196 | the fields change as the dropdown button's listener does; the invariant is kept |
| Quiz.App.PickMatch | index.js:201-209 | the fields change as the dropdown item's listener does; the invariant is kept |
| Quiz.App.HandleMatchingClick | index.js:262-274 | submit is enabled when unsubmitted and no button reads "Select"; nothing else changes |
| Quiz.App.InputText | index.js:224-228 | the fields change as the input listener does; the invariant is kept |
| Quiz.App.HandleTextInput | index.js:276-282 | submit is enabled when unsubmitted; nothing else changes |
| Quiz.App.ClickSubmit | index.js:285-299 | the fields change as the submit listener does; the invariant is kept |
| Quiz.App.ShowCorrectAnswer | index.js:319-337 | scores the selected option, marks the question submitted and disables submit |
| Quiz.App.ShowCorrectMatches | index.js:339-400 | adds the matching points and reports whether the loop ended without a missing key; only then is the question submitted and submit disabled |
| Quiz.App.ShowCorrectFillInTheBlank | index.js:402-428 | scores the input, marks the question submitted and disables submit |
| Quiz.App.ClickNext | index.js:301-309 | the fields change as the next listener does; the invariant is kept |
| Quiz.App.ClickDocument | index.js:311-316 | the fields change as the document's click listener does; the invariant is kept |
| Quiz.App.HandleEndOfQuiz | index.js:436-446 | the final text holds the score and the total possible score |
| Quiz.App.Restart | index.js:448-472 | the pool is shuffled in place; the fields change as the restart listener does; the invariant is kept |

## Left out

- Rendering:
  - `innerHTML` templates, `querySelector` and `classList`;
  - the correct/incorrect marks;
  - `escapeHTML`, which needs a browser `div`.

  Submit and next "disabled" are reduced to flags.
- The fetch of `questions.json`, JSON parsing and the async flow in `init` and `reset`: this is I/O. The parsed pool is a parameter, and a failed fetch, which is only logged, is not modelled.
- `Math.random`: replaced by caller-supplied indices with `0 <= j <= i`. Whether the shuffle is unbiased is a probabilistic property and is not stated.
- The shuffles done while rendering: options (index.js:97), and matching items and matches (index.js:149-150). They only change display order. The model takes the stored order as the display order, which decides which items are graded before a missing key.
- The progress bar (index.js:231-245, index.js:40): cosmetic and asynchronous.
- Reading the matching response back from the rendered page (index.js:345-365, index.js:374-383): the response is kept directly as the item-to-choice map.
- The raw-HTML passthrough for matching items containing "<" (index.js:168): presentation only.
- Listener registration, including the extra restart listener added at every end of quiz (index.js:450): each restart click is modelled once.
- Grading.ToLower: models only the ASCII letters, not JavaScript's full Unicode case mapping.
- Seqs.Dedup: does not model two JavaScript key-order details, because both need item texts the quiz never uses:
  - JavaScript enumerates integer-like keys first, in numeric order;
  - two equal item texts in one matching question have two dropdown buttons on the page but one map entry here.
- The text of a dropdown button is the chosen match as given. No `innerText` whitespace normalisation is applied.
