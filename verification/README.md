# Interactive English Learning Book — answer state and grading

This project models the core of the `InteractiveBook` class of the
interactive English learning book (`script.js`): the answer store, the
chapter check that grades the learner's answers, the statistics derived
from the store, the saved progress record, and chapter navigation by key
and by swipe.

- **Content** (`content.dfy`). A book is a sequence of chapters. Each
  chapter holds questions of five kinds: multiple choice, reading passage,
  fill in the blank, drag and drop, and any other `type`, kept as
  `Unsupported`. The `correct` field of a question is either one value or
  an array of accepted values (`Accepted`). A question is identified by
  the pair (chapter index, question index); the source writes this as the
  string `q_<c>_<i>`. The answer store maps these keys to records
  `{answer, isCorrect}`. A record whose `isCorrect` is absent is an
  ungraded selection. A question is *checked* when its record exists and
  `isCorrect` is defined. What the page shows for a question when the
  chapter is checked (the selected option, the typed text, the drop-zone
  texts) is passed in as a `Screen` value.
- **Text** (`text.dfy`). `String.prototype.trim`, using the white-space
  and line-terminator characters of ECMAScript (ECMA-262, sections 12.2
  and 12.3), and lower-casing of ASCII letters.
- **Grading** (`grading.dfy`). How one question is graded from its
  screen:
  - Choice questions: an index in the accepted array, or equal to the
    scalar.
  - Fill in the blank: trimmed, and compared without regard to case.
  - Drag and drop: trimmed zone texts. A zone left at `Drop here` or left
    empty makes the answer incomplete. Otherwise the zones are compared
    with the expected order, position by position.
- **ChapterCheck** (`chaptercheck.dfy`). The loop of
  `checkCurrentChapterAnswers` as a fold over the chapter's questions.
  `CheckedUpTo` states its effect question by question.
- **Stats** (`stats.dfy`). The totals, correct count, accuracy and
  completed-chapter count of `calculateTotalQuestions` and
  `updateStats`.
- **Persistence** (`persistence.dfy`). The record `saveProgress` writes,
  and the defaults `loadProgress` applies to a parsed record.
- **Navigation** (`navigation.dfy`). The chapter index an arrow key or a
  swipe asks for.
- **InteractiveBook** (`book.dfy`). The class `Book`, with the state the
  source updates in place. Its methods are proved against the functions
  above.

Four behaviours of the code that a reader might not expect, all kept in the model:
- `selectOption` overwrites any record, a checked one included. Such a
  question becomes ungraded again and is regraded at the next check
  (`InteractiveBook.Book.SelectOption`).
- The accuracy is taken over every stored record, ungraded selections
  included (`Object.keys(this.userAnswers).length`), not over checked
  questions only.
- `loadProgress` merges the saved `stats` object over the current one. A
  saved `totalQuestions` therefore replaces the total computed from the
  loaded content.
- A question of an unknown `type` counts as attempted, but nothing is
  stored for it. It is never checked, so its chapter never counts as
  completed.

## Model

| member | source | states |
|---|---|---|
| Text.TrimStartSpec | script.js:418 | trimming the start keeps a suffix, removes only white space, and leaves no white space in front |
| Text.TrimEndSpec | script.js:418 | trimming the end keeps a prefix, removes only white space, and leaves no white space at the end |
| Text.TrimSpec | script.js:418 | `trim` returns a contiguous slice of the input; everything cut off is white space; the result neither starts nor ends with white space |
| Text.Trim | script.js:418 | definition of `String.prototype.trim` as trimming the start then the end; specified by Text.TrimSpec, Text.TrimEmptyIff and Text.TrimIdempotent |
| Text.TrimStartEmptyIff | script.js:418-419 | trimming the start yields the empty string exactly when the input is all white space |
| Text.TrimEmptyIff | script.js:418-419 | the trimmed input is empty (falsy) exactly when the input is all white space |
| Text.TrimIdempotent | script.js:418 | trimming twice is trimming once |
| Text.Lower | script.js:423 | lower-casing keeps the length and maps each character on its own |
| Text.LowerIdempotent | script.js:423 | lower-casing twice is lower-casing once |
| Text.SameIgnoringCaseIff | script.js:423 | two strings agree after lower-casing iff they have equal length and agree character by character up to ASCII case |
| Grading.LowerAll | script.js:423 | `q.correct.map(s => s.toLowerCase())` lower-cases each accepted text in place |
| Grading.TrimAll | script.js:430 | the zone texts are trimmed one by one, keeping their number and order |
| Grading.ChoiceMatches | script.js:411 | definition of the choice verdict (`includes` on an array, `===` on a scalar); specified by Grading.ChoiceGradeSpec |
| Grading.TextMatches | script.js:423 | definition of the fill-in-blank verdict on lowered texts; specified by Grading.LowerAllMember and Grading.BlankGradeSpec |
| Grading.HasUnfilledSlot | script.js:432 | definition of the `some(text => text === 'Drop here' \|\| text === '')` test; specified by Grading.DragDropGradeSpec |
| Grading.Grade | script.js:402-440 | a question can be graded at all iff its type is one of the four known types; a graded answer is an option index exactly for the choice types |
| Grading.ChoiceGradeSpec | script.js:402-414 | a choice question with no selection is incomplete; with a selection it is graded, stored as that index, and correct iff the index is in the accepted array or equals the scalar |
| Grading.LowerAllMember | script.js:423 | the lowered input is in the lowered accepted array iff it matches some accepted text, ignoring case |
| Grading.BlankGradeSpec | script.js:416-426 | a blank whose input is all white space is incomplete; otherwise the trimmed input is stored, and it is correct iff it matches the scalar, or some array element, ignoring case |
| Grading.DragDropGradeSpec | script.js:428-439 | a drag-drop question is incomplete iff some trimmed zone is `Drop here` or empty; otherwise the trimmed zones are stored with no dropped items, and the answer is correct iff they equal the expected order in length and position by position |
| Grading.BlankGradeIgnoresCase | script.js:423 | two inputs that differ only in ASCII case after trimming get the same completeness and the same verdict |
| Grading.ExpectedTextIsCorrect | script.js:418-425 | typing the expected text of a single-answer blank, in any case and with any white space around it, is graded correct |
| Grading.ExpectedOrderIsCorrect | script.js:430-438 | placing the expected items in the expected order is graded correct |
| Grading.PartialFillIsIncomplete | script.js:432-434 | a zone still showing `Drop here` makes the answer incomplete even when the other zones are filled |
| Content.IsChecked | script.js:264 | definition of "checked": a record exists and its `isCorrect` is defined, the test of script.js:264, 397 and 614; used by every ChapterCheck and Stats lemma |
| ChapterCheck.CheckOne | script.js:396-439 | definition of one iteration of the forEach: skip a checked question, store a graded one with its verdict, leave the rest; specified by ChapterCheck.CheckPrefixSpec |
| ChapterCheck.CheckPrefix | script.js:389-450 | definition of the forEach as a left fold over the first n questions; specified by ChapterCheck.CheckPrefixSpec |
| ChapterCheck.CheckChapter | script.js:389-450 | definition of the whole forEach over the chapter; specified by ChapterCheck.CheckPrefixSpec, NeverRegrades, CheckKeepsRecords and CheckAgainChangesNothing |
| Content.AllChecked | script.js:261-265 | definition of the `chapter.questions.every(...)` test whose value `ShowChapter` returns; specified by Stats.ChapterCompleteIff |
| ChapterCheck.Attempted | script.js:394 | definition of the per-question flag `currentQuestionAttempted`, set at 394, cleared at 409, 421 and 434 and read at 443; specified by ChapterCheck.AllAttemptedChecksChapter |
| ChapterCheck.AllAttempted | script.js:443-444 | definition of the flag that starts true (script.js:387) and is cleared by any incomplete question; specified by ChapterCheck.AllAttemptedChecksChapter and CheckAgainChangesNothing |
| ChapterCheck.CheckPrefixSpec | script.js:389-450 | after the first n questions are visited, keys outside them are unchanged, checked questions keep their record, newly graded questions hold the answer and its verdict, and ungradable or incomplete ones are left as they were |
| ChapterCheck.NeverRegrades | script.js:396-400 | a record whose `isCorrect` is defined is kept unchanged by a check |
| ChapterCheck.CheckKeepsRecords | script.js:389-450 | a check never removes a record and never un-checks a question |
| ChapterCheck.CheckAgainChangesNothing | script.js:396-400 | after a check that reported every question attempted, checking the chapter again changes nothing, whatever the screen shows |
| ChapterCheck.AllAttemptedChecksChapter | script.js:442-454 | when every question was attempted and none is of an unknown type, every question of the chapter is checked afterwards |
| Stats.RowKeys | script.js:189-190 | a chapter with n questions contributes exactly the n keys (c, 0..n-1) |
| Stats.TotalQuestions | script.js:189-191 | definition of the `reduce` sum of question counts; specified by Stats.QuestionKeys |
| Stats.CorrectCount | script.js:594-600 | definition of the number of records whose `isCorrect` is exactly `true`; specified by Stats.ScoreBounded, EmptyStoreStats and SelectionKeepsStats |
| Stats.QuestionKeys | script.js:188-191 | the total number of questions is the number of distinct valid question keys |
| Stats.ScoreBounded | script.js:591-600 | the correct count never exceeds the number of records, and with valid keys the number of records never exceeds the total |
| Stats.RoundedPercent | script.js:602 | the quotient (200c + a) / 2a is the nearest integer to 100c / a with ties rounded up, between 0 and 100 when c <= a |
| Stats.Accuracy | script.js:602 | the accuracy is 0 with no records and otherwise 100·correct/attempted rounded half up, within 0..100 |
| Stats.CheckedBelow | script.js:611-615 | the checked count of a chapter never exceeds its question count |
| Stats.CheckedBelowAll | script.js:612-617 | the checked count of a chapter equals its question count iff every question of the chapter is checked |
| Stats.ChapterCompleteIff | script.js:617 | a chapter counts as completed iff it has a question and every question is checked |
| Stats.ChapterComplete | script.js:617 | definition of the completion test; specified by Stats.ChapterCompleteIff |
| Stats.CompletedCount | script.js:609-621 | definition of the number of completed chapters; specified by Stats.CompletedBelow, CompletedDependsOnChecked and EmptyStoreStats |
| Stats.CompletedBelow | script.js:609-620 | at most one completed chapter is counted per chapter |
| Stats.CompletedDependsOnChecked | script.js:609-621 | the completed count depends only on which questions are checked |
| Stats.EmptyStoreStats | script.js:737-742 | an empty store has no correct answer and no completed chapter |
| Stats.SelectionKeepsStats | script.js:582 | storing an ungraded selection for an unchecked question changes neither the correct count nor the completed count |
| Persistence.Save | script.js:688-694 | definition of the saved record, with every field present; specified by Persistence.RestoreAfterSave |
| Persistence.MergeStats | script.js:716 | definition of `{ ...this.stats, ...progress.stats }`: each present saved field replaces the current one; specified by Persistence.RestoreEmptyRecord and RestoreAfterSave |
| Persistence.Restore | script.js:715-719 | definition of the load defaults (`{}`, merged stats, `0`, `''`, `''`); specified by Persistence.RestoreAfterSave, RestoreEmptyRecord and RestoreIgnoresCurrent |
| Persistence.RestoreAfterSave | script.js:688-694 | loading a record that was saved restores exactly the saved answers, statistics, chapter, name and id |
| Persistence.RestoreEmptyRecord | script.js:715-719 | a record with every field missing clears answers, chapter and identity and keeps the current statistics |
| Persistence.RestoreIgnoresCurrent | script.js:715-719 | every restored field except the statistics comes from the record alone |
| Navigation.ArrowTarget | script.js:937-941 | only the two arrow keys ask for a chapter; ArrowLeft asks for the least index that is at least 0 and at least one below the current one, and it is one of the two; ArrowRight for the greatest index that is at most the last and at most one above, and it is one of the two |
| Navigation.SwipeTarget | script.js:974-989 | a swipe asks for a chapter iff it is longer than 75 pixels and leads to a neighbour: leftward asks for the next chapter exactly when the current one is not the last, rightward for the previous one exactly when the current one is not the first |
| Navigation.NavigationStaysInRange | script.js:937-987 | from a chapter in range, every requested chapter is in range and at most one away |
| Navigation.NavigationPastTheEnd | script.js:937-987 | from a restored index past the last chapter, ArrowRight asks for the last chapter; ArrowLeft and swipes reach a valid chapter only from just past the end |
| InteractiveBook.Book.constructor | script.js:12-24 | a new book has chapter 0, no chapters, no records, zero statistics and an empty identity |
| InteractiveBook.Book.LoadContent | script.js:175-176 | the loaded chapters replace the content and the total is recomputed; nothing else changes |
| InteractiveBook.Book.CalculateTotalQuestions | script.js:188-191 | the total becomes the sum of the question counts, which is the number of question keys |
| InteractiveBook.Book.ShowChapter | script.js:216-222 | an out-of-range index changes nothing; otherwise it becomes the current chapter; the result says whether every question of it is checked |
| InteractiveBook.Book.SelectOption | script.js:573-583 | the question's record becomes the ungraded selection and no other record changes; for an unchecked question the statistics stay current |
| InteractiveBook.Book.UpdateStats | script.js:589-621 | the correct count and the completed count are recomputed from the store, the total is kept, and the accuracy is returned in 0..100 |
| InteractiveBook.Book.CheckCurrentChapterAnswers | script.js:385-459 | the store becomes the chapter check of the screen; the flag is true iff every question was attempted; checked records are untouched; valid keys stay valid; a fully attempted chapter of known types becomes complete; the statistics are refreshed |
| InteractiveBook.Book.LoadProgress | script.js:710-729 | with no saved record nothing changes and the result is false; otherwise the state becomes the restored record and the result is true |
| InteractiveBook.Book.ResetProgress | script.js:736-754 | the store is emptied, the score and completed count are 0, the total is kept, chapter 0 is current and the identity is cleared |
| InteractiveBook.Book.HandleKey | script.js:927-943 | with content and no open dialog, an arrow key moves to the clamped neighbouring chapter; a chapter in range stays in range |
| InteractiveBook.Book.HandleSwipe | script.js:974-989 | with content, a long enough swipe moves to the neighbouring chapter; a chapter in range stays in range |

## Left out

- Rendering and feedback: `renderChapterNavigation`, `renderQuestion`, `applyFeedbackForQuestion`, `applyUserAnswersToChapter`, the message boxes, the confetti and `printChapter` only build or change the page. The check button is meant to be disabled when the chapter check returns true or `ShowChapter` returns true.
- Fetching `content.json` and the `init` sequence are asynchronous I/O: `LoadContent` receives the parsed chapters, and the error path of a failed fetch is not modelled.
- Local storage and JSON: `saveProgress` is modelled by the record `Save` builds and `loadProgress` by a parsed record (`None` when nothing is stored or it cannot be parsed). A stored field of the wrong JSON type is not modelled.
- The user-information dialog (`promptForUserInfo`, script.js:103-151) is a modal promise flow. Only its result, the name and id fields, is part of the state.
- `updateProgress` (script.js:677-682) sets the width of a progress bar from a floating-point percentage.
- Stats.Accuracy: computed in exact integer arithmetic. `Math.round` of the floating-point quotient can differ when `correct/attempted*100` is not exact.
- Text.Lower: only ASCII letters are lower-cased. JavaScript's full Unicode `toLowerCase` is not modelled.
- `exportProgress`, `checkCompletionAndShowScore` and `displayFinalScore` are not modelled. The constant at script.js:9 is false, so the finish button is always enabled.
- The random shuffle of drag-drop items (script.js:329) uses `Math.random`. Only the expected order matters for grading.
- InteractiveBook.Book.ShowChapter: script.js calls `initializeDragDrop` at line 256 but does not define it, so as the file reads every in-range `showChapter` throws there, after setting `currentChapter` (line 222) and before the already-checked test, the button update and `saveProgress` (lines 261-276); in `resetProgress` the throw also skips `promptForUserInfo` (line 756). The model assumes `initializeDragDrop` is defined elsewhere and returns normally, so `alreadyChecked` is what the source computes once it does. The placement of items while dragging is not modelled; the drop-zone texts at check time are part of the screen.
- InteractiveBook.Book.ResetProgress: only the confirmed callback of the dialog is modelled. Removing the stored keys and prompting again for user information are left out.
- InteractiveBook.Book.HandleKey: the open-dialog test of the keydown listener (script.js:930-933) is the parameter `dialogOpen`.
- InteractiveBook.Book.HandleSwipe: this is `handleSwipe` itself. The touch listeners (script.js:951-971), which skip recording the start or end position and skip the call while a dialog is open, are not modelled, so any start and end position is allowed. Screen coordinates are integers.
- The `saveProgress` calls after `showChapter` and after the chapter check are not modelled. Their effect is `Save` of the state at that point.
