# Quiz question library and two widgets, modelled in Dafny

This project models the question-collection library of a small TypeScript quiz
application (`src/nested.ts`) and the state of two of its React widgets
(`CycleHoliday` and `StartAttempt`), and proves what their documentation promises.

- `js.dfy` (module `Js`): the JavaScript behaviour the library relies on:
  `null` (`Option`), thrown `TypeError`s (`Outcome`), `filter`, `splice`,
  `reduce` with `+` and no initial value, `join`, one-character `split`, and
  `String(...)` on integers and booleans. It also has the parsers that read these
  strings back.
- `questions.dfy` (module `Questions`): the `Question`, `Answer` and
  `QuestionType` records. The field `type` is called `kind` because `type` is a
  Dafny keyword. Also the predicates used to state what the editors preserve.
  `makeBlankQuestion` and `duplicateQuestion` come from `objects.ts`, which is not
  part of this model. They are therefore function parameters (`blank`,
  `duplicate`), and only two facts are assumed of them: the blank question carries
  the id, name and type it was given, and the duplicate carries the new id.
- `nested.dfy` (module `Nested`): the sixteen exported functions.
  - Expression-only code is written as functions: the filters, `findQuestion`, the
    sums, `getNames`, `toCSV`, `makeAnswers`, `publishAll`, `sameType` and
    `addNewQuestion`.
  - Code that changes a copy of the collection is written as methods.
    `renameQuestionById`, `changeQuestionTypeById` and `editOption` copy the
    collection into a fresh array and assign the target element in place.
    `removeQuestion` and `duplicateQuestionInArray` splice a local copy.
- `cycle_holiday.dfy` (module `CycleHoliday`): the three tables exactly as the
  source lists them, and a class whose one field `holiday` the two buttons
  overwrite. Neither table follows the order its button's label names (see
  "## Findings"), so the module also has the two sorted tables and proves that
  they do.
- `start_attempt.dfy` (module `StartAttempt`): the `attempts`/`inProgress` state.
  It is a class with one method per button, and the buttons' `disabled`
  conditions are its `requires`. It also has a pure transition function over
  which invariants are proved for any sequence of enabled presses.

Numbers are unbounded integers. A missing target id throws in `renameQuestionById`,
`changeQuestionTypeById` and `editOption`, because `copiedQuestions[-1]` is
`undefined`. That throw is modelled as `Throws(PropertyOfUndefined)`. `reduce`
with no initial value throws on `[]`, so both sums return
`Throws(ReduceOfEmptyArray)` for an empty collection. A sum of 0 might be expected
there, but the code throws, and the model follows the code.

## Model

| member | source | states |
|---|---|---|
| `Js.Filter` | src/nested.ts:10 | what `filter` returns is no longer than its input; every kept element passes the test and comes from the input; every input element that passes is kept |
| `Js.FilterIsSubsequence` | src/nested.ts:10 | the filter keeps the relative order of the elements it keeps |
| `Js.FilterConcat` | src/nested.ts:24-29 | filtering distributes over concatenation; with `FilterSingleton` this fixes the result completely |
| `Js.FilterAll` | src/nested.ts:10 | the filter returns its input exactly when every element passes |
| `Js.Splice` | src/nested.ts:56 | `splice(start, deleteCount, ...items)` keeps the elements before the clamped start, puts `items` there, and follows them with a suffix of the input; the deleted count is `deleteCount` clamped to between 0 and what follows the start, so the length is the input's plus the items' minus that count |
| `Js.SpliceDeleteOne` | src/nested.ts:56 | `splice(k, 1)` at a valid index deletes exactly element `k` |
| `Js.SpliceMinusOne` | src/nested.ts:56 | `splice(-1, 1)` deletes the last element, and leaves `[]` unchanged |
| `Js.SpliceInsertOne` | src/nested.ts:274 | `splice(k, 0, x)` at a valid position inserts `x` before element `k` |
| `Js.FoldAddIsSum` | src/nested.ts:75-77 | the left-to-right accumulation of `reduce` equals the sum |
| `Js.ReduceAdd` | src/nested.ts:75-77 | `reduce` with `+` and no initial value throws exactly on `[]`, and otherwise gives the sum |
| `Js.NatToString` | src/nested.ts:113-121 | `String(n)` is non-empty decimal digits with no leading zero |
| `Js.IntToString` | src/nested.ts:113-121 | `String(i)` is at least one digit, optionally after a minus sign, and holds only digits and `-` |
| `Js.BoolToString` | src/nested.ts:121 | `String(b)` is `true` or `false`, and `true` exactly when `b` holds |
| `Js.IntRoundTrip` | src/nested.ts:113-121 | `String(i)` on an integer is read back exactly |
| `Js.Join` | src/nested.ts:123 | `join` as written: nothing for `[]`, the element for one, the separator only between elements; its properties are `JoinEndsWithLast`, `JoinAvoids` and `SplitJoin` |
| `Js.SplitJoin` | src/nested.ts:123 | splitting on a separator that no element contains undoes `join` |
| `Nested.GetPublishedQuestions` | src/nested.ts:9-11 | the result is a subsequence of the input, every element is published, and every published question is kept |
| `Nested.GetNonEmptyQuestions` | src/nested.ts:18-30 | the result is a subsequence of the input, every element has a non-empty body, expected answer or options, and every such question is kept |
| `Nested.FiltersSplitOverConcat` | src/nested.ts:9-30 | both filters split over concatenation, so they select element by element in order |
| `Nested.FindIndexById` | src/nested.ts:52-54 | `findIndex` gives -1 exactly when no question has the id, and otherwise the first position holding it |
| `Nested.FindQuestion` | src/nested.ts:36-45 | `null` exactly when no question has the id, and otherwise the question at the first position holding it |
| `Nested.SameIdsSameLookups` | src/nested.ts:184-186 | two collections with the same ids at every position find every id at the same place and are duplicate-free together |
| `Nested.SameIdsSameEveryLookup` | src/nested.ts:184-186 | two collections with the same ids at every position find every id at the same place, and are duplicate-free together |
| `Nested.RemoveQuestionAsWritten` | src/nested.ts:51-58 | with the id present the first match is deleted; with it absent the last question is deleted; `[]` stays `[]` |
| `Nested.RemoveAbsentIdLosesQuestion` | src/nested.ts:51-58 | removing an absent id from a one-question collection leaves it empty |
| `Nested.RemoveQuestion` | src/nested.ts:47-58 | with the id present the first match is deleted and the length drops by one; with it absent the collection is returned unchanged; duplicate-free ids stay duplicate-free and the id then no longer occurs |
| `Nested.RemovalKeepsIdsUnique` | src/nested.ts:56 | deleting one question from a duplicate-free collection leaves it duplicate-free and without that id |
| `Nested.GetNames` | src/nested.ts:64-66 | same length, and name `i` is the name of question `i` |
| `Nested.PointsOf` | src/nested.ts:72-74 | the mapped list has one score per question, score `i` being question `i`'s points |
| `Nested.PublishedPointsOf` | src/nested.ts:84-86 | one score per question, score `i` being question `i`'s points when it is published and 0 otherwise |
| `Nested.SumOfPoints` | src/nested.ts:72-77 | summing the mapped scores is the total score |
| `Nested.SumOfPublishedPoints` | src/nested.ts:84-89 | summing the scores with unpublished ones zeroed is the total of the published questions |
| `Nested.SumPoints` | src/nested.ts:71-78 | throws exactly on `[]`, and otherwise is the total of all scores |
| `Nested.SumPublishedPoints` | src/nested.ts:83-90 | throws exactly on `[]`, and otherwise is the total over the published questions |
| `Nested.PublishedTotalAtMostTotal` | src/nested.ts:83-90 | with non-negative scores the published total is at most the total |
| `Nested.SumPublishedAtMostSumPoints` | src/nested.ts:71-90 | on a non-empty collection with non-negative scores both sums succeed and the published sum is at most the full sum |
| `Nested.SumPublishedAfterPublishAll` | src/nested.ts:83-90 | after `publishAll` the published sum equals the full sum |
| `Nested.SamePointsSameTotal` | src/nested.ts:71-78 | collections with the same scores position by position have the same total |
| `Nested.CsvRow` | src/nested.ts:112-121 | the record as written: id, name, number of options, points and flag, comma-separated; its properties are `CsvRowIsJoinedFields`, `CsvRowSplitsIntoFields` and `CsvRowRoundTrip` |
| `Nested.CsvRows` | src/nested.ts:111-122 | one record per question, in input order |
| `Nested.ToCSV` | src/nested.ts:109-124 | the export starts with the header and its newline; an empty collection gives just that; a non-empty one does not end in a newline |
| `Nested.LastRowCharIsNotNewline` | src/nested.ts:123 | the joined records of a non-empty collection end with the last record's flag, not a newline |
| `Nested.CsvRowEndsWithFlag` | src/nested.ts:121 | a record ends with its question's `published` flag |
| `Nested.JoinEndsWithLast` | src/nested.ts:123 | `join` ends with the last element |
| `Nested.CsvRowIsJoinedFields` | src/nested.ts:113-121 | a record is its five fields joined by commas |
| `Nested.CsvRowAvoids` | src/nested.ts:113-121 | a record contains a character that is not a digit, `-`, a comma or a letter of `true`/`false` only if the name does |
| `Nested.CsvRowSplitsIntoFields` | src/nested.ts:113-121 | a record whose name holds no comma splits back into id, name, number of options, points and flag |
| `Nested.CsvLinesHaveNoBreak` | src/nested.ts:110-123 | no line of the export holds a newline when no name does |
| `Nested.CsvIsJoinedLines` | src/nested.ts:110-123 | the export is the header row and the records (or one empty line) joined by newlines |
| `Nested.CsvSplitsIntoLines` | src/nested.ts:109-124 | splitting the export on newlines gives the header row and then one record per question, or one empty line for `[]` |
| `Nested.JoinAvoids` | src/nested.ts:123 | `join` introduces no character that is in neither the elements nor the separator |
| `Nested.ExampleRows` | src/nested.ts:101-103 | the records of the first two documented questions are `1,Addition,0,1,true` and `2,Letters,0,1,false` |
| `Nested.ExampleColorsRow` | src/nested.ts:104 | the third documented question, with three options, gives `5,Colors,3,1,true` |
| `Nested.ExampleShapesRow` | src/nested.ts:105 | the fourth documented question, with three options, gives `9,Shapes,3,2,false` |
| `Nested.ToCSVExample` | src/nested.ts:99-106 | the documented four-question export is the header and the four records joined by newlines |
| `Nested.CsvRowRoundTrip` | src/nested.ts:111-122 | a record whose name holds no comma decodes back to that question's id, name, number of options, points and flag |
| `Nested.CsvRecordRoundTrip` | src/nested.ts:109-124 | the export has one line more than there are questions; line 0 is the header row and line `i + 1` decodes to question `i` |
| `Nested.MakeAnswers` | src/nested.ts:131-138 | same length, answer `i` refers to question `i`'s id, with empty text and both flags false |
| `Nested.PublishAll` | src/nested.ts:144-146 | same length, question `i` is the input's question `i` with only `published` set |
| `Nested.PublishAllIdempotent` | src/nested.ts:144-146 | publishing all twice is publishing all once |
| `Nested.PublishAllPublishesEverything` | src/nested.ts:140-146 | after `publishAll`, `getPublishedQuestions` returns every question |
| `Nested.AllOfKind` | src/nested.ts:155-157 | `every` is true exactly when every question has the given type |
| `Nested.SameType` | src/nested.ts:151-158 | true exactly when any two questions have the same type; so true on `[]` and on a single question |
| `Nested.AddNewQuestion` | src/nested.ts:165-172 | one longer, the original questions first and unchanged, then the blank question, which carries the id, name and type when the constructor keeps them |
| `Nested.AddedQuestionIsFound` | src/nested.ts:160-172 | a question added under an id nobody has is what `findQuestion` then finds, and duplicate-free ids stay duplicate-free |
| `Nested.RenameQuestionById` | src/nested.ts:179-193 | throws exactly when the id is missing; otherwise only the first question with the id changes, and only its name; ids stay where they were, so every id is found at the same position afterwards and the ids are duplicate-free afterwards exactly when they were before |
| `Nested.ChangeQuestionTypeById` | src/nested.ts:202-219 | throws exactly when the id is missing; otherwise only the first question with the id changes: new type, and options emptied unless multiple choice; "only multiple-choice questions have options" is preserved; every id is found at the same position afterwards, and the ids are duplicate-free afterwards exactly when they were before |
| `Nested.EditOption` | src/nested.ts:231-253 | throws exactly when the id is missing; otherwise only the target's options change: appended at index -1, replaced at the index otherwise, one more option or the same number |
| `Nested.DuplicateQuestionInArray` | src/nested.ts:261-276 | one longer; the prefix up to the target and the suffix after it are unchanged, and the duplicate sits right after the target; it carries the new id, and a fresh new id keeps duplicate-free ids duplicate-free |
| `Nested.InsertionKeepsIdsUnique` | src/nested.ts:274 | inserting a question with a fresh id keeps ids duplicate-free |
| `Nested.DuplicateExample` | src/nested.ts:255-276 | duplicating id 2 in ids 1, 2, 3 under id 99 gives ids 1, 2, 99, 3, with the copy right after the original |
| `CycleHoliday.Emoji` | src/components/CycleHoliday.tsx:14-24 | the emoji table as written; its property is `EmojiInjective` |
| `CycleHoliday.AlphaHoliday` | src/components/CycleHoliday.tsx:26-36 | the table behind "Advance by Alphabet" as written; no holiday is its own successor |
| `CycleHoliday.DateHoliday` | src/components/CycleHoliday.tsx:38-48 | the table behind "Advance by Year" as written; no holiday is its own successor |
| `CycleHoliday.EmojiInjective` | src/components/CycleHoliday.tsx:14-24 | distinct holidays show distinct emoji |
| `CycleHoliday.TableIsSingleCycle` | src/components/CycleHoliday.tsx:26-48 | each table follows its five-holiday cycle as the source lists it (`alphaHoliday`: Valentine's, Cinco de Mayo, Christmas, Halloween, Thanksgiving; `dateHoliday`: Valentine's, Cinco de Mayo, Thanksgiving, Halloween, Christmas), which lists every holiday once |
| `CycleHoliday.PreviousHoliday` | src/components/CycleHoliday.tsx:26-48 | an inverse table: advancing from the previous holiday gives back the holiday |
| `CycleHoliday.AdvanceIsBijection` | src/components/CycleHoliday.tsx:26-48 | both tables are injective and have a two-sided inverse |
| `CycleHoliday.AdvanceNStep` | src/components/CycleHoliday.tsx:57-70 | pressing a button `n + 1` times is pressing it `n` times and once more |
| `CycleHoliday.CycleLengthIsFive` | src/components/CycleHoliday.tsx:26-48 | five presses of either button return to the start, and one to four presses never do |
| `CycleHoliday.Month` | src/components/CycleHoliday.tsx:64-69 | the month each holiday falls in, between 1 and 12, with the United States' Thanksgiving in November; the order "Advance by Year" names |
| `CycleHoliday.NameRank` | src/components/CycleHoliday.tsx:5-10 | each holiday's place among the five names, between 0 and 4 |
| `CycleHoliday.NameRankSortsNames` | src/components/CycleHoliday.tsx:5-10 | one name comes before another in JavaScript's string order exactly when its rank is smaller, so the ranks are the order "Advance by Alphabet" names |
| `CycleHoliday.SourceTablesBreakOrder` | src/components/CycleHoliday.tsx:26-48 | `alphaHoliday` sends Cinco de Mayo to Christmas, whose name sorts before it; `dateHoliday` sends Cinco de Mayo past Halloween, and Thanksgiving back to Halloween |
| `CycleHoliday.SortedAlphaHoliday` | src/components/CycleHoliday.tsx:26-36 | the corrected "Advance by Alphabet" table: Christmas, Cinco de Mayo, Halloween, Thanksgiving, Valentine's and round again |
| `CycleHoliday.SortedDateHoliday` | src/components/CycleHoliday.tsx:38-48 | the corrected "Advance by Year" table: Valentine's, Cinco de Mayo, Halloween, Thanksgiving, Christmas and round again |
| `CycleHoliday.SortedTablesFollowOrder` | src/components/CycleHoliday.tsx:57-70 | the sorted tables send every holiday to the next one by name and by month, the last wrapping to the first |
| `CycleHoliday.SortedTablesCycle` | src/components/CycleHoliday.tsx:57-70 | the sorted tables have no fixed point, and five presses return to the start |
| `CycleHoliday.HolidayCycler.constructor` | src/components/CycleHoliday.tsx:51 | the widget starts at Valentine's |
| `CycleHoliday.HolidayCycler.AdvanceByAlphabet` | src/components/CycleHoliday.tsx:57-63 | the holiday becomes `alphaHoliday` of the old one |
| `CycleHoliday.HolidayCycler.AdvanceByYear` | src/components/CycleHoliday.tsx:64-70 | the holiday becomes `dateHoliday` of the old one |
| `StartAttempt.Enabled` | src/components/StartAttempt.tsx:18-34 | the three `disabled` conditions as written, negated: Start needs no quiz in progress and a non-zero count, Stop a quiz in progress, Mulligan none in progress |
| `StartAttempt.Step` | src/components/StartAttempt.tsx:14-32 | the three click handlers as written: Start lowers the count and sets in progress, Stop clears it, Mulligan raises the count |
| `StartAttempt.AttemptsStayNonNegative` | src/components/StartAttempt.tsx:13-37 | from a non-negative count, any run of enabled presses leaves the count non-negative |
| `StartAttempt.ReachableAttemptsNonNegative` | src/components/StartAttempt.tsx:6-37 | from the initial state the count is never negative |
| `StartAttempt.AttemptsFrozenInProgress` | src/components/StartAttempt.tsx:18-34 | while a quiz is in progress only Stop is enabled, and it leaves the count alone |
| `StartAttempt.AttemptTracker.constructor` | src/components/StartAttempt.tsx:6-8 | four attempts and no quiz in progress |
| `StartAttempt.AttemptTracker.StartQuiz` | src/components/StartAttempt.tsx:13-20 | enabled when not in progress and attempts are not 0; one attempt fewer and in progress; the count stays non-negative |
| `StartAttempt.AttemptTracker.StopQuiz` | src/components/StartAttempt.tsx:22-28 | enabled when in progress; no longer in progress, count unchanged |
| `StartAttempt.AttemptTracker.Mulligan` | src/components/StartAttempt.tsx:30-37 | enabled when not in progress; one attempt more, progress unchanged |

## Findings

| source | as written | input that shows it | evidently intended | confidence | as-written member | corrected member |
|---|---|---|---|---|---|---|
| src/nested.ts:51-58 | `findIndex` gives -1 for a missing id and `splice(-1, 1)` then deletes the last question | `removeQuestion([q], q.id + 1)` returns `[]` | with no question holding the id, the collection comes back unchanged, since there is nothing to remove | high (not executed) | `Nested.RemoveQuestionAsWritten`, shown by `Nested.RemoveAbsentIdLosesQuestion` | `Nested.RemoveQuestion` |
| src/components/CycleHoliday.tsx:26-48 | the buttons are labelled "Advance by Alphabet" and "Advance by Year", but `alphaHoliday` puts Cinco de Mayo before Christmas and `dateHoliday` puts Thanksgiving before Halloween | from Cinco de Mayo "Advance by Alphabet" shows Christmas, which sorts before it; from Cinco de Mayo "Advance by Year" shows Thanksgiving, skipping Halloween | each button moves to the next holiday by name, or by date, wrapping from the last to the first | medium (not executed); the labels are the only statement of intent, and the "Advance by Year" half assumes the United States' Thanksgiving in November (Canada's, in October, would put the source's `dateHoliday` in calendar order) | `CycleHoliday.AlphaHoliday` and `CycleHoliday.DateHoliday`, shown by `CycleHoliday.SourceTablesBreakOrder` | `CycleHoliday.SortedAlphaHoliday` and `CycleHoliday.SortedDateHoliday`, proved by `CycleHoliday.SortedTablesFollowOrder` |

## Left out

- JSX rendering, `react-bootstrap` buttons, `useState` and React re-rendering. Each widget's state is a plain class field.
- The bodies of `makeBlankQuestion` and `duplicateQuestion` (in `objects.ts`, which is not part of this model) and their default field values. Only the two facts above are assumed, and only where a contract needs them.
- JavaScript number semantics: ids and points are unbounded integers, so floating point, `NaN` and the exponent form of `String` for very large numbers are left out.
- `Nested.DuplicateQuestionInArray`: requires the target id to be present, because what the source does with a missing id depends on `duplicateQuestion`, which is not part of this model.
- `Nested.EditOption`: requires the option index to be -1 or a valid index of the target's options. JavaScript's assignment at or past the end of an array, or to a negative property, is left out.
- Copies and aliasing: questions are values, so the result never shares `options` with the input, and the input is never changed.
- The copying of questions in `getNonEmptyQuestions` is the identity on values.
- `CycleHoliday.HolidayCycler` keeps the source's tables, because it models what the widget does; the sorted tables are stated and proved beside it but do not drive the class.
- The emoji shown by `CycleHoliday` is the table `Emoji` applied to the field; the display itself is left out.
- `TwoDice` (randomness and floating point), `ChangeType` and `RevealAnswer` (one-field toggles) are out of scope.
