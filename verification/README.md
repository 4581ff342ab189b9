# Quiz question export and grading, modelled in Dafny

This project models two parts of the "shifters" quiz on Vayel.github.io:

- **The exporter** (`scripts/shifters/export.js`). A spreadsheet script reads one row of the
  question sheet. It parses each cell with a closure that either returns a value or throws a
  French error message, and collects the thrown messages in a list (`parseQuestionCell`). It then
  writes the errors into one cell and, when the row is error-free and marked validated, writes the
  question as JSON into another. The cell helpers are `checkUnique`, which rejects duplicates, and
  `parseCellWithSep`, which splits, trims and drops empty pieces. The model covers every closure
  of `rowToJSON`: text, type, references, categories, keywords, level, choices with the nested
  category cell, answer, explanation and groups. It also covers the early `null` return for an
  unknown type and the write gate of `export`.
- **Grading** (`assets/shifters/quiz.js`). The quiz page builds one object per exported
  record through a factory that knows only `single_choice` and `multiple_choice`, and grades
  each question from its inputs' checked flags. `SingleChoice.check` compares the index of the
  first checked input with `answer` using `===`. `MultipleChoice.check` compares the set of
  checked indices with the set of `answer`'s elements.

Modules follow the source: `Wrappers` (Option, Result, Outcome), `Sequences` (`indexOf`, the
duplicate filter), `Text` (JavaScript `trim`, `toLowerCase`, `split`, `join`), `Cells` (the cell
helpers), `Fields` (the per-field closures), `Rows` (`rowToJSON`, `export`), `Quiz` (the quiz page)
and `Handoff`, which feeds exported questions to the quiz page.

Spreadsheet reads become plain values. The cells of a row are a `RowCells` record. The validated
state and the group columns are parameters, and `isUrl` is an uninterpreted `string -> bool`
parameter. The input elements of a question become a `seq<bool>` of checked flags, indexed by the
input's value.

The exporter checks classification elements only for duplicates (export.js:163-165). The quiz
page grades single and multiple choice questions by the index of the checked inputs.

## Model

| member | source | states |
|---|---|---|
| Sequences.KeepFirstWholeIffDistinct | scripts/shifters/export.js:12-15 | The first-occurrence filter keeps the whole array exactly when no element repeats. |
| Cells.CheckUnique | scripts/shifters/export.js:11-16 | Passes if and only if the array has no duplicates; otherwise fails with "Il ne peut y avoir de duplicats dans " followed by the suffix. |
| Cells.ParseCellWithSep | scripts/shifters/export.js:56-65 | Every piece returned is non-empty and has no whitespace at either end. |
| Cells.TrimAndDropEmptyMembers | scripts/shifters/export.js:60-64 | A string is returned exactly when it is non-empty and some piece trims to it. |
| Cells.TrimAndDropEmptyConcat | scripts/shifters/export.js:60-64 | Trimming and dropping preserve the left-to-right order of the pieces. |
| Cells.ParseCellWithSepOrder | scripts/shifters/export.js:56-65 | For a one-character separator, the items of `a + sep + b` are those of `a` followed by those of `b`, when `a` has no separator. |
| Cells.ParseCellWithSepJoin | scripts/shifters/export.js:56-65 | Joining clean, separator-free items with a one-character separator and parsing the result returns the items. |
| Cells.ParseQuestionCell | scripts/shifters/export.js:67-77 | A closure that returns a value leaves the error list untouched; one that throws makes the field null and appends exactly its message. |
| Fields.ParseText | scripts/shifters/export.js:85-88 | Only the empty cell is rejected, with the empty-text message; blank text is kept verbatim. |
| Fields.ParseKind | scripts/shifters/export.js:90-97 | An accepted cell, trimmed and lower-cased, is the label of the returned kind; a rejected one matches no label, and the message quotes the normalised text. |
| Fields.ParseKindExact | scripts/shifters/export.js:90-97 | A cell selects kind k if and only if its trimmed, lower-cased text is k's label. |
| Fields.KindLabelInjective | scripts/shifters/export.js:92-95 | The four labels are pairwise distinct. |
| Fields.ParseKindOfLabel | scripts/shifters/export.js:90-97 | Writing a kind's label selects that kind. |
| Rows.EmptyKindCellIsUnknown | scripts/shifters/export.js:90-97 | An empty type cell is rejected. |
| Fields.ParseReference | scripts/shifters/export.js:104-133 | An accepted block yields a non-empty trimmed text that is not a URL, and an optional trimmed URL that is a URL; each rejection throws its own message: empty text, text that is a URL (quoting the text), a second line that is not a URL (quoting it), or more than two lines (quoting the block). |
| Fields.ParseReferenceExact | scripts/shifters/export.js:105-133 | A block is accepted if and only if its first line has text that is not a URL and it has one line, or two lines the second of which is a URL; the text and URL are those trimmed lines. |
| Wrappers.FirstErrorOrAll | scripts/shifters/export.js:104-134 | The loop fails exactly when some block fails, with the first failing block's error; otherwise it returns one value per block, in order. |
| Fields.ParseBlocks | scripts/shifters/export.js:104-134 | The blocks are accepted exactly when each one is; source k is what block k parses to; otherwise the error of the first rejected block. |
| Fields.ParseReferences | scripts/shifters/export.js:101-137 | Accepted exactly when there is at least one blank-line-separated block and every block is accepted; source k is block k's; a rejection carries the first rejected block's error; a cell with no block fails with "Il manque une source.". |
| Fields.ReferencesFollowBlocks | scripts/shifters/export.js:104-134 | Each accepted source has one or two lines; its text is its trimmed first line, and it has a URL exactly when there is a second line, which is that URL trimmed. |
| Fields.ReferenceTextNeverEmpty | scripts/shifters/export.js:105-110 | The first line of every block has text after trimming, so the empty-text error is unreachable. |
| Fields.ParseWordList | scripts/shifters/export.js:139-149 | Categories and keywords: one non-empty, capital-free word per comma-separated item; the closure never throws. |
| Fields.ParseWordListJoin | scripts/shifters/export.js:139-149 | Writing clean, comma-free, capital-free words joined by commas and parsing the cell gives the words back. |
| Fields.ParseLevel | scripts/shifters/export.js:151-154 | Only the empty cell is rejected; otherwise the level has the cell's length and no capitals. |
| Fields.ParseLevelKeepsLowerCell | scripts/shifters/export.js:151-154 | A non-empty cell with no capitals is the level unchanged. |
| Fields.ParseOptionList | scripts/shifters/export.js:158-161 | Options are accepted exactly when there are at least two and none repeats; the value is the parsed lines; fewer than two lines fail with the given message, and repeated lines with the duplicate message. |
| Fields.OptionsField | scripts/shifters/export.js:157-162 | For single, multiple and ranking questions the field is present exactly when the option list parses, and then holds the cell's lines; otherwise it is null and the option list's error is appended. |
| Fields.GroupingField | scripts/shifters/export.js:163-173 | For classification the field is present exactly when the elements are distinct, and then holds them; its categories are null exactly when the category cell throws, whose error is appended; repeated elements append the duplicate message. |
| Fields.ChoicesField | scripts/shifters/export.js:156-174 | The choices agree with the kind and are well formed; they are accepted exactly when the option list parses, or, for classification, complete exactly when the elements are distinct and the categories parse; errors are unchanged exactly when the field is complete. |
| Fields.ChoicesFieldAppends | scripts/shifters/export.js:156-174 | The choices closure never reads the error list: its value does not depend on it, and it only appends. |
| Fields.CheckAllIn | scripts/shifters/export.js:187-190 | Passes if and only if every item is in the pool; the error names the first missing item; a null pool throws as soon as there is an item. |
| Fields.ParseSingleAnswer | scripts/shifters/export.js:178-182 | Corrected closure: the trimmed cell is accepted exactly when it is one of the options, and the error names the rejected answer. |
| Fields.ParseSingleAnswerAsWritten | scripts/shifters/export.js:178-182 | As written: the trimmed cell is accepted exactly when it is one of the options, the rejection message says "undefined" instead of the answer, and null options throw. |
| Fields.SingleAnswerVersionsAgree | scripts/shifters/export.js:178-182 | The as-written and corrected single answers accept the same cells with the same value. |
| Fields.SingleAnswerMessageLosesAnswer | scripts/shifters/export.js:180 | Rejecting "Rome" against ["Paris", "Lyon"] gives a message that differs from the one naming "Rome". |
| Fields.ParseMultipleAnswer | scripts/shifters/export.js:183-192 | Accepted exactly when the lines are distinct and each is an option; an empty answer is accepted; repeated lines throw the duplicate message before any option is looked up; otherwise the error is the membership loop's, which names the first missing line or is the null-choices TypeError. |
| Fields.Zip | scripts/shifters/export.js:206-209 | The answer object has exactly the elements other than `__proto__` as keys, because assigning a string to that key of a plain object is ignored; every value is one of the lines. |
| Fields.ZipDistinct | scripts/shifters/export.js:206-209 | With distinct elements, element i maps to line i, for every element other than `__proto__`. |
| Fields.ParseClassificationAnswer | scripts/shifters/export.js:196-211 | Accepted exactly when there are as many lines as elements and each line is a category; the map covers the elements other than `__proto__` and maps into the categories; a count mismatch throws its message, and otherwise the error is the membership loop's, which names the first missing category or is the null-categories TypeError. |
| Fields.ClassificationAnswerPairsLines | scripts/shifters/export.js:206-210 | An accepted classification over distinct elements sends each element other than `__proto__` to the category on its line. |
| Fields.ParseAnswer | scripts/shifters/export.js:176-212 | As written: a single answer is accepted exactly when its trimmed cell is an option; a multiple answer exactly when its lines are distinct options; a classification exactly when there is one category line per element; ranking copies the options; every accepted answer fits the choices; a rejected multiple answer throws the duplicate message or the membership loop's error, and a rejected classification the count-mismatch message or the membership loop's error; null choices make single and classification answers throw; a rejected single answer gets the "undefined" message. |
| Fields.ParseGroupsMembers | scripts/shifters/export.js:216-226 | A group is listed exactly when one of its columns reads "oui" after trimming and lower-casing. |
| Rows.ParseAfterKind | scripts/shifters/export.js:101-212 | References and level are null exactly when their closures throw, and otherwise hold what the closures return; the choices are the choices closure's value; the answer is the answer closure's value, or null when it throws; the errors are the references', level's, choices' and answer's messages in that order; no error exactly when every field is present; present fields are well formed and the answer fits the choices. |
| Rows.RowToJson | scripts/shifters/export.js:79-233 | A row is dropped exactly when its type is rejected; the text is null exactly when its cell is empty and otherwise the cell; categories and keywords are the parsed word lists; the explanation is the trimmed cell; the groups are the ticked columns; the other fields and the errors after the type come from `Rows.ParseAfterKind`; `isValidated` is state equality; an error-free row gives a well-formed question; every error is a non-empty message. |
| Rows.EmptyTextKeepsOtherFields | scripts/shifters/export.js:85-88 | Emptying the text cell changes only the text, which becomes null. |
| Rows.EmptyTextErrorComesFirst | scripts/shifters/export.js:67-77 | The empty-text message goes in front of the errors the other cells throw. |
| Rows.Export | scripts/shifters/export.js:235-256 | Nothing is written without a row index; any output written is the question of an error-free, validated row; the errors cell is empty exactly when the row is dropped or has no error, and every error of a kept row occurs in it. |
| Text.JoinShowsEvery | scripts/shifters/export.js:245 | Every piece occurs in the string the pieces are joined into. |
| Text.JoinEmptyIff | scripts/shifters/export.js:245 | Joining non-empty pieces gives the empty string exactly when there is no piece. |
| Rows.ExportGate | scripts/shifters/export.js:248-255 | The question is written if and only if the type parses, there is no error and the state is the validated one. |
| Rows.ExportedQuestionIsWellFormed | scripts/shifters/export.js:248-255 | Every written question is complete and well formed. |
| Rows.UnknownKindErrorIsHidden | scripts/shifters/export.js:239-242 | As written, a row with an unknown type gets an empty errors cell although the type closure threw a message. |
| Rows.ExportReportingKindError | scripts/shifters/export.js:239-247 | Corrected export: a dropped row's errors cell holds the errors of the text and type closures. |
| Rows.KindErrorIsReported | scripts/shifters/export.js:239-247 | The corrected cell ends with the type message, and the output cell is unchanged. |
| Quiz.FirstChecked | assets/shifters/quiz.js:40-46 | The loop finds the first checked input, or null when none is checked. |
| Quiz.SingleChoiceCheck | assets/shifters/quiz.js:39-48 | A numeric answer is correct exactly when its index is the first checked input; null exactly when nothing is checked; any other answer never. |
| Quiz.SingleChoiceIgnoresLaterInputs | assets/shifters/quiz.js:41-46 | Inputs after the first checked one do not change the grade. |
| Quiz.Selected | assets/shifters/quiz.js:81-86 | The set holds exactly the indices of the checked inputs. |
| Quiz.AnswerSet | assets/shifters/quiz.js:87-89 | The answer's set holds the array's elements; null gives the empty set. |
| Quiz.MultipleChoiceCheck | assets/shifters/quiz.js:80-90 | Correct if and only if each input is checked exactly when its index is in the answer, and the answer holds only input indices. |
| Quiz.MultipleChoiceIgnoresOrderAndDuplicates | assets/shifters/quiz.js:87-89 | Answers with the same elements grade alike, whatever their order and repetitions. |
| Quiz.MultipleChoiceEmptySelectionFails | assets/shifters/quiz.js:80-90 | With a non-empty answer, checking nothing is wrong. |
| Quiz.MultipleChoiceSubsetOrSupersetFails | assets/shifters/quiz.js:80-90 | Missing an answer index, or checking an index outside the answer, is wrong. |
| Quiz.Build | assets/shifters/quiz.js:120-129 | The factory accepts exactly the two choice tags; it keeps the answer and throws "Unknown question type: " followed by the tag. |
| Quiz.BuildAll | assets/shifters/quiz.js:120-129 | The whole quiz is built exactly when every record has a known type, one question per record in order; otherwise the first unknown type's error. |
| Quiz.RankingAndClassificationRejected | assets/shifters/quiz.js:121-128 | Ranking and classification records are rejected. |
| Quiz.CheckAll | assets/shifters/quiz.js:118 | One grade per question, in question order. |
| Quiz.SingleChoiceCheckByText | assets/shifters/quiz.js:39-48 | Corrected check: a text answer is correct exactly when the first checked option has that text. |
| Quiz.MultipleChoiceCheckByText | assets/shifters/quiz.js:80-90 | Corrected check: correct exactly when the texts of the checked options and the answer's elements are the same set. |
| Handoff.AnswerJson | scripts/shifters/export.js:252-254 | The exporter serialises a single answer as a string and a multiple answer as an array of strings, one per item. |
| Handoff.ToRecord | scripts/shifters/export.js:252-254 | The record the quiz page reads carries the kind's tag; its answer is null exactly when the question's answer is null. |
| Handoff.FactoryAcceptsOnlyChoiceKinds | assets/shifters/quiz.js:120-129 | An exported question builds if and only if it is single or multiple choice. |
| Handoff.ExportedSingleChoiceNeverCorrect | assets/shifters/quiz.js:47 | As written, an exported single-choice question grades wrong whatever is checked. |
| Handoff.ExportedMultipleChoiceCorrectOnlyWhenEmpty | assets/shifters/quiz.js:87-89 | As written, an exported multiple-choice question grades right only when both its answer and the selection are empty. |
| Handoff.ExportedSingleChoiceGradedByText | assets/shifters/quiz.js:39-48 | With distinct options, the corrected check is right exactly when the first checked input is the answer's position. |
| Handoff.ExportedMultipleChoiceGradedByText | assets/shifters/quiz.js:80-90 | With distinct options, the corrected check is right exactly when the checked inputs are the positions of the selected options. |

## Left out

- Spreadsheet and DOM I/O are not modelled: `SpreadsheetApp` reads and writes, `onEdit`, and `render`, `renderForm` and the check button. Cells are strings, and inputs are checked flags.
- Configuration reading (`readQuestionsConfig`, `readQuestionGroupsConfig`, `updateConfig`) is not modelled. The validated state and the group columns are parameters.
- `isUrl` is an uninterpreted parameter. Its regular expression is not modelled.
- Non-string cell values and `toString` coercion are not modelled. Every cell is a string, so `!content` is the empty-string test.
- JSON serialisation (`JSON.stringify`) is not modelled as text. The output cell holds the question value.
- Host exception text is not modelled. Reading a field of a null `choices` throws a `TypeError`, which is represented by the fixed string "TypeError".
- The ordering of group columns follows the configuration's key order. The model takes that order as given.
- Text.ToLower: lowers ASCII and Latin-1 capitals only, which covers every label the exporter compares. Full Unicode case mapping is not modelled.
- Fields.ParseLevel: states the length and the absence of capitals, not the per-character lowering, which `Text.ToLower` states.
- Fields.ParseWordList: states one word per item, non-empty and capital-free, not the per-character lowering.
- Fields.ChoicesField: states how many errors are appended and that each is non-empty, not their text. `Fields.OptionsField` and `Fields.GroupingField` state the text for each branch.
- Fields.ParseAnswer: for classification, states acceptance and that the map fits the elements and categories, not the pairing itself, which `Fields.ClassificationAnswerPairsLines` states.
- Fields.ParseGroups: the function states only the length. Membership is stated by `Fields.ParseGroupsMembers`, and the order is not stated.
- Quiz.MultipleChoiceCheck: requires the answer to be an array or null. `Immutable.Set` over other JSON values is not modelled.
- The abstract `check` and `renderForm`, which throw "Not implemented", are not modelled. The factory only builds the two subclasses, so they are unreachable.
- Tri-state results, ranking and classification grading, shuffling and aggregation are not modelled, because `quiz.js` does not implement them.

## Findings

| source | as written | input that shows it | evidently intended | confidence | as-written member | corrected member |
|---|---|---|---|---|---|---|
| scripts/shifters/export.js:180 | The message concatenates `choice`, a `var` hoisted from line 186 that is still undefined here. | Options ["Paris", "Lyon"], answer cell "Rome": the message reads "La réponse \"undefined\" …". | The message names the rejected answer, "Rome". | high, not executed | Fields.ParseSingleAnswerAsWritten, Fields.SingleAnswerMessageLosesAnswer | Fields.ParseSingleAnswer |
| scripts/shifters/export.js:99 | An unknown type returns null, and `export` then clears the errors cell (lines 240-241). The type closure's message is never shown. | Type cell "" or "vrai ou faux": the errors cell is empty and the question is not written. | The errors cell reports the unknown type. | medium, not executed | Rows.Export, Rows.UnknownKindErrorIsHidden | Rows.ExportReportingKindError, Rows.KindErrorIsReported |
| assets/shifters/quiz.js:47 | `check` compares the index of the checked input with `answer`, but the exporter writes `answer` as the option's text. | Choices ["Paris", "Lyon"], answer "Paris", first input checked: grades false. | A question is right when the checked option's text is the answer. | medium, not executed | Handoff.ExportedSingleChoiceNeverCorrect | Quiz.SingleChoiceCheckByText, Handoff.ExportedSingleChoiceGradedByText |
| assets/shifters/quiz.js:87-89 | The set of checked indices is compared with the answer, which the exporter writes as an array of option texts. | Choices ["a", "b", "c"], answer ["a", "c"], first and third inputs checked: grades false. | A question is right when the checked options' texts are the answer's items. | medium, not executed | Handoff.ExportedMultipleChoiceCorrectOnlyWhenEmpty | Quiz.MultipleChoiceCheckByText, Handoff.ExportedMultipleChoiceGradedByText |
