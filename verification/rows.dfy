/** `rowToJSON` and `export`: one spreadsheet row becomes a question record
    plus the list of errors its cells threw, and the record is written out
    only when the row is error-free and marked validated. */
module Rows {
  import opened Wrappers
  import opened Text
  import opened Cells
  import opened Fields

  /** The text of the cells of one row that `rowToJSON` reads, and, for the
      group columns, each group's name paired with this row's cell. */
  datatype RowCells = RowCells(
    text: string, kind: string, references: string, categories: string,
    keywords: string, level: string, choices: string, categoryChoices: string,
    answer: string, explanation: string, state: string,
    groups: seq<(string, string)>)

  /** The exported question; `None` stands for a field left `null` because
      its closure threw. The kind is never `null`: the row is dropped instead. */
  datatype Question = Question(
    id: int, text: Option<string>, kind: Kind, references: Option<seq<Reference>>,
    categories: seq<string>, keywords: seq<string>, level: Option<string>,
    choices: Option<Choices>, answer: Option<Answer>, explanation: string,
    groups: seq<string>)

  /** The object `rowToJSON` returns for a row with a known kind. */
  datatype RowJson = RowJson(isValidated: bool, question: Question, errors: seq<string>)

  /** What a complete question promises: non-empty text, at least one
      well-formed source, well-formed choices of the right shape and an
      answer drawn from them. */
  predicate WellFormedQuestion(q: Question, isUrl: string -> bool) {
    && q.text.Some? && |q.text.value| > 0
    && q.references.Some? && |q.references.value| >= 1
    && (forall k :: 0 <= k < |q.references.value| ==> WellFormedReference(q.references.value[k], isUrl))
    && q.level.Some?
    && q.choices.Some? && ChoicesMatchKind(q.kind, q.choices) && WellFormedChoices(q.choices.value)
    && ChoicesComplete(q.choices)
    && q.answer.Some? && AnswerFits(q.kind, q.choices.value, q.answer.value)
  }

  /** The errors collected before the kind check: the text's, then the kind's. */
  function KindStageErrors(row: RowCells): seq<string> {
    ParseQuestionCell(ParseQuestionCell([], ParseText(row.text)).errors, ParseKind(row.kind)).errors
  }

  /** The fields parsed once the kind is known, with the errors they add. */
  datatype Parsed = Parsed(
    references: Option<seq<Reference>>, level: Option<string>, choices: Option<Choices>,
    answer: Option<Answer>, errors: seq<string>)

  /** The fields after the kind, in source order: references, level,
      choices (with the nested category cell) and answer, each appending what
      it throws to the list. None of them reads the list, so they are
      computed here from an empty one and the caller appends the result. */
  function ParseAfterKind(k: Kind, referencesCell: string, levelCell: string, choicesCell: string,
                          categoryCell: string, answerCell: string, isUrl: string -> bool): (p: Parsed)
    ensures |p.errors| == 0 <==>
              p.references.Some? && p.level.Some? && ChoicesComplete(p.choices) && p.answer.Some?
    ensures p.references.Some? ==>
              |p.references.value| >= 1
              && forall j :: 0 <= j < |p.references.value| ==> WellFormedReference(p.references.value[j], isUrl)
    ensures ChoicesMatchKind(k, p.choices)
    ensures AllNonEmpty(p.errors)
    ensures p.choices.Some? ==> WellFormedChoices(p.choices.value)
    ensures p.choices.Some? && p.answer.Some? ==> AnswerFits(k, p.choices.value, p.answer.value)
    ensures p.references == OkOrNull(ParseReferences(referencesCell, isUrl))
    ensures p.level == OkOrNull(ParseLevel(levelCell))
    ensures p.choices == ChoicesField(k, choicesCell, categoryCell, []).value
    ensures var answer := ParseAnswer(k, p.choices, answerCell);
            && (answer.Err? ==> p.answer.None?)
            && (answer.Ok? ==> p.answer == answer.value)
    ensures p.errors == Thrown(ParseReferences(referencesCell, isUrl)) + Thrown(ParseLevel(levelCell))
                        + ChoicesField(k, choicesCell, categoryCell, []).errors
                        + Thrown(ParseAnswer(k, p.choices, answerCell))
  {
    var refs := ParseQuestionCell([], ParseReferences(referencesCell, isUrl));
    assert refs.errors == Thrown(ParseReferences(referencesCell, isUrl));
    var level := ParseQuestionCell(refs.errors, ParseLevel(levelCell));
    assert AllNonEmpty(level.errors);
    ChoicesFieldAppends(k, choicesCell, categoryCell, level.errors);
    var choices := ChoicesField(k, choicesCell, categoryCell, level.errors);
    assert choices.errors == level.errors + ChoicesField(k, choicesCell, categoryCell, []).errors;
    var answer := ParseQuestionCell(choices.errors, ParseAnswer(k, choices.value, answerCell));
    assert answer.errors == choices.errors + Thrown(ParseAnswer(k, choices.value, answerCell));
    assert AllNonEmpty(answer.errors);
    Parsed(refs.value, level.value, choices.value,
           if answer.value.Some? then answer.value.value else None, answer.errors)
  }

  /** `rowToJSON(row)`: the text and the kind are parsed first; a row whose
      kind cannot be parsed yields `null`; then the other fields follow,
      each appending what its closure throws. */
  function RowToJson(id: int, row: RowCells, validatedState: string, isUrl: string -> bool): (r: Option<RowJson>)
    ensures r.None? <==> ParseKind(row.kind).Err?
    ensures r.Some? ==> r.value.question.kind == ParseKind(row.kind).value
    ensures r.Some? ==> (r.value.isValidated <==> row.state == validatedState)
    ensures r.Some? && |r.value.errors| == 0 ==> WellFormedQuestion(r.value.question, isUrl)
    ensures r.Some? ==> AllNonEmpty(r.value.errors)
    ensures r.Some? ==>
              var q := r.value.question;
              && q.id == id
              && (q.text.Some? <==> |row.text| > 0) && (q.text.Some? ==> q.text.value == row.text)
              && q.categories == ParseWordList(row.categories) && q.keywords == ParseWordList(row.keywords)
              && q.explanation == Trim(row.explanation)
              && q.groups == ParseGroups(row.groups)
    ensures r.Some? ==>
              var q := r.value.question;
              var p := ParseAfterKind(q.kind, row.references, row.level, row.choices, row.categoryChoices, row.answer, isUrl);
              && q.references == p.references && q.level == p.level && q.choices == p.choices && q.answer == p.answer
              && r.value.errors == KindStageErrors(row) + p.errors
  {
    var text := ParseQuestionCell([], ParseText(row.text));
    var kind := ParseQuestionCell(text.errors, ParseKind(row.kind));
    if kind.value.None? then None
    else
      var k := kind.value.value;
      var p := ParseAfterKind(k, row.references, row.level, row.choices, row.categoryChoices, row.answer, isUrl);
      assert kind.errors == KindStageErrors(row);
      AllNonEmptyConcat(kind.errors, p.errors);
      var question := Question(id, text.value, k, p.references, ParseWordList(row.categories), ParseWordList(row.keywords),
                               p.level, p.choices, p.answer, Trim(row.explanation), ParseGroups(row.groups));
      Some(RowJson(row.state == validatedState, question, kind.errors + p.errors))
  }

  /** A thrown error does not stop the row: emptying the text cell changes
      only the text of the question, which becomes `null`. */
  lemma EmptyTextKeepsOtherFields(id: int, row: RowCells, validatedState: string, isUrl: string -> bool)
    requires |row.text| > 0
    requires ParseKind(row.kind).Ok?
    ensures var bad := RowToJson(id, row.(text := ""), validatedState, isUrl);
            && bad.Some?
            && bad.value.question == RowToJson(id, row, validatedState, isUrl).value.question.(text := None)
  {
  }

  /** ... and its message goes in front of the errors the other cells throw
      anyway. */
  lemma EmptyTextErrorComesFirst(id: int, row: RowCells, validatedState: string, isUrl: string -> bool)
    requires |row.text| > 0
    requires ParseKind(row.kind).Ok?
    ensures RowToJson(id, row.(text := ""), validatedState, isUrl).value.errors
            == [EmptyTextMessage] + RowToJson(id, row, validatedState, isUrl).value.errors
  {
    var bad := row.(text := "");
    var p := ParseAfterKind(ParseKind(row.kind).value, row.references, row.level, row.choices,
                            row.categoryChoices, row.answer, isUrl);
    assert KindStageErrors(row) == [];
    assert KindStageErrors(bad) == [EmptyTextMessage];
    assert [] + p.errors == p.errors;
  }

  /** What `export(rowIndex)` writes: the errors cell and the output cell
      (`None` clears it; `Some(q)` holds `q` serialized as JSON). */
  datatype ExportWrite = ExportWrite(errorsCell: string, output: Option<Question>)

  const ErrorSeparator := "\n\n"

  /** `export(rowIndex)`: nothing happens without a row index; a dropped row
      clears both cells; otherwise the errors are joined by blank lines and
      the question is written only when there is no error and the row is
      validated. */
  function Export(rowIndex: Option<int>, row: RowCells, validatedState: string, isUrl: string -> bool): (w: Option<ExportWrite>)
    ensures w.None? <==> rowIndex.None?
    ensures w.Some? && w.value.output.Some? ==>
              var r := RowToJson(rowIndex.value, row, validatedState, isUrl);
              r.Some? && |r.value.errors| == 0 && r.value.isValidated && w.value.output.value == r.value.question
    ensures w.Some? ==>
              var r := RowToJson(rowIndex.value, row, validatedState, isUrl);
              (|w.value.errorsCell| == 0 <==> r.None? || |r.value.errors| == 0)
    ensures w.Some? ==>
              var r := RowToJson(rowIndex.value, row, validatedState, isUrl);
              r.Some? ==> forall k :: 0 <= k < |r.value.errors| ==> Shows(w.value.errorsCell, r.value.errors[k])
  {
    if rowIndex.None? then None
    else
      var r := RowToJson(rowIndex.value, row, validatedState, isUrl);
      assert r.Some? ==> (|Join(r.value.errors, ErrorSeparator)| == 0 <==> |r.value.errors| == 0) by {
        if r.Some? {
          JoinEmptyIff(r.value.errors, ErrorSeparator);
        }
      }
      assert r.Some? ==> forall k :: 0 <= k < |r.value.errors| ==> Shows(Join(r.value.errors, ErrorSeparator), r.value.errors[k]) by {
        if r.Some? {
          JoinShowsEvery(r.value.errors, ErrorSeparator);
        }
      }
      var errorsCell := if r.None? then "" else Join(r.value.errors, ErrorSeparator);
      var output := if r.None? || |r.value.errors| > 0 || !r.value.isValidated then None else Some(r.value.question);
      Some(ExportWrite(errorsCell, output))
  }

  /** The gate, both ways: a question is written exactly when its kind
      parses, it has no error and its state is the validated one. */
  lemma ExportGate(id: int, row: RowCells, validatedState: string, isUrl: string -> bool)
    ensures var w := Export(Some(id), row, validatedState, isUrl).value;
            var r := RowToJson(id, row, validatedState, isUrl);
            w.output.Some? <==> r.Some? && |r.value.errors| == 0 && row.state == validatedState
  {
  }

  /** Every written question is complete and well formed. */
  lemma ExportedQuestionIsWellFormed(id: int, row: RowCells, validatedState: string, isUrl: string -> bool)
    requires Export(Some(id), row, validatedState, isUrl).value.output.Some?
    ensures WellFormedQuestion(Export(Some(id), row, validatedState, isUrl).value.output.value, isUrl)
  {
  }

  /** As written, a row whose kind cannot be parsed gets an empty errors
      cell, although the kind closure threw a message for it. */
  lemma UnknownKindErrorIsHidden(id: int, row: RowCells, validatedState: string, isUrl: string -> bool)
    requires ParseKind(row.kind).Err?
    ensures Export(Some(id), row, validatedState, isUrl).value.errorsCell == ""
    ensures KindStageErrors(row)[|KindStageErrors(row)| - 1] == UnknownKindMessage(ToLower(Trim(row.kind)))
  {
  }

  /** A row with an empty type cell is one such row. */
  lemma EmptyKindCellIsUnknown()
    ensures ParseKind("").Err?
  {
  }

  /** `export` with the errors of a dropped row written to its errors cell,
      as the kind closure's message evidently intends; everything else is
      what `export` writes. */
  function ExportReportingKindError(rowIndex: Option<int>, row: RowCells, validatedState: string, isUrl: string -> bool): (w: Option<ExportWrite>)
    ensures w.None? <==> rowIndex.None?
    ensures w.Some? && ParseKind(row.kind).Err? ==> w.value.errorsCell == Join(KindStageErrors(row), ErrorSeparator)
  {
    var written := Export(rowIndex, row, validatedState, isUrl);
    if written.Some? && RowToJson(rowIndex.value, row, validatedState, isUrl).None? then
      Some(written.value.(errorsCell := Join(KindStageErrors(row), ErrorSeparator)))
    else written
  }

  /** The corrected errors cell of a dropped row ends with the kind message,
      and the corrected export writes the same output as the original. */
  lemma KindErrorIsReported(id: int, row: RowCells, validatedState: string, isUrl: string -> bool)
    ensures ExportReportingKindError(Some(id), row, validatedState, isUrl).value.output
            == Export(Some(id), row, validatedState, isUrl).value.output
    ensures ParseKind(row.kind).Err? ==>
              var cell := ExportReportingKindError(Some(id), row, validatedState, isUrl).value.errorsCell;
              var message := UnknownKindMessage(ToLower(Trim(row.kind)));
              |message| <= |cell| && cell[|cell| - |message|..] == message
  {
    var w := Export(Some(id), row, validatedState, isUrl).value;
    var errors := KindStageErrors(row);
    if RowToJson(id, row, validatedState, isUrl).None? {
      assert ExportReportingKindError(Some(id), row, validatedState, isUrl).value == w.(errorsCell := Join(errors, ErrorSeparator));
    }
    if ParseKind(row.kind).Err? {
      UnknownKindErrorIsHidden(id, row, validatedState, isUrl);
      JoinEndsWithLast(errors, ErrorSeparator);
    }
  }

  lemma JoinEndsWithLast(pieces: seq<string>, sep: string)
    requires |pieces| > 0
    ensures var j := Join(pieces, sep);
            var last := pieces[|pieces| - 1];
            |last| <= |j| && j[|j| - |last|..] == last
  {
    if |pieces| > 1 {
      JoinEndsWithLast(pieces[1..], sep);
    }
  }
}
