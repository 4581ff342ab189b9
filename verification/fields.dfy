/** The per-field parse closures of `rowToJSON`: each maps the text of one
    cell of a question row to a value or to the error string it throws. */
module Fields {
  import opened Wrappers
  import opened Sequences
  import opened Text
  import opened Cells

  // ----- Kind ---------------------------------------------------------------

  /** The four question shapes the exporter knows. */
  datatype Kind = SingleChoice | MultipleChoice | Ranking | Classification

  /** The label an author writes in the type column (after trim and lower-case). */
  function KindLabel(k: Kind): string {
    match k
    case MultipleChoice => "choix multiple"
    case SingleChoice => "choix unique"
    case Ranking => "classement"
    case Classification => "catégorisation"
  }

  /** The `type` tag written into the exported question. */
  function KindTag(k: Kind): string {
    match k
    case SingleChoice => "single_choice"
    case MultipleChoice => "multiple_choice"
    case Ranking => "ranking"
    case Classification => "classification"
  }

  function UnknownKindMessage(written: string): string {
    "Le type de question '" + written + "' n'est pas géré pour le moment."
  }

  /** The type closure: the cell is trimmed and lower-cased, then matched
      against the four labels; anything else throws. */
  function ParseKind(content: string): (r: Result<Kind>)
    ensures r.Err? ==> |r.error| > 0
    ensures r.Ok? ==> ToLower(Trim(content)) == KindLabel(r.value)
    ensures r.Err? ==> forall k :: ToLower(Trim(content)) != KindLabel(k)
    ensures r.Err? ==> r.error == UnknownKindMessage(ToLower(Trim(content)))
  {
    var written := ToLower(Trim(content));
    if written == KindLabel(MultipleChoice) then Ok(MultipleChoice)
    else if written == KindLabel(SingleChoice) then Ok(SingleChoice)
    else if written == KindLabel(Ranking) then Ok(Ranking)
    else if written == KindLabel(Classification) then Ok(Classification)
    else Err(UnknownKindMessage(written))
  }

  /** The labels are distinct, so each kind is reached by exactly one label. */
  lemma KindLabelInjective(k1: Kind, k2: Kind)
    ensures KindLabel(k1) == KindLabel(k2) <==> k1 == k2
  {
    if k1 != k2 && |KindLabel(k1)| == |KindLabel(k2)| {
      assert {k1, k2} == {MultipleChoice, Classification};
      assert KindLabel(MultipleChoice)[1] != KindLabel(Classification)[1];
    }
  }

  /** The parse is exact: a cell selects kind `k` if and only if, trimmed and
      lower-cased, it reads `k`'s label. */
  lemma ParseKindExact(content: string, k: Kind)
    ensures ParseKind(content) == Ok(k) <==> ToLower(Trim(content)) == KindLabel(k)
  {
    var r := ParseKind(content);
    if r.Ok? {
      KindLabelInjective(r.value, k);
    }
  }

  /** Every label is already trimmed and lower-case, so writing it selects its kind. */
  lemma ParseKindOfLabel(k: Kind)
    ensures ParseKind(KindLabel(k)) == Ok(k)
  {
    var l := KindLabel(k);
    TrimmedIsFixed(l);
    LabelHasNoCapital(k);
    LowerIsFixed(l);
    ParseKindExact(l, k);
  }

  lemma LabelHasNoCapital(k: Kind)
    ensures forall i :: 0 <= i < |KindLabel(k)| ==> !IsUpper(KindLabel(k)[i])
  {
    var l := KindLabel(k);
    forall i | 0 <= i < |l|
      ensures !IsUpper(l[i])
    {
      assert 'a' <= l[i] <= 'z' || l[i] == ' ' || l[i] == 'é';
    }
  }

  // ----- Text and level -----------------------------------------------------

  const EmptyTextMessage := "L'intitulé de la question ne peut être vide."
  const EmptyLevelMessage := "Le niveau de la question ne peut être vide."

  /** The text closure: an empty cell throws; anything else, even blanks,
      is kept verbatim. */
  function ParseText(content: string): (r: Result<string>)
    ensures r.Err? ==> |r.error| > 0
    ensures r.Ok? <==> |content| > 0
    ensures r.Ok? ==> r.value == content
    ensures r.Err? ==> r.error == EmptyTextMessage
  {
    if |content| == 0 then Err(EmptyTextMessage) else Ok(content)
  }

  /** The level closure: an empty cell throws; otherwise the cell lower-cased. */
  function ParseLevel(content: string): (r: Result<string>)
    ensures r.Err? ==> |r.error| > 0
    ensures r.Ok? <==> |content| > 0
    ensures r.Ok? ==> |r.value| == |content|
    ensures r.Ok? ==> forall i :: 0 <= i < |r.value| ==> !IsUpper(r.value[i])
    ensures r.Err? ==> r.error == EmptyLevelMessage
  {
    if |content| == 0 then Err(EmptyLevelMessage) else Ok(ToLower(content))
  }

  /** A non-empty cell without capitals is kept as it is. */
  lemma ParseLevelKeepsLowerCell(content: string)
    requires |content| > 0
    requires forall i :: 0 <= i < |content| ==> !IsUpper(content[i])
    ensures ParseLevel(content) == Ok(content)
  {
    LowerIsFixed(content);
  }

  // ----- Categories and keywords --------------------------------------------

  /** The categories and keywords closures: comma-separated words, trimmed,
      empty ones dropped, lower-cased. They never throw. */
  function ParseWordList(content: string): (r: seq<string>)
    ensures |r| == |ParseCellWithSep(content, ",")|
    ensures forall k :: 0 <= k < |r| ==> |r[k]| > 0
    ensures forall k :: 0 <= k < |r| ==> forall i :: 0 <= i < |r[k]| ==> !IsUpper(r[k][i])
  {
    var words := ParseCellWithSep(content, ",");
    seq(|words|, k requires 0 <= k < |words| => ToLower(words[k]))
  }

  /** Writing clean, lower-case words separated by commas and parsing the
      cell gives the words back. */
  lemma ParseWordListJoin(words: seq<string>)
    requires forall k :: 0 <= k < |words| ==> IsCellItem(words[k]) && ',' !in words[k]
    requires forall k :: 0 <= k < |words| ==> forall i :: 0 <= i < |words[k]| ==> !IsUpper(words[k][i])
    ensures ParseWordList(Join(words, ",")) == words
  {
    ParseCellWithSepJoin(words, ',');
    assert [','] == ",";
    forall k | 0 <= k < |words|
      ensures ToLower(words[k]) == words[k]
    {
      LowerIsFixed(words[k]);
    }
  }

  // ----- References ---------------------------------------------------------

  /** A source: descriptive text and an optional url (`null` when absent). */
  datatype Reference = Reference(text: string, url: Option<string>)

  const MissingReferenceMessage := "Il manque une source."
  const EmptyReferenceTextMessage := "Le texte de la source doit contenir des caractères"

  function ReferenceTextIsUrlMessage(text: string): string {
    "La source \"" + text + "\" est une url. Peut-être avez-vous sauté une ligne sans le vouloir ? Sinon, veuillez utiliser un texte plus descriptif (nom de page, titre du livre...)."
  }

  function NotUrlMessage(url: string): string {
    "L'url \"" + url + "\" de la source n'est pas une url."
  }

  function TooManyLinesMessage(block: string): string {
    "La source \"" + block + "\" doit être sur une ou deux lignes seulement."
  }

  /** What the reference closure guarantees of every source it returns. */
  predicate WellFormedReference(r: Reference, isUrl: string -> bool) {
    && |r.text| > 0 && IsTrimmed(r.text) && !isUrl(r.text)
    && (r.url.Some? ==> IsTrimmed(r.url.value) && isUrl(r.url.value))
  }

  /** One block of the references cell: a text line and an optional url
      line. The checks run in the order of the closure's checks: empty text,
      text that is a url, then one line, then two lines with a valid url,
      else too many lines; each rejection throws its own message. */
  function ParseReference(block: string, isUrl: string -> bool): (r: Result<Reference>)
    ensures r.Err? ==> |r.error| > 0
    ensures r.Ok? ==> WellFormedReference(r.value, isUrl)
    ensures var text := Trim(Split(block, "\n")[0]);
            |text| == 0 ==> r == Err(EmptyReferenceTextMessage)
    ensures var text := Trim(Split(block, "\n")[0]);
            |text| > 0 && isUrl(text) ==> r == Err(ReferenceTextIsUrlMessage(text))
    ensures var lines := Split(block, "\n");
            var text := Trim(lines[0]);
            |text| > 0 && !isUrl(text) && |lines| == 2 && !isUrl(Trim(lines[1])) ==> r == Err(NotUrlMessage(Trim(lines[1])))
    ensures var lines := Split(block, "\n");
            var text := Trim(lines[0]);
            |text| > 0 && !isUrl(text) && |lines| > 2 ==> r == Err(TooManyLinesMessage(block))
  {
    var lines := Split(block, "\n");
    var text := Trim(lines[0]);
    if |text| == 0 then Err(EmptyReferenceTextMessage)
    else if isUrl(text) then Err(ReferenceTextIsUrlMessage(text))
    else if |lines| == 1 then Ok(Reference(text, None))
    else if |lines| == 2 then
      var url := Trim(lines[1]);
      if !isUrl(url) then Err(NotUrlMessage(url)) else Ok(Reference(text, Some(url)))
    else Err(TooManyLinesMessage(block))
  }

  /** A block is accepted exactly when its first line has text that is not
      a url and it has either no second line or a second line that is a url;
      the first line gives the text and the second, when present, the url. */
  lemma ParseReferenceExact(block: string, isUrl: string -> bool)
    ensures var lines := Split(block, "\n");
            var r := ParseReference(block, isUrl);
            && (r.Ok? <==> && |Trim(lines[0])| > 0 && !isUrl(Trim(lines[0]))
                           && (|lines| == 1 || (|lines| == 2 && isUrl(Trim(lines[1])))))
            && (r.Ok? ==> r.value.text == Trim(lines[0]))
            && (r.Ok? ==> (r.value.url.None? <==> |lines| == 1))
            && (r.Ok? && |lines| == 2 ==> r.value.url == Some(Trim(lines[1])))
  {
  }

  /** The loop of the references closure over the blocks: the first block
      that throws decides the error; otherwise one source per block, in order. */
  function ParseBlocks(blocks: seq<string>, isUrl: string -> bool): (r: Result<seq<Reference>>)
    ensures r.Err? ==> |r.error| > 0
    ensures r.Ok? <==> forall k :: 0 <= k < |blocks| ==> ParseReference(blocks[k], isUrl).Ok?
    ensures r.Ok? ==> |r.value| == |blocks| && forall k :: 0 <= k < |blocks| ==> r.value[k] == ParseReference(blocks[k], isUrl).value
    ensures r.Err? ==> exists k :: && 0 <= k < |blocks| && ParseReference(blocks[k], isUrl).Err?
                                   && r.error == ParseReference(blocks[k], isUrl).error
                                   && forall j :: 0 <= j < k ==> ParseReference(blocks[j], isUrl).Ok?
    ensures r.Ok? ==> forall k :: 0 <= k < |r.value| ==> WellFormedReference(r.value[k], isUrl)
  {
    var parsed := seq(|blocks|, k requires 0 <= k < |blocks| => ParseReference(blocks[k], isUrl));
    var all := FirstErrorOrAll(parsed);
    assert forall k :: 0 <= k < |blocks| ==> parsed[k] == ParseReference(blocks[k], isUrl);
    if all.Err? then
      var k :| && 0 <= k < |parsed| && parsed[k].Err? && all.error == parsed[k].error
               && forall j :: 0 <= j < k ==> parsed[j].Ok?;
      assert ParseReference(blocks[k], isUrl).Err?;
      all
    else all
  }

  /** The references closure: blocks are separated by a blank line; each
      block is parsed in turn; no block at all throws. */
  function ParseReferences(content: string, isUrl: string -> bool): (r: Result<seq<Reference>>)
    ensures r.Err? ==> |r.error| > 0
    ensures var blocks := ParseCellWithSep(content, "\n\n");
            r.Ok? <==> |blocks| >= 1 && forall k :: 0 <= k < |blocks| ==> ParseReference(blocks[k], isUrl).Ok?
    ensures r.Ok? ==> |r.value| == |ParseCellWithSep(content, "\n\n")|
    ensures r.Ok? ==> forall k :: 0 <= k < |r.value| ==>
              r.value[k] == ParseReference(ParseCellWithSep(content, "\n\n")[k], isUrl).value
    ensures var blocks := ParseCellWithSep(content, "\n\n");
            r.Err? && |blocks| >= 1 ==>
              exists k :: && 0 <= k < |blocks| && ParseReference(blocks[k], isUrl).Err?
                          && r.error == ParseReference(blocks[k], isUrl).error
                          && forall j :: 0 <= j < k ==> ParseReference(blocks[j], isUrl).Ok?
    ensures r.Ok? ==> |r.value| >= 1
    ensures r.Ok? ==> forall k :: 0 <= k < |r.value| ==> WellFormedReference(r.value[k], isUrl)
    ensures |ParseCellWithSep(content, "\n\n")| == 0 ==> r == Err(MissingReferenceMessage)
  {
    var blocks := ParseCellWithSep(content, "\n\n");
    var all := ParseBlocks(blocks, isUrl);
    assert all.Ok? ==> |all.value| == |blocks|;
    if all.Err? then all
    else if |all.value| == 0 then Err(MissingReferenceMessage)
    else all
  }

  /** Each accepted source comes from the block at the same position: its
      text is the block's first line, trimmed, and it has a url exactly when
      the block has a second line, which is then the last one. */
  lemma ReferencesFollowBlocks(content: string, isUrl: string -> bool)
    requires ParseReferences(content, isUrl).Ok?
    ensures var refs := ParseReferences(content, isUrl).value;
            var blocks := ParseCellWithSep(content, "\n\n");
            forall k :: 0 <= k < |refs| ==>
              var lines := Split(blocks[k], "\n");
              && |lines| <= 2
              && refs[k].text == Trim(lines[0])
              && (refs[k].url.None? <==> |lines| == 1)
              && (|lines| == 2 ==> refs[k].url == Some(Trim(lines[1])))
  {
    var blocks := ParseCellWithSep(content, "\n\n");
    forall k | 0 <= k < |blocks|
      ensures ParseReference(blocks[k], isUrl).Ok? ==>
                var lines := Split(blocks[k], "\n");
                && |lines| <= 2
                && ParseReference(blocks[k], isUrl).value.text == Trim(lines[0])
                && (ParseReference(blocks[k], isUrl).value.url.None? <==> |lines| == 1)
                && (|lines| == 2 ==> ParseReference(blocks[k], isUrl).value.url == Some(Trim(lines[1])))
    {
      ParseReferenceExact(blocks[k], isUrl);
    }
  }

  /** The "text must contain characters" error can never be thrown: every
      block handed to the loop is trimmed and non-empty, so its first line is
      too. */
  lemma ReferenceTextNeverEmpty(content: string, isUrl: string -> bool)
    ensures forall k :: 0 <= k < |ParseCellWithSep(content, "\n\n")| ==>
              |Trim(Split(ParseCellWithSep(content, "\n\n")[k], "\n")[0])| > 0
  {
    var blocks := ParseCellWithSep(content, "\n\n");
    forall k | 0 <= k < |blocks|
      ensures |Trim(Split(blocks[k], "\n")[0])| > 0
    {
      FirstLineKeepsFirstChar(blocks[k]);
    }
  }

  lemma FirstLineKeepsFirstChar(b: string)
    requires IsCellItem(b)
    ensures |Trim(Split(b, "\n")[0])| > 0
  {
    var first := Split(b, "\n")[0];
    SplitFirstIsPrefix(b, "\n");
    match Find(b, "\n") {
      case None =>
      case Some(i) =>
        OccursAtChar(b, '\n', i);
    }
    assert first[0] == b[0];
    TrimNonEmptyWhenFirstIsNot(first);
  }

  // ----- Choices ------------------------------------------------------------

  /** The `choices` field: a list of options for single, multiple and
      ranking questions; for classification the elements and the category
      list, which is `null` when its own cell threw. */
  datatype Choices =
    | Options(options: seq<string>)
    | Grouping(elements: seq<string>, categories: Option<seq<string>>)

  const TooFewChoicesMessage := "Il doit au moins y avoir deux choix."
  const TooFewCategoriesMessage := "Il doit au moins y avoir deux catégories."

  /** One option per line; at least two; no duplicates (`what` names the
      list in the duplicate message). */
  function ParseOptionList(content: string, tooFew: string, what: string): (r: Result<seq<string>>)
    requires |tooFew| > 0
    ensures r.Err? ==> |r.error| > 0
    ensures r.Ok? <==> |ParseCellWithSep(content, "\n")| >= 2 && Distinct(ParseCellWithSep(content, "\n"))
    ensures r.Ok? ==> r.value == ParseCellWithSep(content, "\n")
    ensures |ParseCellWithSep(content, "\n")| < 2 ==> r == Err(tooFew)
    ensures var items := ParseCellWithSep(content, "\n");
            |items| >= 2 && !Distinct(items) ==> r == Err(DuplicateMessage(what))
  {
    var items := ParseCellWithSep(content, "\n");
    if |items| < 2 then Err(tooFew)
    else match CheckUnique(items, what)
      case Fail(e) => Err(e)
      case Pass => Ok(items)
  }

  /** The choices field agrees with the kind: a grouping exactly for
      classification (or `null`). */
  predicate ChoicesMatchKind(kind: Kind, choices: Option<Choices>) {
    choices.Some? ==> (choices.value.Grouping? <==> kind == Classification)
  }

  /** What an accepted choices field guarantees: two or more distinct
      options, or distinct elements with two or more distinct categories
      when the category cell parsed. */
  predicate WellFormedChoices(c: Choices) {
    match c
    case Options(o) => |o| >= 2 && Distinct(o)
    case Grouping(e, cats) => Distinct(e) && (cats.Some? ==> |cats.value| >= 2 && Distinct(cats.value))
  }

  /** The field is complete: present, and for a grouping with its categories. */
  predicate ChoicesComplete(c: Option<Choices>) {
    c.Some? && (c.value.Grouping? ==> c.value.categories.Some?)
  }

  /** The branch for single, multiple and ranking questions. */
  function OptionsField(choicesCell: string, errors: seq<string>): (f: Field<Choices>)
    ensures AllNonEmpty(errors) ==> AllNonEmpty(f.errors)
    ensures f.value.Some? ==> f.value.value.Options? && WellFormedChoices(f.value.value)
    ensures f.value.Some? ==> f.errors == errors
    ensures f.value.None? ==> |f.errors| == |errors| + 1
    ensures var options := ParseOptionList(choicesCell, TooFewChoicesMessage, "les choix");
            && (f.value.Some? <==> options.Ok?)
            && (f.value.None? ==> f.errors == errors + [options.error])
    ensures f.value.Some? ==> f.value.value.options == ParseCellWithSep(choicesCell, "\n")
  {
    var options := ParseQuestionCell(errors, ParseOptionList(choicesCell, TooFewChoicesMessage, "les choix"));
    Field(if options.value.Some? then Some(Options(options.value.value)) else None, options.errors)
  }

  /** The branch for classification: duplicate elements throw before the
      category cell is read; otherwise the category cell is parsed by a
      nested `parseQuestionCell` that appends its own error, and the field
      holds the elements with the categories or `null`. */
  function GroupingField(choicesCell: string, categoryCell: string, errors: seq<string>): (f: Field<Choices>)
    ensures AllNonEmpty(errors) ==> AllNonEmpty(f.errors)
    ensures f.value.Some? ==> f.value.value.Grouping? && WellFormedChoices(f.value.value)
    ensures ChoicesComplete(f.value) ==> f.errors == errors
    ensures !ChoicesComplete(f.value) ==> |f.errors| == |errors| + 1
    ensures f.value.Some? <==> Distinct(ParseCellWithSep(choicesCell, "\n"))
    ensures f.value.None? ==> f.errors == errors + [DuplicateMessage("les éléments")]
    ensures f.value.Some? ==> f.value.value.elements == ParseCellWithSep(choicesCell, "\n")
    ensures var categories := ParseOptionList(categoryCell, TooFewCategoriesMessage, "les catégories");
            f.value.Some? ==> && f.value.value.categories == OkOrNull(categories)
                              && f.errors == errors + Thrown(categories)
  {
    var elements := ParseCellWithSep(choicesCell, "\n");
    match CheckUnique(elements, "les éléments")
    case Fail(e) => Field(None, errors + [e])
    case Pass =>
      var categories := ParseQuestionCell(errors, ParseOptionList(categoryCell, TooFewCategoriesMessage, "les catégories"));
      Field(Some(Grouping(elements, categories.value)), categories.errors)
  }

  /** The choices closure, which branches on the already parsed kind. */
  function ChoicesField(kind: Kind, choicesCell: string, categoryCell: string, errors: seq<string>): (f: Field<Choices>)
    ensures AllNonEmpty(errors) ==> AllNonEmpty(f.errors)
    ensures ChoicesMatchKind(kind, f.value)
    ensures f.value.Some? ==> WellFormedChoices(f.value.value)
    ensures ChoicesComplete(f.value) ==> f.errors == errors
    ensures !ChoicesComplete(f.value) ==> |f.errors| == |errors| + 1
    ensures kind != Classification ==>
              (f.value.Some? <==> ParseOptionList(choicesCell, TooFewChoicesMessage, "les choix").Ok?)
    ensures kind != Classification && f.value.Some? ==> f.value.value == Options(ParseCellWithSep(choicesCell, "\n"))
    ensures kind == Classification ==>
              (ChoicesComplete(f.value) <==>
                 && Distinct(ParseCellWithSep(choicesCell, "\n"))
                 && ParseOptionList(categoryCell, TooFewCategoriesMessage, "les catégories").Ok?)
    ensures kind == Classification && ChoicesComplete(f.value) ==>
              f.value.value == Grouping(ParseCellWithSep(choicesCell, "\n"), Some(ParseCellWithSep(categoryCell, "\n")))
  {
    if kind != Classification then OptionsField(choicesCell, errors)
    else GroupingField(choicesCell, categoryCell, errors)
  }

  /** The choices closure does not read the error list: its value is the
      same for any list, and it only appends to it. */
  lemma ChoicesFieldAppends(kind: Kind, choicesCell: string, categoryCell: string, errors: seq<string>)
    ensures ChoicesField(kind, choicesCell, categoryCell, errors).value
            == ChoicesField(kind, choicesCell, categoryCell, []).value
    ensures ChoicesField(kind, choicesCell, categoryCell, errors).errors
            == errors + ChoicesField(kind, choicesCell, categoryCell, []).errors
  {
  }

  // ----- Answer -------------------------------------------------------------

  /** The `answer` field, shaped by the kind. */
  datatype Answer =
    | SingleAnswer(choice: string)
    | MultipleAnswer(selection: seq<string>)
    | RankingAnswer(order: seq<string>)
    | ClassificationAnswer(assignment: map<string, string>)

  /** Stands for the TypeError JavaScript throws when the answer closure
      reads a field of a `null` choices value. */
  const NullAccess := "TypeError"

  const CountMismatchMessage := "La réponse doit contenir autant de catégories qu'il y a d'éléments."

  function MissingMessage(item: string, listName: string): string {
    "La réponse \"" + item + "\" n'apparait pas dans la liste des " + listName + "."
  }

  /** The membership loop of the multiple and classification answers: the
      first item missing from `pool` throws; a `null` pool throws as soon as
      there is an item to look up. */
  function CheckAllIn(items: seq<string>, pool: Option<seq<string>>, listName: string): (r: Outcome)
    ensures r.Fail? ==> |r.error| > 0
    ensures r.Pass? <==> |items| == 0 || (pool.Some? && forall k :: 0 <= k < |items| ==> items[k] in pool.value)
    ensures r.Fail? && pool.None? ==> r.error == NullAccess
    ensures r.Fail? && pool.Some? ==>
              exists k :: && 0 <= k < |items| && items[k] !in pool.value
                          && (forall j :: 0 <= j < k ==> items[j] in pool.value)
                          && r.error == MissingMessage(items[k], listName)
  {
    if |items| == 0 then Pass
    else if pool.None? then Fail(NullAccess)
    else if IndexOf(pool.value, items[0]) == -1 then Fail(MissingMessage(items[0], listName))
    else
      var rest := CheckAllIn(items[1..], pool, listName);
      assert forall j :: 1 <= j < |items| ==> items[j] == items[1..][j - 1];
      if rest.Fail? then
        var k :| && 0 <= k < |items[1..]| && items[1..][k] !in pool.value
                 && (forall j :: 0 <= j < k ==> items[1..][j] in pool.value)
                 && rest.error == MissingMessage(items[1..][k], listName);
        assert items[k + 1] !in pool.value;
        rest
      else rest
  }

  /** The single-choice answer as evidently intended: the trimmed cell must
      be one of the options, and the error names the rejected answer. */
  function ParseSingleAnswer(options: Option<seq<string>>, content: string): (r: Result<string>)
    ensures r.Err? ==> |r.error| > 0
    ensures r.Ok? <==> options.Some? && Trim(content) in options.value
    ensures r.Ok? ==> r.value == Trim(content)
    ensures r.Err? && options.Some? ==> r.error == MissingMessage(Trim(content), "choix")
    ensures r.Err? && options.None? ==> r.error == NullAccess
  {
    var answer := Trim(content);
    if options.None? then Err(NullAccess)
    else if IndexOf(options.value, answer) == -1 then Err(MissingMessage(answer, "choix"))
    else Ok(answer)
  }

  /** The single-choice answer as the source writes it: the message
      concatenates `choice`, a variable hoisted from later in the closure and
      still `undefined` here. */
  function ParseSingleAnswerAsWritten(options: Option<seq<string>>, content: string): (r: Result<string>)
    ensures r.Err? ==> |r.error| > 0
    ensures r.Ok? <==> options.Some? && Trim(content) in options.value
    ensures r.Ok? ==> r.value == Trim(content)
    ensures r.Err? && options.Some? ==> r.error == MissingMessage("undefined", "choix")
    ensures r.Err? && options.None? ==> r.error == NullAccess
  {
    var answer := Trim(content);
    if options.None? then Err(NullAccess)
    else if IndexOf(options.value, answer) == -1 then Err(MissingMessage("undefined", "choix"))
    else Ok(answer)
  }

  /** The two versions accept the same cells with the same value and differ
      only in the message. */
  lemma SingleAnswerVersionsAgree(options: Option<seq<string>>, content: string)
    ensures ParseSingleAnswerAsWritten(options, content).Ok? == ParseSingleAnswer(options, content).Ok?
    ensures ParseSingleAnswer(options, content).Ok? ==>
              ParseSingleAnswerAsWritten(options, content) == ParseSingleAnswer(options, content)
  {
  }

  /** The as-written message does not name the answer: rejecting "Rome"
      from ["Paris", "Lyon"] reports "undefined". */
  lemma SingleAnswerMessageLosesAnswer()
    ensures ParseSingleAnswerAsWritten(Some(["Paris", "Lyon"]), "Rome").Err?
    ensures ParseSingleAnswerAsWritten(Some(["Paris", "Lyon"]), "Rome").error
            != ParseSingleAnswer(Some(["Paris", "Lyon"]), "Rome").error
  {
    var options := ["Paris", "Lyon"];
    TrimmedIsFixed("Rome");
    assert "Rome" !in options;
    var written := MissingMessage("undefined", "choix");
    var fixed := MissingMessage("Rome", "choix");
    assert |written| != |fixed|;
  }

  /** The multiple-choice answer: one option per line, no duplicates, each
      one of the options. An empty answer is accepted. */
  function ParseMultipleAnswer(options: Option<seq<string>>, content: string): (r: Result<seq<string>>)
    ensures r.Err? ==> |r.error| > 0
    ensures var items := ParseCellWithSep(content, "\n");
            r.Ok? <==> Distinct(items) && (|items| == 0 || (options.Some? && forall k :: 0 <= k < |items| ==> items[k] in options.value))
    ensures r.Ok? ==> r.value == ParseCellWithSep(content, "\n")
    ensures var items := ParseCellWithSep(content, "\n");
            !Distinct(items) ==> r == Err(DuplicateMessage("la réponse"))
    ensures var items := ParseCellWithSep(content, "\n");
            Distinct(items) && r.Err? ==> r.error == CheckAllIn(items, options, "choix").error
  {
    var items := ParseCellWithSep(content, "\n");
    match CheckUnique(items, "la réponse")
    case Fail(e) => Err(e)
    case Pass =>
      match CheckAllIn(items, options, "choix")
      case Fail(e) => Err(e)
      case Pass => Ok(items)
  }

  /** On a plain JavaScript object, assigning a string to this key sets no
      property: the assignment is ignored. */
  const ProtoKey := "__proto__"

  /** `answer[keys[i]] = values[i]` on a fresh object for each `i` in order:
      later pairs overwrite earlier ones, and the `__proto__` key is never
      created. */
  function Zip(keys: seq<string>, values: seq<string>): (m: map<string, string>)
    requires |keys| == |values|
    ensures m.Keys == set k | k in keys && k != ProtoKey
    ensures forall x :: x in m ==> m[x] in values
  {
    if |keys| == 0 then map[]
    else
      var n := |keys| - 1;
      var prev := Zip(keys[..n], values[..n]);
      assert forall x :: x in keys <==> x in keys[..n] || x == keys[n];
      assert forall v :: v in values[..n] ==> v in values;
      if keys[n] == ProtoKey then prev else prev[keys[n] := values[n]]
  }

  /** With distinct keys no pair is overwritten: the map sends each key
      other than `__proto__` to the value at the same position. */
  lemma {:induction false} ZipDistinct(keys: seq<string>, values: seq<string>)
    requires |keys| == |values| && Distinct(keys)
    ensures forall i :: 0 <= i < |keys| && keys[i] != ProtoKey ==> Zip(keys, values)[keys[i]] == values[i]
  {
    forall i | 0 <= i < |keys| && keys[i] != ProtoKey
      ensures Zip(keys, values)[keys[i]] == values[i]
    {
      ZipAt(keys, values, i);
    }
  }

  lemma {:induction false} ZipAt(keys: seq<string>, values: seq<string>, i: nat)
    requires |keys| == |values| && Distinct(keys) && i < |keys| && keys[i] != ProtoKey
    ensures Zip(keys, values)[keys[i]] == values[i]
  {
    var n := |keys| - 1;
    var prev := Zip(keys[..n], values[..n]);
    assert Zip(keys, values) == if keys[n] == ProtoKey then prev else prev[keys[n] := values[n]];
    if i < n {
      assert Distinct(keys[..n]) by {
        forall a, b | 0 <= a < b < n
          ensures keys[..n][a] != keys[..n][b]
        {
          assert keys[..n][a] == keys[a] && keys[..n][b] == keys[b];
        }
      }
      ZipAt(keys[..n], values[..n], i);
      assert keys[..n][i] == keys[i] && values[..n][i] == values[i];
      assert keys[i] != keys[n];
    }
  }

  /** The classification answer: one category per line, as many as there
      are elements, each one of the categories; then element i is sent to
      line i. */
  function ParseClassificationAnswer(elements: seq<string>, categories: Option<seq<string>>, content: string): (r: Result<map<string, string>>)
    ensures r.Err? ==> |r.error| > 0
    ensures var cats := ParseCellWithSep(content, "\n");
            r.Ok? <==> && |cats| == |elements|
                       && (|cats| == 0 || (categories.Some? && forall k :: 0 <= k < |cats| ==> cats[k] in categories.value))
    ensures r.Ok? ==> r.value.Keys == set e | e in elements && e != ProtoKey
    ensures r.Ok? ==> forall e :: e in r.value ==> categories.Some? && r.value[e] in categories.value
    ensures r.Err? && |ParseCellWithSep(content, "\n")| != |elements| ==> r.error == CountMismatchMessage
    ensures var cats := ParseCellWithSep(content, "\n");
            |cats| == |elements| && r.Err? ==> r.error == CheckAllIn(cats, categories, "catégories").error
  {
    var cats := ParseCellWithSep(content, "\n");
    if |elements| != |cats| then Err(CountMismatchMessage)
    else match CheckAllIn(cats, categories, "catégories")
      case Fail(e) => Err(e)
      case Pass => Ok(Zip(elements, cats))
  }

  /** An accepted classification over distinct elements sends each element
      other than `__proto__` to the category on the same line. */
  lemma ClassificationAnswerPairsLines(elements: seq<string>, categories: Option<seq<string>>, content: string)
    requires Distinct(elements)
    requires ParseClassificationAnswer(elements, categories, content).Ok?
    ensures var m := ParseClassificationAnswer(elements, categories, content).value;
            forall i :: 0 <= i < |elements| && elements[i] != ProtoKey ==> m[elements[i]] == ParseCellWithSep(content, "\n")[i]
  {
    ZipDistinct(elements, ParseCellWithSep(content, "\n"));
  }

  /** An answer drawn from the choices, as each kind requires. */
  predicate AnswerFits(kind: Kind, choices: Choices, answer: Answer) {
    match kind
    case SingleChoice =>
      choices.Options? && answer.SingleAnswer? && answer.choice in choices.options
    case MultipleChoice =>
      && choices.Options? && answer.MultipleAnswer? && Distinct(answer.selection)
      && forall k :: 0 <= k < |answer.selection| ==> answer.selection[k] in choices.options
    case Ranking =>
      choices.Options? && answer == RankingAnswer(choices.options)
    case Classification =>
      && choices.Grouping? && answer.ClassificationAnswer?
      && answer.assignment.Keys == (set e | e in choices.elements && e != ProtoKey)
      && forall e :: e in answer.assignment ==>
           choices.categories.Some? && answer.assignment[e] in choices.categories.value
  }

  /** The answer closure, as written. `Ok(None)` is the ranking answer
      copied from `null` choices; every other accepted answer fits the
      choices. */
  function ParseAnswer(kind: Kind, choices: Option<Choices>, content: string): (r: Result<Option<Answer>>)
    requires ChoicesMatchKind(kind, choices)
    ensures r.Err? ==> |r.error| > 0
    ensures r.Ok? && r.value.Some? && choices.Some? ==> AnswerFits(kind, choices.value, r.value.value)
    ensures r.Ok? && r.value.Some? && choices.None? ==> r.value.value == MultipleAnswer([])
    ensures r.Ok? && r.value.None? ==> kind == Ranking && choices.None?
    ensures kind == Ranking ==> r.Ok?
    ensures choices.None? && (kind == SingleChoice || kind == Classification) ==> r == Err(NullAccess)
    ensures kind == SingleChoice && choices.Some? && r.Err? ==> r.error == MissingMessage("undefined", "choix")
    ensures kind == SingleChoice && choices.Some? ==>
              && (r.Ok? <==> Trim(content) in choices.value.options)
              && (r.Ok? ==> r.value == Some(SingleAnswer(Trim(content))))
    ensures var items := ParseCellWithSep(content, "\n");
            kind == MultipleChoice ==>
              && (r.Ok? <==> Distinct(items) && (|items| == 0 || (choices.Some? && forall k :: 0 <= k < |items| ==> items[k] in choices.value.options)))
              && (r.Ok? ==> r.value == Some(MultipleAnswer(items)))
    ensures kind == Ranking && choices.Some? ==> r == Ok(Some(RankingAnswer(choices.value.options)))
    ensures var cats := ParseCellWithSep(content, "\n");
            kind == Classification && choices.Some? ==>
              (r.Ok? <==> && |cats| == |choices.value.elements|
                          && (|cats| == 0 || (choices.value.categories.Some? && forall k :: 0 <= k < |cats| ==> cats[k] in choices.value.categories.value)))
    ensures var items := ParseCellWithSep(content, "\n");
            kind == MultipleChoice && !Distinct(items) ==> r == Err(DuplicateMessage("la réponse"))
    ensures var items := ParseCellWithSep(content, "\n");
            kind == MultipleChoice && Distinct(items) && r.Err? ==>
              var options := if choices.Some? then Some(choices.value.options) else None;
              r.error == CheckAllIn(items, options, "choix").error
    ensures var cats := ParseCellWithSep(content, "\n");
            kind == Classification && choices.Some? && |cats| != |choices.value.elements| ==> r == Err(CountMismatchMessage)
    ensures var cats := ParseCellWithSep(content, "\n");
            kind == Classification && choices.Some? && |cats| == |choices.value.elements| && r.Err? ==>
              r.error == CheckAllIn(cats, choices.value.categories, "catégories").error
  {
    var options := if choices.Some? && choices.value.Options? then Some(choices.value.options) else None;
    match kind
    case SingleChoice =>
      (match ParseSingleAnswerAsWritten(options, content)
       case Ok(a) => Ok(Some(SingleAnswer(a)))
       case Err(e) => Err(e))
    case MultipleChoice =>
      (match ParseMultipleAnswer(options, content)
       case Ok(a) => Ok(Some(MultipleAnswer(a)))
       case Err(e) => Err(e))
    case Ranking =>
      if options.Some? then Ok(Some(RankingAnswer(options.value))) else Ok(None)
    case Classification =>
      if choices.None? then Err(NullAccess)
      else
        match ParseClassificationAnswer(choices.value.elements, choices.value.categories, content)
        case Ok(m) => Ok(Some(ClassificationAnswer(m)))
        case Err(e) => Err(e)
  }

  // ----- Groups -------------------------------------------------------------

  /** A group column is ticked when its cell reads "oui", whatever the case
      and surrounding whitespace. */
  predicate IsTicked(cell: string) {
    ToLower(Trim(cell)) == "oui"
  }

  /** The groups of a row: the names of the ticked group columns, in the
      order the configuration lists them. */
  function ParseGroups(columns: seq<(string, string)>): (r: seq<string>)
    ensures |r| <= |columns|
  {
    if |columns| == 0 then []
    else (if IsTicked(columns[0].1) then [columns[0].0] else []) + ParseGroups(columns[1..])
  }

  /** A group is listed exactly when one of its columns is ticked. */
  lemma {:induction false} ParseGroupsMembers(columns: seq<(string, string)>, g: string)
    ensures g in ParseGroups(columns) <==> exists k :: 0 <= k < |columns| && columns[k].0 == g && IsTicked(columns[k].1)
  {
    if |columns| > 0 {
      var tail := columns[1..];
      ParseGroupsMembers(tail, g);
      if exists k :: 0 <= k < |tail| && tail[k].0 == g && IsTicked(tail[k].1) {
        var k :| 0 <= k < |tail| && tail[k].0 == g && IsTicked(tail[k].1);
        assert columns[k + 1] == tail[k];
      }
      if exists k :: 0 <= k < |columns| && columns[k].0 == g && IsTicked(columns[k].1) {
        var k :| 0 <= k < |columns| && columns[k].0 == g && IsTicked(columns[k].1);
        if k > 0 {
          assert tail[k - 1] == columns[k];
        }
      }
    }
  }
}
