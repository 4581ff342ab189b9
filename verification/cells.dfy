/** The exporter's generic cell helpers: `checkUnique`, `parseCellWithSep`
    and the error-collecting wrapper `parseQuestionCell`. */
module Cells {
  import opened Wrappers
  import opened Sequences
  import opened Text

  function DuplicateMessage(what: string): string {
    "Il ne peut y avoir de duplicats dans " + what + "."
  }

  /** `checkUnique(array, what)`: throws exactly when `array` repeats an
      element, and does nothing otherwise. */
  function CheckUnique(a: seq<string>, what: string): (r: Outcome)
    ensures r.Fail? ==> |r.error| > 0
    ensures r.Pass? <==> Distinct(a)
    ensures r.Fail? ==> r.error == DuplicateMessage(what)
  {
    KeepFirstWholeIffDistinct(a);
    if |KeepFirst(a, |a|)| != |a| then Fail(DuplicateMessage(what)) else Pass
  }

  /** No message in the list is the empty string. */
  predicate AllNonEmpty(messages: seq<string>) {
    forall k :: 0 <= k < |messages| ==> |messages[k]| > 0
  }

  lemma AllNonEmptyConcat(a: seq<string>, b: seq<string>)
    requires AllNonEmpty(a) && AllNonEmpty(b)
    ensures AllNonEmpty(a + b)
  {
    forall k | 0 <= k < |a + b|
      ensures |(a + b)[k]| > 0
    {
      if k >= |a| {
        assert (a + b)[k] == b[k - |a|];
      }
    }
  }

  /** A piece `parseCellWithSep` may return: trimmed and non-empty. */
  predicate IsCellItem(s: string) {
    |s| > 0 && IsTrimmed(s)
  }

  /** Trims every piece and drops the ones that become empty. */
  function TrimAndDropEmpty(pieces: seq<string>): (r: seq<string>)
    ensures |r| <= |pieces|
    ensures forall k :: 0 <= k < |r| ==> IsCellItem(r[k])
  {
    if |pieces| == 0 then []
    else
      var t := Trim(pieces[0]);
      (if |t| == 0 then [] else [t]) + TrimAndDropEmpty(pieces[1..])
  }

  /** Dropping distributes over concatenation: the surviving pieces keep
      their left-to-right order. */
  lemma {:induction false} TrimAndDropEmptyConcat(a: seq<string>, b: seq<string>)
    ensures TrimAndDropEmpty(a + b) == TrimAndDropEmpty(a) + TrimAndDropEmpty(b)
    decreases |a|
  {
    if |a| > 0 {
      var head := if |Trim(a[0])| == 0 then [] else [Trim(a[0])];
      assert (a + b)[0] == a[0];
      assert (a + b)[1..] == a[1..] + b;
      TrimAndDropEmptyConcat(a[1..], b);
      assert TrimAndDropEmpty(a + b) == head + TrimAndDropEmpty(a[1..] + b);
      assert TrimAndDropEmpty(a) == head + TrimAndDropEmpty(a[1..]);
    } else {
      assert a + b == b;
    }
  }

  /** Some piece trims to `x`. */
  predicate SomeTrimsTo(pieces: seq<string>, x: string) {
    exists k :: 0 <= k < |pieces| && Trim(pieces[k]) == x
  }

  /** A piece survives exactly when it is not all whitespace, and what
      survives is its trimmed form. */
  lemma {:induction false} TrimAndDropEmptyMembers(pieces: seq<string>, x: string)
    ensures x in TrimAndDropEmpty(pieces) <==> |x| > 0 && SomeTrimsTo(pieces, x)
    decreases |pieces|
  {
    if |pieces| > 0 {
      var t := Trim(pieces[0]);
      var rest := pieces[1..];
      var head := if |t| == 0 then [] else [t];
      TrimAndDropEmptyMembers(rest, x);
      assert TrimAndDropEmpty(pieces) == head + TrimAndDropEmpty(rest);
      assert x in TrimAndDropEmpty(pieces) <==> x in head || x in TrimAndDropEmpty(rest);
      SomeTrimsToCons(pieces, x);
    }
  }

  lemma SomeTrimsToCons(pieces: seq<string>, x: string)
    requires |pieces| > 0
    ensures SomeTrimsTo(pieces, x) <==> Trim(pieces[0]) == x || SomeTrimsTo(pieces[1..], x)
  {
    var rest := pieces[1..];
    if SomeTrimsTo(pieces, x) {
      var k :| 0 <= k < |pieces| && Trim(pieces[k]) == x;
      if k > 0 {
        assert rest[k - 1] == pieces[k];
      }
    }
    if SomeTrimsTo(rest, x) {
      var k :| 0 <= k < |rest| && Trim(rest[k]) == x;
      assert pieces[k + 1] == rest[k];
    }
  }

  /** Already clean items pass through unchanged. */
  lemma {:induction false} TrimAndDropEmptyKeepsItems(items: seq<string>)
    requires forall k :: 0 <= k < |items| ==> IsCellItem(items[k])
    ensures TrimAndDropEmpty(items) == items
    decreases |items|
  {
    if |items| > 0 {
      var x := items[0];
      assert IsCellItem(x);
      TrimmedIsFixed(x);
      assert Trim(x) == x && |x| > 0;
      TrimAndDropEmptyKeepsItems(items[1..]);
      assert TrimAndDropEmpty(items) == [x] + TrimAndDropEmpty(items[1..]);
      assert items == [x] + items[1..];
    }
  }

  /** `parseCellWithSep(content, sep)`: split, trim, drop the empty pieces. */
  function ParseCellWithSep(content: string, sep: string): (r: seq<string>)
    requires |sep| > 0
    ensures forall k :: 0 <= k < |r| ==> IsCellItem(r[k])
  {
    TrimAndDropEmpty(Split(content, sep))
  }

  /** For a one-character separator, the pieces of `a + sep + b` are those of
      `a` followed by those of `b`, when `a` does not contain the separator. */
  lemma ParseCellWithSepOrder(a: string, c: char, b: string)
    requires c !in a
    ensures ParseCellWithSep(a + [c] + b, [c]) == ParseCellWithSep(a, [c]) + ParseCellWithSep(b, [c])
  {
    var s := a + [c] + b;
    FindFirst(a, c, b);
    FindAbsent(a, c);
    assert s[..|a|] == a;
    assert s[|a| + 1..] == b;
    assert Split(s, [c]) == [a] + Split(b, [c]);
    TrimAndDropEmptyConcat([a], Split(b, [c]));
  }

  /** Writing clean items one per line and parsing the cell gives the items back. */
  lemma ParseCellWithSepJoin(items: seq<string>, c: char)
    requires forall k :: 0 <= k < |items| ==> IsCellItem(items[k]) && c !in items[k]
    ensures ParseCellWithSep(Join(items, [c]), [c]) == items
  {
    if |items| == 0 {
      assert Split("", [c]) == [""];
    } else {
      SplitJoin(items, c);
      TrimAndDropEmptyKeepsItems(items);
    }
  }

  /** A field of the question as `rowToJSON` stores it (`None` for `null`),
      together with the row's error list after parsing it. */
  datatype Field<+T> = Field(value: Option<T>, errors: seq<string>)

  /** `parseQuestionCell(row, col, errors, parse)` given the outcome of
      `parse` on the cell: a thrown error is appended to `errors` and the
      field becomes null; otherwise the list is untouched. */
  function ParseQuestionCell<T>(errors: seq<string>, parsed: Result<T>): (f: Field<T>)
    ensures f.value.Some? <==> parsed.Ok?
    ensures f.value.Some? ==> f.value.value == parsed.value && f.errors == errors
    ensures f.value.None? ==> f.errors == errors + [parsed.error]
    ensures AllNonEmpty(errors) && (parsed.Err? ==> |parsed.error| > 0) ==> AllNonEmpty(f.errors)
    ensures f.value == OkOrNull(parsed) && f.errors == errors + Thrown(parsed)
  {
    match parsed
    case Ok(v) => Field(Some(v), errors)
    case Err(e) => Field(None, errors + [e])
  }
}
