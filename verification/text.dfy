/** The JavaScript string operations the exporter uses: `trim`,
    `toLowerCase`, `split` with a string separator, and `join`. */
module Text {
  import opened Wrappers

  /** The characters `String.prototype.trim` removes: the ECMAScript
      WhiteSpace and LineTerminator code points. */
  predicate IsWhitespace(c: char) {
    || c == ' ' || c == '\t' || c == '\n' || c == '\r'
    || c == '\U{B}' || c == '\U{C}' || c == '\U{A0}' || c == '\U{1680}'
    || ('\U{2000}' <= c <= '\U{200A}')
    || c == '\U{2028}' || c == '\U{2029}' || c == '\U{202F}' || c == '\U{205F}'
    || c == '\U{3000}' || c == '\U{FEFF}'
  }

  predicate AllWhitespace(s: string) {
    forall i :: 0 <= i < |s| ==> IsWhitespace(s[i])
  }

  /** Neither end of `s` is whitespace (vacuously true of ""). */
  predicate IsTrimmed(s: string) {
    |s| == 0 || (!IsWhitespace(s[0]) && !IsWhitespace(s[|s| - 1]))
  }

  function TrimStart(s: string): (r: string)
    ensures |r| <= |s|
    ensures |r| == 0 || !IsWhitespace(r[0])
  {
    if |s| > 0 && IsWhitespace(s[0]) then TrimStart(s[1..]) else s
  }

  function TrimEnd(s: string): (r: string)
    ensures |r| <= |s|
    ensures |r| == 0 || !IsWhitespace(r[|r| - 1])
    ensures |r| > 0 ==> r[0] == s[0]
  {
    if |s| > 0 && IsWhitespace(s[|s| - 1]) then TrimEnd(s[..|s| - 1]) else s
  }

  /** `s.trim()`: no whitespace left at either end. */
  function Trim(s: string): (r: string)
    ensures IsTrimmed(r)
    ensures |r| <= |s|
  {
    TrimEnd(TrimStart(s))
  }

  /** `TrimStart` keeps a suffix and what it cuts is whitespace. */
  lemma {:induction false} TrimStartCutsWhitespace(s: string)
    ensures TrimStart(s) == s[|s| - |TrimStart(s)|..]
    ensures AllWhitespace(s[..|s| - |TrimStart(s)|])
  {
    if |s| > 0 && IsWhitespace(s[0]) {
      TrimStartCutsWhitespace(s[1..]);
      assert s[1..][|s| - 1 - |TrimStart(s[1..])|..] == s[|s| - |TrimStart(s)|..];
      assert s[..|s| - |TrimStart(s)|] == [s[0]] + s[1..][..|s| - 1 - |TrimStart(s[1..])|];
    }
  }

  /** `TrimEnd` keeps a prefix and what it cuts is whitespace. */
  lemma {:induction false} TrimEndCutsWhitespace(s: string)
    ensures TrimEnd(s) == s[..|TrimEnd(s)|]
    ensures AllWhitespace(s[|TrimEnd(s)|..])
  {
    if |s| > 0 && IsWhitespace(s[|s| - 1]) {
      var p := s[..|s| - 1];
      TrimEndCutsWhitespace(p);
      assert p[..|TrimEnd(p)|] == s[..|TrimEnd(s)|];
      assert s[|TrimEnd(s)|..] == p[|TrimEnd(p)|..] + [s[|s| - 1]];
    }
  }

  /** `Trim(s)` is the slice `s[i..i + |Trim(s)|]` with only whitespace cut
      on either side. */
  lemma TrimIsSlice(s: string) returns (i: nat)
    ensures i + |Trim(s)| <= |s| && Trim(s) == s[i..i + |Trim(s)|]
    ensures AllWhitespace(s[..i]) && AllWhitespace(s[i + |Trim(s)|..])
  {
    var t := TrimStart(s);
    var r := TrimEnd(t);
    i := |s| - |t|;
    TrimStartCutsWhitespace(s);
    TrimEndCutsWhitespace(t);
    assert r == s[i..i + |r|];
    assert s[i + |r|..] == t[|r|..];
  }

  /** Trimming removes everything exactly when there is nothing but whitespace. */
  lemma TrimEmptyIffAllWhitespace(s: string)
    ensures |Trim(s)| == 0 <==> AllWhitespace(s)
  {
    var i := TrimIsSlice(s);
  }

  /** A string that does not start with whitespace keeps a non-empty trim. */
  lemma TrimNonEmptyWhenFirstIsNot(s: string)
    requires |s| > 0 && !IsWhitespace(s[0])
    ensures |Trim(s)| > 0
  {
    TrimEmptyIffAllWhitespace(s);
  }

  /** `trim` leaves an already trimmed string alone, so it is idempotent. */
  lemma TrimmedIsFixed(s: string)
    requires IsTrimmed(s)
    ensures Trim(s) == s
  {
  }

  /** `toLowerCase` on one character: ASCII and Latin-1 capitals. */
  function LowerChar(c: char): (r: char)
    ensures !IsUpper(r)
    ensures !IsUpper(c) ==> r == c
  {
    if IsUpper(c) then (c as int + 0x20) as char else c
  }

  predicate IsUpper(c: char) {
    ('A' <= c <= 'Z') || ('\U{C0}' <= c <= '\U{DE}' && c != '\U{D7}')
  }

  /** `s.toLowerCase()`: the same length, each character lowered, no capital left. */
  function ToLower(s: string): (r: string)
    ensures |r| == |s|
    ensures forall i :: 0 <= i < |s| ==> r[i] == LowerChar(s[i])
    ensures forall i :: 0 <= i < |r| ==> !IsUpper(r[i])
  {
    seq(|s|, i requires 0 <= i < |s| => LowerChar(s[i]))
  }

  /** A string without capitals is its own lower-case form. */
  lemma LowerIsFixed(s: string)
    requires forall i :: 0 <= i < |s| ==> !IsUpper(s[i])
    ensures ToLower(s) == s
  {
    assert forall i :: 0 <= i < |s| ==> ToLower(s)[i] == s[i];
  }

  /** `sep` occurs in `s` starting at position `i`. */
  predicate OccursAt(s: string, sep: string, i: nat) {
    i + |sep| <= |s| && s[i..i + |sep|] == sep
  }

  /** The first position at which `sep` occurs in `s`, if any. */
  function Find(s: string, sep: string): (r: Option<nat>)
    requires |sep| > 0
    ensures r.Some? ==> OccursAt(s, sep, r.value)
    ensures r.Some? ==> forall j :: 0 <= j < r.value ==> !OccursAt(s, sep, j)
    ensures r.None? ==> forall j :: 0 <= j <= |s| ==> !OccursAt(s, sep, j)
    decreases |s|
  {
    if |s| < |sep| then None
    else if s[..|sep|] == sep then Some(0)
    else
      ShiftOccurs(s, sep);
      match Find(s[1..], sep)
      case None => None
      case Some(k) => Some(k + 1)
  }

  lemma ShiftOccurs(s: string, sep: string)
    requires |s| > 0
    ensures forall j :: 1 <= j ==> (OccursAt(s, sep, j) <==> OccursAt(s[1..], sep, j - 1))
  {
    forall j | 1 <= j
      ensures OccursAt(s, sep, j) <==> OccursAt(s[1..], sep, j - 1)
    {
      if j + 1 + |sep| <= |s| {
        assert s[1..][j - 1..j - 1 + |sep|] == s[j..j + |sep|];
      }
    }
  }

  /** `pieces.join(sep)`. */
  function Join(pieces: seq<string>, sep: string): string {
    if |pieces| == 0 then ""
    else if |pieces| == 1 then pieces[0]
    else pieces[0] + sep + Join(pieces[1..], sep)
  }

  /** Joining non-empty pieces gives the empty string only when there is none. */
  lemma JoinEmptyIff(pieces: seq<string>, sep: string)
    requires forall k :: 0 <= k < |pieces| ==> |pieces[k]| > 0
    ensures |Join(pieces, sep)| == 0 <==> |pieces| == 0
  {
    if |pieces| > 1 {
      assert |Join(pieces, sep)| >= |pieces[0]|;
    }
  }

  /** `part` occurs somewhere in `s`. */
  predicate Shows(s: string, part: string) {
    exists i :: 0 <= i <= |s| && OccursAt(s, part, i)
  }

  /** Every piece occurs somewhere in the joined string. */
  lemma JoinShowsEvery(pieces: seq<string>, sep: string)
    ensures forall k :: 0 <= k < |pieces| ==> Shows(Join(pieces, sep), pieces[k])
  {
    forall k | 0 <= k < |pieces|
      ensures Shows(Join(pieces, sep), pieces[k])
    {
      var i := JoinContains(pieces, sep, k);
      assert OccursAt(Join(pieces, sep), pieces[k], i);
    }
  }

  /** The piece at position `k` occurs in the joined string. */
  lemma {:induction false} JoinContains(pieces: seq<string>, sep: string, k: nat) returns (i: nat)
    requires k < |pieces|
    ensures OccursAt(Join(pieces, sep), pieces[k], i)
    decreases k
  {
    var j := Join(pieces, sep);
    if k == 0 {
      i := 0;
      if |pieces| > 1 {
        assert j == pieces[0] + (sep + Join(pieces[1..], sep));
        assert j[..|pieces[0]|] == pieces[0];
      }
    } else {
      var rest := Join(pieces[1..], sep);
      var i' := JoinContains(pieces[1..], sep, k - 1);
      i := |pieces[0]| + |sep| + i';
      assert j == (pieces[0] + sep) + rest;
      assert j[i..i + |pieces[k]|] == rest[i'..i' + |pieces[k]|];
    }
  }

  /** `s.split(sep)` for a non-empty string separator: at least one piece,
      no piece contains the separator, joining the pieces back with the
      separator gives `s`, and the first cut is at the leftmost occurrence. */
  function Split(s: string, sep: string): (r: seq<string>)
    requires |sep| > 0
    ensures |r| >= 1
    ensures Join(r, sep) == s
    ensures forall k, j :: 0 <= k < |r| && 0 <= j ==> !OccursAt(r[k], sep, j)
    ensures forall j :: 0 <= j < |r[0]| ==> !OccursAt(s, sep, j)
    decreases |s|
  {
    match Find(s, sep)
    case None => [s]
    case Some(i) =>
      var rest := Split(s[i + |sep|..], sep);
      PrefixHasNoOccurrence(s, sep, i);
      assert s == s[..i] + sep + s[i + |sep|..];
      [s[..i]] + rest
  }

  lemma PrefixHasNoOccurrence(s: string, sep: string, i: nat)
    requires |sep| > 0 && i <= |s|
    requires forall j :: 0 <= j < i ==> !OccursAt(s, sep, j)
    ensures forall j :: 0 <= j ==> !OccursAt(s[..i], sep, j)
  {
    forall j | 0 <= j && OccursAt(s[..i], sep, j)
      ensures false
    {
      assert s[..i][j..j + |sep|] == s[j..j + |sep|];
      assert OccursAt(s, sep, j);
    }
  }

  /** The first piece of a split is a prefix of the string. */
  lemma SplitFirstIsPrefix(s: string, sep: string)
    requires |sep| > 0
    ensures |Split(s, sep)[0]| <= |s| && Split(s, sep)[0] == s[..|Split(s, sep)[0]|]
  {
  }

  /** With a one-character separator, splitting undoes joining pieces that
      do not contain that character. */
  lemma {:induction false} SplitJoin(pieces: seq<string>, c: char)
    requires |pieces| >= 1
    requires forall k :: 0 <= k < |pieces| ==> c !in pieces[k]
    ensures Split(Join(pieces, [c]), [c]) == pieces
    decreases |pieces|
  {
    var p := pieces[0];
    if |pieces| == 1 {
      FindAbsent(p, c);
    } else {
      var rest := Join(pieces[1..], [c]);
      var s := p + [c] + rest;
      FindFirst(p, c, rest);
      assert s[|p| + 1..] == rest;
      assert s[..|p|] == p;
      SplitJoin(pieces[1..], c);
      assert pieces == [p] + pieces[1..];
    }
  }

  lemma FindAbsent(p: string, c: char)
    requires c !in p
    ensures Find(p, [c]) == None
  {
    var r := Find(p, [c]);
    if r.Some? {
      OccursAtChar(p, c, r.value);
      assert false;
    }
  }

  lemma FindFirst(p: string, c: char, rest: string)
    requires c !in p
    ensures Find(p + [c] + rest, [c]) == Some(|p|)
  {
    var s := p + [c] + rest;
    assert s[|p|..|p| + 1] == [c];
    assert OccursAt(s, [c], |p|);
    var r := Find(s, [c]);
    if r.value < |p| {
      OccursAtChar(s, c, r.value);
      assert false;
    }
  }

  /** A one-character separator occurs exactly where that character is. */
  lemma OccursAtChar(s: string, c: char, k: nat)
    ensures OccursAt(s, [c], k) <==> k < |s| && s[k] == c
  {
    if k < |s| {
      assert s[k..k + 1] == [s[k]];
    }
  }
}
