/** The flat ban files that bantool writes and reads back: the field splitter that cuts a line in
    place, and the round trip of a row through a line. */
module BanFile {
  import opened Common
  import opened Strings
  import opened ArgzSpec

  const QUOTE: char := '"'
  const COMMA: char := ','
  const LINE_SIZE: nat := 512
  const REASONLEN: nat := 120
  const TIME_SIZE: nat := 14

  datatype Kind = Kline | Dline | Resv

  datatype Row = Row(mask1: string, mask2: string, reason: string, oper: string, time: string)

  /** What becomes of a line; Undefined where the C program steps outside its memory. */
  datatype Outcome = Skipped | Undefined | Imported(row: Row)

  // ----- the splitter: a buffer and a cursor into it, negative when there is nothing left

  datatype Scan = Scan(buf: seq<char>, line: int)

  ghost predicate Terminated(s: Scan) {
    s.line < |s.buf| && s.buf != [] && s.buf[|s.buf| - 1] == EOS
  }

  /** strchr for a comma. */
  function CommaFrom(buf: seq<char>, i: nat): (r: int)
    requires i <= |buf|
    ensures r >= 0 ==> i <= r < |buf| && buf[r] == COMMA
    ensures r >= 0 ==> forall k :: i <= k < r ==> buf[k] != COMMA && buf[k] != EOS
    decreases |buf| - i
  {
    if i == |buf| || buf[i] == EOS then -1 else if buf[i] == COMMA then i else CommaFrom(buf, i + 1)
  }

  /** The first comma that follows a quote. */
  function FieldEnd(buf: seq<char>, i: nat): (r: int)
    requires 0 < i <= |buf|
    ensures r >= 0 ==> i <= r < |buf| && buf[r] == COMMA && buf[r - 1] == QUOTE
    ensures r >= 0 ==> forall k :: i <= k <= r ==> buf[k] != EOS
    decreases |buf| - i
  {
    var c := CommaFrom(buf, i);
    if c < 0 || buf[c - 1] == QUOTE then c else FieldEnd(buf, c + 1)
  }

  /** getfield: the new splitter and the offset of the field, negative for none. */
  function GetField(s: Scan): (r: (Scan, int))
    requires Terminated(s)
    ensures Terminated(r.0) && |r.0.buf| == |s.buf| && r.1 < |s.buf|
    ensures r.1 >= 0 ==> r.0.line > s.line >= 0
    ensures forall k :: 0 <= k < |s.buf| && (s.line < 0 || k < s.line) ==> r.0.buf[k] == s.buf[k]
  {
    if s.line < 0 || s.buf[s.line] != QUOTE then (s, -1)
    else
      var end := FieldEnd(s.buf, s.line + 1);
      if end < 0 then (s.(line := -1), -1)
      else (Scan(s.buf[end - 1 := EOS], end + 1), s.line + 1)
  }

  class Splitter {
    var buf: array<char>
    var line: int

    ghost function View(): Scan
      reads this, buf
    {
      Scan(buf[..], line)
    }

    constructor (buf: array<char>)
      ensures this.buf == buf && line == 0
    {
      this.buf := buf;
      line := 0;
    }

    /** strchr(buf + i, ',') */
    method Strchr(i: nat) returns (c: int)
      requires i <= buf.Length
      ensures c == CommaFrom(buf[..], i)
    {
      c := i;
      while c < buf.Length && buf[c] != EOS && buf[c] != COMMA
        invariant i <= c <= buf.Length && CommaFrom(buf[..], c) == CommaFrom(buf[..], i)
      {
        c := c + 1;
      }
      if c == buf.Length || buf[c] == EOS {
        c := -1;
      }
    }

    /** The search loop of getfield: the first comma that follows a quote. */
    method FindEnd(from: nat) returns (end: int)
      requires 0 < from <= buf.Length
      ensures end == FieldEnd(buf[..], from)
    {
      end := Strchr(from);
      ghost var i := from;
      while end >= 0 && buf[end - 1] != QUOTE
        invariant 0 < i <= buf.Length && end == CommaFrom(buf[..], i)
        invariant FieldEnd(buf[..], i) == FieldEnd(buf[..], from)
        decreases buf.Length - i
      {
        i := end + 1;
        end := Strchr(end + 1);
      }
    }

    /** getfield: cut the next field out of the line, in place. */
    method Field() returns (field: int)
      requires Terminated(View())
      modifies this`line, buf
      ensures (View(), field) == GetField(old(View()))
    {
      if line < 0 || buf[line] != QUOTE {
        return -1;
      }
      field := line + 1;
      var end := FindEnd(line + 1);
      if end < 0 {
        line := -1;
        return -1;
      }
      line := end + 1;
      buf[end - 1] := EOS;
      assert buf[..] == old(buf[..])[end - 1 := EOS];
    }
  }

  // ----- fields written by the exporter

  /** The text from the cursor to the end of the line. */
  ghost predicate At(s: Scan, text: string) {
    && Terminated(s) && s.line >= 0 && Clean(text) && s.line + |text| < |s.buf|
    && (forall k :: 0 <= k < |text| ==> s.buf[s.line + k] == text[k])
    && s.buf[s.line + |text|] == EOS
  }

  /** A field that has been cut out and lies before the cursor. */
  ghost predicate Holds(s: Scan, field: int, f: string) {
    && Clean(f) && 0 <= field && field + |f| < s.line && field + |f| < |s.buf|
    && (forall k :: 0 <= k < |f| ==> s.buf[field + k] == f[k])
    && s.buf[field + |f|] == EOS
  }

  ghost function Quoted(f: string): string {
    [QUOTE] + f + [QUOTE, COMMA]
  }

  lemma {:induction false} FieldEndSkips(buf: seq<char>, i: nat, j: nat)
    requires 0 < i <= j < |buf| && buf[j] == COMMA && buf[j - 1] == QUOTE
    requires forall k :: i <= k < j ==> buf[k] != EOS && !(buf[k] == COMMA && buf[k - 1] == QUOTE)
    ensures FieldEnd(buf, i) == j
    decreases j - i
  {
    CommaBefore(buf, i, j);
    var c := CommaFrom(buf, i);
    if c < j {
      FieldEndSkips(buf, c + 1, j);
    }
  }

  lemma {:induction false} CommaBefore(buf: seq<char>, i: nat, j: nat)
    requires i <= j < |buf| && buf[j] == COMMA && forall k :: i <= k < j ==> buf[k] != EOS
    ensures i <= CommaFrom(buf, i) <= j
    decreases j - i
  {
    if i < j && buf[i] != COMMA {
      CommaBefore(buf, i + 1, j);
    }
  }

  lemma QuotedText(f: string, rest: string)
    ensures var text := Quoted(f) + rest;
            && |text| == |f| + 3 + |rest|
            && text[0] == QUOTE && text[|f| + 1] == QUOTE && text[|f| + 2] == COMMA
            && (forall k :: 0 <= k < |f| ==> text[k + 1] == f[k])
            && (forall k :: 0 <= k < |rest| ==> text[k + |f| + 3] == rest[k])
  {
  }

  /** A comma at k of a field that the splitter takes for its end: it stands first, behind the
      opening quote, or behind a quote of the field. */
  ghost predicate Breaks(f: string, k: int) {
    0 <= k < |f| && f[k] == COMMA && (k == 0 || f[k - 1] == QUOTE)
  }

  ghost predicate Splittable(f: string) {
    forall k :: 0 <= k < |f| ==> !Breaks(f, k)
  }

  /** Inside the quotes exactly those commas look like the end of the field. */
  lemma NotAnEnd(f: string, rest: string, c: nat)
    requires 1 <= c < |f| + 2 && Clean(Quoted(f) + rest)
    ensures var text := Quoted(f) + rest;
            text[c] != EOS && (text[c] == COMMA && text[c - 1] == QUOTE <==> Breaks(f, c - 1))
  {
    var text := Quoted(f) + rest;
    QuotedText(f, rest);
    assert text[c] in text;
    if c <= |f| {
      assert text[(c - 1) + 1] == f[c - 1];
      if c > 1 {
        assert text[(c - 2) + 1] == f[c - 2];
      }
    }
  }

  /** The search from the opening quote stops at the first comma behind a quote. */
  lemma EndAt(s: Scan, text: string, j: nat)
    requires At(s, text) && 1 <= j < |text| && text[0] == QUOTE && text[j] == COMMA && text[j - 1] == QUOTE
    requires forall c :: 1 <= c < j ==> text[c] != EOS && !(text[c] == COMMA && text[c - 1] == QUOTE)
    ensures s.buf[s.line] == QUOTE && FieldEnd(s.buf, s.line + 1) == s.line + j
  {
    assert s.buf[s.line + j] == COMMA && s.buf[s.line + (j - 1)] == QUOTE && s.buf[s.line + 0] == QUOTE;
    forall k | s.line + 1 <= k < s.line + j
      ensures s.buf[k] != EOS && !(s.buf[k] == COMMA && s.buf[k - 1] == QUOTE)
    {
      var c := k - s.line;
      assert s.buf[s.line + c] == text[c] && s.buf[s.line + (c - 1)] == text[c - 1];
    }
    FieldEndSkips(s.buf, s.line + 1, s.line + j);
  }

  /** That is the first comma of the field that looks like an end, or the one behind the field. */
  lemma QuotedEnd(s: Scan, f: string, rest: string, n: nat)
    requires At(s, Quoted(f) + rest) && n <= |f|
    requires forall k :: 0 <= k < n ==> !Breaks(f, k)
    requires n == |f| || Breaks(f, n)
    ensures s.buf[s.line] == QUOTE
    ensures FieldEnd(s.buf, s.line + 1) == if n == |f| then s.line + |f| + 2 else s.line + 1 + n
  {
    var text := Quoted(f) + rest;
    var j := if n == |f| then |f| + 2 else 1 + n;
    QuotedText(f, rest);
    if n < |f| {
      NotAnEnd(f, rest, j);
    }
    forall c | 1 <= c < j ensures text[c] != EOS && !(text[c] == COMMA && text[c - 1] == QUOTE) {
      NotAnEnd(f, rest, c);
    }
    EndAt(s, text, j);
  }

  /** A quoted field without such a comma comes back whole, and the cursor stands behind it. */
  lemma GetQuoted(s: Scan, f: string, rest: string)
    requires At(s, Quoted(f) + rest) && Splittable(f)
    ensures var (s', field) := GetField(s);
            field == s.line + 1 && At(s', rest) && Holds(s', field, f) && s'.line == field + |f| + 2
  {
    QuotedEnd(s, f, rest, |f|);
    QuotedCut(s, f, rest);
  }

  lemma QuotedCut(s: Scan, f: string, rest: string)
    requires At(s, Quoted(f) + rest)
    requires s.buf[s.line] == QUOTE && FieldEnd(s.buf, s.line + 1) == s.line + |f| + 2
    ensures var (s', field) := GetField(s);
            field == s.line + 1 && At(s', rest) && Holds(s', field, f) && s'.line == field + |f| + 2
  {
    CleanQuoted(f, rest);
    QuotedText(f, rest);
    QuotedHolds(s, Quoted(f) + rest, f);
    QuotedLeaves(s, Quoted(f) + rest, f, rest);
  }

  lemma {:induction false} FirstBreak(f: string, from: nat) returns (n: nat)
    requires from <= |f| && !Splittable(f) && forall k :: 0 <= k < from ==> !Breaks(f, k)
    ensures n < |f| && Breaks(f, n) && forall k :: 0 <= k < n ==> !Breaks(f, k)
    decreases |f| - from
  {
    if from < |f| && !Breaks(f, from) {
      n := FirstBreak(f, from + 1);
    } else {
      n := from;
    }
  }

  /** A quoted field always yields a field, and comes back whole if and only if no comma of it stands
      first or right behind a quote. */
  lemma GetQuotedExactly(s: Scan, f: string, rest: string)
    requires At(s, Quoted(f) + rest)
    ensures GetField(s).1 == s.line + 1
    ensures Holds(GetField(s).0, s.line + 1, f) <==> Splittable(f)
  {
    if Splittable(f) {
      GetQuoted(s, f, rest);
    } else {
      var n := FirstBreak(f, 0);
      QuotedEnd(s, f, rest, n);
      assert GetField(s).0.line == s.line + n + 2;
    }
  }

  lemma QuotedHolds(s: Scan, text: string, f: string)
    requires At(s, text) && Clean(f) && |text| >= |f| + 3
    requires forall k :: 0 <= k < |f| ==> text[k + 1] == f[k]
    requires s.buf[s.line] == QUOTE && FieldEnd(s.buf, s.line + 1) == s.line + |f| + 2
    ensures Holds(GetField(s).0, s.line + 1, f)
  {
    var s' := GetField(s).0;
    assert s' == Scan(s.buf[s.line + |f| + 1 := EOS], s.line + |f| + 3);
    forall k | 0 <= k < |f| ensures s'.buf[s.line + 1 + k] == f[k] {
      assert s.buf[s.line + (k + 1)] == text[k + 1];
    }
  }

  lemma QuotedLeaves(s: Scan, text: string, f: string, rest: string)
    requires At(s, text) && Clean(rest) && |text| == |f| + 3 + |rest|
    requires forall k :: 0 <= k < |rest| ==> text[k + |f| + 3] == rest[k]
    requires s.buf[s.line] == QUOTE && FieldEnd(s.buf, s.line + 1) == s.line + |f| + 2
    ensures At(GetField(s).0, rest)
  {
    var s' := GetField(s).0;
    assert s' == Scan(s.buf[s.line + |f| + 1 := EOS], s.line + |f| + 3);
    forall k | 0 <= k < |rest| ensures s'.buf[s'.line + k] == rest[k] {
      assert s.buf[s.line + (k + |f| + 3)] == text[k + |f| + 3];
    }
    assert s'.buf[s'.line + |rest|] == s.buf[s.line + |text|];
  }

  lemma CleanQuoted(f: string, rest: string)
    requires Clean(Quoted(f) + rest)
    ensures Clean(f) && Clean(rest)
  {
    var text := Quoted(f) + rest;
    QuotedText(f, rest);
    forall k | 0 <= k < |f| ensures f[k] != EOS {
      assert text[k + 1] in text;
    }
    forall k | 0 <= k < |rest| ensures rest[k] != EOS {
      assert text[k + |f| + 3] in text;
    }
  }

  /** A comma behind a quote, which ends a field. */
  ghost predicate EndsField(text: string, k: int) {
    1 <= k < |text| && text[k] == COMMA && text[k - 1] == QUOTE
  }

  lemma {:induction false} FirstEnd(text: string, from: nat) returns (n: nat)
    requires 1 <= from && (exists k :: EndsField(text, k)) && forall k :: 1 <= k < from ==> !EndsField(text, k)
    ensures EndsField(text, n) && forall k :: 1 <= k < n ==> !EndsField(text, k)
    decreases |text| - from
  {
    if EndsField(text, from) {
      n := from;
    } else {
      n := FirstEnd(text, from + 1);
    }
  }

  /** There is a field if and only if the text starts with a quote and has a comma behind a quote; without
      one nothing follows either. */
  lemma FieldExactly(s: Scan, text: string)
    requires At(s, text)
    ensures GetField(s).1 >= 0 <==> text != "" && text[0] == '"' && exists k :: EndsField(text, k)
    ensures GetField(s).1 < 0 ==> GetField(GetField(s).0).1 < 0
  {
    if text != "" {
      assert s.buf[s.line + 0] == text[0];
      if text[0] == QUOTE {
        if exists k :: EndsField(text, k) {
          var n := FirstEnd(text, 1);
          forall c | 1 <= c < n ensures text[c] != EOS && !(text[c] == COMMA && text[c - 1] == QUOTE) {
            assert text[c] in text && !EndsField(text, c);
          }
          EndAt(s, text, n);
        } else {
          EndInText(s, text);
        }
      }
    }
  }

  lemma EndInText(s: Scan, text: string)
    requires At(s, text) && text != ""
    ensures var r := FieldEnd(s.buf, s.line + 1); r >= 0 ==> EndsField(text, r - s.line)
  {
    var r := FieldEnd(s.buf, s.line + 1);
    if r >= 0 {
      var c := r - s.line;
      assert r < s.line + |text|;
      assert s.buf[s.line + c] == text[c] && s.buf[s.line + (c - 1)] == text[c - 1];
    }
  }

  /** A field that starts with a comma is cut at its own opening quote. */
  lemma LeadingCommaLost(s: Scan, f: string, rest: string)
    requires At(s, Quoted(f) + rest) && Leading(f, COMMA)
    ensures GetField(s).1 == s.line + 1 && GetField(s).0.line == s.line + 2
    ensures !Holds(GetField(s).0, GetField(s).1, f)
  {
    assert Breaks(f, 0);
    QuotedEnd(s, f, rest, 0);
  }

  /** Fields already cut out stay as they are. */
  lemma HoldsOn(s: Scan, field: int, f: string)
    requires Terminated(s) && Holds(s, field, f) && GetField(s).1 >= 0
    ensures Holds(GetField(s).0, field, f)
  {
  }

  lemma {:induction false} HeldString(s: Scan, field: int, f: string)
    requires Holds(s, field, f)
    ensures StringAt(s.buf, field) == f && (s.buf[field] == EOS <==> f == "")
  {
    assert f + [EOS] <= s.buf[field..] by {
      assert forall k :: 0 <= k < |f| ==> s.buf[field..][k] == s.buf[field + k];
      assert (f + [EOS]) == s.buf[field..][..|f| + 1];
    }
    StringAtPrefix(f, s.buf, field);
    if f != "" {
      assert s.buf[field + 0] == f[0] && f[0] in f;
    }
  }

  lemma {:induction false} RestString(s: Scan, text: string)
    requires At(s, text)
    ensures StringAt(s.buf, s.line) == text
  {
    assert text + [EOS] <= s.buf[s.line..] by {
      assert forall k :: 0 <= k < |text| ==> s.buf[s.line..][k] == s.buf[s.line + k];
      assert (text + [EOS]) == s.buf[s.line..][..|text| + 1];
    }
    StringAtPrefix(text, s.buf, s.line);
  }
}
