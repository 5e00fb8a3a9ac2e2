/** Exporting a ban row to a line and importing it again. */
module BanRoundTrip {
  import opened Common
  import opened Strings
  import opened ArgzSpec
  import opened BanFile

  // ----- what is done to single fields

  function MangleChar(c: char): char {
    if c == QUOTE then '\'' else if c == ':' then ' ' else c
  }

  function Mangle(s: string): (r: string)
    ensures |r| == |s|
    ensures forall i :: 0 <= i < |s| ==> r[i] == MangleChar(s[i])
    ensures forall i :: 0 <= i < |s| ==> r[i] == if s[i] == '"' then '\'' else if s[i] == ':' then ' ' else s[i]
  {
    seq(|s|, i requires 0 <= i < |s| => MangleChar(s[i]))
  }

  /** mangle_reason */
  method MangleReason(s: string) returns (r: string)
    ensures r == Mangle(s)
  {
    r := "";
    for i := 0 to |s|
      invariant |r| == i && forall k :: 0 <= k < i ==> r[k] == MangleChar(s[k])
    {
      var c := s[i];
      if c == QUOTE {
        c := '\'';
      } else if c == ':' {
        c := ' ';
      }
      r := r + [c];
    }
  }

  function Unquoted(s: string): string {
    if s == "" then "" else (if s[0] == QUOTE then "" else [s[0]]) + Unquoted(s[1..])
  }

  /** Exactly the quotes go. */
  lemma {:induction false} UnquotedExactly(a: string, b: string, c: char)
    ensures Unquoted(a + b) == Unquoted(a) + Unquoted(b) && Unquoted([c]) == if c == '"' then "" else [c]
  {
    if a == "" {
      assert a + b == b;
    } else {
      UnquotedExactly(a[1..], b, c);
      assert (a + b)[0] == a[0] && (a + b)[1..] == a[1..] + b;
      Regroup(if a[0] == QUOTE then "" else [a[0]], Unquoted(a[1..]), Unquoted(b));
    }
    assert [c][1..] == "";
  }

  lemma UnquotedAt(s: string, i: nat, done: string)
    requires i < |s|
    ensures done + Unquoted(s[i..]) ==
            if s[i] == QUOTE then done + Unquoted(s[i + 1..]) else (done + [s[i]]) + Unquoted(s[i + 1..])
  {
    assert s[i..][0] == s[i] && s[i..][1..] == s[i + 1..];
  }

  /** strip_quotes, into a buffer that must be large enough */
  method StripQuotes(s: string) returns (r: string)
    requires |Unquoted(s)| < TIME_SIZE
    ensures r == Unquoted(s)
  {
    var buf := new char[TIME_SIZE];
    var n := 0;
    for i := 0 to |s|
      invariant 0 <= n <= buf.Length && buf[..n] + Unquoted(s[i..]) == Unquoted(s)
    {
      UnquotedAt(s, i, buf[..n]);
      ghost var was := buf[..n];
      if s[i] != QUOTE {
        assert n < |Unquoted(s)|;
        buf[n] := s[i];
        n := n + 1;
        assert buf[..n] == was + [s[i]];
      }
    }
    assert s[|s|..] == "";
    r := buf[..n];
  }

  // ----- printing

  /** The fields of a line; mask2 is used for K-lines, extra, the oper reason, and date for K- and
      D-lines. */
  datatype Fields = Fields(mask1: string, mask2: string, reason: string, extra: string, date: string,
                           oper: string, time: string)

  ghost function LineOf(kind: Kind, f: Fields): string {
    match kind
    case Kline => Quoted(f.mask1) + (Quoted(f.mask2) + (Quoted(f.reason) +
                  (Quoted(f.extra) + (Quoted(f.date) + (Quoted(f.oper) + f.time)))))
    case Dline => Quoted(f.mask1) + (Quoted(f.reason) +
                  (Quoted(f.extra) + (Quoted(f.date) + (Quoted(f.oper) + f.time))))
    case Resv => Quoted(f.mask1) + (Quoted(f.reason) + (Quoted(f.oper) + f.time))
  }

  /** The line of export_config; date is the printed form of the time. */
  ghost function Line(kind: Kind, row: Row, date: string): string {
    LineOf(kind, Exported(row, date))
  }

  ghost function Exported(row: Row, date: string): Fields {
    Fields(row.mask1, row.mask2, Mangle(row.reason), "", date, row.oper, row.time)
  }

  /** snprintf into the line buffer, newline included. */
  ghost function Export(kind: Kind, row: Row, date: string): string {
    Take(Line(kind, row, date) + ['\n'], LINE_SIZE - 1)
  }

  // ----- reading

  predicate LineEnd(c: char) {
    c == '\r' || c == '\n'
  }

  /** The text before the first carriage return or newline. */
  ghost function Chomp(line: string): string {
    if line == "" || LineEnd(line[0]) then "" else [line[0]] + Chomp(line[1..])
  }

  ghost predicate Blank(s: Scan, field: int)
    requires field < |s.buf|
  {
    field < 0 || s.buf[field] == EOS
  }

  /** The row that import_config makes of the texts it has cut out. */
  ghost function Build(kind: Kind, m1: string, m2: string, why: string, extra: string, who: string, time: string)
    : Outcome
  {
    if |Unquoted(time)| >= TIME_SIZE then Undefined
    else if kind.Kline? && '!' in m1 then Skipped
    else
      var text := if extra == "" then why else why + " | " + extra;
      Imported(Row(m1, m2, Take(text, REASONLEN - 1), who, Unquoted(time)))
  }

  /** The text of a field, empty when there is none. */
  function TextAt(buf: seq<char>, field: int): string
    requires field < |buf|
  {
    if field < 0 then "" else StringAt(buf, field)
  }

  /** The last step of import_config: everything is cut out; read the time and build the row. */
  ghost function Finish(kind: Kind, s: Scan, mask1: int, mask2: int, reason: int, oreason: int, oper: int): Outcome
    requires Terminated(s) && mask1 < |s.buf| && mask2 < |s.buf| && reason < |s.buf|
    requires oreason < |s.buf| && oper < |s.buf| && mask1 >= 0 && reason >= 0 && (kind.Kline? ==> mask2 >= 0)
  {
    var time := if oper < 0 then |s.buf| else oper + |TextAt(s.buf, oper)| + 2;
    if time >= |s.buf| then Undefined
    else
      Build(kind, TextAt(s.buf, mask1), if kind.Kline? then TextAt(s.buf, mask2) else "", TextAt(s.buf, reason),
            TextAt(s.buf, oreason), TextAt(s.buf, oper), TextAt(s.buf, time))
  }

  /** import_config from the reason field on. */
  ghost function FromReason(kind: Kind, s: Scan, mask1: int, mask2: int): Outcome
    requires Terminated(s) && 0 <= mask1 < |s.buf| && mask2 < |s.buf| && (kind.Kline? ==> mask2 >= 0)
  {
    var (s1, reason) := GetField(s);
    if Blank(s1, reason) then Skipped
    else if kind.Resv? then
      var (s2, oper) := GetField(s1);
      Finish(kind, s2, mask1, mask2, reason, -1, oper)
    else
      var (s2, oreason) := GetField(s1);
      var s3 := GetField(s2).0;
      var (s4, oper) := GetField(s3);
      Finish(kind, s4, mask1, mask2, reason, oreason, oper)
  }

  /** The body of the loop of import_config. */
  ghost function Import(kind: Kind, line: string): Outcome {
    var text := Chomp(line);
    if text == "" || text[0] == '#' || text[0] == EOS then Skipped
    else FromMasks(kind, Scan(text + [EOS], 0))
  }

  /** import_config from the first field on. */
  ghost function FromMasks(kind: Kind, s: Scan): Outcome
    requires Terminated(s)
  {
    var (s1, mask1) := GetField(s);
    if Blank(s1, mask1) then Skipped
    else if kind.Kline? then
      var (s2, mask2) := GetField(s1);
      if Blank(s2, mask2) then Skipped else FromReason(kind, s2, mask1, mask2)
    else FromReason(kind, s1, mask1, -1)
  }

  // ----- the round trip

  ghost predicate Plain(f: string) {
    Splittable(f) && OneLine(f)
  }

  /** What a stored row must satisfy for its line to be readable. */
  ghost predicate Storable(kind: Kind, row: Row, date: string) {
    && Plain(row.mask1) && row.mask1 != ""
    && (if kind.Kline? then Plain(row.mask2) && row.mask2 != "" && '!' !in row.mask1 else row.mask2 == "")
    && Plain(Mangle(row.reason)) && 0 < |row.reason| < REASONLEN
    && Plain(row.oper) && Plain(date)
    && QUOTE !in row.time && OneLine(row.time) && |row.time| < TIME_SIZE
    && |Line(kind, row, date)| + 1 < LINE_SIZE
  }

  lemma {:induction false} UnquotedPlain(s: string)
    requires QUOTE !in s
    ensures Unquoted(s) == s
  {
    if s != "" {
      UnquotedPlain(s[1..]);
      assert s == [s[0]] + s[1..];
    }
  }

  lemma {:induction false} ChompLine(text: string, tail: string)
    requires (forall i :: 0 <= i < |text| ==> !LineEnd(text[i])) && (tail == "" || LineEnd(tail[0]))
    ensures Chomp(text + tail) == text
  {
    if text == "" {
      assert text + tail == tail;
    } else {
      ChompLine(text[1..], tail);
      assert (text + tail)[1..] == text[1..] + tail;
    }
  }

  ghost predicate OneLine(s: string) {
    Clean(s) && forall i :: 0 <= i < |s| ==> !LineEnd(s[i])
  }

  lemma OneLineQuoted(f: string, rest: string)
    requires Plain(f) && OneLine(rest)
    ensures OneLine(Quoted(f) + rest)
  {
    var text := Quoted(f) + rest;
    QuotedText(f, rest);
    forall i | 0 <= i < |text| ensures !LineEnd(text[i]) && text[i] != EOS {
      if 1 <= i <= |f| {
        assert text[(i - 1) + 1] == f[i - 1] && f[i - 1] in f;
      } else if i >= |f| + 3 {
        assert text[(i - |f| - 3) + |f| + 3] == rest[i - |f| - 3] && rest[i - |f| - 3] in rest;
      }
    }
  }

  // ----- reading a line of quoted fields

  ghost predicate PlainFields(kind: Kind, f: Fields) {
    && Plain(f.mask1) && Plain(f.reason) && Plain(f.oper) && OneLine(f.time)
    && (kind.Kline? ==> Plain(f.mask2)) && (!kind.Resv? ==> Plain(f.extra) && Plain(f.date))
  }

  /** What the last step makes of these fields. */
  ghost function BuildOf(kind: Kind, f: Fields): Outcome {
    Build(kind, f.mask1, if kind.Kline? then f.mask2 else "", f.reason, if kind.Resv? then "" else f.extra,
          f.oper, f.time)
  }

  /** The masks have been cut out. */
  ghost predicate MasksHeld(kind: Kind, s: Scan, f: Fields, mask1: int, mask2: int) {
    && Terminated(s) && Holds(s, mask1, f.mask1)
    && if kind.Kline? then Holds(s, mask2, f.mask2) else mask2 == -1
  }

  /** And the reason. */
  ghost predicate Read(kind: Kind, s: Scan, f: Fields, mask1: int, mask2: int, reason: int) {
    MasksHeld(kind, s, f, mask1, mask2) && Holds(s, reason, f.reason)
  }

  /** Reading a field keeps the fields read before. */
  lemma MasksStay(kind: Kind, s: Scan, f: Fields, mask1: int, mask2: int)
    requires MasksHeld(kind, s, f, mask1, mask2) && GetField(s).1 >= 0
    ensures MasksHeld(kind, GetField(s).0, f, mask1, mask2)
  {
    HoldsOn(s, mask1, f.mask1);
    if kind.Kline? {
      HoldsOn(s, mask2, f.mask2);
    }
  }

  lemma ReadStays(kind: Kind, s: Scan, f: Fields, mask1: int, mask2: int, reason: int)
    requires Read(kind, s, f, mask1, mask2, reason) && GetField(s).1 >= 0
    ensures Read(kind, GetField(s).0, f, mask1, mask2, reason)
  {
    MasksStay(kind, s, f, mask1, mask2);
    HoldsOn(s, reason, f.reason);
  }

  lemma HeldText(s: Scan, field: int, f: string)
    requires Holds(s, field, f)
    ensures 0 <= field < |s.buf| && TextAt(s.buf, field) == f
  {
    HeldString(s, field, f);
  }

  /** With the texts of all fields known, the last step builds the row from them. */
  lemma FinishTexts(kind: Kind, s: Scan, f: Fields, mask1: int, mask2: int, reason: int, oreason: int, oper: int)
    requires Terminated(s) && 0 <= mask1 < |s.buf| && mask2 < |s.buf| && 0 <= reason < |s.buf|
    requires oreason < |s.buf| && 0 <= oper < |s.buf| && 0 <= s.line == oper + |f.oper| + 2
    requires kind.Kline? ==> mask2 >= 0 && TextAt(s.buf, mask2) == f.mask2
    requires TextAt(s.buf, mask1) == f.mask1 && TextAt(s.buf, reason) == f.reason
    requires TextAt(s.buf, oreason) == if kind.Resv? then "" else f.extra
    requires TextAt(s.buf, oper) == f.oper && TextAt(s.buf, s.line) == f.time
    ensures Finish(kind, s, mask1, mask2, reason, oreason, oper) == BuildOf(kind, f)
  {
    FinishUnfolds(kind, s, mask1, mask2, reason, oreason, oper);
  }

  /** The oper reason that was read, if the line has one. */
  ghost predicate ExtraRead(kind: Kind, s: Scan, f: Fields, oreason: int) {
    if kind.Resv? then oreason == -1 else Holds(s, oreason, f.extra)
  }

  lemma FinishReads(kind: Kind, s: Scan, f: Fields, mask1: int, mask2: int, reason: int, oreason: int, oper: int)
    requires Read(kind, s, f, mask1, mask2, reason) && Holds(s, oper, f.oper) && ExtraRead(kind, s, f, oreason)
    requires At(s, f.time) && s.line == oper + |f.oper| + 2
    ensures Finish(kind, s, mask1, mask2, reason, oreason, oper) == BuildOf(kind, f)
  {
    HeldText(s, mask1, f.mask1);
    HeldText(s, reason, f.reason);
    HeldText(s, oper, f.oper);
    if kind.Kline? {
      HeldText(s, mask2, f.mask2);
    }
    if !kind.Resv? {
      HeldText(s, oreason, f.extra);
    }
    RestString(s, f.time);
    FinishTexts(kind, s, f, mask1, mask2, reason, oreason, oper);
  }

  /** The last field, the oper, and the time behind it. */
  lemma OperReads(kind: Kind, s: Scan, f: Fields, mask1: int, mask2: int, reason: int, oreason: int)
    requires Read(kind, s, f, mask1, mask2, reason) && ExtraRead(kind, s, f, oreason)
    requires At(s, Quoted(f.oper) + f.time) && Plain(f.oper)
    ensures var (s', oper) := GetField(s);
            Finish(kind, s', mask1, mask2, reason, oreason, oper) == BuildOf(kind, f)
  {
    GetQuoted(s, f.oper, f.time);
    var (s', oper) := GetField(s);
    ReadStays(kind, s, f, mask1, mask2, reason);
    if !kind.Resv? {
      HoldsOn(s, oreason, f.extra);
    }
    FinishReads(kind, s', f, mask1, mask2, reason, oreason, oper);
  }

  lemma ResvReads(s: Scan, f: Fields, mask1: int)
    requires MasksHeld(Resv, s, f, mask1, -1) && PlainFields(Resv, f)
    requires At(s, Quoted(f.reason) + (Quoted(f.oper) + f.time))
    ensures FromReason(Resv, s, mask1, -1) == if f.reason == "" then Skipped else BuildOf(Resv, f)
  {
    GetQuoted(s, f.reason, Quoted(f.oper) + f.time);
    var (s1, reason) := GetField(s);
    MasksStay(Resv, s, f, mask1, -1);
    HeldString(s1, reason, f.reason);
    if f.reason != "" {
      OperReads(Resv, s1, f, mask1, -1, reason, -1);
    }
  }

  lemma LongReads(kind: Kind, s: Scan, f: Fields, mask1: int, mask2: int)
    requires !kind.Resv? && MasksHeld(kind, s, f, mask1, mask2) && PlainFields(kind, f)
    requires At(s, Quoted(f.reason) + (Quoted(f.extra) + (Quoted(f.date) + (Quoted(f.oper) + f.time))))
    ensures FromReason(kind, s, mask1, mask2) == if f.reason == "" then Skipped else BuildOf(kind, f)
  {
    GetQuoted(s, f.reason, Quoted(f.extra) + (Quoted(f.date) + (Quoted(f.oper) + f.time)));
    var (s1, reason) := GetField(s);
    MasksStay(kind, s, f, mask1, mask2);
    HeldString(s1, reason, f.reason);
    if f.reason != "" {
      AfterReason(kind, s1, f, mask1, mask2, reason);
    }
  }

  lemma AfterReason(kind: Kind, s1: Scan, f: Fields, mask1: int, mask2: int, reason: int)
    requires !kind.Resv? && Read(kind, s1, f, mask1, mask2, reason) && PlainFields(kind, f)
    requires At(s1, Quoted(f.extra) + (Quoted(f.date) + (Quoted(f.oper) + f.time)))
    ensures var (s2, oreason) := GetField(s1); var s3 := GetField(s2).0; var (s4, oper) := GetField(s3);
            Finish(kind, s4, mask1, mask2, reason, oreason, oper) == BuildOf(kind, f)
  {
    GetQuoted(s1, f.extra, Quoted(f.date) + (Quoted(f.oper) + f.time));
    var (s2, oreason) := GetField(s1);
    ReadStays(kind, s1, f, mask1, mask2, reason);
    GetQuoted(s2, f.date, Quoted(f.oper) + f.time);
    var s3 := GetField(s2).0;
    ReadStays(kind, s2, f, mask1, mask2, reason);
    HoldsOn(s2, oreason, f.extra);
    OperReads(kind, s3, f, mask1, mask2, reason, oreason);
  }

  lemma LineIsOneLine(kind: Kind, f: Fields)
    requires PlainFields(kind, f)
    ensures OneLine(LineOf(kind, f))
  {
    var tail := Quoted(f.oper) + f.time;
    OneLineQuoted(f.oper, f.time);
    if kind.Resv? {
      OneLineQuoted(f.reason, tail);
      OneLineQuoted(f.mask1, Quoted(f.reason) + tail);
    } else {
      OneLineQuoted(f.date, tail);
      OneLineQuoted(f.extra, Quoted(f.date) + tail);
      var long := Quoted(f.extra) + (Quoted(f.date) + tail);
      OneLineQuoted(f.reason, long);
      if kind.Dline? {
        OneLineQuoted(f.mask1, Quoted(f.reason) + long);
      } else {
        OneLineQuoted(f.mask2, Quoted(f.reason) + long);
        OneLineQuoted(f.mask1, Quoted(f.mask2) + (Quoted(f.reason) + long));
      }
    }
  }

  lemma StartOfLine(text: string)
    requires OneLine(text)
    ensures At(Scan(text + [EOS], 0), text)
  {
  }

  ghost predicate BlankField(kind: Kind, f: Fields) {
    f.mask1 == "" || (kind.Kline? && f.mask2 == "") || f.reason == ""
  }

  lemma MasksRead(kind: Kind, f: Fields, s: Scan)
    requires PlainFields(kind, f) && At(s, LineOf(kind, f))
    ensures FromMasks(kind, s) == if BlankField(kind, f) then Skipped else BuildOf(kind, f)
  {
    var tail := Quoted(f.oper) + f.time;
    var long := Quoted(f.extra) + (Quoted(f.date) + tail);
    var rest := match kind
      case Resv => Quoted(f.reason) + tail
      case Dline => Quoted(f.reason) + long
      case Kline => Quoted(f.mask2) + (Quoted(f.reason) + long);
    GetQuoted(s, f.mask1, rest);
    var (s1, mask1) := GetField(s);
    HeldString(s1, mask1, f.mask1);
    match kind
    case Resv => ResvReads(s1, f, mask1);
    case Dline => LongReads(kind, s1, f, mask1, -1);
    case Kline => SecondMaskRead(f, s1, mask1);
  }

  lemma SecondMaskRead(f: Fields, s1: Scan, mask1: int)
    requires PlainFields(Kline, f) && Terminated(s1) && Holds(s1, mask1, f.mask1)
    requires At(s1, Quoted(f.mask2) +
                    (Quoted(f.reason) + (Quoted(f.extra) + (Quoted(f.date) + (Quoted(f.oper) + f.time)))))
    ensures var (s2, mask2) := GetField(s1);
            && (Blank(s2, mask2) <==> f.mask2 == "")
            && (f.mask2 != "" ==>
                  FromReason(Kline, s2, mask1, mask2) == if f.reason == "" then Skipped else BuildOf(Kline, f))
  {
    GetQuoted(s1, f.mask2, Quoted(f.reason) + (Quoted(f.extra) + (Quoted(f.date) + (Quoted(f.oper) + f.time))));
    var (s2, mask2) := GetField(s1);
    HoldsOn(s1, mask1, f.mask1);
    HeldString(s2, mask2, f.mask2);
    LongReads(Kline, s2, f, mask1, mask2);
  }

  lemma LineStarts(kind: Kind, f: Fields)
    ensures var text := LineOf(kind, f); text != "" && text[0] == QUOTE
  {
    assert Quoted(f.mask1)[0] == QUOTE;
  }

  lemma ImportReads(kind: Kind, f: Fields, tail: string)
    requires PlainFields(kind, f) && (tail == "" || LineEnd(tail[0]))
    ensures Import(kind, LineOf(kind, f) + tail) == if BlankField(kind, f) then Skipped else BuildOf(kind, f)
  {
    var text := LineOf(kind, f);
    LineIsOneLine(kind, f);
    ChompLine(text, tail);
    LineStarts(kind, f);
    StartOfLine(text);
    MasksRead(kind, f, Scan(text + [EOS], 0));
  }

  /** The reason that is stored: with the oper reason, if there is one, behind a bar, cut to 119
      characters. */
  ghost function StoredReason(kind: Kind, f: Fields): string {
    var text := if kind.Resv? || f.extra == "" then f.reason else f.reason + " | " + f.extra;
    if |text| <= 119 then text else text[..119]
  }

  /** What becomes of the fields of a line: it is skipped when a mask or the reason is empty; the program
      steps outside its buffer when the time has 14 characters or more besides quotes; a K-line whose
      first mask has an exclamation mark is skipped; and otherwise the row has these masks, this oper
      and time, and the reason with the oper reason. */
  ghost function Reading(kind: Kind, f: Fields): Outcome {
    if f.mask1 == "" || (kind.Kline? && f.mask2 == "") || f.reason == "" then Skipped
    else if |Unquoted(f.time)| >= 14 then Undefined
    else if kind.Kline? && '!' in f.mask1 then Skipped
    else
      Imported(Row(f.mask1, if kind.Kline? then f.mask2 else "", StoredReason(kind, f), f.oper, Unquoted(f.time)))
  }

  lemma BuildReading(kind: Kind, f: Fields)
    ensures (if BlankField(kind, f) then Skipped else BuildOf(kind, f)) == Reading(kind, f)
  {
  }

  /** Every line of quoted fields, whatever they are, is read so. */
  lemma ImportExactly(kind: Kind, f: Fields, tail: string)
    requires PlainFields(kind, f) && (tail == "" || tail[0] == '\r' || tail[0] == '\n')
    ensures Import(kind, LineOf(kind, f) + tail) == Reading(kind, f)
  {
    ImportReads(kind, f, tail);
    BuildReading(kind, f);
  }

  /** The masks and the reason of a line, and something behind them. */
  ghost function StartOf(kind: Kind, f: Fields, rest: string): string {
    if kind.Kline? then Quoted(f.mask1) + (Quoted(f.mask2) + (Quoted(f.reason) + rest))
    else Quoted(f.mask1) + (Quoted(f.reason) + rest)
  }

  /** When no further field follows the reason, the program goes on without an oper field, and steps
      outside its memory. */
  lemma OperMissing(kind: Kind, f: Fields, rest: string, s: Scan)
    requires Plain(f.mask1) && Plain(f.reason) && (kind.Kline? ==> Plain(f.mask2)) && !BlankField(kind, f)
    requires At(s, StartOf(kind, f, rest))
    requires !(rest != "" && rest[0] == '"' && exists k :: EndsField(rest, k))
    ensures FromMasks(kind, s) == Undefined
  {
    if kind.Kline? {
      GetQuoted(s, f.mask1, Quoted(f.mask2) + (Quoted(f.reason) + rest));
      var (s1, mask1) := GetField(s);
      HeldString(s1, mask1, f.mask1);
      GetQuoted(s1, f.mask2, Quoted(f.reason) + rest);
      var (s2, mask2) := GetField(s1);
      HeldString(s2, mask2, f.mask2);
      NothingBehind(kind, s2, f, rest, mask1, mask2);
    } else {
      GetQuoted(s, f.mask1, Quoted(f.reason) + rest);
      var (s1, mask1) := GetField(s);
      HeldString(s1, mask1, f.mask1);
      NothingBehind(kind, s1, f, rest, mask1, -1);
    }
  }

  lemma NothingBehind(kind: Kind, s: Scan, f: Fields, rest: string, mask1: int, mask2: int)
    requires At(s, Quoted(f.reason) + rest) && Plain(f.reason) && f.reason != ""
    requires !(rest != "" && rest[0] == '"' && exists k :: EndsField(rest, k))
    requires 0 <= mask1 < |s.buf| && mask2 < |s.buf| && (kind.Kline? ==> mask2 >= 0)
    ensures FromReason(kind, s, mask1, mask2) == Undefined
  {
    GetQuoted(s, f.reason, rest);
    var (s1, reason) := GetField(s);
    HeldString(s1, reason, f.reason);
    FieldExactly(s1, rest);
    var (s2, oreason) := GetField(s1);
    var s3 := GetField(s2).0;
    assert GetField(s3).1 < 0;
  }

  /** A line that does not start with a quote, such as a comment, is skipped. */
  lemma ImportSkips(kind: Kind, line: string)
    requires line == "" || line[0] != '"'
    ensures Import(kind, line) == Skipped
  {
    var text := Chomp(line);
    if text != "" {
      assert text[0] == line[0];
    }
  }

  /** Importing an exported row gives the row back with only its reason mangled. */
  lemma RoundTrip(kind: Kind, row: Row, date: string)
    requires Storable(kind, row, date)
    ensures Import(kind, Export(kind, row, date)) == Imported(row.(reason := Mangle(row.reason)))
  {
    ExportWhole(kind, row, date);
    ImportExactly(kind, Exported(row, date), ['\n']);
    ReadBack(kind, row, date);
  }

  lemma ExportWhole(kind: Kind, row: Row, date: string)
    requires Storable(kind, row, date)
    ensures Export(kind, row, date) == LineOf(kind, Exported(row, date)) + ['\n']
    ensures PlainFields(kind, Exported(row, date))
  {
  }

  lemma ReadBack(kind: Kind, row: Row, date: string)
    requires Storable(kind, row, date)
    ensures Reading(kind, Exported(row, date)) == Imported(row.(reason := Mangle(row.reason)))
  {
    UnquotedPlain(row.time);
  }

  /** A second round trip changes nothing any more. */
  lemma SecondRoundTrip(kind: Kind, row: Row, date: string)
    requires Storable(kind, row, date)
    ensures var once := Import(kind, Export(kind, row, date));
            once.Imported? && Import(kind, Export(kind, once.row, date)) == once
  {
    RoundTrip(kind, row, date);
    MangleTwice(row.reason);
    var again := row.(reason := Mangle(row.reason));
    assert Line(kind, again, date) == Line(kind, row, date);
    RoundTrip(kind, again, date);
  }

  lemma MangleTwice(s: string)
    ensures Mangle(Mangle(s)) == Mangle(s)
  {
  }

  // ----- the importer

  /** strpbrk(line, "\r\n"), and a NUL written there */
  method ChompLineNow(line: string) returns (text: string)
    ensures text == Chomp(line)
    ensures text <= line && '\r' !in text && '\n' !in text
    ensures |text| < |line| ==> line[|text|] == '\r' || line[|text|] == '\n'
  {
    var i := 0;
    while i < |line| && !LineEnd(line[i])
      invariant 0 <= i <= |line| && line[..i] + Chomp(line[i..]) == Chomp(line)
      invariant forall k :: 0 <= k < i ==> !LineEnd(line[k])
    {
      assert line[i..][1..] == line[i + 1..];
      assert line[..i + 1] == line[..i] + [line[i]];
      i := i + 1;
    }
    text := line[..i];
    NoLineEnd(text);
  }

  lemma NoLineEnd(text: string)
    ensures (forall k :: 0 <= k < |text| ==> !LineEnd(text[k])) ==> '\r' !in text && '\n' !in text
  {
  }

  /** One line of import_config: cut the fields out of the line, in place, and build the row. */
  method ImportLine(kind: Kind, line: string) returns (o: Outcome)
    ensures o == Import(kind, line)
  {
    var text := ChompLineNow(line);
    if text == "" || text[0] == '#' || text[0] == EOS {
      return Skipped;
    }
    var whole := text + [EOS];
    var buf := new char[|whole|](i requires 0 <= i < |whole| => whole[i]);
    assert buf[..] == whole;
    var sp := new Splitter(buf);
    var mask1 := sp.Field();
    if mask1 < 0 || buf[mask1] == EOS {
      return Skipped;
    }
    var mask2 := -1;
    if kind.Kline? {
      mask2 := sp.Field();
      if mask2 < 0 || buf[mask2] == EOS {
        return Skipped;
      }
    }
    o := ImportRest(kind, sp, mask1, mask2);
  }

  method ImportRest(kind: Kind, sp: Splitter, mask1: int, mask2: int) returns (o: Outcome)
    requires Terminated(sp.View()) && 0 <= mask1 < sp.buf.Length && mask2 < sp.buf.Length
    requires kind.Kline? ==> mask2 >= 0
    modifies sp, sp.buf
    ensures o == FromReason(kind, old(sp.View()), mask1, mask2)
  {
    var reason := sp.Field();
    if reason < 0 || sp.buf[reason] == EOS {
      return Skipped;
    }
    var oreason := -1;
    if !kind.Resv? {
      oreason := sp.Field();
      var date := sp.Field();
    }
    var oper := sp.Field();
    o := BuildRow(kind, sp.buf[..], mask1, mask2, reason, oreason, oper, sp.View());
  }

  method BuildRow(kind: Kind, buf: seq<char>, mask1: int, mask2: int, reason: int, oreason: int, oper: int,
                  ghost s: Scan) returns (o: Outcome)
    requires Terminated(s) && s.buf == buf && 0 <= mask1 < |buf| && mask2 < |buf|
    requires kind.Kline? ==> mask2 >= 0
    requires 0 <= reason < |buf| && oreason < |buf| && oper < |buf|
    ensures o == Finish(kind, s, mask1, mask2, reason, oreason, oper)
  {
    if oper < 0 {
      return Undefined;
    }
    var who := TextAt(buf, oper);
    var at := oper + |who| + 2;
    FinishUnfolds(kind, s, mask1, mask2, reason, oreason, oper);
    if at >= |buf| {
      return Undefined;
    }
    var m2 := if kind.Kline? then TextAt(buf, mask2) else "";
    o := MakeRow(kind, TextAt(buf, mask1), m2, TextAt(buf, reason), TextAt(buf, oreason), who, TextAt(buf, at));
  }

  lemma FinishUnfolds(kind: Kind, s: Scan, mask1: int, mask2: int, reason: int, oreason: int, oper: int)
    requires Terminated(s) && 0 <= mask1 < |s.buf| && mask2 < |s.buf| && 0 <= reason < |s.buf|
    requires oreason < |s.buf| && 0 <= oper < |s.buf| && (kind.Kline? ==> mask2 >= 0)
    ensures var at := oper + |TextAt(s.buf, oper)| + 2;
            Finish(kind, s, mask1, mask2, reason, oreason, oper) ==
            if at >= |s.buf| then Undefined
            else
              Build(kind, TextAt(s.buf, mask1), if kind.Kline? then TextAt(s.buf, mask2) else "", TextAt(s.buf, reason),
                    TextAt(s.buf, oreason), TextAt(s.buf, oper), TextAt(s.buf, at))
  {
  }

  method MakeRow(kind: Kind, m1: string, m2: string, why: string, extra: string, who: string, time: string)
    returns (o: Outcome)
    ensures o == Build(kind, m1, m2, why, extra, who, time)
  {
    if |Unquoted(time)| >= TIME_SIZE {
      return Undefined;
    }
    var stamp := StripQuotes(time);
    if kind.Kline? && '!' in m1 {
      return Skipped;
    }
    var text := why;
    if extra != "" {
      text := text + " | " + extra;
    }
    if |text| > REASONLEN - 1 {
      text := text[..REASONLEN - 1];
    }
    o := Imported(Row(m1, m2, text, who, stamp));
  }
}
