/** Rewriting a dotted wildcard mask as a CIDR block. */
module Kline {
  import opened Common
  import opened Strings

  const DOT: char := '.'
  const STAR: char := '*'
  const CIDR_SIZE: nat := 20

  // ----- tokens

  /** What rb_strtok_r finds: the non-empty pieces between dots. */
  ghost function Tokens(s: string): seq<string> {
    NonEmpty(Split(s, DOT))
  }

  lemma TokensCons(e: string, rest: string)
    requires DOT !in e
    ensures Tokens(e + [DOT] + rest) == (if e == "" then [] else [e]) + Tokens(rest)
  {
    SplitLeft(e, rest, DOT);
    NonEmptyConcat([e], Split(rest, DOT));
    NonEmptyOne(e);
  }

  lemma TokensOne(e: string)
    requires DOT !in e
    ensures Tokens(e) == if e == "" then [] else [e]
  {
    SplitWhole(e, DOT);
    NonEmptyOne(e);
  }

  lemma SkipDot(s: string, start: nat)
    requires start < |s| && s[start] == DOT
    ensures Tokens(s[start..]) == Tokens(s[start + 1..])
  {
    assert s[start..] == "" + [DOT] + s[start + 1..];
    TokensCons("", s[start + 1..]);
  }

  lemma FirstToken(s: string, start: nat, end: nat)
    requires start < end <= |s| && DOT !in s[start..end] && (end < |s| ==> s[end] == DOT)
    ensures Tokens(s[start..]) == [s[start..end]] + Tokens(s[if end < |s| then end + 1 else end..])
  {
    if end == |s| {
      assert s[start..] == s[start..end] && s[end..] == "";
      TokensOne(s[start..end]);
      TokensOne("");
    } else {
      assert s[start..] == s[start..end] + [DOT] + s[end + 1..];
      TokensCons(s[start..end], s[end + 1..]);
    }
  }

  /** rb_strtok_r with the single delimiter '.' */
  method Strtok(s: string, pos: nat) returns (token: Option<string>, pos': nat)
    requires pos <= |s|
    ensures pos <= pos' <= |s|
    ensures var ts := Tokens(s[pos..]);
            if ts == [] then token.None? && Tokens(s[pos'..]) == []
            else token == Some(ts[0]) && Tokens(s[pos'..]) == ts[1..]
  {
    var start := pos;
    while start < |s| && s[start] == DOT
      invariant pos <= start <= |s| && Tokens(s[start..]) == Tokens(s[pos..])
    {
      SkipDot(s, start);
      start := start + 1;
    }
    if start == |s| {
      TokensOne("");
      return None, start;
    }
    var end := start;
    while end < |s| && s[end] != DOT
      invariant start <= end <= |s| && DOT !in s[start..end]
    {
      end := end + 1;
    }
    FirstToken(s, start, end);
    token := Some(s[start..end]);
    pos' := if end < |s| then end + 1 else end;
  }

  // ----- the decision

  predicate Digit(c: char) {
    '0' <= c <= '9'
  }

  ghost predicate Number(s: string) {
    |s| <= 3 && forall i :: 0 <= i < |s| ==> Digit(s[i])
  }

  /** is_ip_number */
  method IsIpNumber(s: string) returns (r: bool)
    ensures r == Number(s)
    ensures r <==> |s| <= 3 && forall i :: 0 <= i < |s| ==> '0' <= s[i] <= '9'
  {
    if |s| > 3 {
      return false;
    }
    for i := 0 to |s|
      invariant forall k :: 0 <= k < i ==> Digit(s[k])
    {
      if !Digit(s[i]) {
        return false;
      }
    }
    return true;
  }

  predicate Open(t: Option<string>) {
    t.None? || t.value == [STAR]
  }

  /** The text snprintf leaves in the buffer. */
  function Print(s: string): string {
    if |s| < CIDR_SIZE then s else s[..CIDR_SIZE - 1]
  }

  /** mangle_wildcard_to_cidr, after tokenising */
  ghost function Decide(n1: Option<string>, n2: Option<string>, n3: Option<string>, n4: Option<string>)
    : Option<string>
  {
    if n1.None? || n1.value == [STAR] || !Number(n1.value) then None
    else if Open(n2) && (n3.None? || (n3.value == [STAR] && Open(n4))) then Some(Print(n1.value + ".0.0.0/8"))
    else if n2.None? || !Number(n2.value) then None
    else if Open(n3) && Open(n4) then Some(Print(n1.value + "." + n2.value + ".0.0/16"))
    else if n3.None? || !Number(n3.value) then None
    else if Open(n4) then Some(Print(n1.value + "." + n2.value + "." + n3.value + ".0/24"))
    else None
  }

  ghost function Nth(ts: seq<string>, i: nat): Option<string> {
    if i < |ts| then Some(ts[i]) else None
  }

  ghost function Mangle(text: string): Option<string> {
    var ts := Tokens(text);
    Decide(Nth(ts, 0), Nth(ts, 1), Nth(ts, 2), Nth(ts, 3))
  }

  /** mangle_wildcard_to_cidr */
  method MangleWildcardToCidr(text: string) returns (cidr: Option<string>)
    ensures cidr == Mangle(text)
  {
    var n1, n2, n3, n4 := FourTokens(text);
    if n1.None? {
      return None;
    }
    var isNumber := IsIpNumber(n1.value);
    if n1.value == [STAR] || !isNumber {
      return None;
    }
    if n2.None? || n2.value == [STAR] {
      if n3.None? || (n3.value == [STAR] && (n4.None? || n4.value == [STAR])) {
        return Some(Print(n1.value + ".0.0.0/8"));
      }
    }
    if n2.None? {
      return None;
    }
    isNumber := IsIpNumber(n2.value);
    if !isNumber {
      return None;
    }
    if n3.None? || n3.value == [STAR] {
      if n4.None? || n4.value == [STAR] {
        return Some(Print(n1.value + "." + n2.value + ".0.0/16"));
      }
    }
    if n3.None? {
      return None;
    }
    isNumber := IsIpNumber(n3.value);
    if !isNumber {
      return None;
    }
    if n4.None? || n4.value == [STAR] {
      return Some(Print(n1.value + "." + n2.value + "." + n3.value + ".0/24"));
    }
    return None;
  }

  method FourTokens(text: string)
    returns (n1: Option<string>, n2: Option<string>, n3: Option<string>, n4: Option<string>)
    ensures var ts := Tokens(text); n1 == Nth(ts, 0) && n2 == Nth(ts, 1) && n3 == Nth(ts, 2) && n4 == Nth(ts, 3)
  {
    var p;
    assert text[0..] == text;
    n1, p := Strtok(text, 0);
    n2, p := Strtok(text, p);
    n3, p := Strtok(text, p);
    n4, p := Strtok(text, p);
  }

  /** The first k fields are numbers, and those of the first four that follow are stars. */
  ghost predicate Rewritable(ts: seq<string>, k: int) {
    && 1 <= k <= 3 && k <= |ts|
    && (forall i :: 0 <= i < k ==> |ts[i]| <= 3 && forall c :: 0 <= c < |ts[i]| ==> '0' <= ts[i][c] <= '9')
    && (forall i :: k <= i < |ts| && i < 4 ==> ts[i] == "*")
  }

  /** Those fields, zeros for the others, and the length of the block. */
  ghost function BlockOf(ts: seq<string>, k: int): string
    requires 1 <= k <= 3 && k <= |ts|
  {
    if k == 1 then ts[0] + ".0.0.0/8"
    else if k == 2 then ts[0] + "." + ts[1] + ".0.0/16"
    else ts[0] + "." + ts[1] + "." + ts[2] + ".0/24"
  }

  /** A mask is rewritten if and only if it starts with one to three numbers and goes on, within its
      first four fields, with stars only; then to the block of these numbers, and whole: the 20-byte
      buffer never cuts it. Every other mask is left alone. */
  lemma MangleExactly(text: string)
    ensures Mangle(text).Some? <==> exists k :: Rewritable(Tokens(text), k)
    ensures forall k :: Rewritable(Tokens(text), k) ==> Mangle(text) == Some(BlockOf(Tokens(text), k))
  {
    var ts := Tokens(text);
    forall k | Rewritable(ts, k) ensures Mangle(text) == Some(BlockOf(ts, k)) {
      RewritableDecides(ts, k);
    }
    if Mangle(text).Some? {
      var k := DecidedRewritable(ts);
    }
  }

  lemma RewritableDecides(ts: seq<string>, k: int)
    requires Rewritable(ts, k)
    ensures Decide(Nth(ts, 0), Nth(ts, 1), Nth(ts, 2), Nth(ts, 3)) == Some(BlockOf(ts, k))
  {
    NumbersAndStars(ts, k);
  }

  /** A number is no star. */
  lemma NumbersAndStars(ts: seq<string>, k: int)
    requires Rewritable(ts, k)
    ensures forall i :: 0 <= i < k ==> Number(ts[i]) && ts[i] != [STAR]
    ensures forall i :: k <= i < |ts| && i < 4 ==> ts[i] == [STAR] && !Number(ts[i])
  {
    StarIsNoNumber();
    forall i | 0 <= i < k ensures Number(ts[i]) && ts[i] != [STAR] {
      assert forall c :: 0 <= c < |ts[i]| ==> Digit(ts[i][c]);
    }
  }

  lemma StarIsNoNumber()
    ensures !Number([STAR])
  {
    assert !Digit([STAR][0]);
  }

  lemma DecidedRewritable(ts: seq<string>) returns (k: int)
    requires Decide(Nth(ts, 0), Nth(ts, 1), Nth(ts, 2), Nth(ts, 3)).Some?
    ensures Rewritable(ts, k)
  {
    StarIsNoNumber();
    k := if |ts| > 1 && Number(ts[1]) then (if |ts| > 2 && Number(ts[2]) then 3 else 2) else 1;
    assert Number(ts[0]);
    forall i | 0 <= i < k ensures |ts[i]| <= 3 && forall c :: 0 <= c < |ts[i]| ==> '0' <= ts[i][c] <= '9' {
      assert Number(ts[i]);
      assert forall c :: 0 <= c < |ts[i]| ==> Digit(ts[i][c]);
    }
  }

  /** The 20-byte buffer never cuts a CIDR short, whatever the mask. */
  lemma NeverTruncated(text: string)
    ensures var r := Mangle(text); r.Some? ==> |r.value| < CIDR_SIZE - 1
  {
  }
}
