/** The CIDR block a wildcard mask is rewritten to covers exactly the addresses the mask matches. */
module Cidr {
  import opened Common
  import opened Strings
  import opened Kline

  // ----- decimal octets

  ghost function Dec(n: nat): string {
    if n < 10 then [('0' as int + n) as char] else Dec(n / 10) + [('0' as int + n % 10) as char]
  }

  ghost function Value(s: string): int {
    if s == "" then 0 else 10 * Value(s[..|s| - 1]) + (s[|s| - 1] as int - '0' as int)
  }

  lemma {:induction false} DecShape(n: nat)
    ensures Dec(n) != "" && Value(Dec(n)) == n && forall i :: 0 <= i < |Dec(n)| ==> Digit(Dec(n)[i])
    ensures n < 10 ==> |Dec(n)| == 1
    ensures n < 100 ==> |Dec(n)| <= 2
    ensures n < 1000 ==> |Dec(n)| <= 3
  {
    if n >= 10 {
      DecShape(n / 10);
      var s := Dec(n);
      assert s[..|s| - 1] == Dec(n / 10);
    } else {
      assert Dec(n)[..0] == "";
    }
  }

  lemma DecInjective(a: nat, b: nat)
    requires Dec(a) == Dec(b)
    ensures a == b
  {
    DecShape(a);
    DecShape(b);
  }

  lemma DecPlain(n: nat)
    requires n < 256
    ensures Dec(n) != "" && Number(Dec(n)) && DOT !in Dec(n) && STAR !in Dec(n) && '?' !in Dec(n)
  {
    DecShape(n);
  }

  // ----- addresses and blocks

  datatype Address = Address(a: nat, b: nat, c: nat, d: nat)

  ghost predicate Valid(x: Address) {
    x.a < 256 && x.b < 256 && x.c < 256 && x.d < 256
  }

  ghost function Octets(x: Address): seq<nat> {
    [x.a, x.b, x.c, x.d]
  }

  ghost function Decs(os: seq<nat>): (r: seq<string>)
    ensures |r| == |os| && forall i :: 0 <= i < |os| ==> r[i] == Dec(os[i])
  {
    seq(|os|, i requires 0 <= i < |os| => Dec(os[i]))
  }

  ghost function Dotted(x: Address): string {
    Join(Decs(Octets(x)), DOT)
  }

  ghost function Word(x: Address): nat {
    ((x.a * 256 + x.b) * 256 + x.c) * 256 + x.d
  }

  ghost function HostSize(bits: nat): nat
    requires bits == 8 || bits == 16 || bits == 24
  {
    if bits == 8 then 0x100_0000 else if bits == 16 then 0x1_0000 else 0x100
  }

  /** The addresses whose first bits equal those of the base. */
  ghost predicate Covers(base: Address, bits: nat, x: Address)
    requires bits == 8 || bits == 16 || bits == 24
  {
    Word(base) / HostSize(bits) == Word(x) / HostSize(bits)
  }

  /** The block with the given leading octets and zeros after them. */
  ghost function Base(os: seq<nat>): Address
    requires 1 <= |os| <= 3
  {
    Address(os[0], if |os| > 1 then os[1] else 0, if |os| > 2 then os[2] else 0, 0)
  }

  lemma CoversPrefix(os: seq<nat>, x: Address)
    requires 1 <= |os| <= 3 && Valid(x) && forall i :: 0 <= i < |os| ==> os[i] < 256
    ensures Covers(Base(os), 8 * |os|, x) <==> os <= Octets(x)
  {
    var b := Base(os);
    var y := Octets(x);
    if |os| == 1 {
      assert Word(b) / 0x100_0000 == b.a && Word(x) / 0x100_0000 == x.a;
      assert os <= y <==> os[0] == y[0];
    } else if |os| == 2 {
      assert Word(b) / 0x1_0000 == b.a * 256 + b.b && Word(x) / 0x1_0000 == x.a * 256 + x.b;
      assert os <= y <==> os[0] == y[0] && os[1] == y[1];
    } else {
      assert Word(b) / 0x100 == (b.a * 256 + b.b) * 256 + b.c && Word(x) / 0x100 == (x.a * 256 + x.b) * 256 + x.c;
      assert os <= y <==> os[0] == y[0] && os[1] == y[1] && os[2] == y[2];
    }
  }

  // ----- wildcard matching

  /** The meaning of a wildcard mask: a star stands for any text, a question mark for any one character. */
  ghost predicate WildMatch(p: string, s: string)
    decreases |p| + |s|
  {
    if p == "" then s == ""
    else if p[0] == STAR then WildMatch(p[1..], s) || (s != "" && WildMatch(p, s[1..]))
    else s != "" && (p[0] == '?' || p[0] == s[0]) && WildMatch(p[1..], s[1..])
  }

  lemma {:induction false} LiteralPrefix(lit: string, p: string, s: string)
    requires STAR !in lit && '?' !in lit
    ensures WildMatch(lit + p, s) <==> lit <= s && WildMatch(p, s[|lit|..])
  {
    if lit == "" {
      assert lit + p == p && s[0..] == s;
    } else {
      assert lit[0] in lit && (lit + p)[0] == lit[0] && (lit + p)[1..] == lit[1..] + p;
      if s != "" {
        LiteralPrefix(lit[1..], p, s[1..]);
        assert lit <= s <==> lit[0] == s[0] && lit[1..] <= s[1..];
        if lit <= s {
          assert s[1..][|lit| - 1..] == s[|lit|..];
        }
      }
    }
  }

  /** "*", "*.*" and "*.*.*" match any text with at least that many dots. */
  ghost function Stars(j: nat): string
    requires j > 0
  {
    if j == 1 then [STAR] else [STAR, DOT] + Stars(j - 1)
  }

  lemma {:induction false} StarMatchesAll(s: string)
    ensures WildMatch([STAR], s)
  {
    var p := [STAR];
    assert p[1..] == "";
    if s != "" {
      StarMatchesAll(s[1..]);
    }
  }

  lemma {:induction false} StarSkips(e: string, p: string, s: string)
    requires p != "" && p[0] == STAR && WildMatch(p[1..], s)
    ensures WildMatch(p, e + s)
    decreases |e|
  {
    if e == "" {
      assert e + s == s;
    } else {
      StarSkips(e[1..], p, s);
      assert (e + s)[1..] == e[1..] + s;
    }
  }

  lemma {:induction false} StarsMatch(j: nat, es: seq<string>)
    requires 0 < j <= |es|
    ensures WildMatch(Stars(j), Join(es, DOT))
    decreases j
  {
    if j == 1 {
      StarMatchesAll(Join(es, DOT));
    } else {
      StarsMatch(j - 1, es[1..]);
      var p := Stars(j);
      var rest := Join(es[1..], DOT);
      assert p[1..] == [DOT] + Stars(j - 1);
      assert ([DOT] + Stars(j - 1))[1..] == Stars(j - 1) && ([DOT] + rest)[1..] == rest;
      assert WildMatch(p[1..], [DOT] + rest);
      StarSkips(es[0], p, [DOT] + rest);
      assert Join(es, DOT) == es[0] + ([DOT] + rest);
    }
  }

  // ----- the rewrite

  /** A mask of k leading octets and j stars. */
  ghost function Fields(os: seq<nat>, j: nat): seq<string> {
    Decs(os) + seq(j, i => [STAR])
  }

  ghost function WildMask(os: seq<nat>, j: nat): string {
    Join(Fields(os, j), DOT)
  }

  ghost function Block(os: seq<nat>): string
    requires 1 <= |os| <= 3
  {
    Dotted(Base(os)) + "/" + Dec(8 * |os|)
  }

  ghost predicate OctetList(os: seq<nat>) {
    1 <= |os| <= 3 && forall i :: 0 <= i < |os| ==> os[i] < 256
  }

  lemma DecsPlain(os: seq<nat>)
    requires forall i :: 0 <= i < |os| ==> os[i] < 256
    ensures forall i :: 0 <= i < |os| ==>
              && Decs(os)[i] != "" && Number(Decs(os)[i])
              && DOT !in Decs(os)[i] && STAR !in Decs(os)[i] && '?' !in Decs(os)[i]
  {
    forall i | 0 <= i < |os|
      ensures Decs(os)[i] != "" && Number(Decs(os)[i])
      ensures DOT !in Decs(os)[i] && STAR !in Decs(os)[i] && '?' !in Decs(os)[i]
    {
      DecPlain(os[i]);
    }
  }

  lemma FieldTokens(os: seq<nat>, j: nat)
    requires OctetList(os)
    ensures Tokens(WildMask(os, j)) == Fields(os, j)
  {
    DecsPlain(os);
    var fs := Fields(os, j);
    assert forall i :: 0 <= i < |fs| ==> fs[i] == if i < |os| then Decs(os)[i] else [STAR];
    SplitOfJoin(fs, DOT);
    NonEmptyAll(fs);
  }

  lemma JoinFour(a: string, b: string, c: string, d: string)
    ensures Join([a, b, c, d], DOT) == a + "." + b + "." + c + "." + d
  {
    JoinConcat([a, b], [c, d], DOT);
    JoinConcat([a], [b], DOT);
    JoinConcat([c], [d], DOT);
    assert [a] + [b] == [a, b] && [c] + [d] == [c, d] && [a, b] + [c, d] == [a, b, c, d];
  }

  lemma SmallDecs()
    ensures Dec(0) == "0" && Dec(8) == "8" && Dec(16) == "16" && Dec(24) == "24"
  {
    assert Dec(1) == "1" && Dec(2) == "2" && Dec(6) == "6" && Dec(4) == "4";
    assert Dec(16) == Dec(1) + ['6'] && Dec(24) == Dec(2) + ['4'];
  }

  lemma BlockText(os: seq<nat>)
    requires OctetList(os)
    ensures |os| == 1 ==> Block(os) == Dec(os[0]) + ".0.0.0/8"
    ensures |os| == 2 ==> Block(os) == Dec(os[0]) + "." + Dec(os[1]) + ".0.0/16"
    ensures |os| == 3 ==> Block(os) == Dec(os[0]) + "." + Dec(os[1]) + "." + Dec(os[2]) + ".0/24"
  {
    SmallDecs();
    var b := Base(os);
    assert Decs(Octets(b)) == [Dec(b.a), Dec(b.b), Dec(b.c), Dec(b.d)];
    JoinFour(Dec(b.a), Dec(b.b), Dec(b.c), Dec(b.d));
  }

  /** A mask of one to three octets followed by stars, two to four fields in all, is rewritten to
      the block of its octets. */
  lemma RewrittenToBlock(os: seq<nat>, j: nat)
    requires OctetList(os) && 1 <= j && |os| + j <= 4
    ensures Mangle(WildMask(os, j)) == Some(Block(os))
  {
    FieldTokens(os, j);
    DecsPlain(os);
    var ts := Fields(os, j);
    assert forall i :: 0 <= i < |ts| ==> ts[i] == if i < |os| then Dec(os[i]) else [STAR];
    assert !Number([STAR]) by { assert !Digit([STAR][0]); }
    BlockText(os);
    BlockFits(os, j, ts);
  }

  lemma BlockFits(os: seq<nat>, j: nat, ts: seq<string>)
    requires OctetList(os) && 1 <= j && |os| + j <= 4 && |ts| == |os| + j
    requires forall i :: 0 <= i < |ts| ==> ts[i] == if i < |os| then Dec(os[i]) else [STAR]
    requires forall i :: 0 <= i < |os| ==> Number(Dec(os[i])) && STAR !in Dec(os[i])
    ensures Decide(Nth(ts, 0), Nth(ts, 1), Nth(ts, 2), Nth(ts, 3)) ==
            Some(if |os| == 1 then Dec(os[0]) + ".0.0.0/8"
                 else if |os| == 2 then Dec(os[0]) + "." + Dec(os[1]) + ".0.0/16"
                 else Dec(os[0]) + "." + Dec(os[1]) + "." + Dec(os[2]) + ".0/24")
  {
    assert forall i :: 0 <= i < |os| ==> ts[i] != [STAR];
  }

  // ----- and the block means the same

  lemma {:induction false} StarsJoin(j: nat)
    requires j > 0
    ensures Join(seq(j, i => [STAR]), DOT) == Stars(j)
  {
    var ss := seq(j, i => [STAR]);
    if j > 1 {
      StarsJoin(j - 1);
      assert ss[1..] == seq(j - 1, i => [STAR]);
    }
  }

  lemma {:induction false} SplitPrefix(es: seq<string>, r: string)
    requires es != [] && forall i :: 0 <= i < |es| ==> DOT !in es[i]
    ensures Split(Join(es, DOT) + [DOT] + r, DOT) == es + Split(r, DOT)
  {
    if |es| == 1 {
      SplitLeft(es[0], r, DOT);
      assert es == [es[0]];
    } else {
      var tail := Join(es[1..], DOT) + [DOT] + r;
      SplitPrefix(es[1..], r);
      SplitLeft(es[0], tail, DOT);
      assert Join(es, DOT) + [DOT] + r == es[0] + [DOT] + tail;
      assert es == [es[0]] + es[1..];
      assert [es[0]] + (es[1..] + Split(r, DOT)) == es + Split(r, DOT);
    }
  }

  lemma MaskIsPrefixAndStars(os: seq<nat>, j: nat)
    requires OctetList(os) && j > 0
    ensures WildMask(os, j) == (Join(Decs(os), DOT) + [DOT]) + Stars(j)
  {
    JoinConcat(Decs(os), seq(j, i => [STAR]), DOT);
    StarsJoin(j);
  }

  lemma {:induction false} JoinPlain(es: seq<string>)
    requires forall i :: 0 <= i < |es| ==> STAR !in es[i] && '?' !in es[i]
    ensures STAR !in Join(es, DOT) && '?' !in Join(es, DOT)
  {
    if |es| > 1 {
      JoinPlain(es[1..]);
    }
  }

  /** The mask matches a dotted address exactly when the leading octets agree. */
  lemma MaskMatchesPrefix(os: seq<nat>, j: nat, x: Address)
    requires OctetList(os) && 1 <= j && |os| + j <= 4 && Valid(x)
    ensures WildMatch(WildMask(os, j), Dotted(x)) <==> os <= Octets(x)
  {
    var lit := Join(Decs(os), DOT) + [DOT];
    DecsPlain(os);
    DecsPlain(Octets(x));
    JoinPlain(Decs(os));
    MaskIsPrefixAndStars(os, j);
    LiteralPrefix(lit, Stars(j), Dotted(x));
    if os <= Octets(x) {
      PrefixMatches(os, j, x);
    } else if lit <= Dotted(x) {
      PrefixAgrees(os, x);
    }
  }

  lemma PrefixMatches(os: seq<nat>, j: nat, x: Address)
    requires OctetList(os) && 1 <= j && |os| + j <= 4 && os <= Octets(x)
    ensures var lit := Join(Decs(os), DOT) + [DOT]; lit <= Dotted(x) && WildMatch(Stars(j), Dotted(x)[|lit|..])
  {
    var lit := Join(Decs(os), DOT) + [DOT];
    var rest := Octets(x)[|os|..];
    assert Decs(Octets(x)) == Decs(os) + Decs(rest);
    JoinConcat(Decs(os), Decs(rest), DOT);
    assert Dotted(x) == lit + Join(Decs(rest), DOT);
    StarsMatch(j, Decs(rest));
  }

  lemma PrefixAgrees(os: seq<nat>, x: Address)
    requires OctetList(os) && Valid(x) && Join(Decs(os), DOT) + [DOT] <= Dotted(x)
    ensures os <= Octets(x)
  {
    var lit := Join(Decs(os), DOT) + [DOT];
    var r := Dotted(x)[|lit|..];
    var ds := Decs(Octets(x));
    DecsPlain(os);
    DecsPlain(Octets(x));
    assert Dotted(x) == lit + r;
    SplitPrefix(Decs(os), r);
    SplitOfJoin(ds, DOT);
    assert ds == Decs(os) + Split(r, DOT);
    forall i | 0 <= i < |os| ensures os[i] == Octets(x)[i] {
      assert ds[i] == Decs(os)[i];
      DecInjective(os[i], Octets(x)[i]);
    }
  }

  /** The CIDR that mangle_wildcard_to_cidr prints covers exactly the addresses whose dotted form
      the wildcard mask matches. */
  lemma CidrIsEquivalent(os: seq<nat>, j: nat, x: Address)
    requires OctetList(os) && 1 <= j && |os| + j <= 4 && Valid(x)
    ensures Mangle(WildMask(os, j)) == Some(Block(os))
    ensures Covers(Base(os), 8 * |os|, x) <==> WildMatch(WildMask(os, j), Dotted(x))
  {
    RewrittenToBlock(os, j);
    MaskMatchesPrefix(os, j, x);
    CoversPrefix(os, x);
  }
}
