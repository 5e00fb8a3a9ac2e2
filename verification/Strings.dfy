/** Splitting text at a delimiter, and joining it again. */
module Strings {
  import opened Common

  ghost predicate Clean(s: string) {
    EOS !in s
  }

  ghost predicate AllClean(es: seq<string>) {
    forall i :: 0 <= i < |es| ==> Clean(es[i])
  }

  ghost function Join(es: seq<string>, sep: char): string {
    if es == [] then "" else if |es| == 1 then es[0] else es[0] + [sep] + Join(es[1..], sep)
  }

  /** The pieces between delimiters, empty ones included. */
  ghost function Split(s: string, delim: char): (r: seq<string>)
    ensures |r| > 0
  {
    if s == "" then [""]
    else
      var f := Split(s[..|s| - 1], delim);
      var c := s[|s| - 1];
      if c == delim then f + [""] else f[..|f| - 1] + [f[|f| - 1] + [c]]
  }

  ghost function NonEmpty(es: seq<string>): seq<string> {
    if es == [] then [] else (if es[0] == "" then [] else [es[0]]) + NonEmpty(es[1..])
  }

  ghost predicate EndsIn(s: string, delim: char) {
    s != "" && s[|s| - 1] == delim
  }

  ghost predicate Leading(s: string, delim: char) {
    s != "" && s[0] == delim
  }

  ghost predicate Doubled(s: string, delim: char) {
    exists i :: 0 <= i < |s| - 1 && s[i] == delim && s[i + 1] == delim
  }

  lemma {:induction false} NonEmptyConcat(a: seq<string>, b: seq<string>)
    ensures NonEmpty(a + b) == NonEmpty(a) + NonEmpty(b)
  {
    if a == [] {
      assert a + b == b;
    } else {
      NonEmptyConcat(a[1..], b);
      assert (a + b)[0] == a[0] && (a + b)[1..] == a[1..] + b;
      Regroup(if a[0] == "" then [] else [a[0]], NonEmpty(a[1..]), NonEmpty(b));
    }
  }

  lemma NonEmptyOne(e: string)
    ensures NonEmpty([e]) == if e == "" then [] else [e]
  {
  }

  lemma {:induction false} NonEmptyAll(es: seq<string>)
    requires forall i :: 0 <= i < |es| ==> es[i] != ""
    ensures NonEmpty(es) == es
  {
    if es != [] {
      NonEmptyAll(es[1..]);
    }
  }

  lemma {:induction false} NonEmptyMembers(es: seq<string>)
    ensures forall e :: e in NonEmpty(es) <==> e in es && e != ""
  {
    if es != [] {
      NonEmptyMembers(es[1..]);
      assert es == [es[0]] + es[1..];
    }
  }

  lemma {:induction false} JoinConcat(a: seq<string>, b: seq<string>, sep: char)
    requires a != [] && b != []
    ensures Join(a + b, sep) == Join(a, sep) + [sep] + Join(b, sep)
  {
    assert (a + b)[0] == a[0] && (a + b)[1..] == a[1..] + b;
    if |a| == 1 {
      assert a[1..] + b == b;
    } else {
      JoinConcat(a[1..], b, sep);
      Regroup(a[0] + [sep], Join(a[1..], sep), [sep] + Join(b, sep));
      Regroup(Join(a[1..], sep), [sep], Join(b, sep));
      Regroup(Join(a, sep), [sep], Join(b, sep));
    }
  }

  lemma JoinOne(e: string, sep: char)
    ensures Join([e], sep) == e
  {
  }

  lemma JoinLast(a: seq<string>, e: string, sep: char)
    ensures Join(a + [e], sep) == if a == [] then e else Join(a, sep) + [sep] + e
  {
    if a == [] {
      assert a + [e] == [e];
    } else {
      JoinConcat(a, [e], sep);
    }
  }

  /** A character more in the last piece is one more in the joined text. */
  lemma JoinGrows(a: seq<string>, e: string, c: char, sep: char)
    ensures Join(a + [e + [c]], sep) == Join(a + [e], sep) + [c]
  {
    JoinLast(a, e + [c], sep);
    JoinLast(a, e, sep);
    Regroup(Join(a, sep) + [sep], e, [c]);
  }

  lemma {:induction false} JoinClean(es: seq<string>, sep: char)
    requires AllClean(es) && sep != EOS
    ensures Clean(Join(es, sep))
  {
    if |es| > 1 {
      JoinClean(es[1..], sep);
    }
  }

  /** The finished pieces and the open one. */
  ghost function Closed(s: string, delim: char): seq<string> {
    var f := Split(s, delim);
    f[..|f| - 1]
  }

  ghost function Last(s: string, delim: char): string {
    var f := Split(s, delim);
    f[|f| - 1]
  }

  lemma SplitParts(s: string, delim: char)
    ensures Split(s, delim) == Closed(s, delim) + [Last(s, delim)]
  {
  }

  lemma SplitStep(s: string, c: char, delim: char)
    ensures c == delim ==> Closed(s + [c], delim) == Split(s, delim) && Last(s + [c], delim) == ""
    ensures c != delim ==> Closed(s + [c], delim) == Closed(s, delim) && Last(s + [c], delim) == Last(s, delim) + [c]
  {
    assert (s + [c])[..|s + [c]| - 1] == s;
  }

  lemma {:induction false} SplitLast(s: string, delim: char)
    ensures Last(s, delim) == "" <==> s == "" || EndsIn(s, delim)
  {
    if s != "" {
      var t, c := s[..|s| - 1], s[|s| - 1];
      assert s == t + [c];
      SplitStep(t, c, delim);
    }
  }

  /** Splitting loses nothing: the pieces hold no delimiter and join back to the string. */
  lemma {:induction false} SplitJoin(s: string, delim: char)
    ensures Join(Split(s, delim), delim) == s
    ensures forall i :: 0 <= i < |Split(s, delim)| ==> delim !in Split(s, delim)[i]
  {
    if s != "" {
      var t, c := s[..|s| - 1], s[|s| - 1];
      assert s == t + [c];
      SplitJoin(t, delim);
      SplitStep(t, c, delim);
      SplitParts(s, delim);
      SplitParts(t, delim);
      if c == delim {
        JoinConcat(Split(t, delim), [""], delim);
      } else {
        JoinGrows(Closed(t, delim), Last(t, delim), c, delim);
      }
    }
  }

  lemma {:induction false} SplitClean(s: string, delim: char)
    requires Clean(s)
    ensures AllClean(Split(s, delim))
  {
    if s != "" {
      SplitClean(s[..|s| - 1], delim);
    }
  }

  /** One more character either changes nothing, or leaves a piece that is not empty. */
  lemma NonEmptyStep(t: string, c: char, delim: char)
    ensures c == delim ==> NonEmpty(Split(t + [c], delim)) == NonEmpty(Split(t, delim))
    ensures c != delim ==> NonEmpty(Split(t + [c], delim)) != []
  {
    SplitStep(t, c, delim);
    SplitParts(t + [c], delim);
    var last := Last(t + [c], delim);
    NonEmptyConcat(Closed(t + [c], delim), [last]);
    NonEmptyOne(last);
  }

  lemma {:induction false} SomeText(s: string, delim: char)
    ensures NonEmpty(Split(s, delim)) == [] <==> forall i :: 0 <= i < |s| ==> s[i] == delim
  {
    if s != "" {
      var t, c := s[..|s| - 1], s[|s| - 1];
      assert s == t + [c];
      SomeText(t, delim);
      NonEmptyStep(t, c, delim);
      AllSnoc(t, c, delim);
    }
  }

  lemma AllSnoc(t: string, c: char, d: char)
    ensures (forall i :: 0 <= i < |t + [c]| ==> (t + [c])[i] == d) <==> c == d && forall i :: 0 <= i < |t| ==> t[i] == d
  {
    var s := t + [c];
    assert s[|t|] == c && forall i :: 0 <= i < |t| ==> s[i] == t[i];
  }

  /** Joining entries of which only the last may be empty never yields a leading or a doubled
      delimiter. */
  lemma {:induction false} JoinTidy(es: seq<string>, delim: char)
    requires |es| > 0 && es[0] != "" && forall i :: 0 <= i < |es| ==> delim !in es[i]
    requires forall i :: 0 <= i < |es| - 1 ==> es[i] != ""
    ensures !Leading(Join(es, delim), delim) && !Doubled(Join(es, delim), delim)
  {
    var j := Join(es, delim);
    assert j[0] == es[0][0] && es[0][0] in es[0];
    if |es| == 1 {
      assert forall i :: 0 <= i < |j| ==> j[i] in es[0];
    } else if es[1] == "" {
      assert |es| == 2;
      assert es[1..] == [""];
      JoinOne("", delim);
      assert j == es[0] + [delim];
      assert forall i :: 0 <= i < |es[0]| ==> j[i] == es[0][i] && j[i] in es[0];
    } else {
      var rest := Join(es[1..], delim);
      JoinTidy(es[1..], delim);
      assert j == es[0] + [delim] + rest;
      TidyGlue(es[0], rest, delim);
    }
  }

  lemma TidyGlue(e: string, rest: string, delim: char)
    requires e != "" && delim !in e && !Leading(rest, delim) && !Doubled(rest, delim)
    ensures !Doubled(e + [delim] + rest, delim)
  {
    var j := e + [delim] + rest;
    forall i | 0 <= i < |j| - 1 ensures !(j[i] == delim && j[i + 1] == delim) {
      if i < |e| {
        assert j[i] == e[i] && e[i] in e;
      } else if i > |e| {
        assert j[i] == rest[i - |e| - 1] && j[i + 1] == rest[i - |e|];
      } else if i + 1 < |j| {
        assert j[i + 1] == rest[0];
      }
    }
  }

  /** Every piece but the last of a string with no leading or doubled delimiter is non-empty. */
  lemma {:induction false} TidySplit(s: string, delim: char)
    requires !Leading(s, delim) && !Doubled(s, delim)
    ensures forall i :: 0 <= i < |Closed(s, delim)| ==> Closed(s, delim)[i] != ""
  {
    if s != "" {
      var t, c := s[..|s| - 1], s[|s| - 1];
      assert s == t + [c];
      assert forall i :: 0 <= i < |t| ==> t[i] == s[i];
      TidySplit(t, delim);
      SplitStep(t, c, delim);
      if c == delim {
        SplitParts(t, delim);
        SplitLast(t, delim);
        assert t != "";
        assert s[|t| - 1] == t[|t| - 1] && s[|t|] == delim;
      }
    }
  }

  // ----- splitting from the left

  /** One more character at the end of a split string. */
  ghost function Snoc(f: seq<string>, c: char, delim: char): seq<string>
    requires f != []
  {
    if c == delim then f + [""] else f[..|f| - 1] + [f[|f| - 1] + [c]]
  }

  lemma SplitSnoc(s: string, c: char, delim: char)
    ensures Split(s + [c], delim) == Snoc(Split(s, delim), c, delim)
  {
    assert (s + [c])[..|s + [c]| - 1] == s;
  }

  lemma SnocOfCons(e: string, f: seq<string>, c: char, delim: char)
    requires f != []
    ensures Snoc([e] + f, c, delim) == [e] + Snoc(f, c, delim)
  {
    var g := [e] + f;
    assert g[..|g| - 1] == [e] + f[..|f| - 1] && g[|g| - 1] == f[|f| - 1];
  }

  lemma {:induction false} SplitLeft(e: string, rest: string, delim: char)
    requires delim !in e
    ensures Split(e + [delim] + rest, delim) == [e] + Split(rest, delim)
    decreases |rest|
  {
    if rest == "" {
      SplitWhole(e, delim);
      assert e + [delim] + rest == e + [delim];
      SplitSnoc(e, delim, delim);
    } else {
      var t, c := rest[..|rest| - 1], rest[|rest| - 1];
      SplitLeft(e, t, delim);
      assert rest == t + [c];
      SplitLeftStep(e, t, c, delim);
    }
  }

  lemma SplitLeftStep(e: string, t: string, c: char, delim: char)
    requires Split(e + [delim] + t, delim) == [e] + Split(t, delim)
    ensures Split(e + [delim] + (t + [c]), delim) == [e] + Split(t + [c], delim)
  {
    var s := e + [delim] + t;
    assert e + [delim] + (t + [c]) == s + [c];
    SplitSnoc(s, c, delim);
    SplitSnoc(t, c, delim);
    SnocOfCons(e, Split(t, delim), c, delim);
  }

  lemma {:induction false} SplitWhole(e: string, delim: char)
    requires delim !in e
    ensures Split(e, delim) == [e]
  {
    if e != "" {
      var t, c := e[..|e| - 1], e[|e| - 1];
      assert e == t + [c];
      assert c in e;
      SplitWhole(t, delim);
      SplitStep(t, c, delim);
      SplitParts(e, delim);
    }
  }

  lemma {:induction false} SplitOfJoin(es: seq<string>, delim: char)
    requires es != [] && forall i :: 0 <= i < |es| ==> delim !in es[i]
    ensures Split(Join(es, delim), delim) == es
  {
    if |es| == 1 {
      SplitWhole(es[0], delim);
    } else {
      SplitOfJoin(es[1..], delim);
      SplitLeft(es[0], Join(es[1..], delim), delim);
    }
  }
}
