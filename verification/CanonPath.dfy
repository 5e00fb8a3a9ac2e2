/** Normalising a search path: canonicalize_path. */
module CanonPath {
  import opened Common
  import opened Strings
  import opened SearchPath

  const SLASH: char := '/'

  /** The character after position i, as C reads it. */
  function Peek(s: string, i: nat): char {
    if i + 1 < |s| then s[i + 1] else EOS
  }

  /** What the loop still writes for the rest of a path, given whether anything is written yet. */
  ghost function Canon(s: string, started: bool): string {
    if s == "" then ""
    else
      var c, n := s[0], Peek(s, 0);
      if c == PATHSEP && (!started || n == PATHSEP || n == EOS) then Canon(s[1..], started)
      else if c != SLASH then [c] + Canon(s[1..], true)
      else if n != PATHSEP && n != EOS && n != SLASH then [SLASH] + Canon(s[1..], true)
      else Canon(s[1..], started)
  }

  /** Whether the loop writes the character at a position, given whether it has written any. */
  predicate Writes(path: string, src: nat, started: bool)
    requires src < |path|
  {
    var c, n := path[src], Peek(path, src);
    if c == PATHSEP then started && n != PATHSEP && n != EOS
    else c != SLASH || (n != PATHSEP && n != EOS && n != SLASH)
  }

  /** canonicalize_path: one pass that never writes past the length of its input. */
  method CanonicalizePath(path: string) returns (canonical: string)
    requires Clean(path)
    ensures canonical == Canon(path, false) && |canonical| <= |path|
  {
    var buf := new char[1 + |path|];
    var dest := 0;
    for src := 0 to |path|
      invariant 0 <= dest <= src
      invariant buf[..dest] + Canon(path[src..], dest > 0) == Canon(path, false)
    {
      CanonAt(path, src, buf[..dest], dest > 0);
      ghost var was := buf[..dest];
      var c, n := path[src], Peek(path, src);
      if c == PATHSEP && (dest == 0 || n == PATHSEP || n == EOS) {
        continue;
      }
      if c != SLASH {
        buf[dest] := c;
        dest := dest + 1;
        assert buf[..dest] == was + [path[src]];
      } else if n != PATHSEP && n != EOS && n != SLASH {
        buf[dest] := SLASH;
        dest := dest + 1;
        assert buf[..dest] == was + [path[src]];
      }
    }
    buf[dest] := EOS;
    canonical := buf[..dest];
    assert path[|path|..] == "";
  }

  lemma CanonAt(path: string, src: nat, done: string, started: bool)
    requires src < |path|
    ensures done + Canon(path[src..], started) ==
            if Writes(path, src, started) then (done + [path[src]]) + Canon(path[src + 1..], true)
            else done + Canon(path[src + 1..], started)
  {
    var rest := path[src..];
    assert rest[1..] == path[src + 1..] && Peek(rest, 0) == Peek(path, src);
    Regroup(done, [path[src]], Canon(path[src + 1..], true));
  }

  // ----- one element

  /** An element without doubled and trailing slashes. */
  ghost function Squash(e: string): string {
    if e == "" then ""
    else if e[0] != SLASH then [e[0]] + Squash(e[1..])
    else if |e| > 1 && e[1] != SLASH then [SLASH] + Squash(e[1..])
    else Squash(e[1..])
  }

  lemma {:induction false} SquashSnoc(e: string, c: char)
    ensures Squash(e + [c]) ==
            if c == SLASH then Squash(e) else Squash(e) + (if EndsIn(e, SLASH) then [SLASH] else []) + [c]
  {
    if e == "" {
      assert e + [c] == [c];
    } else {
      SquashSnoc(e[1..], c);
      assert (e + [c])[1..] == e[1..] + [c];
    }
  }

  /** The independent reading of Squash: the non-empty parts between slashes, joined by single
      slashes, with the leading slash kept. */
  ghost function Rooted(e: string): string {
    FromParts(Leading(e, SLASH), NonEmpty(Split(e, SLASH)))
  }

  ghost function FromParts(root: bool, parts: seq<string>): string {
    if parts == [] then "" else if root then [SLASH] + Join(parts, SLASH) else Join(parts, SLASH)
  }

  lemma PartGrows(root: bool, done: seq<string>, last: string, c: char)
    ensures FromParts(root, done + [last + [c]]) == FromParts(root, done + [last]) + [c]
  {
    JoinLast(done, last + [c], SLASH);
    JoinLast(done, last, SLASH);
    if done != [] {
      var j := Join(done, SLASH) + [SLASH];
      assert j + (last + [c]) == (j + last) + [c];
      assert [SLASH] + ((j + last) + [c]) == ([SLASH] + (j + last)) + [c];
    } else {
      assert [SLASH] + (last + [c]) == ([SLASH] + last) + [c];
    }
  }

  lemma PartBegins(root: bool, done: seq<string>, c: char)
    requires done != []
    ensures FromParts(root, done + [[c]]) == FromParts(root, done) + [SLASH] + [c]
  {
    JoinLast(done, [c], SLASH);
    var j := Join(done, SLASH);
    assert [SLASH] + (j + [SLASH] + [c]) == ([SLASH] + j) + [SLASH] + [c];
  }

  lemma {:induction false} SquashIsRooted(e: string)
    ensures Squash(e) == Rooted(e)
  {
    if e == "" {
      NonEmptyOne("");
    } else {
      var t, c := e[..|e| - 1], e[|e| - 1];
      assert e == t + [c];
      SquashIsRooted(t);
      SquashSnoc(t, c);
      RootedSnoc(t, c);
    }
  }

  /** One more character: it extends the last part, or begins one. */
  lemma PartsGrow(root: bool, ends: bool, done: seq<string>, last: string, c: char)
    requires ends ==> last == ""
    requires last == "" && done != [] ==> ends
    requires last == "" && done == [] ==> root == ends
    ensures FromParts(root, done + [last + [c]]) ==
            FromParts(root, if last == "" then done else done + [last]) + (if ends then [SLASH] else []) + [c]
  {
    if last != "" {
      PartGrows(root, done, last, c);
    } else {
      assert last + [c] == [c];
      if done != [] {
        PartBegins(root, done, c);
      } else {
        assert done + [[c]] == [[c]];
        JoinOne([c], SLASH);
      }
    }
  }

  lemma RootedSnoc(t: string, c: char)
    ensures Rooted(t + [c]) ==
            if c == SLASH then Rooted(t) else Rooted(t) + (if EndsIn(t, SLASH) then [SLASH] else []) + [c]
  {
    var done, last := NonEmpty(Closed(t, SLASH)), Last(t, SLASH);
    PartsSnoc(t, c);
    LeadingSnoc(t, c);
    if c != SLASH {
      LastEmpty(t);
      PartsGrow(Leading(t, SLASH), EndsIn(t, SLASH), done, last, c);
    }
  }

  lemma LeadingSnoc(t: string, c: char)
    ensures Leading(t + [c], SLASH) == if t == "" then c == SLASH else Leading(t, SLASH)
    ensures t == "" ==> NonEmpty(Split(t, SLASH)) == []
  {
    assert t != "" ==> (t + [c])[0] == t[0];
    if t == "" {
      NonEmptyOne("");
    }
  }

  lemma LastEmpty(t: string)
    ensures EndsIn(t, SLASH) ==> Last(t, SLASH) == ""
    ensures Last(t, SLASH) == "" && NonEmpty(Closed(t, SLASH)) != [] ==> EndsIn(t, SLASH)
    ensures Last(t, SLASH) == "" && NonEmpty(Closed(t, SLASH)) == [] ==> Leading(t, SLASH) == EndsIn(t, SLASH)
  {
    SplitLast(t, SLASH);
    if Last(t, SLASH) == "" {
      SplitParts(t, SLASH);
      NonEmptyConcat(Closed(t, SLASH), [""]);
      NonEmptyOne("");
      SomeText(t, SLASH);
    }
  }

  lemma PartsSnoc(t: string, c: char)
    ensures var done, last := NonEmpty(Closed(t, SLASH)), Last(t, SLASH);
            && NonEmpty(Split(t, SLASH)) == (if last == "" then done else done + [last])
            && NonEmpty(Split(t + [c], SLASH)) ==
               (if c == SLASH then NonEmpty(Split(t, SLASH)) else done + [last + [c]])
  {
    var last := Last(t, SLASH);
    SplitStep(t, c, SLASH);
    SplitParts(t, SLASH);
    SplitParts(t + [c], SLASH);
    NonEmptyConcat(Closed(t, SLASH), [last]);
    NonEmptyConcat(Closed(t + [c], SLASH), [Last(t + [c], SLASH)]);
    NonEmptyOne(last);
    NonEmptyOne(Last(t + [c], SLASH));
  }

  lemma NonEmptyCons(e: string, rest: seq<string>)
    ensures NonEmpty([e] + rest) == if e == "" then NonEmpty(rest) else [e] + NonEmpty(rest)
  {
    assert ([e] + rest)[1..] == rest;
  }

  // ----- whole paths

  ghost predicate Ends(tail: string) {
    tail == "" || tail[0] == PATHSEP
  }

  lemma {:induction false} CanonElement(e: string, tail: string, started: bool)
    requires PATHSEP !in e && Clean(e) && Ends(tail)
    ensures Canon(e + tail, started) == Squash(e) + Canon(tail, started || Squash(e) != "")
  {
    if e == "" {
      assert e + tail == tail;
    } else {
      CanonElementStep(e, tail, started);
      CanonElement(e[1..], tail, started);
      CanonElement(e[1..], tail, true);
      Regroup([e[0]], Squash(e[1..]), Canon(tail, true));
    }
  }

  lemma CanonElementStep(e: string, tail: string, started: bool)
    requires e != "" && PATHSEP !in e && Clean(e) && Ends(tail)
    ensures Canon(e + tail, started) ==
            if e[0] != SLASH || (|e| > 1 && e[1] != SLASH) then [e[0]] + Canon(e[1..] + tail, true)
            else Canon(e[1..] + tail, started)
  {
    var s := e + tail;
    assert e[0] in e && s[0] == e[0] && s[1..] == e[1..] + tail;
    if |e| > 1 {
      assert s[1] == e[1] && e[1] in e;
    } else if tail != "" {
      assert s[1] == tail[0];
    }
  }

  ghost function SquashAll(es: seq<string>): (r: seq<string>)
    ensures |r| == |es| && forall i :: 0 <= i < |es| ==> r[i] == Squash(es[i])
  {
    seq(|es|, i requires 0 <= i < |es| => Squash(es[i]))
  }

  /** Every further non-empty element, after a separator. */
  ghost function More(es: seq<string>): string {
    if es == [] then ""
    else (if es[0] == "" then "" else [PATHSEP] + Squash(es[0])) + More(es[1..])
  }

  lemma {:induction false} MoreIsJoin(e: string, es: seq<string>)
    ensures e + More(es) == Join([e] + SquashAll(NonEmpty(es)), PATHSEP)
    decreases |es|
  {
    if es == [] {
      assert [e] + SquashAll(NonEmpty(es)) == [e];
    } else if es[0] == "" {
      MoreIsJoin(e, es[1..]);
      assert NonEmpty(es) == NonEmpty(es[1..]) && More(es) == More(es[1..]);
    } else {
      MoreIsJoin(Squash(es[0]), es[1..]);
      SquashAllCons(es[0], NonEmpty(es[1..]));
      JoinCons(e, [Squash(es[0])] + SquashAll(NonEmpty(es[1..])));
      MoreGroup(e, Squash(es[0]), More(es[1..]));
    }
  }

  lemma SquashAllCons(e: string, es: seq<string>)
    ensures SquashAll([e] + es) == [Squash(e)] + SquashAll(es)
  {
  }

  lemma MoreGroup(e: string, f: string, more: string)
    ensures e + (([PATHSEP] + f) + more) == e + [PATHSEP] + (f + more)
  {
  }

  /** The first element of a path, and what follows it. */
  lemma FirstElement(s: string) returns (e: string, tail: string)
    ensures s == e + tail && PATHSEP !in e && Ends(tail)
    ensures tail == "" ==> Split(s, PATHSEP) == [e]
    ensures tail != "" ==> Split(s, PATHSEP) == [e] + Split(tail[1..], PATHSEP)
  {
    var i := 0;
    while i < |s| && s[i] != PATHSEP
      invariant 0 <= i <= |s| && PATHSEP !in s[..i]
    {
      i := i + 1;
    }
    e, tail := s[..i], s[i..];
    SplitFirst(e, tail);
    assert s == e + tail;
  }

  lemma SplitFirst(e: string, tail: string)
    requires PATHSEP !in e && Ends(tail)
    ensures tail == "" ==> Split(e + tail, PATHSEP) == [e]
    ensures tail != "" ==> Split(e + tail, PATHSEP) == [e] + Split(tail[1..], PATHSEP)
  {
    if tail == "" {
      SplitWhole(e, PATHSEP);
      assert e + tail == e;
    } else {
      SplitLeft(e, tail[1..], PATHSEP);
      assert e + tail == e + [PATHSEP] + tail[1..];
    }
  }

  lemma {:induction false} CanonMore(rest: string)
    requires Clean(rest)
    ensures Canon([PATHSEP] + rest, true) == More(Split(rest, PATHSEP))
    decreases |rest|
  {
    var e, tail := FirstElement(rest);
    CleanParts(rest, e, tail);
    CanonSepElement(e, tail);
    if tail == "" {
      MoreLast(e);
    } else {
      CanonMore(tail[1..]);
      assert [PATHSEP] + tail[1..] == tail;
      MoreCons(e, Split(tail[1..], PATHSEP));
    }
  }

  /** A separator and the element behind it: nothing is written for an empty element. */
  lemma CanonSepElement(e: string, tail: string)
    requires PATHSEP !in e && Clean(e) && Clean(e + tail) && Ends(tail)
    ensures Canon([PATHSEP] + (e + tail), true) ==
            (if e == "" then "" else [PATHSEP] + Squash(e)) + Canon(tail, true)
  {
    CanonAfterSep(e + tail);
    if e == "" {
      assert e + tail == tail;
    } else {
      assert (e + tail)[0] == e[0] && e[0] in e;
      CanonElement(e, tail, true);
      Regroup([PATHSEP], Squash(e), Canon(tail, true));
    }
  }

  lemma MoreLast(e: string)
    ensures More([e]) == (if e == "" then "" else [PATHSEP] + Squash(e)) + Canon("", true)
  {
    assert [e][1..] == [];
  }

  lemma MoreCons(e: string, es: seq<string>)
    ensures More([e] + es) == (if e == "" then "" else [PATHSEP] + Squash(e)) + More(es)
  {
    assert ([e] + es)[1..] == es;
  }

  /** A separator is written when an element follows it. */
  lemma CanonAfterSep(rest: string)
    requires Clean(rest)
    ensures Canon([PATHSEP] + rest, true) ==
            if rest == "" || rest[0] == PATHSEP then Canon(rest, true) else [PATHSEP] + Canon(rest, true)
  {
    var s := [PATHSEP] + rest;
    assert s[1..] == rest;
    if rest != "" {
      assert s[1] == rest[0] && rest[0] in rest;
    }
  }

  lemma CleanParts(s: string, e: string, tail: string)
    requires Clean(s) && s == e + tail
    ensures Clean(e) && Clean(tail) && (tail != "" ==> Clean(tail[1..]))
  {
  }

  ghost function DropLeading(es: seq<string>): seq<string> {
    if es != [] && es[0] == "" then DropLeading(es[1..]) else es
  }

  /** The elements of a canonical path: the non-empty ones without doubled and trailing slashes,
      from the first that has something left. */
  ghost function Elements(path: string): seq<string> {
    DropLeading(SquashAll(NonEmpty(Split(path, PATHSEP))))
  }

  /** canonicalize_path joins those elements, whatever the path. */
  lemma {:induction false} CanonIsElements(s: string)
    requires Clean(s)
    ensures Canon(s, false) == Join(Elements(s), PATHSEP)
    decreases |s|
  {
    var e, tail := FirstElement(s);
    CleanParts(s, e, tail);
    CanonElement(e, tail, false);
    var rest := if tail == "" then [] else Split(tail[1..], PATHSEP);
    assert Split(s, PATHSEP) == [e] + rest;
    if Squash(e) != "" {
      if tail != "" {
        CanonMore(tail[1..]);
        assert tail == [PATHSEP] + tail[1..];
      }
      MoreIsJoin(Squash(e), rest);
      ElementsStart(e, rest);
    } else {
      if tail != "" {
        CanonIsElements(tail[1..]);
      }
      ElementsSkip(e, rest);
    }
  }

  lemma ElementsStart(e: string, rest: seq<string>)
    requires Squash(e) != ""
    ensures DropLeading(SquashAll(NonEmpty([e] + rest))) == [Squash(e)] + SquashAll(NonEmpty(rest))
  {
    NonEmptyCons(e, rest);
    SquashAllCons(e, NonEmpty(rest));
  }

  lemma ElementsSkip(e: string, rest: seq<string>)
    requires Squash(e) == ""
    ensures DropLeading(SquashAll(NonEmpty([e] + rest))) == DropLeading(SquashAll(NonEmpty(rest)))
  {
    NonEmptyCons(e, rest);
    if e != "" {
      var all := SquashAll(NonEmpty([e] + rest));
      assert all == [""] + SquashAll(NonEmpty(rest));
      assert all[1..] == SquashAll(NonEmpty(rest));
    }
  }

  // ----- doing it twice

  lemma {:induction false} SquashTwice(e: string)
    ensures Squash(Squash(e)) == Squash(e)
    ensures Leading(Squash(e), SLASH) ==> Leading(e, SLASH) && |Squash(e)| > 1 && Squash(e)[1] != SLASH
  {
    if e != "" {
      SquashTwice(e[1..]);
      var q := Squash(e[1..]);
      if e[0] != SLASH {
        assert ([e[0]] + q)[1..] == q;
      } else if |e| > 1 && e[1] != SLASH {
        assert q[0] == e[1];
        assert ([SLASH] + q)[1..] == q;
      }
    }
  }

  lemma {:induction false} SquashSepFree(e: string)
    requires PATHSEP !in e && Clean(e)
    ensures PATHSEP !in Squash(e) && Clean(Squash(e))
  {
    if e != "" {
      SquashSepFree(e[1..]);
    }
  }

  lemma {:induction false} DropLeadingShape(es: seq<string>)
    ensures DropLeading(es) == [] || DropLeading(es)[0] != ""
    ensures forall x :: x in DropLeading(es) ==> x in es
  {
    if es != [] {
      DropLeadingShape(es[1..]);
    }
  }

  /** Every element is its own normal form, holds no separator, and the first is not empty. */
  lemma ElementsShape(path: string)
    requires Clean(path)
    ensures var es := Elements(path);
            && (es == [] || es[0] != "")
            && forall i :: 0 <= i < |es| ==> Squash(es[i]) == es[i] && PATHSEP !in es[i] && Clean(es[i])
  {
    var ne := NonEmpty(Split(path, PATHSEP));
    var all := SquashAll(ne);
    var es := Elements(path);
    DropLeadingShape(all);
    NonEmptyMembers(Split(path, PATHSEP));
    SplitJoin(path, PATHSEP);
    SplitClean(path, PATHSEP);
    forall i | 0 <= i < |es| ensures Squash(es[i]) == es[i] && PATHSEP !in es[i] && Clean(es[i]) {
      assert es[i] in all;
      var j :| 0 <= j < |all| && all[j] == es[i];
      assert ne[j] in ne;
      SquashTwice(ne[j]);
      SquashSepFree(ne[j]);
    }
  }

  lemma {:induction false} SquashedAlready(es: seq<string>)
    requires forall i :: 0 <= i < |es| ==> Squash(es[i]) == es[i]
    ensures SquashAll(NonEmpty(es)) == NonEmpty(es)
    ensures DropLeading(NonEmpty(es)) == NonEmpty(es)
  {
    NonEmptyMembers(es);
    var ne := NonEmpty(es);
    forall i | 0 <= i < |ne| ensures Squash(ne[i]) == ne[i] {
      assert ne[i] in ne;
    }
    if ne != [] {
      assert ne[0] in ne;
    }
  }

  /** Leaving out empty elements, of which the first is none, shortens the path. */
  lemma {:induction false} NonEmptyShrinks(es: seq<string>)
    requires es != [] && es[0] != ""
    ensures |Join(NonEmpty(es), PATHSEP)| <= |Join(es, PATHSEP)|
    ensures "" in es ==> |Join(NonEmpty(es), PATHSEP)| < |Join(es, PATHSEP)|
    decreases |es|
  {
    var e, rest := es[0], es[1..];
    assert es == [e] + rest;
    NonEmptyCons(e, rest);
    if rest == [] {
    } else if rest[0] == "" {
      assert rest == [""] + rest[1..];
      NonEmptyCons("", rest[1..]);
      NonEmptyCons(e, rest[1..]);
      NonEmptyShrinks([e] + rest[1..]);
      JoinDropEmpty(e, rest[1..]);
      assert es == [e, ""] + rest[1..];
    } else {
      NonEmptyShrinks(rest);
      NonEmptyCons(rest[0], rest[1..]);
      assert rest == [rest[0]] + rest[1..];
      JoinCons(e, rest);
      JoinCons(e, NonEmpty(rest));
    }
  }

  lemma JoinCons(e: string, rest: seq<string>)
    requires rest != []
    ensures Join([e] + rest, PATHSEP) == e + [PATHSEP] + Join(rest, PATHSEP)
  {
    assert ([e] + rest)[1..] == rest;
  }

  lemma JoinDropEmpty(e: string, rest: seq<string>)
    ensures |Join([e] + rest, PATHSEP)| < |Join([e, ""] + rest, PATHSEP)|
  {
    var long := [e, ""] + rest;
    assert long[1..] == [""] + rest;
    if rest == [] {
      assert [e] + rest == [e] && long[1..] == [""];
    } else {
      assert ([e] + rest)[1..] == rest && ([""] + rest)[1..] == rest;
    }
  }

  lemma IdempotentElements(path: string)
    requires Clean(path)
    ensures Canon(Canon(path, false), false) == Canon(path, false) <==> "" !in Elements(path)
  {
    var es := Elements(path);
    CanonIsElements(path);
    ElementsShape(path);
    if es == [] {
      assert Join(es, PATHSEP) == "";
    } else {
      var once := Join(es, PATHSEP);
      JoinClean(es, PATHSEP);
      SplitOfJoin(es, PATHSEP);
      CanonIsElements(once);
      SquashedAlready(es);
      assert Elements(once) == NonEmpty(es);
      NonEmptyShrinks(es);
      if "" !in es {
        assert forall i :: 0 <= i < |es| ==> es[i] in es;
        NonEmptyAll(es);
      }
    }
  }

  /** An element with a character other than a slash. */
  ghost predicate Text(e: string) {
    exists i :: 0 <= i < |e| && e[i] != SLASH
  }

  ghost predicate TextBefore(es: seq<string>, i: int, j: int) {
    0 <= i < j < |es| && Text(es[i]) && !Text(es[j])
  }

  /** An element of slashes only comes after one with text. */
  ghost predicate SlashesAfterText(es: seq<string>) {
    exists i, j :: TextBefore(es, i, j)
  }

  lemma {:induction false} SquashEmpty(e: string)
    ensures Squash(e) != "" <==> Text(e)
  {
    if e != "" && e[0] == SLASH {
      SquashEmpty(e[1..]);
      assert e == [e[0]] + e[1..];
      if |e| > 1 && e[1] != SLASH {
        assert Text(e);
      } else if Text(e) {
        var i :| 0 <= i < |e| && e[i] != SLASH;
        assert e[1..][i - 1] == e[i];
      }
    }
  }

  /** What is left of the elements holds an empty one exactly when such an element is there. */
  lemma {:induction false} EmptyElement(es: seq<string>)
    ensures "" in DropLeading(SquashAll(es)) <==> SlashesAfterText(es)
  {
    if es != [] {
      var all, rest := SquashAll(es), es[1..];
      SquashEmpty(es[0]);
      assert all[1..] == SquashAll(rest);
      if Text(es[0]) {
        EmptyAfterText(es);
      } else {
        EmptyElement(rest);
        if SlashesAfterText(rest) {
          var i, j :| TextBefore(rest, i, j);
          assert TextBefore(es, i + 1, j + 1);
        }
        if SlashesAfterText(es) {
          var i, j :| TextBefore(es, i, j);
          assert TextBefore(rest, i - 1, j - 1);
        }
      }
    }
  }

  lemma EmptyAfterText(es: seq<string>)
    requires es != [] && Text(es[0])
    ensures "" in SquashAll(es) <==> SlashesAfterText(es)
  {
    var all := SquashAll(es);
    forall j | 0 <= j < |es| ensures all[j] == "" <==> TextBefore(es, 0, j) {
      SquashEmpty(es[j]);
    }
    if "" in all {
      var j :| 0 <= j < |all| && all[j] == "";
      assert TextBefore(es, 0, j);
    }
    if SlashesAfterText(es) {
      var i, j :| TextBefore(es, i, j);
      assert TextBefore(es, 0, j);
      assert all[j] in all;
    }
  }

  /** Canonicalising a second time changes nothing exactly when no element of the path that
      consists of slashes only comes after an element with some text. */
  lemma IdempotentExactly(path: string)
    requires Clean(path)
    ensures Canon(Canon(path, false), false) == Canon(path, false) <==>
            !SlashesAfterText(NonEmpty(Split(path, PATHSEP)))
  {
    IdempotentElements(path);
    EmptyElement(NonEmpty(Split(path, PATHSEP)));
  }

  /** It does change a path with such an element: a separator is left at the end. */
  lemma SecondPassShortens()
    ensures Canon("a:/", false) == "a:" && Canon("a:", false) == "a"
  {
    var s, t := "a:/", "a:";
    assert s[1..] == ":/" && ":/"[1..] == "/" && "/"[1..] == "";
    assert t[1..] == ":" && ":"[1..] == "";
    assert Canon("/", true) == "" && Canon(":/", true) == ":" && Canon(":", true) == "";
  }

  /** In particular a path whose non-empty elements all have text becomes these elements, each
      squashed, and stays that way. */
  lemma TextEverywhere(path: string)
    requires Clean(path)
    requires forall e :: e in Split(path, PATHSEP) && e != "" ==> Text(e)
    ensures Canon(path, false) == Join(SquashAll(NonEmpty(Split(path, PATHSEP))), PATHSEP)
    ensures Canon(Canon(path, false), false) == Canon(path, false)
  {
    var ne := NonEmpty(Split(path, PATHSEP));
    NonEmptyMembers(Split(path, PATHSEP));
    forall i | 0 <= i < |ne| ensures Text(ne[i]) {
      assert ne[i] in ne;
    }
    if ne != [] {
      SquashEmpty(ne[0]);
    }
    CanonIsElements(path);
    IdempotentExactly(path);
  }
}
