/** The user's search path and the calls that edit it. */
module UserPath {
  import opened Common
  import opened Strings
  import opened ArgzSpec
  import opened SearchPath
  import opened CanonPath
  import Argz

  /** lt_dladdsearchdir, lt_dlinsertsearchdir with its position as an offset, lt_dlsetsearchpath; a
      null directory or path is an empty one. */
  datatype Request =
    | Add(dir: string)
    | Insert(before: Option<int>, dir: string)
    | Set(path: string)

  /** The path afterwards, an error that leaves it alone, a failed assertion, or a step outside the
      vector. */
  datatype Answer = Done(path: Option<string>) | Rejected | Aborted | Undefined

  ghost function Edit(path: Option<string>, before: Option<nat>, dir: string): Answer {
    if dir == "" then Done(path)
    else if Canon(dir, false) == "" then Aborted
    else if path.None? then Done(Some(dir))
    else
      match Inserted(path.value, before, dir)
      case None => Undefined
      case Some(p) => Done(Some(p))
  }

  predicate Accepts(path: Option<string>, before: int) {
    path.Some? && 0 <= before < |path.value|
  }

  ghost function Respond(path: Option<string>, q: Request): Answer {
    match q
    case Add(dir) => Edit(path, None, dir)
    case Insert(None, dir) => Edit(path, None, dir)
    case Insert(Some(before), dir) => if Accepts(path, before) then Edit(path, Some(before), dir) else Rejected
    case Set(p) => Done(if p == "" then None else Some(Canon(p, false)))
  }

  ghost function Next(path: Option<string>, a: Answer): Option<string> {
    if a.Done? then a.path else path
  }

  ghost predicate CleanPath(path: Option<string>) {
    path.Some? ==> Clean(path.value)
  }

  class UserSearchPath {
    var path: Option<string>

    constructor ()
      ensures path.None?
    {
      path := None;
    }

    /** lt_dlpath_insertdir on the user's path */
    method InsertDirectory(before: Option<nat>, dir: string) returns (a: Answer)
      requires CleanPath(path) && Clean(dir) && (before.Some? ==> path.Some? && before.value < |path.value|)
      modifies this
      ensures a == Edit(old(path), before, dir) && path == Next(old(path), a) && CleanPath(path)
    {
      if dir == "" {
        return Done(path);
      }
      var canonical := CanonicalizePath(dir);
      if canonical == "" {
        return Aborted;
      }
      var path' := InsertDir(path, before, dir);
      if path.Some? {
        InsertedClean(path.value, before, dir);
      }
      if path'.None? {
        return Undefined;
      }
      path := path';
      return Done(path);
    }

    /** lt_dladdsearchdir */
    method AddSearchDir(dir: string) returns (a: Answer)
      requires CleanPath(path) && Clean(dir)
      modifies this
      ensures a == Respond(old(path), Add(dir)) && path == Next(old(path), a) && CleanPath(path)
    {
      a := InsertDirectory(None, dir);
    }

    /** lt_dlinsertsearchdir */
    method InsertSearchDir(before: Option<int>, dir: string) returns (a: Answer)
      requires CleanPath(path) && Clean(dir)
      modifies this
      ensures a == Respond(old(path), Insert(before, dir)) && path == Next(old(path), a) && CleanPath(path)
    {
      if before.None? {
        a := InsertDirectory(None, dir);
      } else if Accepts(path, before.value) {
        a := InsertDirectory(Some(before.value), dir);
      } else {
        a := Rejected;
      }
    }

    /** lt_dlsetsearchpath */
    method SetSearchPath(p: string) returns (a: Answer)
      requires CleanPath(path) && Clean(p)
      modifies this
      ensures a == Respond(old(path), Set(p)) && path == Next(old(path), a) && CleanPath(path)
    {
      path := None;
      if p != "" {
        var canonical := CanonicalizePath(p);
        CanonClean(p);
        path := Some(canonical);
      }
      return Done(path);
    }
  }

  lemma InsertedClean(path: string, before: Option<nat>, dir: string)
    requires Clean(path) && Clean(dir)
    ensures CleanPath(Inserted(path, before, dir))
  {
    if InVector(path, before) {
      EntriesClean(path, PATHSEP);
      JoinClean(NewEntries(path, before, dir), PATHSEP);
    }
  }

  lemma CanonClean(path: string)
    requires Clean(path)
    ensures Clean(Canon(path, false))
  {
    CanonIsElements(path);
    ElementsShape(path);
    JoinClean(Elements(path), PATHSEP);
  }

  // ----- what the requests make of the path

  /** A directory on an existing path: for every path its entries and the directory behind them, joined,
      or nothing when the path has no text. */
  lemma AddExactly(path: string, dir: string)
    requires dir != "" && Canon(dir, false) != ""
    ensures Respond(Some(path), Add(dir)) ==
            Done(Some(if HasText(path) then Join(Entries(path, PATHSEP) + [dir], PATHSEP) else ""))
    ensures Respond(Some(path), Insert(None, dir)) == Respond(Some(path), Add(dir))
  {
    AppendedPath(path, dir);
  }

  /** On a path without leading, trailing or doubled separators the directory becomes the last entry. */
  lemma AddSplits(path: string, dir: string)
    requires Normal(path) && dir != "" && PATHSEP !in dir && Canon(dir, false) != ""
    ensures var a := Respond(Some(path), Add(dir));
            a.Done? && a.path.Some? && Split(a.path.value, PATHSEP) == Split(path, PATHSEP) + [dir]
  {
    InsertedSplit(path, None, dir);
    var es := Split(path, PATHSEP);
    assert es[..|es|] + [dir] + es[|es|..] == es + [dir];
  }

  /** With a position it goes before the entry that contains the position or ends there. */
  lemma InsertSplits(path: string, before: nat, dir: string)
    requires Normal(path) && before < |path| && dir != "" && PATHSEP !in dir && Canon(dir, false) != ""
    ensures var a, es := Respond(Some(path), Insert(Some(before), dir)), Split(path, PATHSEP);
            && a.Done? && a.path.Some?
            && exists k :: 0 <= k < |es| && Argz.Around(es, before, k) &&
                 Split(a.path.value, PATHSEP) == es[..k] + [dir] + es[k..]
  {
    InsertedSplit(path, Some(before), dir);
  }

  /** The first directory becomes the path as it is; an empty one changes nothing; one without any
      text fails the assertion. */
  lemma AddEdges(path: Option<string>, dir: string)
    ensures Respond(path, Add("")) == Done(path)
    ensures dir != "" && Canon(dir, false) != "" ==> Respond(None, Add(dir)) == Done(Some(dir))
    ensures dir != "" && Canon(dir, false) == "" ==> Respond(path, Add(dir)) == Aborted
  {
  }

  /** A position is rejected exactly when it does not lie in the path. */
  lemma RejectedExactly(path: Option<string>, before: int, dir: string)
    ensures Respond(path, Insert(Some(before), dir)) == Rejected <==>
            path.None? || before < 0 || before >= |path.value|
  {
  }

  /** A path whose non-empty elements all have text becomes these elements, each with its slash runs
      collapsed and its trailing slashes removed. */
  lemma SetSplits(path: Option<string>, p: string)
    requires Clean(p) && HasText(p)
    requires forall e :: e in Split(p, PATHSEP) && e != "" ==> Text(e)
    ensures Respond(path, Set("")) == Done(None)
    ensures var a, es := Respond(path, Set(p)), NonEmpty(Split(p, PATHSEP));
            && a.Done? && a.path.Some? && |Split(a.path.value, PATHSEP)| == |es|
            && forall i :: 0 <= i < |es| ==> Split(a.path.value, PATHSEP)[i] == Rooted(es[i])
  {
    var es := NonEmpty(Split(p, PATHSEP));
    TextEverywhere(p);
    SomeText(p, PATHSEP);
    SplitJoin(p, PATHSEP);
    SplitClean(p, PATHSEP);
    NonEmptyMembers(Split(p, PATHSEP));
    forall i | 0 <= i < |es| ensures Squash(es[i]) == Rooted(es[i]) && PATHSEP !in Squash(es[i]) {
      assert es[i] in es;
      SquashIsRooted(es[i]);
      SquashSepFree(es[i]);
    }
    SplitOfJoin(SquashAll(es), PATHSEP);
  }

  // ----- when an accepted position is outside the vector

  /** An insertion steps outside its vector if and only if its offset is accepted and exceeds the length
      of the path and one, less the separators that argz_create_sep drops. */
  lemma UndefinedExactly(path: Option<string>, before: Option<int>, dir: string)
    requires CleanPath(path) && dir != "" && Canon(dir, false) != ""
    ensures Respond(path, Insert(before, dir)) == Undefined <==>
            && before.Some? && Accepts(path, before.value)
            && before.value > |path.value| + 1 - Dropped(path.value)
  {
    if before.Some? && Accepts(path, before.value) {
      InVectorExactly(path.value, before.value);
    }
  }

  /** The state after a sequence of requests, on a path that nobody has set. */
  ghost function PathAfter(qs: seq<Request>): Option<string> {
    if qs == [] then None
    else
      var path := PathAfter(qs[..|qs| - 1]);
      Next(path, Respond(path, qs[|qs| - 1]))
  }

  /** It happens: a directory is added with three separators in front, and the next one is inserted
      before its last character. */
  lemma OffsetOutside(dir: string)
    requires dir != "" && Canon(dir, false) != ""
    ensures PathAfter([Add(":::a")]) == Some(":::a")
    ensures Respond(PathAfter([Add(":::a")]), Insert(Some(3), dir)) == Undefined
  {
    var path := ":::a";
    assert [Add(path)][..0] == [];
    ThreeDropped();
    assert path[1..] == "::a" && "::a"[1..] == ":a" && ":a"[1..] == "a" && "a"[1..] == "";
    assert Canon("a", false) == "a";
    assert Canon(":a", false) == "a" && Canon("::a", false) == "a" && Canon(path, false) == "a";
    UndefinedExactly(Some(path), Some(3), dir);
  }

  lemma ThreeDropped()
    ensures Dropped(":::a") == 3
  {
    assert ":::a"[..3] == ":::" && ":::"[..2] == "::" && "::"[..1] == ":" && ":"[..0] == "";
    assert Dropped(":") == 1 && Dropped("::") == 2 && Dropped(":::") == 3;
  }

  // ----- requests that keep the path tidy

  ghost predicate TidyDir(dir: string) {
    dir == "" || (Normal(dir) && Canon(dir, false) != "")
  }

  /** Directories without leading, trailing or doubled separators; whole paths that have some text and
      no element of slashes only behind it. */
  ghost predicate Tidy(q: Request) {
    match q
    case Add(dir) => Clean(dir) && TidyDir(dir)
    case Insert(_, dir) => Clean(dir) && TidyDir(dir)
    case Set(p) =>
      var es := NonEmpty(Split(p, PATHSEP));
      Clean(p) && (p == "" || ((exists e :: e in es && Text(e)) && !SlashesAfterText(es)))
  }

  ghost predicate NormalPath(path: Option<string>) {
    path.Some? ==> Normal(path.value) && Clean(path.value)
  }

  lemma PieceNormal(e: string)
    requires e != "" && PATHSEP !in e
    ensures Normal(e)
  {
    assert e[0] in e && e[|e| - 1] in e;
    assert forall i :: 0 <= i < |e| ==> e[i] in e;
  }

  lemma GlueNormal(a: string, b: string)
    requires Normal(a) && Normal(b)
    ensures Normal(a + [PATHSEP] + b)
  {
    var s := a + [PATHSEP] + b;
    assert s[0] == a[0] && s[|s| - 1] == b[|b| - 1];
    forall i | 0 <= i < |s| - 1 ensures !(s[i] == PATHSEP && s[i + 1] == PATHSEP) {
      if i + 1 < |a| {
        assert s[i] == a[i] && s[i + 1] == a[i + 1];
      } else if i + 1 == |a| {
        assert s[i] == a[|a| - 1];
      } else if i == |a| {
        assert s[i + 1] == b[0];
      } else {
        var k := i - |a| - 1;
        assert s[i] == b[k] && s[i + 1] == b[k + 1];
      }
    }
  }

  lemma {:induction false} JoinNormal(es: seq<string>)
    requires es != [] && forall i :: 0 <= i < |es| ==> Normal(es[i])
    ensures Normal(Join(es, PATHSEP))
  {
    if |es| > 1 {
      JoinNormal(es[1..]);
      GlueNormal(es[0], Join(es[1..], PATHSEP));
    }
  }

  lemma InsertedNormal(path: string, before: Option<nat>, dir: string)
    requires Normal(path) && Clean(path) && Normal(dir) && Clean(dir)
    requires before.Some? ==> before.value <= |path|
    ensures InVector(path, before) && Inserted(path, before, dir).Some? && NormalPath(Inserted(path, before, dir))
  {
    NormalOffset(path);
    NormalEntries(path);
    SplitJoin(path, PATHSEP);
    InsertedClean(path, before, dir);
    NormalPieces(path);
    SplicedNormal(Entries(path, PATHSEP), Place(path, before), dir);
  }

  lemma SplicedNormal(es: seq<string>, k: nat, dir: string)
    requires k <= |es| && Normal(dir) && forall i :: 0 <= i < |es| ==> Normal(es[i])
    ensures var es' := es[..k] + [dir] + es[k..]; es'[0] != "" && Normal(Join(es', PATHSEP))
  {
    var es' := es[..k] + [dir] + es[k..];
    assert forall i :: 0 <= i < |es'| ==> es'[i] == if i < k then es[i] else if i == k then dir else es[i - 1];
    JoinNormal(es');
  }

  lemma NormalPieces(path: string)
    requires Normal(path)
    ensures var es := Split(path, PATHSEP); forall i :: 0 <= i < |es| ==> Normal(es[i])
  {
    var es := Split(path, PATHSEP);
    TidySplit(path, PATHSEP);
    SplitParts(path, PATHSEP);
    SplitLast(path, PATHSEP);
    SplitJoin(path, PATHSEP);
    forall i | 0 <= i < |es| ensures Normal(es[i]) {
      assert es[i] != "";
      PieceNormal(es[i]);
    }
  }

  lemma SetNormal(p: string)
    requires Clean(p)
    requires var es := NonEmpty(Split(p, PATHSEP)); (exists e :: e in es && Text(e)) && !SlashesAfterText(es)
    ensures Normal(Canon(p, false))
  {
    var ne := NonEmpty(Split(p, PATHSEP));
    var es := Elements(p);
    CanonIsElements(p);
    ElementsShape(p);
    EmptyElement(ne);
    var k :| 0 <= k < |ne| && Text(ne[k]);
    SomeElement(ne, k);
    forall i | 0 <= i < |es| ensures Normal(es[i]) {
      assert es[i] in es;
      PieceNormal(es[i]);
    }
    JoinNormal(es);
  }

  lemma {:induction false} SomeElement(es: seq<string>, k: nat)
    requires k < |es| && Text(es[k])
    ensures DropLeading(SquashAll(es)) != []
  {
    var all := SquashAll(es);
    SquashEmpty(es[0]);
    if all[0] == "" {
      assert k > 0;
      SomeElement(es[1..], k - 1);
      assert all[1..] == SquashAll(es[1..]);
    }
  }

  /** A tidy request keeps the path without leading, trailing and doubled separators, and is answered
      unless its position is outside the path. */
  lemma TidyStep(path: Option<string>, q: Request)
    requires NormalPath(path) && Tidy(q)
    ensures var a := Respond(path, q);
            && NormalPath(Next(path, a))
            && (a.Rejected? <==> q.Insert? && q.before.Some? && !Accepts(path, q.before.value))
            && (a.Rejected? || a.Done?)
  {
    match q
    case Set(p) =>
      if p != "" {
        CanonClean(p);
        SetNormal(p);
      }
    case Add(dir) => EditNormal(path, None, dir);
    case Insert(None, dir) => EditNormal(path, None, dir);
    case Insert(Some(before), dir) =>
      if Accepts(path, before) {
        EditNormal(path, Some(before), dir);
      }
  }

  lemma EditNormal(path: Option<string>, before: Option<nat>, dir: string)
    requires NormalPath(path) && Clean(dir) && TidyDir(dir)
    requires before.Some? ==> path.Some? && before.value <= |path.value|
    ensures Edit(path, before, dir).Done? && NormalPath(Edit(path, before, dir).path)
  {
    if dir != "" && path.Some? {
      InsertedNormal(path.value, before, dir);
    }
  }

  /** As long as all requests are tidy the path stays tidy, and no insertion steps outside its
      vector. */
  lemma {:induction false} TidyRuns(qs: seq<Request>, k: nat)
    requires k <= |qs| && forall i :: 0 <= i < |qs| ==> Tidy(qs[i])
    ensures NormalPath(PathAfter(qs[..k]))
    ensures k < |qs| ==> Respond(PathAfter(qs[..k]), qs[k]).Done? || Respond(PathAfter(qs[..k]), qs[k]).Rejected?
  {
    if k > 0 {
      TidyRuns(qs, k - 1);
      assert qs[..k][..k - 1] == qs[..k - 1];
      TidyStep(PathAfter(qs[..k - 1]), qs[k - 1]);
    }
    if k < |qs| {
      TidyStep(PathAfter(qs[..k]), qs[k]);
    }
  }
}
