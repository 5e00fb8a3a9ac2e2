/** Editing a search path by way of an argz vector. */
module SearchPath {
  import opened Common
  import opened Strings
  import opened ArgzSpec
  import opened Argz

  const PATHSEP: char := ':'

  ghost predicate HasText(path: string) {
    exists i :: 0 <= i < |path| && path[i] != PATHSEP
  }

  /** No leading, trailing or doubled separator, and not empty. */
  ghost predicate Normal(path: string) {
    path != "" && !Leading(path, PATHSEP) && !EndsIn(path, PATHSEP) && !Doubled(path, PATHSEP)
  }

  lemma NormalEntries(path: string)
    requires Normal(path)
    ensures Entries(path, PATHSEP) == Split(path, PATHSEP)
    ensures Join(Split(path, PATHSEP), PATHSEP) == path && Split(path, PATHSEP)[0] != ""
  {
    TidySplit(path, PATHSEP);
    SplitParts(path, PATHSEP);
    SplitLast(path, PATHSEP);
    SplitJoin(path, PATHSEP);
    NonEmptyAll(Split(path, PATHSEP));
  }

  lemma TextEntries(path: string)
    ensures Entries(path, PATHSEP) != []
    ensures HasText(path) <==> Entries(path, PATHSEP)[0] != ""
  {
    var es, ne := Entries(path, PATHSEP), NonEmpty(Split(path, PATHSEP));
    SomeText(path, PATHSEP);
    NonEmptyMembers(Split(path, PATHSEP));
    if ne != [] {
      assert es[0] == ne[0] && ne[0] in ne;
    }
  }

  /** The entry around an offset into a vector. */
  ghost function EntryAround(es: seq<string>, offset: nat): (k: nat)
    requires offset <= |Pack(es)|
    ensures k <= |es|
  {
    if es == [] || offset <= |es[0]| then 0 else 1 + EntryAround(es[1..], offset - |es[0]| - 1)
  }

  lemma {:induction false} EntryAroundIsAround(es: seq<string>, offset: nat)
    requires offset <= |Pack(es)|
    ensures Around(es, offset, EntryAround(es, offset))
  {
    var k := EntryAround(es, offset);
    if k == 0 {
      assert es[..0] == [];
    } else {
      EntryAroundIsAround(es[1..], offset - |es[0]| - 1);
      assert es[..k][1..] == es[1..][..k - 1];
    }
  }

  /** The source applies an offset into the path to the vector made from it, which may be shorter. */
  ghost predicate InVector(path: string, before: Option<nat>) {
    before.Some? ==> before.value <= |Pack(Entries(path, PATHSEP))|
  }

  /** Where the new directory goes among the entries. */
  ghost function Place(path: string, before: Option<nat>): (k: nat)
    requires InVector(path, before)
    ensures k <= |Entries(path, PATHSEP)|
  {
    var es := Entries(path, PATHSEP);
    if before.Some? then EntryAround(es, before.value) else |es|
  }

  ghost function NewEntries(path: string, before: Option<nat>, dir: string): seq<string>
    requires InVector(path, before)
  {
    var es, k := Entries(path, PATHSEP), Place(path, before);
    es[..k] + [dir] + es[k..]
  }

  /** What the path becomes. Outside the vector there is no answer; a vector that starts with an empty
      entry, as that of a path without text does, reads as an empty path. */
  ghost function Inserted(path: string, before: Option<nat>, dir: string): Option<string> {
    if !InVector(path, before) then None
    else
      var es := NewEntries(path, before, dir);
      Some(if es[0] != "" then Join(es, PATHSEP) else "")
  }

  /** lt_dlpath_insertdir, with the position as an offset into the path. There is no result where the
      source would step outside its vector. */
  method InsertDir(path: Option<string>, before: Option<nat>, dir: string) returns (path': Option<string>)
    requires path.Some? ==> Clean(path.value)
    requires Clean(dir) && dir != ""
    requires before.Some? ==> path.Some? && before.value <= |path.value|
    ensures path' == if path.None? then Some(dir) else Inserted(path.value, before, dir)
  {
    if path.None? {
      return Some(dir);
    }
    var argz, len := CreateSep(path.value, PATHSEP);
    if before.Some? && before.value > len {
      return None;
    }
    ghost var es, k := Entries(path.value, PATHSEP), Place(path.value, before);
    EntriesClean(path.value, PATHSEP);
    if before.Some? {
      EntryAroundIsAround(es, before.value);
    }
    argz, len := LtInsert(argz, len, before, dir, es, k);
    InsertedPath(path.value, before, dir);
    assert argz[..len] == Pack(NewEntries(path.value, before, dir));
    Stringify(argz, len, PATHSEP);
    path' := Some(StringAt(argz[..len], 0));
  }

  lemma {:induction false} PackLong(es: seq<string>, dir: string)
    requires dir in es && dir != ""
    ensures |Pack(es)| >= 2
  {
    if es[0] != dir {
      PackLong(es[1..], dir);
    }
  }

  lemma InsertedPath(path: string, before: Option<nat>, dir: string)
    requires Clean(path) && Clean(dir) && dir != "" && InVector(path, before)
    ensures var es := NewEntries(path, before, dir);
            && |Pack(es)| >= 2
            && Inserted(path, before, dir) == Some(StringAt(Stringified(Pack(es), PATHSEP), 0))
  {
    var k := Place(path, before);
    var es := NewEntries(path, before, dir);
    EntriesClean(path, PATHSEP);
    assert AllClean(es);
    assert es[k] == dir && dir in es;
    PackLong(es, dir);
    StringifiedIsJoin(es, PATHSEP);
  }

  /** Appending to a path with some text joins its entries and the new one; a path without text
      loses everything. */
  lemma AppendedPath(path: string, dir: string)
    ensures Inserted(path, None, dir) ==
            Some(if HasText(path) then Join(Entries(path, PATHSEP) + [dir], PATHSEP) else "")
  {
    var es := Entries(path, PATHSEP);
    TextEntries(path);
    assert es[..|es|] + [dir] + es[|es|..] == es + [dir];
    assert (es + [dir])[0] == es[0];
  }

  /** For a path without leading, trailing or doubled separators every offset lies in the vector, and
      splitting the edited path gives list insertion on the split path: at the end, or before the
      entry that contains the offset or ends there. */
  lemma InsertedSplit(path: string, before: Option<nat>, dir: string)
    requires Normal(path) && dir != "" && PATHSEP !in dir
    requires before.Some? ==> before.value <= |path|
    ensures InVector(path, before)
    ensures var es, k := Split(path, PATHSEP), Place(path, before);
            && k <= |es| && Inserted(path, before, dir).Some?
            && Split(Inserted(path, before, dir).value, PATHSEP) == es[..k] + [dir] + es[k..]
            && if before.Some? then k < |es| && Around(es, before.value, k) else k == |es|
  {
    var es := Split(path, PATHSEP);
    NormalEntries(path);
    SplitJoin(path, PATHSEP);
    NormalOffset(path);
    var k := Place(path, before);
    if before.Some? {
      EntryAroundIsAround(es, before.value);
    }
    SepFree(es, k, dir);
    var es' := es[..k] + [dir] + es[k..];
    assert es'[0] == if k == 0 then dir else es[0];
    SplitOfJoin(es', PATHSEP);
  }

  // ----- offsets outside the vector

  /** How many separators argz_create_sep drops: those that stand first or right behind another. */
  ghost function Dropped(path: string): nat {
    if path == "" then 0
    else
      var t, c := path[..|path| - 1], path[|path| - 1];
      Dropped(t) + if c == PATHSEP && (t == "" || EndsIn(t, PATHSEP)) then 1 else 0
  }

  /** Nothing is open in the buffer exactly at the start and behind a separator. */
  lemma SqueezeOpen(s: string)
    requires Clean(s)
    ensures var out := Squeeze(s, PATHSEP);
            out == [] || out[|out| - 1] == EOS <==> s == "" || EndsIn(s, PATHSEP)
  {
    if s != "" {
      assert s[|s| - 1] in s;
    }
  }

  lemma {:induction false} SqueezeLength(s: string)
    requires Clean(s)
    ensures |Squeeze(s, PATHSEP)| == |s| - Dropped(s)
  {
    if s != "" {
      SqueezeLength(s[..|s| - 1]);
      SqueezeOpen(s[..|s| - 1]);
    }
  }

  /** An offset lies in the vector if and only if it is at most the length of the path and one, less
      the separators that were dropped. */
  lemma InVectorExactly(path: string, offset: nat)
    requires Clean(path)
    ensures InVector(path, Some(offset)) <==> offset <= |path| + 1 - Dropped(path)
  {
    SqueezeLength(path);
    CreatedIsEntries(path, PATHSEP);
  }

  /** So some offset before the end of the path is outside if and only if three are dropped. */
  lemma OutsideExactly(path: string)
    requires Clean(path)
    ensures (exists offset: nat :: offset < |path| && !InVector(path, Some(offset))) <==> Dropped(path) >= 3
  {
    if Dropped(path) >= 3 {
      DroppedInside(path);
      InVectorExactly(path, |path| - 1);
    } else {
      forall offset: nat | offset < |path| ensures InVector(path, Some(offset)) {
        InVectorExactly(path, offset);
      }
    }
  }

  lemma {:induction false} DroppedInside(path: string)
    ensures Dropped(path) <= |path|
  {
    if path != "" {
      DroppedInside(path[..|path| - 1]);
    }
  }

  lemma NormalOffset(path: string)
    requires Normal(path)
    ensures |Pack(Entries(path, PATHSEP))| == |path| + 1
  {
    NormalEntries(path);
    PackLength(Entries(path, PATHSEP));
  }

  lemma {:induction false} PackLength(es: seq<string>)
    requires es != []
    ensures |Pack(es)| == |Join(es, PATHSEP)| + 1
  {
    if |es| > 1 {
      PackLength(es[1..]);
    } else {
      PackOne(es[0]);
      assert es == [es[0]];
    }
  }

  lemma SepFree(es: seq<string>, k: nat, dir: string)
    requires k <= |es| && PATHSEP !in dir && forall i :: 0 <= i < |es| ==> PATHSEP !in es[i]
    ensures var es' := es[..k] + [dir] + es[k..]; forall i :: 0 <= i < |es'| ==> PATHSEP !in es'[i]
  {
  }
}
