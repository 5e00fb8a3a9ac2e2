/** Dependencies in a shutdown: when every close still finds its handle, and when not. */
module ShutdownOrder {
  import opened Common
  import opened Registry
  import opened RegistryRuns
  import opened RegistryShutdown

  /** After every run, a shutdown finds positive counts. */
  lemma CountedClosable(r: Reg, owed: multiset<Id>)
    requires Counted(r, owed)
    ensures Closable(r)
  {
    ApartNoDups(r.order, r.recs);
    forall h | h in r.order && !r.recs[h].resident ensures r.recs[h].refCount >= 1 {
      assert CountedAt(r, owed, h);
    }
  }

  lemma {:induction false} ApartNoDups(order: seq<Id>, recs: map<Id, Handle>)
    requires (forall h :: h in order ==> h in recs) && Apart(order, recs)
    ensures NoDups(order)
  {
    if order != [] {
      ApartNoDups(order[1..], recs);
    }
  }

  /** Only handles without dependencies may be resident or opened more than once by clients. */
  ghost predicate Tame(r: Reg, owed: multiset<Id>)
    requires Wf(r)
  {
    forall h :: h in r.order && r.recs[h].deps != [] ==> !r.recs[h].resident && owed[h] <= 1
  }

  /** The handles listed before x depend on nothing. */
  ghost predicate Bare(order: seq<Id>, recs: map<Id, Handle>, x: Id)
    requires forall h :: h in order ==> h in recs
  {
    order == [] || order[0] == x || (recs[order[0]].deps == [] && Bare(order[1..], recs, x))
  }

  /** Nothing depends on a handle that is not listed. */
  lemma {:induction false} UnlistedFree(order: seq<Id>, recs: map<Id, Handle>, h: Id)
    requires (forall x :: x in order ==> x in recs) && Layered(order, recs) && h !in order
    ensures h !in Slots(order, recs)
  {
    if order != [] {
      UnlistedFree(order[1..], recs, h);
      assert h !in multiset(recs[order[0]].deps);
    }
  }

  /** Nothing depends on a handle when what is listed before it has no dependencies. */
  lemma {:induction false} BareFree(order: seq<Id>, recs: map<Id, Handle>, h: Id)
    requires (forall x :: x in order ==> x in recs) && Layered(order, recs) && NoDups(order)
    requires h in order && Bare(order, recs, h)
    ensures h !in Slots(order, recs)
  {
    if order[0] == h {
      UnlistedFree(order[1..], recs, h);
      assert h !in multiset(recs[h].deps);
    } else {
      BareFree(order[1..], recs, h);
    }
  }

  lemma {:induction false} BareSame(order: seq<Id>, recs: map<Id, Handle>, recs': map<Id, Handle>, x: Id)
    requires (forall h :: h in order ==> h in recs) && SameFlags(recs, recs')
    ensures Bare(order, recs, x) == Bare(order, recs', x)
  {
    if order != [] {
      BareSame(order[1..], recs, recs', x);
    }
  }

  lemma {:induction false} BareRemove(order: seq<Id>, recs: map<Id, Handle>, h: Id, x: Id)
    requires (forall y :: y in order ==> y in recs) && Bare(order, recs, x) && h != x
    ensures Bare(Remove(order, h), recs, x)
  {
    if order != [] && order[0] != h && order[0] != x {
      BareRemove(order[1..], recs, h, x);
      assert Remove(order, h)[1..] == Remove(order[1..], h);
    }
  }

  /** The handles before the next one are those before this one, and this one unless it goes. */
  lemma {:induction false} BareNext(order: seq<Id>, recs: map<Id, Handle>, h: Id)
    requires (forall y :: y in order ==> y in recs) && h in order && NextOf(order, h).Some?
    requires Bare(order, recs, h) && NoDups(order)
    ensures Bare(Remove(order, h), recs, NextOf(order, h).value)
    ensures recs[h].deps == [] ==> Bare(order, recs, NextOf(order, h).value)
  {
    if order[0] != h {
      var rest := order[1..];
      assert NextOf(order, h) == NextOf(rest, h);
      BareNext(rest, recs, h);
      assert Remove(order, h)[1..] == Remove(rest, h);
    } else {
      assert order[1..][0] == NextOf(order, h).value;
    }
  }

  /** A close leaves the handles before x as they are, or fewer. */
  lemma {:induction false} CloseBare(r: Reg, h: Id, x: Id)
    requires Closable(r) && Bare(r.order, r.recs, x) && x in Close(r, h).order
    ensures Bare(Close(r, h).order, Close(r, h).recs, x)
    decreases |r.order|, 0
  {
    var r1 := if h in r.order then Count(r, h, -1) else r;
    BareSame(r.order, r.recs, r1.recs, x);
    if h in r.order && !r.recs[h].resident && r.recs[h].refCount == 1 {
      UnlinkWears(r, h);
      NoDupsRemove(r1.order, h);
      var r2 := r1.(order := Remove(r1.order, h));
      CloseAllWears(r2, r1.recs[h].deps);
      BareRemove(r1.order, r1.recs, h, x);
      CloseAllBare(r2, r1.recs[h].deps, x);
    }
  }

  lemma {:induction false} CloseAllBare(r: Reg, deps: seq<Id>, x: Id)
    requires Closable(r) && (forall d :: d in deps ==> d in r.recs)
    requires Bare(r.order, r.recs, x) && x in CloseAll(r, deps).order
    ensures Bare(CloseAll(r, deps).order, CloseAll(r, deps).recs, x)
    decreases |r.order|, 1 + |deps|
  {
    if deps != [] {
      if r.recs[deps[0]].resident {
        CloseAllBare(r, deps[1..], x);
      } else {
        var r1 := Close(r, deps[0]);
        CloseWears(r, deps[0]);
        CloseAllWears(r1, deps[1..]);
        CloseBare(r, deps[0], x);
        CloseAllBare(r1, deps[1..], x);
      }
    }
  }

  /** What a walk over a tame registry keeps: the counts are exact for what is still owed, and the
      handles behind it depend on nothing. */
  ghost predicate InOrder(r: Reg, owed: multiset<Id>, cur: Option<Id>) {
    && Counted(r, owed) && Tame(r, owed)
    && (cur.Some? ==> cur.value in r.order && Bare(r.order, r.recs, cur.value))
  }

  /** Nothing depends on the handle that the walk stands at, so its count is what clients hold. */
  lemma CursorOwed(r: Reg, owed: multiset<Id>, tmp: Id)
    requires InOrder(r, owed, Some(tmp))
    ensures Closable(r)
    ensures !r.recs[tmp].resident ==> r.recs[tmp].refCount == owed[tmp] >= 1
    ensures r.recs[tmp].resident || r.recs[tmp].refCount > 1 ==> r.recs[tmp].deps == []
  {
    CountedClosable(r, owed);
    BareFree(r.order, r.recs, tmp);
    assert CountedAt(r, owed, tmp);
  }

  lemma SkipInOrder(r: Reg, owed: multiset<Id>, tmp: Id)
    requires InOrder(r, owed, Some(tmp)) && r.recs[tmp].deps == []
    ensures InOrder(r, owed, NextOf(r.order, tmp))
  {
    CountedClosable(r, owed);
    if NextOf(r.order, tmp).Some? {
      BareNext(r.order, r.recs, tmp);
    }
  }

  /** Closing the handle at the cursor gives up what a client holds, and keeps the order. */
  lemma CloseInOrder(r: Reg, owed: multiset<Id>, tmp: Id)
    requires InOrder(r, owed, Some(tmp)) && !r.recs[tmp].resident
    ensures Closable(r) && Close(r, tmp).invalid == r.invalid
    ensures InOrder(Close(r, tmp), owed - multiset{tmp}, NextAfterClose(r, tmp))
  {
    var r1, next := Close(r, tmp), NextOf(r.order, tmp);
    CursorOwed(r, owed, tmp);
    CloseCounted(r, owed, tmp);
    CloseWears(r, tmp);
    CloseTame(r, owed, tmp);
    if next.Some? && next.value in r1.order {
      CursorAdvances(r, tmp, next.value);
    }
  }

  lemma CloseTame(r: Reg, owed: multiset<Id>, tmp: Id)
    requires Closable(r) && Tame(r, owed)
    ensures Tame(Close(r, tmp), owed - multiset{tmp})
  {
    CloseWears(r, tmp);
  }

  lemma CursorAdvances(r: Reg, tmp: Id, next: Id)
    requires Closable(r) && tmp in r.order && !r.recs[tmp].resident && Bare(r.order, r.recs, tmp)
    requires r.recs[tmp].refCount > 1 ==> r.recs[tmp].deps == []
    requires NextOf(r.order, tmp) == Some(next) && next in Close(r, tmp).order
    ensures Bare(Close(r, tmp).order, Close(r, tmp).recs, next)
  {
    var r1 := Count(r, tmp, -1);
    BareNext(r.order, r.recs, tmp);
    if r.recs[tmp].refCount == 1 {
      UnlinkWears(r, tmp);
      var r2 := r1.(order := Remove(r1.order, tmp));
      BareSame(r2.order, r.recs, r2.recs, next);
      CloseAllBare(r2, r1.recs[tmp].deps, next);
    } else {
      BareSame(r.order, r.recs, r1.recs, next);
    }
  }

  lemma {:induction false} WalkInOrder(r: Reg, owed: multiset<Id>, level: int, cur: Option<Id>)
    returns (owed': multiset<Id>)
    requires InOrder(r, owed, cur) && Closable(r) && level >= 1
    ensures InOrder(Walk(r, level, cur), owed', None) && owed' <= owed
    ensures Walk(r, level, cur).invalid == r.invalid
    decreases Total(r), |r.order| - Walked(r.order, cur)
  {
    owed' := owed;
    if cur.Some? {
      var tmp := cur.value;
      CursorOwed(r, owed, tmp);
      WalkOn(r.order, tmp);
      if r.recs[tmp].resident || r.recs[tmp].refCount > level {
        SkipInOrder(r, owed, tmp);
        WalkSkips(r, level, tmp);
        owed' := WalkInOrder(r, owed, level, NextOf(r.order, tmp));
      } else {
        CloseInOrder(r, owed, tmp);
        WalkCloses(r, level, tmp);
        owed' := WalkInOrder(Close(r, tmp), owed - multiset{tmp}, level, NextAfterClose(r, tmp));
      }
    }
  }

  /** The state of a tame registry between two passes. */
  ghost predicate Steady(r: Reg, owed: multiset<Id>, invalid: nat) {
    r.invalid == invalid && exists left :: left <= owed && InOrder(r, left, None)
  }

  lemma PassSteady(r: Reg, owed: multiset<Id>, invalid: nat, r': Reg, level: int)
    requires Steady(r, owed, invalid) && IsPass(r, r', level)
    ensures Steady(r', owed, invalid)
  {
    if level < 1 {
      PassBelow(r, level);
    } else {
      var left :| left <= owed && InOrder(r, left, None);
      var left' := WalkInOrder(r, left, level, Head(r.order));
      assert left' <= owed;
    }
  }

  lemma LevelsSteady(r: Reg, owed: multiset<Id>)
    requires Steady(r, owed, r.invalid) && Closable(r)
    ensures Steady(ByLevels(r, 1), owed, r.invalid)
  {
    var n := r.invalid;
    var inv := (x: Reg) => Steady(x, owed, n);
    forall x: Reg, y: Reg, l: int | IsPass(x, y, l) && inv(x) ensures inv(y) {
      PassSteady(x, owed, n, y, l);
    }
    var end := LevelsKeep(r, 1, inv);
  }

  /** Dropping a resident handle without dependencies from the head of the list. */
  lemma SkipHeadInOrder(r: Reg, owed: multiset<Id>)
    requires Counted(r, owed) && Tame(r, owed) && r.order != [] && r.recs[r.order[0]].resident
    ensures var h := r.order[0]; var r1 := r.(order := r.order[1..]);
            Counted(r1, owed[h := 0]) && Tame(r1, owed[h := 0]) && owed[h := 0] <= owed
  {
    var h := r.order[0];
    var r1 := r.(order := r.order[1..]);
    var left := owed[h := 0];
    assert r.recs[h].deps == [];
    UnlistedFree(r1.order, r.recs, h);
    forall x ensures CountedAt(r1, left, x) {
      assert CountedAt(r, owed, x);
    }
  }

  lemma {:induction false} SkippedInOrder(r: Reg, owed: multiset<Id>) returns (owed': multiset<Id>)
    requires Counted(r, owed) && Tame(r, owed) && Closable(r)
    ensures InOrder(Skipped(r), owed', None) && owed' <= owed
    decreases |r.order|
  {
    owed' := owed;
    if r.order != [] && r.recs[r.order[0]].resident {
      SkipHeadInOrder(r, owed);
      var h := r.order[0];
      var r1 := r.(order := r.order[1..]);
      CountedClosable(r1, owed[h := 0]);
      owed' := SkippedInOrder(r1, owed[h := 0]);
    }
  }

  /** When only handles without dependencies are resident or opened more than once, no close of a
      shutdown reaches a handle that is gone, and the counts it leaves are exact for what is then
      still owed. */
  lemma ShutdownInOrder(r: Reg, owed: multiset<Id>)
    requires Counted(r, owed) && Tame(r, owed)
    ensures Closable(r) && Shutdown(r).invalid == r.invalid
    ensures exists owed' :: owed' <= owed && Counted(Shutdown(r), owed')
  {
    CountedClosable(r, owed);
    var owed1 := SkippedInOrder(r, owed);
    assert Steady(Skipped(r), owed, r.invalid);
    LevelsSteady(Skipped(r), owed);
    StillCounted(Shutdown(r), owed, r.invalid);
  }

  lemma StillCounted(r: Reg, owed: multiset<Id>, invalid: nat)
    requires Steady(r, owed, invalid)
    ensures exists owed' :: owed' <= owed && Counted(r, owed')
  {
  }

  /** After every run a shutdown leaves exactly the resident handles behind the head, and from a tame
      registry no close of it reaches a handle that is gone. */
  lemma ShutdownAfterRun(states: seq<Client>, calls: seq<Call>, k: nat)
    requires IsRun(states, calls) && k < |states|
    ensures var r := states[k].reg;
            && Closable(r)
            && Shutdown(r).order == Residents(SkipResidents(r.order, r.recs), r.recs)
            && (Tame(r, states[k].opens) ==> Shutdown(r).invalid == 0)
  {
    var r, opens := states[k].reg, states[k].opens;
    RunCounted(states, calls, k);
    CountedClosable(r, opens);
    ShutdownLeavesResidents(r);
    if Tame(r, opens) {
      ShutdownInOrder(r, opens);
    }
  }

  // ----- a module and its dependency

  /** Two handles of which b depends on a. */
  ghost predicate Pair(r: Reg, a: Id, b: Id, counta: int, countb: int) {
    && Wf(r) && a != b && a in r.recs && b in r.recs
    && !r.recs[a].resident && r.recs[a].refCount == counta && r.recs[a].deps == []
    && !r.recs[b].resident && r.recs[b].refCount == countb && r.recs[b].deps == [a]
  }

  lemma PairClosable(r: Reg, a: Id, b: Id, counta: int, countb: int)
    requires Pair(r, a, b, counta, countb)
    requires r.order == [] || (r.order == [a] && counta >= 1) || (r.order == [b] && countb >= 1) ||
             (r.order == [b, a] && counta >= 1 && countb >= 1)
    ensures Closable(r) && (r.order != [] ==> Unloadable(r))
  {
    assert r.order != [] ==> r.order[0] in r.order;
    assert [b, a][1..] == [a] && [a][1..] == [] && [b][1..] == [];
  }

  /** The last handle of a list: one close, if its count is within the level. */
  lemma LastVisit(r: Reg, level: int, x: Id)
    requires Closable(r) && r.order != [] && x == r.order[|r.order| - 1] && !r.recs[x].resident
    ensures Walk(r, level, Some(x)) == if r.recs[x].refCount > level then r else Close(r, x)
  {
    PositionUnique(r.order, |r.order| - 1);
    if r.recs[x].refCount > level {
      WalkSkips(r, level, x);
    } else {
      WalkCloses(r, level, x);
    }
  }

  /** A close of a gives up one reference, and unlinks it with the last. */
  lemma CloseDependency(r: Reg, a: Id, b: Id, ca: int, cb: int)
    requires Pair(r, a, b, ca, cb) && ca >= 1 && (r.order == [a] || r.order == [b, a])
    ensures var r1 := Close(r, a);
            && Pair(r1, a, b, ca - 1, cb) && r1.invalid == r.invalid
            && r1.order == if ca == 1 then r.order[..|r.order| - 1] else r.order
  {
    assert [b, a][1..] == [a] && Remove([a], a) == [];
    assert Remove([b, a], a) == [b];
  }

  lemma LastDependant(r: Reg, a: Id, b: Id, ca: int, cb: int)
    requires Pair(r, a, b, ca, cb) && r.order == [b] && cb >= 1
    ensures var r1 := Close(r, b);
            && Pair(r1, a, b, ca, cb - 1)
            && r1.order == (if cb == 1 then [] else [b])
            && r1.invalid == if cb == 1 then r.invalid + 1 else r.invalid
  {
    if cb == 1 {
      var unlinked := Count(r, b, -1).(order := []);
      assert Remove(r.order, b) == [];
      assert Close(unlinked, a) == unlinked.(invalid := r.invalid + 1);
      CloseAllOne(unlinked, a);
    }
  }

  lemma CloseAllOne(r: Reg, a: Id)
    requires Wf(r) && a in r.recs && !r.recs[a].resident
    ensures CloseAll(r, [a]) == Close(r, a)
  {
    assert [a][1..] == [];
  }

  /** Both are left: closing b gives up one reference. */
  lemma CloseCounts(r: Reg, a: Id, b: Id, ca: int, cb: int)
    requires Pair(r, a, b, ca, cb) && ca >= 1 && cb > 1 && r.order == [b, a] && Closable(r)
    ensures var r1 := Close(r, b);
            && Pair(r1, a, b, ca, cb - 1) && r1.invalid == r.invalid && r1.order == [b, a]
            && NextAfterClose(r, b) == Some(a)
  {
    assert NextOf(r.order, b) == Some(a);
  }

  /** With the last reference b goes, and gives up one of a's. */
  lemma CloseUnloads(r: Reg, a: Id, b: Id, ca: int)
    requires Pair(r, a, b, ca, 1) && ca >= 1 && r.order == [b, a] && Closable(r)
    ensures var r1 := Close(r, b);
            && Pair(r1, a, b, ca - 1, 0) && r1.invalid == r.invalid
            && r1.order == (if ca > 1 then [a] else []) && NextAfterClose(r, b) == Head(r1.order)
  {
    assert r.order[1..] == [a];
    assert NextOf(r.order, b) == Some(a);
    var unlinked := Count(r, b, -1).(order := [a]);
    assert Remove(r.order, b) == [a];
    CloseDependency(unlinked, a, b, ca, 0);
    CloseAllOne(unlinked, a);
  }

  lemma StartOfTwo(r: Reg, level: int, a: Id, b: Id)
    requires Closable(r) && r.order == [b, a] && !r.recs[b].resident
    ensures Closable(Close(r, b))
    ensures OnePass(r, level) == if r.recs[b].refCount > level then Walk(r, level, Some(a))
                                 else Walk(Close(r, b), level, NextAfterClose(r, b))
  {
    assert NextOf(r.order, b) == Some(a);
    CloseWears(r, b);
    if r.recs[b].refCount > level {
      WalkSkips(r, level, b);
    } else {
      WalkCloses(r, level, b);
    }
  }

  /** How many closes of a handle that is gone a shutdown has to come. */
  ghost predicate Settles(r: Reg, a: Id, b: Id, more: nat) {
    exists ca, cb :: Pair(r, a, b, ca, cb) && Ahead(r.order, a, b, ca, cb, more)
  }

  ghost predicate Ahead(order: seq<Id>, a: Id, b: Id, ca: int, cb: int, more: nat) {
    || (order == [] && more == 0)
    || (order == [a] && ca >= 1 && more == 0)
    || (order == [b] && cb >= 1 && more == 1)
    || (order == [b, a] && ca >= 1 && cb >= 1 && more == if cb <= ca then 0 else 1)
  }

  /** A pass that meets only a, or nothing. */
  lemma PassOverDependency(r: Reg, level: int, a: Id, b: Id, ca: int, cb: int)
    requires Pair(r, a, b, ca, cb) && Closable(r) && (r.order == [] || (r.order == [a] && ca >= 1))
    ensures OnePass(r, level).invalid == r.invalid && Settles(OnePass(r, level), a, b, 0)
  {
    var r1 := OnePass(r, level);
    if r.order == [a] {
      LastVisit(r, level, a);
      CloseDependency(r, a, b, ca, cb);
    }
    assert Pair(r1, a, b, r1.recs[a].refCount, cb);
    assert Ahead(r1.order, a, b, r1.recs[a].refCount, cb, 0);
  }

  /** A pass that meets only b. */
  lemma PassOverDependant(r: Reg, level: int, a: Id, b: Id, ca: int, cb: int)
    requires Pair(r, a, b, ca, cb) && Closable(r) && r.order == [b] && cb >= 1
    ensures var r1 := OnePass(r, level);
            || (r1.invalid == r.invalid && Settles(r1, a, b, 1))
            || (r1.invalid == r.invalid + 1 && Settles(r1, a, b, 0))
  {
    var r1 := OnePass(r, level);
    LastVisit(r, level, b);
    LastDependant(r, a, b, ca, cb);
    var cb1 := r1.recs[b].refCount;
    assert Pair(r1, a, b, ca, cb1);
    assert Ahead(r1.order, a, b, ca, cb1, if r1.order == [] then 0 else 1);
  }

  /** A pass over both that leaves b alone. */
  lemma PassLeaves(r: Reg, level: int, a: Id, b: Id, ca: int, cb: int)
    requires Pair(r, a, b, ca, cb) && ca >= 1 && cb > level && cb >= 1 && r.order == [b, a] && Closable(r)
    ensures OnePass(r, level).invalid == r.invalid
    ensures Settles(OnePass(r, level), a, b, if cb <= ca then 0 else 1)
  {
    var r1 := OnePass(r, level);
    StartOfTwo(r, level, a, b);
    LastVisit(r, level, a);
    CloseDependency(r, a, b, ca, cb);
    var ca1 := if ca > level then ca else ca - 1;
    assert Pair(r1, a, b, ca1, cb);
    assert Ahead(r1.order, a, b, ca1, cb, if cb <= ca then 0 else 1);
  }

  /** A pass over both that takes one reference of b. */
  lemma PassCounts(r: Reg, level: int, a: Id, b: Id, ca: int, cb: int)
    requires Pair(r, a, b, ca, cb) && ca >= 1 && 1 < cb <= level && r.order == [b, a] && Closable(r)
    ensures OnePass(r, level).invalid == r.invalid
    ensures Settles(OnePass(r, level), a, b, if cb <= ca then 0 else 1)
  {
    var r1, r2 := OnePass(r, level), Close(r, b);
    StartOfTwo(r, level, a, b);
    CloseCounts(r, a, b, ca, cb);
    LastVisit(r2, level, a);
    CloseDependency(r2, a, b, ca, cb - 1);
    var ca1 := if ca > level then ca else ca - 1;
    assert Pair(r1, a, b, ca1, cb - 1);
    assert Ahead(r1.order, a, b, ca1, cb - 1, if cb <= ca then 0 else 1);
  }

  /** A pass over both that unloads b. */
  lemma PassUnloads(r: Reg, level: int, a: Id, b: Id, ca: int)
    requires Pair(r, a, b, ca, 1) && ca >= 1 && 1 <= level && r.order == [b, a] && Closable(r)
    ensures OnePass(r, level).invalid == r.invalid && Settles(OnePass(r, level), a, b, 0)
  {
    StartOfTwo(r, level, a, b);
    CloseUnloads(r, a, b, ca);
    PassOverDependency(Close(r, b), level, a, b, ca - 1, 0);
  }

  /** A pass that meets both. */
  lemma PassOverBoth(r: Reg, level: int, a: Id, b: Id, ca: int, cb: int)
    requires Pair(r, a, b, ca, cb) && Closable(r) && r.order == [b, a] && ca >= 1 && cb >= 1
    ensures OnePass(r, level).invalid == r.invalid
    ensures Settles(OnePass(r, level), a, b, if cb <= ca then 0 else 1)
  {
    if cb > level {
      PassLeaves(r, level, a, b, ca, cb);
    } else if cb > 1 {
      PassCounts(r, level, a, b, ca, cb);
    } else {
      PassUnloads(r, level, a, b, ca);
    }
  }

  ghost predicate Reaches(r: Reg, a: Id, b: Id, n: nat) {
    r.invalid <= n && Settles(r, a, b, n - r.invalid)
  }

  lemma PassReaches(r: Reg, r': Reg, level: int, a: Id, b: Id, n: nat)
    requires IsPass(r, r', level) && Reaches(r, a, b, n)
    ensures Reaches(r', a, b, n)
  {
    var ca, cb :| Pair(r, a, b, ca, cb) && Ahead(r.order, a, b, ca, cb, n - r.invalid);
    if r.order == [b, a] {
      PassOverBoth(r, level, a, b, ca, cb);
    } else if r.order == [b] {
      PassOverDependant(r, level, a, b, ca, cb);
    } else {
      PassOverDependency(r, level, a, b, ca, cb);
    }
  }

  lemma LevelsReach(r: Reg, a: Id, b: Id, n: nat)
    requires Closable(r) && Reaches(r, a, b, n)
    ensures ByLevels(r, 1).invalid == n
  {
    var inv := (x: Reg) => Reaches(x, a, b, n);
    forall x: Reg, y: Reg, l: int | IsPass(x, y, l) && inv(x) ensures inv(y) {
      PassReaches(x, y, l, a, b, n);
    }
    var end := LevelsKeep(r, 1, inv);
    NothingAhead(ByLevels(r, 1), a, b, n);
  }

  lemma NothingAhead(r: Reg, a: Id, b: Id, n: nat)
    requires Closable(r) && Reaches(r, a, b, n) && !Unloadable(r)
    ensures r.invalid == n
  {
    var ca, cb :| Pair(r, a, b, ca, cb) && Ahead(r.order, a, b, ca, cb, n - r.invalid);
    PairClosable(r, a, b, ca, cb);
  }

  /** A module listed before its one dependency is closed in order if and only if the dependency counts
      at least as much: otherwise the dependency goes first and is closed once more at the end. */
  lemma PairInOrderExactly(r: Reg, a: Id, b: Id, ca: int, cb: int)
    requires Pair(r, a, b, ca, cb) && ca >= 1 && cb >= 1 && r.order == [b, a]
    ensures Closable(r)
    ensures Shutdown(r).invalid == r.invalid <==> cb <= ca
    ensures Shutdown(r).invalid <= r.invalid + 1
  {
    PairClosable(r, a, b, ca, cb);
    assert Skipped(r) == r;
    var n := if cb <= ca then r.invalid else r.invalid + 1;
    assert Ahead(r.order, a, b, ca, cb, n - r.invalid);
    LevelsReach(r, a, b, n);
  }

  // ----- and a run that leads there

  /** A plan for a module without dependencies. */
  ghost function Alone(name: string): Plan {
    Plan([], [Candidate(Some(name), true)], false)
  }

  ghost function Dependent(name: string, dep: string): Plan {
    Plan([Alone(dep)], [Candidate(Some(name), true)], false)
  }

  lemma OpenAlone(r: Reg, name: string)
    requires Wf(r)
    ensures Open(r, Alone(name)) == Finish(r, [], [Candidate(Some(name), true)], false)
    ensures var (r1, got) := Open(r, Alone(name));
            OpenAll(r, [Alone(name)]) == (r1, if got.Some? then [got.value] else [])
  {
    assert [Alone(name)][1..] == [];
    var (r1, got) := Open(r, Alone(name));
    var ds := if got.Some? then [got.value] else [];
    assert OpenAll(r1, []) == (r1, []);
    assert ds + [] == ds;
  }

  /** A run that opens b, which depends on a, twice; both load. */
  ghost function TwoOpens(name: string, dep: string): seq<Call> {
    [DlOpen(Dependent(name, dep)), DlOpen(Dependent(name, dep))]
  }

  lemma FirstOpen(r: Reg, name: string, dep: string)
    requires r == START.reg && name != dep
    ensures var (r1, got) := Open(r, Dependent(name, dep));
            && got == Some(1) && Pair(r1, 0, 1, 1, 1) && r1.order == [1, 0] && r1.invalid == 0
            && r1.recs[0].filename == Some(dep) && r1.recs[1].filename == Some(name)
  {
    OpenAlone(r, dep);
    var (r1, ds) := OpenAll(r, [Alone(dep)]);
    assert r1.order == [0] && ds == [0];
    assert [0][1..] == [];
    assert FindFile(r1.order, r1.recs, Some(name)).None?;
  }

  lemma SecondOpen(r: Reg, name: string, dep: string)
    requires Pair(r, 0, 1, 1, 1) && r.order == [1, 0] && name != dep
    requires r.recs[0].filename == Some(dep) && r.recs[1].filename == Some(name)
    ensures var (r1, got) := Open(r, Dependent(name, dep));
            got == Some(1) && Pair(r1, 0, 1, 1, 2) && r1.order == [1, 0] && r1.invalid == r.invalid
  {
    assert r.order[1..] == [0];
    OpenAlone(r, dep);
    var (r1, ds) := OpenAll(r, [Alone(dep)]);
    assert Pair(r1, 0, 1, 2, 1) && r1.order == [1, 0] && ds == [0];
    var r2 := Count(r1, 1, 1);
    CloseDependency(r2, 0, 1, 2, 2);
    CloseAllOne(r2, 0);
  }

  lemma OpenTwice(plan: Plan)
    ensures var c1 := Do(START, DlOpen(plan));
            Wf(c1.reg) && IsRun([START, c1, Do(c1, DlOpen(plan))], [DlOpen(plan), DlOpen(plan)])
  {
  }

  /** After two opens of a module with one dependency a shutdown closes the dependency twice. */
  lemma DependencyClosedTwice(name: string, dep: string) returns (states: seq<Client>)
    requires name != dep
    ensures IsRun(states, TwoOpens(name, dep)) && |states| == 3
    ensures Closable(states[2].reg) && Shutdown(states[2].reg).invalid == 1
  {
    var plan := Dependent(name, dep);
    OpenTwice(plan);
    var c1 := Do(START, DlOpen(plan));
    var c2 := Do(c1, DlOpen(plan));
    states := [START, c1, c2];
    FirstOpen(START.reg, name, dep);
    SecondOpen(c1.reg, name, dep);
    PairInOrderExactly(c2.reg, 0, 1, 1, 2);
  }
}
