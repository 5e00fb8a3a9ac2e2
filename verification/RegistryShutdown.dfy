/** Shutting the registry down: what every close wears off, and the walk by levels of lt_dlexit. */
module RegistryShutdown {
  import opened Common
  import opened Registry

  // ----- what one close does to a registry that is being shut down

  ghost predicate NoDups(order: seq<Id>) {
    order == [] || (order[0] !in order[1..] && NoDups(order[1..]))
  }

  /** Every handle that can be unloaded has a positive count. */
  ghost predicate Closable(r: Reg) {
    Wf(r) && NoDups(r.order) && forall h :: h in r.order && !r.recs[h].resident ==> r.recs[h].refCount >= 1
  }

  /** The references left on handles that can be unloaded. */
  ghost function Sum(order: seq<Id>, recs: map<Id, Handle>): int
    requires forall h :: h in order ==> h in recs
  {
    if order == [] then 0
    else (if recs[order[0]].resident then 0 else recs[order[0]].refCount) + Sum(order[1..], recs)
  }

  ghost function Total(r: Reg): int
    requires Wf(r)
  {
    Sum(r.order, r.recs)
  }

  function Residents(order: seq<Id>, recs: map<Id, Handle>): (s: seq<Id>)
    requires forall h :: h in order ==> h in recs
    ensures forall h :: h in s ==> h in order && recs[h].resident
  {
    if order == [] then []
    else (if recs[order[0]].resident then [order[0]] else []) + Residents(order[1..], recs)
  }

  lemma {:induction false} ResidentsExactly(order: seq<Id>, recs: map<Id, Handle>)
    requires forall h :: h in order ==> h in recs
    ensures forall h :: h in Residents(order, recs) <==> h in order && recs[h].resident
  {
    if order != [] {
      ResidentsExactly(order[1..], recs);
      assert order == [order[0]] + order[1..];
    }
  }

  ghost predicate SameFlags(recs: map<Id, Handle>, recs': map<Id, Handle>) {
    && recs.Keys == recs'.Keys
    && forall h :: h in recs ==> recs[h].resident == recs'[h].resident && recs[h].deps == recs'[h].deps
  }

  lemma {:induction false} SumCount(order: seq<Id>, recs: map<Id, Handle>, h: Id, m: Handle)
    requires NoDups(order) && (forall x :: x in order ==> x in recs) && h in recs
    requires m.resident == recs[h].resident
    ensures Sum(order, recs[h := m]) ==
            Sum(order, recs) + if h in order && !m.resident then m.refCount - recs[h].refCount else 0
  {
    if order != [] {
      SumCount(order[1..], recs, h, m);
    }
  }

  lemma {:induction false} SumRemove(order: seq<Id>, recs: map<Id, Handle>, h: Id)
    requires h in order && forall x :: x in order ==> x in recs
    ensures Sum(order, recs) == Sum(Remove(order, h), recs) + if recs[h].resident then 0 else recs[h].refCount
  {
    if order[0] != h {
      SumRemove(order[1..], recs, h);
      assert Remove(order, h)[1..] == Remove(order[1..], h);
    }
  }

  lemma {:induction false} SumPositive(r: Reg)
    requires Closable(r)
    ensures Total(r) >= 0
    ensures forall h :: h in r.order && !r.recs[h].resident ==> r.recs[h].refCount <= Total(r)
    decreases |r.order|
  {
    if r.order != [] {
      SumPositive(r.(order := r.order[1..]));
    }
  }

  lemma {:induction false} NoDupsRemove(order: seq<Id>, h: Id)
    requires NoDups(order)
    ensures NoDups(Remove(order, h)) && h !in Remove(order, h)
  {
    if order != [] && order[0] != h {
      NoDupsRemove(order[1..], h);
      assert Remove(order, h)[1..] == Remove(order[1..], h);
    }
  }

  lemma {:induction false} ResidentsRemove(order: seq<Id>, recs: map<Id, Handle>, h: Id)
    requires h in order && (forall x :: x in order ==> x in recs) && !recs[h].resident
    ensures Residents(Remove(order, h), recs) == Residents(order, recs)
  {
    if order[0] != h {
      ResidentsRemove(order[1..], recs, h);
      assert Remove(order, h)[1..] == Remove(order[1..], h);
    }
  }

  lemma {:induction false} ResidentsSame(order: seq<Id>, recs: map<Id, Handle>, recs': map<Id, Handle>)
    requires (forall x :: x in order ==> x in recs) && SameFlags(recs, recs')
    ensures Residents(order, recs) == Residents(order, recs')
  {
    if order != [] {
      ResidentsSame(order[1..], recs, recs');
    }
  }

  /** What any close does to a registry in shutdown: it stays closable, keeps its resident
      handles in order, and the references left never grow. */
  ghost predicate Wears(r: Reg, r': Reg)
    requires Wf(r)
  {
    && Closable(r') && Total(r') <= Total(r)
    && SameFlags(r.recs, r'.recs)
    && Residents(r'.order, r'.recs) == Residents(r.order, r.recs)
    && forall h :: h in r'.order ==> h in r.order
  }

  lemma UnlinkWears(r: Reg, h: Id)
    requires Closable(r) && h in r.order && !r.recs[h].resident && r.recs[h].refCount == 1
    ensures var r1 := Count(r, h, -1); var r2 := r1.(order := Remove(r1.order, h));
            Wears(r, r2) && Total(r2) < Total(r)
  {
    var r1 := Count(r, h, -1);
    UnlinkTotal(r, h);
    NoDupsRemove(r1.order, h);
    ResidentsRemove(r1.order, r1.recs, h);
    ResidentsSame(r.order, r.recs, r1.recs);
  }

  lemma UnlinkTotal(r: Reg, h: Id)
    requires Closable(r) && h in r.order && !r.recs[h].resident && r.recs[h].refCount == 1
    ensures var r1 := Count(r, h, -1); Total(r1.(order := Remove(r1.order, h))) == Total(r) - 1
  {
    var r1 := Count(r, h, -1);
    SumCount(r.order, r.recs, h, r1.recs[h]);
    SumRemove(r1.order, r1.recs, h);
  }

  lemma CountWears(r: Reg, h: Id)
    requires Closable(r) && h in r.order && (r.recs[h].resident || r.recs[h].refCount > 1)
    ensures Wears(r, Count(r, h, -1))
    ensures !r.recs[h].resident ==> Total(Count(r, h, -1)) < Total(r)
  {
    var r1 := Count(r, h, -1);
    SumCount(r.order, r.recs, h, r1.recs[h]);
    ResidentsSame(r.order, r.recs, r1.recs);
  }

  /** A close wears the registry down, strictly when the handle could be unloaded. */
  lemma {:induction false} CloseWears(r: Reg, h: Id)
    requires Closable(r)
    ensures Wears(r, Close(r, h))
    ensures h in r.order && !r.recs[h].resident ==> Total(Close(r, h)) < Total(r)
    decreases |r.order|, 0
  {
    if h in r.order {
      if !r.recs[h].resident && r.recs[h].refCount == 1 {
        UnlinkWears(r, h);
        var r1 := Count(r, h, -1);
        CloseAllWears(r1.(order := Remove(r1.order, h)), r1.recs[h].deps);
      } else {
        CountWears(r, h);
      }
    }
  }

  lemma {:induction false} CloseAllWears(r: Reg, deps: seq<Id>)
    requires Closable(r) && forall d :: d in deps ==> d in r.recs
    ensures Wears(r, CloseAll(r, deps))
    decreases |r.order|, 1 + |deps|
  {
    if deps != [] {
      if r.recs[deps[0]].resident {
        CloseAllWears(r, deps[1..]);
      } else {
        CloseWears(r, deps[0]);
        CloseAllWears(Close(r, deps[0]), deps[1..]);
      }
    }
  }

  // ----- the list walk of the shutdown loop

  /** Position of a listed handle. */
  function Position(order: seq<Id>, h: Id): (i: nat)
    requires h in order
    ensures i < |order| && order[i] == h && h !in order[..i]
  {
    if order[0] == h then 0 else 1 + Position(order[1..], h)
  }

  /** The handle's next field. */
  function NextOf(order: seq<Id>, h: Id): (n: Option<Id>)
    requires h in order
    ensures n.Some? ==> n.value in order
  {
    var i := Position(order, h);
    if i + 1 < |order| then Some(order[i + 1]) else None
  }

  /** How many handles a walk that stands at cur has behind it. */
  ghost function Walked(order: seq<Id>, cur: Option<Id>): nat
    requires cur.Some? ==> cur.value in order
  {
    if cur.None? then |order| else Position(order, cur.value)
  }

  lemma {:induction false} PositionUnique(order: seq<Id>, i: nat)
    requires NoDups(order) && i < |order|
    ensures Position(order, order[i]) == i
  {
    if i > 0 {
      assert order[i] == order[1..][i - 1] && order[i] in order[1..];
      PositionUnique(order[1..], i - 1);
    }
  }

  lemma WalkOn(order: seq<Id>, h: Id)
    requires NoDups(order) && h in order
    ensures Walked(order, NextOf(order, h)) == Walked(order, Some(h)) + 1
  {
    var i := Position(order, h);
    if i + 1 < |order| {
      PositionUnique(order, i + 1);
    }
  }

  /** The list after the resident handles at its head. */
  function SkipResidents(order: seq<Id>, recs: map<Id, Handle>): (s: seq<Id>)
    requires forall h :: h in order ==> h in recs
    ensures forall h :: h in s ==> h in order
  {
    if order != [] && recs[order[0]].resident then SkipResidents(order[1..], recs) else order
  }

  lemma {:induction false} AllResident(order: seq<Id>, recs: map<Id, Handle>)
    requires forall h :: h in order ==> h in recs && recs[h].resident
    ensures Residents(order, recs) == order
  {
    if order != [] {
      AllResident(order[1..], recs);
    }
  }

  // ----- lt_dlexit

  function Head(order: seq<Id>): Option<Id> {
    if order == [] then None else Some(order[0])
  }

  ghost predicate Unloadable(r: Reg)
    requires Wf(r)
  {
    exists h :: h in r.order && !r.recs[h].resident
  }

  ghost predicate ResidentBefore(r: Reg, n: nat)
    requires Wf(r) && n <= |r.order|
  {
    forall i :: 0 <= i < n ==> r.recs[r.order[i]].resident
  }

  /** Where a walk goes on after closing a handle. */
  ghost function NextAfterClose(r: Reg, tmp: Id): (next: Option<Id>)
    requires Closable(r) && tmp in r.order
    ensures next.Some? ==> next.value in Close(r, tmp).order
  {
    var next, r1 := NextOf(r.order, tmp), Close(r, tmp);
    if next.Some? && next.value !in r1.order then Head(r1.order) else next
  }

  /** The rest of a pass that stands at cur: close every handle whose count is within the level, and
      start over whenever the handle to visit next has vanished. */
  ghost function Walk(r: Reg, level: int, cur: Option<Id>): (r': Reg)
    requires Closable(r) && (cur.Some? ==> cur.value in r.order)
    ensures Wears(r, r')
    ensures Total(r') < Total(r) || r' == r
    decreases Total(r), |r.order| - Walked(r.order, cur)
  {
    if cur.None? then r
    else
      var tmp := cur.value;
      WalkOn(r.order, tmp);
      if r.recs[tmp].resident || r.recs[tmp].refCount > level then Walk(r, level, NextOf(r.order, tmp))
      else
        CloseWears(r, tmp);
        var r1 := Close(r, tmp);
        SumPositive(r1);
        Walk(r1, level, NextAfterClose(r, tmp))
  }

  lemma WalkSkips(r: Reg, level: int, tmp: Id)
    requires Closable(r) && tmp in r.order && (r.recs[tmp].resident || r.recs[tmp].refCount > level)
    ensures Walk(r, level, Some(tmp)) == Walk(r, level, NextOf(r.order, tmp))
  {
  }

  lemma WalkCloses(r: Reg, level: int, tmp: Id)
    requires Closable(r) && tmp in r.order && !r.recs[tmp].resident && r.recs[tmp].refCount <= level
    ensures var r1 := Close(r, tmp);
            && Closable(r1) && 0 <= Total(r1) < Total(r)
            && Walk(r, level, Some(tmp)) == Walk(r1, level, NextAfterClose(r, tmp))
  {
    CloseWears(r, tmp);
    SumPositive(Close(r, tmp));
  }

  ghost function OnePass(r: Reg, level: int): (r': Reg)
    requires Closable(r)
    ensures Wears(r, r')
  {
    Walk(r, level, Head(r.order))
  }

  /** A walk that changes nothing has met no handle that it could close. */
  lemma {:induction false} WalkIdle(r: Reg, level: int, cur: Option<Id>)
    requires Closable(r) && (cur.Some? ==> cur.value in r.order)
    requires Total(Walk(r, level, cur)) == Total(r)
    ensures forall i :: Walked(r.order, cur) <= i < |r.order| ==>
              r.recs[r.order[i]].resident || r.recs[r.order[i]].refCount > level
    decreases |r.order| - Walked(r.order, cur)
  {
    if cur.Some? {
      var tmp := cur.value;
      WalkOn(r.order, tmp);
      if r.recs[tmp].resident || r.recs[tmp].refCount > level {
        WalkIdle(r, level, NextOf(r.order, tmp));
      } else {
        CloseWears(r, tmp);
      }
    }
  }

  /** A pass over a list with a handle that can be unloaded gets nearer to the end: references go,
      or every count is above the level. */
  lemma PassProgress(r: Reg, level: int)
    requires Closable(r) && Unloadable(r)
    ensures var r' := OnePass(r, level); 0 <= Total(r') && (Total(r') < Total(r) || Total(r') == Total(r) > level)
  {
    var r' := OnePass(r, level);
    SumPositive(r);
    SumPositive(r');
    if Total(r') == Total(r) {
      WalkIdle(r, level, Head(r.order));
      var h :| h in r.order && !r.recs[h].resident;
      var i :| 0 <= i < |r.order| && r.order[i] == h;
      PositionUnique(r.order, 0);
    }
  }

  /** A pass over was that has come to r and stands at cur; saw tells whether it has met a handle
      that can be unloaded. */
  ghost predicate Underway(was: Reg, level: int, r: Reg, cur: Option<Id>, saw: bool) {
    && Closable(was) && Closable(r) && (cur.Some? ==> cur.value in r.order)
    && Walk(r, level, cur) == OnePass(was, level)
    && if saw then Unloadable(was) else r == was && ResidentBefore(was, Walked(r.order, cur))
  }

  lemma PassStarts(r: Reg, level: int)
    requires Closable(r)
    ensures Underway(r, level, r, Head(r.order), false)
  {
    if r.order != [] {
      PositionUnique(r.order, 0);
    }
  }

  lemma PassEnds(was: Reg, level: int, r: Reg, saw: bool)
    requires Underway(was, level, r, None, saw)
    ensures r == OnePass(was, level) && (saw <==> Unloadable(was))
  {
  }

  lemma PassSkips(was: Reg, level: int, r: Reg, tmp: Id, saw: bool)
    requires Underway(was, level, r, Some(tmp), saw) && (r.recs[tmp].resident || r.recs[tmp].refCount > level)
    ensures Underway(was, level, r, NextOf(r.order, tmp), saw || !r.recs[tmp].resident)
    ensures Walked(r.order, NextOf(r.order, tmp)) == Walked(r.order, Some(tmp)) + 1
  {
    WalkOn(r.order, tmp);
    WalkSkips(r, level, tmp);
    if r.recs[tmp].resident && !saw {
      ResidentNext(r, tmp);
    }
  }

  lemma ResidentNext(r: Reg, tmp: Id)
    requires Wf(r) && tmp in r.order && r.recs[tmp].resident && ResidentBefore(r, Position(r.order, tmp))
    ensures ResidentBefore(r, Position(r.order, tmp) + 1)
  {
  }

  lemma PassCloses(was: Reg, level: int, r: Reg, tmp: Id, saw: bool)
    requires Underway(was, level, r, Some(tmp), saw) && !r.recs[tmp].resident && r.recs[tmp].refCount <= level
    ensures Underway(was, level, Close(r, tmp), NextAfterClose(r, tmp), true)
    ensures 0 <= Total(Close(r, tmp)) < Total(r)
  {
    WalkCloses(r, level, tmp);
  }

  /** The passes from a level on, until only resident handles are left. */
  ghost function ByLevels(r: Reg, level: int): (r': Reg)
    requires Closable(r)
    ensures Wears(r, r') && !Unloadable(r')
    decreases Total(r), Gap(r, level)
  {
    if !Unloadable(r) then
      SumPositive(r);
      r
    else
      PassProgress(r, level);
      ByLevels(OnePass(r, level), level + 1)
  }

  lemma NothingToClose(r: Reg, level: int)
    requires Closable(r) && !Unloadable(r)
    ensures OnePass(r, level) == r && ByLevels(r, level) == r
  {
    IdleWalk(r, level, Head(r.order));
  }

  lemma {:induction false} IdleWalk(r: Reg, level: int, cur: Option<Id>)
    requires Closable(r) && !Unloadable(r) && (cur.Some? ==> cur.value in r.order)
    ensures Walk(r, level, cur) == r
    decreases |r.order| - Walked(r.order, cur)
  {
    if cur.Some? {
      WalkOn(r.order, cur.value);
      IdleWalk(r, level, NextOf(r.order, cur.value));
    }
  }

  /** How far the level is from the sum of counts. */
  ghost function Gap(r: Reg, level: int): nat
    requires Wf(r)
  {
    if Total(r) > level then Total(r) - level else 0
  }

  /** One more pass: the same end, and nearer to it. */
  lemma LevelStep(r: Reg, level: int)
    requires Closable(r) && Unloadable(r)
    ensures var r1 := OnePass(r, level);
            && ByLevels(r, level) == ByLevels(r1, level + 1)
            && 0 <= Total(r1) <= Total(r) && (Total(r1) == Total(r) ==> Gap(r1, level + 1) < Gap(r, level))
  {
    PassProgress(r, level);
  }

  ghost predicate IsPass(r: Reg, r': Reg, level: int) {
    Closable(r) && r' == OnePass(r, level)
  }

  /** Every pass keeps a property of the registry. */
  ghost predicate Kept(inv: Reg -> bool) {
    forall x, y, l :: IsPass(x, y, l) && inv(x) ==> inv(y)
  }

  lemma KeptOnce(r: Reg, level: int, inv: Reg -> bool)
    requires Closable(r) && inv(r) && Kept(inv)
    ensures inv(OnePass(r, level))
  {
    assert IsPass(r, OnePass(r, level), level);
  }

  /** What every pass keeps holds at the end. */
  lemma {:induction false} LevelsKeep(r: Reg, level: int, inv: Reg -> bool) returns (end: Reg)
    requires Closable(r) && inv(r) && Kept(inv)
    ensures end == ByLevels(r, level) && inv(end)
    decreases Total(r), Gap(r, level)
  {
    if Unloadable(r) {
      KeptOnce(r, level, inv);
      LevelStep(r, level);
      end := LevelsKeep(OnePass(r, level), level + 1, inv);
    } else {
      NothingToClose(r, level);
      end := r;
    }
  }

  /** Below the first level a pass closes nothing. */
  lemma PassBelow(r: Reg, level: int)
    requires Closable(r) && level < 1
    ensures OnePass(r, level) == r
  {
    WalkBelow(r, level, Head(r.order));
  }

  lemma {:induction false} WalkBelow(r: Reg, level: int, cur: Option<Id>)
    requires Closable(r) && level < 1 && (cur.Some? ==> cur.value in r.order)
    ensures Walk(r, level, cur) == r
    decreases |r.order| - Walked(r.order, cur)
  {
    if cur.Some? {
      WalkOn(r.order, cur.value);
      WalkSkips(r, level, cur.value);
      WalkBelow(r, level, NextOf(r.order, cur.value));
    }
  }

  ghost function Skipped(r: Reg): (r': Reg)
    requires Closable(r)
    ensures Closable(r')
  {
    SkippedClosable(r.order, r.recs);
    r.(order := SkipResidents(r.order, r.recs))
  }

  lemma {:induction false} SkippedClosable(order: seq<Id>, recs: map<Id, Handle>)
    requires (forall h :: h in order ==> h in recs) && NoDups(order)
    ensures NoDups(SkipResidents(order, recs))
  {
    if order != [] && recs[order[0]].resident {
      SkippedClosable(order[1..], recs);
    }
  }

  /** lt_dlexit, at the last call */
  ghost function Shutdown(r: Reg): (r': Reg)
    requires Closable(r)
  {
    ByLevels(Skipped(r), 1)
  }

  /** The list from the first handle that is not resident on. */
  ghost predicate BehindResidents(r: Reg, i: int)
    requires Wf(r)
  {
    && 0 <= i <= |r.order| && (forall k :: 0 <= k < i ==> r.recs[r.order[k]].resident)
    && (i < |r.order| ==> !r.recs[r.order[i]].resident)
  }

  lemma {:induction false} SkipsExactly(r: Reg, i: int)
    requires Wf(r) && BehindResidents(r, i)
    ensures SkipResidents(r.order, r.recs) == r.order[i..]
    decreases |r.order|
  {
    if i > 0 {
      var rest := r.(order := r.order[1..]);
      assert BehindResidents(rest, i - 1);
      SkipsExactly(rest, i - 1);
      assert rest.order[i - 1..] == r.order[i..];
    }
  }

  /** For any positive counts exactly the resident handles behind the head remain registered: those
      that are listed after some handle that is not resident, in their order. */
  lemma ShutdownLeavesResidents(r: Reg)
    requires Closable(r)
    ensures Shutdown(r).order == Residents(SkipResidents(r.order, r.recs), r.recs)
    ensures forall i :: BehindResidents(r, i) ==>
              forall h :: h in Shutdown(r).order <==> h in r.order[i..] && r.recs[h].resident
  {
    var r' := Shutdown(r);
    ResidentsExactly(SkipResidents(r.order, r.recs), r.recs);
    forall i | BehindResidents(r, i) ensures SkipResidents(r.order, r.recs) == r.order[i..] {
      SkipsExactly(r, i);
    }
    AllResident(r'.order, r'.recs);
    ResidentsSame(r'.order, r'.recs, r.recs);
  }
}
