/** The libltdl module registry: a list of reference-counted handles with dependency handles.
    Pure specification of opening and closing, and the counting invariant they keep. */
module Registry {
  import opened Common

  type Id = nat

  /** struct lt__handle; no file name stands for the handle of the program itself. */
  datatype Handle = Handle(filename: Option<string>, refCount: int, resident: bool, deps: seq<Id>)

  /** The registered handles, newest first, every handle ever allocated, the next unused
      identity, and how often a close was asked of a handle that is not registered. */
  datatype Reg = Reg(order: seq<Id>, recs: map<Id, Handle>, next: Id, invalid: nat)

  ghost predicate Wf(r: Reg) {
    && (forall h :: h in r.order ==> h in r.recs)
    && (forall h, d :: h in r.recs && d in r.recs[h].deps ==> d in r.recs)
    && (forall h :: h in r.recs ==> h < r.next)
  }

  /** The list without the first occurrence of h. */
  function Remove(s: seq<Id>, h: Id): (r: seq<Id>)
    ensures |r| == if h in s then |s| - 1 else |s|
    ensures forall x :: x in r ==> x in s
    ensures forall x :: x in s && x != h ==> x in r
  {
    if s == [] then [] else if s[0] == h then s[1..] else [s[0]] + Remove(s[1..], h)
  }

  /** One reference to h is given up or taken. */
  function Count(r: Reg, h: Id, delta: int): (r': Reg)
    requires Wf(r) && h in r.recs
    ensures Wf(r') && r'.recs.Keys == r.recs.Keys && r'.order == r.order && r'.next == r.next
  {
    r.(recs := r.recs[h := r.recs[h].(refCount := r.recs[h].refCount + delta)])
  }

  ghost predicate Shrinks(r: Reg, r': Reg) {
    && Wf(r') && |r'.order| <= |r.order|
    && r'.recs.Keys == r.recs.Keys && r'.next == r.next
  }

  /** lt_dlclose */
  function Close(r: Reg, h: Id): (r': Reg)
    requires Wf(r)
    ensures Shrinks(r, r')
    decreases |r.order|, 0
  {
    if h !in r.order then r.(invalid := r.invalid + 1)
    else
      var r1 := Count(r, h, -1);
      if r1.recs[h].refCount <= 0 && !r1.recs[h].resident then
        CloseAll(r1.(order := Remove(r1.order, h)), r1.recs[h].deps)
      else r1
  }

  /** unload_deplibs */
  function CloseAll(r: Reg, deps: seq<Id>): (r': Reg)
    requires Wf(r) && forall d :: d in deps ==> d in r.recs
    ensures Shrinks(r, r')
    decreases |r.order|, 1 + |deps|
  {
    if deps == [] then r
    else
      var r1 := if r.recs[deps[0]].resident then r else Close(r, deps[0]);
      CloseAll(r1, deps[1..])
  }

  /** A file name the loader may try for a module, and whether a loader would open it. */
  datatype Candidate = Candidate(filename: Option<string>, loads: bool)

  /** One attempt to open a module: what reading its description and the disk turns up. */
  datatype Plan = Plan(deps: seq<Plan>, candidates: seq<Candidate>, resident: bool)

  /** First registered handle with a file name. */
  function FindFile(order: seq<Id>, recs: map<Id, Handle>, filename: Option<string>): (r: Option<Id>)
    requires forall h :: h in order ==> h in recs
    ensures r.Some? ==> r.value in order && recs[r.value].filename == filename
    ensures r.None? ==> forall h :: h in order ==> recs[h].filename != filename
  {
    if order == [] then None
    else if recs[order[0]].filename == filename then Some(order[0])
    else FindFile(order[1..], recs, filename)
  }

  /** The first candidate that is already registered or that loads. */
  function Resolve(r: Reg, cs: seq<Candidate>): Option<Candidate>
    requires Wf(r)
  {
    if cs == [] then None
    else if FindFile(r.order, r.recs, cs[0].filename).Some? || cs[0].loads then Some(cs[0])
    else Resolve(r, cs[1..])
  }

  /** A candidate that an open can take: its file is registered, or a loader opens it. */
  ghost predicate Usable(r: Reg, c: Candidate)
    requires Wf(r)
  {
    Registered(r, c.filename) || c.loads
  }

  ghost predicate Registered(r: Reg, filename: Option<string>)
    requires Wf(r)
  {
    exists h :: h in r.order && r.recs[h].filename == filename
  }

  ghost predicate FirstUsable(r: Reg, cs: seq<Candidate>, i: int)
    requires Wf(r)
  {
    0 <= i < |cs| && Usable(r, cs[i]) && forall k :: 0 <= k < i ==> !Usable(r, cs[k])
  }

  /** The candidate taken is the first usable one; there is none exactly when none is usable. */
  lemma {:induction false} ResolveExactly(r: Reg, cs: seq<Candidate>)
    requires Wf(r)
    ensures Resolve(r, cs).None? <==> forall i :: 0 <= i < |cs| ==> !Usable(r, cs[i])
    ensures forall i :: FirstUsable(r, cs, i) ==> Resolve(r, cs) == Some(cs[i])
  {
    if cs != [] {
      ResolveExactly(r, cs[1..]);
      assert cs == [cs[0]] + cs[1..];
      if !Usable(r, cs[0]) {
        forall i | FirstUsable(r, cs, i) ensures Resolve(r, cs) == Some(cs[i]) {
          assert FirstUsable(r, cs[1..], i - 1);
        }
      }
    }
  }

  ghost predicate Extends(r: Reg, r': Reg) {
    Wf(r') && r.recs.Keys <= r'.recs.Keys && r.next <= r'.next
  }

  /** The handle becomes the head of the list when it has no reference yet. */
  function Register(r: Reg, h: Id): (r': Reg)
    requires Wf(r) && h in r.recs
    ensures Extends(r, r')
  {
    if r.recs[h].refCount == 0 then Count(r, h, 1).(order := [h] + r.order) else r
  }

  /** A new handle, with the dependencies opened for it. */
  function Install(r: Reg, filename: Option<string>, resident: bool, ds: seq<Id>): (r': Reg)
    requires Wf(r) && forall d :: d in ds ==> d in r.recs
    ensures Extends(r, r') && r.next in r'.recs
  {
    var h := r.next;
    var r1 := r.(recs := r.recs[h := Handle(filename, 0, resident, ds)], next := h + 1);
    Register(r1, h)
  }

  /** Once the dependencies are open: find the module and register it, or give up. */
  function Finish(r: Reg, ds: seq<Id>, candidates: seq<Candidate>, resident: bool): (res: (Reg, Option<Id>))
    requires Wf(r) && forall d :: d in ds ==> d in r.recs
    ensures Extends(r, res.0) && (res.1.Some? ==> res.1.value in res.0.recs)
  {
    match Resolve(r, candidates)
    case None => (CloseAll(r, ds), None)
    case Some(c) =>
      match FindFile(r.order, r.recs, c.filename)
      case Some(h) => (Register(CloseAll(Count(r, h, 1), ds), h), Some(h))
      case None => (Install(r, c.filename, resident, ds), Some(r.next))
  }

  /** try_dlopen */
  function Open(r: Reg, plan: Plan): (res: (Reg, Option<Id>))
    requires Wf(r)
    ensures Extends(r, res.0) && (res.1.Some? ==> res.1.value in res.0.recs)
    decreases plan, 1
  {
    var (r1, ds) := OpenAll(r, plan.deps);
    Finish(r1, ds, plan.candidates, plan.resident)
  }

  /** load_deplibs: open each, keep those that got. */
  function OpenAll(r: Reg, plans: seq<Plan>): (res: (Reg, seq<Id>))
    requires Wf(r)
    ensures Extends(r, res.0) && forall d :: d in res.1 ==> d in res.0.recs
    decreases plans, 0
  {
    if plans == [] then (r, [])
    else
      var (r1, got) := Open(r, plans[0]);
      var (r2, rest) := OpenAll(r1, plans[1..]);
      (r2, (if got.Some? then [got.value] else []) + rest)
  }

  function MakeResident(r: Reg, h: Id): (r': Reg)
    requires Wf(r) && h in r.recs
    ensures Wf(r')
  {
    r.(recs := r.recs[h := r.recs[h].(resident := true)])
  }

  // ----- what one call does

  /** A close of a handle that is not registered only counts an error; one that leaves a reference, or
      meets a resident handle, takes one reference and changes nothing else. */
  lemma CloseEffect(r: Reg, h: Id)
    requires Wf(r)
    ensures h !in r.order ==> Close(r, h) == Reg(r.order, r.recs, r.next, r.invalid + 1)
    ensures h in r.order && (r.recs[h].resident || r.recs[h].refCount > 1) ==>
              && Close(r, h).order == r.order && Close(r, h).invalid == r.invalid
              && Close(r, h).recs == r.recs[h := r.recs[h].(refCount := r.recs[h].refCount - 1)]
  {
  }

  /** The last reference unregisters a handle that is not resident. */
  lemma LastCloseUnlists(r: Reg, h: Id)
    requires Wf(r) && h in r.order && ListedOnce(r.order) && !r.recs[h].resident && r.recs[h].refCount <= 1
    ensures h !in Close(r, h).order
  {
    var r1 := Count(r, h, -1);
    RemovedOnce(r.order, h);
    NeverRelisted(r1.(order := Remove(r1.order, h)), r1.recs[h].deps, h);
  }

  ghost predicate ListedOnce(s: seq<Id>) {
    forall i, j :: 0 <= i < j < |s| ==> s[i] != s[j]
  }

  lemma {:induction false} RemovedOnce(s: seq<Id>, h: Id)
    requires ListedOnce(s)
    ensures h !in Remove(s, h)
  {
    if s != [] {
      if s[0] == h {
        assert forall j :: 0 <= j < |s| - 1 ==> s[1..][j] == s[j + 1];
      } else {
        RemovedOnce(s[1..], h);
      }
    }
  }

  /** Closing lists nothing that was not listed. */
  lemma {:induction false} NeverRelisted(r: Reg, deps: seq<Id>, h: Id)
    requires Wf(r) && forall d :: d in deps ==> d in r.recs
    ensures h in CloseAll(r, deps).order ==> h in r.order
    decreases |r.order|, 1 + |deps|
  {
    if deps != [] {
      if r.recs[deps[0]].resident {
        NeverRelisted(r, deps[1..], h);
      } else {
        NotRelisted(r, deps[0], h);
        NeverRelisted(Close(r, deps[0]), deps[1..], h);
      }
    }
  }

  lemma {:induction false} NotRelisted(r: Reg, x: Id, h: Id)
    requires Wf(r)
    ensures h in Close(r, x).order ==> h in r.order
    decreases |r.order|, 0
  {
    if x in r.order {
      var r1 := Count(r, x, -1);
      if r1.recs[x].refCount <= 0 && !r1.recs[x].resident {
        NeverRelisted(r1.(order := Remove(r1.order, x)), r1.recs[x].deps, h);
      }
    }
  }

  /** The registries and the handles that opening plans one after the other goes through. */
  ghost predicate OpenedInTurn(rs: seq<Reg>, gots: seq<Option<Id>>, plans: seq<Plan>) {
    && |rs| == |plans| + 1 && |gots| == |plans|
    && (forall i :: 0 <= i < |rs| ==> Wf(rs[i]))
    && forall i :: 0 <= i < |plans| ==> (rs[i + 1], gots[i]) == Open(rs[i], plans[i])
  }

  /** The handles among the results. */
  ghost function Handles(gots: seq<Option<Id>>): seq<Id> {
    if gots == [] then [] else (if gots[0].Some? then [gots[0].value] else []) + Handles(gots[1..])
  }

  /** Every dependency is opened, in order, each on what the ones before it left, and those that
      opened are kept. */
  lemma {:induction false} OpenAllInTurn(r: Reg, rs: seq<Reg>, gots: seq<Option<Id>>, plans: seq<Plan>)
    requires OpenedInTurn(rs, gots, plans) && rs[0] == r
    ensures OpenAll(r, plans) == (rs[|plans|], Handles(gots))
    decreases |plans|
  {
    if plans != [] {
      assert (rs[0 + 1], gots[0]) == Open(rs[0], plans[0]);
      OpenedLater(rs, gots, plans);
      OpenAllInTurn(rs[1], rs[1..], gots[1..], plans[1..]);
    }
  }

  lemma OpenedLater(rs: seq<Reg>, gots: seq<Option<Id>>, plans: seq<Plan>)
    requires OpenedInTurn(rs, gots, plans) && plans != []
    ensures OpenedInTurn(rs[1..], gots[1..], plans[1..])
  {
    var rs', gots', plans' := rs[1..], gots[1..], plans[1..];
    forall i | 0 <= i < |plans'| ensures (rs'[i + 1], gots'[i]) == Open(rs'[i], plans'[i]) {
      assert (rs[i + 1 + 1], gots[i + 1]) == Open(rs[i + 1], plans[i + 1]);
    }
  }

  // ----- the counting invariant

  /** Dependency slots of the registered handles, as a multiset of the handles they point at. */
  ghost function Slots(order: seq<Id>, recs: map<Id, Handle>): multiset<Id>
    requires forall h :: h in order ==> h in recs
  {
    if order == [] then multiset{} else multiset(recs[order[0]].deps) + Slots(order[1..], recs)
  }

  /** No handle is listed twice, and no two listed handles share a file name. */
  ghost predicate Apart(order: seq<Id>, recs: map<Id, Handle>)
    requires forall h :: h in order ==> h in recs
  {
    order == [] ||
    (&& (forall x :: x in order[1..] ==> x != order[0] && recs[x].filename != recs[order[0]].filename)
     && Apart(order[1..], recs))
  }

  /** Every handle is listed before the handles it depends on. */
  ghost predicate Layered(order: seq<Id>, recs: map<Id, Handle>)
    requires forall h :: h in order ==> h in recs
  {
    order == [] ||
    ((forall d :: d in recs[order[0]].deps ==> d in order[1..]) && Layered(order[1..], recs))
  }

  /** References to h that somebody holds: those owed by clients or by a close or an open in
      progress, and the dependency slots of registered handles. */
  ghost function Held(r: Reg, owed: multiset<Id>, h: Id): nat
    requires Wf(r)
  {
    owed[h] + Slots(r.order, r.recs)[h]
  }

  ghost predicate CountedAt(r: Reg, owed: multiset<Id>, h: Id)
    requires Wf(r)
  {
    if h in r.order then
      && Held(r, owed, h) <= r.recs[h].refCount
      && (!r.recs[h].resident ==> r.recs[h].refCount == Held(r, owed, h) >= 1)
    else Held(r, owed, h) == 0
  }

  /** Everything held is registered; a non-resident handle counts exactly what is held. */
  ghost predicate Counted(r: Reg, owed: multiset<Id>) {
    && Wf(r) && Apart(r.order, r.recs) && Layered(r.order, r.recs)
    && forall h :: CountedAt(r, owed, h)
  }

  lemma {:induction false} SlotsSameDeps(order: seq<Id>, recs: map<Id, Handle>, recs': map<Id, Handle>)
    requires forall h :: h in order ==> h in recs && h in recs' && recs[h].deps == recs'[h].deps
    ensures Slots(order, recs) == Slots(order, recs')
  {
    if order != [] {
      SlotsSameDeps(order[1..], recs, recs');
    }
  }

  lemma {:induction false} ApartSameNames(order: seq<Id>, recs: map<Id, Handle>, recs': map<Id, Handle>)
    requires forall h :: h in order ==> h in recs && h in recs' && recs[h].filename == recs'[h].filename
    ensures Apart(order, recs) == Apart(order, recs')
  {
    if order != [] {
      ApartSameNames(order[1..], recs, recs');
    }
  }

  lemma {:induction false} LayeredSameDeps(order: seq<Id>, recs: map<Id, Handle>, recs': map<Id, Handle>)
    requires forall h :: h in order ==> h in recs && h in recs' && recs[h].deps == recs'[h].deps
    ensures Layered(order, recs) == Layered(order, recs')
  {
    if order != [] {
      LayeredSameDeps(order[1..], recs, recs');
    }
  }

  lemma {:induction false} LayeredRemove(order: seq<Id>, recs: map<Id, Handle>, h: Id)
    requires (forall x :: x in order ==> x in recs) && Layered(order, recs)
    requires h !in Slots(order, recs)
    ensures Layered(Remove(order, h), recs)
  {
    if order != [] && order[0] != h {
      LayeredRemove(order[1..], recs, h);
      assert Remove(order, h)[1..] == Remove(order[1..], h);
      assert h !in multiset(recs[order[0]].deps);
    }
  }

  lemma {:induction false} SlotsRemove(order: seq<Id>, recs: map<Id, Handle>, h: Id)
    requires h in order && forall x :: x in order ==> x in recs
    ensures Slots(order, recs) == Slots(Remove(order, h), recs) + multiset(recs[h].deps)
  {
    if order[0] != h {
      SlotsRemove(order[1..], recs, h);
      assert Remove(order, h)[1..] == Remove(order[1..], h);
    }
  }

  lemma {:induction false} ApartRemove(order: seq<Id>, recs: map<Id, Handle>, h: Id)
    requires (forall x :: x in order ==> x in recs) && Apart(order, recs)
    ensures Apart(Remove(order, h), recs) && h !in Remove(order, h)
  {
    if order != [] && order[0] != h {
      ApartRemove(order[1..], recs, h);
      assert Remove(order, h)[1..] == Remove(order[1..], h);
    }
  }

  /** A change of one count leaves the slots and the names alone. */
  lemma CountKeeps(r: Reg, h: Id, delta: int)
    requires Wf(r) && h in r.recs
    ensures var r1 := Count(r, h, delta);
            && Slots(r1.order, r1.recs) == Slots(r.order, r.recs)
            && Apart(r1.order, r1.recs) == Apart(r.order, r.recs)
            && Layered(r1.order, r1.recs) == Layered(r.order, r.recs)
  {
    var r1 := Count(r, h, delta);
    SlotsSameDeps(r.order, r.recs, r1.recs);
    ApartSameNames(r.order, r.recs, r1.recs);
    LayeredSameDeps(r.order, r.recs, r1.recs);
  }

  /** Giving up one owed reference keeps the invariant, however far the close cascades. */
  lemma {:induction false} CloseCounted(r: Reg, owed: multiset<Id>, h: Id)
    requires Counted(r, owed) && h in owed
    ensures Counted(Close(r, h), owed - multiset{h})
    ensures Close(r, h).invalid == r.invalid
    decreases |r.order|, 0
  {
    assert CountedAt(r, owed, h);
    var r1 := Count(r, h, -1);
    if r1.recs[h].refCount <= 0 && !r1.recs[h].resident {
      var deps := r1.recs[h].deps;
      LastReference(r, owed, h);
      CloseAllCounted(r1.(order := Remove(r1.order, h)), owed - multiset{h} + multiset(deps), deps);
      assert owed - multiset{h} + multiset(deps) - multiset(deps) == owed - multiset{h};
    } else {
      OneReference(r, owed, h);
    }
  }

  lemma OneReference(r: Reg, owed: multiset<Id>, h: Id)
    requires Counted(r, owed) && h in owed && h in r.order
    requires r.recs[h].resident || r.recs[h].refCount > 1
    ensures Counted(Count(r, h, -1), owed - multiset{h})
  {
    var r1 := Count(r, h, -1);
    CountKeeps(r, h, -1);
    forall x ensures CountedAt(r1, owed - multiset{h}, x) {
      assert CountedAt(r, owed, x);
    }
  }

  /** When the last reference goes, nothing registered depends on the handle any more, and the
      references its own slots held become owed. */
  lemma LastReference(r: Reg, owed: multiset<Id>, h: Id)
    requires Counted(r, owed) && h in owed && h in r.order
    requires r.recs[h].refCount <= 1 && !r.recs[h].resident
    ensures h !in Slots(r.order, r.recs)
    ensures var r1 := Count(r, h, -1);
            Counted(r1.(order := Remove(r1.order, h)), owed - multiset{h} + multiset(r1.recs[h].deps))
  {
    var r1 := Count(r, h, -1);
    var r2 := r1.(order := Remove(r1.order, h));
    CountKeeps(r, h, -1);
    ApartRemove(r1.order, r1.recs, h);
    assert CountedAt(r, owed, h);
    LayeredRemove(r1.order, r1.recs, h);
    var owed2 := owed - multiset{h} + multiset(r1.recs[h].deps);
    forall x ensures CountedAt(r2, owed2, x) {
      UnlinkedHeld(r, owed, h, x);
      assert CountedAt(r, owed, x);
    }
  }

  /** Unlinking a handle moves the references that its slots held to what is owed. */
  lemma UnlinkedHeld(r: Reg, owed: multiset<Id>, h: Id, x: Id)
    requires Wf(r) && h in owed && h in r.order
    ensures var r1 := Count(r, h, -1); var r2 := r1.(order := Remove(r1.order, h));
            Held(r2, owed - multiset{h} + multiset(r1.recs[h].deps), x) == Held(r, owed, x) - if x == h then 1 else 0
  {
    var r1 := Count(r, h, -1);
    CountKeeps(r, h, -1);
    SlotsRemove(r1.order, r1.recs, h);
  }

  lemma {:induction false} CloseAllCounted(r: Reg, owed: multiset<Id>, deps: seq<Id>)
    requires Counted(r, owed) && multiset(deps) <= owed
    requires forall d :: d in deps ==> d in r.recs
    ensures Counted(CloseAll(r, deps), owed - multiset(deps))
    ensures CloseAll(r, deps).invalid == r.invalid
    decreases |r.order|, 1 + |deps|
  {
    if deps == [] {
      assert owed - multiset(deps) == owed;
    } else {
      var d := deps[0];
      SplitOwed(owed, deps);
      if r.recs[d].resident {
        KeepResident(r, owed, d);
        CloseAllCounted(r, owed - multiset{d}, deps[1..]);
      } else {
        CloseCounted(r, owed, d);
        CloseAllCounted(Close(r, d), owed - multiset{d}, deps[1..]);
      }
    }
  }

  lemma SplitOwed(owed: multiset<Id>, deps: seq<Id>)
    requires deps != [] && multiset(deps) <= owed
    ensures deps[0] in owed && multiset(deps[1..]) <= owed - multiset{deps[0]}
    ensures owed - multiset{deps[0]} - multiset(deps[1..]) == owed - multiset(deps)
  {
    assert deps == [deps[0]] + deps[1..];
    assert multiset(deps) == multiset{deps[0]} + multiset(deps[1..]);
  }

  /** Dropping a reference to a resident handle without counting it is harmless. */
  lemma KeepResident(r: Reg, owed: multiset<Id>, d: Id)
    requires Counted(r, owed) && d in owed && d in r.recs && r.recs[d].resident
    ensures Counted(r, owed - multiset{d})
  {
    forall x ensures CountedAt(r, owed - multiset{d}, x) {
      assert CountedAt(r, owed, x);
    }
  }
}
