/** Whole runs of the module registry: what holds after any sequence of opens and closes by
    clients that close only what they opened. */
module RegistryRuns {
  import opened Common
  import opened Registry

  lemma TakeReference(r: Reg, owed: multiset<Id>, h: Id)
    requires Counted(r, owed) && h in r.order
    ensures Counted(Count(r, h, 1), owed + multiset{h})
  {
    var r1 := Count(r, h, 1);
    CountKeeps(r, h, 1);
    forall x ensures CountedAt(r1, owed + multiset{h}, x) {
      assert CountedAt(r, owed, x);
    }
  }

  /** Registering a fresh handle turns the references it was built with into its slots. */
  lemma RegisterFresh(r: Reg, owed: multiset<Id>, filename: Option<string>, resident: bool, ds: seq<Id>)
    requires Counted(r, owed + multiset(ds))
    requires forall h :: h in r.order ==> r.recs[h].filename != filename
    requires forall d :: d in ds ==> d in r.recs
    ensures Counted(Install(r, filename, resident, ds), owed + multiset{r.next})
  {
    var h := r.next;
    var r3 := Install(r, filename, resident, ds);
    assert h !in r.order;
    SlotsSameDeps(r.order, r.recs, r3.recs);
    ApartSameNames(r.order, r.recs, r3.recs);
    LayeredSameDeps(r.order, r.recs, r3.recs);
    forall d | d in ds ensures d in r.order {
      assert CountedAt(r, owed + multiset(ds), d);
    }
    assert r3.order[1..] == r.order;
    forall x ensures CountedAt(r3, owed + multiset{h}, x) {
      assert CountedAt(r, owed + multiset(ds), x);
    }
  }

  ghost function Gained(got: Option<Id>): multiset<Id> {
    if got.Some? then multiset{got.value} else multiset{}
  }

  /** Nothing loads: the dependencies just opened are closed again. */
  lemma GiveBack(r: Reg, owed: multiset<Id>, ds: seq<Id>)
    requires Counted(r, owed + multiset(ds)) && forall d :: d in ds ==> d in r.recs
    ensures Counted(CloseAll(r, ds), owed) && CloseAll(r, ds).invalid == r.invalid
  {
    CloseAllCounted(r, owed + multiset(ds), ds);
    assert owed + multiset(ds) - multiset(ds) == owed;
  }

  /** The file is already registered: share it, and close the dependencies just opened. */
  lemma Share(r: Reg, owed: multiset<Id>, ds: seq<Id>, h: Id)
    requires Counted(r, owed + multiset(ds)) && h in r.order
    requires forall d :: d in ds ==> d in r.recs
    ensures var r' := Register(CloseAll(Count(r, h, 1), ds), h);
            Counted(r', owed + multiset{h}) && r'.invalid == r.invalid
  {
    TakeReference(r, owed + multiset(ds), h);
    assert owed + multiset(ds) + multiset{h} == owed + multiset{h} + multiset(ds);
    GiveBack(Count(r, h, 1), owed + multiset{h}, ds);
    assert CountedAt(CloseAll(Count(r, h, 1), ds), owed + multiset{h}, h);
  }

  lemma FinishCounted(r: Reg, owed: multiset<Id>, ds: seq<Id>, candidates: seq<Candidate>, resident: bool)
    requires Counted(r, owed + multiset(ds)) && forall d :: d in ds ==> d in r.recs
    ensures var (r', got) := Finish(r, ds, candidates, resident);
            Counted(r', owed + Gained(got)) && r'.invalid == r.invalid
  {
    match Resolve(r, candidates)
    case None =>
      GiveBack(r, owed, ds);
      assert owed + Gained(None) == owed;
    case Some(c) =>
      match FindFile(r.order, r.recs, c.filename)
      case Some(h) => Share(r, owed, ds, h);
      case None => RegisterFresh(r, owed, c.filename, resident, ds);
  }

  /** Opening a module, with everything it pulls in, adds one owed reference or none at all. */
  lemma {:induction false} OpenCounted(r: Reg, owed: multiset<Id>, plan: Plan)
    requires Counted(r, owed)
    ensures var (r', got) := Open(r, plan);
            Counted(r', owed + Gained(got)) && r'.invalid == r.invalid
    decreases plan, 1
  {
    var (r1, ds) := OpenAll(r, plan.deps);
    OpenAllCounted(r, owed, plan.deps);
    FinishCounted(r1, owed, ds, plan.candidates, plan.resident);
  }

  lemma {:induction false} OpenAllCounted(r: Reg, owed: multiset<Id>, plans: seq<Plan>)
    requires Counted(r, owed)
    ensures var (r', ds) := OpenAll(r, plans);
            Counted(r', owed + multiset(ds)) && r'.invalid == r.invalid
    decreases plans, 0
  {
    if plans == [] {
      assert owed + multiset([]) == owed;
    } else {
      var (r1, got) := Open(r, plans[0]);
      OpenCounted(r, owed, plans[0]);
      OpenAllCounted(r1, owed + Gained(got), plans[1..]);
      var (r2, rest) := OpenAll(r1, plans[1..]);
      assert owed + Gained(got) + multiset(rest) == owed + multiset((if got.Some? then [got.value] else []) + rest);
    }
  }

  /** The result of an open, once the dependencies are open: it fails exactly when no candidate is
      registered or loads; otherwise the handle it returns is registered under the first candidate
      that is or does. It is the handle registered before, if there was one, and else a new one at
      the head of the list, with the dependencies, the flag and one reference. */
  lemma OpenResult(r: Reg, owed: multiset<Id>, ds: seq<Id>, candidates: seq<Candidate>, resident: bool)
    requires Counted(r, owed + multiset(ds)) && forall d :: d in ds ==> d in r.recs
    ensures var (r', got) := Finish(r, ds, candidates, resident);
            && (got.None? <==> forall i :: 0 <= i < |candidates| ==> !Usable(r, candidates[i]))
            && forall i :: FirstUsable(r, candidates, i) ==> Opens(r, ds, candidates[i].filename, resident, r', got)
  {
    ResolveExactly(r, candidates);
    forall i | FirstUsable(r, candidates, i)
      ensures var (r', got) := Finish(r, ds, candidates, resident);
              Opens(r, ds, candidates[i].filename, resident, r', got)
    {
      OpenTaken(r, owed, ds, candidates, resident, candidates[i]);
    }
  }

  ghost predicate Opens(r: Reg, ds: seq<Id>, filename: Option<string>, resident: bool, r': Reg, got: Option<Id>)
    requires Wf(r) && Wf(r')
  {
    && got.Some? && got.value in r'.order && r'.recs[got.value].filename == filename
    && (forall h :: h in r.order && r.recs[h].filename == filename ==> got.value == h)
    && (!Registered(r, filename) ==>
          && got.value !in r.recs && r'.order == [got.value] + r.order
          && r'.recs[got.value] == Handle(filename, 1, resident, ds))
  }

  lemma OpenTaken(r: Reg, owed: multiset<Id>, ds: seq<Id>, candidates: seq<Candidate>, resident: bool, c: Candidate)
    requires Counted(r, owed + multiset(ds)) && forall d :: d in ds ==> d in r.recs
    requires Resolve(r, candidates) == Some(c)
    ensures var (r', got) := Finish(r, ds, candidates, resident); Opens(r, ds, c.filename, resident, r', got)
  {
    match FindFile(r.order, r.recs, c.filename)
    case Some(h) =>
      Share(r, owed, ds, h);
      var r' := Finish(r, ds, candidates, resident).0;
      assert CountedAt(r', owed + multiset{h}, h);
      NamesStay(Count(r, h, 1), ds, h);
      forall x | x in r.order && r.recs[x].filename == c.filename ensures x == h {
        OneName(r.order, r.recs, x, h);
      }
    case None =>
  }

  /** No two listed handles share a file name. */
  lemma {:induction false} OneName(order: seq<Id>, recs: map<Id, Handle>, a: Id, b: Id)
    requires (forall x :: x in order ==> x in recs) && Apart(order, recs)
    requires a in order && b in order && recs[a].filename == recs[b].filename
    ensures a == b
  {
    if order[0] != a && order[0] != b {
      OneName(order[1..], recs, a, b);
    }
  }

  /** Closing never renames a handle. */
  lemma {:induction false} NamesStay(r: Reg, deps: seq<Id>, h: Id)
    requires Wf(r) && h in r.recs && forall d :: d in deps ==> d in r.recs
    ensures CloseAll(r, deps).recs[h].filename == r.recs[h].filename
    decreases |r.order|, 1 + |deps|
  {
    if deps != [] {
      if r.recs[deps[0]].resident {
        NamesStay(r, deps[1..], h);
      } else {
        NameStays(r, deps[0], h);
        NamesStay(Close(r, deps[0]), deps[1..], h);
      }
    }
  }

  lemma {:induction false} NameStays(r: Reg, x: Id, h: Id)
    requires Wf(r) && h in r.recs
    ensures Close(r, x).recs[h].filename == r.recs[h].filename
    decreases |r.order|, 0
  {
    if x in r.order {
      var r1 := Count(r, x, -1);
      if r1.recs[x].refCount <= 0 && !r1.recs[x].resident {
        NamesStay(r1.(order := Remove(r1.order, x)), r1.recs[x].deps, h);
      }
    }
  }

  // ----- runs

  datatype Call = DlOpen(plan: Plan) | DlClose(handle: Id) | DlMakeResident(handle: Id)

  /** The registry, and the opens that clients have not closed yet. */
  datatype Client = Client(reg: Reg, opens: multiset<Id>)

  const START: Client := Client(Reg([], map[], 0, 0), multiset{})

  /** Clients name only handles they hold. */
  ghost predicate Legal(c: Client, call: Call) {
    match call
    case DlOpen(_) => true
    case DlClose(h) => h in c.opens
    case DlMakeResident(h) => h in c.opens && h in c.reg.recs
  }

  ghost function Do(c: Client, call: Call): Client
    requires Wf(c.reg) && Legal(c, call)
  {
    match call
    case DlOpen(plan) => var (r, got) := Open(c.reg, plan); Client(r, c.opens + Gained(got))
    case DlClose(h) => Client(Close(c.reg, h), c.opens - multiset{h})
    case DlMakeResident(h) => Client(MakeResident(c.reg, h), c.opens)
  }

  ghost predicate IsRun(states: seq<Client>, calls: seq<Call>) {
    && |states| == |calls| + 1 && states[0] == START
    && forall k :: 0 <= k < |calls| ==>
         Wf(states[k].reg) && Legal(states[k], calls[k]) && states[k + 1] == Do(states[k], calls[k])
  }

  lemma ResidentCounted(r: Reg, owed: multiset<Id>, h: Id)
    requires Counted(r, owed) && h in r.recs
    ensures Counted(MakeResident(r, h), owed)
  {
    var r1 := MakeResident(r, h);
    SlotsSameDeps(r.order, r.recs, r1.recs);
    ApartSameNames(r.order, r.recs, r1.recs);
    LayeredSameDeps(r.order, r.recs, r1.recs);
    forall x ensures CountedAt(r1, owed, x) {
      assert CountedAt(r, owed, x);
    }
  }

  lemma {:induction false} RunCounted(states: seq<Client>, calls: seq<Call>, k: nat)
    requires IsRun(states, calls) && k < |states|
    ensures Counted(states[k].reg, states[k].opens) && states[k].reg.invalid == 0
  {
    if k > 0 {
      RunCounted(states, calls, k - 1);
      var c := states[k - 1];
      assert states[k - 1 + 1] == Do(c, calls[k - 1]);
      match calls[k - 1]
      case DlOpen(plan) => OpenCounted(c.reg, c.opens, plan);
      case DlClose(h) => CloseCounted(c.reg, c.opens, h);
      case DlMakeResident(h) => ResidentCounted(c.reg, c.opens, h);
    }
  }

  lemma {:induction false} SlotOf(order: seq<Id>, recs: map<Id, Handle>, h: Id, d: Id)
    requires (forall x :: x in order ==> x in recs) && h in order && d in recs[h].deps
    ensures d in Slots(order, recs)
  {
    if order[0] != h {
      SlotOf(order[1..], recs, h, d);
    }
  }

  /** After every run: a non-resident handle counts exactly the open handles of the clients plus
      the dependency slots that point at it; it is registered for exactly as long as there are
      any; whatever a registered handle depends on is registered, behind it in the list; no two
      registered handles name the same file; and no close ever reached a handle that was gone. */
  lemma RegistryIsExact(states: seq<Client>, calls: seq<Call>, k: nat)
    requires IsRun(states, calls) && k < |states|
    ensures var r, opens := states[k].reg, states[k].opens;
            && Wf(r)
            && (forall h :: h in r.order && !r.recs[h].resident ==>
                  r.recs[h].refCount == opens[h] + Slots(r.order, r.recs)[h])
            && (forall h :: h in r.recs && !r.recs[h].resident ==>
                  (h in r.order <==> h in opens || h in Slots(r.order, r.recs)))
            && (forall h, d :: h in r.order && d in r.recs[h].deps ==> d in r.order)
            && (forall h :: h in opens ==> h in r.order)
            && Apart(r.order, r.recs) && Layered(r.order, r.recs)
            && r.invalid == 0
  {
    RunCounted(states, calls, k);
    var r, opens := states[k].reg, states[k].opens;
    forall h | h in r.recs
      ensures h in r.order && !r.recs[h].resident ==> r.recs[h].refCount == opens[h] + Slots(r.order, r.recs)[h]
      ensures !r.recs[h].resident ==> (h in r.order <==> h in opens || h in Slots(r.order, r.recs))
    {
      assert CountedAt(r, opens, h);
    }
    forall h | h in opens ensures h in r.order {
      assert CountedAt(r, opens, h);
    }
    forall h, d | h in r.order && d in r.recs[h].deps ensures d in r.order {
      SlotOf(r.order, r.recs, h, d);
      assert CountedAt(r, opens, d);
    }
  }
}
