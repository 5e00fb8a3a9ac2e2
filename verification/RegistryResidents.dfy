/** Resident handles: once a handle is made resident it stays registered. */
module RegistryResidents {
  import opened Common
  import opened Registry
  import opened RegistryRuns
  import opened RegistryShutdown
  import opened ShutdownOrder

  ghost predicate Stays(r: Reg, h: Id) {
    h in r.order && h in r.recs && r.recs[h].resident
  }

  lemma ClosedStays(r: Reg, owed: multiset<Id>, deps: seq<Id>, h: Id)
    requires Counted(r, owed) && (forall d :: d in deps ==> d in r.recs) && Stays(r, h)
    ensures Stays(CloseAll(r, deps), h)
  {
    CountedClosable(r, owed);
    CloseAllWears(r, deps);
    var r' := CloseAll(r, deps);
    ResidentsExactly(r.order, r.recs);
    ResidentsExactly(r'.order, r'.recs);
  }

  lemma OneClosedStays(r: Reg, owed: multiset<Id>, x: Id, h: Id)
    requires Counted(r, owed) && Stays(r, h)
    ensures Stays(Close(r, x), h)
  {
    CountedClosable(r, owed);
    CloseWears(r, x);
    var r' := Close(r, x);
    ResidentsExactly(r.order, r.recs);
    ResidentsExactly(r'.order, r'.recs);
  }

  lemma FinishStays(r: Reg, owed: multiset<Id>, ds: seq<Id>, cs: seq<Candidate>, resident: bool, h: Id)
    requires Counted(r, owed) && (forall d :: d in ds ==> d in r.recs) && Stays(r, h)
    ensures Stays(Finish(r, ds, cs, resident).0, h)
  {
    match Resolve(r, cs)
    case None => ClosedStays(r, owed, ds, h);
    case Some(c) =>
      match FindFile(r.order, r.recs, c.filename)
      case Some(x) =>
        TakeReference(r, owed, x);
        ClosedStays(Count(r, x, 1), owed + multiset{x}, ds, h);
      case None =>
  }

  lemma {:induction false} OpenStays(r: Reg, owed: multiset<Id>, plan: Plan, h: Id)
    requires Counted(r, owed) && Stays(r, h)
    ensures Stays(Open(r, plan).0, h)
    decreases plan, 1
  {
    var (r1, ds) := OpenAll(r, plan.deps);
    OpenAllStays(r, owed, plan.deps, h);
    OpenAllCounted(r, owed, plan.deps);
    FinishStays(r1, owed + multiset(ds), ds, plan.candidates, plan.resident, h);
  }

  lemma {:induction false} OpenAllStays(r: Reg, owed: multiset<Id>, plans: seq<Plan>, h: Id)
    requires Counted(r, owed) && Stays(r, h)
    ensures Stays(OpenAll(r, plans).0, h)
    decreases plans, 0
  {
    if plans != [] {
      var (r1, got) := Open(r, plans[0]);
      OpenStays(r, owed, plans[0], h);
      OpenCounted(r, owed, plans[0]);
      OpenAllStays(r1, owed + Gained(got), plans[1..], h);
    }
  }

  lemma DoStays(c: Client, call: Call, h: Id)
    requires Counted(c.reg, c.opens) && Legal(c, call) && Stays(c.reg, h)
    ensures Stays(Do(c, call).reg, h)
  {
    match call
    case DlOpen(plan) => OpenStays(c.reg, c.opens, plan, h);
    case DlClose(x) => OneClosedStays(c.reg, c.opens, x, h);
    case DlMakeResident(x) =>
  }

  lemma {:induction false} ResidentsStay(states: seq<Client>, calls: seq<Call>, j: nat, k: nat, h: Id)
    requires IsRun(states, calls) && j <= k < |states| && Stays(states[j].reg, h)
    ensures Stays(states[k].reg, h)
    decreases k - j
  {
    if j < k {
      ResidentsStay(states, calls, j, k - 1, h);
      StepStays(states, calls, k - 1, h);
    }
  }

  lemma StepStays(states: seq<Client>, calls: seq<Call>, k: nat, h: Id)
    requires IsRun(states, calls) && k < |calls| && Stays(states[k].reg, h)
    ensures Stays(states[k + 1].reg, h)
  {
    RunCounted(states, calls, k);
    DoStays(states[k], calls[k], h);
  }

  /** In every run, a handle that a client makes resident is registered ever after, however often it is
      closed. */
  lemma MadeResidentStays(states: seq<Client>, calls: seq<Call>, j: nat, k: nat, h: Id)
    requires IsRun(states, calls) && j < |calls| && calls[j] == DlMakeResident(h) && j < k < |states|
    ensures h in states[k].reg.order && h in states[k].reg.recs && states[k].reg.recs[h].resident
  {
    var c := states[j];
    RunCounted(states, calls, j);
    assert CountedAt(c.reg, c.opens, h);
    assert states[j + 1] == Do(c, calls[j]);
    ResidentsStay(states, calls, j + 1, k, h);
  }
}
