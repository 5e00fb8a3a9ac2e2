/** The module registry as libltdl keeps it: one object whose methods unlink and relink handles,
    with the shutdown loop that closes everything level by level. */
module RegistryModule {
  import opened Common
  import opened Registry
  import opened RegistryShutdown

  /** Opening the remaining plans from here completes a load that gives the stated total. */
  ghost predicate Resumes(r: Reg, ds: seq<Id>, rest: seq<Plan>, total: (Reg, seq<Id>))
    requires Wf(r)
  {
    OpenAll(r, rest).0 == total.0 && ds + OpenAll(r, rest).1 == total.1
  }

  lemma OpenAllUnfold(r: Reg, plans: seq<Plan>, i: nat)
    requires Wf(r) && i < |plans|
    ensures var (r1, got) := Open(r, plans[i]);
            && OpenAll(r, plans[i..]).0 == OpenAll(r1, plans[i + 1..]).0
            && OpenAll(r, plans[i..]).1 == (if got.Some? then [got.value] else []) + OpenAll(r1, plans[i + 1..]).1
  {
    assert plans[i..][0] == plans[i] && plans[i..][1..] == plans[i + 1..];
  }

  lemma RegroupGot(ds: seq<Id>, got: Option<Id>, rest: seq<Id>)
    ensures ds + ((if got.Some? then [got.value] else []) + rest) ==
            (if got.Some? then ds + [got.value] else ds) + rest
  {
  }

  lemma OpenAllStep(r: Reg, ds: seq<Id>, plans: seq<Plan>, i: nat, total: (Reg, seq<Id>), r1: Reg, got: Option<Id>)
    requires Wf(r) && i < |plans| && Resumes(r, ds, plans[i..], total)
    requires (r1, got) == Open(r, plans[i])
    ensures Resumes(r1, if got.Some? then ds + [got.value] else ds, plans[i + 1..], total)
  {
    OpenAllUnfold(r, plans, i);
    RegroupGot(ds, got, OpenAll(r1, plans[i + 1..]).1);
  }

  class Ltdl {
    var handles: seq<Id>
    var recs: map<Id, Handle>
    var next: Id
    var invalid: nat
    var initialized: nat

    /** What the loader's module_close returns for a handle */
    const moduleClose: Id -> int

    /** The errors that unloading all of these handles would count */
    ghost function Failures(order: seq<Id>): int {
      if order == [] then 0 else moduleClose(order[0]) + Failures(order[1..])
    }

    lemma {:induction false} FailuresRemove(order: seq<Id>, h: Id)
      requires h in order
      ensures Failures(Remove(order, h)) == Failures(order) - moduleClose(h)
    {
      if order[0] != h {
        FailuresRemove(order[1..], h);
        assert Remove(order, h)[1..] == Remove(order[1..], h);
      }
    }

    ghost function View(): Reg
      reads this
    {
      Reg(handles, recs, next, invalid)
    }

    constructor (moduleClose: Id -> int)
      ensures View() == Reg([], map[], 0, 0) && initialized == 1 && this.moduleClose == moduleClose
    {
      this.moduleClose := moduleClose;
      handles, recs, next, invalid, initialized := [], map[], 0, 0, 1;
    }

    /** lt_dlclose */
    method Dlclose(h: Id) returns (errors: int)
      requires Wf(View())
      modifies this
      ensures View() == Close(old(View()), h) && initialized == old(initialized)
      ensures errors == invalid - old(invalid) + Failures(old(handles)) - Failures(handles) +
                        if h in old(handles) && old(recs)[h].resident then 1 else 0
      decreases |handles|, 0
    {
      var i := Search(h);
      if i == |handles| {
        invalid := invalid + 1;
        return 1;
      }
      ghost var was := View();
      recs := recs[h := recs[h].(refCount := recs[h].refCount - 1)];
      assert View() == Count(was, h, -1);
      if recs[h].refCount <= 0 && !recs[h].resident {
        UnlinkAt(handles, i);
        handles := handles[..i] + handles[i + 1..];
        assert View() == Count(was, h, -1).(order := Remove(was.order, h));
        FailuresRemove(was.order, h);
        var failed := UnloadDeplibs(recs[h].deps);
        return moduleClose(h) + failed;
      }
      errors := if recs[h].resident then 1 else 0;
    }

    /** lt_dlclose's check that a handle is registered */
    method Search(h: Id) returns (i: nat)
      ensures i <= |handles| && h !in handles[..i]
      ensures if h in handles then i < |handles| && handles[i] == h else i == |handles|
    {
      i := 0;
      while i < |handles| && handles[i] != h
        invariant 0 <= i <= |handles| && h !in handles[..i]
      {
        i := i + 1;
      }
    }

    /** unload_deplibs */
    method UnloadDeplibs(deps: seq<Id>) returns (errors: int)
      requires Wf(View()) && forall d :: d in deps ==> d in recs
      modifies this
      ensures View() == CloseAll(old(View()), deps) && initialized == old(initialized)
      ensures errors == invalid - old(invalid) + Failures(old(handles)) - Failures(handles)
      decreases |handles|, 1
    {
      errors := 0;
      for i := 0 to |deps|
        invariant errors == invalid - old(invalid) + Failures(old(handles)) - Failures(handles)
        invariant Shrinks(old(View()), View()) && initialized == old(initialized)
        invariant CloseAll(View(), deps[i..]) == CloseAll(old(View()), deps)
      {
        assert deps[i..][0] == deps[i] && deps[i..][1..] == deps[i + 1..];
        if !recs[deps[i]].resident {
          var failed := Dlclose(deps[i]);
          errors := errors + failed;
        }
      }
    }

    /** tryall_dlopen's search for an already registered file */
    method FindRegistered(filename: Option<string>) returns (found: Option<Id>)
      requires Wf(View())
      ensures found == FindFile(handles, recs, filename)
    {
      for i := 0 to |handles|
        invariant FindFile(handles[i..], recs, filename) == FindFile(handles, recs, filename)
      {
        assert handles[i..][1..] == handles[i + 1..];
        if recs[handles[i]].filename == filename {
          return Some(handles[i]);
        }
      }
      return None;
    }

    /** register_handle in try_dlopen */
    method RegisterHandle(h: Id)
      requires Wf(View()) && h in recs
      modifies this
      ensures View() == Register(old(View()), h) && initialized == old(initialized)
    {
      if recs[h].refCount == 0 {
        recs := recs[h := recs[h].(refCount := 1)];
        handles := [h] + handles;
      }
    }

    /** try_dlopen */
    method TryDlopen(plan: Plan) returns (got: Option<Id>)
      requires Wf(View())
      modifies this
      ensures (View(), got) == Open(old(View()), plan) && initialized == old(initialized)
      decreases plan, 1
    {
      var ds := LoadDeplibs(plan.deps);
      got := FindModule(ds, plan.candidates, plan.resident);
    }

    /** find_module: the first file name that is registered or loads */
    method TryAll(cs: seq<Candidate>) returns (i: nat, found: Option<Id>)
      requires Wf(View())
      ensures i <= |cs|
      ensures Resolve(View(), cs) == if i == |cs| then None else Some(cs[i])
      ensures if i == |cs| then forall k :: 0 <= k < |cs| ==> !Usable(View(), cs[k]) else FirstUsable(View(), cs, i)
      ensures i < |cs| ==> found == FindFile(handles, recs, cs[i].filename)
    {
      i, found := 0, None;
      while i < |cs|
        invariant 0 <= i <= |cs| && Resolve(View(), cs[i..]) == Resolve(View(), cs)
        invariant forall k :: 0 <= k < i ==> !Usable(View(), cs[k])
      {
        assert cs[i..][1..] == cs[i + 1..];
        found := FindRegistered(cs[i].filename);
        if found.Some? || cs[i].loads {
          return;
        }
        i := i + 1;
      }
    }

    /** The end of try_dlopen, once the dependencies are open */
    method FindModule(ds: seq<Id>, cs: seq<Candidate>, resident: bool) returns (got: Option<Id>)
      requires Wf(View()) && forall d :: d in ds ==> d in recs
      modifies this
      ensures (View(), got) == Finish(old(View()), ds, cs, resident) && initialized == old(initialized)
      decreases |handles|, 2
    {
      var i, found := TryAll(cs);
      if i == |cs| {
        var errors := UnloadDeplibs(ds);
        got := None;
      } else if found.Some? {
        ShareHandle(found.value, ds);
        got := found;
      } else {
        got := Some(next);
        InstallHandle(cs[i].filename, resident, ds);
      }
    }

    /** The module is registered already: count it and close the dependencies just opened. */
    method ShareHandle(h: Id, ds: seq<Id>)
      requires Wf(View()) && h in recs && forall d :: d in ds ==> d in recs
      modifies this
      ensures View() == Register(CloseAll(Count(old(View()), h, 1), ds), h) && initialized == old(initialized)
      decreases |handles|, 2
    {
      ghost var was := View();
      recs := recs[h := recs[h].(refCount := recs[h].refCount + 1)];
      assert View() == Count(was, h, 1);
      var errors := UnloadDeplibs(ds);
      RegisterHandle(h);
    }

    /** A new handle with its dependencies */
    method InstallHandle(filename: Option<string>, resident: bool, ds: seq<Id>)
      requires Wf(View()) && forall d :: d in ds ==> d in recs
      modifies this
      ensures View() == Install(old(View()), filename, resident, ds) && initialized == old(initialized)
    {
      var h := next;
      recs, next := recs[h := Handle(filename, 0, resident, ds)], next + 1;
      RegisterHandle(h);
    }

    /** load_deplibs */
    method LoadDeplibs(plans: seq<Plan>) returns (ds: seq<Id>)
      requires Wf(View())
      modifies this
      ensures (View(), ds) == OpenAll(old(View()), plans) && initialized == old(initialized)
      decreases plans, 0
    {
      ds := [];
      ghost var total := OpenAll(View(), plans);
      assert plans[0..] == plans;
      for i := 0 to |plans|
        invariant Wf(View()) && initialized == old(initialized)
        invariant Resumes(View(), ds, plans[i..], total)
      {
        ghost var was := View();
        var got := TryDlopen(plans[i]);
        OpenAllStep(was, ds, plans, i, total, View(), got);
        if got.Some? {
          ds := ds + [got.value];
        }
      }
      assert plans[|plans|..] == [];
      assert ds + [] == ds;
    }

    /** lt_dlexit */
    method Dlexit()
      requires Closable(View())
      modifies this
      ensures initialized == if old(initialized) == 0 then 0 else old(initialized) - 1
      ensures View() == if old(initialized) == 1 then Shutdown(old(View())) else old(View())
    {
      if initialized == 0 {
        return;
      }
      initialized := initialized - 1;
      if initialized != 0 {
        return;
      }
      var any := handles != [];
      SkipHead();
      if !any {
        return;
      }
      ghost var skipped := View();
      var level := 1;
      while true
        invariant Closable(View()) && initialized == 0 && level >= 1
        invariant ByLevels(View(), level) == ByLevels(skipped, 1)
        decreases Total(View()), if Total(View()) > level then Total(View()) - level else 0
      {
        ghost var was := View();
        var saw := Pass(level);
        if !saw {
          NothingToClose(was, level);
          break;
        }
        PassProgress(was, level);
        level := level + 1;
      }
    }

    /** The loop of lt_dlexit that drops resident handles from the head of the list. */
    method SkipHead()
      requires Closable(View())
      modifies this`handles
      ensures Closable(View()) && handles == SkipResidents(old(handles), recs)
    {
      while handles != [] && recs[handles[0]].resident
        invariant Closable(View()) && SkipResidents(handles, recs) == SkipResidents(old(handles), recs)
        decreases |handles|
      {
        handles := handles[1..];
      }
    }

    /** One pass of lt_dlexit over the list: close every handle whose count is within the level,
        starting over whenever the handle to visit next has vanished. */
    method Pass(level: int) returns (saw: bool)
      requires Closable(View()) && level >= 1
      modifies this
      ensures View() == OnePass(old(View()), level) && initialized == old(initialized)
      ensures saw <==> Unloadable(old(View()))
    {
      ghost var was := View();
      PassStarts(was, level);
      var cur := Head(handles);
      saw := false;
      while cur.Some?
        invariant Underway(was, level, View(), cur, saw) && initialized == old(initialized)
        decreases Total(View()), |handles| - Walked(handles, cur)
      {
        ghost var before := saw;
        saw := saw || !recs[cur.value].resident;
        cur := Visit(cur.value, level, was, before);
      }
      PassEnds(was, level, View(), saw);
    }

    /** One handle of a pass: leave it, or close it. */
    method Visit(tmp: Id, level: int, ghost was: Reg, ghost saw: bool) returns (cur: Option<Id>)
      requires Wf(View()) && tmp in handles
      requires Underway(was, level, View(), Some(tmp), saw)
      modifies this
      ensures Underway(was, level, View(), cur, saw || !old(recs)[tmp].resident) && initialized == old(initialized)
      ensures || 0 <= Total(View()) < old(Total(View()))
              || (View() == old(View()) && Walked(handles, cur) == Walked(handles, Some(tmp)) + 1)
    {
      if recs[tmp].resident || recs[tmp].refCount > level {
        PassSkips(was, level, View(), tmp, saw);
        cur := NextOf(handles, tmp);
      } else {
        PassCloses(was, level, View(), tmp, saw);
        cur := CloseAndContinue(tmp);
      }
    }

    /** Close a handle; the walk goes on at the next one, or at the head if that has vanished. */
    method CloseAndContinue(tmp: Id) returns (cur: Option<Id>)
      requires Closable(View()) && tmp in handles
      modifies this
      ensures View() == Close(old(View()), tmp) && initialized == old(initialized)
      ensures cur == NextAfterClose(old(View()), tmp)
    {
      cur := NextOf(handles, tmp);
      var errors := Dlclose(tmp);
      if cur.Some? && cur.value !in handles {
        cur := Head(handles);
      }
    }
  }

  lemma {:induction false} UnlinkAt(order: seq<Id>, i: nat)
    requires i < |order| && order[i] !in order[..i]
    ensures order[..i] + order[i + 1..] == Remove(order, order[i])
  {
    if i > 0 {
      var tail := order[1..];
      assert order[..i] == [order[0]] + tail[..i - 1] && tail[i..] == order[i + 1..];
      assert order[0] in order[..i] && tail[i - 1] == order[i];
      UnlinkAt(tail, i - 1);
    }
  }
}
