/** The G-line lists as the daemon keeps them: one object whose methods walk the lists,
    unlinking and rewriting entries in place, each proved to take the specified step. */
module GlineModule {
  import opened Common
  import opened Casemap
  import opened GlineVotes

  /** A walk that has handled the first i entries in place and still has to filter the rest. */
  ghost function Walk<T>(xs: seq<T>, i: nat, keep: T -> bool): seq<T>
    requires i <= |xs|
  {
    xs[..i] + Filter(xs[i..], keep)
  }

  lemma WalkKeeps<T>(xs: seq<T>, i: nat, keep: T -> bool)
    requires i < |xs| && keep(xs[i])
    ensures Walk(xs, i + 1, keep) == Walk(xs, i, keep)
  {
    assert xs[i..][1..] == xs[i + 1..] && xs[..i + 1] == xs[..i] + [xs[i]];
  }

  lemma WalkUnlinks<T>(xs: seq<T>, i: nat, keep: T -> bool)
    requires i < |xs| && !keep(xs[i])
    ensures Walk(Without(xs, i), i, keep) == Walk(xs, i, keep)
  {
    assert xs[i..][1..] == xs[i + 1..];
    assert Without(xs, i)[..i] == xs[..i] && Without(xs, i)[i..] == xs[i + 1..];
  }

  lemma WalkStarts<T>(xs: seq<T>, keep: T -> bool)
    ensures Walk(xs, 0, keep) == Filter(xs, keep) && Walk(xs, |xs|, keep) == xs
  {
    assert xs[0..] == xs && xs[|xs|..] == [] && xs[..|xs|] == xs;
  }

  /** One walk that drops both the expired entries and the entry at a given index. */
  ghost function SweepExcept(ps: seq<Pending>, now: int, drop: int): seq<Pending> {
    if ps == [] then []
    else (if drop == 0 || !Alive(now)(ps[0]) then [] else [ps[0]]) + SweepExcept(ps[1..], now, drop - 1)
  }

  ghost function WalkExcept(ps: seq<Pending>, i: nat, now: int, drop: int): seq<Pending>
    requires i <= |ps|
  {
    ps[..i] + SweepExcept(ps[i..], now, drop - i)
  }

  lemma WalkExceptKeeps(ps: seq<Pending>, i: nat, now: int, drop: int)
    requires i < |ps| && Alive(now)(ps[i]) && drop != i
    ensures WalkExcept(ps, i + 1, now, drop) == WalkExcept(ps, i, now, drop)
  {
    assert ps[i..][1..] == ps[i + 1..] && ps[..i + 1] == ps[..i] + [ps[i]];
  }

  lemma WalkExceptUnlinks(ps: seq<Pending>, i: nat, now: int, drop: int)
    requires i < |ps| && (!Alive(now)(ps[i]) || drop == i)
    ensures WalkExcept(Without(ps, i), i, now, drop - 1) == WalkExcept(ps, i, now, drop)
  {
    assert ps[i..][1..] == ps[i + 1..];
    assert Without(ps, i)[..i] == ps[..i] && Without(ps, i)[i..] == ps[i + 1..];
  }

  lemma WalkExceptStarts(ps: seq<Pending>, now: int, drop: int)
    ensures WalkExcept(ps, 0, now, drop) == SweepExcept(ps, now, drop) && WalkExcept(ps, |ps|, now, drop) == ps
  {
    assert ps[0..] == ps && ps[|ps|..] == [] && ps[..|ps|] == ps;
  }

  lemma {:induction false} SweepExceptIsFilter(ps: seq<Pending>, now: int, drop: int)
    requires drop < |ps|
    ensures SweepExcept(ps, now, drop) == Filter(if drop < 0 then ps else Without(ps, drop), Alive(now))
  {
    if ps == [] {
    } else if drop < 0 {
      SweepExceptIsFilter(ps[1..], now, drop - 1);
    } else if drop == 0 {
      SweepExceptIsFilter(ps[1..], now, -1);
      assert Without(ps, 0) == ps[1..];
    } else {
      SweepExceptIsFilter(ps[1..], now, drop - 1);
      WithoutTail(ps, drop);
    }
  }

  lemma WithoutTail(ps: seq<Pending>, drop: nat)
    requires 0 < drop < |ps|
    ensures Without(ps, drop)[0] == ps[0] && Without(ps, drop)[1..] == Without(ps[1..], drop - 1)
  {
    assert ps[..drop][1..] == ps[1..][..drop - 1] && ps[1..][drop..] == ps[drop + 1..];
  }

  class Glines {
    var pending: seq<Pending>
    var pendingUn: seq<Pending>
    var glines: seq<Gline>
    const net: string -> Netmask

    constructor (net: string -> Netmask)
      ensures View() == EMPTY && this.net == net
    {
      pending, pendingUn, glines := [], [], [];
      this.net := net;
    }

    ghost function View(): State
      reads this
    {
      State(pending, pendingUn, glines)
    }

    /** find_is_glined */
    method FindIsGlined(m: Mask) returns (found: bool)
      ensures found == Glined(glines, m)
    {
      for i := 0 to |glines|
        invariant forall k :: 0 <= k < i ==> !SameMask(glines[k].mask, m)
      {
        if SameMask(glines[i].mask, m) {
          return true;
        }
      }
      return false;
    }

    /** expire_pending_glines */
    method ExpirePendingGlines(now: int)
      modifies this`pending
      ensures View() == SweepPending(old(View()), now)
    {
      var i := 0;
      ghost var keep := AliveAndUnplaced(now, glines);
      WalkStarts(pending, keep);
      while i < |pending|
        invariant 0 <= i <= |pending|
        invariant Walk(pending, i, keep) == Filter(old(pending), keep)
        decreases |pending| - i
      {
        var placed := FindIsGlined(pending[i].mask);
        if pending[i].last + GLINE_PENDING_EXPIRE <= now || placed {
          WalkUnlinks(pending, i, keep);
          pending := Without(pending, i);
        } else {
          WalkKeeps(pending, i, keep);
          i := i + 1;
        }
      }
      WalkStarts(pending, keep);
    }

    /** set_local_gline */
    method SetLocalGline(now: int, m: Mask, reason: string, glineTime: int)
      modifies this`glines
      ensures glines == old(glines) + [Gline(m, reason, now + glineTime)]
    {
      glines := glines + [Gline(m, reason, now + glineTime)];
    }

    /** The walk over a pending list for the entry of a mask. */
    static method Locate(ps: seq<Pending>, m: Mask) returns (i: nat)
      ensures i == FindPending(ps, m)
    {
      i := 0;
      while i < |ps| && !SameMask(ps[i].mask, m)
        invariant 0 <= i <= |ps|
        invariant forall k :: 0 <= k < i ==> !SameMask(ps[k].mask, m)
      {
        i := i + 1;
      }
    }

    /** The two tests that reject a repeat vote, against the first and the second voter. */
    static method RepeatVote(p: Pending, v: Voter) returns (repeated: bool)
      ensures repeated == HasVoted(p, v)
    {
      if SameText(p.oper1.user, v.user) && SameText(p.oper1.host, v.host) {
        return true;
      } else if SameText(p.oper1.server, v.server) {
        return true;
      }
      if p.oper2.user != "" {
        if SameText(p.oper2.user, v.user) && SameText(p.oper2.host, v.host) {
          return true;
        } else if SameText(p.oper2.server, v.server) {
          return true;
        }
      }
      return false;
    }

    /** majority_gline */
    method MajorityGline(now: int, v: Voter, m: Mask, reason: string, glineTime: int) returns (placed: bool)
      modifies this
      ensures View() == VoteOn(old(View()), now, v, m, reason, now + glineTime)
      ensures placed == (|glines| > |old(glines)|)
    {
      ExpirePendingGlines(now);
      var already := FindIsGlined(m);
      if already {
        return false;
      }
      var i := Locate(pending, m);
      if i == |pending| {
        pending := [Pending(v, reason, now, NOBODY, "", 0, now, Stored(m))] + pending;
        return false;
      }
      var p := pending[i];
      var repeated := RepeatVote(p, v);
      if repeated {
        return false;
      }
      if p.oper2.user != "" {
        SetLocalGline(now, m, p.reason1, glineTime);
        ExpirePendingGlines(now);
        return true;
      } else {
        pending := pending[i := p.(oper2 := v, reason2 := reason, last := now, time2 := now)];
        return false;
      }
    }

    /** remove_temp_gline */
    method RemoveTempGline(m: Mask) returns (removed: bool)
      modifies this`glines
      ensures View() == RemoveGline(old(View()), net, m)
      ensures removed == (|glines| < |old(glines)|)
    {
      var wanted := net(m.host);
      for i := 0 to |glines|
        invariant glines == old(glines)
        invariant forall k :: 0 <= k < i ==> !Lifts(net, m, glines[k])
      {
        var lifted := IsLifted(m, wanted, glines[i]);
        if lifted {
          assert i == FindLifted(net, glines, m);
          glines := Without(glines, i);
          return true;
        }
      }
      assert FindLifted(net, glines, m) == |glines|;
      return false;
    }

    /** The tests in the loop of remove_temp_gline */
    method IsLifted(m: Mask, wanted: Netmask, g: Gline) returns (lifted: bool)
      requires wanted == net(m.host)
      ensures lifted == Lifts(net, m, g)
    {
      var held := net(g.mask.host);
      if !SameText(m.user, g.mask.user) {
        return false;
      }
      match (wanted, held)
      case (Hostname, Hostname) => return SameText(g.mask.host, m.host);
      case (Network(v6, address, bits), Network(v6', address', bits')) =>
        return v6 == v6' && bits == bits' && SamePrefix(address, address', bits);
      case _ => return false;
    }

    /** expire_pending_gunglines; the entry at index drop, if any, goes as well. */
    method ExpirePendingGunglines(now: int, drop: int)
      requires -1 <= drop < |pendingUn|
      modifies this`pendingUn
      ensures pendingUn == Filter(if drop < 0 then old(pendingUn) else Without(old(pendingUn), drop), Alive(now))
    {
      SweepExceptIsFilter(pendingUn, now, drop);
      SweepUn(now, drop);
    }

    method SweepUn(now: int, drop: int)
      modifies this`pendingUn
      ensures pendingUn == SweepExcept(old(pendingUn), now, drop)
    {
      var i, gone := 0, drop;
      WalkExceptStarts(pendingUn, now, drop);
      while i < |pendingUn|
        invariant 0 <= i <= |pendingUn|
        invariant WalkExcept(pendingUn, i, now, gone) == SweepExcept(old(pendingUn), now, drop)
        decreases |pendingUn| - i
      {
        if pendingUn[i].last + GLINE_PENDING_EXPIRE <= now || gone == i {
          WalkExceptUnlinks(pendingUn, i, now, gone);
          pendingUn, gone := Without(pendingUn, i), gone - 1;
        } else {
          WalkExceptKeeps(pendingUn, i, now, gone);
          i := i + 1;
        }
      }
      WalkExceptStarts(pendingUn, now, gone);
    }

    /** The end of majority_ungline: lift the ban, and drop the entry that carried. */
    method CarryUngline(now: int, m: Mask, i: nat)
      requires i < |pendingUn|
      modifies this
      ensures View() == SweepPendingUn(RemoveGline(old(View()), net, m).(pendingUn := Without(old(pendingUn), i)), now)
    {
      var removed := RemoveTempGline(m);
      ExpirePendingGunglines(now, i);
    }

    /** majority_ungline */
    method MajorityUngline(now: int, v: Voter, m: Mask, reason: string) returns (carried: bool)
      modifies this
      ensures View() == VoteOff(old(View()), net, now, v, m, reason)
      ensures carried == Tally(SweepPendingUn(old(View()), now).pendingUn, v, m).Carried?
    {
      ExpirePendingGunglines(now, -1);
      var i := Locate(pendingUn, m);
      if i == |pendingUn| {
        pendingUn := [Pending(v, reason, now, NOBODY, "", 0, now, Stored(m))] + pendingUn;
        return false;
      }
      var p := pendingUn[i];
      var repeated := RepeatVote(p, v);
      if repeated {
        return false;
      }
      if p.oper2.user != "" {
        CarryUngline(now, m, i);
        return true;
      } else {
        pendingUn := pendingUn[i := p.(oper2 := v, reason2 := reason, last := now, time2 := now)];
        return false;
      }
    }

    /** expire_glines */
    method ExpireGlinesByHold(now: int)
      modifies this`glines
      ensures View() == SweepGlines(old(View()), now)
    {
      var i := 0;
      ghost var keep := Held(now);
      WalkStarts(glines, keep);
      while i < |glines|
        invariant 0 <= i <= |glines|
        invariant Walk(glines, i, keep) == Filter(old(glines), keep)
        decreases |glines| - i
      {
        if glines[i].hold > now {
          WalkKeeps(glines, i, keep);
          i := i + 1;
        } else {
          WalkUnlinks(glines, i, keep);
          glines := Without(glines, i);
        }
      }
      WalkStarts(glines, keep);
    }

    /** rehash_glines */
    method RehashGlinesNow()
      modifies this`glines
      ensures glines == []
    {
      while glines != []
        decreases |glines|
      {
        glines := glines[1..];
      }
    }

    /** rehash_pglines */
    method RehashPglinesNow()
      modifies this`pending
      ensures pending == []
    {
      while pending != []
        decreases |pending|
      {
        pending := pending[1..];
      }
    }

    /** flush_pending_gunglines */
    method FlushPendingGunglines()
      modifies this`pendingUn
      ensures pendingUn == []
    {
      while pendingUn != []
        decreases |pendingUn|
      {
        pendingUn := pendingUn[1..];
      }
    }

    /** The handler or timer that an event stands for. */
    method Perform(e: Event)
      modifies this
      ensures View() == Step(old(View()), net, e)
    {
      match e.action
      case Vote(On, v, m, reason, hold) => var placed := MajorityGline(e.time, v, m, reason, hold - e.time);
      case Vote(Off, v, m, reason, _) => var carried := MajorityUngline(e.time, v, m, reason);
      case ExpirePending => ExpirePendingGlines(e.time);
      case ExpirePendingUn => ExpirePendingGunglines(e.time, -1);
      case ExpireGlines => ExpireGlinesByHold(e.time);
      case Ungline(m) => var removed := RemoveTempGline(m);
      case RehashGlines => RehashGlinesNow();
      case RehashPglines => RehashPglinesNow();
      case FlushPendingUn => FlushPendingGunglines();
    }
  }
}
