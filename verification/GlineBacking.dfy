/** Safety over runs: three votes stand behind every ban placed or lifted. */
module GlineBacking {
  import opened GlineVotes
  import opened GlineLists

  /** A vote that a record takes without counting it: an empty user name is how a record says
      "nobody has seconded", so a vote by a nameless client only restarts its clock. */
  ghost predicate Restart(e: Event, side: Side, m: Mask, first: Voter) {
    && IsVote(e, side) && SameMask(e.action.mask, m)
    && e.action.voter.user == "" && Distinct(first, e.action.voter)
  }

  /** Event x is the last to set the clock of the record that event i opened: it is i itself, or
      a restart in time. */
  ghost predicate SetsClock(run: seq<Event>, side: Side, i: int, x: int)
    decreases x, 1
  {
    && 0 <= i <= x < |run| && IsVote(run[i], side)
    && (x == i || (Restart(run[x], side, Stored(run[i].action.mask), run[i].action.voter) && Timely(run, side, i, x)))
  }

  /** Event j falls less than 600 s after one that set the clock of the record that i opened. */
  ghost predicate Timely(run: seq<Event>, side: Side, i: int, j: int)
    decreases j, 0
  {
    && 0 <= i < j < |run|
    && exists x :: i <= x < j && SetsClock(run, side, i, x) && run[j].time < run[x].time + GLINE_PENDING_EXPIRE
  }

  /** Events i, j and k of the run are the three votes behind a ban placed or lifted at k. The
      record keeps the mask of the first vote truncated. */
  ghost predicate Backing(run: seq<Event>, side: Side, i: int, j: int, k: int) {
    && 0 <= i < j < k < |run|
    && IsVote(run[i], side) && IsVote(run[j], side) && IsVote(run[k], side)
    && SameMask(Stored(run[i].action.mask), run[k].action.mask)
    && SameMask(run[j].action.mask, run[k].action.mask)
    && Distinct(run[i].action.voter, run[j].action.voter)
    && Distinct(run[i].action.voter, run[k].action.voter)
    && Distinct(run[j].action.voter, run[k].action.voter)
    && Timely(run, side, i, j)
    && run[k].time < run[j].time + GLINE_PENDING_EXPIRE
  }

  /** Events i and, once seconded, j of the run are the votes that a pending record holds; until
      then j is the event that set its clock. */
  ghost predicate RecordedAt(run: seq<Event>, side: Side, p: Pending, i: int, j: int) {
    && 0 <= i < |run|
    && IsVote(run[i], side)
    && p.oper1 == run[i].action.voter && p.mask == Stored(run[i].action.mask)
    && p.reason1 == run[i].action.reason && p.time1 == run[i].time
    && if p.oper2.user == "" then SetsClock(run, side, i, j) && p.last == run[j].time
       else
         && i < j < |run|
         && IsVote(run[j], side)
         && p.oper2 == run[j].action.voter && p.reason2 == run[j].action.reason
         && SameMask(run[j].action.mask, p.mask)
         && p.time2 == run[j].time == p.last
         && Timely(run, side, i, j)
         && Distinct(p.oper1, p.oper2)
  }

  ghost predicate AllRecorded(run: seq<Event>, side: Side, ps: seq<Pending>) {
    forall p :: p in ps ==> exists i, j :: RecordedAt(run, side, p, i, j)
  }

  lemma {:induction false} SetsClockLater(run: seq<Event>, longer: seq<Event>, side: Side, i: int, x: int)
    requires run <= longer && SetsClock(run, side, i, x)
    ensures SetsClock(longer, side, i, x)
    decreases x, 1
  {
    if x != i {
      TimelyLater(run, longer, side, i, x);
    }
  }

  lemma {:induction false} TimelyLater(run: seq<Event>, longer: seq<Event>, side: Side, i: int, j: int)
    requires run <= longer && Timely(run, side, i, j)
    ensures Timely(longer, side, i, j)
    decreases j, 0
  {
    var x :| i <= x < j && SetsClock(run, side, i, x) && run[j].time < run[x].time + GLINE_PENDING_EXPIRE;
    SetsClockLater(run, longer, side, i, x);
  }

  /** What a run has recorded stays recorded when the run goes on. */
  lemma RecordedAtLater(run: seq<Event>, e: Event, side: Side, p: Pending, i: int, j: int)
    requires RecordedAt(run, side, p, i, j)
    ensures RecordedAt(run + [e], side, p, i, j)
  {
    if p.oper2.user == "" {
      SetsClockLater(run, run + [e], side, i, j);
    } else {
      TimelyLater(run, run + [e], side, i, j);
    }
  }

  lemma RecordedLater(run: seq<Event>, e: Event, side: Side, ps: seq<Pending>)
    requires AllRecorded(run, side, ps)
    ensures AllRecorded(run + [e], side, ps)
  {
    forall p | p in ps ensures exists i, j :: RecordedAt(run + [e], side, p, i, j) {
      var i, j :| RecordedAt(run, side, p, i, j);
      RecordedAtLater(run, e, side, p, i, j);
    }
  }

  /** Seconding a live record records the second vote, or restarts the clock. */
  lemma SecondedRecorded(run: seq<Event>, e: Event, side: Side, p: Pending, i: int, j: int)
    requires RecordedAt(run, side, p, i, j) && IsVote(e, side)
    requires p.oper2.user == "" && !HasVoted(p, e.action.voter) && SameMask(p.mask, e.action.mask)
    requires e.time < p.last + GLINE_PENDING_EXPIRE
    ensures RecordedAt(run + [e], side, Second(p, e.time, e.action.voter, e.action.reason), i, |run|)
  {
    var longer := run + [e];
    assert longer[i] == run[i] && longer[j] == run[j] && longer[|run|] == e;
    SetsClockLater(run, longer, side, i, j);
    assert Timely(longer, side, i, |run|);
  }

  /** A vote that does not carry leaves a list whose records hold votes of the longer run. */
  lemma CastRecorded(run: seq<Event>, e: Event, side: Side, ps: seq<Pending>)
    requires AllRecorded(run, side, ps) && IsVote(e, side)
    requires forall c :: 0 <= c < |ps| ==> e.time < ps[c].last + GLINE_PENDING_EXPIRE
    ensures AllRecorded(run + [e], side, Cast(ps, e.time, e.action.voter, e.action.mask, e.action.reason))
  {
    RecordedLater(run, e, side, ps);
    match Tally(ps, e.action.voter, e.action.mask)
    case Opened =>
      assert (run + [e])[|run|] == e;
      assert RecordedAt(run + [e], side, Open(e.time, e.action.voter, e.action.mask, e.action.reason), |run|, |run|);
    case Seconded(c) =>
      assert ps[c] in ps;
      var i, j :| RecordedAt(run, side, ps[c], i, j);
      SecondedRecorded(run, e, side, ps[c], i, j);
      var q := Second(ps[c], e.time, e.action.voter, e.action.reason);
      var qs := ps[c := q];
      forall p | p in qs && p != q ensures exists i, j :: RecordedAt(run + [e], side, p, i, j) {
        assert p in ps;
      }
    case _ =>
  }

  lemma CarriedBacked(run: seq<Event>, e: Event, side: Side, ps: seq<Pending>, c: nat)
    requires AllRecorded(run, side, ps) && IsVote(e, side)
    requires c < |ps| && Tally(ps, e.action.voter, e.action.mask) == Carried(c)
    requires e.time < ps[c].last + GLINE_PENDING_EXPIRE
    ensures exists i, j :: Backing(run + [e], side, i, j, |run|) && (run + [e])[i].action.reason == ps[c].reason1
  {
    assert ps[c] in ps;
    var i, j :| RecordedAt(run, side, ps[c], i, j);
    TimelyLater(run, run + [e], side, i, j);
    assert Backing(run + [e], side, i, j, |run|);
  }

  /** Every pending record, on both lists and after every run, holds votes of that run. */
  lemma {:induction false} RecordsHold(net: string -> Netmask, run: seq<Event>)
    ensures AllRecorded(run, On, After(EMPTY, net, run).pending)
    ensures AllRecorded(run, Off, After(EMPTY, net, run).pendingUn)
  {
    if run != [] {
      var past, e := run[..|run| - 1], run[|run| - 1];
      assert run == past + [e];
      RecordsHold(net, past);
      var s := After(EMPTY, net, past);
      OthersOnlyDrop(s, net, e);
      if IsVote(e, On) {
        VoteOnRecorded(net, past, e, s);
      } else {
        RecordedLater(past, e, On, After(EMPTY, net, run).pending);
      }
      if IsVote(e, Off) {
        VoteOffRecorded(net, past, e, s);
      } else {
        RecordedLater(past, e, Off, After(EMPTY, net, run).pendingUn);
      }
    }
  }

  /** Only a vote on a list's own side can add to it or change an entry. */
  lemma OthersOnlyDrop(s: State, net: string -> Netmask, e: Event)
    ensures !IsVote(e, On) ==> forall p :: p in Step(s, net, e).pending ==> p in s.pending
    ensures !IsVote(e, Off) ==> forall p :: p in Step(s, net, e).pendingUn ==> p in s.pendingUn
  {
    SweptAlive(s, e.time);
    SweptUnAlive(s, e.time);
  }

  lemma VoteOnRecorded(net: string -> Netmask, past: seq<Event>, e: Event, s: State)
    requires AllRecorded(past, On, s.pending)
    requires IsVote(e, On)
    ensures AllRecorded(past + [e], On, Step(s, net, e).pending)
  {
    var ps := SweepPending(s, e.time).pending;
    SweptAlive(s, e.time);
    if Glined(s.glines, e.action.mask) || Tally(ps, e.action.voter, e.action.mask).Carried? {
      CarriedOnLeaves(s, net, e);
      RecordedLater(past, e, On, Step(s, net, e).pending);
    } else {
      CastRecorded(past, e, On, ps);
    }
  }

  lemma CarriedOnLeaves(s: State, net: string -> Netmask, e: Event)
    requires IsVote(e, On)
    requires Glined(s.glines, e.action.mask) ||
             Tally(SweepPending(s, e.time).pending, e.action.voter, e.action.mask).Carried?
    ensures forall p :: p in Step(s, net, e).pending ==> p in s.pending
  {
    var t := SweepPending(s, e.time);
    SweptAlive(s, e.time);
    if !Glined(s.glines, e.action.mask) {
      var i := FindPending(t.pending, e.action.mask);
      SweptAlive(t.(glines := t.glines + [Gline(e.action.mask, t.pending[i].reason1, e.action.hold)]), e.time);
    }
  }

  lemma VoteOffRecorded(net: string -> Netmask, past: seq<Event>, e: Event, s: State)
    requires AllRecorded(past, Off, s.pendingUn)
    requires IsVote(e, Off)
    ensures AllRecorded(past + [e], Off, Step(s, net, e).pendingUn)
  {
    var t := SweepPendingUn(s, e.time);
    SweptUnAlive(s, e.time);
    var ballot := Tally(t.pendingUn, e.action.voter, e.action.mask);
    if ballot.Carried? {
      CarriedOffLeaves(s, net, e);
      RecordedLater(past, e, Off, Step(s, net, e).pendingUn);
    } else {
      CastRecorded(past, e, Off, t.pendingUn);
    }
  }

  lemma CarriedOffPending(s: State, net: string -> Netmask, e: Event)
    requires IsVote(e, Off)
    requires Tally(SweepPendingUn(s, e.time).pendingUn, e.action.voter, e.action.mask).Carried?
    ensures var ps := SweepPendingUn(s, e.time).pendingUn;
            Step(s, net, e).pendingUn == Filter(Without(ps, FindPending(ps, e.action.mask)), Alive(e.time))
  {
    var t := SweepPendingUn(s, e.time);
    var i := FindPending(t.pendingUn, e.action.mask);
    var u := RemoveGline(t, net, e.action.mask);
    assert u.pendingUn == t.pendingUn;
    assert Step(s, net, e) == SweepPendingUn(u.(pendingUn := Without(t.pendingUn, i)), e.time);
  }

  lemma CarriedOffLeaves(s: State, net: string -> Netmask, e: Event)
    requires IsVote(e, Off)
    requires Tally(SweepPendingUn(s, e.time).pendingUn, e.action.voter, e.action.mask).Carried?
    ensures forall p :: p in Step(s, net, e).pendingUn ==> p in s.pendingUn
  {
    var ps := SweepPendingUn(s, e.time).pendingUn;
    SweptUnAlive(s, e.time);
    CarriedOffPending(s, net, e);
    FilterMembers(Without(ps, FindPending(ps, e.action.mask)), Alive(e.time));
  }

  /** A ban in the active list, with the three votes that put it there. */
  ghost predicate PlacedBy(run: seq<Event>, g: Gline, i: int, j: int, k: int) {
    && Backing(run, On, i, j, k)
    && g == Gline(run[k].action.mask, run[i].action.reason, run[k].action.hold)
  }

  /** Every active G-line, after every run, was placed by three different opers on three different
      servers, the second in time for the record of the first, which restarts may have kept alive, and
      the third less than 600 s after the second, with the first reason. */
  lemma {:induction false} ActiveGlinesAreBacked(net: string -> Netmask, run: seq<Event>)
    ensures forall g :: g in After(EMPTY, net, run).glines ==> exists i, j, k :: PlacedBy(run, g, i, j, k)
  {
    if run != [] {
      var past, e := run[..|run| - 1], run[|run| - 1];
      assert run == past + [e];
      ActiveGlinesAreBacked(net, past);
      RecordsHold(net, past);
      var s := After(EMPTY, net, past);
      forall g | g in After(EMPTY, net, run).glines ensures exists i, j, k :: PlacedBy(run, g, i, j, k) {
        if g in s.glines {
          var i, j, k :| PlacedBy(past, g, i, j, k);
          BackingLater(past, run, On, i, j, k);
          assert PlacedBy(run, g, i, j, k);
        } else {
          var i, j := NewGlineIsBacked(net, past, e, s, g);
          assert PlacedBy(run, g, i, j, |past|);
        }
      }
    }
  }

  /** Only a third vote adds to the active list, with the reason of the record. */
  lemma AddedByCarry(s: State, net: string -> Netmask, e: Event, g: Gline) returns (c: nat)
    requires g in Step(s, net, e).glines && g !in s.glines
    ensures IsVote(e, On)
    ensures var ps := SweepPending(s, e.time).pending;
            && c < |ps| && Tally(ps, e.action.voter, e.action.mask) == Carried(c)
            && g == Gline(e.action.mask, ps[c].reason1, e.action.hold)
  {
    OnlyVotesAdd(s, net, e, g);
    c := FindPending(SweepPending(s, e.time).pending, e.action.mask);
  }

  lemma OnlyVotesAdd(s: State, net: string -> Netmask, e: Event, g: Gline)
    requires g in Step(s, net, e).glines && g !in s.glines
    ensures IsVote(e, On)
  {
    FilterMembers(s.glines, Held(e.time));
  }

  /** Only a vote adds to the active list, and only with two recorded votes before it. */
  lemma NewGlineIsBacked(net: string -> Netmask, past: seq<Event>, e: Event, s: State, g: Gline)
    returns (i: int, j: int)
    requires AllRecorded(past, On, s.pending)
    requires g in Step(s, net, e).glines && g !in s.glines
    ensures PlacedBy(past + [e], g, i, j, |past|)
  {
    var c := AddedByCarry(s, net, e, g);
    var ps := SweepPending(s, e.time).pending;
    SweptAlive(s, e.time);
    CarriedBacked(past, e, On, ps, c);
    i, j :| Backing(past + [e], On, i, j, |past|) && (past + [e])[i].action.reason == ps[c].reason1;
  }

  /** The ways a ban may leave the active list at event k. */
  ghost predicate LeavesBecause(run: seq<Event>, net: string -> Netmask, g: Gline, k: nat)
    requires k < |run|
  {
    match run[k].action
    case Ungline(m) => Meant(net, m, g)
    case RehashGlines => true
    case ExpireGlines => g.hold <= run[k].time
    case Vote(Off, _, m, _, _) => Meant(net, m, g) && exists i, j :: Backing(run, Off, i, j, k)
    case _ => false
  }

  /** In every run, a ban that is active before event k and gone after it was removed by an
      UNGLINE or a completed GUNGLINE for it, by a clear, or because its time was up. */
  lemma RemovalsAreJustified(net: string -> Netmask, run: seq<Event>, k: nat, g: Gline)
    requires k < |run|
    requires g in After(EMPTY, net, run[..k]).glines
    requires g !in After(EMPTY, net, run[..k + 1]).glines
    ensures LeavesBecause(run, net, g, k)
  {
    var past, e := run[..k], run[k];
    AfterPrefix(EMPTY, net, run, k);
    RecordsHold(net, past);
    RemovalIsJustified(net, past, e, After(EMPTY, net, past), g);
    LeavesLater(past + [e], run, net, g, k);
  }

  lemma RemovalIsJustified(net: string -> Netmask, past: seq<Event>, e: Event, s: State, g: Gline)
    requires AllRecorded(past, Off, s.pendingUn)
    requires g in s.glines && g !in Step(s, net, e).glines
    ensures LeavesBecause(past + [e], net, g, |past|)
  {
    match e.action
    case Ungline(m) => RemovedIsLifted(s, net, m, g);
    case ExpireGlines => FilterMembers(s.glines, Held(e.time));
    case Vote(Off, _, _, _, _) =>
      var i, j := UnglineIsBacked(net, past, e, s, g);
    case _ =>
  }

  lemma LeavesLater(run: seq<Event>, longer: seq<Event>, net: string -> Netmask, g: Gline, k: nat)
    requires run <= longer && k < |run| && LeavesBecause(run, net, g, k)
    ensures LeavesBecause(longer, net, g, k)
  {
    if IsVote(run[k], Off) {
      var i, j :| Backing(run, Off, i, j, k);
      BackingLater(run, longer, Off, i, j, k);
    }
  }

  /** Only a carried GUNGLINE vote removes a ban, and only one that it lifts. */
  lemma UnglineIsBacked(net: string -> Netmask, past: seq<Event>, e: Event, s: State, g: Gline)
    returns (i: int, j: int)
    requires AllRecorded(past, Off, s.pendingUn) && IsVote(e, Off)
    requires g in s.glines && g !in Step(s, net, e).glines
    ensures Meant(net, e.action.mask, g) && Backing(past + [e], Off, i, j, |past|)
  {
    var t := SweepPendingUn(s, e.time);
    SweptUnAlive(s, e.time);
    var ballot := Tally(t.pendingUn, e.action.voter, e.action.mask);
    assert ballot.Carried?;
    RemovedIsLifted(t, net, e.action.mask, g);
    CarriedBacked(past, e, Off, t.pendingUn, ballot.index);
    i, j :| Backing(past + [e], Off, i, j, |past|);
  }

  /** Backing looks only at the events up to the third vote. */
  lemma BackingLater(run: seq<Event>, longer: seq<Event>, side: Side, i: int, j: int, k: int)
    requires run <= longer && Backing(run, side, i, j, k)
    ensures Backing(longer, side, i, j, k)
  {
    TimelyLater(run, longer, side, i, j);
  }

  lemma RemovedIsLifted(s: State, net: string -> Netmask, m: Mask, g: Gline)
    requires g in s.glines && g !in RemoveGline(s, net, m).glines
    ensures Meant(net, m, g)
  {
    LiftsIsMeant(net, m, g);
    var i := FindLifted(net, s.glines, m);
    if i < |s.glines| {
      OthersStay(s.glines, i, g);
    }
  }

  // ----- how far apart the first two votes can be

  /** How many events strictly between i and j restart the clock of the record that i opened. */
  ghost function Restarts(run: seq<Event>, side: Side, i: int, j: int): nat
    requires 0 <= i < |run| && IsVote(run[i], side) && j <= |run|
    decreases j
  {
    if j <= i + 1 then 0
    else
      Restarts(run, side, i, j - 1) +
      if Restart(run[j - 1], side, Stored(run[i].action.mask), run[i].action.voter) then 1 else 0
  }

  lemma {:induction false} RestartsGrow(run: seq<Event>, side: Side, i: int, j: int, j': int)
    requires 0 <= i < |run| && IsVote(run[i], side) && j <= j' <= |run|
    ensures Restarts(run, side, i, j) <= Restarts(run, side, i, j')
    decreases j' - j
  {
    if j < j' {
      RestartsGrow(run, side, i, j, j' - 1);
    }
  }

  lemma {:induction false} ClockBound(run: seq<Event>, side: Side, i: int, x: int)
    requires SetsClock(run, side, i, x)
    ensures run[x].time <= run[i].time + (GLINE_PENDING_EXPIRE - 1) * Restarts(run, side, i, x + 1)
    decreases x, 1
  {
    if x != i {
      WindowBound(run, side, i, x);
    }
  }

  /** A vote in time is at most 599 s after the first for every restart between them and 599 s
      more; without a restart, less than 600 s. */
  lemma {:induction false} WindowBound(run: seq<Event>, side: Side, i: int, j: int)
    requires Timely(run, side, i, j) && IsVote(run[i], side)
    ensures run[j].time <= run[i].time + (GLINE_PENDING_EXPIRE - 1) * (1 + Restarts(run, side, i, j))
    decreases j, 0
  {
    var x :| i <= x < j && SetsClock(run, side, i, x) && run[j].time < run[x].time + GLINE_PENDING_EXPIRE;
    ClockBound(run, side, i, x);
    RestartsGrow(run, side, i, x + 1, j);
  }

  // ----- runs of ordinary votes

  /** Every vote is for a mask that fits the fields that store it, by a client with a user name. */
  ghost predicate OrdinaryVotes(run: seq<Event>) {
    forall k :: 0 <= k < |run| && run[k].action.Vote? ==> Fits(run[k].action.mask) && run[k].action.voter.user != ""
  }

  lemma {:induction false} NoRestarts(run: seq<Event>, side: Side, i: int, j: int)
    requires OrdinaryVotes(run) && 0 <= i < |run| && IsVote(run[i], side) && j <= |run|
    ensures Restarts(run, side, i, j) == 0
    decreases j
  {
    if j > i + 1 {
      NoRestarts(run, side, i, j - 1);
    }
  }

  /** Then the three votes behind a ban are for the very mask that was decided on, and each comes less
      than 600 s after the one before. */
  lemma OrdinaryBacking(run: seq<Event>, side: Side, i: int, j: int, k: int)
    requires OrdinaryVotes(run) && Backing(run, side, i, j, k)
    ensures SameMask(run[i].action.mask, run[k].action.mask) && SameMask(run[j].action.mask, run[k].action.mask)
    ensures run[j].time < run[i].time + 600 && run[k].time < run[j].time + 600
  {
    NoRestarts(run, side, i, j);
    WindowBound(run, side, i, j);
  }
}
