/** Completeness: three votes in time always place a ban, or lift one, whatever falls between them. */
module GlineCompleteness {
  import opened Casemap
  import opened GlineVotes
  import opened GlineLists
  import opened GlineBacking
  import opened GlineInvariants

  /** The list that votes of a side work on. */
  function PendingOn(s: State, side: Side): seq<Pending> {
    if side == On then s.pending else s.pendingUn
  }

  /** The pending entries for a mask, in list order. */
  function PendingFor(s: State, side: Side, m: Mask): seq<Pending> {
    Filter(PendingOn(s, side), ForMask(m))
  }

  /** p is the one entry for m. */
  ghost predicate Only(ps: seq<Pending>, m: Mask, p: Pending) {
    SameMask(p.mask, m) && Filter(ps, ForMask(m)) == [p]
  }

  // ----- one list

  lemma {:induction false} FindOnly(ps: seq<Pending>, m: Mask)
    ensures var mine, i := Filter(ps, ForMask(m)), FindPending(ps, m);
            if mine == [] then i == |ps| else i < |ps| && ps[i] == mine[0]
  {
    if ps != [] && !SameMask(ps[0].mask, m) {
      FindOnly(ps[1..], m);
    }
  }

  lemma FindOther(ps: seq<Pending>, m: Mask, other: Mask)
    requires !SameMask(m, other)
    ensures var i := FindPending(ps, m); i < |ps| ==> !SameMask(ps[i].mask, other)
  {
  }

  lemma SweptOnly(ps: seq<Pending>, keep: Pending -> bool, m: Mask, p: Pending)
    requires Only(ps, m, p) && keep(p)
    ensures Only(Filter(ps, keep), m, p)
  {
    FilterSwap(ps, keep, ForMask(m));
    FilterOne(p, keep);
  }

  lemma SweptNone(ps: seq<Pending>, keep: Pending -> bool, m: Mask)
    requires Filter(ps, ForMask(m)) == []
    ensures Filter(Filter(ps, keep), ForMask(m)) == []
  {
    FilterSwap(ps, keep, ForMask(m));
  }

  /** The ballot for a mask with exactly one entry is decided by that entry. */
  lemma BallotFor(ps: seq<Pending>, v: Voter, m': Mask, m: Mask, p: Pending) returns (i: nat)
    requires Only(ps, m, p) && SameMask(m', m)
    ensures i < |ps| && ps[i] == p
    ensures Tally(ps, v, m') ==
            if HasVoted(p, v) then Rejected else if p.oper2.user == "" then Seconded(i) else Carried(i)
  {
    i := FindPending(ps, m);
    FindOnly(ps, m);
    assert FindPending(ps, m') == i;
  }

  lemma OpensOnly(ps: seq<Pending>, now: int, v: Voter, m': Mask, reason: string, m: Mask)
    requires Filter(ps, ForMask(m)) == [] && SameMask(m', m) && Fits(m)
    ensures Tally(ps, v, m').Opened? && Only(Cast(ps, now, v, m', reason), m, Open(now, v, m', reason))
  {
    var p := Open(now, v, m', reason);
    FindOnly(ps, m);
    SameMaskFits(m', m);
    assert FindPending(ps, m') == |ps|;
    FilterConcat([p], ps, ForMask(m));
    FilterOne(p, ForMask(m));
  }

  lemma SecondedOnly(ps: seq<Pending>, m: Mask, p: Pending, i: nat, q: Pending)
    requires Only(ps, m, p) && i < |ps| && ps[i] == p && SameMask(q.mask, m)
    ensures Only(ps[i := q], m, q)
  {
    FilterUpdate(ps, i, q, ForMask(m));
    OnlyOne(Filter(ps[..i], ForMask(m)), p, q, Filter(ps[i + 1..], ForMask(m)));
  }

  lemma OnlyOne<T>(a: seq<T>, p: T, q: T, b: seq<T>)
    requires a + [p] + b == [p]
    ensures a + [q] + b == [q] && a + b == []
  {
    assert |a + [p] + b| == |a| + 1 + |b|;
  }

  /** A vote for another mask leaves the entry alone. */
  lemma OtherCastOnly(ps: seq<Pending>, now: int, v: Voter, m': Mask, reason: string, m: Mask, p: Pending)
    requires Only(ps, m, p) && !SameMask(m', m) && !SameMask(Stored(m'), m)
    ensures Only(Cast(ps, now, v, m', reason), m, p)
  {
    FindOther(ps, m', m);
    match Tally(ps, v, m')
    case Opened =>
      FilterConcat([Open(now, v, m', reason)], ps, ForMask(m));
      FilterOne(Open(now, v, m', reason), ForMask(m));
    case Seconded(i) => FilterUpdate(ps, i, Second(ps[i], now, v, reason), ForMask(m));
    case _ =>
  }

  lemma OtherDroppedOnly(ps: seq<Pending>, i: nat, m: Mask, p: Pending)
    requires Only(ps, m, p) && i < |ps| && !SameMask(ps[i].mask, m)
    ensures Only(Without(ps, i), m, p)
  {
    FilterWithout(ps, i, ForMask(m));
    FilterUpdate(ps, i, ps[i], ForMask(m));
  }

  lemma DroppedNone(ps: seq<Pending>, i: nat, m: Mask, p: Pending)
    requires Only(ps, m, p) && i < |ps| && ps[i] == p
    ensures Filter(Without(ps, i), ForMask(m)) == []
  {
    FilterWithout(ps, i, ForMask(m));
  }

  // ----- the machine

  /** Nothing but p is pending for m, and a ban on m that is to be placed is not active. */
  ghost predicate Waiting(s: State, side: Side, m: Mask, p: Pending) {
    Only(PendingOn(s, side), m, p) && (side == On ==> !Glined(s.glines, m))
  }

  /** An event that may fall between the votes for m: no clearing of the list, and no vote of that
      side that would reach an entry for m except one the entry rejects. */
  ghost predicate Bystander(e: Event, side: Side, m: Mask, p: Pending) {
    && e.action != (if side == On then RehashPglines else FlushPendingUn)
    && (IsVote(e, side) ==>
          || !SameMask(Stored(e.action.mask), m)
          || (SameMask(e.action.mask, m) && HasVoted(p, e.action.voter)))
  }

  lemma SweepKeepsWaiting(s: State, now: int, m: Mask, p: Pending)
    requires Waiting(s, On, m, p) && now < p.last + GLINE_PENDING_EXPIRE
    ensures Waiting(SweepPending(s, now), On, m, p)
  {
    GlinedUpToCase(s.glines, p.mask, m);
    SweptOnly(s.pending, AliveAndUnplaced(now, s.glines), m, p);
  }

  lemma SweepUnKeepsWaiting(s: State, now: int, m: Mask, p: Pending)
    requires Waiting(s, Off, m, p) && now < p.last + GLINE_PENDING_EXPIRE
    ensures Waiting(SweepPendingUn(s, now), Off, m, p)
  {
    SweptOnly(s.pendingUn, Alive(now), m, p);
  }

  lemma OtherCarriedKeepsWaiting(t: State, now: int, g: Gline, m: Mask, p: Pending)
    requires Waiting(t, On, m, p) && !SameMask(g.mask, m) && now < p.last + GLINE_PENDING_EXPIRE
    ensures Waiting(SweepPending(t.(glines := t.glines + [g]), now), On, m, p)
  {
    GlinedAfterAdd(t.glines, g, m);
    SweepKeepsWaiting(t.(glines := t.glines + [g]), now, m, p);
  }

  lemma VoteOnKeepsWaiting(s: State, net: string -> Netmask, e: Event, m: Mask, p: Pending)
    requires Waiting(s, On, m, p) && Fits(m) && e.time < p.last + GLINE_PENDING_EXPIRE
    requires IsVote(e, On) && Bystander(e, On, m, p)
    ensures Waiting(Step(s, net, e), On, m, p)
  {
    var now, v, m' := e.time, e.action.voter, e.action.mask;
    var t := SweepPending(s, now);
    SweepKeepsWaiting(s, now, m, p);
    if SameMask(m', m) {
      SameMaskFits(m', m);
      var i := BallotFor(t.pending, v, m', m, p);
    } else if !Glined(t.glines, m') {
      match Tally(t.pending, v, m')
      case Carried(i) =>
        OtherCarriedKeepsWaiting(t, now, Gline(m', t.pending[i].reason1, e.action.hold), m, p);
      case _ => OtherCastOnly(t.pending, now, v, m', e.action.reason, m, p);
    }
  }

  lemma VoteOffKeepsWaiting(s: State, net: string -> Netmask, e: Event, m: Mask, p: Pending)
    requires Waiting(s, Off, m, p) && Fits(m) && e.time < p.last + GLINE_PENDING_EXPIRE
    requires IsVote(e, Off) && Bystander(e, Off, m, p)
    ensures Waiting(Step(s, net, e), Off, m, p)
  {
    var now, v, m' := e.time, e.action.voter, e.action.mask;
    var t := SweepPendingUn(s, now);
    SweepUnKeepsWaiting(s, now, m, p);
    if SameMask(m', m) {
      SameMaskFits(m', m);
      var i := BallotFor(t.pendingUn, v, m', m, p);
    } else {
      match Tally(t.pendingUn, v, m')
      case Carried(i) =>
        CarriedOffPending(s, net, e);
        FindOther(t.pendingUn, m', m);
        OtherDroppedOnly(t.pendingUn, i, m, p);
        SweptOnly(Without(t.pendingUn, i), Alive(now), m, p);
      case _ => OtherCastOnly(t.pendingUn, now, v, m', e.action.reason, m, p);
    }
  }

  lemma ExpiryKeepsWaiting(s: State, now: int, side: Side, m: Mask, p: Pending)
    requires Waiting(s, side, m, p)
    ensures Waiting(SweepGlines(s, now), side, m, p)
  {
    if Glined(SweepGlines(s, now).glines, m) {
      FilterGlined(s.glines, Held(now), m);
    }
  }

  lemma RemovalKeepsWaiting(s: State, net: string -> Netmask, m': Mask, side: Side, m: Mask, p: Pending)
    requires Waiting(s, side, m, p)
    ensures Waiting(RemoveGline(s, net, m'), side, m, p)
  {
    var i := FindLifted(net, s.glines, m');
    if i < |s.glines| {
      WithoutGlined(s.glines, i, m);
    }
  }

  /** What GUNGLINE votes do cannot disturb an entry for a ban. */
  lemma OffKeepsOn(s: State, net: string -> Netmask, e: Event, m: Mask, p: Pending)
    requires Waiting(s, On, m, p) && IsVote(e, Off)
    ensures Waiting(Step(s, net, e), On, m, p)
  {
    RemovalKeepsWaiting(SweepPendingUn(s, e.time), net, e.action.mask, On, m, p);
  }

  lemma BystanderKeepsWaiting(s: State, net: string -> Netmask, e: Event, side: Side, m: Mask, p: Pending)
    requires Waiting(s, side, m, p) && Fits(m)
    requires e.time < p.last + GLINE_PENDING_EXPIRE && Bystander(e, side, m, p)
    ensures Waiting(Step(s, net, e), side, m, p)
  {
    match e.action
    case Vote(On, _, _, _, _) =>
      if side == On {
        VoteOnKeepsWaiting(s, net, e, m, p);
      }
    case Vote(Off, _, _, _, _) =>
      if side == On {
        OffKeepsOn(s, net, e, m, p);
      } else {
        VoteOffKeepsWaiting(s, net, e, m, p);
      }
    case ExpirePending =>
      if side == On {
        SweepKeepsWaiting(s, e.time, m, p);
      }
    case ExpirePendingUn =>
      if side == Off {
        SweepUnKeepsWaiting(s, e.time, m, p);
      }
    case ExpireGlines => ExpiryKeepsWaiting(s, e.time, side, m, p);
    case Ungline(m') => RemovalKeepsWaiting(s, net, m', side, m, p);
    case _ =>
  }

  lemma {:induction false} BystandersKeepWaiting(s: State, net: string -> Netmask, run: seq<Event>,
                                                 side: Side, m: Mask, p: Pending)
    requires Waiting(s, side, m, p) && Fits(m)
    requires forall e :: e in run ==> e.time < p.last + GLINE_PENDING_EXPIRE && Bystander(e, side, m, p)
    ensures Waiting(After(s, net, run), side, m, p)
  {
    if run != [] {
      BystandersKeepWaiting(s, net, run[..|run| - 1], side, m, p);
      BystanderKeepsWaiting(After(s, net, run[..|run| - 1]), net, run[|run| - 1], side, m, p);
    }
  }

  /** Nothing is pending for m, and a ban on m that is to be placed is not active. */
  ghost predicate Untouched(s: State, side: Side, m: Mask) {
    PendingFor(s, side, m) == [] && (side == On ==> !Glined(s.glines, m))
  }

  lemma FirstVoteWaits(s: State, net: string -> Netmask, e: Event, side: Side, m: Mask)
    requires VoteFor(e, side, m) && Fits(m) && Untouched(s, side, m)
    ensures Waiting(Step(s, net, e), side, m, Open(e.time, e.action.voter, e.action.mask, e.action.reason))
  {
    if side == On {
      SweptNone(s.pending, AliveAndUnplaced(e.time, s.glines), m);
      GlinedUpToCase(s.glines, e.action.mask, m);
      OpensOnly(SweepPending(s, e.time).pending, e.time, e.action.voter, e.action.mask, e.action.reason, m);
    } else {
      SweptNone(s.pendingUn, Alive(e.time), m);
      OpensOnly(SweepPendingUn(s, e.time).pendingUn, e.time, e.action.voter, e.action.mask, e.action.reason, m);
    }
  }

  lemma SecondVoteWaits(s: State, net: string -> Netmask, e: Event, side: Side, m: Mask, p: Pending)
    requires VoteFor(e, side, m) && Waiting(s, side, m, p) && e.time < p.last + GLINE_PENDING_EXPIRE
    requires p.oper2.user == "" && !HasVoted(p, e.action.voter)
    ensures Waiting(Step(s, net, e), side, m, Second(p, e.time, e.action.voter, e.action.reason))
    ensures Step(s, net, e).glines == s.glines
  {
    var q := Second(p, e.time, e.action.voter, e.action.reason);
    if side == On {
      var ps := SweepPending(s, e.time).pending;
      SweepKeepsWaiting(s, e.time, m, p);
      GlinedUpToCase(s.glines, e.action.mask, m);
      var i := BallotFor(ps, e.action.voter, e.action.mask, m, p);
      SecondedOnly(ps, m, p, i, q);
    } else {
      var ps := SweepPendingUn(s, e.time).pendingUn;
      SweepUnKeepsWaiting(s, e.time, m, p);
      var i := BallotFor(ps, e.action.voter, e.action.mask, m, p);
      SecondedOnly(ps, m, p, i, q);
    }
  }

  /** The active list once the votes for a mask have carried. */
  ghost function Decided(s: State, net: string -> Netmask, side: Side, e: Event, reason: string): seq<Gline>
    requires e.action.Vote?
  {
    if side == On then s.glines + [Gline(e.action.mask, reason, e.action.hold)]
    else RemoveGline(s, net, e.action.mask).glines
  }

  lemma ThirdVotePlaces(s: State, net: string -> Netmask, e: Event, m: Mask, p: Pending)
    requires VoteFor(e, On, m) && Waiting(s, On, m, p) && e.time < p.last + GLINE_PENDING_EXPIRE
    requires p.oper2.user != "" && !HasVoted(p, e.action.voter)
    ensures Step(s, net, e).glines == Decided(s, net, On, e, p.reason1)
    ensures PendingFor(Step(s, net, e), On, m) == []
  {
    var t := SweepPending(s, e.time);
    var g := Gline(e.action.mask, p.reason1, e.action.hold);
    SweepKeepsWaiting(s, e.time, m, p);
    GlinedUpToCase(s.glines, e.action.mask, m);
    var i := BallotFor(t.pending, e.action.voter, e.action.mask, m, p);
    assert Step(s, net, e) == SweepPending(t.(glines := t.glines + [g]), e.time);
    PlacedClears(t, e.time, g, m, p);
  }

  /** Once the ban is active the sweep drops the entry for it. */
  lemma PlacedClears(t: State, now: int, g: Gline, m: Mask, p: Pending)
    requires Waiting(t, On, m, p) && SameMask(g.mask, m)
    ensures PendingFor(SweepPending(t.(glines := t.glines + [g]), now), On, m) == []
  {
    var keep := AliveAndUnplaced(now, t.glines + [g]);
    GlinedAfterAdd(t.glines, g, p.mask);
    FilterSwap(t.pending, keep, ForMask(m));
    FilterOne(p, keep);
  }

  lemma ThirdVoteLifts(s: State, net: string -> Netmask, e: Event, m: Mask, p: Pending)
    requires VoteFor(e, Off, m) && Waiting(s, Off, m, p) && e.time < p.last + GLINE_PENDING_EXPIRE
    requires p.oper2.user != "" && !HasVoted(p, e.action.voter)
    ensures Step(s, net, e).glines == Decided(s, net, Off, e, p.reason1)
    ensures PendingFor(Step(s, net, e), Off, m) == []
  {
    var t := SweepPendingUn(s, e.time);
    SweepUnKeepsWaiting(s, e.time, m, p);
    var i := BallotFor(t.pendingUn, e.action.voter, e.action.mask, m, p);
    CarriedOffPending(s, net, e);
    DroppedNone(t.pendingUn, i, m, p);
    SweptNone(Without(t.pendingUn, i), Alive(e.time), m);
  }

  lemma ThirdVoteDecides(s: State, net: string -> Netmask, e: Event, side: Side, m: Mask, p: Pending)
    requires VoteFor(e, side, m) && Waiting(s, side, m, p) && e.time < p.last + GLINE_PENDING_EXPIRE
    requires p.oper2.user != "" && !HasVoted(p, e.action.voter)
    ensures Step(s, net, e).glines == Decided(s, net, side, e, p.reason1)
    ensures PendingFor(Step(s, net, e), side, m) == []
  {
    if side == On {
      ThirdVotePlaces(s, net, e, m, p);
    } else {
      ThirdVoteLifts(s, net, e, m, p);
    }
  }

  // ----- records that nameless votes keep alive

  /** A vote for m by a nameless client that the record takes without counting it. */
  ghost predicate RestartVote(e: Event, side: Side, m: Mask, p: Pending) {
    VoteFor(e, side, m) && e.action.voter.user == "" && !HasVoted(p, e.action.voter)
  }

  /** What the events after the first vote make of its record. */
  ghost function Tended(p: Pending, side: Side, m: Mask, mid: seq<Event>): Pending {
    if mid == [] then p
    else
      var q, e := Tended(p, side, m, mid[..|mid| - 1]), mid[|mid| - 1];
      if RestartVote(e, side, m, q) then Second(q, e.time, e.action.voter, e.action.reason) else q
  }

  /** Every event comes before the record expires, and is a bystander or a restart. */
  ghost predicate Tends(p: Pending, side: Side, m: Mask, mid: seq<Event>) {
    mid == [] ||
    (var q, e := Tended(p, side, m, mid[..|mid| - 1]), mid[|mid| - 1];
     && Tends(p, side, m, mid[..|mid| - 1])
     && e.time < q.last + GLINE_PENDING_EXPIRE
     && (Bystander(e, side, m, q) || RestartVote(e, side, m, q)))
  }

  lemma {:induction false} TendedWaits(s: State, net: string -> Netmask, side: Side, m: Mask, p: Pending,
                                       mid: seq<Event>)
    requires Waiting(s, side, m, p) && Fits(m) && p.oper2.user == "" && Tends(p, side, m, mid)
    ensures var q := Tended(p, side, m, mid);
            && Waiting(After(s, net, mid), side, m, q)
            && q.oper1 == p.oper1 && q.reason1 == p.reason1 && q.oper2.user == ""
  {
    if mid != [] {
      var past, e := mid[..|mid| - 1], mid[|mid| - 1];
      TendedWaits(s, net, side, m, p, past);
      TendedStep(After(s, net, past), net, side, m, Tended(p, side, m, past), e);
    }
  }

  lemma TendedStep(s: State, net: string -> Netmask, side: Side, m: Mask, q: Pending, e: Event)
    requires Waiting(s, side, m, q) && Fits(m) && q.oper2.user == "" && e.time < q.last + GLINE_PENDING_EXPIRE
    requires Bystander(e, side, m, q) || RestartVote(e, side, m, q)
    ensures Waiting(Step(s, net, e), side, m,
                    if RestartVote(e, side, m, q) then Second(q, e.time, e.action.voter, e.action.reason) else q)
  {
    if RestartVote(e, side, m, q) {
      SecondVoteWaits(s, net, e, side, m, q);
    } else {
      BystanderKeepsWaiting(s, net, e, side, m, q);
    }
  }

  /** Bystanders alone leave the record as it is. */
  lemma {:induction false} BystandersTend(p: Pending, side: Side, m: Mask, mid: seq<Event>)
    requires Fits(m) && forall e :: e in mid ==> e.time < p.last + GLINE_PENDING_EXPIRE && Bystander(e, side, m, p)
    ensures Tends(p, side, m, mid) && Tended(p, side, m, mid) == p
  {
    if mid != [] {
      BystandersTend(p, side, m, mid[..|mid| - 1]);
      var e := mid[|mid| - 1];
      assert e in mid;
      if RestartVote(e, side, m, p) {
        SameMaskFits(e.action.mask, m);
      }
    }
  }

  /** The record that a vote opens. */
  ghost function Opening(e: Event): Pending
    requires e.action.Vote?
  {
    Open(e.time, e.action.voter, e.action.mask, e.action.reason)
  }

  ghost function Seconding(p: Pending, e: Event): Pending
    requires e.action.Vote?
  {
    Second(p, e.time, e.action.voter, e.action.reason)
  }

  /** Three votes for a mask by different opers on different servers, the second with a user name. */
  ghost predicate ThreeVotes(e1: Event, e2: Event, e3: Event, side: Side, m: Mask) {
    && VoteFor(e1, side, m) && VoteFor(e2, side, m) && VoteFor(e3, side, m)
    && e2.action.voter.user != ""
    && Distinct(e1.action.voter, e2.action.voter)
    && Distinct(e1.action.voter, e3.action.voter)
    && Distinct(e2.action.voter, e3.action.voter)
  }

  /** From any state in which nothing is pending for a mask, and a ban on it to be placed is not active,
      three such votes decide at the third, as long as the second comes before the record of the first
      expires, and the third within 600 s of the second: on the GLINE side the ban is placed with the
      first reason, on the GUNGLINE side the first ban that the mask lifts is lifted. */
  lemma ThreeVotesDecide(s: State, net: string -> Netmask, side: Side, m: Mask,
                         e1: Event, mid1: seq<Event>, e2: Event, mid2: seq<Event>, e3: Event)
    requires Fits(m) && Untouched(s, side, m) && ThreeVotes(e1, e2, e3, side, m)
    requires Tends(Opening(e1), side, m, mid1)
    requires var q := Tended(Opening(e1), side, m, mid1);
             && e2.time < q.last + GLINE_PENDING_EXPIRE && e3.time < e2.time + GLINE_PENDING_EXPIRE
             && forall e :: e in mid2 ==>
                  e.time < e2.time + GLINE_PENDING_EXPIRE && Bystander(e, side, m, Seconding(q, e2))
    ensures var before := [e1] + mid1 + [e2] + mid2;
            && After(s, net, before + [e3]).glines == Decided(After(s, net, before), net, side, e3, e1.action.reason)
            && PendingFor(After(s, net, before + [e3]), side, m) == []
  {
    var q := Tended(Opening(e1), side, m, mid1);
    TwoVotesWait(s, net, side, m, e1, mid1, e2);
    BystandersKeepWaiting(After(s, net, [e1] + mid1 + [e2]), net, mid2, side, m, Seconding(q, e2));
    AfterConcat(s, net, [e1] + mid1 + [e2], mid2);
    ThirdVoteDecides(After(s, net, [e1] + mid1 + [e2] + mid2), net, e3, side, m, Seconding(q, e2));
    AfterOne(s, net, [e1] + mid1 + [e2] + mid2, e3);
  }

  lemma TwoVotesWait(s: State, net: string -> Netmask, side: Side, m: Mask, e1: Event, mid1: seq<Event>, e2: Event)
    requires Fits(m) && Untouched(s, side, m) && VoteFor(e1, side, m) && VoteFor(e2, side, m)
    requires Distinct(e1.action.voter, e2.action.voter) && Tends(Opening(e1), side, m, mid1)
    requires e2.time < Tended(Opening(e1), side, m, mid1).last + GLINE_PENDING_EXPIRE
    ensures var q := Tended(Opening(e1), side, m, mid1);
            && q.oper1 == e1.action.voter && q.reason1 == e1.action.reason
            && Waiting(After(s, net, [e1] + mid1 + [e2]), side, m, Seconding(q, e2))
  {
    var q := Tended(Opening(e1), side, m, mid1);
    FirstVoteWaits(s, net, e1, side, m);
    AfterOne(s, net, [], e1);
    TendedWaits(After(s, net, [e1]), net, side, m, Opening(e1), mid1);
    AfterConcat(s, net, [e1], mid1);
    SecondVoteWaits(After(s, net, [e1] + mid1), net, e2, side, m, q);
    AfterOne(s, net, [e1] + mid1, e2);
  }

  ghost predicate Clocked(run: seq<Event>) {
    forall a, b :: 0 <= a < b < |run| ==> run[a].time <= run[b].time
  }

  /** The three votes with bystanders between them, under a clock that never goes back, each vote less
      than 600 s after the one before. */
  ghost predicate InTime(side: Side, m: Mask, e1: Event, mid1: seq<Event>, e2: Event, mid2: seq<Event>, e3: Event) {
    && ThreeVotes(e1, e2, e3, side, m)
    && Clocked([e1] + mid1 + [e2] + mid2 + [e3])
    && e2.time < e1.time + 600 && e3.time < e2.time + 600
    && (forall e :: e in mid1 ==> Bystander(e, side, m, Opening(e1)))
    && (forall e :: e in mid2 ==> Bystander(e, side, m, Seconding(Opening(e1), e2)))
  }

  lemma InTimeDecides(s: State, net: string -> Netmask, side: Side, m: Mask,
                      e1: Event, mid1: seq<Event>, e2: Event, mid2: seq<Event>, e3: Event)
    requires Fits(m) && Untouched(s, side, m) && InTime(side, m, e1, mid1, e2, mid2, e3)
    ensures var before := [e1] + mid1 + [e2] + mid2;
            && After(s, net, before + [e3]).glines == Decided(After(s, net, before), net, side, e3, e1.action.reason)
            && PendingFor(After(s, net, before + [e3]), side, m) == []
  {
    assert [e1] + mid1 + [e2] + mid2 + [e3] == [e1] + mid1 + [e2] + (mid2 + [e3]);
    MidTimes([e1], mid1, e2, mid2 + [e3]);
    MidTimes([e1] + mid1 + [e2], mid2, e3, []);
    BystandersTend(Opening(e1), side, m, mid1);
    ThreeVotesDecide(s, net, side, m, e1, mid1, e2, mid2, e3);
  }

  /** In particular three GLINE votes in time place the ban at the third, whatever bystander events
      fall between them. */
  lemma ThreeVotesAlwaysPlace(s: State, net: string -> Netmask, m: Mask,
                              e1: Event, mid1: seq<Event>, e2: Event, mid2: seq<Event>, e3: Event)
    requires Fits(m) && PendingFor(s, On, m) == [] && !Glined(s.glines, m)
    requires InTime(On, m, e1, mid1, e2, mid2, e3)
    ensures var before := [e1] + mid1 + [e2] + mid2;
            && After(s, net, before + [e3]).glines ==
               After(s, net, before).glines + [Gline(e3.action.mask, e1.action.reason, e3.action.hold)]
            && PendingFor(After(s, net, before + [e3]), On, m) == []
  {
    InTimeDecides(s, net, On, m, e1, mid1, e2, mid2, e3);
  }

  /** And three GUNGLINE votes in time carry at the third: the first ban that the mask lifts goes, and
      the entry for the mask with it. */
  lemma ThreeVotesAlwaysLift(s: State, net: string -> Netmask, m: Mask,
                             e1: Event, mid1: seq<Event>, e2: Event, mid2: seq<Event>, e3: Event)
    requires Fits(m) && PendingFor(s, Off, m) == [] && InTime(Off, m, e1, mid1, e2, mid2, e3)
    ensures var before := [e1] + mid1 + [e2] + mid2;
            var gs := After(s, net, before).glines;
            var i := FindLifted(net, gs, e3.action.mask);
            && After(s, net, before + [e3]).glines == (if i < |gs| then Without(gs, i) else gs)
            && PendingFor(After(s, net, before + [e3]), Off, m) == []
            && (Parsed(net(e3.action.mask.host)) ==> forall k :: FirstMeant(net, e3.action.mask, gs, k) ==>
                  After(s, net, before + [e3]).glines == gs[..k] + gs[k + 1..])
  {
    InTimeDecides(s, net, Off, m, e1, mid1, e2, mid2, e3);
    if Parsed(net(e3.action.mask.host)) {
      RemovalExactly(After(s, net, [e1] + mid1 + [e2] + mid2), net, e3.action.mask);
    }
  }

  lemma MidTimes(pre: seq<Event>, mid: seq<Event>, e: Event, post: seq<Event>)
    requires Clocked(pre + mid + [e] + post)
    ensures forall x :: x in mid ==> x.time <= e.time
  {
    var run := pre + mid + [e] + post;
    forall x | x in mid ensures x.time <= e.time {
      var c :| 0 <= c < |mid| && mid[c] == x;
      assert run[|pre| + c] == x && run[|pre| + |mid|] == e;
    }
  }

  // ----- the window between the first two votes has no limit

  /** Votes for a mask by a nameless client, one every 599 s. */
  ghost function NamelessVotes(m: Mask, n: nat): (r: seq<Event>)
    ensures |r| == n
  {
    seq(n, i => Event((GLINE_PENDING_EXPIRE - 1) * (i + 1), Vote(On, Voter("", "", "u", "u"), m, "", 0)))
  }

  lemma {:induction false} NamelessTend(m: Mask, p: Pending, n: nat)
    requires p.oper1 == Voter("a", "a", "a", "a") && p.oper2.user == "" && p.last == 0
    ensures var q := Tended(p, On, m, NamelessVotes(m, n));
            && Tends(p, On, m, NamelessVotes(m, n))
            && q.oper1 == p.oper1 && q.oper2.user == "" && q.last == (GLINE_PENDING_EXPIRE - 1) * n
  {
    if n > 0 {
      NamelessTend(m, p, n - 1);
      var votes := NamelessVotes(m, n);
      assert votes[..n - 1] == NamelessVotes(m, n - 1);
      DifferAtOnce("a", "u");
      assert RestartVote(votes[n - 1], On, m, Tended(p, On, m, NamelessVotes(m, n - 1)));
    }
  }

  lemma DifferAtOnce(a: string, b: string)
    requires |a| > 0 && (|b| > 0 ==> ToUpper(a[0]) != ToUpper(b[0]))
    ensures !SameText(a, b)
  {
    assert |b| > 0 ==> Fold(a)[0] != Fold(b)[0];
  }

  /** A first vote, n nameless votes, and two more votes as late as the last of these allows. */
  ghost function LateRun(m: Mask, n: nat): seq<Event> {
    var late := (GLINE_PENDING_EXPIRE - 1) * (n + 1);
    [Event(0, Vote(On, Voter("a", "a", "a", "a"), m, "why", 0))] + NamelessVotes(m, n) +
    [Event(late, Vote(On, Voter("b", "b", "b", "b"), m, "", 0))] +
    [Event(late, Vote(On, Voter("c", "c", "c", "c"), m, "", 0))]
  }

  /** The first two votes can be exactly as far apart as the number of nameless votes between them
      allows, and so as far as one likes: the third vote still places the ban. */
  lemma WindowWithoutLimit(net: string -> Netmask, m: Mask, n: nat)
    requires Fits(m)
    ensures var run := LateRun(m, n);
            && Restarts(run, On, 0, n + 1) == n
            && run[n + 1].time == run[0].time + (GLINE_PENDING_EXPIRE - 1) * (1 + n)
            && Gline(m, "why", 0) in After(EMPTY, net, run).glines
  {
    var run, votes := LateRun(m, n), NamelessVotes(m, n);
    var e1, e2, e3 := run[0], run[n + 1], run[n + 2];
    NamelessTend(m, Opening(e1), n);
    DifferAtOnce("a", "b");
    DifferAtOnce("a", "c");
    DifferAtOnce("b", "c");
    assert run == [e1] + votes + [e2] + [] + [e3];
    ThreeVotesDecide(EMPTY, net, On, m, e1, votes, e2, [], e3);
    RestartsOf(m, n, n);
  }

  lemma {:induction false} RestartsOf(m: Mask, n: nat, k: nat)
    requires Fits(m) && k <= n
    ensures Restarts(LateRun(m, n), On, 0, k + 1) == k
  {
    if k > 0 {
      RestartsOf(m, n, k - 1);
      var run := LateRun(m, n);
      assert run[k] == NamelessVotes(m, n)[k - 1];
      DifferAtOnce("a", "u");
      assert Restart(run[k], On, Stored(run[0].action.mask), run[0].action.voter);
    }
  }

  // ----- which votes meet

  /** Two votes in time by different voters, on a machine that holds nothing: they meet in one record
      if and only if their masks agree in user and in host up to case; otherwise each has its own. */
  lemma VotesMeetExactly(net: string -> Netmask, side: Side, e1: Event, e2: Event)
    requires IsVote(e1, side) && IsVote(e2, side) && Fits(e1.action.mask) && Fits(e2.action.mask)
    requires Distinct(e1.action.voter, e2.action.voter) && e2.time < e1.time + 600
    ensures var ps, a, b := PendingOn(After(EMPTY, net, [e1, e2]), side), e1.action.mask, e2.action.mask;
            ps == if SameText(a.user, b.user) && SameText(a.host, b.host) then [Seconding(Opening(e1), e2)]
                  else [Opening(e2), Opening(e1)]
  {
    var p := Opening(e1);
    AfterOne(EMPTY, net, [], e1);
    AfterOne(EMPTY, net, [e1], e2);
    assert [] + [e1] == [e1] && [e1] + [e2] == [e1, e2];
    var s1 := Step(EMPTY, net, e1);
    assert PendingOn(s1, side) == [p] && s1.glines == [];
    FilterOne(p, AliveAndUnplaced(e2.time, []));
    FilterOne(p, Alive(e2.time));
    var i := FindPending([p], e2.action.mask);
  }

  // ----- what the timers and the clears do

  lemma TimersExactly(s: State, net: string -> Netmask, now: int)
    ensures var t := Step(s, net, Event(now, ExpireGlines));
            t == s.(glines := t.glines) && forall g :: g in t.glines <==> g in s.glines && now < g.hold
    ensures var t := Step(s, net, Event(now, ExpirePendingUn));
            && t == s.(pendingUn := t.pendingUn)
            && forall p :: p in t.pendingUn <==> p in s.pendingUn && now < p.last + 600
    ensures var t := Step(s, net, Event(now, ExpirePending));
            && t == s.(pending := t.pending)
            && forall p :: p in t.pending <==>
                 && p in s.pending && now < p.last + 600
                 && forall i :: 0 <= i < |s.glines| ==> Apart(s.glines[i].mask, p.mask)
  {
    FilterMembers(s.glines, Held(now));
    FilterMembers(s.pendingUn, Alive(now));
    FilterMembers(s.pending, AliveAndUnplaced(now, s.glines));
  }

  /** The masks differ in user or in host. */
  ghost predicate Apart(a: Mask, b: Mask) {
    !SameText(a.user, b.user) || !SameText(a.host, b.host)
  }

  lemma ClearsExactly(s: State, net: string -> Netmask, now: int)
    ensures Step(s, net, Event(now, RehashGlines)) == State(s.pending, s.pendingUn, [])
    ensures Step(s, net, Event(now, RehashPglines)) == State([], s.pendingUn, s.glines)
    ensures Step(s, net, Event(now, FlushPendingUn)) == State(s.pending, [], s.glines)
  {
  }

  // ----- overlong masks

  /** Three votes on an empty machine, the first for a mask that is stored as m. */
  lemma ThreeFromEmpty(net: string -> Netmask, m: Mask, e1: Event, e2: Event, e3: Event)
    requires IsVote(e1, On) && m == Stored(e1.action.mask)
    requires VoteFor(e2, On, m) && VoteFor(e3, On, m) && e2.action.voter.user != ""
    requires Distinct(e1.action.voter, e2.action.voter)
    requires Distinct(e1.action.voter, e3.action.voter)
    requires Distinct(e2.action.voter, e3.action.voter)
    requires e2.time < e1.time + GLINE_PENDING_EXPIRE && e3.time < e2.time + GLINE_PENDING_EXPIRE
    ensures After(EMPTY, net, [e1, e2, e3]).glines == [Gline(e3.action.mask, e1.action.reason, e3.action.hold)]
  {
    var s2 := Step(Step(EMPTY, net, e1), net, e2);
    TwoFromEmpty(net, m, e1, e2);
    ThirdVotePlaces(s2, net, e3, m, Seconding(Opening(e1), e2));
    AfterThree(net, e1, e2, e3);
  }

  lemma TwoFromEmpty(net: string -> Netmask, m: Mask, e1: Event, e2: Event)
    requires IsVote(e1, On) && m == Stored(e1.action.mask) && VoteFor(e2, On, m)
    requires Distinct(e1.action.voter, e2.action.voter) && e2.time < e1.time + GLINE_PENDING_EXPIRE
    ensures var s2 := Step(Step(EMPTY, net, e1), net, e2);
            s2.glines == [] && Waiting(s2, On, m, Seconding(Opening(e1), e2))
  {
    FirstFromEmpty(net, m, e1);
    SecondVoteWaits(Step(EMPTY, net, e1), net, e2, On, m, Opening(e1));
  }

  lemma FirstFromEmpty(net: string -> Netmask, m: Mask, e: Event)
    requires IsVote(e, On) && m == Stored(e.action.mask)
    ensures Step(EMPTY, net, e).glines == [] && Waiting(Step(EMPTY, net, e), On, m, Opening(e))
  {
    assert Step(EMPTY, net, e) == State([Opening(e)], [], []);
    FilterOne(Opening(e), ForMask(m));
  }

  lemma AfterThree(net: string -> Netmask, e1: Event, e2: Event, e3: Event)
    ensures After(EMPTY, net, [e1, e2, e3]) == Step(Step(Step(EMPTY, net, e1), net, e2), net, e3)
  {
    AfterOne(EMPTY, net, [], e1);
    AfterOne(EMPTY, net, [e1], e2);
    AfterOne(EMPTY, net, [e1, e2], e3);
    assert [e1] + [e2] == [e1, e2] && [e1, e2] + [e3] == [e1, e2, e3] && [] + [e1] == [e1];
  }

  /** A vote for an overlong mask counts as the first vote for what is stored of it: two more votes
      place a ban on that mask, which the first voter did not name. */
  lemma TruncatedVoteCounts(net: string -> Netmask, m: Mask, e1: Event, e2: Event, e3: Event)
    requires IsVote(e1, On) && !Fits(e1.action.mask) && m == Stored(e1.action.mask)
    requires VoteFor(e2, On, m) && VoteFor(e3, On, m) && e2.action.voter.user != ""
    requires Distinct(e1.action.voter, e2.action.voter)
    requires Distinct(e1.action.voter, e3.action.voter)
    requires Distinct(e2.action.voter, e3.action.voter)
    requires e2.time < e1.time + GLINE_PENDING_EXPIRE && e3.time < e2.time + GLINE_PENDING_EXPIRE
    ensures !SameMask(e1.action.mask, m)
    ensures After(EMPTY, net, [e1, e2, e3]).glines == [Gline(e3.action.mask, e1.action.reason, e3.action.hold)]
  {
    if SameMask(e1.action.mask, m) {
      SameMaskFits(e1.action.mask, m);
    }
    ThreeFromEmpty(net, m, e1, e2, e3);
  }

  /** Once a ban is placed by three votes, a vote for an overlong mask that is stored as the banned one
      opens an entry for it, though it is active. */
  lemma OverlongMaskPendsActive(net: string -> Netmask, m: Mask, e1: Event, e2: Event, e3: Event, e4: Event)
    requires ThreeVotes(e1, e2, e3, On, m) && e1.action.mask == e3.action.mask == m && Fits(m)
    requires e2.time < e1.time + GLINE_PENDING_EXPIRE && e3.time < e2.time + GLINE_PENDING_EXPIRE
    requires IsVote(e4, On) && !Fits(e4.action.mask) && Stored(e4.action.mask) == m
    ensures Glined(After(EMPTY, net, [e1, e2, e3]).glines, m)
    ensures !PendingNotActive(After(EMPTY, net, [e1, e2, e3] + [e4]))
  {
    var s := After(EMPTY, net, [e1, e2, e3]);
    ThreeFromEmpty(net, m, e1, e2, e3);
    assert SameMask(s.glines[0].mask, m);
    AfterOne(EMPTY, net, [e1, e2, e3], e4);
    ReachableBasic(net, [e1, e2, e3]);
    OverlongPends(s, net, e4, m);
  }

  lemma OverlongPends(s: State, net: string -> Netmask, e: Event, m: Mask)
    requires Basic(s) && s.glines != [] && |s.glines| == 1 && SameMask(s.glines[0].mask, m) && Fits(m)
    requires IsVote(e, On) && !Fits(e.action.mask) && Stored(e.action.mask) == m
    ensures !PendingNotActive(Step(s, net, e))
  {
    var ps, q := SweepPending(s, e.time).pending, Opening(e);
    if SameMask(s.glines[0].mask, e.action.mask) {
      SameMaskFits(s.glines[0].mask, e.action.mask);
      SameMaskFits(s.glines[0].mask, m);
    }
    assert !Glined(s.glines, e.action.mask);
    SweptAlive(s, e.time);
    OverlongOpens(ps, e.time, e.action.voter, e.action.mask, e.action.reason);
    assert Step(s, net, e) == s.(pending := [q] + ps);
    assert q in [q] + ps;
    assert SameMask(s.glines[0].mask, q.mask);
  }
}
