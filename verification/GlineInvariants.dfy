/** What every reachable state of the G-line machine satisfies. */
module GlineInvariants {
  import opened Casemap
  import opened GlineVotes
  import opened GlineLists
  import opened GlineBacking

  ghost predicate OnePerMask(ps: seq<Pending>) {
    forall a, b :: 0 <= a < b < |ps| ==> !SameMask(ps[a].mask, ps[b].mask)
  }

  ghost predicate OneBanPerMask(gs: seq<Gline>) {
    forall a, b :: 0 <= a < b < |gs| ==> !SameMask(gs[a].mask, gs[b].mask)
  }

  ghost predicate SecondsDiffer(ps: seq<Pending>) {
    forall p :: p in ps && p.oper2.user != "" ==> Distinct(p.oper1, p.oper2)
  }

  ghost predicate PendingNotActive(s: State) {
    forall p :: p in s.pending ==> !Glined(s.glines, p.mask)
  }

  ghost predicate MasksFit(ps: seq<Pending>) {
    forall p :: p in ps ==> Fits(p.mask)
  }

  /** What holds after every run: stored masks fit, no two bans have the same mask, and the two
      votes behind a seconded entry differ. */
  ghost predicate Basic(s: State) {
    && MasksFit(s.pending) && MasksFit(s.pendingUn)
    && OneBanPerMask(s.glines)
    && SecondsDiffer(s.pending) && SecondsDiffer(s.pendingUn)
  }

  ghost predicate Sound(s: State) {
    && Basic(s)
    && OnePerMask(s.pending) && OnePerMask(s.pendingUn)
    && PendingNotActive(s)
  }

  lemma {:induction false} FilterOnePerMask(ps: seq<Pending>, keep: Pending -> bool)
    requires OnePerMask(ps)
    ensures OnePerMask(Filter(ps, keep))
  {
    if ps != [] {
      FilterOnePerMask(ps[1..], keep);
      FilterMembers(ps[1..], keep);
      var rest := Filter(ps[1..], keep);
      assert forall b :: 0 <= b < |rest| ==> rest[b] in rest;
    }
  }

  lemma {:induction false} FilterOneBanPerMask(gs: seq<Gline>, keep: Gline -> bool)
    requires OneBanPerMask(gs)
    ensures OneBanPerMask(Filter(gs, keep))
  {
    if gs != [] {
      FilterOneBanPerMask(gs[1..], keep);
      FilterMembers(gs[1..], keep);
      var rest := Filter(gs[1..], keep);
      assert forall b :: 0 <= b < |rest| ==> rest[b] in rest;
    }
  }

  lemma SweepPendingSound(s: State, now: int)
    requires Sound(s.(pending := [])) && OnePerMask(s.pending) && SecondsDiffer(s.pending)
    requires MasksFit(s.pending)
    ensures Sound(SweepPending(s, now))
  {
    FilterMembers(s.pending, AliveAndUnplaced(now, s.glines));
    FilterOnePerMask(s.pending, AliveAndUnplaced(now, s.glines));
  }

  lemma SweepPendingUnSound(s: State, now: int)
    requires Sound(s)
    ensures Sound(SweepPendingUn(s, now))
  {
    FilterMembers(s.pendingUn, Alive(now));
    FilterOnePerMask(s.pendingUn, Alive(now));
  }

  lemma RemoveGlineSound(s: State, net: string -> Netmask, m: Mask)
    requires Sound(s)
    ensures Sound(RemoveGline(s, net, m))
  {
    var i := FindLifted(net, s.glines, m);
    if i < |s.glines| {
      WithoutOneBanPerMask(s.glines, i);
      forall p | p in s.pending ensures !Glined(Without(s.glines, i), p.mask) {
        WithoutGlined(s.glines, i, p.mask);
      }
    }
  }

  /** A vote for a mask of storable length keeps the invariants, on either side. */
  lemma VoteSound(s: State, net: string -> Netmask, e: Event)
    requires Sound(s) && e.action.Vote? && Fits(e.action.mask)
    ensures Sound(Step(s, net, e))
  {
    if IsVote(e, On) {
      VoteOnSound(s, e.time, e.action.voter, e.action.mask, e.action.reason, e.action.hold);
    } else {
      VoteOffSound(s, net, e.time, e.action.voter, e.action.mask, e.action.reason);
    }
  }

  lemma OpenedOnePerMask(ps: seq<Pending>, now: int, v: Voter, m: Mask, reason: string)
    requires OnePerMask(ps) && SecondsDiffer(ps) && MasksFit(ps) && Fits(m) && Tally(ps, v, m).Opened?
    ensures var qs := [Open(now, v, m, reason)] + ps; OnePerMask(qs) && SecondsDiffer(qs) && MasksFit(qs)
  {
    assert FindPending(ps, m) == |ps|;
  }

  lemma SecondedOnePerMask(ps: seq<Pending>, now: int, v: Voter, m: Mask, reason: string, c: nat)
    requires OnePerMask(ps) && SecondsDiffer(ps) && MasksFit(ps) && c < |ps| && Tally(ps, v, m) == Seconded(c)
    ensures var qs := ps[c := Second(ps[c], now, v, reason)]; OnePerMask(qs) && SecondsDiffer(qs) && MasksFit(qs)
  {
    assert ps[c] in ps;
    assert !HasVoted(ps[c], v);
  }

  lemma VoteOnSound(s: State, now: int, v: Voter, m: Mask, reason: string, hold: int)
    requires Sound(s) && Fits(m)
    ensures Sound(VoteOn(s, now, v, m, reason, hold))
  {
    var t := SweepPending(s, now);
    SweepPendingSound(s, now);
    if !Glined(t.glines, m) {
      match Tally(t.pending, v, m)
      case Opened => OpenedOnePerMask(t.pending, now, v, m, reason);
      case Rejected =>
      case Seconded(i) =>
        assert t.pending[i] in t.pending;
        SecondedOnePerMask(t.pending, now, v, m, reason, i);
      case Carried(i) =>
        SweepPendingSound(t.(glines := t.glines + [Gline(m, t.pending[i].reason1, hold)]), now);
    }
  }

  lemma VoteOffSound(s: State, net: string -> Netmask, now: int, v: Voter, m: Mask, reason: string)
    requires Sound(s) && Fits(m)
    ensures Sound(VoteOff(s, net, now, v, m, reason))
  {
    var t := SweepPendingUn(s, now);
    SweepPendingUnSound(s, now);
    match Tally(t.pendingUn, v, m)
    case Opened => OpenedOnePerMask(t.pendingUn, now, v, m, reason);
    case Rejected =>
    case Seconded(i) => SecondedOnePerMask(t.pendingUn, now, v, m, reason, i);
    case Carried(i) => CarriedOffSound(t, net, now, m, i);
  }

  lemma CarriedOffSound(t: State, net: string -> Netmask, now: int, m: Mask, i: nat)
    requires Sound(t) && i < |t.pendingUn|
    ensures Sound(SweepPendingUn(RemoveGline(t, net, m).(pendingUn := Without(t.pendingUn, i)), now))
  {
    RemoveGlineSound(t, net, m);
    var u := RemoveGline(t, net, m);
    WithoutSound(u, i);
    SweepPendingUnSound(u.(pendingUn := Without(u.pendingUn, i)), now);
  }

  lemma WithoutSound(s: State, i: nat)
    requires Sound(s) && i < |s.pendingUn|
    ensures Sound(s.(pendingUn := Without(s.pendingUn, i)))
  {
    var r := Without(s.pendingUn, i);
    assert forall a :: 0 <= a < |r| ==> r[a] == s.pendingUn[if a < i then a else a + 1];
    assert forall p :: p in r ==> p in s.pendingUn;
  }

  // ----- every run

  lemma CastBasic(ps: seq<Pending>, now: int, v: Voter, m: Mask, reason: string)
    requires MasksFit(ps) && SecondsDiffer(ps)
    ensures var qs := Cast(ps, now, v, m, reason); MasksFit(qs) && SecondsDiffer(qs)
  {
    var i := FindPending(ps, m);
    if i < |ps| {
      assert ps[i] in ps;
    }
  }

  /** Entries that were there before stay well formed. */
  lemma FewerBasic(ps: seq<Pending>, qs: seq<Pending>)
    requires MasksFit(ps) && SecondsDiffer(ps) && forall p :: p in qs ==> p in ps
    ensures MasksFit(qs) && SecondsDiffer(qs)
  {
  }

  lemma PendingBasic(s: State, net: string -> Netmask, e: Event)
    requires Basic(s)
    ensures MasksFit(Step(s, net, e).pending) && SecondsDiffer(Step(s, net, e).pending)
  {
    if !IsVote(e, On) {
      OthersOnlyDrop(s, net, e);
    } else {
      var ps := SweepPending(s, e.time).pending;
      SweptAlive(s, e.time);
      FewerBasic(s.pending, ps);
      CastBasic(ps, e.time, e.action.voter, e.action.mask, e.action.reason);
      if Glined(s.glines, e.action.mask) || Tally(ps, e.action.voter, e.action.mask).Carried? {
        CarriedOnLeaves(s, net, e);
      }
    }
  }

  lemma PendingUnBasic(s: State, net: string -> Netmask, e: Event)
    requires Basic(s)
    ensures MasksFit(Step(s, net, e).pendingUn) && SecondsDiffer(Step(s, net, e).pendingUn)
  {
    if !IsVote(e, Off) {
      OthersOnlyDrop(s, net, e);
    } else {
      var ps := SweepPendingUn(s, e.time).pendingUn;
      SweptUnAlive(s, e.time);
      FewerBasic(s.pendingUn, ps);
      CastBasic(ps, e.time, e.action.voter, e.action.mask, e.action.reason);
      if Tally(ps, e.action.voter, e.action.mask).Carried? {
        CarriedOffLeaves(s, net, e);
      }
    }
  }

  lemma WithoutOneBanPerMask(gs: seq<Gline>, i: nat)
    requires OneBanPerMask(gs) && i < |gs|
    ensures OneBanPerMask(Without(gs, i))
  {
    var r := Without(gs, i);
    assert forall a :: 0 <= a < |r| ==> r[a] == gs[if a < i then a else a + 1];
  }

  lemma GlinesBasic(s: State, net: string -> Netmask, e: Event)
    requires OneBanPerMask(s.glines)
    ensures OneBanPerMask(Step(s, net, e).glines)
  {
    match e.action
    case Vote(Off, _, m, _, _) => RemovedOneBanPerMask(SweepPendingUn(s, e.time), net, m);
    case Ungline(m) => RemovedOneBanPerMask(s, net, m);
    case ExpireGlines => FilterOneBanPerMask(s.glines, Held(e.time));
    case _ =>
  }

  lemma RemovedOneBanPerMask(s: State, net: string -> Netmask, m: Mask)
    requires OneBanPerMask(s.glines)
    ensures OneBanPerMask(RemoveGline(s, net, m).glines)
  {
    var i := FindLifted(net, s.glines, m);
    if i < |s.glines| {
      WithoutOneBanPerMask(s.glines, i);
    }
  }

  /** After every run, whatever masks are voted on, no two bans have the same mask, and a seconded
      entry has different opers on different servers behind it. */
  lemma {:induction false} ReachableBasic(net: string -> Netmask, run: seq<Event>)
    ensures Basic(After(EMPTY, net, run))
  {
    if run != [] {
      var past, e := run[..|run| - 1], run[|run| - 1];
      ReachableBasic(net, past);
      var s := After(EMPTY, net, past);
      PendingBasic(s, net, e);
      PendingUnBasic(s, net, e);
      GlinesBasic(s, net, e);
    }
  }

  // ----- exactly when the other invariants are kept

  ghost predicate HasEntry(ps: seq<Pending>, m: Mask) {
    exists p :: p in ps && SameMask(p.mask, m)
  }

  /** What keeps a vote from breaking the invariants: its mask fits the fields that store it, or it
      opens no entry because the mask is active, or what is stored of it is neither active nor
      pending. A removal vote opens an entry whether or not the mask is active. */
  ghost predicate Harmless(s: State, e: Event) {
    match e.action
    case Vote(On, _, m, _, _) =>
      || Fits(m) || Glined(s.glines, m)
      || (!Glined(s.glines, Stored(m)) && !HasEntry(SweepPending(s, e.time).pending, Stored(m)))
    case Vote(Off, _, m, _, _) =>
      Fits(m) || !HasEntry(SweepPendingUn(s, e.time).pendingUn, Stored(m))
    case _ => true
  }

  /** A step keeps all invariants if and only if it is harmless. */
  lemma StepSoundExactly(s: State, net: string -> Netmask, e: Event)
    requires Sound(s)
    ensures Sound(Step(s, net, e)) <==> Harmless(s, e)
  {
    match e.action
    case Vote(_, _, m, _, _) =>
      if Fits(m) {
        VoteSound(s, net, e);
      } else if IsVote(e, On) {
        OverlongOnExactly(s, net, e);
      } else {
        OverlongOffExactly(s, net, e);
      }
    case ExpirePending => SweepPendingSound(s, e.time);
    case ExpirePendingUn => SweepPendingUnSound(s, e.time);
    case ExpireGlines => SweepGlinesSound(s, e.time);
    case Ungline(m) => RemoveGlineSound(s, net, m);
    case _ =>
  }

  lemma SweepGlinesSound(s: State, now: int)
    requires Sound(s)
    ensures Sound(SweepGlines(s, now))
  {
    FilterOneBanPerMask(s.glines, Held(now));
    forall p | p in s.pending ensures !Glined(SweepGlines(s, now).glines, p.mask) {
      if Glined(SweepGlines(s, now).glines, p.mask) {
        FilterGlined(s.glines, Held(now), p.mask);
      }
    }
  }

  lemma OverlongOnExactly(s: State, net: string -> Netmask, e: Event)
    requires Sound(s) && IsVote(e, On) && !Fits(e.action.mask)
    ensures Sound(Step(s, net, e)) <==> Harmless(s, e)
  {
    var m := e.action.mask;
    SweepPendingSound(s, e.time);
    if !Glined(s.glines, m) {
      var ps, q := SweepPending(s, e.time).pending, Open(e.time, e.action.voter, m, e.action.reason);
      OverlongOpens(ps, e.time, e.action.voter, m, e.action.reason);
      AddedOnePerMask(q, ps);
      PendingBasic(s, net, e);
      assert Step(s, net, e) == s.(pending := [q] + ps);
      assert q in [q] + ps;
    }
  }

  lemma OverlongOffExactly(s: State, net: string -> Netmask, e: Event)
    requires Sound(s) && IsVote(e, Off) && !Fits(e.action.mask)
    ensures Sound(Step(s, net, e)) <==> Harmless(s, e)
  {
    var m := e.action.mask;
    SweepPendingUnSound(s, e.time);
    var ps, q := SweepPendingUn(s, e.time).pendingUn, Open(e.time, e.action.voter, m, e.action.reason);
    OverlongOpens(ps, e.time, e.action.voter, m, e.action.reason);
    AddedOnePerMask(q, ps);
    PendingUnBasic(s, net, e);
    assert Step(s, net, e) == s.(pendingUn := [q] + ps);
  }

  lemma AddedOnePerMask(q: Pending, ps: seq<Pending>)
    requires OnePerMask(ps)
    ensures OnePerMask([q] + ps) <==> !HasEntry(ps, q.mask)
  {
    var qs := [q] + ps;
    if HasEntry(ps, q.mask) {
      var c :| 0 <= c < |ps| && SameMask(ps[c].mask, q.mask);
      assert SameMask(qs[0].mask, qs[c + 1].mask);
    } else {
      assert forall c :: 0 <= c < |ps| ==> ps[c] in ps;
    }
  }

  /** A vote for an overlong mask matches nothing stored, so it always opens an entry. */
  lemma OverlongOpens(ps: seq<Pending>, now: int, v: Voter, m: Mask, reason: string)
    requires MasksFit(ps) && !Fits(m)
    ensures Tally(ps, v, m).Opened? && Cast(ps, now, v, m, reason) == [Open(now, v, m, reason)] + ps
  {
    var i := FindPending(ps, m);
    if i < |ps| {
      assert ps[i] in ps;
      SameMaskFits(ps[i].mask, m);
    }
  }

  /** In particular, a vote leaves one entry per mask on its own list unless its mask is overlong and
      a live entry already holds what the store keeps of it. */
  lemma OnePerMaskExactly(s: State, net: string -> Netmask, e: Event)
    requires Sound(s)
    ensures IsVote(e, On) ==>
              (OnePerMask(Step(s, net, e).pending) <==>
               || Fits(e.action.mask) || Glined(s.glines, e.action.mask)
               || !HasEntry(SweepPending(s, e.time).pending, Stored(e.action.mask)))
    ensures IsVote(e, Off) ==>
              (OnePerMask(Step(s, net, e).pendingUn) <==>
               Fits(e.action.mask) || !HasEntry(SweepPendingUn(s, e.time).pendingUn, Stored(e.action.mask)))
  {
    if IsVote(e, On) || IsVote(e, Off) {
      var m := e.action.mask;
      SweepPendingSound(s, e.time);
      SweepPendingUnSound(s, e.time);
      if Fits(m) {
        VoteSound(s, net, e);
      } else if IsVote(e, On) && !Glined(s.glines, m) {
        OverlongAdds(SweepPending(s, e.time).pending, e);
      } else if IsVote(e, Off) {
        OverlongAdds(SweepPendingUn(s, e.time).pendingUn, e);
      }
    }
  }

  lemma OverlongAdds(ps: seq<Pending>, e: Event)
    requires e.action.Vote? && !Fits(e.action.mask) && MasksFit(ps) && OnePerMask(ps)
    ensures Tally(ps, e.action.voter, e.action.mask).Opened?
    ensures OnePerMask(Cast(ps, e.time, e.action.voter, e.action.mask, e.action.reason)) <==>
            !HasEntry(ps, Stored(e.action.mask))
  {
    OverlongOpens(ps, e.time, e.action.voter, e.action.mask, e.action.reason);
    AddedOnePerMask(Open(e.time, e.action.voter, e.action.mask, e.action.reason), ps);
  }

  /** The state after the first k events of a run. */
  ghost function StateAt(net: string -> Netmask, run: seq<Event>, k: nat): State
    requires k <= |run|
  {
    After(EMPTY, net, run[..k])
  }

  ghost predicate SoundUpTo(net: string -> Netmask, run: seq<Event>, n: nat)
    requires n <= |run|
  {
    forall k :: 0 <= k <= n ==> Sound(StateAt(net, run, k))
  }

  ghost predicate HarmlessUpTo(net: string -> Netmask, run: seq<Event>, n: nat)
    requires n <= |run|
  {
    forall k :: 0 <= k < n ==> Harmless(StateAt(net, run, k), run[k])
  }

  /** A run stays sound throughout if and only if every step of it is harmless. */
  lemma {:induction false} RunSoundExactly(net: string -> Netmask, run: seq<Event>, n: nat)
    requires n <= |run|
    ensures SoundUpTo(net, run, n) <==> HarmlessUpTo(net, run, n)
  {
    if n > 0 {
      RunSoundExactly(net, run, n - 1);
      UpToNext(net, run, n - 1);
      AfterPrefix(EMPTY, net, run, n - 1);
      if SoundUpTo(net, run, n - 1) {
        StepSoundExactly(StateAt(net, run, n - 1), net, run[n - 1]);
      }
    }
  }

  lemma UpToNext(net: string -> Netmask, run: seq<Event>, n: nat)
    requires n < |run|
    ensures SoundUpTo(net, run, n + 1) <==> SoundUpTo(net, run, n) && Sound(StateAt(net, run, n + 1))
    ensures HarmlessUpTo(net, run, n + 1) <==> HarmlessUpTo(net, run, n) && Harmless(StateAt(net, run, n), run[n])
    ensures SoundUpTo(net, run, n) ==> Sound(StateAt(net, run, n))
  {
  }

  ghost predicate StorableMasks(run: seq<Event>) {
    forall k :: 0 <= k < |run| && run[k].action.Vote? ==> Fits(run[k].action.mask)
  }

  /** In particular every state is sound when the voted masks fit the fields that store them. */
  lemma ReachableSound(net: string -> Netmask, run: seq<Event>)
    requires StorableMasks(run)
    ensures Sound(After(EMPTY, net, run))
  {
    RunSoundExactly(net, run, |run|);
    assert run[..|run|] == run && Sound(StateAt(net, run, |run|));
  }

  /** The failing case happens: two votes for one overlong user name leave two entries. */
  lemma OverlongMaskDuplicates()
    ensures var v1, v2 := Voter("a", "a", "h", "s1"), Voter("b", "b", "h", "s2");
            var m := Mask("abcdefghijk", "h.example");
            var s := VoteOn(VoteOn(EMPTY, 0, v1, m, "r", 9), 1, v2, m, "r", 9);
            |s.pending| == 2 && !OnePerMask(s.pending)
  {
    var v1, v2 := Voter("a", "a", "h", "s1"), Voter("b", "b", "h", "s2");
    var m := Mask("abcdefghijk", "h.example");
    var s1 := VoteOn(EMPTY, 0, v1, m, "r", 9);
    var p1 := Open(0, v1, m, "r");
    assert s1.pending == [p1];
    var t := SweepPending(s1, 1);
    FilterOne(p1, AliveAndUnplaced(1, s1.glines));
    assert t.pending == [p1];
    OverlongOpens(t.pending, 1, v2, m, "r");
    var s := VoteOn(s1, 1, v2, m, "r", 9);
    assert s.pending == [Open(1, v2, m, "r"), p1];
    assert SameMask(s.pending[0].mask, s.pending[1].mask);
  }

  /** A GUNGLINE vote that carries drops one entry, so it leaves none for its mask if and only if
      exactly one live entry for the mask stood before it. */
  lemma CompletedUnglineDropped(s: State, net: string -> Netmask, e: Event)
    requires IsVote(e, Off)
    requires Tally(SweepPendingUn(s, e.time).pendingUn, e.action.voter, e.action.mask).Carried?
    ensures (forall p :: p in Step(s, net, e).pendingUn ==> !SameMask(p.mask, e.action.mask)) <==>
            |Filter(SweepPendingUn(s, e.time).pendingUn, ForMask(e.action.mask))| == 1
    ensures OnePerMask(s.pendingUn) ==>
              forall p :: p in Step(s, net, e).pendingUn ==> !SameMask(p.mask, e.action.mask)
  {
    var m := e.action.mask;
    var ps := SweepPendingUn(s, e.time).pendingUn;
    var rest := Without(ps, FindPending(ps, m));
    CarriedOffPending(s, net, e);
    SweptUnAlive(s, e.time);
    AllAlive(rest, Alive(e.time));
    FilterWithout(ps, FindPending(ps, m), ForMask(m));
    NoneFor(rest, m);
    if OnePerMask(s.pendingUn) {
      FilterOnePerMask(s.pendingUn, Alive(e.time));
      OthersDiffer(ps, m);
    }
  }

  lemma {:induction false} AllAlive<T>(xs: seq<T>, keep: T -> bool)
    requires forall i :: 0 <= i < |xs| ==> keep(xs[i])
    ensures Filter(xs, keep) == xs
  {
    if xs != [] {
      AllAlive(xs[1..], keep);
      assert xs == [xs[0]] + xs[1..];
    }
  }

  lemma NoneFor(ps: seq<Pending>, m: Mask)
    ensures (forall p :: p in ps ==> !SameMask(p.mask, m)) <==> |Filter(ps, ForMask(m))| == 0
  {
    var mine := Filter(ps, ForMask(m));
    FilterMembers(ps, ForMask(m));
    if mine != [] {
      assert mine[0] in mine;
    }
  }

  lemma OthersDiffer(ps: seq<Pending>, m: Mask)
    requires OnePerMask(ps) && FindPending(ps, m) < |ps|
    ensures forall p :: p in Without(ps, FindPending(ps, m)) ==> !SameMask(p.mask, m)
  {
    var i := FindPending(ps, m);
    var rest := Without(ps, i);
    forall p | p in rest ensures !SameMask(p.mask, m) {
      var a :| 0 <= a < |rest| && rest[a] == p;
      assert p == ps[if a < i then a else a + 1];
    }
  }
}
