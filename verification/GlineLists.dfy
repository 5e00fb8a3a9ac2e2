/** Lemmas about the lists and the runs of the G-line machine. */
module GlineLists {
  import opened Common
  import opened Casemap
  import opened GlineVotes

  lemma {:induction false} FilterMembers<T>(xs: seq<T>, keep: T -> bool)
    ensures forall x :: x in Filter(xs, keep) <==> x in xs && keep(x)
  {
    if xs != [] {
      FilterMembers(xs[1..], keep);
      assert xs == [xs[0]] + xs[1..];
    }
  }

  lemma {:induction false} FilterConcat<T>(xs: seq<T>, ys: seq<T>, keep: T -> bool)
    ensures Filter(xs + ys, keep) == Filter(xs, keep) + Filter(ys, keep)
  {
    if xs == [] {
      assert xs + ys == ys;
    } else {
      FilterConcat(xs[1..], ys, keep);
      assert (xs + ys)[0] == xs[0] && (xs + ys)[1..] == xs[1..] + ys;
      Regroup(if keep(xs[0]) then [xs[0]] else [], Filter(xs[1..], keep), Filter(ys, keep));
    }
  }

  lemma {:induction false} FilterSwap<T>(xs: seq<T>, a: T -> bool, b: T -> bool)
    ensures Filter(Filter(xs, a), b) == Filter(Filter(xs, b), a)
  {
    if xs != [] {
      FilterSwap(xs[1..], a, b);
      FilterConcat(if a(xs[0]) then [xs[0]] else [], Filter(xs[1..], a), b);
      FilterConcat(if b(xs[0]) then [xs[0]] else [], Filter(xs[1..], b), a);
    }
  }

  lemma FilterOne<T>(x: T, keep: T -> bool)
    ensures Filter([x], keep) == if keep(x) then [x] else []
  {
  }

  lemma FilterUpdate<T>(xs: seq<T>, i: nat, y: T, keep: T -> bool)
    requires i < |xs|
    ensures Filter(xs[i := y], keep) ==
            Filter(xs[..i], keep) + (if keep(y) then [y] else []) + Filter(xs[i + 1..], keep)
    ensures Filter(xs, keep) ==
            Filter(xs[..i], keep) + (if keep(xs[i]) then [xs[i]] else []) + Filter(xs[i + 1..], keep)
  {
    assert xs == xs[..i] + ([xs[i]] + xs[i + 1..]);
    assert xs[i := y] == xs[..i] + ([y] + xs[i + 1..]);
    FilterConcat(xs[..i], [y] + xs[i + 1..], keep);
    FilterConcat([y], xs[i + 1..], keep);
    FilterConcat(xs[..i], [xs[i]] + xs[i + 1..], keep);
    FilterConcat([xs[i]], xs[i + 1..], keep);
  }

  lemma FilterGlined(gs: seq<Gline>, keep: Gline -> bool, m: Mask)
    requires Glined(Filter(gs, keep), m)
    ensures Glined(gs, m)
  {
    FilterMembers(gs, keep);
    var kept := Filter(gs, keep);
    var i :| 0 <= i < |kept| && SameMask(kept[i].mask, m);
    assert kept[i] in kept;
  }

  lemma WithoutGlined(gs: seq<Gline>, i: nat, m: Mask)
    requires i < |gs|
    ensures Glined(Without(gs, i), m) ==> Glined(gs, m)
  {
    var r := Without(gs, i);
    if Glined(r, m) {
      var c :| 0 <= c < |r| && SameMask(r[c].mask, m);
      assert r[c] == gs[if c < i then c else c + 1];
    }
  }

  lemma SweptAlive(s: State, now: int)
    ensures forall p :: p in SweepPending(s, now).pending ==> p in s.pending && !Glined(s.glines, p.mask)
    ensures var ps := SweepPending(s, now).pending;
            forall c :: 0 <= c < |ps| ==> now < ps[c].last + GLINE_PENDING_EXPIRE
  {
    FilterMembers(s.pending, AliveAndUnplaced(now, s.glines));
    var ps := SweepPending(s, now).pending;
    assert forall c :: 0 <= c < |ps| ==> ps[c] in ps;
  }

  lemma SweptUnAlive(s: State, now: int)
    ensures forall p :: p in SweepPendingUn(s, now).pendingUn ==> p in s.pendingUn
    ensures var ps := SweepPendingUn(s, now).pendingUn;
            forall c :: 0 <= c < |ps| ==> now < ps[c].last + GLINE_PENDING_EXPIRE
  {
    FilterMembers(s.pendingUn, Alive(now));
    var ps := SweepPendingUn(s, now).pendingUn;
    assert forall c :: 0 <= c < |ps| ==> ps[c] in ps;
  }

  lemma SameMaskFits(a: Mask, b: Mask)
    requires SameMask(a, b)
    ensures Fits(a) <==> Fits(b)
  {
    assert |Fold(a.user)| == |a.user| && |Fold(a.host)| == |a.host|;
  }

  lemma GlinedAfterAdd(gs: seq<Gline>, g: Gline, m: Mask)
    ensures Glined(gs + [g], m) <==> Glined(gs, m) || SameMask(g.mask, m)
  {
    var all := gs + [g];
    if Glined(gs, m) {
      var i :| 0 <= i < |gs| && SameMask(gs[i].mask, m);
      assert SameMask(all[i].mask, m);
    }
    if SameMask(g.mask, m) {
      assert SameMask(all[|gs|].mask, m);
    }
  }

  lemma GlinedUpToCase(gs: seq<Gline>, a: Mask, b: Mask)
    requires SameMask(a, b)
    ensures Glined(gs, a) <==> Glined(gs, b)
  {
    assert forall i :: 0 <= i < |gs| ==> (SameMask(gs[i].mask, a) <==> SameMask(gs[i].mask, b));
  }

  lemma OthersStay<T>(xs: seq<T>, i: nat, x: T)
    requires i < |xs| && x in xs
    ensures x == xs[i] || x in Without(xs, i)
  {
    var c :| 0 <= c < |xs| && xs[c] == x;
    if c != i {
      assert Without(xs, i)[if c < i then c else c - 1] == x;
    }
  }

  /** Different in user@host, and on different servers. */
  ghost predicate Distinct(a: Voter, b: Voter) {
    !(SameText(a.user, b.user) && SameText(a.host, b.host)) && !SameText(a.server, b.server)
  }

  ghost predicate IsVote(e: Event, side: Side) {
    e.action.Vote? && e.action.side == side
  }

  ghost predicate VoteFor(e: Event, side: Side, m: Mask) {
    IsVote(e, side) && SameMask(e.action.mask, m)
  }

  function ForMask(m: Mask): Pending -> bool {
    (p: Pending) => SameMask(p.mask, m)
  }

  lemma FilterWithout<T>(xs: seq<T>, i: nat, keep: T -> bool)
    requires i < |xs|
    ensures Filter(Without(xs, i), keep) == Filter(xs[..i], keep) + Filter(xs[i + 1..], keep)
    ensures |Filter(Without(xs, i), keep)| == |Filter(xs, keep)| - if keep(xs[i]) then 1 else 0
  {
    FilterConcat(xs[..i], xs[i + 1..], keep);
    FilterUpdate(xs, i, xs[i], keep);
  }

  lemma AfterOne(s: State, net: string -> Netmask, past: seq<Event>, e: Event)
    ensures After(s, net, past + [e]) == Step(After(s, net, past), net, e)
  {
    var run := past + [e];
    assert run[..|run| - 1] == past;
  }

  /** One step further into a run. */
  lemma AfterPrefix(s: State, net: string -> Netmask, run: seq<Event>, k: nat)
    requires k < |run|
    ensures After(s, net, run[..k + 1]) == Step(After(s, net, run[..k]), net, run[k])
    ensures run[..k] + [run[k]] <= run
  {
    assert run[..k + 1][..k] == run[..k];
  }

  lemma ConcatLast<T>(a: seq<T>, b: seq<T>)
    requires b != []
    ensures (a + b)[..|a + b| - 1] == a + b[..|b| - 1] && (a + b)[|a + b| - 1] == b[|b| - 1]
  {
  }

  lemma {:induction false} AfterConcat(s: State, net: string -> Netmask, a: seq<Event>, b: seq<Event>)
    ensures After(s, net, a + b) == After(After(s, net, a), net, b)
  {
    if b == [] {
      assert a + b == a;
    } else {
      AfterConcat(s, net, a, b[..|b| - 1]);
      ConcatLast(a, b);
    }
  }

  // ----- which ban a removal request means

  /** An address whose leading bits are those of the network. */
  ghost predicate InBlock(x: seq<bool>, address: seq<bool>, bits: nat) {
    bits <= |x| && bits <= |address| && forall i :: 0 <= i < bits ==> x[i] == address[i]
  }

  /** Two networks of that length hold the same addresses. */
  ghost predicate SameBlock(a: seq<bool>, b: seq<bool>, bits: nat) {
    forall x :: InBlock(x, a, bits) <==> InBlock(x, b, bits)
  }

  /** A ban for the same user, and either for the same host name or for a network of the same family
      and length that holds the same addresses. */
  ghost predicate Meant(net: string -> Netmask, m: Mask, g: Gline) {
    var a, b := net(m.host), net(g.mask.host);
    && SameText(m.user, g.mask.user)
    && (|| (a.Hostname? && b.Hostname? && SameText(m.host, g.mask.host))
        || (a.Network? && b.Network? && a.v6 == b.v6 && a.bits == b.bits && SameBlock(a.address, b.address, a.bits)))
  }

  ghost predicate FirstMeant(net: string -> Netmask, m: Mask, gs: seq<Gline>, i: int) {
    0 <= i < |gs| && Meant(net, m, gs[i]) && forall k :: 0 <= k < i ==> !Meant(net, m, gs[k])
  }

  /** A network is no longer than its address. */
  ghost predicate Parsed(n: Netmask) {
    n.Network? ==> n.bits <= |n.address|
  }

  lemma PrefixIsBlock(a: seq<bool>, b: seq<bool>, bits: nat)
    ensures SamePrefix(a, b, bits) ==> SameBlock(a, b, bits)
    ensures bits <= |a| && SameBlock(a, b, bits) ==> SamePrefix(a, b, bits)
  {
    if SamePrefix(a, b, bits) {
      assert forall i :: 0 <= i < bits ==> a[i] == a[..bits][i] && b[i] == b[..bits][i];
    }
    if bits <= |a| && SameBlock(a, b, bits) {
      assert InBlock(a, a, bits);
      assert InBlock(a, b, bits);
      assert a[..bits] == b[..bits];
    }
  }

  lemma LiftsIsMeant(net: string -> Netmask, m: Mask, g: Gline)
    ensures Lifts(net, m, g) ==> Meant(net, m, g)
    ensures Parsed(net(m.host)) && Meant(net, m, g) ==> Lifts(net, m, g)
  {
    var a, b := net(m.host), net(g.mask.host);
    if a.Network? && b.Network? {
      PrefixIsBlock(a.address, b.address, a.bits);
    }
  }

  /** A removal takes the first ban that the request means out of the list, and nothing when there is
      none. */
  lemma RemovalExactly(s: State, net: string -> Netmask, m: Mask)
    requires Parsed(net(m.host))
    ensures (forall g :: g in s.glines ==> !Meant(net, m, g)) ==> RemoveGline(s, net, m) == s
    ensures forall i :: FirstMeant(net, m, s.glines, i) ==>
              RemoveGline(s, net, m) == s.(glines := s.glines[..i] + s.glines[i + 1..])
  {
    var gs, j := s.glines, FindLifted(net, s.glines, m);
    forall k | 0 <= k < |gs| ensures Lifts(net, m, gs[k]) <==> Meant(net, m, gs[k]) {
      LiftsIsMeant(net, m, gs[k]);
    }
    forall i | FirstMeant(net, m, gs, i) ensures i == j {
      assert j <= i;
    }
    if j < |gs| {
      assert gs[j] in gs;
    }
  }
}
