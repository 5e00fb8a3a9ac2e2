/** The data and the pure specification of the G-line voting machine: one ballot, the two
    pending lists, the active list, and the steps that change them. */
module GlineVotes {
  import opened Common
  import opened Casemap

  const GLINE_PENDING_EXPIRE: int := 600

  datatype Mask = Mask(user: string, host: string)

  datatype Voter = Voter(nick: string, user: string, host: string, server: string)

  const NOBODY: Voter := Voter("", "", "", "")

  /** struct gline_pending. An empty second user name means that nobody has seconded yet. */
  datatype Pending = Pending(
    oper1: Voter, reason1: string, time1: int,
    oper2: Voter, reason2: string, time2: int,
    last: int, mask: Mask)

  /** The part of struct ConfItem that a G-line uses. */
  datatype Gline = Gline(mask: Mask, reason: string, hold: int)

  /** What parse_netmask makes of the host part of a mask. */
  datatype Netmask = Hostname | Network(v6: bool, address: seq<bool>, bits: nat)

  datatype State = State(pending: seq<Pending>, pendingUn: seq<Pending>, glines: seq<Gline>)

  const EMPTY: State := State([], [], [])

  // ----- comparisons

  predicate SameMask(a: Mask, b: Mask) {
    SameText(a.user, b.user) && SameText(a.host, b.host)
  }

  predicate SameOper(a: Voter, b: Voter) {
    SameText(a.user, b.user) && SameText(a.host, b.host)
  }

  predicate SameServer(a: Voter, b: Voter) {
    SameText(a.server, b.server)
  }

  predicate Fits(m: Mask) {
    |m.user| <= USERLEN && |m.host| <= HOSTLEN
  }

  /** What rb_strlcpy leaves of a mask in the fixed-size fields of a pending record. */
  function Stored(m: Mask): (r: Mask)
    ensures Fits(r)
    ensures Fits(m) ==> r == m
    ensures r.user <= m.user && |r.user| == (if |m.user| > 10 then 10 else |m.user|)
    ensures r.host <= m.host && |r.host| == (if |m.host| > 63 then 63 else |m.host|)
  {
    Mask(Take(m.user, USERLEN), Take(m.host, HOSTLEN))
  }

  predicate Glined(glines: seq<Gline>, m: Mask) {
    exists i :: 0 <= i < |glines| && SameMask(glines[i].mask, m)
  }

  predicate SamePrefix(a: seq<bool>, b: seq<bool>, bits: nat) {
    bits <= |a| && bits <= |b| && a[..bits] == b[..bits]
  }

  /** The test remove_temp_gline applies to each active G-line. */
  predicate Lifts(net: string -> Netmask, m: Mask, g: Gline) {
    var wanted, held := net(m.host), net(g.mask.host);
    && SameText(m.user, g.mask.user)
    && (match (wanted, held)
        case (Hostname, Hostname) => SameText(g.mask.host, m.host)
        case (Network(v6, address, bits), Network(v6', address', bits')) =>
          v6 == v6' && bits == bits' && SamePrefix(address, address', bits)
        case _ => false)
  }

  // ----- list helpers

  function Filter<T>(xs: seq<T>, keep: T -> bool): seq<T> {
    if xs == [] then []
    else (if keep(xs[0]) then [xs[0]] else []) + Filter(xs[1..], keep)
  }

  function Without<T>(xs: seq<T>, i: nat): seq<T>
    requires i < |xs|
  {
    xs[..i] + xs[i + 1..]
  }

  /** Index of the first pending entry for a mask, or the length of the list. */
  function FindPending(ps: seq<Pending>, m: Mask): (i: nat)
    ensures i <= |ps|
    ensures forall k :: 0 <= k < i ==> !SameMask(ps[k].mask, m)
    ensures i < |ps| ==> SameMask(ps[i].mask, m)
  {
    if ps == [] || SameMask(ps[0].mask, m) then 0 else 1 + FindPending(ps[1..], m)
  }

  /** Index of the first active G-line that a removal request lifts, or the length of the list. */
  function FindLifted(net: string -> Netmask, gs: seq<Gline>, m: Mask): (i: nat)
    ensures i <= |gs|
    ensures forall k :: 0 <= k < i ==> !Lifts(net, m, gs[k])
    ensures i < |gs| ==> Lifts(net, m, gs[i])
  {
    if gs == [] || Lifts(net, m, gs[0]) then 0 else 1 + FindLifted(net, gs[1..], m)
  }

  // ----- one ballot

  datatype Ballot = Opened | Rejected | Seconded(index: nat) | Carried(index: nat)

  predicate HasVoted(p: Pending, v: Voter) {
    || SameOper(p.oper1, v)
    || SameServer(p.oper1, v)
    || (p.oper2.user != "" && (SameOper(p.oper2, v) || SameServer(p.oper2, v)))
  }

  function Tally(ps: seq<Pending>, v: Voter, m: Mask): Ballot {
    var i := FindPending(ps, m);
    if i == |ps| then Opened
    else if HasVoted(ps[i], v) then Rejected
    else if ps[i].oper2.user == "" then Seconded(i)
    else Carried(i)
  }

  function Open(now: int, v: Voter, m: Mask, reason: string): Pending {
    Pending(v, reason, now, NOBODY, "", 0, now, Stored(m))
  }

  function Second(p: Pending, now: int, v: Voter, reason: string): Pending {
    p.(oper2 := v, reason2 := reason, time2 := now, last := now)
  }

  // ----- the steps

  function Alive(now: int): Pending -> bool {
    (p: Pending) => now < p.last + GLINE_PENDING_EXPIRE
  }

  function AliveAndUnplaced(now: int, gs: seq<Gline>): Pending -> bool {
    (p: Pending) => now < p.last + GLINE_PENDING_EXPIRE && !Glined(gs, p.mask)
  }

  function Held(now: int): Gline -> bool {
    (g: Gline) => now < g.hold
  }

  function SweepPending(s: State, now: int): State {
    s.(pending := Filter(s.pending, AliveAndUnplaced(now, s.glines)))
  }

  function SweepPendingUn(s: State, now: int): State {
    s.(pendingUn := Filter(s.pendingUn, Alive(now)))
  }

  function SweepGlines(s: State, now: int): State {
    s.(glines := Filter(s.glines, Held(now)))
  }

  function RemoveGline(s: State, net: string -> Netmask, m: Mask): State {
    var i := FindLifted(net, s.glines, m);
    if i < |s.glines| then s.(glines := Without(s.glines, i)) else s
  }

  /** What a vote that does not carry makes of a pending list. */
  function Cast(ps: seq<Pending>, now: int, v: Voter, m: Mask, reason: string): seq<Pending> {
    match Tally(ps, v, m)
    case Opened => [Open(now, v, m, reason)] + ps
    case Seconded(i) => ps[i := Second(ps[i], now, v, reason)]
    case _ => ps
  }

  /** A GLINE vote. */
  function VoteOn(s: State, now: int, v: Voter, m: Mask, reason: string, hold: int): State {
    var t := SweepPending(s, now);
    if Glined(t.glines, m) then t
    else
      match Tally(t.pending, v, m)
      case Carried(i) =>
        SweepPending(t.(glines := t.glines + [Gline(m, t.pending[i].reason1, hold)]), now)
      case _ => t.(pending := Cast(t.pending, now, v, m, reason))
  }

  /** A GUNGLINE vote. */
  function VoteOff(s: State, net: string -> Netmask, now: int, v: Voter, m: Mask, reason: string): State {
    var t := SweepPendingUn(s, now);
    match Tally(t.pendingUn, v, m)
    case Carried(i) => SweepPendingUn(RemoveGline(t, net, m).(pendingUn := Without(t.pendingUn, i)), now)
    case _ => t.(pendingUn := Cast(t.pendingUn, now, v, m, reason))
  }

  // ----- whole runs

  datatype Side = On | Off

  datatype Action =
    | Vote(side: Side, voter: Voter, mask: Mask, reason: string, hold: int)
    | ExpirePending
    | ExpirePendingUn
    | ExpireGlines
    | Ungline(target: Mask)
    | RehashGlines
    | RehashPglines
    | FlushPendingUn

  /** An action and the value of the clock when it happens. */
  datatype Event = Event(time: int, action: Action)

  function Step(s: State, net: string -> Netmask, e: Event): State {
    match e.action
    case Vote(On, v, m, reason, hold) => VoteOn(s, e.time, v, m, reason, hold)
    case Vote(Off, v, m, reason, _) => VoteOff(s, net, e.time, v, m, reason)
    case ExpirePending => SweepPending(s, e.time)
    case ExpirePendingUn => SweepPendingUn(s, e.time)
    case ExpireGlines => SweepGlines(s, e.time)
    case Ungline(m) => RemoveGline(s, net, m)
    case RehashGlines => s.(glines := [])
    case RehashPglines => s.(pending := [])
    case FlushPendingUn => s.(pendingUn := [])
  }

  /** The state after a run of events. */
  function After(s: State, net: string -> Netmask, run: seq<Event>): State {
    if run == [] then s
    else Step(After(s, net, run[..|run| - 1]), net, run[|run| - 1])
  }
}
