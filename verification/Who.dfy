/** The global WHO: a marking pass over the requester's channels, then a pass over all clients
    that reports the visible ones and clears the marks. */
module Who {
  import opened Common

  const MAX_MATCHES: nat := 500

  class Client {
    const registered: bool
    const invisible: bool
    const oper: bool
    var marked: bool

    constructor (registered: bool, invisible: bool, oper: bool)
      ensures this.registered == registered && this.invisible == invisible && this.oper == oper && !marked
    {
      this.registered, this.invisible, this.oper, marked := registered, invisible, oper, false;
    }
  }

  /** A channel's member lists, plain members to operators. */
  type Channel = seq<seq<Client>>

  ghost predicate Distinct(s: seq<Client>) {
    forall i, j :: 0 <= i < j < |s| ==> s[i] != s[j]
  }

  function Members(ch: Channel): seq<Client> {
    if ch == [] then [] else ch[0] + Members(ch[1..])
  }

  function AllMembers(chs: seq<Channel>): seq<Client> {
    if chs == [] then [] else Members(chs[0]) + AllMembers(chs[1..])
  }

  // ----- what is to be reported

  /** The query: does the mask match, and are only operators asked for. */
  datatype Query = Query(hits: Client -> bool, opersOnly: bool)

  predicate Wanted(q: Query, c: Client) {
    (q.opersOnly ==> c.oper) && q.hits(c)
  }

  /** Invisible clients to report from a list of members: each once, in order of appearance. */
  ghost function Hidden(xs: seq<Client>, q: Query): seq<Client> {
    if xs == [] then []
    else
      var past, c := xs[..|xs| - 1], xs[|xs| - 1];
      Hidden(past, q) + if c.invisible && Wanted(q, c) && c !in past then [c] else []
  }

  /** Clients to report from the global list. */
  ghost function Shown(xs: seq<Client>, q: Query, operspy: bool): seq<Client> {
    if xs == [] then []
    else
      var past, c := xs[..|xs| - 1], xs[|xs| - 1];
      Shown(past, q, operspy) + if c.registered && (operspy || !c.invisible) && Wanted(q, c) then [c] else []
  }

  ghost function Expected(chs: seq<Channel>, all: seq<Client>, q: Query, operspy: bool): seq<Client> {
    if operspy then Shown(all, q, true) else Hidden(AllMembers(chs), q) + Shown(all, q, false)
  }

  /** What is left of a report when it is cut at the limit. */
  ghost function FirstMatches(s: seq<Client>): seq<Client> {
    Take(s, MAX_MATCHES)
  }

  lemma {:induction false} HiddenExact(xs: seq<Client>, q: Query)
    ensures Distinct(Hidden(xs, q))
    ensures forall i :: 0 <= i < |Hidden(xs, q)| ==> Hidden(xs, q)[i].invisible && Hidden(xs, q)[i] in xs
    ensures forall c :: c in Hidden(xs, q) <==> c in xs && c.invisible && Wanted(q, c)
  {
    if xs != [] {
      HiddenExact(xs[..|xs| - 1], q);
      assert xs == xs[..|xs| - 1] + [xs[|xs| - 1]];
    }
  }

  lemma {:induction false} ShownExact(xs: seq<Client>, q: Query, operspy: bool)
    requires Distinct(xs)
    ensures Distinct(Shown(xs, q, operspy))
    ensures forall i :: 0 <= i < |Shown(xs, q, operspy)| ==>
              Shown(xs, q, operspy)[i] in xs && (operspy || !Shown(xs, q, operspy)[i].invisible)
    ensures forall c :: c in Shown(xs, q, operspy) <==>
              c in xs && c.registered && (operspy || !c.invisible) && Wanted(q, c)
  {
    if xs != [] {
      ShownExact(xs[..|xs| - 1], q, operspy);
      assert xs == xs[..|xs| - 1] + [xs[|xs| - 1]];
    }
  }

  /** A client is listed in one of the channels. */
  ghost predicate InChannel(chs: seq<Channel>, c: Client, i: int, j: int) {
    0 <= i < |chs| && 0 <= j < |chs[i]| && c in chs[i][j]
  }

  lemma {:induction false} MembersExactly(ch: Channel, c: Client)
    ensures c in Members(ch) <==> exists j :: 0 <= j < |ch| && c in ch[j]
  {
    if ch != [] {
      MembersExactly(ch[1..], c);
      if j :| 0 <= j < |ch| && c in ch[j] {
        assert j > 0 ==> c in ch[1..][j - 1];
      }
      if j :| 0 <= j < |ch| - 1 && c in ch[1..][j] {
        assert c in ch[j + 1];
      }
    }
  }

  lemma {:induction false} AllMembersExactly(chs: seq<Channel>, c: Client)
    ensures c in AllMembers(chs) <==> exists i, j :: InChannel(chs, c, i, j)
  {
    if chs != [] {
      AllMembersExactly(chs[1..], c);
      MembersExactly(chs[0], c);
      if i, j :| InChannel(chs, c, i, j) {
        assert i > 0 ==> InChannel(chs[1..], c, i - 1, j);
      }
      if i, j :| InChannel(chs[1..], c, i, j) {
        assert InChannel(chs, c, i + 1, j);
      }
      if j :| 0 <= j < |chs[0]| && c in chs[0][j] {
        assert InChannel(chs, c, 0, j);
      }
    }
  }

  /** The expected report names nobody twice, and names exactly the matching visible clients and
      the matching invisible clients that share a channel with the requester. */
  lemma ExpectedExact(chs: seq<Channel>, all: seq<Client>, q: Query, operspy: bool)
    requires Distinct(all)
    ensures Distinct(Expected(chs, all, q, operspy))
    ensures forall c :: c in Expected(chs, all, q, operspy) <==>
              && (q.opersOnly ==> c.oper) && q.hits(c)
              && if operspy then c in all && c.registered
                 else (c in all && c.registered && !c.invisible) ||
                      (c.invisible && exists i, j :: InChannel(chs, c, i, j))
  {
    forall c ensures c in AllMembers(chs) <==> exists i, j :: InChannel(chs, c, i, j) {
      AllMembersExactly(chs, c);
    }
    HiddenExact(AllMembers(chs), q);
    ShownExact(all, q, operspy);
  }

  // ----- the two passes

  ghost predicate MarkedBy(all: seq<Client>, seen: seq<Client>, q: Query)
    reads all
  {
    forall i :: 0 <= i < |all| ==>
      (all[i].marked <==> all[i] in seen && all[i].invisible && (q.opersOnly ==> all[i].oper))
  }

  ghost predicate Within(xs: seq<Client>, all: seq<Client>) {
    forall i :: 0 <= i < |xs| ==> xs[i] in all
  }

  lemma MoreMatches(s: seq<Client>, c: Client)
    ensures FirstMatches(s + [c]) == if |FirstMatches(s)| < MAX_MATCHES then FirstMatches(s) + [c] else FirstMatches(s)
  {
  }

  lemma HiddenSnoc(xs: seq<Client>, c: Client, q: Query)
    ensures Hidden(xs + [c], q) == Hidden(xs, q) + if c.invisible && Wanted(q, c) && c !in xs then [c] else []
  {
    assert (xs + [c])[..|xs + [c]| - 1] == xs;
  }

  /** One member of a channel: skip, or mark and report. */
  method VisitMember(c: Client, q: Query, report: seq<Client>, ghost seen: seq<Client>, ghost all: seq<Client>)
    returns (report': seq<Client>)
    requires c in all && MarkedBy(all, seen, q) && report == FirstMatches(Hidden(seen, q))
    modifies c
    ensures MarkedBy(all, seen + [c], q) && report' == FirstMatches(Hidden(seen + [c], q))
  {
    HiddenSnoc(seen, c, q);
    MoreMatches(Hidden(seen, q), c);
    report' := report;
    if !c.invisible || c.marked {
      return;
    }
    if q.opersOnly && !c.oper {
      return;
    }
    c.marked := true;
    if |report| < MAX_MATCHES {
      if q.hits(c) {
        report' := report + [c];
      }
    }
  }

  lemma MembersSplit(ch: Channel, i: nat)
    requires i < |ch|
    ensures Members(ch[..i + 1]) == Members(ch[..i]) + ch[i]
  {
    assert ch[..i + 1] == ch[..i] + [ch[i]];
    MembersConcat(ch[..i], [ch[i]]);
    var one := [ch[i]];
    assert one[1..] == [];
  }

  lemma {:induction false} MembersConcat(a: Channel, b: Channel)
    ensures Members(a + b) == Members(a) + Members(b)
  {
    if a == [] {
      assert a + b == b;
    } else {
      MembersConcat(a[1..], b);
      assert (a + b)[0] == a[0] && (a + b)[1..] == a[1..] + b;
      Regroup(a[0], Members(a[1..]), Members(b));
    }
  }

  lemma {:induction false} AllMembersSplit(chs: seq<Channel>, i: nat)
    requires i < |chs|
    ensures AllMembers(chs[..i + 1]) == AllMembers(chs[..i]) + Members(chs[i])
  {
    if i == 0 {
      var one := [chs[0]];
      assert chs[..1] == one && chs[..0] == [] && one[1..] == [];
    } else {
      AllMembersSplit(chs[1..], i - 1);
      Regroup(Members(chs[0]), AllMembers(chs[1..][..i - 1]), Members(chs[i]));
      assert chs[..i + 1][1..] == chs[1..][..i] && chs[..i][1..] == chs[1..][..i - 1];
    }
  }

  lemma {:induction false} MembersWithin(ch: Channel, i: nat, all: seq<Client>)
    requires i < |ch| && Within(Members(ch), all)
    ensures Within(ch[i], all)
  {
    var m, rest := Members(ch), Members(ch[1..]);
    if i == 0 {
      assert forall k :: 0 <= k < |ch[0]| ==> ch[0][k] == m[k];
    } else {
      assert forall k :: 0 <= k < |rest| ==> rest[k] == m[|ch[0]| + k];
      MembersWithin(ch[1..], i - 1, all);
    }
  }

  lemma SeenMore(seen: seq<Client>, ch: Channel, i: nat)
    requires i < |ch|
    ensures seen + Members(ch[..i + 1]) == seen + Members(ch[..i]) + ch[i]
  {
    MembersSplit(ch, i);
    assert seen + (Members(ch[..i]) + ch[i]) == seen + Members(ch[..i]) + ch[i];
  }

  /** who_common_channel */
  method WhoCommonChannel(ch: Channel, q: Query, report: seq<Client>, ghost seen: seq<Client>, ghost all: seq<Client>)
    returns (report': seq<Client>)
    requires Within(Members(ch), all) && MarkedBy(all, seen, q) && report == FirstMatches(Hidden(seen, q))
    modifies all
    ensures MarkedBy(all, seen + Members(ch), q) && report' == FirstMatches(Hidden(seen + Members(ch), q))
  {
    report' := report;
    assert seen + Members(ch[..0]) == seen;
    for i := 0 to |ch|
      invariant MarkedBy(all, seen + Members(ch[..i]), q)
      invariant report' == FirstMatches(Hidden(seen + Members(ch[..i]), q))
    {
      MembersWithin(ch, i, all);
      ghost var before := seen + Members(ch[..i]);
      report' := WhoMembers(ch[i], q, report', before, all);
      SeenMore(seen, ch, i);
    }
    assert ch[..|ch|] == ch;
  }

  /** The inner loop of who_common_channel */
  method WhoMembers(xs: seq<Client>, q: Query, report: seq<Client>, ghost seen: seq<Client>, ghost all: seq<Client>)
    returns (report': seq<Client>)
    requires Within(xs, all) && MarkedBy(all, seen, q) && report == FirstMatches(Hidden(seen, q))
    modifies all
    ensures MarkedBy(all, seen + xs, q) && report' == FirstMatches(Hidden(seen + xs, q))
  {
    report' := report;
    assert seen + xs[..0] == seen;
    for i := 0 to |xs|
      invariant MarkedBy(all, seen + xs[..i], q) && report' == FirstMatches(Hidden(seen + xs[..i], q))
    {
      assert xs[i] in all;
      report' := VisitMember(xs[i], q, report', seen + xs[..i], all);
      assert seen + xs[..i] + [xs[i]] == seen + xs[..i + 1];
    }
    assert xs[..|xs|] == xs;
  }

  lemma ShownSnoc(xs: seq<Client>, c: Client, q: Query, operspy: bool)
    ensures Shown(xs + [c], q, operspy) ==
            Shown(xs, q, operspy) + if c.registered && (operspy || !c.invisible) && Wanted(q, c) then [c] else []
  {
    assert (xs + [c])[..|xs + [c]| - 1] == xs;
  }

  /** The second loop of who_global: report what is visible, clear the marks. */
  method SecondPass(all: seq<Client>, q: Query, operspy: bool, report: seq<Client>, ghost first: seq<Client>)
    returns (report': seq<Client>)
    requires Distinct(all) && report == FirstMatches(first)
    requires forall i :: 0 <= i < |all| && all[i].marked ==> all[i].registered && all[i].invisible && !operspy
    modifies all
    ensures forall i :: 0 <= i < |all| ==> !all[i].marked
    ensures report' == FirstMatches(first + Shown(all, q, operspy))
  {
    report' := report;
    assert first + Shown(all[..0], q, operspy) == first;
    for i := 0 to |all|
      invariant forall k :: 0 <= k < i ==> !all[k].marked
      invariant forall k :: i <= k < |all| && all[k].marked ==> all[k].registered && all[k].invisible && !operspy
      invariant report' == FirstMatches(first + Shown(all[..i], q, operspy))
    {
      report' := VisitClient(all[i], q, operspy, report', first, all[..i]);
      assert all[..i + 1] == all[..i] + [all[i]];
    }
    assert all[..|all|] == all;
  }

  method VisitClient(c: Client, q: Query, operspy: bool, report: seq<Client>,
                     ghost first: seq<Client>, ghost past: seq<Client>)
    returns (report': seq<Client>)
    requires report == FirstMatches(first + Shown(past, q, operspy))
    requires c.marked ==> c.registered && c.invisible && !operspy
    modifies c
    ensures !c.marked && report' == FirstMatches(first + Shown(past + [c], q, operspy))
  {
    ShownSnoc(past, c, q, operspy);
    MoreMatches(first + Shown(past, q, operspy), c);
    assert first + (Shown(past, q, operspy) + [c]) == first + Shown(past, q, operspy) + [c];
    assert first + (Shown(past, q, operspy) + []) == first + Shown(past, q, operspy);
    report' := report;
    if !c.registered {
      return;
    }
    if c.invisible && !operspy {
      c.marked := false;
      return;
    }
    if q.opersOnly && !c.oper {
      return;
    }
    if |report| < MAX_MATCHES {
      if q.hits(c) {
        report' := report + [c];
      }
    }
  }

  /** who_global: the first 500 clients of the expected report, each once, and no mark left. */
  method WhoGlobal(chs: seq<Channel>, all: seq<Client>, q: Query, operspy: bool) returns (report: seq<Client>)
    requires Distinct(all) && forall i :: 0 <= i < |all| ==> !all[i].marked
    requires Within(AllMembers(chs), all) && forall i :: 0 <= i < |AllMembers(chs)| ==> AllMembers(chs)[i].registered
    modifies all
    ensures forall i :: 0 <= i < |all| ==> !all[i].marked
    ensures report == FirstMatches(Expected(chs, all, q, operspy))
    ensures Distinct(report) && report <= Expected(chs, all, q, operspy)
    ensures |report| == if |Expected(chs, all, q, operspy)| <= 500 then |Expected(chs, all, q, operspy)| else 500
  {
    report := [];
    ghost var first: seq<Client> := [];
    if !operspy {
      report := FirstPass(chs, q, all);
      first := Hidden(AllMembers(chs), q);
    }
    report := SecondPass(all, q, operspy, report, first);
    assert first + Shown(all, q, operspy) == Expected(chs, all, q, operspy);
    ExpectedExact(chs, all, q, operspy);
  }

  /** The first loop of who_global */
  method FirstPass(chs: seq<Channel>, q: Query, ghost all: seq<Client>) returns (report: seq<Client>)
    requires Within(AllMembers(chs), all) && forall i :: 0 <= i < |all| ==> !all[i].marked
    modifies all
    ensures MarkedBy(all, AllMembers(chs), q) && report == FirstMatches(Hidden(AllMembers(chs), q))
  {
    report := [];
    assert AllMembers(chs[..0]) == [];
    for i := 0 to |chs|
      invariant MarkedBy(all, AllMembers(chs[..i]), q) && report == FirstMatches(Hidden(AllMembers(chs[..i]), q))
    {
      ChannelWithin(chs, i, all);
      report := WhoCommonChannel(chs[i], q, report, AllMembers(chs[..i]), all);
      AllMembersSplit(chs, i);
    }
    assert chs[..|chs|] == chs;
  }

  lemma {:induction false} ChannelWithin(chs: seq<Channel>, i: nat, all: seq<Client>)
    requires i < |chs| && Within(AllMembers(chs), all)
    ensures Within(Members(chs[i]), all)
  {
    var m := AllMembers(chs);
    if i == 0 {
      assert forall k :: 0 <= k < |Members(chs[0])| ==> Members(chs[0])[k] == m[k];
    } else {
      var rest := AllMembers(chs[1..]);
      assert forall k :: 0 <= k < |rest| ==> rest[k] == m[|Members(chs[0])| + k];
      ChannelWithin(chs[1..], i - 1, all);
    }
  }
}
