/** The list operations that relink items in place, each proved against its specification on
    the sequence of items. */
module Slist {
  import opened Common
  import opened SlistSpec

  /** A run of linked items whose last link is still open. */
  ghost predicate Built<T(!new)>(head: Item?<T>, last: Item?<T>, s: seq<Item<T>>)
    reads s
  {
    && (if s == [] then head == null && last == null else head == s[0] && last == s[|s| - 1])
    && Linked(s) && Distinct(s)
  }

  lemma NextAt<T(!new)>(head: Item?<T>, s: seq<Item<T>>, i: nat)
    requires IsList(head, s) && i < |s|
    ensures if i + 1 < |s| then s[i].next == s[i + 1] else s[i].next == null
    ensures s[i].next == null <==> i + 1 == |s|
  {
  }

  lemma ConsIsList<T(!new)>(x: Item<T>, s: seq<Item<T>>)
    requires IsList(x.next, s) && x !in s
    ensures IsList(x, [x] + s)
  {
    var t := [x] + s;
    assert forall i :: 1 <= i < |t| ==> t[i] == s[i - 1];
  }

  lemma TailIsList<T(!new)>(head: Item<T>, s: seq<Item<T>>)
    requires IsList(head, s)
    ensures s != [] && s == [head] + s[1..] && IsList(head.next, s[1..]) && head !in s[1..]
  {
  }

  /** insert = insert->next = x */
  method Link<T(!new)>(head: Item?<T>, last: Item?<T>, x: Item<T>, ghost s: seq<Item<T>>) returns (head': Item?<T>)
    requires Built(head, last, s) && x !in s
    modifies if last == null then {} else {last}
    ensures Built(head', x, s + [x])
  {
    if last == null {
      head' := x;
    } else {
      head' := head;
      last.next := x;
    }
    ghost var t := s + [x];
    assert forall i :: 0 <= i < |s| ==> t[i] == s[i];
  }

  /** insert->next = rest */
  method LinkRest<T(!new)>(head: Item?<T>, last: Item?<T>, rest: Item?<T>,
                           ghost s: seq<Item<T>>, ghost t: seq<Item<T>>) returns (head': Item?<T>)
    requires Built(head, last, s) && IsList(rest, t) && Disjoint(s, t)
    modifies if last == null then {} else {last}
    ensures IsList(head', s + t)
  {
    if last == null {
      head' := rest;
      assert s + t == t;
    } else {
      head' := head;
      last.next := rest;
      ghost var u := s + t;
      assert forall i :: 0 <= i < |t| ==> u[|s| + i] == t[i] && t[i] in t;
      assert forall i :: 0 <= i < |s| ==> u[i] == s[i] && s[i] in s;
      JoinedLinks(s, t);
    }
  }

  lemma JoinedLinks<T(!new)>(s: seq<Item<T>>, t: seq<Item<T>>)
    requires s != [] && Linked(s) && Linked(t) && s[|s| - 1].next == if t == [] then null else t[0]
    ensures Linked(s + t)
  {
    var u := s + t;
    forall i | 0 <= i < |u| - 1 ensures u[i].next == u[i + 1] {
      if i >= |s| {
        assert u[i] == t[i - |s|] && u[i + 1] == t[i - |s| + 1];
      }
    }
  }

  lemma MergeStep<T(!new)>(done: seq<Item<T>>, ls: seq<Item<T>>, rs: seq<Item<T>>, compare: Compare<T>)
    requires ls != [] && rs != []
    ensures done + Merge(ls, rs, compare) ==
            if compare(ls[0].data, rs[0].data) <= 0 then (done + [ls[0]]) + Merge(ls[1..], rs, compare)
            else (done + [rs[0]]) + Merge(ls, rs[1..], compare)
  {
    if compare(ls[0].data, rs[0].data) <= 0 {
      Regroup(done, [ls[0]], Merge(ls[1..], rs, compare));
    } else {
      Regroup(done, [rs[0]], Merge(ls, rs[1..], compare));
    }
  }

  /** The merged items so far and the two lists that are left: three separate runs. */
  ghost predicate Merging<T(!new)>(head: Item?<T>, last: Item?<T>, done: seq<Item<T>>,
                                   l: Item?<T>, ls: seq<Item<T>>, r: Item?<T>, rs: seq<Item<T>>)
    reads done, ls, rs
  {
    && Built(head, last, done) && IsList(l, ls) && IsList(r, rs)
    && Disjoint(done, ls) && Disjoint(done, rs) && Disjoint(ls, rs)
  }

  ghost predicate Within<T(!new)>(s: seq<Item<T>>, t: seq<Item<T>>) {
    forall i :: 0 <= i < |s| ==> s[i] in t
  }

  /** Move the head of the list l over to the merged items. */
  method TakeHead<T(!new)>(head: Item?<T>, last: Item?<T>, ghost done: seq<Item<T>>,
                       l: Item<T>, ghost ls: seq<Item<T>>, r: Item?<T>, ghost rs: seq<Item<T>>)
    returns (head': Item?<T>)
    requires Merging(head, last, done, l, ls, r, rs)
    modifies if last == null then {} else {last}
    ensures Merging(head', l, done + [l], l.next, ls[1..], r, rs)
  {
    TailIsList(l, ls);
    assert last != null ==> last in done && last !in ls && last !in rs;
    head' := Link(head, last, l, done);
    assert IsList(l.next, ls[1..]) && IsList(r, rs);
  }

  lemma MergingSwap<T(!new)>(head: Item?<T>, last: Item?<T>, done: seq<Item<T>>,
                             l: Item?<T>, ls: seq<Item<T>>, r: Item?<T>, rs: seq<Item<T>>)
    requires Merging(head, last, done, l, ls, r, rs)
    ensures Merging(head, last, done, r, rs, l, ls)
  {
  }

  /** One round of the merge loop: the smaller head moves over, the left one on a tie. */
  method MergeRound<T(!new)>(head: Item?<T>, last: Item?<T>, l: Item<T>, r: Item<T>, compare: Compare<T>,
                             ghost done: seq<Item<T>>, ghost ls: seq<Item<T>>, ghost rs: seq<Item<T>>)
    returns (head': Item?<T>, last': Item<T>, l': Item?<T>, r': Item?<T>,
             ghost done': seq<Item<T>>, ghost ls': seq<Item<T>>, ghost rs': seq<Item<T>>)
    requires Merging(head, last, done, l, ls, r, rs)
    modifies if last == null then {} else {last}
    ensures Merging(head', last', done', l', ls', r', rs')
    ensures done' + Merge(ls', rs', compare) == done + Merge(ls, rs, compare)
    ensures Within(ls', ls) && Within(rs', rs) && |ls'| + |rs'| < |ls| + |rs|
    ensures last' in ls || last' in rs
  {
    MergeStep(done, ls, rs, compare);
    if compare(l.data, r.data) <= 0 {
      head' := TakeHead(head, last, done, l, ls, r, rs);
      last', l', r', done', ls', rs' := l, l.next, r, done + [l], ls[1..], rs;
    } else {
      MergingSwap(head, last, done, l, ls, r, rs);
      head' := TakeHead(head, last, done, r, rs, l, ls);
      last', l', r', done', ls', rs' := r, l, r.next, done + [r], ls, rs[1..];
      MergingSwap(head', last', done', r', rs', l', ls');
    }
  }

  /** slist_sort_merge */
  method SortMerge<T(!new)>(left: Item?<T>, right: Item?<T>, compare: Compare<T>,
                            ghost ls: seq<Item<T>>, ghost rs: seq<Item<T>>) returns (merged: Item?<T>)
    requires IsList(left, ls) && IsList(right, rs) && Disjoint(ls, rs)
    modifies ls, rs
    ensures IsList(merged, Merge(ls, rs, compare))
  {
    var l, r, insert: Item?<T> := left, right, null;
    merged := null;
    ghost var done: seq<Item<T>>, ls', rs' := [], ls, rs;
    while l != null && r != null
      invariant Merging(merged, insert, done, l, ls', r, rs')
      invariant done + Merge(ls', rs', compare) == Merge(ls, rs, compare)
      invariant insert != null ==> insert in ls || insert in rs
      invariant Within(ls', ls) && Within(rs', rs)
      decreases |ls'| + |rs'|
    {
      merged, insert, l, r, done, ls', rs' := MergeRound(merged, insert, l, r, compare, done, ls', rs');
    }
    merged := LinkLast(merged, insert, l, r, compare, done, ls', rs');
  }

  /** insert->next = left ? left : right, once one of them is exhausted */
  method LinkLast<T(!new)>(head: Item?<T>, last: Item?<T>, l: Item?<T>, r: Item?<T>, compare: Compare<T>,
                           ghost done: seq<Item<T>>, ghost ls: seq<Item<T>>, ghost rs: seq<Item<T>>)
    returns (head': Item?<T>)
    requires Merging(head, last, done, l, ls, r, rs) && (l == null || r == null)
    modifies if last == null then {} else {last}
    ensures IsList(head', done + Merge(ls, rs, compare))
  {
    if l != null {
      head' := LinkRest(head, last, l, done, ls);
    } else {
      head' := LinkRest(head, last, r, done, rs);
    }
  }

  /** slist_sort's two-speed walk: one pointer advances by two items while the other advances by
      one; the list is cut where the slow one stands when the fast one falls off the end. */
  method Halve<T(!new)>(head: Item<T>, ghost s: seq<Item<T>>) returns (right: Item?<T>)
    requires IsList(head, s) && |s| >= 2
    modifies s
    ensures IsList(head, s[..|s| / 2]) && IsList(right, s[|s| / 2..])
    ensures 0 < |s| / 2 < |s|
  {
    var slow := head;
    right := head.next;
    ghost var j := 0;
    NextAt(head, s, 0);
    while true
      invariant 0 <= j && 1 + 2 * j < |s| && slow == s[j] && right == s[1 + 2 * j]
      invariant IsList(head, s)
      decreases |s| - j
    {
      NextAt(head, s, 1 + 2 * j);
      NextAt(head, s, j);
      right := right.next;
      if right == null { break; }
      NextAt(head, s, 2 + 2 * j);
      right := right.next;
      if right == null { break; }
      slow := slow.next;
      j := j + 1;
    }
    assert j + 1 == |s| / 2;
    right := CutAfter(head, slow, s, j);
  }

  /** right = slow->next; slow->next = 0 */
  method CutAfter<T(!new)>(ghost head: Item<T>, slow: Item<T>, ghost s: seq<Item<T>>, ghost j: nat)
    returns (right: Item?<T>)
    requires IsList(head, s) && j < |s| && slow == s[j]
    modifies slow
    ensures IsList(head, s[..j + 1]) && IsList(right, s[j + 1..])
  {
    NextAt(head, s, j);
    right := slow.next;
    assert IsList(right, s[j + 1..]);
    slow.next := null;
    assert forall i :: 0 <= i < |s| && i != j ==> s[i] != slow;
  }

  lemma SortedApart<T(!new)>(a: seq<Item<T>>, b: seq<Item<T>>, compare: Compare<T>)
    requires Disjoint(a, b)
    ensures Disjoint(Sort(a, compare), b) && Disjoint(Sort(a, compare), Sort(b, compare))
    ensures Within(Sort(a, compare), a) && Within(Sort(b, compare), b)
  {
    SortPermutes(a, compare);
    SortPermutes(b, compare);
    SameItems(Sort(a, compare), a);
    SameItems(Sort(b, compare), b);
  }

  lemma HalvesApart<T(!new)>(s: seq<Item<T>>, h: nat)
    requires Distinct(s) && h <= |s|
    ensures Disjoint(s[..h], s[h..]) && Within(s[..h], s) && Within(s[h..], s)
  {
  }

  /** slist_sort */
  method SortList<T(!new)>(slist: Item?<T>, compare: Compare<T>, ghost s: seq<Item<T>>) returns (sorted: Item?<T>)
    requires IsList(slist, s)
    modifies s
    ensures IsList(sorted, Sort(s, compare))
    decreases |s|, 1
  {
    if slist == null {
      return slist;
    }
    NextAt(slist, s, 0);
    if slist.next == null {
      return slist;
    }
    var right := Halve(slist, s);
    ghost var a, b := s[..|s| / 2], s[|s| / 2..];
    HalvesApart(s, |s| / 2);
    var l, r := SortHalves(slist, right, compare, a, b);
    SortedApart(a, b, compare);
    WithinTrans(Sort(a, compare), a, s);
    WithinTrans(Sort(b, compare), b, s);
    sorted := SortMerge(l, r, compare, Sort(a, compare), Sort(b, compare));
  }

  lemma WithinTrans<T(!new)>(a: seq<Item<T>>, b: seq<Item<T>>, c: seq<Item<T>>)
    requires Within(a, b) && Within(b, c)
    ensures Within(a, c)
  {
  }

  /** Sort both halves: neither touches the items of the other. */
  method SortHalves<T(!new)>(left: Item?<T>, right: Item?<T>, compare: Compare<T>,
                             ghost a: seq<Item<T>>, ghost b: seq<Item<T>>) returns (l: Item?<T>, r: Item?<T>)
    requires IsList(left, a) && IsList(right, b) && Disjoint(a, b) && a != [] && b != []
    modifies a, b
    ensures IsList(l, Sort(a, compare)) && IsList(r, Sort(b, compare))
    decreases |a| + |b|, 0
  {
    SortedApart(a, b, compare);
    l := SortList(left, compare, a);
    assert IsList(right, b);
    r := SortList(right, compare, b);
  }

  /** The list slist_sort returns, for any total preorder: the same items, in order, ties kept. */
  method SortedList<T(!new)>(slist: Item?<T>, compare: Compare<T>, ghost s: seq<Item<T>>)
    returns (sorted: Item?<T>, ghost t: seq<Item<T>>)
    requires IsList(slist, s) && TotalPreorder(compare)
    modifies s
    ensures IsList(sorted, t) && multiset(t) == multiset(s) && Sorted(t, compare)
    ensures forall x :: Tied(t, x, compare) == Tied(s, x, compare)
  {
    sorted := SortList(slist, compare, s);
    t := Sort(s, compare);
    SortPermutes(s, compare);
    SortSorts(s, compare);
    forall x ensures Tied(t, x, compare) == Tied(s, x, compare) {
      SortStable(s, x, compare);
    }
  }

  // ----- the other destructive operations

  ghost function Reversed<T(!new)>(s: seq<Item<T>>): (r: seq<Item<T>>)
    ensures |r| == |s| && forall i :: 0 <= i < |s| ==> r[i] == s[|s| - 1 - i]
  {
    seq(|s|, i requires 0 <= i < |s| => s[|s| - 1 - i])
  }

  lemma ReversedTail<T(!new)>(s: seq<Item<T>>)
    requires s != []
    ensures Reversed(s) == Reversed(s[1..]) + [s[0]]
  {
  }

  /** slist->next = result: the head of what is left becomes the head of what is done. */
  method TurnAround<T(!new)>(cur: Item<T>, result: Item?<T>, ghost done: seq<Item<T>>, ghost rest: seq<Item<T>>)
    requires IsList(result, done) && IsList(cur, rest) && Disjoint(done, rest)
    modifies cur
    ensures IsList(cur, [cur] + done) && IsList(old(cur.next), rest[1..]) && Disjoint([cur] + done, rest[1..])
  {
    TailIsList(cur, rest);
    ghost var next := cur.next;
    assert cur in rest;
    assert cur !in done;
    cur.next := result;
    assert IsList(cur.next, done) && IsList(next, rest[1..]);
    ConsIsList(cur, done);
  }

  /** slist_reverse */
  method Reverse<T(!new)>(slist: Item?<T>, ghost s: seq<Item<T>>) returns (result: Item?<T>)
    requires IsList(slist, s)
    modifies s
    ensures IsList(result, Reversed(s))
  {
    result := null;
    var cur := slist;
    ghost var done: seq<Item<T>>, rest := [], s;
    while cur != null
      invariant IsList(result, done) && IsList(cur, rest) && Disjoint(done, rest) && Within(rest, s)
      invariant Reversed(rest) + done == Reversed(s)
      decreases |rest|
    {
      ReversedTail(rest);
      var next := cur.next;
      TurnAround(cur, result, done, rest);
      result := cur;
      cur := next;
      done, rest := [rest[0]] + done, rest[1..];
    }
  }

  /** slist_concat */
  method Concat<T(!new)>(head: Item?<T>, tail: Item?<T>, ghost s: seq<Item<T>>, ghost t: seq<Item<T>>)
    returns (whole: Item?<T>)
    requires IsList(head, s) && IsList(tail, t) && Disjoint(s, t)
    modifies s
    ensures IsList(whole, s + t)
  {
    if head == null {
      assert s + t == t;
      return tail;
    }
    var last := head;
    ghost var n := 0;
    while last.next != null
      invariant 0 <= n < |s| && last == s[n] && IsList(head, s)
      decreases |s| - n
    {
      NextAt(head, s, n);
      last := last.next;
      n := n + 1;
    }
    NextAt(head, s, n);
    whole := LinkRest(head, last, tail, s, t);
  }

  ghost function FirstMatch<T(!new), R(!new)>(s: seq<Item<T>>, find: Item<T> -> Option<R>): (i: nat)
    ensures i <= |s| && (i < |s| ==> find(s[i]).Some?) && forall k :: 0 <= k < i ==> find(s[k]).None?
  {
    if s == [] || find(s[0]).Some? then 0 else 1 + FirstMatch(s[1..], find)
  }

  /** slist_remove: unlink the first item that matches, if any, and return what find made of it. */
  method RemoveMatch<T(!new), R(!new)>(phead: Item?<T>, find: Item<T> -> Option<R>, ghost s: seq<Item<T>>)
    returns (head: Item?<T>, result: Option<R>)
    requires IsList(phead, s)
    modifies s
    ensures var i := FirstMatch(s, find);
            if i == |s| then result.None? && IsList(head, s)
            else result == find(s[i]) && IsList(head, s[..i] + s[i + 1..])
  {
    head, result := phead, None;
    if phead == null {
      return;
    }
    result := find(phead);
    if result.Some? {
      TailIsList(phead, s);
      FirstMatchAt(s, find, 0);
      assert s[..0] + s[1..] == s[1..];
      head := phead.next;
      return;
    }
    FirstMatchAfterHead(s, find);
    result := RemoveAfterHead(phead, find, s);
  }

  lemma FirstMatchAfterHead<T(!new), R(!new)>(s: seq<Item<T>>, find: Item<T> -> Option<R>)
    requires s != [] && find(s[0]).None?
    ensures FirstMatch(s, find) > 0
  {
  }

  /** The loop of slist_remove, once the head is known not to match */
  method RemoveAfterHead<T(!new), R(!new)>(phead: Item<T>, find: Item<T> -> Option<R>, ghost s: seq<Item<T>>)
    returns (result: Option<R>)
    requires IsList(phead, s) && find(phead).None?
    modifies s
    ensures var i := FirstMatch(s, find);
            if i == |s| then result.None? && IsList(phead, s)
            else result == find(s[i]) && IsList(phead, s[..i] + s[i + 1..])
  {
    result := None;
    var cur := phead;
    ghost var n := 0;
    while cur.next != null
      invariant 0 <= n < |s| && cur == s[n] && IsList(phead, s) && result.None?
      invariant forall k :: 0 <= k <= n ==> find(s[k]).None?
      decreases |s| - n
    {
      NextAt(phead, s, n);
      result := find(cur.next);
      if result.Some? {
        FirstMatchAt(s, find, n + 1);
        UnlinkNext(phead, cur, s, n);
        return;
      }
      cur := cur.next;
      n := n + 1;
    }
    NextAt(phead, s, n);
    FirstMatchAt(s, find, |s|);
  }

  method UnlinkNext<T(!new)>(ghost phead: Item<T>, cur: Item<T>, ghost s: seq<Item<T>>, ghost n: nat)
    requires IsList(phead, s) && n + 1 < |s| && cur == s[n]
    modifies cur
    ensures IsList(phead, s[..n + 1] + s[n + 2..])
  {
    NextAt(phead, s, n);
    NextAt(phead, s, n + 1);
    var stale := cur.next;
    cur.next := stale.next;
    Spliced(phead, s, n + 1);
  }

  lemma {:induction false} FirstMatchAt<T(!new), R(!new)>(s: seq<Item<T>>, find: Item<T> -> Option<R>, i: nat)
    requires i <= |s| && (i < |s| ==> find(s[i]).Some?) && forall k :: 0 <= k < i ==> find(s[k]).None?
    ensures FirstMatch(s, find) == i
    decreases i
  {
    if i > 0 {
      FirstMatchAt(s[1..], find, i - 1);
    }
  }

  lemma Spliced<T(!new)>(head: Item<T>, s: seq<Item<T>>, i: nat)
    requires 0 < i < |s| && head == s[0] && Distinct(s)
    requires forall k :: 0 <= k < |s| - 1 && k != i - 1 ==> s[k].next == s[k + 1]
    requires s[|s| - 1].next == null || i == |s| - 1
    requires s[i - 1].next == if i + 1 < |s| then s[i + 1] else null
    ensures IsList(head, s[..i] + s[i + 1..])
  {
    var t := s[..i] + s[i + 1..];
    assert forall k :: 0 <= k < |t| ==> t[k] == s[if k < i then k else k + 1];
  }
}
