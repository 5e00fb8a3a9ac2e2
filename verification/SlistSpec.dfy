/** Singly linked lists and the pure specification of their merge sort. */
module SlistSpec {
  import opened Common

  class Item<T> {
    const data: T
    var next: Item?<T>

    constructor (data: T)
      ensures this.data == data && next == null
    {
      this.data := data;
      next := null;
    }
  }

  /** Following next from head visits exactly the items of s, in order, and stops. */
  ghost predicate IsList<T(!new)>(head: Item?<T>, s: seq<Item<T>>)
    reads s
  {
    && (if s == [] then head == null else head == s[0] && s[|s| - 1].next == null)
    && Linked(s) && Distinct(s)
  }

  ghost predicate Linked<T(!new)>(s: seq<Item<T>>)
    reads s
  {
    forall i :: 0 <= i < |s| - 1 ==> s[i].next == s[i + 1]
  }

  ghost predicate Distinct<T(!new)>(s: seq<Item<T>>) {
    forall i, j :: 0 <= i < j < |s| ==> s[i] != s[j]
  }

  ghost predicate Disjoint<T(!new)>(a: seq<Item<T>>, b: seq<Item<T>>) {
    forall i :: 0 <= i < |a| ==> a[i] !in b
  }

  type Compare<!T> = (T, T) -> int

  function Merge<T(!new)>(ls: seq<Item<T>>, rs: seq<Item<T>>, compare: Compare<T>): seq<Item<T>> {
    if ls == [] then rs
    else if rs == [] then ls
    else if compare(ls[0].data, rs[0].data) <= 0 then [ls[0]] + Merge(ls[1..], rs, compare)
    else [rs[0]] + Merge(ls, rs[1..], compare)
  }

  /** The halves the two-speed walk makes of a list: the first takes the smaller share. */
  function Sort<T(!new)>(s: seq<Item<T>>, compare: Compare<T>): seq<Item<T>>
    decreases |s|
  {
    if |s| < 2 then s
    else Merge(Sort(s[..|s| / 2], compare), Sort(s[|s| / 2..], compare), compare)
  }

  // ----- the same items

  lemma {:induction false} MergePermutes<T(!new)>(ls: seq<Item<T>>, rs: seq<Item<T>>, compare: Compare<T>)
    ensures multiset(Merge(ls, rs, compare)) == multiset(ls) + multiset(rs)
  {
    if ls != [] && rs != [] {
      assert ls == [ls[0]] + ls[1..] && rs == [rs[0]] + rs[1..];
      if compare(ls[0].data, rs[0].data) <= 0 {
        MergePermutes(ls[1..], rs, compare);
      } else {
        MergePermutes(ls, rs[1..], compare);
      }
    }
  }

  /** Sorting neither loses, adds nor repeats an item. */
  lemma {:induction false} SortPermutes<T(!new)>(s: seq<Item<T>>, compare: Compare<T>)
    ensures multiset(Sort(s, compare)) == multiset(s)
    decreases |s|
  {
    if |s| >= 2 {
      var a, b := s[..|s| / 2], s[|s| / 2..];
      assert s == a + b;
      assert multiset(s) == multiset(a) + multiset(b);
      SortPermutes(a, compare);
      SortPermutes(b, compare);
      MergePermutes(Sort(a, compare), Sort(b, compare), compare);
    }
  }

  lemma SameItems<T(!new)>(s: seq<Item<T>>, t: seq<Item<T>>)
    requires multiset(s) == multiset(t)
    ensures |s| == |t| && forall i :: 0 <= i < |s| ==> s[i] in t
  {
    assert |multiset(s)| == |multiset(t)|;
    forall i | 0 <= i < |s| ensures s[i] in t {
      assert s[i] in multiset(s);
    }
  }

  // ----- in order

  ghost predicate TotalPreorder<T(!new)>(compare: Compare<T>) {
    && (forall a, b :: compare(a, b) <= 0 || compare(b, a) <= 0)
    && (forall a, b, c :: compare(a, b) <= 0 && compare(b, c) <= 0 ==> compare(a, c) <= 0)
  }

  ghost predicate Below<T(!new)>(x: Item<T>, s: seq<Item<T>>, compare: Compare<T>) {
    forall y :: y in s ==> compare(x.data, y.data) <= 0
  }

  ghost predicate Sorted<T(!new)>(s: seq<Item<T>>, compare: Compare<T>) {
    s == [] || (Below(s[0], s[1..], compare) && Sorted(s[1..], compare))
  }

  lemma BelowMerge<T(!new)>(x: Item<T>, ls: seq<Item<T>>, rs: seq<Item<T>>, compare: Compare<T>)
    requires Below(x, ls, compare) && Below(x, rs, compare)
    ensures Below(x, Merge(ls, rs, compare), compare)
  {
    MergePermutes(ls, rs, compare);
    forall y | y in Merge(ls, rs, compare) ensures compare(x.data, y.data) <= 0 {
      assert y in multiset(Merge(ls, rs, compare));
    }
  }

  lemma BelowHead<T(!new)>(x: Item<T>, s: seq<Item<T>>, compare: Compare<T>)
    requires TotalPreorder(compare) && s != [] && Sorted(s, compare) && compare(x.data, s[0].data) <= 0
    ensures Below(x, s, compare)
  {
  }

  lemma {:induction false} MergeSorts<T(!new)>(ls: seq<Item<T>>, rs: seq<Item<T>>, compare: Compare<T>)
    requires TotalPreorder(compare) && Sorted(ls, compare) && Sorted(rs, compare)
    ensures Sorted(Merge(ls, rs, compare), compare)
  {
    if ls != [] && rs != [] {
      if compare(ls[0].data, rs[0].data) <= 0 {
        MergeSorts(ls[1..], rs, compare);
        BelowHead(ls[0], rs, compare);
        BelowMerge(ls[0], ls[1..], rs, compare);
        assert Merge(ls, rs, compare)[1..] == Merge(ls[1..], rs, compare);
      } else {
        MergeSorts(ls, rs[1..], compare);
        BelowHead(rs[0], ls, compare);
        BelowMerge(rs[0], ls, rs[1..], compare);
        assert Merge(ls, rs, compare)[1..] == Merge(ls, rs[1..], compare);
      }
    }
  }

  lemma {:induction false} SortSorts<T(!new)>(s: seq<Item<T>>, compare: Compare<T>)
    requires TotalPreorder(compare)
    ensures Sorted(Sort(s, compare), compare)
    decreases |s|
  {
    if |s| >= 2 {
      SortSorts(s[..|s| / 2], compare);
      SortSorts(s[|s| / 2..], compare);
      MergeSorts(Sort(s[..|s| / 2], compare), Sort(s[|s| / 2..], compare), compare);
    }
  }

  // ----- stably

  predicate Ties<T(!new)>(x: T, y: T, compare: Compare<T>) {
    compare(x, y) <= 0 && compare(y, x) <= 0
  }

  /** The items that tie with a key, in list order. */
  function Tied<T(!new)>(s: seq<Item<T>>, x: T, compare: Compare<T>): seq<Item<T>> {
    if s == [] then []
    else (if Ties(x, s[0].data, compare) then [s[0]] else []) + Tied(s[1..], x, compare)
  }

  lemma TiedCons<T(!new)>(y: Item<T>, s: seq<Item<T>>, x: T, compare: Compare<T>)
    ensures Tied([y] + s, x, compare) == (if Ties(x, y.data, compare) then [y] else []) + Tied(s, x, compare)
  {
    assert ([y] + s)[1..] == s;
  }

  lemma {:induction false} TiedConcat<T(!new)>(a: seq<Item<T>>, b: seq<Item<T>>, x: T, compare: Compare<T>)
    ensures Tied(a + b, x, compare) == Tied(a, x, compare) + Tied(b, x, compare)
  {
    if a == [] {
      assert a + b == b;
    } else {
      TiedConcat(a[1..], b, x, compare);
      assert (a + b)[0] == a[0] && (a + b)[1..] == a[1..] + b;
      Regroup(if Ties(x, a[0].data, compare) then [a[0]] else [], Tied(a[1..], x, compare), Tied(b, x, compare));
    }
  }

  lemma {:induction false} NoneTied<T(!new)>(s: seq<Item<T>>, x: T, compare: Compare<T>)
    requires forall i :: 0 <= i < |s| ==> !Ties(x, s[i].data, compare)
    ensures Tied(s, x, compare) == []
  {
    if s != [] {
      NoneTied(s[1..], x, compare);
    }
  }

  /** When a key is strictly below the head of a sorted list, nothing in the list ties with it. */
  lemma AboveNeverTies<T(!new)>(ls: seq<Item<T>>, r: T, x: T, compare: Compare<T>)
    requires TotalPreorder(compare) && ls != [] && Sorted(ls, compare)
    requires compare(ls[0].data, r) > 0 && Ties(x, r, compare)
    ensures Tied(ls, x, compare) == []
  {
    assert compare(ls[0].data, x) > 0;
    forall i | 0 <= i < |ls| ensures !Ties(x, ls[i].data, compare) {
      assert i > 0 ==> ls[i] in ls[1..];
      assert compare(ls[0].data, ls[i].data) <= 0;
    }
    NoneTied(ls, x, compare);
  }

  lemma {:induction false} MergeStable<T(!new)>(ls: seq<Item<T>>, rs: seq<Item<T>>, x: T, compare: Compare<T>)
    requires TotalPreorder(compare) && Sorted(ls, compare)
    ensures Tied(Merge(ls, rs, compare), x, compare) == Tied(ls, x, compare) + Tied(rs, x, compare)
  {
    if ls != [] && rs != [] {
      if compare(ls[0].data, rs[0].data) <= 0 {
        MergeStable(ls[1..], rs, x, compare);
        TiedCons(ls[0], Merge(ls[1..], rs, compare), x, compare);
        Regroup(if Ties(x, ls[0].data, compare) then [ls[0]] else [], Tied(ls[1..], x, compare), Tied(rs, x, compare));
      } else {
        MergeStable(ls, rs[1..], x, compare);
        TiedCons(rs[0], Merge(ls, rs[1..], compare), x, compare);
        if Ties(x, rs[0].data, compare) {
          AboveNeverTies(ls, rs[0].data, x, compare);
          assert [] + Tied(rs[1..], x, compare) == Tied(rs[1..], x, compare);
          assert [] + Tied(rs, x, compare) == Tied(rs, x, compare);
        } else {
          assert [] + Tied(rs[1..], x, compare) == Tied(rs[1..], x, compare);
        }
      }
    }
  }

  /** Items that compare equal keep the order they had. */
  lemma {:induction false} SortStable<T(!new)>(s: seq<Item<T>>, x: T, compare: Compare<T>)
    requires TotalPreorder(compare)
    ensures Tied(Sort(s, compare), x, compare) == Tied(s, x, compare)
    decreases |s|
  {
    if |s| >= 2 {
      var a, b := s[..|s| / 2], s[|s| / 2..];
      assert s == a + b;
      TiedConcat(a, b, x, compare);
      SortStable(a, x, compare);
      SortStable(b, x, compare);
      SortSorts(a, compare);
      MergeStable(Sort(a, compare), Sort(b, compare), x, compare);
    }
  }
}
