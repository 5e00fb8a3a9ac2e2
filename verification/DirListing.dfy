/** The sorted, duplicate-free vector of module names that a directory listing builds. */
module DirListing {
  import opened Common
  import opened Strings
  import opened ArgzSpec
  import opened Argz

  // ----- strcmp

  function Strcmp(a: string, b: string): int {
    if a == "" then (if b == "" then 0 else -1)
    else if b == "" then 1
    else if a[0] != b[0] then (if a[0] < b[0] then -1 else 1)
    else Strcmp(a[1..], b[1..])
  }

  lemma {:induction false} StrcmpOrder(a: string, b: string)
    ensures Strcmp(a, b) == 0 <==> a == b
    ensures Strcmp(a, b) < 0 <==> Strcmp(b, a) > 0
  {
    if a != "" && b != "" && a[0] == b[0] {
      StrcmpOrder(a[1..], b[1..]);
      assert a == [a[0]] + a[1..] && b == [b[0]] + b[1..];
    }
  }

  /** The first place at which two strings differ, or the end of one of them. */
  ghost predicate DifferAt(a: string, b: string, i: int) {
    0 <= i <= |a| && i <= |b| && a[..i] == b[..i] && (i < |a| && i < |b| ==> a[i] != b[i])
  }

  /** strcmp decides by the first place at which the strings differ: the smaller character, or the end,
      comes first. */
  lemma {:induction false} StrcmpExactly(a: string, b: string, i: int)
    requires DifferAt(a, b, i) && (i == |a| || i == |b| || a[i] != b[i])
    ensures Strcmp(a, b) < 0 <==> (i == |a| && i < |b|) || (i < |a| && i < |b| && a[i] < b[i])
    decreases |a|
  {
    if i > 0 {
      assert a[0] == a[..i][0] && b[0] == b[..i][0];
      assert a[1..][..i - 1] == a[..i][1..] && b[1..][..i - 1] == b[..i][1..];
      StrcmpExactly(a[1..], b[1..], i - 1);
    }
  }

  lemma {:induction false} StrcmpTrans(a: string, b: string, c: string)
    requires Strcmp(a, b) < 0 && Strcmp(b, c) < 0
    ensures Strcmp(a, c) < 0
  {
    if a != "" && a[0] == b[0] && b[0] == c[0] {
      StrcmpTrans(a[1..], b[1..], c[1..]);
    }
  }

  // ----- insertion in order

  ghost predicate Above(es: seq<string>, e: string) {
    forall x :: x in es ==> Strcmp(e, x) < 0
  }

  ghost predicate StrictlySorted(es: seq<string>) {
    es == [] || (Above(es[1..], es[0]) && StrictlySorted(es[1..]))
  }

  ghost function InsertSorted(es: seq<string>, e: string): seq<string> {
    if es == [] then [e]
    else if Strcmp(e, es[0]) < 0 then [e] + es
    else if Strcmp(e, es[0]) == 0 then es
    else [es[0]] + InsertSorted(es[1..], e)
  }

  /** Inserting keeps the vector sorted without duplicates, and adds the entry to the set. */
  lemma {:induction false} InsertKeepsSorted(es: seq<string>, e: string)
    requires StrictlySorted(es)
    ensures StrictlySorted(InsertSorted(es, e))
    ensures forall x :: x in InsertSorted(es, e) <==> x in es || x == e
  {
    if es != [] {
      StrcmpOrder(e, es[0]);
      StrcmpOrder(es[0], e);
      if Strcmp(e, es[0]) < 0 {
        assert ([e] + es)[1..] == es;
        forall x | x in es ensures Strcmp(e, x) < 0 {
          if x != es[0] {
            StrcmpTrans(e, es[0], x);
          }
        }
      } else if Strcmp(e, es[0]) > 0 {
        InsertKeepsSorted(es[1..], e);
        assert InsertSorted(es, e)[1..] == InsertSorted(es[1..], e);
        assert es == [es[0]] + es[1..];
      }
    }
  }

  /** A strictly sorted vector is determined by its set of entries. */
  lemma {:induction false} SortedUnique(a: seq<string>, b: seq<string>)
    requires StrictlySorted(a) && StrictlySorted(b) && forall x :: x in a <==> x in b
    ensures a == b
  {
    assert b != [] ==> b[0] in b;
    if a != [] {
      assert a[0] in b;
      assert b[0] in a;
      StrcmpOrder(a[0], b[0]);
      assert a[0] == b[0];
      TailMembers(a, b);
      SortedUnique(a[1..], b[1..]);
      assert a == [a[0]] + a[1..] && b == [b[0]] + b[1..];
    }
  }

  lemma TailMembers(a: seq<string>, b: seq<string>)
    requires a != [] && b != [] && a[0] == b[0] && StrictlySorted(a) && StrictlySorted(b)
    requires forall x :: x in a <==> x in b
    ensures forall x :: x in a[1..] <==> x in b[1..]
  {
    StrcmpOrder(a[0], a[0]);
    assert a == [a[0]] + a[1..] && b == [b[0]] + b[1..];
    forall x ensures x in a[1..] <==> x in b[1..] {
      assert x in a <==> x == a[0] || x in a[1..];
      assert x in b <==> x == b[0] || x in b[1..];
    }
  }

  lemma SpliceCons(es: seq<string>, e: string, k: nat)
    requires 0 < k <= |es|
    ensures [es[0]] + (es[1..][..k - 1] + [e] + es[1..][k - 1..]) == es[..k] + [e] + es[k..]
    ensures es == [es[0]] + es[1..]
  {
    var tail := es[1..];
    assert es[..k] == [es[0]] + tail[..k - 1];
    assert es[k..] == tail[k - 1..];
  }

  /** Where the walk of lt_argz_insertinorder stops. */
  lemma {:induction false} InsertSortedAt(es: seq<string>, e: string, k: nat)
    requires k <= |es| && forall i :: 0 <= i < k ==> Strcmp(e, es[i]) > 0
    requires k < |es| ==> Strcmp(e, es[k]) <= 0
    ensures InsertSorted(es, e) ==
            if k < |es| && Strcmp(e, es[k]) == 0 then es else es[..k] + [e] + es[k..]
  {
    if k == 0 {
      assert es[..0] + [e] + es[0..] == [e] + es;
    } else {
      var tail := es[1..];
      InsertSortedAt(tail, e, k - 1);
      SpliceCons(es, e, k);
    }
  }

  /** The walk of lt_argz_insertinorder: to the first entry that is not smaller. */
  method FindPlace(v: seq<char>, entry: string, ghost es: seq<string>)
    returns (before: Option<nat>, same: bool, ghost k: nat)
    requires v == Pack(es) && AllClean(es)
    ensures k <= |es| && before == if k < |es| then Some(Offset(es, k)) else None
    ensures forall i :: 0 <= i < k ==> Strcmp(entry, es[i]) > 0
    ensures k < |es| ==> Strcmp(entry, es[k]) <= 0
    ensures same == (k < |es| && Strcmp(entry, es[k]) == 0)
  {
    before, same, k := Next(v, None), false, 0;
    if es != [] { NextEnumerates(es, 0); }
    while before.Some?
      invariant 0 <= k <= |es| && before == if k < |es| then Some(Offset(es, k)) else None
      invariant forall i :: 0 <= i < k ==> Strcmp(entry, es[i]) > 0
      invariant !same
      decreases |es| - k
    {
      NextEnumerates(es, k);
      var cmp := Strcmp(entry, StringAt(v, before.value));
      if cmp <= 0 {
        return before, cmp == 0, k;
      }
      before := Next(v, before);
      k := k + 1;
    }
  }

  /** lt_argz_insertinorder */
  method InsertInOrder(argz: array<char>, len: nat, entry: string, ghost es: seq<string>)
    returns (argz': array<char>, len': nat)
    requires len <= argz.Length && argz[..len] == Pack(es) && AllClean(es) && Clean(entry)
    ensures len' <= argz'.Length && argz'[..len'] == Pack(InsertSorted(es, entry))
  {
    var before, same; ghost var k;
    before, same, k := FindPlace(argz[..len], entry, es);
    InsertSortedAt(es, entry, k);
    if same {
      return argz, len;
    }
    if before.Some? {
      EntryBytes(es, k);
    }
    argz', len' := LtInsert(argz, len, before, entry, es, k);
  }

  // ----- the listing

  predicate VersionChar(c: char) {
    c == '.' || '0' <= c <= '9'
  }

  /** Where the trailing digits and dots of a file name begin. */
  function TrimTail(name: string, p: nat): (r: nat)
    requires p <= |name|
    ensures r <= p
  {
    if p > 1 && VersionChar(name[p - 1]) then TrimTail(name, p - 1) else p
  }

  function VersionEnd(name: string): (r: nat)
    ensures r <= |name|
  {
    var p := TrimTail(name, |name|);
    if p < |name| && name[p] == '.' then p else |name|
  }

  function LastDot(name: string, end: nat, p: int): (r: nat)
    requires p < end <= |name|
    ensures r <= end
    decreases if p < 0 then 0 else p
  {
    if p <= 0 then end else if name[p] == '.' then p else LastDot(name, end, p - 1)
  }

  /** The name without a version suffix and without an extension. */
  function Stem(name: string): string {
    var end := VersionEnd(name);
    name[..if end == 0 then 0 else LastDot(name, end, end - 1)]
  }

  /** The two scans of lt_argz_insertdir */
  method CutName(name: string) returns (stem: string)
    ensures stem == Stem(name)
  {
    var end := |name|;
    var p := end;
    while p - 1 > 0 && VersionChar(name[p - 1])
      invariant 0 <= p <= |name| && TrimTail(name, p) == TrimTail(name, |name|)
    {
      p := p - 1;
    }
    if p < |name| && name[p] == '.' {
      end := p;
    }
    var q := end - 1;
    ghost var full := end;
    while q > 0
      invariant -1 <= q < end == full <= |name|
      invariant full > 0 ==> LastDot(name, full, q) == LastDot(name, full, full - 1)
    {
      if name[q] == '.' {
        end := q;
        break;
      }
      q := q - 1;
    }
    stem := name[..end];
  }

  predicate Hidden(name: string) {
    name != "" && name[0] == '.'
  }

  function EntryFor(dir: string, name: string): string {
    dir + "/" + Stem(name)
  }

  /** The vector after reading the names in this order. */
  ghost function Listing(dir: string, names: seq<string>): seq<string> {
    if names == [] then []
    else
      var before, name := Listing(dir, names[..|names| - 1]), names[|names| - 1];
      if Hidden(name) then before else InsertSorted(before, EntryFor(dir, name))
  }

  /** The listing is sorted, and holds exactly the directory, a slash and the stem for every name that
      does not start with a dot. */
  lemma ListingExactly(dir: string, names: seq<string>)
    ensures StrictlySorted(Listing(dir, names))
    ensures forall e :: e in Listing(dir, names) <==> exists i :: Lists(dir, names, i, e)
  {
    ListingIsSet(dir, names);
    forall e ensures e in Listing(dir, names) <==> exists i :: Lists(dir, names, i, e) {
      if i :| 0 <= i < |names| && !Hidden(names[i]) && e == EntryFor(dir, names[i]) {
        assert Lists(dir, names, i, e);
      }
      if i :| Lists(dir, names, i, e) {
        assert 0 <= i < |names| && !Hidden(names[i]) && e == EntryFor(dir, names[i]);
      }
    }
  }

  /** Name i does not start with a dot, and e is the directory, a slash and its stem. */
  ghost predicate Lists(dir: string, names: seq<string>, i: int, e: string) {
    0 <= i < |names| && !(names[i] != "" && names[i][0] == '.') && e == dir + "/" + Stem(names[i])
  }

  /** The listing is sorted, and holds exactly the entries of the names that are not hidden. */
  lemma {:induction false} ListingIsSet(dir: string, names: seq<string>)
    ensures StrictlySorted(Listing(dir, names))
    ensures forall e :: e in Listing(dir, names) <==>
              exists i :: 0 <= i < |names| && !Hidden(names[i]) && e == EntryFor(dir, names[i])
  {
    if names != [] {
      var past, name := names[..|names| - 1], names[|names| - 1];
      ListingIsSet(dir, past);
      InsertKeepsSorted(Listing(dir, past), EntryFor(dir, name));
      forall e ensures e in Listing(dir, names) <==>
          exists i :: 0 <= i < |names| && !Hidden(names[i]) && e == EntryFor(dir, names[i]) {
        if i :| 0 <= i < |names| && !Hidden(names[i]) && e == EntryFor(dir, names[i]) {
          if i < |past| {
            assert past[i] == names[i];
          }
        }
        if e in Listing(dir, past) {
          var i :| 0 <= i < |past| && !Hidden(past[i]) && e == EntryFor(dir, past[i]);
          assert names[i] == past[i];
        }
      }
    }
  }

  /** The vector does not depend on the order, or the number of times, names are read. */
  lemma ListingOrderIndependent(dir: string, names: seq<string>, names': seq<string>)
    requires forall n :: n in names <==> n in names'
    ensures Listing(dir, names) == Listing(dir, names')
    ensures Pack(Listing(dir, names)) == Pack(Listing(dir, names'))
  {
    ListingIsSet(dir, names);
    ListingIsSet(dir, names');
    ListedIn(dir, names, names');
    ListedIn(dir, names', names);
    SortedUnique(Listing(dir, names), Listing(dir, names'));
  }

  lemma ListedIn(dir: string, names: seq<string>, names': seq<string>)
    requires forall n :: n in names ==> n in names'
    ensures forall e :: e in Listing(dir, names) ==> e in Listing(dir, names')
  {
    ListingIsSet(dir, names);
    ListingIsSet(dir, names');
    forall e | e in Listing(dir, names) ensures e in Listing(dir, names') {
      var i :| 0 <= i < |names| && !Hidden(names[i]) && e == EntryFor(dir, names[i]);
      assert names[i] in names;
      var j :| 0 <= j < |names'| && names'[j] == names[i];
    }
  }

  lemma {:induction false} ListingClean(dir: string, names: seq<string>)
    requires Clean(dir) && AllClean(names)
    ensures AllClean(Listing(dir, names))
  {
    ListingIsSet(dir, names);
    var es := Listing(dir, names);
    forall k | 0 <= k < |es| ensures Clean(es[k]) {
      assert es[k] in es;
      var i :| 0 <= i < |names| && !Hidden(names[i]) && es[k] == EntryFor(dir, names[i]);
    }
  }

  /** list_files_by_dir, over the names that readdir returns */
  method ListFilesByDir(dir: string, names: seq<string>) returns (argz: array<char>, len: nat)
    requires Clean(dir) && AllClean(names)
    ensures len <= argz.Length && argz[..len] == Pack(Listing(dir, names))
  {
    argz, len := new char[0], 0;
    for i := 0 to |names|
      invariant len <= argz.Length && argz[..len] == Pack(Listing(dir, names[..i]))
    {
      assert names[..i + 1][..i] == names[..i];
      if !Hidden(names[i]) {
        ListingClean(dir, names[..i]);
        ListingClean(dir, names[..i + 1]);
        var stem := CutName(names[i]);
        EntryClean(dir, names[i]);
        argz, len := InsertInOrder(argz, len, dir + "/" + stem, Listing(dir, names[..i]));
      }
    }
    assert names[..|names|] == names;
  }

  lemma EntryClean(dir: string, name: string)
    requires Clean(dir) && Clean(name)
    ensures Clean(EntryFor(dir, name))
  {
  }

  // ----- the names one module goes by

  lemma {:induction false} TrimTailStops(name: string, p: nat, stop: nat)
    requires 1 < stop <= p <= |name| && !VersionChar(name[stop - 1])
    requires forall i :: stop <= i < p ==> VersionChar(name[i])
    ensures TrimTail(name, p) == stop
    decreases p
  {
    if p > stop {
      TrimTailStops(name, p - 1, stop);
    }
  }

  lemma {:induction false} LastDotFinds(name: string, end: nat, p: int, dot: nat)
    requires 0 < dot <= p < end <= |name| && name[dot] == '.'
    requires forall i :: dot < i <= p ==> name[i] != '.'
    ensures LastDot(name, end, p) == dot
    decreases p
  {
    if p > dot {
      LastDotFinds(name, end, p - 1, dot);
    }
  }

  /** A version suffix: from here on only dots and digits, a dot first, and it does not start later
      than it could. */
  ghost predicate VersionTail(name: string, p: int) {
    && 1 <= p < |name| && name[p] == '.'
    && (forall i :: p <= i < |name| ==> name[i] == '.' || '0' <= name[i] <= '9')
    && (p == 1 || !(name[p - 1] == '.' || '0' <= name[p - 1] <= '9'))
  }

  /** Where the name ends without its version suffix. */
  ghost predicate NameEnd(name: string, end: int) {
    VersionTail(name, end) || (end == |name| && forall p :: 0 <= p < |name| ==> !VersionTail(name, p))
  }

  /** Where the name ends without its extension: at the last dot that is not the first character. */
  ghost predicate ExtensionAt(name: string, end: int, dot: int) {
    && 0 <= dot <= end <= |name|
    && (forall i :: dot < i < end ==> name[i] != '.' || i == 0)
    && if dot < end then dot > 0 && name[dot] == '.' else forall i :: 0 < i < end ==> name[i] != '.'
  }

  lemma {:induction false} TrimTailExactly(name: string, p: nat)
    requires p <= |name| && forall i :: p <= i < |name| ==> VersionChar(name[i])
    ensures var r := TrimTail(name, p);
            && (forall i :: r <= i < |name| ==> VersionChar(name[i]))
            && (r > 1 ==> !VersionChar(name[r - 1])) && (p >= 1 ==> r >= 1)
  {
    if p > 1 && VersionChar(name[p - 1]) {
      TrimTailExactly(name, p - 1);
    }
  }

  lemma VersionEndExactly(name: string)
    ensures NameEnd(name, VersionEnd(name))
  {
    var r := TrimTail(name, |name|);
    TrimTailExactly(name, |name|);
    if name != "" && !(r < |name| && name[r] == '.') {
      forall p | 0 <= p < |name| ensures !VersionTail(name, p) {
        OneTail(name, p);
      }
    }
  }

  lemma OneTail(name: string, p: int)
    ensures VersionTail(name, p) ==> p == TrimTail(name, |name|)
  {
    if VersionTail(name, p) {
      TrimTailMeets(name, |name|, p);
    }
  }

  lemma {:induction false} TrimTailMeets(name: string, q: nat, p: nat)
    requires VersionTail(name, p) && p <= q <= |name|
    ensures TrimTail(name, q) == p
    decreases q
  {
    if q > p {
      assert VersionChar(name[q - 1]);
      TrimTailMeets(name, q - 1, p);
    }
  }

  lemma {:induction false} LastDotExactly(name: string, end: nat, p: int)
    requires -1 <= p < end <= |name| && forall i :: p < i < end && i > 0 ==> name[i] != '.'
    ensures ExtensionAt(name, end, LastDot(name, end, p))
    decreases p + 1
  {
    if p > 0 && name[p] != '.' {
      LastDotExactly(name, end, p - 1);
    }
  }

  /** A name is listed without its version suffix and without its extension, for every name: one
      without a dot behind its first character is listed whole. */
  lemma StemExactly(name: string)
    ensures exists end, dot :: NameEnd(name, end) && ExtensionAt(name, end, dot) && Stem(name) == name[..dot]
  {
    var end := VersionEnd(name);
    VersionEndExactly(name);
    if end > 0 {
      LastDotExactly(name, end, end - 1);
      assert ExtensionAt(name, end, LastDot(name, end, end - 1));
    } else {
      assert ExtensionAt(name, end, 0);
    }
  }

  /** Whatever extension and version number a module file carries, the listing names it by its base:
      base.la, base.so, base.so.1 and base.so.1.0.0 are one entry, whether the base has dots or not. */
  lemma StemIsBase(base: string, ext: string, version: string)
    requires base != "" && ext != "" && '.' !in ext && !VersionChar(ext[|ext| - 1])
    requires version == "" || (version[0] == '.' && forall i :: 0 <= i < |version| ==> VersionChar(version[i]))
    ensures Stem(base + "." + ext + version) == base
  {
    var name := base + "." + ext + version;
    var stop := |base| + 1 + |ext|;
    assert name[stop - 1] == ext[|ext| - 1];
    assert forall i :: stop <= i < |name| ==> name[i] == version[i - stop];
    TrimTailStops(name, |name|, stop);
    assert VersionEnd(name) == stop;
    assert forall i :: |base| < i < stop ==> name[i] == ext[i - |base| - 1] && ext[i - |base| - 1] in ext;
    LastDotFinds(name, stop, stop - 1, |base|);
    assert name[..|base|] == base;
  }
}
