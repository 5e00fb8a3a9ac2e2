/** The argz functions as loops over buffers, and what they do to the entries of a vector. */
module Argz {
  import opened Common
  import opened Strings
  import opened ArgzSpec

  // ----- building

  /** argz_create_sep: the buffer has room for every character, len counts what is used. */
  method CreateSep(str: string, delim: char) returns (argz: array<char>, len: nat)
    requires Clean(str)
    ensures fresh(argz) && 1 <= len <= argz.Length
    ensures argz[..len] == Pack(Entries(str, delim))
  {
    len := 1 + |str|;
    argz := new char[len];
    var q := 0;
    for p := 0 to |str|
      invariant 0 <= q <= p && len == 1 + |str| - (p - q)
      invariant argz[..q] == Squeeze(str[..p], delim)
    {
      assert str[..p + 1][..p] == str[..p];
      if str[p] == delim {
        if q > 0 && argz[q - 1] != EOS {
          argz[q] := EOS;
          q := q + 1;
        } else {
          len := len - 1;
        }
      } else {
        argz[q] := str[p];
        q := q + 1;
      }
    }
    argz[q] := EOS;
    assert str[..|str|] == str;
    CreatedIsEntries(str, delim);
  }

  /** argz_append */
  method Append(argz: array<char>, len: nat, buf: seq<char>) returns (argz': array<char>, len': nat)
    requires len <= argz.Length
    ensures fresh(argz') && len' == argz'.Length
    ensures argz'[..] == argz[..len] + buf
  {
    len' := len + |buf|;
    argz' := new char[len'];
    forall i | 0 <= i < len {
      argz'[i] := argz[i];
    }
    forall i | len <= i < len' {
      argz'[i] := buf[i - len];
    }
  }

  /** Where the entry around an offset starts. */
  ghost function StartOf(v: seq<char>, i: nat): (r: nat)
    requires i <= |v|
    ensures r <= i
  {
    if i == 0 || v[i - 1] == EOS then i else StartOf(v, i - 1)
  }

  /** argz_insert: back up to the start of an entry, then make room for the new one there. */
  method Insert(argz: array<char>, len: nat, before: nat, entry: string) returns (argz': array<char>, len': nat)
    requires before <= len <= argz.Length
    ensures fresh(argz') && len' == argz'.Length
    ensures var at := StartOf(argz[..len], before);
            argz'[..] == argz[..at] + (entry + [EOS]) + argz[at..len]
  {
    var at := before;
    while at > 0 && argz[at - 1] != EOS
      invariant 0 <= at <= before && StartOf(argz[..len], at) == StartOf(argz[..len], before)
    {
      at := at - 1;
    }
    argz' := OpenGap(argz, len, at, entry + [EOS]);
    len' := argz'.Length;
  }

  /** realloc, memmove of everything from at upwards, memcpy into the gap */
  method OpenGap(argz: array<char>, len: nat, at: nat, bytes: seq<char>) returns (argz': array<char>)
    requires at <= len <= argz.Length
    ensures fresh(argz') && argz'[..] == argz[..at] + bytes + argz[at..len]
  {
    var gap := |bytes|;
    argz' := new char[len + gap];
    forall i | 0 <= i < at {
      argz'[i] := argz[i];
    }
    forall i | at + gap <= i < len + gap {
      argz'[i] := argz[i - gap];
    }
    forall i | at <= i < at + gap {
      argz'[i] := bytes[i - at];
    }
    assert argz'[..at] == argz[..at];
    assert argz'[at..at + gap] == bytes;
    assert argz'[at + gap..] == argz[at..len];
    assert argz'[..] == argz'[..at] + argz'[at..at + gap] + argz'[at + gap..];
  }

  /** argz_stringify, in place; with sep NUL there is nothing to do. */
  method Stringify(argz: array<char>, len: nat, sep: char)
    requires len <= argz.Length && (sep != EOS ==> len >= 2)
    modifies argz
    ensures argz[..len] == Stringified(old(argz[..len]), sep) && argz[len..] == old(argz[len..])
  {
    ghost var was := argz[..];
    if sep == EOS {
      assert argz[..len] == Stringified(argz[..len], sep);
      return;
    }
    var n := len - 1;
    n := n - 1;
    while n > 0
      invariant 0 <= n <= len - 2
      invariant forall i :: 0 <= i < argz.Length ==>
                  argz[i] == if n < i < len - 1 && was[i] == EOS then sep else was[i]
    {
      if argz[n] == EOS {
        argz[n] := sep;
      }
      n := n - 1;
    }
  }

  // ----- walking

  function EosFrom(v: seq<char>, i: nat): (r: nat)
    requires i <= |v|
    ensures i <= r <= |v|
    ensures forall k :: i <= k < r ==> v[k] != EOS
    ensures r < |v| ==> v[r] == EOS
    decreases |v| - i
  {
    if i == |v| || v[i] == EOS then i else EosFrom(v, i + 1)
  }

  /** argz_next: the offset of the entry after the given one, or of the first. */
  function Next(v: seq<char>, entry: Option<nat>): Option<nat>
    requires entry.Some? ==> entry.value < |v|
  {
    if entry.Some? then
      var n := 1 + EosFrom(v, entry.value);
      if n >= |v| then None else Some(n)
    else if |v| > 0 then Some(0)
    else None
  }

  /** Where entry k of a vector starts. */
  ghost function Offset(es: seq<string>, k: nat): nat
    requires k <= |es|
  {
    |Pack(es[..k])|
  }

  lemma AtOffset(es: seq<string>, k: nat)
    requires k <= |es|
    ensures Offset(es, k) <= |Pack(es)|
    ensures Pack(es)[..Offset(es, k)] == Pack(es[..k])
    ensures Pack(es)[Offset(es, k)..] == Pack(es[k..])
  {
    assert es == es[..k] + es[k..];
    PackConcat(es[..k], es[k..]);
  }

  lemma OffsetStep(es: seq<string>, k: nat)
    requires k < |es|
    ensures Offset(es, k + 1) == Offset(es, k) + |es[k]| + 1
  {
    assert es[..k + 1] == es[..k] + [es[k]];
    PackConcat(es[..k], [es[k]]);
    PackOne(es[k]);
  }

  lemma EntryBytes(es: seq<string>, k: nat)
    requires k < |es|
    ensures Offset(es, k) + |es[k]| < |Pack(es)|
    ensures es[k] + [EOS] <= Pack(es)[Offset(es, k)..]
    ensures forall i :: 0 <= i < |es[k]| ==> Pack(es)[Offset(es, k) + i] == es[k][i]
    ensures AllClean(es) ==> forall i :: Offset(es, k) <= i < Offset(es, k) + |es[k]| ==> Pack(es)[i] != EOS
    ensures Pack(es)[Offset(es, k) + |es[k]|] == EOS
    ensures k > 0 ==> Offset(es, k) > 0 && Pack(es)[Offset(es, k) - 1] == EOS
  {
    AtOffset(es, k);
    var here := Pack(es)[Offset(es, k)..];
    assert es[k..][0] == es[k];
    assert here == es[k] + [EOS] + Pack(es[k..][1..]);
    if AllClean(es) {
      forall i | Offset(es, k) <= i < Offset(es, k) + |es[k]| ensures Pack(es)[i] != EOS {
        assert Pack(es)[i] == here[i - Offset(es, k)] == es[k][i - Offset(es, k)];
        assert es[k][i - Offset(es, k)] in es[k];
      }
    }
    if k > 0 {
      PackEndsInEos(es[..k]);
      OffsetStep(es, k - 1);
      var p := Pack(es[..k]);
      assert p[|p| - 1] == Pack(es)[|p| - 1];
    }
  }

  /** argz_next visits the entries in order: the string at the k-th offset is entry k, the next
      offset is that of entry k + 1, and after the last entry there is none. */
  lemma NextEnumerates(es: seq<string>, k: nat)
    requires AllClean(es) && k < |es|
    ensures Offset(es, k) < |Pack(es)| && StringAt(Pack(es), Offset(es, k)) == es[k]
    ensures Next(Pack(es), Some(Offset(es, k))) == if k + 1 < |es| then Some(Offset(es, k + 1)) else None
    ensures Next(Pack(es), None) == Some(Offset(es, 0))
  {
    var v, at := Pack(es), Offset(es, k);
    EntryBytes(es, k);
    StringAtPrefix(es[k], v, at);
    EosAfterEntry(es, k);
    OffsetStep(es, k);
    NextOffset(es, k);
  }

  /** There is something behind an entry exactly when there is a further entry. */
  lemma NextOffset(es: seq<string>, k: nat)
    requires k < |es|
    ensures Offset(es, k + 1) < |Pack(es)| <==> k + 1 < |es|
  {
    if k + 1 < |es| {
      EntryBytes(es, k + 1);
    } else {
      assert es[..k + 1] == es;
    }
  }

  lemma {:induction false} EosFromUnique(v: seq<char>, i: nat, n: nat)
    requires i <= n < |v| && v[n] == EOS && forall k :: i <= k < n ==> v[k] != EOS
    ensures EosFrom(v, i) == n
    decreases n - i
  {
    if i < n {
      EosFromUnique(v, i + 1, n);
    }
  }

  lemma EosAfterEntry(es: seq<string>, k: nat)
    requires AllClean(es) && k < |es|
    ensures Offset(es, k) <= |Pack(es)| && EosFrom(Pack(es), Offset(es, k)) == Offset(es, k) + |es[k]|
  {
    var v, at := Pack(es), Offset(es, k);
    EntryBytes(es, k);
    EosFromUnique(v, at, at + |es[k]|);
  }

  // ----- inserting

  /** Backing up from anywhere inside an entry, or from the NUL that ends it, finds its start. */
  lemma StartOfEntry(es: seq<string>, k: nat, i: nat)
    requires AllClean(es) && k < |es| && Offset(es, k) <= i <= Offset(es, k) + |es[k]| && i <= |Pack(es)|
    ensures StartOf(Pack(es), i) == Offset(es, k)
  {
    EntryBytes(es, k);
    if i > Offset(es, k) {
      var c := i - 1 - Offset(es, k);
      assert Pack(es)[i - 1] == es[k][c] && es[k][c] in es[k];
      StartOfEntry(es, k, i - 1);
    }
  }

  lemma InsertedIsPack(es: seq<string>, k: nat, entry: string)
    requires k <= |es|
    ensures var v, at := Pack(es), Offset(es, k);
            && at <= |v|
            && v[..at] + (entry + [EOS]) + v[at..] == Pack(es[..k] + [entry] + es[k..])
  {
    AtOffset(es, k);
    PackConcat(es[..k] + [entry], es[k..]);
    PackConcat(es[..k], [entry]);
    PackOne(entry);
  }

  /** Entry k is the one around an offset: it contains the offset or ends there; the offset behind
      the last entry belongs to none. */
  ghost predicate Around(es: seq<string>, offset: nat, k: nat) {
    && k <= |es|
    && if k < |es| then Offset(es, k) <= offset <= Offset(es, k) + |es[k]| else offset == |Pack(es)|
  }

  lemma StartAround(es: seq<string>, offset: nat, k: nat)
    requires AllClean(es) && Around(es, offset, k)
    ensures offset <= |Pack(es)| && StartOf(Pack(es), offset) == Offset(es, k)
  {
    if k < |es| {
      EntryBytes(es, k);
      StartOfEntry(es, k, offset);
    } else {
      assert es[..k] == es;
      PackEndsInEos(es);
    }
  }

  /** lt_argz_insert: before the entry around an offset, or at the end. */
  method LtInsert(argz: array<char>, len: nat, before: Option<nat>, entry: string, ghost es: seq<string>, ghost k: nat)
    returns (argz': array<char>, len': nat)
    requires len <= argz.Length && argz[..len] == Pack(es) && AllClean(es)
    requires if before.Some? then Around(es, before.value, k) else k == |es|
    ensures fresh(argz') && len' == argz'.Length
    ensures argz'[..] == Pack(es[..k] + [entry] + es[k..])
  {
    ghost var v := Pack(es);
    InsertedIsPack(es, k, entry);
    if before.Some? {
      StartAround(es, before.value, k);
      argz', len' := Insert(argz, len, before.value, entry);
      ghost var at := Offset(es, k);
      assert argz[..at] == v[..at] && argz[at..len] == v[at..];
    } else {
      argz', len' := Append(argz, len, entry + [EOS]);
      assert es[..|es|] == es;
      assert v[..|v|] == v && v[|v|..] == [];
    }
  }
}
