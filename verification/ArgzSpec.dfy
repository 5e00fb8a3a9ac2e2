/** Argz vectors: strings packed one after the other, each closed by a NUL. */
module ArgzSpec {
  import opened Common
  import opened Strings

  ghost function Pack(es: seq<string>): seq<char> {
    if es == [] then [] else es[0] + [EOS] + Pack(es[1..])
  }

  /** What argz_create_sep makes of a string: the non-empty pieces, and one empty entry more when
      there is nothing after the last delimiter. */
  ghost function Entries(s: string, delim: char): seq<string> {
    NonEmpty(Split(s, delim)) + if s == "" || EndsIn(s, delim) then [""] else []
  }

  // ----- lists

  lemma {:induction false} PackConcat(a: seq<string>, b: seq<string>)
    ensures Pack(a + b) == Pack(a) + Pack(b)
  {
    if a == [] {
      assert a + b == b;
    } else {
      PackConcat(a[1..], b);
      assert (a + b)[0] == a[0] && (a + b)[1..] == a[1..] + b;
      Regroup(a[0] + [EOS], Pack(a[1..]), Pack(b));
    }
  }

  lemma PackOne(e: string)
    ensures Pack([e]) == e + [EOS]
  {
    assert [e][1..] == [];
  }

  // ----- the squeeze: what the loop of argz_create_sep writes

  ghost function Squeeze(s: string, delim: char): seq<char> {
    if s == "" then []
    else
      var out := Squeeze(s[..|s| - 1], delim);
      var c := s[|s| - 1];
      if c != delim then out + [c]
      else if out != [] && out[|out| - 1] != EOS then out + [EOS]
      else out
  }

  /** At every point the buffer holds the finished pieces, packed, and the open piece. */
  lemma {:induction false} SqueezeIsPack(s: string, delim: char)
    requires Clean(s)
    ensures Squeeze(s, delim) == Pack(NonEmpty(Closed(s, delim))) + Last(s, delim)
  {
    if s != "" {
      var t, c := s[..|s| - 1], s[|s| - 1];
      assert s == t + [c];
      SqueezeIsPack(t, delim);
      SplitStep(t, c, delim);
      if c == delim {
        SqueezeCloses(t, delim);
      }
    }
  }

  lemma SqueezeCloses(t: string, delim: char)
    requires Clean(t) && Squeeze(t, delim) == Pack(NonEmpty(Closed(t, delim))) + Last(t, delim)
    ensures var out := Squeeze(t, delim);
            Pack(NonEmpty(Split(t, delim))) == if out != [] && out[|out| - 1] != EOS then out + [EOS] else out
  {
    var done, tail := NonEmpty(Closed(t, delim)), Last(t, delim);
    SplitParts(t, delim);
    NonEmptyConcat(Closed(t, delim), [tail]);
    NonEmptyOne(tail);
    SplitClean(t, delim);
    if tail == "" {
      assert NonEmpty(Split(t, delim)) == done && Squeeze(t, delim) == Pack(done);
      PackEndsInEos(done);
    } else {
      PackConcat(done, [tail]);
      PackOne(tail);
      assert tail[|tail| - 1] in tail;
    }
  }

  lemma {:induction false} PackEndsInEos(es: seq<string>)
    ensures Pack(es) != [] ==> Pack(es)[|Pack(es)| - 1] == EOS
  {
    if es != [] {
      PackEndsInEos(es[1..]);
    }
  }

  /** argz_create_sep packs exactly the non-empty pieces, and an empty entry when nothing follows
      the last delimiter. */
  lemma CreatedIsEntries(s: string, delim: char)
    requires Clean(s)
    ensures Squeeze(s, delim) + [EOS] == Pack(Entries(s, delim))
  {
    var tail := Last(s, delim);
    SqueezeIsPack(s, delim);
    SplitLast(s, delim);
    SplitParts(s, delim);
    NonEmptyConcat(Closed(s, delim), [tail]);
    NonEmptyOne(tail);
    assert Entries(s, delim) == NonEmpty(Closed(s, delim)) + [tail];
    PackConcat(NonEmpty(Closed(s, delim)), [tail]);
    PackOne(tail);
  }

  // ----- turning a vector back into a string

  /** argz_stringify: every NUL but the last, and but one at the very start, becomes sep. */
  ghost function Stringified(s: seq<char>, sep: char): (r: seq<char>)
    ensures |r| == |s|
  {
    seq(|s|, i requires 0 <= i < |s| => if 0 < i < |s| - 1 && s[i] == EOS then sep else s[i])
  }

  /** The C string at an offset: everything up to the next NUL. */
  function StringAt(s: seq<char>, i: nat): string
    requires i <= |s|
    decreases |s| - i
  {
    if i == |s| || s[i] == EOS then "" else [s[i]] + StringAt(s, i + 1)
  }

  lemma {:induction false} StringAtPrefix(a: string, s: seq<char>, i: nat)
    requires Clean(a) && i <= |s| && a + [EOS] <= s[i..]
    ensures StringAt(s, i) == a
    decreases |a|
  {
    assert s[i] == (a + [EOS])[0];
    if a != "" {
      assert s[i] in a;
      assert s[i + 1..] == s[i..][1..] && a[1..] + [EOS] == (a + [EOS])[1..];
      StringAtPrefix(a[1..], s, i + 1);
    }
  }

  lemma {:induction false} PackVersusJoin(es: seq<string>, sep: char)
    requires es != [] && AllClean(es)
    ensures |Pack(es)| == |Join(es, sep)| + 1
    ensures forall i :: 0 <= i < |Pack(es)| - 1 ==>
              Join(es, sep)[i] == if Pack(es)[i] == EOS then sep else Pack(es)[i]
  {
    if |es| == 1 {
      assert es == [es[0]];
      PackOne(es[0]);
    } else {
      PackVersusJoin(es[1..], sep);
    }
  }

  /** Stringifying a vector whose first entry is not empty joins its entries; with an empty first
      entry the NUL at the start survives, and the C string is empty. */
  lemma StringifiedIsJoin(es: seq<string>, sep: char)
    requires AllClean(es) && |Pack(es)| >= 2 && sep != EOS
    ensures es[0] != "" ==> Stringified(Pack(es), sep) == Join(es, sep) + [EOS]
    ensures StringAt(Stringified(Pack(es), sep), 0) == if es[0] != "" then Join(es, sep) else ""
  {
    var p := Pack(es);
    var r := Stringified(p, sep);
    PackVersusJoin(es, sep);
    PackEndsInEos(es);
    if es[0] != "" {
      assert p[0] == es[0][0] && es[0][0] in es[0];
      assert r == Join(es, sep) + [EOS];
      JoinClean(es, sep);
      assert r[0..] == r;
      StringAtPrefix(Join(es, sep), r, 0);
    } else {
      assert r[0] == EOS;
    }
  }

  lemma EntriesShape(s: string, delim: char)
    ensures var es := Entries(s, delim);
            && (forall i :: 0 <= i < |es| ==> delim !in es[i])
            && (forall i :: 0 <= i < |es| - 1 ==> es[i] != "")
  {
    SplitJoin(s, delim);
    NonEmptyMembers(Split(s, delim));
    var ne := NonEmpty(Split(s, delim));
    assert forall i :: 0 <= i < |ne| ==> ne[i] in ne;
  }

  /** Splitting a string with some text in it and stringifying the vector restores the string
      exactly when it has no leading and no doubled delimiter. */
  lemma RoundTripExactly(s: string, delim: char)
    requires Clean(s) && delim != EOS && exists i :: 0 <= i < |s| && s[i] != delim
    ensures |Pack(Entries(s, delim))| >= 2
    ensures StringAt(Stringified(Pack(Entries(s, delim)), delim), 0) == s <==> !Leading(s, delim) && !Doubled(s, delim)
  {
    EntriesJoined(s, delim);
    if !Leading(s, delim) && !Doubled(s, delim) {
      TidyEntries(s, delim);
    }
  }

  /** With some text the vector starts with a proper entry, so stringifying it joins its entries,
      and the result is tidy. */
  lemma EntriesJoined(s: string, delim: char)
    requires Clean(s) && delim != EOS && exists i :: 0 <= i < |s| && s[i] != delim
    ensures var es := Entries(s, delim);
            && |Pack(es)| >= 2 && StringAt(Stringified(Pack(es), delim), 0) == Join(es, delim)
            && !Leading(Join(es, delim), delim) && !Doubled(Join(es, delim), delim)
  {
    var es := Entries(s, delim);
    SomeText(s, delim);
    EntriesShape(s, delim);
    EntriesClean(s, delim);
    NonEmptyMembers(Split(s, delim));
    assert es[0] == NonEmpty(Split(s, delim))[0] && es[0] in NonEmpty(Split(s, delim));
    StringifiedIsJoin(es, delim);
    JoinTidy(es, delim);
  }

  lemma TidyEntries(s: string, delim: char)
    requires !Leading(s, delim) && !Doubled(s, delim) && s != ""
    ensures Entries(s, delim) == Split(s, delim) && Join(Split(s, delim), delim) == s
  {
    TidySplit(s, delim);
    SplitParts(s, delim);
    SplitLast(s, delim);
    NonEmptyAll(Closed(s, delim));
    NonEmptyConcat(Closed(s, delim), [Last(s, delim)]);
    NonEmptyOne(Last(s, delim));
    SplitJoin(s, delim);
  }

  lemma EntriesClean(s: string, delim: char)
    requires Clean(s)
    ensures AllClean(Entries(s, delim))
  {
    SplitClean(s, delim);
    NonEmptyMembers(Split(s, delim));
    var ne := NonEmpty(Split(s, delim));
    assert forall i :: 0 <= i < |ne| ==> ne[i] in ne;
  }
}
