/** Packing monitored names into numeric lines. */
module Monitor {
  import opened Common
  import opened Strings

  const IRCD_BUFSIZE: nat := 512
  const COMMA: char := ','

  /** The names a line carries after its prefix. */
  ghost function NamesOf(line: string, prefix: nat): seq<string>
    requires prefix <= |line|
  {
    Split(line[prefix..], COMMA)
  }

  ghost function AllNames(lines: seq<string>, prefix: nat): seq<string>
    requires forall i :: 0 <= i < |lines| ==> prefix <= |lines[i]|
  {
    if lines == [] then []
    else AllNames(lines[..|lines| - 1], prefix) + NamesOf(lines[|lines| - 1], prefix)
  }

  /** A name as it may stand in a list: not empty and without a comma. */
  ghost predicate Listable(name: string) {
    name != "" && COMMA !in name
  }

  /** A line that names at least one client and fits the buffer with its terminator. */
  ghost predicate GoodLine(line: string, prefix: string) {
    && |line| < 512 && prefix <= line
    && forall n :: n in NamesOf(line, |prefix|) ==> Listable(n)
  }

  ghost predicate GoodLines(lines: seq<string>, prefix: string) {
    forall i :: 0 <= i < |lines| ==> GoodLine(lines[i], prefix)
  }

  /** No line could have taken the first name of the next one. */
  ghost predicate Tight(lines: seq<string>, prefix: string) {
    forall i :: 0 < i < |lines| ==> TightAt(lines, prefix, i)
  }

  ghost predicate TightAt(lines: seq<string>, prefix: string, i: int) {
    && 0 < i < |lines| && |prefix| <= |lines[i]|
    && |lines[i - 1]| + 1 + |NamesOf(lines[i], |prefix|)[0]| >= 512 - 3
  }

  lemma TightMore(lines: seq<string>, prefix: string, line: string)
    requires Tight(lines, prefix) && |prefix| <= |line|
    requires lines != [] ==> |lines[|lines| - 1]| + 1 + |NamesOf(line, |prefix|)[0]| >= 512 - 3
    ensures Tight(lines + [line], prefix)
  {
    var all := lines + [line];
    forall i | 0 < i < |all| ensures TightAt(all, prefix, i) {
      assert i < |lines| ==> TightAt(lines, prefix, i);
    }
  }

  /** One output buffer: a prefix, the names packed so far, and the lines already sent. */
  class LineBuffer {
    const buf: array<char>
    const mlen: nat
    ghost const prefix: string
    var len: nat
    var sent: seq<string>
    ghost var packed: seq<string>

    ghost predicate Valid()
      reads this, buf
    {
      && buf.Length == IRCD_BUFSIZE && mlen == |prefix| <= len < IRCD_BUFSIZE - 3
      && buf[..len] == prefix + Join(packed, COMMA)
      && (packed == [] <==> len == mlen)
      && (forall i :: 0 <= i < |packed| ==> Listable(packed[i]))
      && GoodLines(sent, prefix) && Tight(sent, prefix)
      && (sent != [] && packed != [] ==> |sent[|sent| - 1]| + 1 + |packed[0]| >= 512 - 3)
    }

    /** Every name added so far, in order. */
    ghost function Added(): seq<string>
      requires Valid()
      reads this, buf
    {
      AllNames(sent, mlen) + packed
    }

    constructor (prefix: string)
      requires |prefix| < IRCD_BUFSIZE - 3
      ensures Valid() && this.prefix == prefix && Added() == [] && fresh(buf) && sent == []
    {
      var b := new char[IRCD_BUFSIZE](i => if 0 <= i < |prefix| then prefix[i] else EOS);
      buf, mlen, len := b, |prefix|, |prefix|;
      this.prefix, packed, sent := prefix, [], [];
      new;
      assert buf[..len] == prefix;
    }

    /** sendto_one_buffer */
    method Send()
      requires Valid() && packed != []
      modifies this`len, this`sent, this`packed
      ensures Valid() && packed == [] && Added() == old(Added())
      ensures sent != [] && |sent[|sent| - 1]| == old(len)
    {
      ghost var line := buf[..len];
      LineNames(prefix, packed, line);
      TightMore(sent, prefix, line);
      sent := sent + [buf[..len]];
      len := mlen;
      packed := [];
      assert sent[..|sent| - 1] == old(sent);
      assert buf[..len] == prefix;
    }

    /** The loop body of list_monitor: send what is there if the name does not fit, then append it. */
    method Add(name: string)
      requires Valid() && Listable(name) && mlen + |name| + 1 < IRCD_BUFSIZE - 3 && (packed == [] ==> sent == [])
      modifies this`len, this`sent, this`packed, buf
      ensures Valid() && packed != [] && Added() == old(Added()) + [name]
    {
      if len + |name| + 1 >= IRCD_BUFSIZE - 3 {
        Send();
      }
      ghost var before := packed;
      Append(name);
      assert AllNames(sent, mlen) + (before + [name]) == AllNames(sent, mlen) + before + [name];
    }

    method Append(name: string)
      requires Valid() && Listable(name) && len + |name| + 1 < IRCD_BUFSIZE - 3
      requires sent != [] && packed == [] ==> |sent[|sent| - 1]| + 1 + |name| >= 512 - 3
      modifies this`len, this`packed, buf
      ensures Valid() && packed == old(packed) + [name]
    {
      LineGrows(prefix, packed, name);
      if len != mlen {
        Copy([COMMA]);
      }
      Copy(name);
      packed := packed + [name];
    }

    /** sprintf(nbuf, "%s", name) */
    method Copy(name: string)
      requires buf.Length == IRCD_BUFSIZE && len + |name| < IRCD_BUFSIZE
      modifies this`len, buf
      ensures len == old(len) + |name| && buf[..len] == old(buf[..len]) + name
    {
      ghost var was := buf[..len];
      forall i | 0 <= i < |name| {
        buf[len + i] := name[i];
      }
      buf[len + |name|] := EOS;
      len := len + |name|;
      assert buf[..len] == was + name;
    }
  }

  lemma LineGrows(prefix: string, packed: seq<string>, name: string)
    ensures prefix + Join(packed + [name], COMMA) ==
            (if packed == [] then prefix + Join(packed, COMMA) else prefix + Join(packed, COMMA) + [COMMA]) + name
  {
    JoinLast(packed, name, COMMA);
    var j := Join(packed, COMMA);
    assert prefix + (j + [COMMA] + name) == prefix + j + [COMMA] + name;
  }

  lemma LineNames(prefix: string, names: seq<string>, line: string)
    requires line == prefix + Join(names, COMMA) && names != [] && |line| < IRCD_BUFSIZE
    requires forall i :: 0 <= i < |names| ==> Listable(names[i])
    ensures GoodLine(line, prefix) && NamesOf(line, |prefix|) == names
  {
    assert line[|prefix|..] == Join(names, COMMA);
    SplitOfJoin(names, COMMA);
  }

  function Prefix(server: string, numeric: string, nick: string): string {
    ":" + server + " " + numeric + " " + nick + " :"
  }

  lemma PrefixExactly(server: string, nick: string)
    ensures Prefix(server, "730", nick) == ":" + server + " 730 " + nick + " :"
    ensures Prefix(server, "731", nick) == ":" + server + " 731 " + nick + " :"
    ensures Prefix(server, "732", nick) == ":" + server + " 732 " + nick + " :"
  {
    NumericText(":" + server, "730");
    NumericText(":" + server, "731");
    NumericText(":" + server, "732");
    assert " " + "730" + " " == " 730 " && " " + "731" + " " == " 731 " && " " + "732" + " " == " 732 ";
  }

  lemma NumericText(start: string, numeric: string)
    ensures start + " " + numeric + " " == start + (" " + numeric + " ")
  {
  }

  /** list_monitor: for every list the lines sent fit, carry at least one name each, and give the
      list back in order when split at the commas. */
  method ListMonitor(server: string, nick: string, names: seq<string>) returns (lines: seq<string>)
    requires |server| <= HOSTLEN && |nick| <= NICKLEN
    requires forall i :: 0 <= i < |names| ==> Listable(names[i]) && |names[i]| <= NICKLEN
    ensures GoodLines(lines, Prefix(server, "732", nick))
    ensures AllNames(lines, |Prefix(server, "732", nick)|) == names
    ensures Tight(lines, Prefix(server, "732", nick))
  {
    lines := [];
    if names == [] {
      return;
    }
    var out := new LineBuffer(Prefix(server, "732", nick));
    PackNames(names, out);
    out.Send();
    lines := out.sent;
  }

  /** The loop of list_monitor */
  method PackNames(names: seq<string>, out: LineBuffer)
    requires out.Valid() && out.Added() == [] && out.sent == [] && out.mlen <= 101 && names != []
    requires forall i :: 0 <= i < |names| ==> Listable(names[i]) && |names[i]| <= NICKLEN
    modifies out, out.buf
    ensures out.Valid() && out.Added() == names && out.packed != []
  {
    for i := 0 to |names|
      invariant out.Valid() && out.Added() == names[..i]
      invariant if i > 0 then out.packed != [] else out.sent == []
    {
      out.Add(names[i]);
      assert names[..i + 1] == names[..i] + [names[i]];
    }
    assert names[..|names|] == names;
  }

  /** A client found under a monitored name. */
  datatype Target = Target(name: string, user: string, host: string)

  function Shown(t: Target): string {
    t.name + "!" + t.user + "@" + t.host
  }

  ghost predicate Known(t: Target) {
    && |t.name| <= NICKLEN && |t.user| <= USERLEN && |t.host| <= HOSTLEN
    && COMMA !in t.name && COMMA !in t.user && COMMA !in t.host
  }

  ghost function Online(names: seq<string>, find: string -> Option<Target>): seq<string> {
    if names == [] then []
    else Online(names[..|names| - 1], find) +
         match find(names[|names| - 1]) case Some(t) => [Shown(t)] case None => []
  }

  ghost function Offline(names: seq<string>, find: string -> Option<Target>): seq<string> {
    if names == [] then []
    else Offline(names[..|names| - 1], find) +
         if find(names[|names| - 1]).None? then [names[|names| - 1]] else []
  }

  /** The names on line, in order, each as name!user@host. */
  lemma {:induction false} OnlineExactly(a: seq<string>, b: seq<string>, find: string -> Option<Target>)
    ensures Online(a + b, find) == Online(a, find) + Online(b, find)
    ensures |b| == 1 ==>
              Online(b, find) == match find(b[0])
                case Some(t) => [t.name + "!" + t.user + "@" + t.host]
                case None => []
  {
    if b == [] {
      assert a + b == a;
    } else {
      OnlineExactly(a, b[..|b| - 1], find);
      LastOfConcat(a, b);
      var last := match find(b[|b| - 1]) case Some(t) => [Shown(t)] case None => [];
      Regroup(Online(a, find), Online(b[..|b| - 1], find), last);
    }
  }

  /** The names off line, in order. */
  lemma {:induction false} OfflineExactly(a: seq<string>, b: seq<string>, find: string -> Option<Target>)
    ensures Offline(a + b, find) == Offline(a, find) + Offline(b, find)
    ensures |b| == 1 ==> Offline(b, find) == if find(b[0]).Some? then [] else [b[0]]
  {
    if b == [] {
      assert a + b == a;
    } else {
      OfflineExactly(a, b[..|b| - 1], find);
      LastOfConcat(a, b);
      var last := if find(b[|b| - 1]).None? then [b[|b| - 1]] else [];
      Regroup(Offline(a, find), Offline(b[..|b| - 1], find), last);
    }
  }

  lemma LastOfConcat(a: seq<string>, b: seq<string>)
    requires b != []
    ensures (a + b)[..|a + b| - 1] == a + b[..|b| - 1] && (a + b)[|a + b| - 1] == b[|b| - 1]
  {
  }

  /** Send what is left, if anything. */
  method Flush(out: LineBuffer) returns (lines: seq<string>)
    requires out.Valid()
    modifies out
    ensures GoodLines(lines, out.prefix) && Tight(lines, out.prefix)
    ensures AllNames(lines, |out.prefix|) == old(out.Added())
  {
    if out.len != out.mlen {
      out.Send();
    }
    lines := out.sent;
  }

  /** The loop body of show_monitor_status */
  method AddStatus(name: string, target: Option<Target>, onbuf: LineBuffer, offbuf: LineBuffer)
    requires onbuf.Valid() && offbuf.Valid() && onbuf != offbuf && onbuf.buf != offbuf.buf
    requires onbuf.mlen <= 101 && offbuf.mlen <= 101
    requires Listable(name) && |name| <= NICKLEN && (target.Some? ==> Known(target.value))
    requires (onbuf.packed == [] ==> onbuf.sent == []) && (offbuf.packed == [] ==> offbuf.sent == [])
    modifies onbuf, onbuf.buf, offbuf, offbuf.buf
    ensures onbuf.Valid() && offbuf.Valid()
    ensures (onbuf.packed == [] ==> onbuf.sent == []) && (offbuf.packed == [] ==> offbuf.sent == [])
    ensures onbuf.Added() == old(onbuf.Added()) + match target case Some(t) => [Shown(t)] case None => []
    ensures offbuf.Added() == old(offbuf.Added()) + if target.None? then [name] else []
  {
    if target.Some? {
      onbuf.Add(Shown(target.value));
    } else {
      offbuf.Add(name);
    }
  }

  /** The loop of show_monitor_status */
  method PackStatus(names: seq<string>, find: string -> Option<Target>, onbuf: LineBuffer, offbuf: LineBuffer)
    requires onbuf.Valid() && offbuf.Valid() && onbuf != offbuf && onbuf.buf != offbuf.buf
    requires onbuf.mlen <= 101 && offbuf.mlen <= 101 && onbuf.Added() == offbuf.Added() == []
    requires onbuf.sent == offbuf.sent == []
    requires forall i :: 0 <= i < |names| ==> Listable(names[i]) && |names[i]| <= NICKLEN
    requires forall i :: 0 <= i < |names| && find(names[i]).Some? ==> Known(find(names[i]).value)
    modifies onbuf, onbuf.buf, offbuf, offbuf.buf
    ensures onbuf.Valid() && offbuf.Valid()
    ensures onbuf.Added() == Online(names, find) && offbuf.Added() == Offline(names, find)
  {
    for i := 0 to |names|
      invariant onbuf.Valid() && offbuf.Valid()
      invariant (onbuf.packed == [] ==> onbuf.sent == []) && (offbuf.packed == [] ==> offbuf.sent == [])
      invariant onbuf.Added() == Online(names[..i], find) && offbuf.Added() == Offline(names[..i], find)
    {
      assert names[..i + 1][..i] == names[..i];
      AddStatus(names[i], find(names[i]), onbuf, offbuf);
    }
    assert names[..|names|] == names;
  }

  /** show_monitor_status: the same, separately for the names that are on line and those that are not. */
  method ShowMonitorStatus(server: string, nick: string, names: seq<string>, find: string -> Option<Target>)
    returns (on: seq<string>, off: seq<string>)
    requires |server| <= HOSTLEN && |nick| <= NICKLEN
    requires forall i :: 0 <= i < |names| ==> Listable(names[i]) && |names[i]| <= NICKLEN
    requires forall i :: 0 <= i < |names| && find(names[i]).Some? ==> Known(find(names[i]).value)
    ensures GoodLines(on, Prefix(server, "730", nick)) && GoodLines(off, Prefix(server, "731", nick))
    ensures AllNames(on, |Prefix(server, "730", nick)|) == Online(names, find)
    ensures AllNames(off, |Prefix(server, "731", nick)|) == Offline(names, find)
    ensures Tight(on, Prefix(server, "730", nick)) && Tight(off, Prefix(server, "731", nick))
  {
    var onbuf := new LineBuffer(Prefix(server, "730", nick));
    var offbuf := new LineBuffer(Prefix(server, "731", nick));
    PackStatus(names, find, onbuf, offbuf);
    on := Flush(onbuf);
    off := Flush(offbuf);
  }
}
