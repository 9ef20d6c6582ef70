/** The sniffing listener (modules/listener/listener.go): it reads a trojan header byte by byte, and hands
    the connection on, with those bytes replayed, unless it is one. */
module Sniff {
  import opened Prelude
  import opened Streams
  import opened Replay

  const SNIFF_LEN := 58
  const LF: byte := 10
  const CR: byte := 13

  /** How the byte loop ends: with bytes to be replayed, at the end of the connection, or with a full
      buffer. `rest` is what the connection has left, `padding` counts reads that gave nothing. */
  datatype Sniffed =
    | Rewind(buf: seq<byte>, rest: seq<Chunk>, padding: nat)
    | Ended
    | Full(buf: seq<byte>, rest: seq<Chunk>, padding: nat)

  /** The loop, with `got` in the buffer. A read without bytes or error still moves on to the next place,
      leaving the zero that is there. */
  function SniffFrom(script: seq<Chunk>, fin: Error, got: seq<byte>, padding: nat): (r: Sniffed)
    requires |got| <= SNIFF_LEN
    ensures !r.Ended? ==> |r.buf| <= SNIFF_LEN
    ensures r.Full? ==> |r.buf| == SNIFF_LEN
    decreases SNIFF_LEN - |got|
  {
    if |got| == SNIFF_LEN then Full(got, script, padding)
    else
      var o := ReadStep(script, fin, 1);
      if o.err.Some? then
        if o.err.value.EOF? then Ended else Rewind(got + o.data, o.rest, padding)
      else if o.data == [] then SniffFrom(o.rest, fin, got + [0], padding + 1)
      else if o.data[0] == LF && |got| < HEADER_LEN + 1 then Rewind(got + o.data, o.rest, padding)
      else SniffFrom(o.rest, fin, got + o.data, padding)
  }

  /** What becomes of an accepted connection. */
  datatype Fate =
    | Tunnelled(key: seq<byte>, tunnel: seq<Chunk>)
    | HandedOn(conn: Rewound)
    | Closed

  /** The key of a full buffer that ends as a header must. */
  predicate IsHeader(buf: seq<byte>) {
    |buf| == SNIFF_LEN && buf[HEADER_LEN] == CR && buf[HEADER_LEN + 1] == LF
  }

  function FateOf(r: Sniffed, validate: seq<byte> -> bool, listenerClosed: bool): Fate
    requires r.Full? ==> |r.buf| == SNIFF_LEN
  {
    match r
    case Ended => Closed
    case Rewind(buf, rest, _) => if listenerClosed then Closed else HandedOn(Rewound(buf, 0, rest))
    case Full(buf, rest, _) =>
      if IsHeader(buf) && validate(buf[..HEADER_LEN]) then Tunnelled(buf[..HEADER_LEN], rest)
      else if listenerClosed then Closed
      else HandedOn(Rewound(buf, 0, rest))
  }

  // ---------------------------------------------------------------- transparency

  lemma {:induction false} SniffConserves(script: seq<Chunk>, fin: Error, got: seq<byte>, padding: nat)
    requires |got| <= SNIFF_LEN
    ensures var r := SniffFrom(script, fin, got, padding);
      !r.Ended? ==>
        && r.padding >= padding
        && |r.buf| + |Bytes(r.rest)| == |got| + |Bytes(script)| + (r.padding - padding)
        && (r.padding == padding ==> r.buf + Bytes(r.rest) == got + Bytes(script))
    decreases SNIFF_LEN - |got|
  {
    if |got| < SNIFF_LEN {
      var o := ReadStep(script, fin, 1);
      ReadStepBytes(script, fin, 1);
      assert got + (o.data + Bytes(o.rest)) == (got + o.data) + Bytes(o.rest);
      if o.err.None? {
        if o.data == [] {
          SniffConserves(o.rest, fin, got + [0], padding + 1);
        } else if !(o.data[0] == LF && |got| < HEADER_LEN + 1) {
          SniffConserves(o.rest, fin, got + o.data, padding);
        }
      }
    }
  }

  /** The sniffer, with n bytes behind it, reads s to its end and would go on. */
  predicate ReadsThrough(s: seq<byte>, n: nat) {
    n + |s| < SNIFF_LEN && forall i :: 0 <= i < |s| && n + i < HEADER_LEN + 1 ==> s[i] != LF
  }

  /** The p-th read of a connection gives nothing, and all before it give bytes the sniffer reads through. */
  predicate EmptyAt(script: seq<Chunk>, n: nat, p: nat) {
    && p < |script| && script[p] == Chunk([], None)
    && (forall i :: 0 <= i < p ==> script[i].data != [] && script[i].err.None?)
    && ReadsThrough(Bytes(script[..p]), n)
  }

  /** The connections on which the sniffer meets a read without bytes or error. */
  predicate PlantsZero(script: seq<Chunk>) {
    exists p :: 0 <= p < |script| && EmptyAt(script, 0, p)
  }

  /** The same, chunk by chunk. */
  predicate PlantsFrom(script: seq<Chunk>, n: nat)
    decreases |script|
  {
    && n < SNIFF_LEN && script != [] && script[0].err.None?
    && (script[0].data == [] || (ReadsThrough(script[0].data, n) && PlantsFrom(script[1..], n + |script[0].data|)))
  }

  lemma ReadsThroughAppend(s: seq<byte>, t: seq<byte>, n: nat)
    ensures ReadsThrough(s + t, n) <==> ReadsThrough(s, n) && ReadsThrough(t, n + |s|)
  {
    if ReadsThrough(s + t, n) {
      assert forall i :: 0 <= i < |s| ==> s[i] == (s + t)[i];
      assert forall i :: 0 <= i < |t| ==> t[i] == (s + t)[|s| + i];
    }
  }

  lemma EmptyAtTail(script: seq<Chunk>, n: nat, p: nat)
    requires script != [] && p > 0
    ensures EmptyAt(script, n, p) <==>
      script[0].data != [] && script[0].err.None? && ReadsThrough(script[0].data, n)
      && EmptyAt(script[1..], n + |script[0].data|, p - 1)
  {
    var head, rest := script[0].data, script[1..];
    if p < |script| {
      assert script[..p][0] == script[0] && script[..p][1..] == rest[..p - 1];
      assert Bytes(script[..p]) == head + Bytes(rest[..p - 1]);
      ReadsThroughAppend(head, Bytes(rest[..p - 1]), n);
      assert forall i :: 0 < i < p ==> script[i] == rest[i - 1];
      assert forall i :: 0 <= i < p - 1 ==> rest[i] == script[i + 1];
    }
  }

  lemma {:induction false} PlantsFromExactly(script: seq<Chunk>, n: nat)
    ensures PlantsFrom(script, n) <==> exists p: nat :: EmptyAt(script, n, p)
    decreases |script|
  {
    if script != [] {
      var m := n + |script[0].data|;
      PlantsFromExactly(script[1..], m);
      if PlantsFrom(script, n) {
        if script[0].data == [] {
          assert Bytes(script[..0]) == [];
          assert EmptyAt(script, n, 0);
        } else {
          var p: nat :| EmptyAt(script[1..], m, p);
          EmptyAtTail(script, n, p + 1);
        }
      }
      if p: nat :| EmptyAt(script, n, p) {
        if p > 0 {
          EmptyAtTail(script, n, p);
        } else {
          assert Bytes(script[..0]) == [];
        }
      }
    }
  }

  /** One read of one byte, seen from PlantsFrom. */
  lemma PlantsStep(script: seq<Chunk>, fin: Error, n: nat)
    requires n < SNIFF_LEN
    ensures var o := ReadStep(script, fin, 1);
      PlantsFrom(script, n) <==>
        o.err.None? && (o.data == [] || (!(o.data[0] == LF && n < HEADER_LEN + 1) && PlantsFrom(o.rest, n + 1)))
  {
    if script != [] && |script[0].data| > 1 {
      var data, tail := script[0].data, script[0].data[1..];
      var rest := [script[0].(data := tail)] + script[1..];
      assert rest[1..] == script[1..];
      assert data == data[..1] + tail;
      ReadsThroughAppend(data[..1], tail, n);
      assert n + 1 == SNIFF_LEN ==> !ReadsThrough(tail, n + 1);
    }
  }

  /** The padding the loop returns is there just when its input says so. */
  lemma {:induction false} PadsExactly(script: seq<Chunk>, fin: Error, got: seq<byte>, padding: nat)
    requires |got| <= SNIFF_LEN
    ensures var r := SniffFrom(script, fin, got, padding);
      !r.Ended? ==> (r.padding > padding <==> PlantsFrom(script, |got|))
    decreases SNIFF_LEN - |got|
  {
    if |got| < SNIFF_LEN {
      var o := ReadStep(script, fin, 1);
      PlantsStep(script, fin, |got|);
      if o.err.None? {
        if o.data == [] {
          SniffConserves(o.rest, fin, got + [0], padding + 1);
        } else if !(o.data[0] == LF && |got| < HEADER_LEN + 1) {
          PadsExactly(o.rest, fin, got + o.data, padding);
        }
      }
    }
  }

  /** A connection that is handed on owes its reader the original stream, from byte 0, exactly when the
      sniffer met no read without bytes or error on it. */
  lemma HandedOnExactly(script: seq<Chunk>, fin: Error, validate: seq<byte> -> bool, listenerClosed: bool)
    ensures var fate := FateOf(SniffFrom(script, fin, [], 0), validate, listenerClosed);
      fate.HandedOn? ==> (Owed(fate.conn) == Bytes(script) <==> !PlantsZero(script))
  {
    SniffConserves(script, fin, [], 0);
    PadsExactly(script, fin, [], 0);
    PlantsFromExactly(script, 0);
    var r := SniffFrom(script, fin, [], 0);
    if !r.Ended? {
      assert r.buf[0..] == r.buf;
      assert [] + Bytes(script) == Bytes(script);
    }
  }

  /** The zero shows: after one empty read and a line feed, the replay begins with a byte nobody sent. */
  lemma ZeroPlanted(fin: Error, validate: seq<byte> -> bool)
    ensures var script := [Chunk([], None), Chunk([LF], None)];
      var fate := FateOf(SniffFrom(script, fin, [], 0), validate, false);
      && PlantsZero(script) && Bytes(script) == [LF]
      && fate == HandedOn(Rewound([0, LF], 0, []))
  {
    var script := [Chunk([], None), Chunk([LF], None)];
    var rest := [Chunk([LF], None)];
    assert script[1..] == rest && rest[1..] == [];
    assert Bytes(rest) == [LF] + Bytes([]);
    assert EmptyAt(script, 0, 0);
    assert SniffFrom(rest, fin, [0], 1) == Rewind([0] + [LF], [], 1);
    assert [] + [0] == [0 as byte];
    assert SniffFrom(script, fin, [], 0) == SniffFrom(rest, fin, [] + [0], 1);
  }

  /** Sniffing is transparent: the reader of a connection that is handed on gets the client's bytes from
      the first one, for every sequence of read sizes. */
  lemma SniffTransparent(script: seq<Chunk>, fin: Error, validate: seq<byte> -> bool, listenerClosed: bool, sizes: seq<nat>)
    requires !PlantsZero(script)
    ensures var fate := FateOf(SniffFrom(script, fin, [], 0), validate, listenerClosed);
      fate.HandedOn? ==> Sound(fate.conn) && IsPrefix(ReadAll(fate.conn, fin, sizes).0, Bytes(script))
  {
    HandedOnExactly(script, fin, validate, listenerClosed);
    var fate := FateOf(SniffFrom(script, fin, [], 0), validate, listenerClosed);
    if fate.HandedOn? {
      assert fate.conn.buf[0..] == fate.conn.buf;
      RewindTransparent(fate.conn.buf, fate.conn.under, fin, sizes);
    }
  }

  // ---------------------------------------------------------------- which fate

  /** The first line feed among the first 57 bytes. */
  function FirstLF(s: seq<byte>, from: nat): (r: Option<nat>)
    requires from <= HEADER_LEN + 1
    ensures r.Some? ==> from <= r.value < |s| && r.value <= HEADER_LEN && s[r.value] == LF
    ensures forall i :: from <= i < |s| && i <= HEADER_LEN && (r.None? || i < r.value) ==> s[i] != LF
    decreases HEADER_LEN + 1 - from
  {
    if from >= |s| || from == HEADER_LEN + 1 then None
    else if s[from] == LF then Some(from)
    else FirstLF(s, from + 1)
  }

  /** The bytes that one-byte reads get without an error: a byte that comes with one ends the sniffing. */
  function Clean(script: seq<Chunk>): seq<byte> {
    if script == [] then []
    else if script[0].err.None? then script[0].data + Clean(script[1..])
    else if script[0].data == [] then []
    else script[0].data[..|script[0].data| - 1]
  }

  /** What the read that fails brings besides its error: nothing, or the last byte. */
  function LastByte(script: seq<Chunk>): seq<byte> {
    if script == [] then []
    else if script[0].err.None? then LastByte(script[1..])
    else if script[0].data == [] then []
    else script[0].data[|script[0].data| - 1..]
  }

  /** What the loop makes of a connection that delivers s without an error, then fails with e, which comes
      with the bytes `last`: chunks play no part. */
  predicate Decided(r: Sniffed, s: seq<byte>, last: seq<byte>, e: Error, from: nat)
    requires from <= SNIFF_LEN
  {
    var lf := FirstLF(s, if from <= HEADER_LEN + 1 then from else HEADER_LEN + 1);
    if lf.Some? then r.Rewind? && r.buf == s[..lf.value + 1]
    else if |s| < SNIFF_LEN then (if e.EOF? then r.Ended? else r.Rewind? && r.buf == s + last)
    else r.Full? && r.buf == s[..SNIFF_LEN] && Clean(r.rest) == s[SNIFF_LEN..]
  }

  /** One read of one byte: the next byte the connection delivers, or its failure. */
  lemma OneRead(script: seq<Chunk>, fin: Error)
    requires !PlantsFrom(script, 0) || (script != [] && script[0].data != [])
    ensures var o := ReadStep(script, fin, 1);
      && (o.err.None? ==>
            && |o.data| == 1 && Clean(script) == o.data + Clean(o.rest)
            && LastByte(o.rest) == LastByte(script) && FirstErr(o.rest, fin) == FirstErr(script, fin))
      && (o.err.Some? ==> Clean(script) == [] && o.data == LastByte(script) && o.err.value == FirstErr(script, fin))
  {
    if script != [] && |script[0].data| > 1 {
      var data, tail := script[0].data, script[0].data[1..];
      var rest := [script[0].(data := tail)] + script[1..];
      assert rest[1..] == script[1..] && data == data[..1] + tail;
      if script[0].err.Some? {
        assert data[..|data| - 1] == data[..1] + tail[..|tail| - 1];
        assert data[|data| - 1..] == tail[|tail| - 1..];
      } else {
        assert data[..1] + (tail + Clean(script[1..])) == data + Clean(script[1..]);
      }
    }
  }

  /** A byte that does not stop the loop leaves its outcome to the bytes after it. */
  lemma DecidedStep(r: Sniffed, s: seq<byte>, last: seq<byte>, e: Error, from: nat)
    requires from < SNIFF_LEN && from < |s| && !(s[from] == LF && from < HEADER_LEN + 1)
    requires Decided(r, s, last, e, from + 1)
    ensures Decided(r, s, last, e, from)
  {
  }

  /** The three ways to stop: a full buffer, an early line feed, a failed read. */
  lemma DecidedStop(r: Sniffed, s: seq<byte>, last: seq<byte>, e: Error, from: nat)
    requires from <= SNIFF_LEN && from <= |s|
    requires
      || (from == SNIFF_LEN && r.Full? && r.buf + Clean(r.rest) == s && |r.buf| == from)
      || (from < HEADER_LEN + 1 && from < |s| && s[from] == LF && r.Rewind? && r.buf == s[..from + 1])
      || (from < SNIFF_LEN && from == |s| && if e.EOF? then r.Ended? else r.Rewind? && r.buf == s + last)
    ensures Decided(r, s, last, e, from)
  {
    if from == SNIFF_LEN && r.Full? {
      assert r.buf == s[..SNIFF_LEN] && Clean(r.rest) == s[SNIFF_LEN..];
    }
  }

  lemma FailedReadDecides(script: seq<Chunk>, fin: Error, got: seq<byte>)
    requires |got| < SNIFF_LEN && !PlantsFrom(script, |got|)
    requires ReadStep(script, fin, 1).err.Some?
    ensures Decided(SniffFrom(script, fin, got, 0), got + Clean(script), LastByte(script), FirstErr(script, fin), |got|)
  {
    OneRead(script, fin);
    SniffFails(script, fin, got);
    assert got + Clean(script) == got;
    var o := ReadStep(script, fin, 1);
    var r := if o.err.value.EOF? then Ended else Rewind(got + o.data, o.rest, 0);
    DecidedStop(r, got, LastByte(script), FirstErr(script, fin), |got|);
  }

  /** A step of the loop that fails. */
  lemma SniffFails(script: seq<Chunk>, fin: Error, got: seq<byte>)
    requires |got| < SNIFF_LEN && ReadStep(script, fin, 1).err.Some?
    ensures var o := ReadStep(script, fin, 1);
      SniffFrom(script, fin, got, 0) == if o.err.value.EOF? then Ended else Rewind(got + o.data, o.rest, 0)
  {
  }

  /** A step of the loop that brings a byte. */
  lemma SniffByte(script: seq<Chunk>, fin: Error, got: seq<byte>)
    requires |got| < SNIFF_LEN
    requires ReadStep(script, fin, 1).err.None? && |ReadStep(script, fin, 1).data| == 1
    ensures var o := ReadStep(script, fin, 1);
      SniffFrom(script, fin, got, 0) ==
        if o.data[0] == LF && |got| < HEADER_LEN + 1 then Rewind(got + o.data, o.rest, 0)
        else SniffFrom(o.rest, fin, got + o.data, 0)
  {
  }

  lemma ByteReadDecides(script: seq<Chunk>, fin: Error, got: seq<byte>, s: seq<byte>, last: seq<byte>, e: Error)
    requires |got| < SNIFF_LEN
    requires var o := ReadStep(script, fin, 1);
      && o.err.None? && |o.data| == 1 && |s| > |got| && s[..|got| + 1] == got + o.data
      && (!(o.data[0] == LF && |got| < HEADER_LEN + 1) ==>
            Decided(SniffFrom(o.rest, fin, got + o.data, 0), s, last, e, |got| + 1))
    ensures Decided(SniffFrom(script, fin, got, 0), s, last, e, |got|)
  {
    var o := ReadStep(script, fin, 1);
    var from := |got|;
    SniffByte(script, fin, got);
    assert s[from] == s[..from + 1][from] == o.data[0];
    if s[from] == LF && from < HEADER_LEN + 1 {
      DecidedStop(Rewind(got + o.data, o.rest, 0), s, last, e, from);
    } else {
      DecidedStep(SniffFrom(o.rest, fin, got + o.data, 0), s, last, e, from);
    }
  }

  lemma {:induction false} SniffDecides(script: seq<Chunk>, fin: Error, got: seq<byte>, s: seq<byte>, last: seq<byte>, e: Error)
    requires |got| <= SNIFF_LEN && !PlantsFrom(script, |got|)
    requires s == got + Clean(script) && last == LastByte(script) && e == FirstErr(script, fin)
    ensures Decided(SniffFrom(script, fin, got, 0), s, last, e, |got|)
    decreases SNIFF_LEN - |got|
  {
    if |got| == SNIFF_LEN {
      DecidedStop(SniffFrom(script, fin, got, 0), s, last, e, |got|);
    } else {
      var o := ReadStep(script, fin, 1);
      if o.err.Some? {
        FailedReadDecides(script, fin, got);
      } else {
        PlantsStep(script, fin, |got|);
        OneRead(script, fin);
        assert s == (got + o.data) + Clean(o.rest);
        assert s[..|got| + 1] == got + o.data;
        if !(o.data[0] == LF && |got| < HEADER_LEN + 1) {
          SniffDecides(o.rest, fin, got + o.data, s, last, e);
        }
        ByteReadDecides(script, fin, got, s, last, e);
      }
    }
  }

  /** The first 58 bytes are a header line: no early line feed, CRLF, a key that validates. */
  predicate Qualifies(s: seq<byte>, validate: seq<byte> -> bool) {
    && |s| >= 58
    && NoEarlyLF(s)
    && s[56] == 13 && s[57] == 10
    && validate(s[..56])
  }

  /** No line feed where the sniffer looks for one. */
  predicate NoEarlyLF(s: seq<byte>) {
    forall i :: 0 <= i < |s| && i < 57 ==> s[i] != 10
  }

  lemma FateOfDecided(r: Sniffed, s: seq<byte>, last: seq<byte>, e: Error, validate: seq<byte> -> bool, listenerClosed: bool)
    requires r.Full? ==> |r.buf| == SNIFF_LEN
    requires Decided(r, s, last, e, 0)
    ensures FateOf(r, validate, listenerClosed).Tunnelled? <==> Qualifies(s, validate)
    ensures Qualifies(s, validate) ==> r.Full? && r.buf == s[..SNIFF_LEN] && r.buf[..HEADER_LEN] == s[..HEADER_LEN]
  {
    if |s| >= SNIFF_LEN {
      assert s[..SNIFF_LEN][..HEADER_LEN] == s[..HEADER_LEN];
    }
  }

  /** A connection is tunnelled exactly when its first 58 bytes come without an error, have no line feed
      before index 57, end in CRLF and carry a validated key; the tunnel then starts at byte 58. */
  lemma TunnelledExactly(script: seq<Chunk>, fin: Error, validate: seq<byte> -> bool, listenerClosed: bool)
    requires !PlantsZero(script)
    ensures var s := Clean(script);
      var fate := FateOf(SniffFrom(script, fin, [], 0), validate, listenerClosed);
      && (fate.Tunnelled? <==> Qualifies(s, validate))
      && (fate.Tunnelled? ==> fate.key == s[..HEADER_LEN] && s[..SNIFF_LEN] + Bytes(fate.tunnel) == Bytes(script))
  {
    DecidedFromStart(script, fin);
    var r := SniffFrom(script, fin, [], 0);
    FateOfDecided(r, Clean(script), LastByte(script), FirstErr(script, fin), validate, listenerClosed);
    BufferOwes(script, fin);
  }

  lemma DecidedFromStart(script: seq<Chunk>, fin: Error)
    requires !PlantsZero(script)
    ensures Decided(SniffFrom(script, fin, [], 0), Clean(script), LastByte(script), FirstErr(script, fin), 0)
  {
    assert Clean(script) == [] + Clean(script);
    PlantsFromExactly(script, 0);
    SniffDecides(script, fin, [], Clean(script), LastByte(script), FirstErr(script, fin));
  }

  lemma BufferOwes(script: seq<Chunk>, fin: Error)
    requires !PlantsZero(script)
    ensures var r := SniffFrom(script, fin, [], 0); !r.Ended? ==> r.buf + Bytes(r.rest) == Bytes(script)
  {
    PlantsFromExactly(script, 0);
    SniffConserves(script, fin, [], 0);
    PadsExactly(script, fin, [], 0);
    assert [] + Bytes(script) == Bytes(script);
  }

  /** The connection comes to its end before the sniffer has seen enough. */
  predicate EndsTooSoon(script: seq<Chunk>, fin: Error) {
    |Clean(script)| < 58 && NoEarlyLF(Clean(script)) && FirstErr(script, fin) == EOF
  }

  /** Every connection meets one fate, and which one can be told from what it delivers: a header with a
      valid key is tunnelled; a connection that ends too soon is closed; any other is handed on, unless the
      listener has been closed meanwhile. */
  lemma FateExactly(script: seq<Chunk>, fin: Error, validate: seq<byte> -> bool, listenerClosed: bool)
    requires !PlantsZero(script)
    ensures var fate := FateOf(SniffFrom(script, fin, [], 0), validate, listenerClosed);
      var tunnel := Qualifies(Clean(script), validate);
      && (fate.Tunnelled? <==> tunnel)
      && (fate.HandedOn? <==> !listenerClosed && !tunnel && !EndsTooSoon(script, fin))
      && (fate.Closed? <==> !tunnel && (listenerClosed || EndsTooSoon(script, fin)))
      && (fate.HandedOn? ==> Owed(fate.conn) == Bytes(script))
  {
    DecidedFromStart(script, fin);
    var r := SniffFrom(script, fin, [], 0);
    FateOfDecided(r, Clean(script), LastByte(script), FirstErr(script, fin), validate, listenerClosed);
    EndedExactly(r, Clean(script), LastByte(script), FirstErr(script, fin));
    HandedOnExactly(script, fin, validate, listenerClosed);
  }

  lemma EndedExactly(r: Sniffed, s: seq<byte>, last: seq<byte>, e: Error)
    requires Decided(r, s, last, e, 0)
    ensures r.Ended? <==> |s| < SNIFF_LEN && NoEarlyLF(s) && e == EOF
  {
  }

  /** What a full buffer leaves of a connection that delivers `avail`. */
  lemma {:induction false} FullDelivers(script: seq<Chunk>, fin: Error, got: seq<byte>, avail: seq<byte>, e: Error)
    requires |got| <= SNIFF_LEN && !PlantsFrom(script, |got|) && Delivers(script, fin, avail, e)
    ensures var r := SniffFrom(script, fin, got, 0);
      r.Full? ==> |got| + |avail| >= SNIFF_LEN && Delivers(r.rest, fin, avail[SNIFF_LEN - |got|..], e)
    decreases SNIFF_LEN - |got|
  {
    if |got| < SNIFF_LEN {
      var o := ReadStep(script, fin, 1);
      if o.err.None? {
        ByteDelivers(script, fin, |got|, avail, e);
        if !(o.data[0] == LF && |got| < HEADER_LEN + 1) {
          var next := got + o.data;
          FullDelivers(o.rest, fin, next, avail[1..], e);
          SkipOne(avail, SNIFF_LEN - |got|);
        }
      }
    } else {
      assert avail[0..] == avail;
    }
  }

  lemma ByteDelivers(script: seq<Chunk>, fin: Error, n: nat, avail: seq<byte>, e: Error)
    requires n < SNIFF_LEN && !PlantsFrom(script, n) && Delivers(script, fin, avail, e)
    requires ReadStep(script, fin, 1).err.None?
    ensures var o := ReadStep(script, fin, 1);
      && |o.data| == 1 && |avail| >= 1 && Delivers(o.rest, fin, avail[1..], e)
      && (!(o.data[0] == LF && n < HEADER_LEN + 1) ==> !PlantsFrom(o.rest, n + 1))
  {
    PlantsStep(script, fin, n);
    OneRead(script, fin);
    ReadStepDelivers(script, fin, 1, avail, e);
  }

  lemma SkipOne(s: seq<byte>, n: nat)
    requires 1 <= n && |s| >= 1
    ensures n <= |s| ==> s[1..][n - 1..] == s[n..]
  {
  }

  // ---------------------------------------------------------------- the loop itself

  /** What the goroutine does to the connection besides reading. */
  datatype Deed = SetDeadline | ClearDeadline | Hand | Tunnel | Close

  /** Its deeds in order. The deferred ones come last: the deadline is cleared once more, even on a
      connection that now belongs to another. */
  function DeedsOf(r: Sniffed, fate: Fate): seq<Deed> {
    match fate
    case Tunnelled(_, _) => [SetDeadline, ClearDeadline, Tunnel, Close, ClearDeadline]
    case HandedOn(_) => [SetDeadline, ClearDeadline, Hand, ClearDeadline]
    case Closed => if r.Ended? then [SetDeadline, Close, ClearDeadline] else [SetDeadline, ClearDeadline, Close, ClearDeadline]
  }

  /** No connection changes hands with the sniffing deadline on it, and none keeps it; it changes hands at
      most once, as its fate says, and is closed unless it was handed on, after any tunnel. */
  predicate Proper(deeds: seq<Deed>, fate: Fate) {
    var n := |deeds|;
    && n > 0 && deeds[0] == SetDeadline && deeds[n - 1] == ClearDeadline
    && (forall i :: 0 < i < n ==> deeds[i] != SetDeadline)
    && (forall i :: 0 <= i < n && ChangesHands(deeds[i]) ==> i > 0 && deeds[i - 1] == ClearDeadline)
    && (forall i, j :: 0 <= i < n && 0 <= j < n && ChangesHands(deeds[i]) && ChangesHands(deeds[j]) ==> i == j)
    && (Hand in deeds <==> fate.HandedOn?) && (Tunnel in deeds <==> fate.Tunnelled?)
    && (Close in deeds <==> !fate.HandedOn?)
    && (forall i :: 0 <= i < n && deeds[i] == Close ==> i == n - 2)
  }

  predicate ChangesHands(d: Deed) {
    d.Hand? || d.Tunnel?
  }

  lemma DeadlineNeverHandedOn(r: Sniffed, fate: Fate)
    ensures Proper(DeedsOf(r, fate), fate)
  {
    var ds := DeedsOf(r, fate);
    assert fate.HandedOn? ==> ds[2] == Hand;
    assert fate.Tunnelled? ==> ds[2] == Tunnel && ds[3] == Close;
    assert fate.Closed? ==> ds[1] == Close || ds[2] == Close;
  }

  /** The goroutine for one accepted connection. */
  method Serve(c: Source, validate: seq<byte> -> bool, listenerClosed: bool) returns (fate: Fate, deeds: seq<Deed>)
    modifies c`script
    ensures var r := old(SniffFrom(c.script, c.fin, [], 0));
      fate == FateOf(r, validate, listenerClosed) && deeds == DeedsOf(r, fate)
    ensures Proper(deeds, fate)
    ensures fate.Tunnelled? ==> c.script == fate.tunnel
    ensures fate.HandedOn? ==> c.script == fate.conn.under
  {
    fate, deeds := SniffLoop(c, validate, listenerClosed);
    DeadlineNeverHandedOn(old(SniffFrom(c.script, c.fin, [], 0)), fate);
  }

  /** The loop and what follows it. */
  method SniffLoop(c: Source, validate: seq<byte> -> bool, listenerClosed: bool) returns (fate: Fate, deeds: seq<Deed>)
    modifies c`script
    ensures var r := old(SniffFrom(c.script, c.fin, [], 0));
      fate == FateOf(r, validate, listenerClosed) && deeds == DeedsOf(r, fate)
    ensures fate.Tunnelled? ==> c.script == fate.tunnel
    ensures fate.HandedOn? ==> c.script == fate.conn.under
  {
    var b := new byte[SNIFF_LEN](_ => 0);
    deeds := [SetDeadline];
    ghost var r := SniffFrom(c.script, c.fin, [], 0);
    ghost var padding := 0;
    var n := 0;
    while n < SNIFF_LEN
      invariant n <= SNIFF_LEN && deeds == [SetDeadline]
      invariant forall i :: n <= i < SNIFF_LEN ==> b[i] == 0
      invariant r == SniffFrom(c.script, c.fin, b[..n], padding)
    {
      ghost var got := b[..n];
      var nr, err := c.Read(b, n, n + 1);
      assert b[..n] == got && b[..n + nr] == got + b[n..n + nr];
      if err.Some? {
        if err == Some(EOF) {
          return Closed, deeds + [Close] + [ClearDeadline];
        }
        fate, deeds := HandOn(b, n + nr, c, listenerClosed, deeds);
        return fate, deeds + [ClearDeadline];
      }
      if nr == 0 {
        padding := padding + 1;
        assert b[..n + 1] == got + [0];
        n := n + 1;
        continue;
      }
      if b[n] == LF && n < HEADER_LEN + 1 {
        fate, deeds := HandOn(b, n + 1, c, listenerClosed, deeds);
        return fate, deeds + [ClearDeadline];
      }
      n := n + 1;
    }
    assert b[..n] == b[..];
    fate, deeds := Judge(b, c, validate, listenerClosed, deeds, padding);
  }

  /** What follows the loop. */
  method Judge(b: array<byte>, c: Source, validate: seq<byte> -> bool, listenerClosed: bool, deeds: seq<Deed>, ghost padding: nat)
    returns (fate: Fate, all: seq<Deed>)
    requires b.Length == SNIFF_LEN && deeds == [SetDeadline]
    ensures var r := Full(b[..], c.script, padding);
      fate == FateOf(r, validate, listenerClosed) && all == DeedsOf(r, fate)
  {
    assert b[..SNIFF_LEN] == b[..] && b[..][..HEADER_LEN] == b[..HEADER_LEN];
    if b[HEADER_LEN] != CR || b[HEADER_LEN + 1] != LF || !validate(b[..HEADER_LEN]) {
      fate, all := HandOn(b, SNIFF_LEN, c, listenerClosed, deeds);
      return fate, all + [ClearDeadline];
    }
    fate := Tunnelled(b[..HEADER_LEN], c.script);
    all := deeds + [ClearDeadline, Tunnel] + [Close, ClearDeadline];
  }

  /** The deadline cleared, the select between a closed listener and the queue of connections. */
  method HandOn(b: array<byte>, n: nat, c: Source, listenerClosed: bool, deeds: seq<Deed>) returns (fate: Fate, all: seq<Deed>)
    requires n <= b.Length
    ensures fate == if listenerClosed then Closed else HandedOn(Rewound(b[..n], 0, c.script))
    ensures all == deeds + [ClearDeadline, if listenerClosed then Close else Hand]
  {
    fate := if listenerClosed then Closed else HandedOn(Rewound(b[..n], 0, c.script));
    all := deeds + [ClearDeadline, if listenerClosed then Close else Hand];
  }
}
