/** Stream adapters: a connection that first replays bytes already read (pkgs/rawconn/conn.go) and a
    WebSocket connection read as a stream (pkgs/websocket/websocket.go). */
module Replay {
  import opened Prelude
  import opened Streams

  // ---------------------------------------------------------------- rawconn

  /** The bytes.Reader, with its buffer and position, and what the wrapped connection has still to give. */
  datatype Rewound = Rewound(buf: seq<byte>, pos: nat, under: seq<Chunk>)

  predicate Sound(c: Rewound) {
    c.pos <= |c.buf|
  }

  /** Everything the wrapper owes its reader: the rest of the replay, then the connection. */
  function Owed(c: Rewound): seq<byte>
    requires Sound(c)
  {
    c.buf[c.pos..] + Bytes(c.under)
  }

  datatype Got = Got(c: Rewound, data: seq<byte>, err: Option<Error>)

  /** One Read with room for `size` bytes. Size() is the size of the whole replay, so the first Read after
      its end resets the reader and returns no bytes and no error. */
  function ReadRewound(c: Rewound, fin: Error, size: nat): (g: Got)
    requires Sound(c)
    ensures Sound(g.c) && |g.data| <= size
  {
    if |c.buf| == 0 then
      var o := ReadStep(c.under, fin, size);
      Got(c.(under := o.rest), o.data, o.err)
    else if c.pos >= |c.buf| then
      Got(c.(buf := [], pos := 0), [], None)
    else
      var n := if size < |c.buf| - c.pos then size else |c.buf| - c.pos;
      Got(c.(pos := c.pos + n), c.buf[c.pos..c.pos + n], None)
  }

  /** Any sequence of reads, of any sizes, errors notwithstanding: the bytes obtained. */
  function ReadAll(c: Rewound, fin: Error, sizes: seq<nat>): (seq<byte>, Rewound)
    requires Sound(c)
    decreases |sizes|
  {
    if sizes == [] then ([], c)
    else
      var g := ReadRewound(c, fin, sizes[0]);
      var (later, end) := ReadAll(g.c, fin, sizes[1..]);
      (g.data + later, end)
  }

  lemma ReadOwes(c: Rewound, fin: Error, size: nat)
    requires Sound(c)
    ensures var g := ReadRewound(c, fin, size); g.data + Owed(g.c) == Owed(c)
  {
    if |c.buf| == 0 {
      ReadStepBytes(c.under, fin, size);
    } else if c.pos < |c.buf| {
      var g := ReadRewound(c, fin, size);
      assert c.buf[c.pos..] == g.data + c.buf[g.c.pos..];
    }
  }

  lemma {:induction false} ReadAllOwes(c: Rewound, fin: Error, sizes: seq<nat>)
    requires Sound(c)
    ensures var (got, end) := ReadAll(c, fin, sizes); Sound(end) && got + Owed(end) == Owed(c)
    decreases |sizes|
  {
    if sizes != [] {
      var g := ReadRewound(c, fin, sizes[0]);
      ReadOwes(c, fin, sizes[0]);
      ReadAllOwes(g.c, fin, sizes[1..]);
      var (later, end) := ReadAll(g.c, fin, sizes[1..]);
      assert g.data + (later + Owed(end)) == (g.data + later) + Owed(end);
    }
  }

  /** Replay is transparent: whatever the read sizes, the bytes obtained from the wrapper are, from byte 0
      and in order, the replayed bytes followed by those of the connection. */
  lemma RewindTransparent(replay: seq<byte>, under: seq<Chunk>, fin: Error, sizes: seq<nat>)
    ensures var (got, end) := ReadAll(Rewound(replay, 0, under), fin, sizes);
      IsPrefix(got, replay + Bytes(under))
  {
    var c := Rewound(replay, 0, under);
    ReadAllOwes(c, fin, sizes);
    var (got, end) := ReadAll(c, fin, sizes);
    assert c.buf[0..] == replay;
    PrefixOfAppend(got, got, Owed(end));
  }

  /** How many reads the wrapper can still answer without an error. */
  function Answers(c: Rewound): nat
    requires Sound(c)
  {
    |Owed(c)| + |c.under| + if |c.buf| > 0 then 1 else 0
  }

  lemma ReadProgresses(c: Rewound, fin: Error, size: nat)
    requires Sound(c) && size > 0
    ensures var g := ReadRewound(c, fin, size);
      g.err.None? || |c.under| > 0 ==> Answers(g.c) < Answers(c)
  {
    ReadOwes(c, fin, size);
  }

  /** And complete: enough reads with room for at least a byte bring everything. */
  lemma {:induction false} RewindComplete(c: Rewound, fin: Error, sizes: seq<nat>)
    requires Sound(c) && |sizes| >= Answers(c)
    requires forall i :: 0 <= i < |sizes| ==> sizes[i] > 0
    ensures ReadAll(c, fin, sizes).0 == Owed(c)
    decreases |sizes|
  {
    ReadAllOwes(c, fin, sizes);
    if sizes == [] {
      assert Owed(c) == [];
    } else {
      var g := ReadRewound(c, fin, sizes[0]);
      ReadOwes(c, fin, sizes[0]);
      ReadProgresses(c, fin, sizes[0]);
      RewindComplete(g.c, fin, sizes[1..]);
    }
  }

  /** Reads up to the first error, of any sizes: the bytes, and the error if there was one. */
  function ReadUntilErr(c: Rewound, fin: Error, sizes: seq<nat>): (seq<byte>, Option<Error>)
    requires Sound(c)
    decreases |sizes|
  {
    if sizes == [] then ([], None)
    else
      var g := ReadRewound(c, fin, sizes[0]);
      if g.err.Some? then (g.data, g.err)
      else
        var (later, err) := ReadUntilErr(g.c, fin, sizes[1..]);
        (g.data + later, err)
  }

  /** The end comes through as it is: the first error a reader of the wrapper meets is the connection's
      first, and by then the reader has the replay and every byte the connection gave before it. */
  lemma {:induction false} RewindEnds(c: Rewound, fin: Error, sizes: seq<nat>)
    requires Sound(c)
    ensures var (got, err) := ReadUntilErr(c, fin, sizes);
      var whole := c.buf[c.pos..] + Avail(c.under);
      if err.Some? then got == whole && err.value == FirstErr(c.under, fin) else IsPrefix(got, whole)
    decreases |sizes|
  {
    if sizes != [] {
      var g := ReadRewound(c, fin, sizes[0]);
      RewoundStep(c, fin, sizes[0]);
      if g.err.None? {
        RewindEnds(g.c, fin, sizes[1..]);
        var (later, err) := ReadUntilErr(g.c, fin, sizes[1..]);
        var rest := g.c.buf[g.c.pos..] + Avail(g.c.under);
        Regrouped(g.data, later, rest[|later|..]);
        assert later + rest[|later|..] == rest;
      }
    }
  }

  lemma RewoundStep(c: Rewound, fin: Error, size: nat)
    requires Sound(c)
    ensures var g := ReadRewound(c, fin, size);
      var whole := c.buf[c.pos..] + Avail(c.under);
      && (g.err.Some? ==> g.data == whole && g.err.value == FirstErr(c.under, fin))
      && (g.err.None? ==>
            whole == g.data + (g.c.buf[g.c.pos..] + Avail(g.c.under)) && FirstErr(g.c.under, fin) == FirstErr(c.under, fin))
  {
    ReadStepAvail(c.under, fin, size);
    var g := ReadRewound(c, fin, size);
    if |c.buf| == 0 {
      assert c.buf[c.pos..] == [] && g.c.buf[g.c.pos..] == [];
    } else if c.pos < |c.buf| {
      assert c.buf[c.pos..] == g.data + g.c.buf[g.c.pos..];
    }
  }

  /** The wrapper object. */
  class Conn {
    const nc: Source
    var buf: seq<byte>
    var pos: nat

    constructor (nc: Source, buf: seq<byte>)
      ensures this.nc == nc && View() == Rewound(buf, 0, nc.script)
    {
      this.nc, this.buf, pos := nc, buf, 0;
    }

    ghost function View(): Rewound
      reads this, nc
    {
      Rewound(buf, pos, nc.script)
    }

    method Read(b: array<byte>) returns (n: nat, err: Option<Error>)
      requires Sound(View())
      modifies this, nc`script, b
      ensures var g := ReadRewound(old(View()), nc.fin, b.Length);
        View() == g.c && n == |g.data| && err == g.err && b[..n] == g.data
      ensures forall i :: n <= i < b.Length ==> b[i] == old(b[i])
    {
      if |buf| == 0 {
        n, err := nc.Read(b, 0, b.Length);
        assert b[..n] == b[0..n];
        return;
      }
      err := None;
      if pos >= |buf| {
        buf, pos := [], 0;
        return 0, None;
      }
      n := if b.Length < |buf| - pos then b.Length else |buf| - pos;
      CopyInto(b, 0, buf[pos..pos + n]);
      assert b[..n] == b[0..n];
      pos := pos + n;
    }
  }

  // ---------------------------------------------------------------- websocket

  /** How the message stream ends: by a close frame, or with some other error. */
  datatype End = CloseFrame | Failure(e: Error)

  /** What the reader of the current message has still to give (None once NextReader has failed: the reader
      is nil then), and the messages to come. */
  datatype Messages = Messages(current: Option<seq<Chunk>>, next: seq<seq<Chunk>>)

  function Concat(ms: seq<seq<Chunk>>): seq<byte> {
    if ms == [] then [] else Bytes(ms[0]) + Concat(ms[1..])
  }

  function Unread(m: Messages): seq<byte> {
    Bytes(m.current.GetOr([])) + Concat(m.next)
  }

  datatype Taken = Taken(m: Messages, data: seq<byte>, err: Option<Error>)

  /** One Read with room for `size` bytes. Errors of a message's reader are dropped, and a read from it that
      gives no bytes ends the message. */
  function ReadMessages(m: Messages, end: End, size: nat): Taken {
    if m.current.None? then Taken(m, [], Some(Panic))
    else
      var o := ReadStep(m.current.value, EOF, size);
      if o.data != [] then Taken(m.(current := Some(o.rest)), o.data, None)
      else if m.next == [] then
        Taken(m.(current := None), [], Some(if end.CloseFrame? then EOF else end.e))
      else
        var p := ReadStep(m.next[0], EOF, size);
        Taken(Messages(Some(p.rest), m.next[1..]), p.data, None)
  }

  /** A read from a message's reader gives bytes. */
  predicate Gives(s: seq<Chunk>, size: nat) {
    size > 0 && s != [] && s[0].data != []
  }

  lemma GivesExactly(s: seq<Chunk>, size: nat)
    ensures ReadStep(s, EOF, size).data != [] <==> Gives(s, size)
  {
  }

  /** A read loses nothing exactly when it gets bytes from the current message or there are none left in
      it: a read into an empty slice, or an error without bytes, throws the rest of the message away. */
  lemma ReadMessagesExactly(m: Messages, end: End, size: nat)
    ensures var t := ReadMessages(m, end, size);
      var current := m.current.GetOr([]);
      t.data + Unread(t.m) == Unread(m) <==> Gives(current, size) || Bytes(current) == []
  {
    if m.current.Some? {
      var cur, later := m.current.value, Concat(m.next);
      GivesExactly(cur, size);
      ReadStepBytes(cur, EOF, size);
      var o := ReadStep(cur, EOF, size);
      if o.data != [] {
        assert o.data + (Bytes(o.rest) + later) == (o.data + Bytes(o.rest)) + later;
      } else if m.next != [] {
        ReadStepBytes(m.next[0], EOF, size);
        var p := ReadStep(m.next[0], EOF, size);
        assert p.data + (Bytes(p.rest) + Concat(m.next[1..])) == (p.data + Bytes(p.rest)) + Concat(m.next[1..]);
        assert later == Bytes(m.next[0]) + Concat(m.next[1..]);
        Dropped(Bytes(cur), later);
      } else {
        Dropped(Bytes(cur), later);
        assert [] + Unread(ReadMessages(m, end, size).m) == [];
      }
    }
  }

  lemma Dropped(s: seq<byte>, t: seq<byte>)
    ensures t == s + t <==> s == []
  {
    assert t == s + t ==> |t| == |s| + |t|;
  }

  function ReadAllMessages(m: Messages, end: End, sizes: seq<nat>): (seq<byte>, Messages)
    decreases |sizes|
  {
    if sizes == [] then ([], m)
    else
      var t := ReadMessages(m, end, sizes[0]);
      var (later, m') := ReadAllMessages(t.m, end, sizes[1..]);
      (t.data + later, m')
  }

  /** The reader of a message gives bytes until it has given all. */
  predicate Steady(s: seq<Chunk>) {
    forall i :: 0 <= i < |s| && s[i].data == [] ==> Bytes(s[i..]) == []
  }

  predicate AllSteady(m: Messages) {
    Steady(m.current.GetOr([])) && forall i :: 0 <= i < |m.next| ==> Steady(m.next[i])
  }

  lemma StepKeepsSteady(s: seq<Chunk>, size: nat)
    requires Steady(s)
    ensures Steady(ReadStep(s, EOF, size).rest)
  {
    if s != [] {
      var rest := ReadStep(s, EOF, size).rest;
      if |s[0].data| > size {
        forall i | 0 <= i < |rest| && rest[i].data == []
          ensures Bytes(rest[i..]) == []
        {
          assert i > 0 && rest[i] == s[i] && rest[i..] == s[i..];
        }
      } else {
        forall i | 0 <= i < |rest| && rest[i].data == []
          ensures Bytes(rest[i..]) == []
        {
          assert rest[i] == s[i + 1] && rest[i..] == s[i + 1..];
        }
      }
    }
  }

  /** The adapter turns messages into their concatenation, whatever the sizes of the reads. */
  lemma {:induction false} MessagesBecomeStream(m: Messages, end: End, sizes: seq<nat>)
    requires AllSteady(m) && forall i :: 0 <= i < |sizes| ==> sizes[i] > 0
    ensures var (got, m') := ReadAllMessages(m, end, sizes); got + Unread(m') == Unread(m)
    decreases |sizes|
  {
    if sizes != [] {
      var t := ReadMessages(m, end, sizes[0]);
      ReadMessagesExactly(m, end, sizes[0]);
      SteadyLosesNothing(m.current.GetOr([]), sizes[0]);
      ReadKeepsSteady(m, end, sizes[0]);
      MessagesBecomeStream(t.m, end, sizes[1..]);
      var (later, m') := ReadAllMessages(t.m, end, sizes[1..]);
      assert t.data + (later + Unread(m')) == (t.data + later) + Unread(m');
    }
  }

  lemma SteadyLosesNothing(s: seq<Chunk>, size: nat)
    requires Steady(s) && size > 0
    ensures Gives(s, size) || Bytes(s) == []
  {
    assert s[0..] == s;
  }

  lemma ReadKeepsSteady(m: Messages, end: End, size: nat)
    requires AllSteady(m)
    ensures AllSteady(ReadMessages(m, end, size).m)
  {
    StepKeepsSteady(m.current.GetOr([]), size);
    if m.next != [] {
      StepKeepsSteady(m.next[0], size);
    }
  }

  function ReadMessagesUntilErr(m: Messages, end: End, sizes: seq<nat>): (seq<byte>, Option<Error>)
    decreases |sizes|
  {
    if sizes == [] then ([], None)
    else
      var t := ReadMessages(m, end, sizes[0]);
      if t.err.Some? then (t.data, t.err)
      else
        var (later, err) := ReadMessagesUntilErr(t.m, end, sizes[1..]);
        (t.data + later, err)
  }

  /** How the stream of messages ends: the first error comes after all their bytes, end of file for a close
      frame and the connection's own error otherwise. */
  lemma {:induction false} MessagesEnd(m: Messages, end: End, sizes: seq<nat>)
    requires AllSteady(m) && m.current.Some? && forall i :: 0 <= i < |sizes| ==> sizes[i] > 0
    ensures var (got, err) := ReadMessagesUntilErr(m, end, sizes);
      && (err.Some? ==> got == Unread(m) && err.value == match end case CloseFrame => EOF case Failure(e) => e)
      && (err.None? ==> IsPrefix(got, Unread(m)))
    decreases |sizes|
  {
    if sizes != [] {
      var t := ReadMessages(m, end, sizes[0]);
      ReadMessagesExactly(m, end, sizes[0]);
      SteadyLosesNothing(m.current.GetOr([]), sizes[0]);
      ReadKeepsSteady(m, end, sizes[0]);
      if t.err.None? {
        MessagesEnd(t.m, end, sizes[1..]);
        var (later, err) := ReadMessagesUntilErr(t.m, end, sizes[1..]);
        var rest := Unread(t.m);
        assert later + rest[|later|..] == rest;
        Regrouped(t.data, later, rest[|later|..]);
      } else {
        NothingUnread(m, end, sizes[0]);
      }
    }
  }

  /** An error means that there is nothing left, and that the next read is one of a nil reader. */
  lemma NothingUnread(m: Messages, end: End, size: nat)
    requires m.current.Some? && ReadMessages(m, end, size).err.Some?
    ensures var t := ReadMessages(m, end, size);
      t.data == [] && Unread(t.m) == [] && forall n :: ReadMessages(t.m, end, n).err == Some(Panic)
  {
  }

  class WebSocketConn {
    var Reader: Option<seq<Chunk>>
    var next: seq<seq<Chunk>>
    const end: End

    constructor (next: seq<seq<Chunk>>, end: End)
      ensures View() == Messages(Some([]), next) && this.end == end
    {
      Reader, this.next, this.end := Some([]), next, end;
    }

    function View(): Messages
      reads this
    {
      Messages(Reader, next)
    }

    method Read(b: array<byte>) returns (n: nat, err: Option<Error>)
      modifies this, b
      ensures var t := ReadMessages(old(View()), end, b.Length);
        View() == t.m && n == |t.data| <= b.Length && err == t.err && b[..n] == t.data
    {
      if Reader.None? {
        return 0, Some(Panic);
      }
      n := ReadCurrent(b);
      err := None;
      if n > 0 {
        return;
      }
      if next == [] {
        Reader := None;
        return 0, Some(if end.CloseFrame? then EOF else end.e);
      }
      Reader, next := Some(next[0]), next[1..];
      n := ReadCurrent(b);
    }

    /** A read from the current message, its error dropped. */
    method ReadCurrent(b: array<byte>) returns (n: nat)
      requires Reader.Some?
      modifies this`Reader, b
      ensures var o := ReadStep(old(Reader).value, EOF, b.Length);
        n == |o.data| <= b.Length && b[..n] == o.data && Reader == Some(o.rest)
    {
      var o := ReadStep(Reader.value, EOF, b.Length);
      n := |o.data|;
      CopyInto(b, 0, o.data);
      assert b[..n] == b[0..n];
      Reader := Some(o.rest);
    }
  }
}
