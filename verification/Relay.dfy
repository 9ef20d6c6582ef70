/** The byte relay of a TCP tunnel: copyBuffer and the drain loop of HandleTCP (pkgs/trojan/trojan_tcp.go). */
module Relay {
  import opened Prelude
  import opened Streams

  /** What one Write returns; the count is whatever the writer claims. */
  datatype WriteResult = WriteResult(n: int, err: Option<Error>)

  /** The bytes a write of `len` bytes is credited with: an impossible count is worth nothing. */
  function Counted(w: WriteResult, len: nat): (k: nat)
    ensures k <= len
  {
    if 0 <= w.n <= len then w.n else 0
  }

  /** The error copyBuffer makes of a write of `len` bytes. */
  function WriteFault(w: WriteResult, len: nat): (f: Option<Error>)
    ensures f.None? ==> Counted(w, len) == len
    ensures f.None? <==> w.err.None? && w.n == len
    ensures w.err.Some? ==> f == w.err
    ensures w.err.None? ==> (f == Some(ShortWrite) <==> 0 <= w.n < len) && (f == Some(InvalidWrite) <==> w.n < 0 || len < w.n)
  {
    if w.err.Some? then w.err
    else if w.n < 0 || len < w.n then Some(InvalidWrite)
    else if w.n != len then Some(ShortWrite)
    else None
  }

  /** A read error ends the copy; end of file is a clean end. */
  function ReadFault(e: Error): (f: Option<Error>)
    ensures f.None? <==> e == EOF
    ensures f.Some? ==> f.value == e
  {
    if e.EOF? then None else Some(e)
  }

  /** The result of the next write of `len` bytes; a finished script takes everything. */
  function NextWrite(script: seq<WriteResult>, len: nat): WriteResult {
    if script == [] then WriteResult(len, None) else script[0]
  }

  function AfterWrite(script: seq<WriteResult>): seq<WriteResult> {
    if script == [] then [] else script[1..]
  }

  class Sink {
    var script: seq<WriteResult>
    var accepted: seq<byte>

    constructor (script: seq<WriteResult>)
      ensures this.script == script && accepted == []
    {
      this.script, accepted := script, [];
    }

    method Write(b: array<byte>, hi: nat) returns (w: WriteResult)
      requires hi <= b.Length
      modifies this
      ensures w == NextWrite(old(script), hi) && script == AfterWrite(old(script))
      ensures accepted == old(accepted) + b[..Counted(w, hi)]
    {
      w := NextWrite(script, hi);
      script := AfterWrite(script);
      accepted := accepted + b[..Counted(w, hi)];
    }
  }

  /** The whole story of one copy: what it read and wrote, what it returned, and what it left behind. */
  datatype Copied = Copied(read: seq<byte>, written: seq<byte>, err: Option<Error>,
                           input: seq<Chunk>, output: seq<WriteResult>)
  {
    function After(first: Copied): Copied {
      this.(read := first.read + read, written := first.written + written)
    }
  }

  /** The bytes written are an in-order prefix of the bytes read, which with the bytes left are all of r. */
  predicate Conserves(c: Copied, r: seq<Chunk>) {
    c.read + Bytes(c.input) == Bytes(r) && IsPrefix(c.written, c.read)
  }

  lemma Chain(first: Copied, later: Copied, r: seq<Chunk>)
    requires Conserves(first, r) && first.written == first.read && Conserves(later, first.input)
    ensures Conserves(later.After(first), r)
    ensures later.written == later.read ==> later.After(first).written == later.After(first).read
  {
    assert first.read + (later.read + Bytes(later.input)) == (first.read + later.read) + Bytes(later.input);
    assert (first.read + later.read)[..|first.read| + |later.written|] == first.read + later.written;
  }

  datatype RoundResult = RoundResult(c: Copied, done: bool)

  /** One round of copyBuffer: a read, the write of what it gave, and whether the loop ends there. */
  function Round(r: seq<Chunk>, fin: Error, w: seq<WriteResult>, size: nat): (round: RoundResult)
    ensures Conserves(round.c, r)
    ensures round.c.err == None ==> round.c.written == round.c.read
    ensures !round.done ==> round.c.err == None
  {
    ReadStepBytes(r, fin, size);
    var o := ReadStep(r, fin, size);
    var end := if o.err.Some? then ReadFault(o.err.value) else None;
    if o.data == [] then RoundResult(Copied([], [], end, o.rest, w), o.err.Some?)
    else
      var res := NextWrite(w, |o.data|);
      var fault := WriteFault(res, |o.data|);
      RoundResult(Copied(o.data, o.data[..Counted(res, |o.data|)], if fault.Some? then fault else end,
                         o.rest, AfterWrite(w)),
                  fault.Some? || o.err.Some?)
  }

  function Copy(r: seq<Chunk>, fin: Error, w: seq<WriteResult>, size: nat): (c: Copied)
    requires size > 0
    ensures Conserves(c, r)
    ensures c.err == None ==> c.written == c.read
    decreases |r|, if r == [] then 0 else |r[0].data|
  {
    var round := Round(r, fin, w, size);
    if round.done then round.c
    else
      var later := Copy(round.c.input, fin, round.c.output, size);
      Chain(round.c, later, r);
      later.After(round.c)
  }

  /** What is left of a script once its first error has been met. */
  function AfterErr(script: seq<Chunk>): (rest: seq<Chunk>)
    ensures script != [] ==> |rest| < |script|
  {
    if script == [] then []
    else if script[0].err.Some? then script[1..]
    else AfterErr(script[1..])
  }

  /** With a writer that takes everything, one copy delivers exactly the bytes before the first read
      error, whatever the buffer size and however the reads were split, and reports that error. */
  lemma {:induction false} CopyDelivers(r: seq<Chunk>, fin: Error, size: nat)
    requires size > 0
    ensures var c := Copy(r, fin, [], size);
      c.written == c.read == Avail(r) && c.err == ReadFault(FirstErr(r, fin)) && c.input == AfterErr(r) && c.output == []
    decreases |r|, if r == [] then 0 else |r[0].data|
  {
    var o := ReadStep(r, fin, size);
    if r != [] && |r[0].data| > size {
      var head := r[0].(data := r[0].data[size..]);
      assert ([head] + r[1..])[1..] == r[1..];
      assert r[0].data == o.data + head.data;
      assert Avail(r) == o.data + Avail(o.rest);
      assert FirstErr(o.rest, fin) == FirstErr(r, fin) && AfterErr(o.rest) == AfterErr(r);
      CopyDelivers(o.rest, fin, size);
    } else if r != [] && r[0].err.None? {
      CopyDelivers(r[1..], fin, size);
    }
  }

  /** A write that fails for good whatever it is given: an error that is not the deadline, or no bytes. */
  predicate Fails(w: WriteResult) {
    w.n <= 0 || (w.err.Some? && w.err != Some(Deadline))
  }

  /** The client's writer does not report a deadline, unless a write before has already failed for good;
      that it never does is the assumption in the comment of HandleTCP. */
  predicate Trusted(w: seq<WriteResult>) {
    forall i :: 0 <= i < |w| && w[i].err == Some(Deadline) ==> exists j :: 0 <= j < i && Fails(w[j])
  }

  lemma TrustedRest(w: seq<WriteResult>)
    requires Trusted(w) && w != [] && !Fails(w[0])
    ensures Trusted(w[1..])
  {
    forall i | 0 <= i < |w| - 1 && w[1..][i].err == Some(Deadline)
      ensures exists j :: 0 <= j < i && Fails(w[1..][j])
    {
      assert w[i + 1] == w[1..][i];
      var j :| 0 <= j < i + 1 && Fails(w[j]);
      assert w[1..][j - 1] == w[j];
    }
  }

  /** A round of a trusted writer that ends at the deadline, or goes on, met it on the reading side. */
  lemma RoundTrusts(r: seq<Chunk>, fin: Error, w: seq<WriteResult>, size: nat)
    requires Trusted(w)
    ensures var round := Round(r, fin, w, size);
      !round.done || round.c.err == Some(Deadline) ==> round.c.written == round.c.read && Trusted(round.c.output)
  {
    if w != [] && !Fails(w[0]) {
      TrustedRest(w);
    }
    assert w != [] ==> w[0].err != Some(Deadline);
  }

  /** A copy that ends with a read error has delivered all it read; only a failed write drops bytes. */
  lemma {:induction false} OnlyWritesDrop(r: seq<Chunk>, fin: Error, w: seq<WriteResult>, size: nat)
    requires size > 0 && Trusted(w)
    ensures var c := Copy(r, fin, w, size);
      c.err == Some(Deadline) ==> c.written == c.read && Trusted(c.output)
    decreases |r|, if r == [] then 0 else |r[0].data|
  {
    var round := Round(r, fin, w, size);
    RoundTrusts(r, fin, w, size);
    if !round.done {
      OnlyWritesDrop(round.c.input, fin, round.c.output, size);
    }
  }

  /** The drain loop: copy again as long as a round moved bytes and ended at the read deadline. */
  function Drain(r: seq<Chunk>, fin: Error, w: seq<WriteResult>, size: nat): (c: Copied)
    requires size > 0
    decreases |Bytes(r)|
  {
    var pass := Copy(r, fin, w, size);
    if |pass.written| == 0 || pass.err != Some(Deadline) then pass
    else Drain(pass.input, fin, pass.output, size).After(pass)
  }

  /** Bytes written are those read, in order, and all of them unless an error says otherwise. */
  predicate Whole(c: Copied, r: seq<Chunk>) {
    Conserves(c, r) && (c.err == None || c.err == Some(Deadline) ==> c.written == c.read)
  }

  lemma {:induction false} DrainConserves(r: seq<Chunk>, fin: Error, w: seq<WriteResult>, size: nat)
    requires size > 0 && Trusted(w)
    ensures Whole(Drain(r, fin, w, size), r)
    decreases |Bytes(r)|
  {
    var pass := Copy(r, fin, w, size);
    OnlyWritesDrop(r, fin, w, size);
    if |pass.written| != 0 && pass.err == Some(Deadline) {
      DrainConserves(pass.input, fin, pass.output, size);
      Chain(pass, Drain(pass.input, fin, pass.output, size), r);
    }
  }

  /** Both stages of the downstream direction: the first copy and, when it was woken by the deadline and
      the upstream direction ended cleanly, the drain loop. */
  function Downstream(r: seq<Chunk>, fin: Error, w: seq<WriteResult>, size: nat): Copied
    requires size > 0
  {
    var first := Copy(r, fin, w, size);
    if first.err == Some(Deadline) then Drain(first.input, fin, first.output, size).After(first) else first
  }

  /** Conservation: over the first copy and every drain round, the client has received an in-order
      prefix of the bytes taken from the remote, with nothing duplicated or skipped, and all of them
      unless a write failed. */
  lemma DownstreamConserves(r: seq<Chunk>, fin: Error, w: seq<WriteResult>, size: nat)
    requires size > 0 && Trusted(w)
    ensures Whole(Downstream(r, fin, w, size), r)
  {
    var first := Copy(r, fin, w, size);
    OnlyWritesDrop(r, fin, w, size);
    if first.err == Some(Deadline) {
      DrainConserves(first.input, fin, first.output, size);
      Chain(first, Drain(first.input, fin, first.output, size), r);
    }
  }

  /** And the assumption on the writer is exactly what conservation needs. */
  lemma DownstreamConservesExactly(w: seq<WriteResult>)
    ensures Trusted(w) <==>
      forall r, fin, size: nat | size > 0 :: Whole(Downstream(r, fin, w, size), r)
  {
    if Trusted(w) {
      forall r, fin, size: nat | size > 0
        ensures Whole(Downstream(r, fin, w, size), r)
      {
        DownstreamConserves(r, fin, w, size);
      }
    } else {
      var i :| 0 <= i < |w| && w[i].err == Some(Deadline) && forall j :: 0 <= j < i ==> !Fails(w[j]);
      var r := LosingRun(w, i, Room(w));
      assert !Whole(Downstream(r, EOF, w, Room(w)), r);
    }
  }

  /** A buffer larger than any count in the script. */
  function Room(w: seq<WriteResult>): (size: nat)
    ensures size > 0 && forall i :: 0 <= i < |w| ==> w[i].n < size
  {
    if w == [] then 1
    else
      var rest := Room(w[1..]);
      assert forall i :: 1 <= i < |w| ==> w[i] == w[1..][i - 1];
      if w[0].n < rest then rest else w[0].n + 1
  }

  /** Reads for which the deadline error of the i-th write costs a byte. */
  lemma {:induction false} LosingRun(w: seq<WriteResult>, i: nat, size: nat) returns (r: seq<Chunk>)
    requires i < |w| && w[i].err == Some(Deadline) && forall j :: 0 <= j < i ==> !Fails(w[j])
    requires size > 0 && forall j :: 0 <= j < |w| ==> w[j].n < size
    ensures var c := Copy(r, EOF, w, size);
      c.err == Some(Deadline) && |c.written| < |c.read| && c.input == []
    ensures var c := Downstream(r, EOF, w, size); c.err == None && |c.written| < |c.read|
    decreases i
  {
    if w[0].err == Some(Deadline) {
      r := [Chunk(seq(if w[0].n < 0 then 1 else w[0].n + 1, _ => 0), None)];
      assert r[1..] == [];
      assert Round(r, EOF, w, size).done;
    } else {
      assert !Fails(w[0]) && w[0].err == None;
      assert forall j :: 0 <= j < |w| - 1 ==> w[1..][j] == w[j + 1];
      var later := LosingRun(w[1..], i - 1, size);
      r := [Chunk(seq(w[0].n, _ => 0), None)] + later;
      assert r[1..] == later;
      var round := Round(r, EOF, w, size);
      assert !round.done && round.c.input == later && round.c.output == w[1..];
    }
    var c := Copy(r, EOF, w, size);
    var pass := Copy([], EOF, c.output, size);
    assert pass == Copied([], [], None, [], c.output);
    assert Drain([], EOF, c.output, size) == pass;
    assert Downstream(r, EOF, w, size) == pass.After(c);
  }

  /** The assumption on the writer is needed: a short write that reports a deadline is mistaken for the
      wake, and the drain goes on after the bytes it lost. */
  lemma DeadlineWriteSkipsBytes()
    ensures var c := Downstream([Chunk([7, 8], None), Chunk([9], None)], EOF, [WriteResult(1, Some(Deadline))], 4);
      c.read == [7, 8, 9] && c.written == [7, 9] && !IsPrefix(c.written, c.read)
  {
    var w := [WriteResult(1, Some(Deadline))];
    var s0, s1 := [Chunk([7, 8], None), Chunk([9], None)], [Chunk([9], None)];
    assert s0[1..] == s1 && s1[1..] == [] && w[1..] == [];
    assert Copy(s0, EOF, w, 4) == Copied([7, 8], [7], Some(Deadline), s1, []) by {
      assert [7, 8][..1] == [7];
    }
    assert Copy([], EOF, [], 4) == Copied([], [], None, [], []);
    assert Copy(s1, EOF, [], 4) == Copied([9], [9], None, [], []);
    assert [7, 9][..2][1] != [7, 8, 9][..2][1];
  }

  /** Everything up to the first error that is not a deadline, or the first deadline met in silence. */
  function UntilSilence(r: seq<Chunk>, fin: Error): seq<byte>
    decreases |r|
  {
    if Avail(r) == [] || FirstErr(r, fin) != Deadline || r == [] then Avail(r)
    else Avail(r) + UntilSilence(AfterErr(r), fin)
  }

  /** When every write succeeds the drain delivers the stream until the remote ends, fails, or stays
      silent for a whole round; buffer size and read sizes play no part. */
  lemma {:induction false} DrainDelivers(r: seq<Chunk>, fin: Error, size: nat)
    requires size > 0 && fin != Deadline
    ensures var c := Drain(r, fin, [], size);
      c.written == c.read == UntilSilence(r, fin)
    decreases |r|
  {
    CopyDelivers(r, fin, size);
    var pass := Copy(r, fin, [], size);
    if |pass.written| != 0 && pass.err == Some(Deadline) {
      DrainDelivers(pass.input, fin, size);
    }
  }

  // ---------------------------------------------------------------- the loops themselves

  /** copyBuffer(dst, src, buf) */
  method CopyBuffer(dst: Sink, src: Source, buf: array<byte>) returns (n: nat, err: Option<Error>)
    requires buf.Length > 0
    modifies dst, src`script, buf
    ensures var c := old(Copy(src.script, src.fin, dst.script, buf.Length));
      && n == |c.written| && err == c.err
      && dst.accepted == old(dst.accepted) + c.written
      && src.script == c.input && dst.script == c.output
  {
    ghost var c, acc := Copy(src.script, src.fin, dst.script, buf.Length), dst.accepted;
    n, err := 0, None;
    var done := false;
    while !done
      invariant Continues(c, acc, dst.accepted, n, err, done, src.script, src.fin, dst.script, buf.Length)
      decreases !done, |src.script|, if src.script == [] then 0 else |src.script[0].data|
    {
      CopyStep(c, acc, dst.accepted, n, err, src.script, src.fin, dst.script, buf.Length);
      var k;
      k, err, done := CopyOnce(dst, src, buf);
      n := n + k;
    }
    assert dst.accepted == acc + dst.accepted[|acc|..];
  }

  /** The loop invariant of copyBuffer: of the copy c, the bytes accepted since acc are done, and what
      is still to come is the copy from the present state. */
  ghost predicate Continues(c: Copied, acc: seq<byte>, accepted: seq<byte>, n: nat, err: Option<Error>, done: bool,
                            r: seq<Chunk>, fin: Error, w: seq<WriteResult>, size: nat)
    requires size > 0
  {
    && IsPrefix(acc, accepted) && n == |accepted| - |acc|
    && var d := if done then Copied([], [], err, r, w) else Copy(r, fin, w, size);
    && c.written == accepted[|acc|..] + d.written
    && c.err == d.err && c.input == d.input && c.output == d.output
  }

  lemma CopyStep(c: Copied, acc: seq<byte>, accepted: seq<byte>, n: nat, err: Option<Error>,
                 r: seq<Chunk>, fin: Error, w: seq<WriteResult>, size: nat)
    requires size > 0 && Continues(c, acc, accepted, n, err, false, r, fin, w, size)
    ensures var round := Round(r, fin, w, size);
      && Continues(c, acc, accepted + round.c.written, n + |round.c.written|, round.c.err, round.done,
                   round.c.input, fin, round.c.output, size)
  {
    var round := Round(r, fin, w, size);
    Shift(acc, accepted, round.c.written,
          if round.done then [] else Copy(round.c.input, fin, round.c.output, size).written);
    assert round.c.written + [] == round.c.written;
  }

  lemma Shift(acc: seq<byte>, accepted: seq<byte>, written: seq<byte>, later: seq<byte>)
    requires IsPrefix(acc, accepted)
    ensures IsPrefix(acc, accepted + written)
    ensures (accepted + written)[|acc|..] + later == accepted[|acc|..] + (written + later)
  {
    assert (accepted + written)[|acc|..] == accepted[|acc|..] + written;
  }

  /** One round of the loop in copyBuffer. */
  method CopyOnce(dst: Sink, src: Source, buf: array<byte>) returns (n: nat, err: Option<Error>, done: bool)
    modifies dst, src`script, buf
    ensures var round := old(Round(src.script, src.fin, dst.script, buf.Length));
      && n == |round.c.written| && err == round.c.err && done == round.done
      && dst.accepted == old(dst.accepted) + round.c.written
      && src.script == round.c.input && dst.script == round.c.output
  {
    n, err, done := 0, None, false;
    var nr, er := src.Read(buf, 0, buf.Length);
    if nr > 0 {
      var w := dst.Write(buf, nr);
      assert buf[..Counted(w, nr)] == buf[0..nr][..Counted(w, nr)];
      var nw, ew := w.n, w.err;
      if nw < 0 || nr < nw {
        nw := 0;
        if ew == None {
          ew := Some(InvalidWrite);
        }
      }
      n := nw;
      if ew != None {
        return n, ew, true;
      }
      if nr != nw {
        return n, Some(ShortWrite), true;
      }
    }
    if er != None {
      if er != Some(EOF) {
        err := er;
      }
      done := true;
    }
  }

  /** The drain loop of HandleTCP, with nw bytes already counted. */
  method DrainLoop(dst: Sink, src: Source, buf: array<byte>, nw: nat) returns (total: nat)
    requires buf.Length > 0
    modifies dst, src`script, buf
    ensures var c := old(Drain(src.script, src.fin, dst.script, buf.Length));
      && total == nw + |c.written|
      && dst.accepted == old(dst.accepted) + c.written
      && src.script == c.input && dst.script == c.output
  {
    ghost var c := Drain(src.script, src.fin, dst.script, buf.Length);
    total := nw;
    while true
      invariant var d := Drain(src.script, src.fin, dst.script, buf.Length);
        && total + |d.written| == nw + |c.written|
        && dst.accepted + d.written == old(dst.accepted) + c.written
        && d.input == c.input && d.output == c.output
      decreases |Bytes(src.script)|
    {
      ghost var before := dst.accepted;
      ghost var pass := Copy(src.script, src.fin, dst.script, buf.Length);
      assert forall rest :: before + (pass.written + rest) == (before + pass.written) + rest;
      var n, err := CopyBuffer(dst, src, buf);
      total := total + n;
      if n == 0 || err != Some(Deadline) {
        break;
      }
    }
  }
}
