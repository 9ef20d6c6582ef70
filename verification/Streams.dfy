/** io.Reader as a script of read results, and io.ReadFull over it. */
module Streams {
  import opened Prelude

  /** What one Read has to give: some bytes, possibly with an error alongside. A Read with too little
      room takes a prefix and leaves the rest, with the error, for the next one. */
  datatype Chunk = Chunk(data: seq<byte>, err: Option<Error>)

  datatype ReadOutcome = ReadOutcome(rest: seq<Chunk>, data: seq<byte>, err: Option<Error>)

  /** One Read with room for `size` bytes; a finished script keeps returning `fin`. */
  function ReadStep(script: seq<Chunk>, fin: Error, size: nat): ReadOutcome {
    if script == [] then ReadOutcome([], [], Some(fin))
    else if |script[0].data| > size then
      ReadOutcome([script[0].(data := script[0].data[size..])] + script[1..], script[0].data[..size], None)
    else ReadOutcome(script[1..], script[0].data, script[0].err)
  }

  /** All bytes a script holds, across its errors. */
  function Bytes(script: seq<Chunk>): seq<byte> {
    if script == [] then [] else script[0].data + Bytes(script[1..])
  }

  lemma ReadStepBytes(script: seq<Chunk>, fin: Error, size: nat)
    ensures var o := ReadStep(script, fin, size); o.data + Bytes(o.rest) == Bytes(script)
  {
    if script != [] && |script[0].data| > size {
      var head := script[0].(data := script[0].data[size..]);
      assert ([head] + script[1..])[1..] == script[1..];
      assert script[0].data == script[0].data[..size] + script[0].data[size..];
    }
  }

  /** The bytes delivered before the first error. */
  function Avail(script: seq<Chunk>): seq<byte> {
    if script == [] then []
    else if script[0].err.Some? then script[0].data
    else script[0].data + Avail(script[1..])
  }

  function FirstErr(script: seq<Chunk>, fin: Error): Error {
    if script == [] then fin
    else if script[0].err.Some? then script[0].err.value
    else FirstErr(script[1..], fin)
  }

  /** The io.Reader contract: bytes and an error come together only when the error is final. */
  predicate Tidy(script: seq<Chunk>, fin: Error) {
    forall i :: 0 <= i < |script| && script[i].err.Some? && script[i].data != [] ==>
      i == |script| - 1 && script[i].err.value == fin
  }

  /** The script still has to deliver exactly `avail`, then the error `e`. */
  ghost predicate Delivers(script: seq<Chunk>, fin: Error, avail: seq<byte>, e: Error) {
    Tidy(script, fin) && Avail(script) == avail && FirstErr(script, fin) == e
  }

  lemma ReadStepDelivers(script: seq<Chunk>, fin: Error, size: nat, avail: seq<byte>, e: Error)
    requires Delivers(script, fin, avail, e)
    ensures var o := ReadStep(script, fin, size);
      && IsPrefix(o.data, avail)
      && (o.err.Some? ==> o.data == avail && o.err.value == e)
      && (o.err.None? || o.data != [] ==> Delivers(o.rest, fin, avail[|o.data|..], e))
  {
    if script != [] && |script[0].data| <= size {
      assert forall i :: 0 <= i < |script| - 1 ==> script[1..][i] == script[i + 1];
    } else if script != [] {
      var head := script[0].(data := script[0].data[size..]);
      assert ([head] + script[1..])[1..] == script[1..];
    }
  }

  lemma ReadStepAvail(script: seq<Chunk>, fin: Error, size: nat)
    ensures var o := ReadStep(script, fin, size);
      && (o.err.Some? ==> o.data == Avail(script) && o.err.value == FirstErr(script, fin))
      && (o.err.None? ==> Avail(script) == o.data + Avail(o.rest) && FirstErr(o.rest, fin) == FirstErr(script, fin))
  {
    if script != [] && |script[0].data| > size {
      var head := script[0].(data := script[0].data[size..]);
      assert ([head] + script[1..])[1..] == script[1..];
      assert script[0].data == script[0].data[..size] + head.data;
    }
  }

  /** The error io.ReadFull reports when the stream `avail` ends early with `e`. */
  function FullErr(avail: seq<byte>, e: Error): (f: Error)
    ensures f == EOF <==> avail == [] && e == EOF
    ensures f != e <==> avail != [] && e == EOF
    ensures avail != [] && e == EOF ==> f == UnexpectedEOF
  {
    if e.EOF? && avail != [] then UnexpectedEOF else e
  }

  /** copy(b[lo:], data) */
  method CopyInto(b: array<byte>, lo: nat, data: seq<byte>)
    requires lo + |data| <= b.Length
    modifies b
    ensures b[lo..lo + |data|] == data
    ensures forall i :: 0 <= i < b.Length && !(lo <= i < lo + |data|) ==> b[i] == old(b[i])
  {
    forall i | 0 <= i < |data| {
      b[lo + i] := data[i];
    }
  }

  class Source {
    var script: seq<Chunk>
    const fin: Error

    constructor (script: seq<Chunk>, fin: Error)
      ensures this.script == script && this.fin == fin
    {
      this.script := script;
      this.fin := fin;
    }

    method Read(b: array<byte>, lo: nat, hi: nat) returns (n: nat, err: Option<Error>)
      requires lo <= hi <= b.Length
      modifies this`script, b
      ensures var o := ReadStep(old(script), fin, hi - lo);
        && script == o.rest && n == |o.data| && err == o.err
        && n <= hi - lo
        && b[lo..lo + n] == o.data
      ensures forall i :: 0 <= i < b.Length && !(lo <= i < lo + n) ==> b[i] == old(b[i])
    {
      var o := ReadStep(script, fin, hi - lo);
      n, err, script := |o.data|, o.err, o.rest;
      CopyInto(b, lo, o.data);
    }
  }

  /** One round of io.ReadFull's loop, with n of the size bytes already there. */
  method ReadMore(src: Source, b: array<byte>, lo: nat, size: nat, n: nat, ghost avail: seq<byte>, ghost e: Error)
    returns (n': nat, err: Option<Error>)
    requires n < size && lo + size <= b.Length && n <= |avail|
    requires b[lo..lo + n] == avail[..n]
    requires Delivers(src.script, src.fin, avail[n..], e)
    modifies src`script, b
    ensures n <= n' <= size && n' <= |avail|
    ensures b[lo..lo + n'] == avail[..n']
    ensures forall i :: 0 <= i < b.Length && !(lo <= i < lo + size) ==> b[i] == old(b[i])
    ensures err.Some? ==> n' == |avail| && err.value == e
    ensures err.None? || n' == size ==> Delivers(src.script, src.fin, avail[n'..], e)
    ensures |src.script| < old(|src.script|) || err.Some? || n' == size
    ensures |src.script| <= old(|src.script|)
  {
    ReadStepDelivers(src.script, src.fin, size - n, avail[n..], e);
    var k;
    k, err := src.Read(b, lo + n, lo + size);
    n' := n + k;
    assert avail[n..][k..] == avail[n'..];
    assert b[lo..lo + n'] == old(b[lo..lo + n]) + b[lo + n..lo + n'];
    assert avail[..n'] == avail[..n] + avail[n..][..k];
  }

  /** io.ReadFull(src, b[lo:lo+size]). */
  method ReadFull(src: Source, b: array<byte>, lo: nat, size: nat, ghost avail: seq<byte>, ghost e: Error)
    returns (err: Option<Error>)
    requires lo + size <= b.Length
    requires Delivers(src.script, src.fin, avail, e)
    modifies src`script, b
    ensures forall i :: 0 <= i < b.Length && !(lo <= i < lo + size) ==> b[i] == old(b[i])
    ensures b[..lo] == old(b[..lo])
    ensures if |avail| >= size
      then err == None && b[lo..lo + size] == avail[..size] && Delivers(src.script, src.fin, avail[size..], e)
      else err == Some(FullErr(avail, e))
  {
    var n := 0;
    err := None;
    while n < size && err == None
      invariant n <= size && n <= |avail|
      invariant b[lo..lo + n] == avail[..n]
      invariant forall i :: 0 <= i < b.Length && !(lo <= i < lo + size) ==> b[i] == old(b[i])
      invariant err.Some? ==> n == |avail| && err.value == e
      invariant err.None? || n == size ==> Delivers(src.script, src.fin, avail[n..], e)
      decreases if n < size && err == None then |src.script| + 1 else 0
    {
      n, err := ReadMore(src, b, lo, size, n, avail, e);
    }
    if n >= size {
      err := None;
    } else if n > 0 && err == Some(EOF) {
      err := Some(UnexpectedEOF);
    }
  }
}
