/** The other half of HandleUDP (pkgs/trojan/trojan_udp.go): packets from the network are framed for the
    client in one fixed buffer, the address written backwards from a fixed point. */
module Encoder {
  import opened Prelude
  import opened Socks
  import opened Datagram

  /** A packet as ReadFrom delivers it; from is None for a peer that is not a *net.UDPAddr. */
  datatype Arrival = Arrival(data: seq<byte>, from: Option<UdpAddr>)

  const ROOM := 64 * 1024
  const WRITE_BUFFER_LEN := ROOM + MAX_ADDR_LEN + 4

  /** What fits into the buffer; the rest of a longer packet is cut off. */
  function Received(a: Arrival): seq<byte> {
    if |a.data| > ROOM then a.data[..ROOM] else a.data
  }

  class PacketReader {
    var script: seq<Arrival>
    const fin: Error

    constructor (script: seq<Arrival>, fin: Error)
      ensures this.script == script && this.fin == fin
    {
      this.script, this.fin := script, fin;
    }

    method ReadFrom(b: array<byte>, off: nat) returns (n: nat, from: Option<UdpAddr>, err: Option<Error>)
      requires off + ROOM == b.Length
      modifies this`script, b
      ensures n <= ROOM && (err.None? <==> old(script) != [])
      ensures err.Some? ==> err == Some(fin) && n == 0
      ensures err.None? ==>
        && script == old(script)[1..] && from == old(script)[0].from
        && n == |Received(old(script)[0])| && b[off..off + n] == Received(old(script)[0])
      ensures forall i :: 0 <= i < b.Length && !(off <= i < off + n) ==> b[i] == old(b[i])
    {
      n, from, err := 0, None, None;
      if script == [] {
        err := Some(fin);
      } else {
        var data := Received(script[0]);
        from, n, script := script[0].from, |data|, script[1..];
        forall i | 0 <= i < n {
          b[off + i] := data[i];
        }
      }
    }
  }

  class FrameWriter {
    var script: seq<Option<Error>>
    var frames: seq<seq<byte>>

    constructor (script: seq<Option<Error>>)
      ensures this.script == script && frames == []
    {
      this.script, frames := script, [];
    }

    method Write(frame: seq<byte>) returns (err: Option<Error>)
      modifies this
      ensures err == Next(old(script)) && script == Rest(old(script))
      ensures frames == old(frames) + if err.None? then [frame] else []
    {
      err := Next(script);
      script := Rest(script);
      if err.None? {
        frames := frames + [frame];
      }
    }
  }

  /** The 19 bytes in which addresses are built, right-aligned: `addr` overwrites the end of `window`. */
  function Overlay(window: seq<byte>, addr: seq<byte>): (r: seq<byte>)
    requires |window| == 19 && |addr| <= 19
    ensures |r| == 19 && r[19 - |addr|..] == addr
  {
    window[..19 - |addr|] + addr
  }

  /** The address bytes written for u when the window holds `window`. */
  function AddrFor(u: UdpAddr, window: seq<byte>): (a: seq<byte>)
    requires |window| == 19
    ensures |a| <= 19
  {
    EncodeIp(u.ip, u.port, window[1..17])
  }

  /** The frame written for u and the data. */
  function FrameFor(u: UdpAddr, data: seq<byte>, window: seq<byte>): seq<byte>
    requires |window| == 19
  {
    AddrFor(u, window) + (BigEndian(|data|) + CRLF + data)
  }

  datatype Encoded = Encoded(frames: seq<seq<byte>>, err: Error)

  /** One round: the frame written, if any, the error that ends the loop, if any, and the new window. */
  datatype EncodeResult = EncodeResult(frames: seq<seq<byte>>, err: Option<Error>, window: seq<byte>)

  function EncodeRound(script: seq<Arrival>, fin: Error, w: Option<Error>, window: seq<byte>): (r: EncodeResult)
    requires |window| == 19
    ensures r.err.None? ==> script != [] && |r.window| == 19
  {
    if script == [] then EncodeResult([], Some(fin), window)
    else
      match script[0].from
      case None => EncodeResult([], Some(UnsupportedPeer), window)
      case Some(u) =>
        EncodeResult(if w.None? then [FrameFor(u, Received(script[0]), window)] else [], w,
                     Overlay(window, AddrFor(u, window)))
  }

  /** The whole run of the encoder. */
  function Encode(script: seq<Arrival>, fin: Error, w: seq<Option<Error>>, window: seq<byte>): Encoded
    requires |window| == 19
    decreases |script|
  {
    var r := EncodeRound(script, fin, Next(w), window);
    if r.err.Some? then Encoded(r.frames, r.err.value)
    else
      var later := Encode(script[1..], fin, Rest(w), r.window);
      Encoded(r.frames + later.frames, later.err)
  }

  // ---------------------------------------------------------------- what the frames mean

  predicate FromUdp(ps: seq<Arrival>) {
    forall i :: 0 <= i < |ps| ==> ps[i].from.Some? && IsIp(ps[i].from.value.ip)
  }

  /** The frame of a packet, a function of the packet alone. */
  function PacketFrame(p: Arrival): (f: Frame)
    requires p.from.Some?
    ensures IsAddr(f.addr)
  {
    Frame(EncodeIp(p.from.value.ip, p.from.value.port, seq(16, _ => 0)), Received(p))
  }

  function PacketFrames(ps: seq<Arrival>): (fs: seq<Frame>)
    requires FromUdp(ps)
    ensures |fs| == |ps| && forall i :: 0 <= i < |ps| ==> fs[i] == PacketFrame(ps[i])
  {
    if ps == [] then [] else [PacketFrame(ps[0])] + PacketFrames(ps[1..])
  }

  function Joined(frames: seq<seq<byte>>): seq<byte> {
    if frames == [] then [] else frames[0] + Joined(frames[1..])
  }

  /** Whatever earlier packets left in the window, each frame is the wire form of its own packet: bytes
      of a longer address never show up in a later, shorter one. */
  lemma {:induction false} EncodesEachAlone(ps: seq<Arrival>, fin: Error, window: seq<byte>)
    requires |window| == 19 && FromUdp(ps)
    ensures var r := Encode(ps, fin, [], window);
      && r.err == fin && |r.frames| == |ps|
      && (forall i :: 0 <= i < |ps| ==> r.frames[i] == Wire(PacketFrame(ps[i])))
      && Joined(r.frames) == WireAll(PacketFrames(ps))
    decreases |ps|
  {
    if ps != [] {
      var r := EncodeRound(ps, fin, None, window);
      var later := Encode(ps[1..], fin, [], r.window);
      EncodesEachAlone(ps[1..], fin, r.window);
      assert r.frames == [Wire(PacketFrame(ps[0]))];
      assert (r.frames + later.frames)[1..] == later.frames;
      assert PacketFrames(ps)[1..] == PacketFrames(ps[1..]);
    }
  }

  /** A frame decodes to the packet it was made from exactly when the length fits its two bytes. The
      buffer has room for one byte more, and such a packet is announced as an empty one. */
  lemma FrameDecodesExactly(p: Arrival, rest: seq<byte>)
    requires p.from.Some?
    ensures FirstFrame(Wire(PacketFrame(p)) + rest) == Some(PacketFrame(p)) <==> |p.data| <= 65535
    ensures |p.data| > 65535 ==> FirstFrame(Wire(PacketFrame(p)) + rest) == Some(PacketFrame(p).(payload := []))
  {
    var f := PacketFrame(p);
    if |p.data| <= 65535 {
      PrefixIsFrame(f, rest);
    } else {
      LengthWraps(|f.payload|, 0);
      SameHead(f, f.(payload := []), rest);
      PrefixIsFrame(f.(payload := []), f.payload + rest);
    }
  }

  lemma LengthWraps(n: nat, z: nat)
    requires n == 65536 && z == 0
    ensures BigEndian(n) == BigEndian(z)
  {
  }

  lemma SameHead(f: Frame, empty: Frame, rest: seq<byte>)
    requires empty == f.(payload := []) && BigEndian(|f.payload|) == BigEndian(|empty.payload|)
    ensures Wire(f) + rest == Wire(empty) + (f.payload + rest)
  {
    Regroup(f.addr, BigEndian(|empty.payload|) + CRLF, f.payload, rest);
  }

  lemma Regroup(a: seq<byte>, h: seq<byte>, p: seq<byte>, rest: seq<byte>)
    ensures (a + (h + p)) + rest == (a + (h + [])) + (p + rest)
  {
  }

  /** Encoder and decoder undo each other over whole runs: what the encoder writes for any packets of at
      most 65535 bytes, in any state of its buffer, decodes to those packets, in order, each with its
      To4-normal address and its port modulo 65536. */
  lemma EncodeThenDecode(ps: seq<Arrival>, fin: Error, window: seq<byte>, resolver: Resolver)
    requires |window| == 19 && FromUdp(ps)
    requires forall i :: 0 <= i < |ps| ==> |ps[i].data| <= 65535
    ensures var d := Decode(Joined(Encode(ps, fin, [], window).frames), EOF, resolver, []);
      && d.err == EOF && |d.sent| == |ps|
      && forall i :: 0 <= i < |ps| ==> d.sent[i] == SentAs(ps[i])
  {
    var fs := PacketFrames(ps);
    EncodesEachAlone(ps, fin, window);
    PacketsResolve(ps, resolver);
    DecodeForwards(fs, resolver);
    DeliveredAs(ps, resolver);
  }

  lemma DeliveredAs(ps: seq<Arrival>, resolver: Resolver)
    requires FromUdp(ps) && forall i :: 0 <= i < |ps| ==> |ps[i].data| <= 65535
    ensures var sent := Deliveries(PacketFrames(ps), resolver);
      |sent| == |ps| && forall i :: 0 <= i < |ps| ==> sent[i] == SentAs(ps[i])
  {
    var fs := PacketFrames(ps);
    PacketsResolve(ps, resolver);
    DeliversAll(fs, resolver);
    forall i | 0 <= i < |ps|
      ensures Deliveries(fs, resolver)[i] == SentAs(ps[i])
    {
      assert fs[i].payload == ps[i].data;
    }
  }

  /** The packet that comes out at the other end. */
  function SentAs(p: Arrival): Packet
    requires p.from.Some?
  {
    Packet(UdpAddr(NormalIp(p.from.value.ip), p.from.value.port % 65536), p.data)
  }

  lemma PacketsResolve(ps: seq<Arrival>, resolver: Resolver)
    requires FromUdp(ps)
    ensures forall i :: 0 <= i < |ps| ==>
      ResolveUdpAddr(PacketFrames(ps)[i].addr, resolver)
        == Ok(UdpAddr(NormalIp(ps[i].from.value.ip), ps[i].from.value.port % 65536))
  {
    forall i | 0 <= i < |ps|
      ensures ResolveUdpAddr(PacketFrames(ps)[i].addr, resolver)
        == Ok(UdpAddr(NormalIp(ps[i].from.value.ip), ps[i].from.value.port % 65536))
    {
      EncodeThenResolve(ps[i].from.value.ip, ps[i].from.value.port, seq(16, _ => 0), resolver);
    }
  }

  /** Where a run stops: after the frames of n packets, at one whose peer is of another kind or whose write
      fails. */
  lemma {:induction false} EncodeStops(ps: seq<Arrival>, n: nat, fin: Error, w: seq<Option<Error>>, window: seq<byte>)
    requires |window| == 19 && n < |ps| && AllWritten(ps, n, w)
    requires ps[n].from.None? || WriteAt(w, n).Some?
    ensures StoppedAt(ps, n, WriteAt(w, n), Encode(ps, fin, w, window))
    decreases n
  {
    assert Next(w) == WriteAt(w, 0);
    if n > 0 {
      OneWritten(ps, n, w);
      FirstOfMany(ps, fin, w, window);
      var window' := EncodeRound(ps, fin, Next(w), window).window;
      EncodeStops(ps[1..], n - 1, fin, Rest(w), window');
      OneMoreFrame(ps, n, WriteAt(w, n), Encode(ps, fin, w, window), Encode(ps[1..], fin, Rest(w), window'));
    }
  }

  /** The first n packets come from UDP peers and their frames are written. */
  ghost predicate AllWritten(ps: seq<Arrival>, n: nat, w: seq<Option<Error>>)
    requires n <= |ps|
  {
    FromUdp(ps[..n]) && forall i :: 0 <= i < n ==> WriteAt(w, i).None?
  }

  ghost predicate StoppedAt(ps: seq<Arrival>, n: nat, write: Option<Error>, r: Encoded)
    requires n < |ps| && (ps[n].from.None? || write.Some?)
  {
    && |r.frames| == n
    && (forall i :: 0 <= i < n ==> ps[i].from.Some? && IsIp(ps[i].from.value.ip) && r.frames[i] == Wire(PacketFrame(ps[i])))
    && r.err == if ps[n].from.None? then UnsupportedPeer else write.value
  }

  lemma OneWritten(ps: seq<Arrival>, n: nat, w: seq<Option<Error>>)
    requires 0 < n <= |ps| && AllWritten(ps, n, w)
    ensures ps[0].from.Some? && IsIp(ps[0].from.value.ip) && Next(w).None?
    ensures AllWritten(ps[1..], n - 1, Rest(w)) && WriteAt(Rest(w), n - 1) == WriteAt(w, n)
  {
    assert ps[..n][0] == ps[0] && WriteAt(w, 0).None?;
    assert ps[1..][..n - 1] == ps[..n][1..];
    assert forall i :: 0 <= i < n ==> WriteAt(Rest(w), i) == WriteAt(w, i + 1);
  }

  lemma OneMoreFrame(ps: seq<Arrival>, n: nat, write: Option<Error>, r: Encoded, later: Encoded)
    requires 0 < n < |ps| && ps[0].from.Some? && IsIp(ps[0].from.value.ip)
    requires ps[n].from.None? || write.Some?
    requires StoppedAt(ps[1..], n - 1, write, later)
    requires r == Encoded([Wire(PacketFrame(ps[0]))] + later.frames, later.err)
    ensures StoppedAt(ps, n, write, r)
  {
    forall i | 0 <= i < n
      ensures ps[i].from.Some? && IsIp(ps[i].from.value.ip) && r.frames[i] == Wire(PacketFrame(ps[i]))
    {
      if i > 0 {
        assert ps[i] == ps[1..][i - 1] && r.frames[i] == later.frames[i - 1];
      }
    }
  }

  lemma FirstOfMany(ps: seq<Arrival>, fin: Error, w: seq<Option<Error>>, window: seq<byte>)
    requires |window| == 19 && ps != [] && ps[0].from.Some? && IsIp(ps[0].from.value.ip) && Next(w).None?
    ensures var later := Encode(ps[1..], fin, Rest(w), EncodeRound(ps, fin, Next(w), window).window);
      Encode(ps, fin, w, window) == Encoded([Wire(PacketFrame(ps[0]))] + later.frames, later.err)
  {
    FrameOfUdp(ps[0], window);
  }

  lemma FrameOfUdp(p: Arrival, window: seq<byte>)
    requires |window| == 19 && p.from.Some? && IsIp(p.from.value.ip)
    ensures FrameFor(p.from.value, Received(p), window) == Wire(PacketFrame(p))
  {
  }

  // ---------------------------------------------------------------- the encoding loop

  const OFF_LEN := MAX_ADDR_LEN            // the length bytes, behind the address
  const OFF_DATA := MAX_ADDR_LEN + 4

  predicate HasCrlf(b: array<byte>)
    reads b
  {
    b.Length == WRITE_BUFFER_LEN && b[OFF_LEN + 2] == 13 && b[OFF_LEN + 3] == 10
  }

  /** One round of the loop. The CRLF written before the loop is never touched again. */
  method EncodeOnce(rc: PacketReader, w: FrameWriter, b: array<byte>) returns (err: Option<Error>)
    requires HasCrlf(b)
    modifies rc`script, w, b
    ensures HasCrlf(b)
    ensures var r := EncodeRound(old(rc.script), rc.fin, Next(old(w.script)), old(b[OFF_LEN - 19..OFF_LEN]));
      && err == r.err && w.frames == old(w.frames) + r.frames
      && (err.None? ==>
            && w.script == Rest(old(w.script)) && rc.script == old(rc.script)[1..]
            && b[OFF_LEN - 19..OFF_LEN] == r.window)
  {
    ghost var window := b[OFF_LEN - 19..OFF_LEN];
    ghost var script := rc.script;
    var n, from, er := Receive(rc, b);
    if er.Some? {
      return er;
    }
    if from.None? {
      return Some(UnsupportedPeer);
    }
    ghost var body := b[OFF_LEN..OFF_DATA + n];
    var l := PutAligned(b, from.value, window);
    assert b[OFF_LEN..OFF_DATA + n] == body;
    TwoSlices(b[..], OFF_LEN - l, OFF_LEN, OFF_DATA + n);
    err := w.Write(b[OFF_LEN - l..OFF_DATA + n]);
  }

  lemma TwoSlices<T>(s: seq<T>, i: nat, j: nat, k: nat)
    requires i <= j <= k <= |s|
    ensures s[i..k] == s[i..j] + s[j..k]
  {
  }

  /** The packet, and in front of it its length. */
  method Receive(rc: PacketReader, b: array<byte>) returns (n: nat, from: Option<UdpAddr>, err: Option<Error>)
    requires HasCrlf(b)
    modifies rc`script, b
    ensures HasCrlf(b) && n <= ROOM && (err.None? <==> old(rc.script) != [])
    ensures err.Some? ==> err == Some(rc.fin)
    ensures b[OFF_LEN - 19..OFF_LEN] == old(b[OFF_LEN - 19..OFF_LEN])
    ensures err.None? ==>
      && rc.script == old(rc.script)[1..] && from == old(rc.script)[0].from
      && var data := Received(old(rc.script)[0]);
         n == |data| && b[OFF_LEN..OFF_DATA + n] == BigEndian(|data|) + CRLF + data
  {
    ghost var window := b[OFF_LEN - 19..OFF_LEN];
    n, from, err := rc.ReadFrom(b, OFF_DATA);
    assert b[OFF_LEN - 19..OFF_LEN] == window;
    if err.None? {
      PutLength(b, n);
    }
  }

  /** The length, in front of the n data bytes and the CRLF. */
  method PutLength(b: array<byte>, n: nat)
    requires HasCrlf(b) && n <= ROOM
    modifies b
    ensures HasCrlf(b)
    ensures b[OFF_LEN - 19..OFF_LEN] == old(b[OFF_LEN - 19..OFF_LEN])
    ensures b[OFF_LEN..OFF_DATA + n] == BigEndian(n) + CRLF + old(b[OFF_DATA..OFF_DATA + n])
  {
    ghost var data := b[OFF_DATA..OFF_DATA + n];
    b[OFF_LEN], b[OFF_LEN + 1] := (n / 256) % 256, n % 256;
    assert b[OFF_DATA..OFF_DATA + n] == data;
    assert b[OFF_LEN..OFF_DATA] == BigEndian(n) + CRLF;
    assert b[OFF_LEN..OFF_DATA + n] == b[OFF_LEN..OFF_DATA] + b[OFF_DATA..OFF_DATA + n];
  }

  /** The address, ending where the length begins. */
  method PutAligned(b: array<byte>, u: UdpAddr, ghost window: seq<byte>) returns (l: nat)
    requires b.Length == WRITE_BUFFER_LEN && b[OFF_LEN - 19..OFF_LEN] == window
    modifies b
    ensures l == |AddrFor(u, window)|
    ensures b[OFF_LEN - 19..OFF_LEN] == Overlay(window, AddrFor(u, window))
    ensures b[OFF_LEN - l..OFF_LEN] == AddrFor(u, window)
    ensures forall i :: OFF_LEN <= i < b.Length ==> b[i] == old(b[i])
  {
    if To4(u.ip).Some? {
      l := PutIp(b, OFF_LEN - 7, u.ip, u.port);
    } else {
      assert b[OFF_LEN - 18..OFF_LEN - 2] == window[1..17];
      l := PutIp(b, OFF_LEN - 19, u.ip, u.port);
    }
    assert b[OFF_LEN - 19..OFF_LEN - l] == window[..19 - l];
    assert b[OFF_LEN - 19..OFF_LEN] == b[OFF_LEN - 19..OFF_LEN - l] + b[OFF_LEN - l..OFF_LEN];
  }

  /** The loop of HandleUDP's main flow, from the freshly prepared buffer. */
  method EncodeLoop(rc: PacketReader, w: FrameWriter) returns (err: Error)
    modifies rc`script, w
    ensures var r := Encode(old(rc.script), rc.fin, old(w.script), seq(19, _ => 0));
      err == r.err && w.frames == old(w.frames) + r.frames
  {
    var b := new byte[WRITE_BUFFER_LEN](_ => 0);
    b[OFF_LEN + 2], b[OFF_LEN + 3] := 13, 10;
    ghost var window := b[OFF_LEN - 19..OFF_LEN];
    assert window == seq(19, _ => 0);
    ghost var r, before := Encode(rc.script, rc.fin, w.script, window), w.frames;
    var failed := None;
    while failed.None?
      invariant HasCrlf(b)
      invariant failed.None? ==>
        && |window| == 19 && b[OFF_LEN - 19..OFF_LEN] == window
        && Remaining(r, before, w.frames, Encode(rc.script, rc.fin, w.script, window))
      invariant failed.Some? ==> Remaining(r, before, w.frames, Encoded([], failed.value))
      decreases failed.None?, |rc.script|
    {
      EncodeStep(r, before, w.frames, rc.script, rc.fin, w.script, window);
      window := EncodeRound(rc.script, rc.fin, Next(w.script), window).window;
      failed := EncodeOnce(rc, w, b);
    }
    err := failed.value;
  }

  /** Of the run r, the frames after `before` are written, and r' is still to come. */
  ghost predicate Remaining(r: Encoded, before: seq<seq<byte>>, frames: seq<seq<byte>>, r': Encoded) {
    before + r.frames == frames + r'.frames && r.err == r'.err
  }

  lemma EncodeStep(r: Encoded, before: seq<seq<byte>>, frames: seq<seq<byte>>, script: seq<Arrival>, fin: Error,
                   w: seq<Option<Error>>, window: seq<byte>)
    requires |window| == 19
    requires Remaining(r, before, frames, Encode(script, fin, w, window))
    ensures var round := EncodeRound(script, fin, Next(w), window);
      Remaining(r, before, frames + round.frames,
                if round.err.Some? then Encoded([], round.err.value)
                else Encode(script[1..], fin, Rest(w), round.window))
  {
    var round := EncodeRound(script, fin, Next(w), window);
    assert round.frames + [] == round.frames && (frames + round.frames) + [] == frames + round.frames;
    if round.err.None? {
      var later := Encode(script[1..], fin, Rest(w), round.window);
      Regrouped(frames, round.frames, later.frames);
    }
  }
}
