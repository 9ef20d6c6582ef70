/** The reader side of HandleUDP (pkgs/trojan/trojan_udp.go): the frame decoder with its reused buffer and
    one-entry address cache. */
module Datagram {
  import opened Prelude
  import opened Streams
  import opened Socks

  // ---------------------------------------------------------------- the frame format

  datatype Frame = Frame(addr: seq<byte>, payload: seq<byte>)

  predicate IsFrame(f: Frame) {
    IsAddr(f.addr) && |f.payload| <= 65535
  }

  predicate AllFrames(fs: seq<Frame>) {
    forall i :: 0 <= i < |fs| ==> IsFrame(fs[i])
  }

  /** Address, length, CRLF, payload. */
  function Wire(f: Frame): seq<byte> {
    f.addr + (BigEndian(|f.payload|) + CRLF + f.payload)
  }

  function WireAll(fs: seq<Frame>): seq<byte> {
    if fs == [] then [] else Wire(fs[0]) + WireAll(fs[1..])
  }

  /** The length and CRLF after an address are there and right. */
  predicate HasHead(t: seq<byte>) {
    |t| >= 4 && t[2] == 13 && t[3] == 10
  }

  function Announced(t: seq<byte>): nat
    requires HasHead(t)
  {
    Uint16(t[0], t[1])
  }

  /** The frame at the front of s, if there is a whole one. */
  function FirstFrame(s: seq<byte>): (r: Option<Frame>)
    ensures r.Some? ==> IsFrame(r.value)
  {
    match ReadAddrResult(s, EOF)
    case Err(_) => None
    case Ok(n) =>
      var t := s[n..];
      if HasHead(t) && |t| >= 4 + Announced(t) then Some(Frame(s[..n], t[4..4 + Announced(t)])) else None
  }

  /** The front of a stream is the frame f exactly when it starts with f's wire form. */
  lemma {:induction false} FirstFrameExact(s: seq<byte>, f: Frame)
    ensures FirstFrame(s) == Some(f) <==> IsFrame(f) && IsPrefix(Wire(f), s)
  {
    if FirstFrame(s) == Some(f) {
      FrameIsPrefix(s, f);
    }
    if IsFrame(f) && IsPrefix(Wire(f), s) {
      assert s == Wire(f) + s[|Wire(f)|..];
      PrefixIsFrame(f, s[|Wire(f)|..]);
    }
  }

  lemma FrameIsPrefix(s: seq<byte>, f: Frame)
    requires FirstFrame(s) == Some(f)
    ensures IsPrefix(Wire(f), s)
  {
    var n, k := |f.addr|, |f.payload|;
    var t := s[n..];
    assert BigEndian(k) == [t[0], t[1]] by {
      BigEndianOf(t[0], t[1]);
    }
    assert t[..4 + k] == [t[0], t[1]] + [t[2], t[3]] + t[4..4 + k];
    assert s[..n + (4 + k)] == s[..n] + t[..4 + k];
  }

  lemma PrefixIsFrame(f: Frame, rest: seq<byte>)
    requires IsFrame(f)
    ensures FirstFrame(Wire(f) + rest) == Some(f)
  {
    var k := |f.payload|;
    BigEndianExact(k);
    var t := BigEndian(k) + CRLF + f.payload + rest;
    assert Wire(f) + rest == f.addr + t;
    ReadsAddrBack(f.addr, t, EOF);
    assert (f.addr + t)[..|f.addr|] == f.addr && (f.addr + t)[|f.addr|..] == t;
    assert t[4..4 + k] == f.payload;
  }

  /** The plain parser: all whole frames at the front of s, and what follows them. */
  function Parse(s: seq<byte>): (r: (seq<Frame>, seq<byte>))
    ensures s == WireAll(r.0) + r.1
    ensures AllFrames(r.0)
    ensures FirstFrame(r.1) == None
    decreases |s|
  {
    match FirstFrame(s)
    case None => ([], s)
    case Some(f) =>
      FirstFrameExact(s, f);
      var (fs, rest) := Parse(s[|Wire(f)|..]);
      assert ([f] + fs)[1..] == fs;
      assert s == Wire(f) + s[|Wire(f)|..];
      assert Wire(f) + (WireAll(fs) + rest) == (Wire(f) + WireAll(fs)) + rest;
      ([f] + fs, rest)
  }

  /** The parser inverts the wire form: frames followed by an unfinished one come back as themselves. */
  lemma {:induction false} ParseInverts(fs: seq<Frame>, rest: seq<byte>)
    requires AllFrames(fs)
    requires FirstFrame(rest) == None
    ensures Parse(WireAll(fs) + rest) == (fs, rest)
    decreases |fs|
  {
    if fs == [] {
      assert WireAll(fs) + rest == rest;
    } else {
      WireFirst(fs, rest);
      ParseFirst(WireAll(fs) + rest, fs[0]);
      ParseInverts(fs[1..], rest);
      assert [fs[0]] + fs[1..] == fs;
    }
  }

  lemma ParseFirst(s: seq<byte>, f: Frame)
    requires IsFrame(f) && IsPrefix(Wire(f), s)
    ensures var (fs, rest) := Parse(s[|Wire(f)|..]); Parse(s) == ([f] + fs, rest)
  {
    FirstFrameExact(s, f);
  }

  lemma WireFirst(fs: seq<Frame>, rest: seq<byte>)
    requires fs != []
    ensures var s := WireAll(fs) + rest;
      IsPrefix(Wire(fs[0]), s) && s[|Wire(fs[0])|..] == WireAll(fs[1..]) + rest
  {
    assert WireAll(fs) + rest == Wire(fs[0]) + (WireAll(fs[1..]) + rest);
  }

  // ---------------------------------------------------------------- decoding

  datatype Packet = Packet(to: UdpAddr, payload: seq<byte>)

  /** The outcome of one round of the decoding loop on a stream that delivers `s`, then fails with `e`;
      `w` is what the next WriteTo returns. Note that nr grows before the payload has been read. */
  datatype RoundResult = RoundResult(sent: seq<Packet>, nr: nat, err: Option<Error>, rest: seq<byte>)

  function DecodeRound(s: seq<byte>, e: Error, resolver: Resolver, w: Option<Error>): (r: RoundResult)
    ensures r.err.None? ==> |r.rest| < |s|
  {
    match ReadAddrResult(s, e)
    case Err(f) => RoundResult([], 0, Some(f), [])
    case Ok(n) =>
      match ResolveUdpAddr(s[..n], resolver)
      case Err(f) => RoundResult([], 0, Some(f), [])
      case Ok(to) =>
        var r := BodyRound(s[n..], e, to, w);
        if r.err.None? || r.nr > 0 then r.(nr := n + r.nr) else r
  }

  /** The part of a round after the address; its nr leaves the address out. */
  function BodyRound(t: seq<byte>, e: Error, to: UdpAddr, w: Option<Error>): (r: RoundResult)
    ensures r.err.None? ==> |r.rest| < |t| && r.nr > 0
  {
    if |t| < 4 then RoundResult([], 0, Some(FullErr(t, e)), [])
    else if !HasHead(t) then RoundResult([], 0, Some(InvalidCRLF), [])
    else
      var len := Announced(t);
      if |t| < 4 + len then RoundResult([], len + 4, Some(FullErr(t[4..], e)), [])
      else if w.Some? then RoundResult([], len + 4, w, [])
      else RoundResult([Packet(to, t[4..4 + len])], len + 4, None, t[4 + len..])
  }

  datatype Decoded = Decoded(sent: seq<Packet>, nr: nat, err: Error)

  function Next<T>(script: seq<Option<T>>): Option<T> {
    if script == [] then None else script[0]
  }

  function WriteAt(w: seq<Option<Error>>, j: nat): Option<Error> {
    if j < |w| then w[j] else None
  }

  function Rest<T>(script: seq<T>): seq<T> {
    if script == [] then [] else script[1..]
  }

  /** The whole run of the decoder; `w` scripts the results of WriteTo. Every frame is resolved afresh. */
  function Decode(s: seq<byte>, e: Error, resolver: Resolver, w: seq<Option<Error>>): Decoded
    decreases |s|
  {
    var r := DecodeRound(s, e, resolver, Next(w));
    match r.err
    case Some(f) => Decoded(r.sent, r.nr, f)
    case None =>
      var later := Decode(r.rest, e, resolver, Rest(w));
      Decoded(r.sent + later.sent, r.nr + later.nr, later.err)
  }

  /** What the plain parser's frames amount to: they are delivered until one cannot be resolved. */
  function Deliveries(fs: seq<Frame>, resolver: Resolver): seq<Packet>
    requires AllFrames(fs)
  {
    if fs == [] then []
    else
      match ResolveUdpAddr(fs[0].addr, resolver)
      case Err(_) => []
      case Ok(to) => [Packet(to, fs[0].payload)] + Deliveries(fs[1..], resolver)
  }

  predicate AllResolve(fs: seq<Frame>, resolver: Resolver)
    requires AllFrames(fs)
  {
    forall i :: 0 <= i < |fs| ==> ResolveUdpAddr(fs[i].addr, resolver).Ok?
  }

  /** The decoder refines the plain parser: with writes that succeed it forwards exactly the payloads of
      the whole frames, in order, up to the first unresolvable one. nr is the size of those frames plus
      whatever a last, unfinished frame announces. */
  lemma {:induction false} DecodeRefinesParse(s: seq<byte>, e: Error, resolver: Resolver)
    ensures var fs := Parse(s).0; var d := Decode(s, e, resolver, []);
      && d.sent == Deliveries(fs, resolver)
      && (AllResolve(fs, resolver) ==>
            d.nr == |WireAll(fs)| + DecodeRound(Parse(s).1, e, resolver, None).nr
            && Some(d.err) == DecodeRound(Parse(s).1, e, resolver, None).err)
    decreases |s|
  {
    match FirstFrame(s)
    case None =>
      RoundWithoutFrame(s, e, resolver);
    case Some(f) =>
      FirstFrameExact(s, f);
      RoundOnFrame(s, e, resolver, f);
      var rest := s[|Wire(f)|..];
      var fs := Parse(s).0;
      assert fs == [f] + Parse(rest).0 && fs[1..] == Parse(rest).0;
      if ResolveUdpAddr(f.addr, resolver).Ok? {
        DecodeRefinesParse(rest, e, resolver);
        assert AllResolve(fs, resolver) ==> AllResolve(fs[1..], resolver);
      }
  }

  lemma RoundWithoutFrame(s: seq<byte>, e: Error, resolver: Resolver)
    requires FirstFrame(s) == None
    ensures var r := DecodeRound(s, e, resolver, None); r.err.Some? && r.sent == []
  {
    SameAddr(s, e);
  }

  lemma RoundOnFrame(s: seq<byte>, e: Error, resolver: Resolver, f: Frame)
    requires FirstFrame(s) == Some(f)
    ensures var r := DecodeRound(s, e, resolver, None);
      match ResolveUdpAddr(f.addr, resolver)
      case Err(_) => r.err.Some? && r.sent == []
      case Ok(to) => r == RoundResult([Packet(to, f.payload)], |Wire(f)|, None, s[|Wire(f)|..])
  {
    SameAddr(s, e);
    var n := |f.addr|;
    assert s[n..][4 + |f.payload|..] == s[|Wire(f)|..];
  }

  lemma SameAddr(s: seq<byte>, e: Error)
    ensures ReadAddrResult(s, e).Ok? <==> ReadAddrResult(s, EOF).Ok?
    ensures ReadAddrResult(s, e).Ok? ==> ReadAddrResult(s, e) == ReadAddrResult(s, EOF)
  {
  }

  /** For any list of well-formed, resolvable frames, the decoder forwards exactly their payloads and
      counts exactly their bytes, however their concatenation was chunked on the way. */
  lemma DecodeForwards(fs: seq<Frame>, resolver: Resolver)
    requires AllFrames(fs)
    requires AllResolve(fs, resolver)
    ensures Decode(WireAll(fs), EOF, resolver, []) == Decoded(Deliveries(fs, resolver), |WireAll(fs)|, EOF)
    ensures |Deliveries(fs, resolver)| == |fs|
  {
    assert WireAll(fs) + [] == WireAll(fs);
    ParseInverts(fs, []);
    DecodeRefinesParse(WireAll(fs), EOF, resolver);
    DeliversAll(fs, resolver);
  }

  lemma {:induction false} DeliversAll(fs: seq<Frame>, resolver: Resolver)
    requires AllFrames(fs)
    requires AllResolve(fs, resolver)
    ensures |Deliveries(fs, resolver)| == |fs|
    ensures forall i :: 0 <= i < |fs| ==>
      Deliveries(fs, resolver)[i] == Packet(ResolveUdpAddr(fs[i].addr, resolver).value, fs[i].payload)
  {
    if fs != [] {
      assert forall i :: 0 <= i < |fs| - 1 ==> fs[1..][i] == fs[i + 1];
      DeliversAll(fs[1..], resolver);
    }
  }

  // ---------------------------------------------------------------- frames to named hosts

  /** A frame addressed to a named host. */
  datatype Named = Named(host: seq<byte>, port: int, payload: seq<byte>)

  predicate IsNamed(m: Named) {
    |m.host| <= 252 && |m.payload| <= 65535
  }

  function NamedFrame(m: Named): (f: Frame)
    requires IsNamed(m)
    ensures IsFrame(f)
  {
    Frame(DomainAddr(m.host, m.port), m.payload)
  }

  function NamedFrames(ms: seq<Named>): (fs: seq<Frame>)
    requires forall i :: 0 <= i < |ms| ==> IsNamed(ms[i])
    ensures |fs| == |ms| && AllFrames(fs)
    ensures forall i :: 0 <= i < |ms| ==> IsNamed(ms[i]) && fs[i] == NamedFrame(ms[i])
  {
    if ms == [] then []
    else
      assert IsNamed(ms[0]);
      assert forall i :: 0 <= i < |ms| - 1 ==> ms[1..][i] == ms[i + 1];
      [NamedFrame(ms[0])] + NamedFrames(ms[1..])
  }

  /** Frames to named hosts go, in order and with their payloads, where the name service says those very
      names and ports are. */
  lemma DecodeForwardsNamed(ms: seq<Named>, resolver: Resolver)
    requires forall i :: 0 <= i < |ms| ==> IsNamed(ms[i]) && resolver(HostPort(ms[i].host, ms[i].port % 65536)).Some?
    ensures var d := Decode(WireAll(NamedFrames(ms)), EOF, resolver, []);
      && d.err == EOF && |d.sent| == |ms|
      && forall i :: 0 <= i < |ms| ==>
           d.sent[i] == Packet(resolver(HostPort(ms[i].host, ms[i].port % 65536)).value, ms[i].payload)
  {
    var fs := NamedFrames(ms);
    forall i | 0 <= i < |ms|
      ensures ResolveUdpAddr(fs[i].addr, resolver) == Ok(resolver(HostPort(ms[i].host, ms[i].port % 65536)).value)
    {
      NameResolvesExactly(ms[i].host, ms[i].port, resolver, resolver(HostPort(ms[i].host, ms[i].port % 65536)).value);
    }
    DecodeForwards(fs, resolver);
    DeliversAll(fs, resolver);
  }

  /** The wire form, byte by byte, of two bytes for 127.0.0.1:53. */
  lemma FrameBytes()
    ensures Wire(Frame([1, 127, 0, 0, 1, 0, 53], [104, 105])) == [1, 127, 0, 0, 1, 0, 53, 0, 2, 13, 10, 104, 105]
  {
  }

  // ---------------------------------------------------------------- how a stream of frames ends

  /** The stream ends where a read of the decoder begins: between frames, after two bytes of an address,
      after an address that resolves, or after the CRLF. */
  predicate EndsBetweenReads(rest: seq<byte>, resolver: Resolver) {
    || rest == []
    || (|rest| == 2 && AddrLen(rest) != 0)
    || (IsAddr(rest) && ResolveUdpAddr(rest, resolver).Ok?)
    || (|rest| > 4 && IsAddr(rest[..|rest| - 4]) && ResolveUdpAddr(rest[..|rest| - 4], resolver).Ok? && HasHead(rest[|rest| - 4..]))
  }

  /** Which ends of file the decoder takes for a clean end, although a frame may be cut in two: exactly
      those between two of its reads. */
  lemma CleanEndExactly(fs: seq<Frame>, rest: seq<byte>, resolver: Resolver)
    requires AllFrames(fs) && FirstFrame(rest) == None
    requires AllResolve(fs, resolver)
    ensures Decode(WireAll(fs) + rest, EOF, resolver, []).err == EOF <==> EndsBetweenReads(rest, resolver)
  {
    ParseInverts(fs, rest);
    DecodeRefinesParse(WireAll(fs) + rest, EOF, resolver);
    LastRoundEnds(rest, resolver);
  }

  lemma {:induction false} LastRoundEnds(rest: seq<byte>, resolver: Resolver)
    requires FirstFrame(rest) == None
    ensures DecodeRound(rest, EOF, resolver, None).err == Some(EOF) <==> EndsBetweenReads(rest, resolver)
  {
    if |rest| >= 2 && AddrLen(rest) != 0 && |rest| >= AddrLen(rest) {
      var n := AddrLen(rest);
      assert rest[..n][0] == rest[0] && rest[..n][1] == rest[1];
      BodyEnds(rest, n, resolver);
    }
  }

  lemma BodyEnds(rest: seq<byte>, n: nat, resolver: Resolver)
    requires FirstFrame(rest) == None && ReadAddrResult(rest, EOF) == Ok(n)
    ensures DecodeRound(rest, EOF, resolver, None).err == Some(EOF) <==> EndsBetweenReads(rest, resolver)
  {
    var ok := ResolveUdpAddr(rest[..n], resolver).Ok?;
    assert DecodeRound(rest, EOF, resolver, None).err == Some(EOF) <==>
      ok && (|rest| == n || (|rest| == n + 4 && HasHead(rest[n..])));
    WhereAddrEnds(rest, n);
    assert |rest| == n ==> rest[..n] == rest;
  }

  /** The address at the front is the only one. */
  lemma WhereAddrEnds(rest: seq<byte>, n: nat)
    requires ReadAddrResult(rest, EOF) == Ok(n)
    ensures IsAddr(rest) <==> |rest| == n
    ensures |rest| > 4 ==> (IsAddr(rest[..|rest| - 4]) <==> |rest| == n + 4)
    ensures |rest| == 2 ==> AddrLen(rest) == 0
  {
    assert rest[..|rest|] == rest;
    ReadsExactlyAddresses(rest, EOF, |rest|);
    if |rest| > 4 {
      ReadsExactlyAddresses(rest, EOF, |rest| - 4);
    }
  }

  /** Where a run of frames stops early: after the packets of the frames `fs`, at a frame f whose address
      does not resolve, which nr leaves out, or whose write fails, which nr counts. */
  lemma {:induction false} DecodeStops(fs: seq<Frame>, f: Frame, more: seq<byte>, e: Error, resolver: Resolver, w: seq<Option<Error>>)
    requires AllFrames(fs) && IsFrame(f)
    requires AllResolve(fs, resolver) && forall i :: 0 <= i < |fs| ==> WriteAt(w, i).None?
    requires ResolveUdpAddr(f.addr, resolver).Err? || WriteAt(w, |fs|).Some?
    ensures var d := Decode(WireAll(fs) + (Wire(f) + more), e, resolver, w); var r := ResolveUdpAddr(f.addr, resolver);
      && d.sent == Deliveries(fs, resolver)
      && d.err == (if r.Err? then r.error else WriteAt(w, |fs|).value)
      && d.nr == |WireAll(fs)| + if r.Err? then 0 else |Wire(f)|
    decreases |fs|
  {
    if fs == [] {
      assert WireAll(fs) + (Wire(f) + more) == Wire(f) + more;
      RoundStops(f, more, e, resolver, Next(w));
      assert Next(w) == WriteAt(w, 0);
    } else {
      var rest := WireAll(fs[1..]) + (Wire(f) + more);
      assert WireAll(fs) + (Wire(f) + more) == Wire(fs[0]) + rest;
      assert Next(w) == WriteAt(w, 0);
      assert forall i :: 0 <= i < |fs| ==> WriteAt(Rest(w), i) == WriteAt(w, i + 1);
      assert forall i :: 0 <= i < |fs| - 1 ==> fs[1..][i] == fs[i + 1];
      DecodeStops(fs[1..], f, more, e, resolver, Rest(w));
      PrefixIsFrame(fs[0], rest);
      RoundOnFrame(Wire(fs[0]) + rest, e, resolver, fs[0]);
      assert (Wire(fs[0]) + rest)[|Wire(fs[0])|..] == rest;
    }
  }

  lemma RoundStops(f: Frame, more: seq<byte>, e: Error, resolver: Resolver, w: Option<Error>)
    requires IsFrame(f) && (ResolveUdpAddr(f.addr, resolver).Err? || w.Some?)
    ensures var r := DecodeRound(Wire(f) + more, e, resolver, w); var to := ResolveUdpAddr(f.addr, resolver);
      && r.sent == [] && r.err == (if to.Err? then Some(to.error) else w)
      && r.nr == if to.Err? then 0 else |Wire(f)|
  {
    PrefixIsFrame(f, more);
    SameAddr(Wire(f) + more, e);
  }

  /** What an unfinished frame adds to nr: the whole frame, as announced, once its head has come, however
      little of the payload has; nothing before. */
  lemma UnfinishedCounts(f: Frame, cut: nat, resolver: Resolver)
    requires IsFrame(f) && cut < |Wire(f)| && ResolveUdpAddr(f.addr, resolver).Ok?
    ensures DecodeRound(Wire(f)[..cut], EOF, resolver, None).nr == if cut >= |f.addr| + 4 then |Wire(f)| else 0
  {
    var n := |f.addr|;
    var s := Wire(f)[..cut];
    if cut >= n {
      assert s[..n] == Wire(f)[..n] == f.addr;
      ReadsExactlyAddresses(s, EOF, n);
      if cut >= n + 4 {
        CutHead(f, cut);
      }
    } else if cut >= 2 {
      assert s[0] == f.addr[0] && s[1] == f.addr[1];
    }
  }

  lemma CutHead(f: Frame, cut: nat)
    requires IsFrame(f) && |f.addr| + 4 <= cut <= |Wire(f)|
    ensures var t := Wire(f)[..cut][|f.addr|..]; HasHead(t) && Announced(t) == |f.payload|
  {
    var h := BigEndian(|f.payload|) + CRLF;
    BigEndianExact(|f.payload|);
    assert h[0] == BigEndian(|f.payload|)[0] && h[1] == BigEndian(|f.payload|)[1] && h[2] == 13 && h[3] == 10;
    HeadAt(f.addr, h, f.payload, cut);
  }

  lemma HeadAt(a: seq<byte>, h: seq<byte>, p: seq<byte>, cut: nat)
    requires |h| == 4 && |a| + 4 <= cut <= |a| + 4 + |p|
    ensures var t := (a + (h + p))[..cut][|a|..];
      |t| >= 4 && t[0] == h[0] && t[1] == h[1] && t[2] == h[2] && t[3] == h[3]
  {
  }

  // ---------------------------------------------------------------- addresses that panic

  /** A domain name for which Addr.String slices out of range. */
  predicate Fatal(a: seq<byte>)
    requires IsAddr(a)
  {
    a[0] == TYPE_DOMAIN && a[1] >= 254
  }

  lemma FatalExactly(a: seq<byte>, resolver: Resolver)
    requires IsAddr(a)
    ensures ResolveUdpAddr(a, resolver) == Err(Panic) <==> Fatal(a)
  {
    if a[0] == TYPE_DOMAIN {
      DomainTextExact(a);
    }
  }

  /** The stream begins with such an address. */
  predicate StartsFatal(s: seq<byte>) {
    ReadAddrResult(s, EOF).Ok? && Fatal(s[..ReadAddrResult(s, EOF).value])
  }

  lemma RoundPanics(s: seq<byte>, e: Error, resolver: Resolver, w: Option<Error>)
    requires w != Some(Panic)
    ensures StartsFatal(s) ==> DecodeRound(s, e, resolver, w).err == Some(Panic)
    ensures e != Panic && !StartsFatal(s) ==> DecodeRound(s, e, resolver, w).err != Some(Panic)
    ensures w.Some? ==> DecodeRound(s, e, resolver, w).err.Some?
  {
    SameAddr(s, e);
    if ReadAddrResult(s, e).Ok? {
      FatalExactly(s[..ReadAddrResult(s, e).value], resolver);
    }
  }

  /** The i-th frame, or what follows the last one, has such an address. */
  predicate FatalAt(fs: seq<Frame>, rest: seq<byte>, i: nat)
    requires AllFrames(fs) && i <= |fs|
  {
    if i < |fs| then Fatal(fs[i].addr) else StartsFatal(rest)
  }

  /** A round on the frame f whose write returns w goes through. */
  predicate GoesThrough(f: Frame, w: Option<Error>, resolver: Resolver)
    requires IsFrame(f)
  {
    ResolveUdpAddr(f.addr, resolver).Ok? && w.None?
  }

  /** The decoder gets past the first i frames: they resolve, and their writes succeed. */
  predicate Passes(fs: seq<Frame>, i: nat, resolver: Resolver, w: seq<Option<Error>>)
    requires AllFrames(fs) && i <= |fs|
  {
    forall j :: 0 <= j < i ==> GoesThrough(fs[j], WriteAt(w, j), resolver)
  }

  predicate MeetsFatalAfter(fs: seq<Frame>, rest: seq<byte>, resolver: Resolver, w: seq<Option<Error>>)
    requires AllFrames(fs)
  {
    exists i :: 0 <= i <= |fs| && Passes(fs, i, resolver, w) && FatalAt(fs, rest, i)
  }

  /** The decoder gets to such an address. */
  predicate MeetsFatal(s: seq<byte>, resolver: Resolver, w: seq<Option<Error>>) {
    MeetsFatalAfter(Parse(s).0, Parse(s).1, resolver, w)
  }

  lemma PassesLater(f: Frame, fs: seq<Frame>, i: nat, resolver: Resolver, w: seq<Option<Error>>)
    requires IsFrame(f) && AllFrames([f] + fs) && AllFrames(fs) && i <= |fs|
    ensures Passes([f] + fs, i + 1, resolver, w) <==> GoesThrough(f, Next(w), resolver) && Passes(fs, i, resolver, Rest(w))
  {
    var all := [f] + fs;
    assert all[0] == f && WriteAt(w, 0) == Next(w);
    forall j | 0 <= j < |fs|
      ensures GoesThrough(fs[j], WriteAt(Rest(w), j), resolver) <==> GoesThrough(all[j + 1], WriteAt(w, j + 1), resolver)
    {
      assert all[j + 1] == fs[j];
    }
    if GoesThrough(f, Next(w), resolver) && Passes(fs, i, resolver, Rest(w)) {
      forall j | 0 <= j < i + 1
        ensures GoesThrough(all[j], WriteAt(w, j), resolver)
      {
        assert j > 0 ==> GoesThrough(fs[j - 1], WriteAt(Rest(w), j - 1), resolver);
      }
    }
    if Passes(all, i + 1, resolver, w) {
      forall j | 0 <= j < i
        ensures GoesThrough(fs[j], WriteAt(Rest(w), j), resolver)
      {
        assert GoesThrough(all[j + 1], WriteAt(w, j + 1), resolver);
      }
    }
  }

  lemma MeetsFatalInto(f: Frame, fs: seq<Frame>, rest: seq<byte>, resolver: Resolver, w: seq<Option<Error>>)
    requires IsFrame(f) && AllFrames([f] + fs) && AllFrames(fs)
    requires MeetsFatalAfter([f] + fs, rest, resolver, w)
    ensures Fatal(f.addr) || (GoesThrough(f, Next(w), resolver) && MeetsFatalAfter(fs, rest, resolver, Rest(w)))
  {
    var all := [f] + fs;
    var i :| 0 <= i <= |all| && Passes(all, i, resolver, w) && FatalAt(all, rest, i);
    if i > 0 {
      PassesLater(f, fs, i - 1, resolver, w);
      assert FatalAt(fs, rest, i - 1);
    }
  }

  lemma MeetsFatalLater(f: Frame, fs: seq<Frame>, rest: seq<byte>, resolver: Resolver, w: seq<Option<Error>>)
    requires IsFrame(f) && AllFrames([f] + fs) && AllFrames(fs)
    ensures MeetsFatalAfter([f] + fs, rest, resolver, w) <==>
      Fatal(f.addr) || (GoesThrough(f, Next(w), resolver) && MeetsFatalAfter(fs, rest, resolver, Rest(w)))
  {
    var all := [f] + fs;
    if MeetsFatalAfter(all, rest, resolver, w) {
      MeetsFatalInto(f, fs, rest, resolver, w);
    }
    if Fatal(f.addr) {
      assert Passes(all, 0, resolver, w) && FatalAt(all, rest, 0);
    } else if GoesThrough(f, Next(w), resolver) && MeetsFatalAfter(fs, rest, resolver, Rest(w)) {
      var i :| 0 <= i <= |fs| && Passes(fs, i, resolver, Rest(w)) && FatalAt(fs, rest, i);
      PassesLater(f, fs, i, resolver, w);
      assert FatalAt(all, rest, i + 1);
    }
  }

  /** The decoder panics exactly when it gets to such an address. */
  lemma {:induction false} PanicsExactly(s: seq<byte>, e: Error, resolver: Resolver, w: seq<Option<Error>>)
    requires e != Panic && forall i :: 0 <= i < |w| ==> w[i] != Some(Panic)
    ensures Decode(s, e, resolver, w).err == Panic <==> MeetsFatal(s, resolver, w)
    decreases |s|
  {
    RoundPanics(s, e, resolver, Next(w));
    match FirstFrame(s)
    case None =>
      NoFramePanics(s, e, resolver, w);
    case Some(f) =>
      ParseAfterFirst(s, f);
      var rest := s[|Wire(f)|..];
      MeetsFatalLater(f, Parse(rest).0, Parse(rest).1, resolver, w);
      RoundOnFrameWith(s, e, resolver, f, Next(w));
      FatalExactly(f.addr, resolver);
      if GoesThrough(f, Next(w), resolver) {
        PanicsExactly(rest, e, resolver, Rest(w));
      }
  }

  lemma NoFramePanics(s: seq<byte>, e: Error, resolver: Resolver, w: seq<Option<Error>>)
    requires e != Panic && Next(w) != Some(Panic) && FirstFrame(s) == None
    ensures Decode(s, e, resolver, w).err == Panic <==> MeetsFatal(s, resolver, w)
  {
    RoundPanics(s, e, resolver, Next(w));
    RoundEndsWithoutFrame(s, e, resolver, Next(w));
    assert Passes([], 0, resolver, w);
  }

  lemma ParseAfterFirst(s: seq<byte>, f: Frame)
    requires FirstFrame(s) == Some(f)
    ensures IsFrame(f) && |Wire(f)| <= |s| && |Wire(f)| > 0
    ensures var (fs, rest) := Parse(s[|Wire(f)|..]); Parse(s) == ([f] + fs, rest)
    ensures StartsFatal(s) <==> Fatal(f.addr)
  {
    FirstFrameExact(s, f);
    ParseFirst(s, f);
  }

  lemma RoundEndsWithoutFrame(s: seq<byte>, e: Error, resolver: Resolver, w: Option<Error>)
    requires FirstFrame(s) == None
    ensures DecodeRound(s, e, resolver, w).err.Some?
  {
    SameAddr(s, e);
  }

  lemma RoundOnFrameWith(s: seq<byte>, e: Error, resolver: Resolver, f: Frame, w: Option<Error>)
    requires FirstFrame(s) == Some(f)
    ensures var r := DecodeRound(s, e, resolver, w);
      if ResolveUdpAddr(f.addr, resolver).Ok? && w.None? then r.err.None? && r.rest == s[|Wire(f)|..]
      else r.err.Some?
  {
    if w.None? {
      RoundOnFrame(s, e, resolver, f);
    } else {
      SameAddr(s, e);
    }
  }

  lemma FewerWrites(s: seq<byte>, resolver: Resolver, w: seq<Option<Error>>)
    ensures MeetsFatal(s, resolver, w) ==> MeetsFatal(s, resolver, [])
  {
    var fs, rest := Parse(s).0, Parse(s).1;
    if i :| 0 <= i <= |fs| && Passes(fs, i, resolver, w) && FatalAt(fs, rest, i) {
      assert forall j :: 0 <= j < i ==> GoesThrough(fs[j], WriteAt(w, j), resolver) ==> GoesThrough(fs[j], WriteAt([], j), resolver);
      assert Passes(fs, i, resolver, []);
    }
  }

  // ---------------------------------------------------------------- the decoding loop and its cache

  /** A *net.UDPAddr as ResolveUDPAddr returns it: for an IP address the IP slice points into the buffer
      the address was read into, so it changes with that buffer. */
  datatype Target =
    | Nil
    | Shared(lo: nat, hi: nat, port: int)
    | Owned(addr: UdpAddr)

  function ResolveShared(a: seq<byte>, resolver: Resolver): Result<Target, Error>
    requires IsAddr(a)
  {
    if a[0] == TYPE_IPV4 then Ok(Shared(1, 5, Uint16(a[5], a[6])))
    else if a[0] == TYPE_DOMAIN then
      match DomainText(a)
      case Err(e) => Err(e)
      case Ok(hp) =>
        (match resolver(hp)
         case Some(u) => Ok(Owned(u))
         case None => Err(Other(0)))
    else Ok(Shared(1, 17, Uint16(a[17], a[18])))
  }

  /** The address a target stands for while the read buffer holds b. */
  function Deref(t: Target, b: seq<byte>): Option<UdpAddr> {
    match t
    case Nil => None
    case Owned(u) => Some(u)
    case Shared(lo, hi, port) => if lo <= hi <= |b| then Some(UdpAddr(b[lo..hi], port)) else None
  }

  /** What the cache means: when bb is an address, tt is its resolution. */
  ghost predicate CacheOk(bb: seq<byte>, tt: Target, resolver: Resolver) {
    IsAddr(bb) ==> ResolveShared(bb, resolver) == Ok(tt)
  }

  /** A cached target, read through a buffer that again starts with the cached address, is what
      resolving that address afresh gives; bytes beyond the address do not matter. */
  lemma CacheAgrees(a: seq<byte>, tt: Target, b: seq<byte>, resolver: Resolver)
    requires IsAddr(a) && IsPrefix(a, b)
    ensures ResolveShared(a, resolver) == Ok(tt) ==>
      Deref(tt, b).Some? && ResolveUdpAddr(a, resolver) == Ok(Deref(tt, b).value)
    ensures ResolveShared(a, resolver).Err? ==> ResolveUdpAddr(a, resolver) == Err(ResolveShared(a, resolver).error)
  {
    assert forall i :: 0 <= i < |a| ==> a[i] == b[..|a|][i] == b[i];
    if a[0] == TYPE_IPV4 {
      assert b[1..5] == a[1..5];
    } else if a[0] == TYPE_IPV6 {
      assert b[1..17] == a[1..17];
    }
  }

  class PacketConn {
    var script: seq<Option<Error>>
    var sent: seq<Packet>

    constructor (script: seq<Option<Error>>)
      ensures this.script == script && sent == []
    {
      this.script, sent := script, [];
    }

    method WriteTo(payload: seq<byte>, to: UdpAddr) returns (err: Option<Error>)
      modifies this
      ensures err == Next(old(script)) && script == Rest(old(script))
      ensures sent == old(sent) + if err.None? then [Packet(to, payload)] else []
    {
      err := Next(script);
      script := Rest(script);
      if err.None? {
        sent := sent + [Packet(to, payload)];
      }
    }
  }

  const READ_BUFFER_LEN := 64 * 1024 + MAX_ADDR_LEN

  /** The cache lookup: b[..n] is the address just read, bb[..bl] the cached one. */
  method Lookup(b: array<byte>, n: nat, bb: array<byte>, bl: nat, tt: Target, resolver: Resolver)
    returns (bl': nat, tt': Target, err: Option<Error>)
    requires b != bb && n <= bb.Length && n <= b.Length && bl <= bb.Length && IsAddr(b[..n])
    requires CacheOk(bb[..bl], tt, resolver)
    modifies bb
    ensures bl' <= bb.Length && CacheOk(bb[..bl'], tt', resolver)
    ensures match err
            case None => ResolveShared(b[..n], resolver) == Ok(tt')
            case Some(e) => ResolveShared(b[..n], resolver) == Err(e)
  {
    bl', tt', err := bl, tt, None;
    ghost var a := b[..n];
    if bb[..bl] != b[..n] {
      var r := ResolveShared(b[..n], resolver);
      if r.Err? {
        err := Some(r.error);
        return;
      }
      forall i | 0 <= i < n {
        bb[i] := b[i];
      }
      assert bb[..n] == a && b[..n] == a;
      bl', tt' := n, r.value;
    }
  }

  /** The length and CRLF behind the address in b[..n]. */
  method ReadHead(src: Source, b: array<byte>, n: nat, ghost t: seq<byte>, ghost e: Error)
    returns (len: nat, err: Option<Error>)
    requires n + 4 <= b.Length && Delivers(src.script, src.fin, t, e)
    modifies src`script, b
    ensures b[..n] == old(b[..n])
    ensures err == if |t| < 4 then Some(FullErr(t, e)) else if !HasHead(t) then Some(InvalidCRLF) else None
    ensures err.None? ==> len == Announced(t) && Delivers(src.script, src.fin, t[4..], e)
  {
    len := 0;
    err := ReadFull(src, b, n, 4, t, e);
    if err.Some? {
      return;
    }
    ghost var head := b[n..n + 4];
    assert head[0] == b[n] == t[0] && head[1] == b[n + 1] == t[1];
    assert head[2] == b[n + 2] == t[2] && head[3] == b[n + 3] == t[3];
    if b[n + 2] != 13 || b[n + 3] != 10 {
      err := Some(InvalidCRLF);
      return;
    }
    len := Uint16(b[n], b[n + 1]);
  }

  /** The payload, read over the length behind the address, and sent on to the target. */
  method ForwardPayload(src: Source, rc: PacketConn, b: array<byte>, n: nat, len: nat, tt: Target, ghost to: UdpAddr,
                        ghost a: seq<byte>, resolver: Resolver, ghost t: seq<byte>, ghost e: Error)
    returns (err: Option<Error>)
    requires n + len <= b.Length
    requires b[..n] == a && IsAddr(a)
    requires ResolveShared(a, resolver) == Ok(tt) && ResolveUdpAddr(a, resolver) == Ok(to)
    requires Delivers(src.script, src.fin, t, e)
    modifies src`script, rc, b
    ensures |t| < len ==> err == Some(FullErr(t, e)) && rc.sent == old(rc.sent)
    ensures |t| >= len ==>
      && err == Next(old(rc.script)) && rc.script == Rest(old(rc.script))
      && rc.sent == old(rc.sent) + (if err.None? then [Packet(to, t[..len])] else [])
      && Delivers(src.script, src.fin, t[len..], e)
  {
    err := ReadFull(src, b, n, len, t, e);
    if err.Some? {
      return;
    }
    err := SendShared(rc, b, n, len, tt, to, a, resolver);
  }

  /** WriteTo with a target that may point into the buffer the payload is in. */
  method SendShared(rc: PacketConn, b: array<byte>, n: nat, len: nat, tt: Target, ghost to: UdpAddr,
                    ghost a: seq<byte>, resolver: Resolver)
    returns (err: Option<Error>)
    requires n + len <= b.Length
    requires b[..n] == a && IsAddr(a)
    requires ResolveShared(a, resolver) == Ok(tt) && ResolveUdpAddr(a, resolver) == Ok(to)
    modifies rc
    ensures err == Next(old(rc.script)) && rc.script == Rest(old(rc.script))
    ensures rc.sent == old(rc.sent) + (if err.None? then [Packet(to, b[n..n + len])] else [])
  {
    ghost var all := b[..];
    assert all[..n] == a;
    CacheAgrees(a, tt, all, resolver);
    err := rc.WriteTo(b[n..n + len], Deref(tt, b[..]).value);
  }

  /** A round after the lookup; k is what is added to nr. */
  method ForwardBody(src: Source, rc: PacketConn, b: array<byte>, n: nat, tt: Target, ghost to: UdpAddr,
                     ghost a: seq<byte>, resolver: Resolver, ghost t: seq<byte>, ghost e: Error)
    returns (k: nat, err: Option<Error>)
    requires b.Length == READ_BUFFER_LEN && n <= MAX_ADDR_LEN
    requires b[..n] == a && IsAddr(a)
    requires ResolveShared(a, resolver) == Ok(tt) && ResolveUdpAddr(a, resolver) == Ok(to)
    requires Delivers(src.script, src.fin, t, e)
    modifies src`script, rc, b
    ensures var r := BodyRound(t, e, to, Next(old(rc.script)));
      && err == r.err
      && k == (if r.nr > 0 then n + r.nr else 0)
      && rc.sent == old(rc.sent) + r.sent
      && (err.None? ==> rc.script == Rest(old(rc.script)) && Delivers(src.script, src.fin, r.rest, e))
  {
    k := 0;
    var len;
    len, err := ReadHead(src, b, n, t, e);
    if err.Some? {
      return;
    }
    k := n + len + 4;
    err := ForwardPayload(src, rc, b, n, len, tt, to, a, resolver, t[4..], e);
    assert |t| >= 4 + len ==> t[4..][..len] == t[4..4 + len] && t[4..][len..] == t[4 + len..];
  }

  /** One round of the loop. */
  method DecodeOnce(src: Source, rc: PacketConn, b: array<byte>, bb: array<byte>, bl: nat, tt: Target,
                    resolver: Resolver, ghost s: seq<byte>, ghost e: Error)
    returns (bl': nat, tt': Target, k: nat, err: Option<Error>)
    requires b != bb && b.Length == READ_BUFFER_LEN && bb.Length == MAX_ADDR_LEN && bl <= bb.Length
    requires CacheOk(bb[..bl], tt, resolver)
    requires Delivers(src.script, src.fin, s, e)
    modifies src`script, rc, b, bb
    ensures bl' <= bb.Length && CacheOk(bb[..bl'], tt', resolver)
    ensures var r := DecodeRound(s, e, resolver, Next(old(rc.script)));
      && err == r.err && k == r.nr
      && rc.sent == old(rc.sent) + r.sent
      && (err.None? ==> rc.script == Rest(old(rc.script)) && Delivers(src.script, src.fin, r.rest, e))
  {
    bl', tt', k := bl, tt, 0;
    var addr := ReadAddrBuffer(src, b, 0, s, e);
    if addr.Err? {
      err := Some(addr.error);
      return;
    }
    var n := addr.value;
    ghost var a := s[..n];
    assert b[..n] == b[0..n] == a;
    bl', tt', err := Lookup(b, n, bb, bl, tt, resolver);
    assert b[..][..n] == a;
    CacheAgrees(a, tt', b[..], resolver);
    if err.Some? {
      return;
    }
    ghost var to := ResolveUdpAddr(a, resolver).value;
    k, err := ForwardBody(src, rc, b, n, tt', to, a, resolver, s[n..], e);
  }

  /** The reader goroutine of HandleUDP: it does what decoding the stream with every frame resolved
      afresh does, for every way the stream may be cut into reads. */
  method DecodeLoop(src: Source, rc: PacketConn, resolver: Resolver, ghost s: seq<byte>, ghost e: Error)
    returns (nr: nat, err: Error)
    requires Delivers(src.script, src.fin, s, e)
    modifies src`script, rc
    ensures var d := Decode(s, e, resolver, old(rc.script));
      nr == d.nr && err == d.err && rc.sent == old(rc.sent) + d.sent
  {
    var b := new byte[READ_BUFFER_LEN](_ => 0);
    var bb := new byte[MAX_ADDR_LEN](_ => 0);
    var bl: nat, tt := MAX_ADDR_LEN, Nil;
    assert bb[..bl][0] == 0;
    ghost var d, before, rest := Decode(s, e, resolver, rc.script), rc.sent, s;
    nr := 0;
    var failed := None;
    while failed.None?
      invariant bl <= bb.Length && CacheOk(bb[..bl], tt, resolver)
      invariant failed.None? ==> Delivers(src.script, src.fin, rest, e)
      invariant failed.None? ==> Continues(d, before, rc.sent, nr, ToCome(None, rest, e, resolver, rc.script))
      invariant failed.Some? ==> Continues(d, before, rc.sent, nr, Decoded([], 0, failed.value))
      decreases failed.None?, |rest|
    {
      ghost var r := DecodeRound(rest, e, resolver, Next(rc.script));
      DecodeStep(d, before, rc.sent, nr, rest, e, resolver, rc.script);
      var k;
      bl, tt, k, failed := DecodeOnce(src, rc, b, bb, bl, tt, resolver, rest, e);
      nr := nr + k;
      rest := r.rest;
    }
    err := failed.value;
  }

  /** Of the run d, what was sent since `before` is done, and d' is still to come. */
  ghost predicate Continues(d: Decoded, before: seq<Packet>, sent: seq<Packet>, nr: nat, d': Decoded) {
    before + d.sent == sent + d'.sent && d.nr == nr + d'.nr && d.err == d'.err
  }

  ghost function ToCome(failed: Option<Error>, rest: seq<byte>, e: Error, resolver: Resolver, w: seq<Option<Error>>): Decoded {
    if failed.Some? then Decoded([], 0, failed.value) else Decode(rest, e, resolver, w)
  }

  lemma DecodeStep(d: Decoded, before: seq<Packet>, sent: seq<Packet>, nr: nat, s: seq<byte>, e: Error,
                   resolver: Resolver, w: seq<Option<Error>>)
    requires Continues(d, before, sent, nr, Decode(s, e, resolver, w))
    ensures var r := DecodeRound(s, e, resolver, Next(w));
      Continues(d, before, sent + r.sent, nr + r.nr, ToCome(r.err, r.rest, e, resolver, Rest(w)))
  {
    var r := DecodeRound(s, e, resolver, Next(w));
    var d' := ToCome(r.err, r.rest, e, resolver, Rest(w));
    assert Decode(s, e, resolver, w) == Decoded(r.sent + d'.sent, r.nr + d'.nr, d'.err);
    Append(d, before, sent, nr, r.sent, r.nr, d');
  }

  lemma Append(d: Decoded, before: seq<Packet>, sent: seq<Packet>, nr: nat, more: seq<Packet>, k: nat, d': Decoded)
    requires Continues(d, before, sent, nr, Decoded(more + d'.sent, k + d'.nr, d'.err))
    ensures Continues(d, before, sent + more, nr + k, d')
  {
    assert sent + (more + d'.sent) == (sent + more) + d'.sent;
  }
}
