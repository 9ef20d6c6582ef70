/** The address codec of section 5 of RFC 1928 (pkgs/socks/addr.go). */
module Socks {
  import opened Prelude
  import opened Streams

  const MAX_ADDR_LEN := 259
  const TYPE_IPV4: byte := 1
  const TYPE_DOMAIN: byte := 3
  const TYPE_IPV6: byte := 4

  /** The length announced by the first two bytes; 0 for an unknown address type. */
  function AddrLen(s: seq<byte>): nat
    requires |s| >= 2
  {
    if s[0] == TYPE_IPV4 then 7
    else if s[0] == TYPE_DOMAIN then 4 + s[1] as int
    else if s[0] == TYPE_IPV6 then 19
    else 0
  }

  /** A complete address, as every codec entry point hands it out. */
  predicate IsAddr(a: seq<byte>) {
    |a| >= 2 && AddrLen(a) != 0 && |a| == AddrLen(a)
  }

  /** What ReadAddrBuffer finds in a stream that delivers `s` and then fails with `e`: the address
      length, or the error of whichever of its two reads came up short. */
  function ReadAddrResult(s: seq<byte>, e: Error): (r: Result<nat, Error>)
    ensures r.Ok? ==> 4 <= r.value <= |s| && r.value <= MAX_ADDR_LEN && IsAddr(s[..r.value])
  {
    if |s| < 2 then Err(FullErr(s, e))
    else if AddrLen(s) == 0 then Err(InvalidAddrType)
    else if |s| < AddrLen(s) then Err(FullErr(s[2..], e))
    else Ok(AddrLen(s))
  }

  /** The bytes after the first two of an address, read behind them. */
  method ReadRest(src: Source, b: array<byte>, off: nat, more: nat, ghost s: seq<byte>, ghost e: Error)
    returns (err: Option<Error>)
    requires off + 2 + more <= b.Length && |s| >= 2 && b[off..off + 2] == s[..2]
    requires Delivers(src.script, src.fin, s[2..], e)
    modifies src`script, b
    ensures forall i :: 0 <= i < off || off + 2 + more <= i < b.Length ==> b[i] == old(b[i])
    ensures var n := 2 + more;
      if |s| < n then err == Some(FullErr(s[2..], e))
      else err == None && b[off..off + n] == s[..n] && Delivers(src.script, src.fin, s[n..], e)
  {
    ghost var head := b[off..off + 2];
    err := ReadFull(src, b, off + 2, more, s[2..], e);
    assert b[off..off + 2] == head;
    if err.None? {
      assert b[off..off + (2 + more)] == b[off..off + 2] + b[off + 2..off + 2 + more];
      TakeTwice(s, 2, 2 + more);
    }
  }

  /** ReadAddrBuffer(src, b[off:]): the address lands at b[off..off+n]. */
  method ReadAddrBuffer(src: Source, b: array<byte>, off: nat, ghost s: seq<byte>, ghost e: Error)
    returns (r: Result<nat, Error>)
    requires off + MAX_ADDR_LEN <= b.Length
    requires Delivers(src.script, src.fin, s, e)
    modifies src`script, b
    ensures r == ReadAddrResult(s, e)
    ensures forall i :: 0 <= i < off || off + MAX_ADDR_LEN <= i < b.Length ==> b[i] == old(b[i])
    ensures r.Ok? ==>
      && b[off..off + r.value] == s[..r.value]
      && Delivers(src.script, src.fin, s[r.value..], e)
      && forall i :: off + r.value <= i < b.Length ==> b[i] == old(b[i])
  {
    var err := ReadFull(src, b, off, 2, s, e);
    if err.Some? {
      return Err(err.value);
    }
    ghost var head := b[off..off + 2];
    assert head[0] == s[0] && head[1] == s[1];
    assert b[off] == head[0] && b[off + 1] == head[1];
    var n: nat;
    if b[off] == TYPE_IPV4 {
      n := 1 + 4 + 2;
    } else if b[off] == TYPE_DOMAIN {
      n := 1 + 1 + b[off + 1] as int + 2;
    } else if b[off] == TYPE_IPV6 {
      n := 1 + 16 + 2;
    } else {
      return Err(InvalidAddrType);
    }
    assert head == s[..2];
    err := ReadRest(src, b, off, n - 2, s, e);
    if err.Some? {
      return Err(err.value);
    }
    r := Ok(n);
  }

  /** ParseAddr on a byte slice. */
  function ParseAddr(s: seq<byte>): Result<nat, Error> {
    if |s| < 1 + 1 + 1 + 2 then Err(InvalidAddrLen)
    else if s[0] == TYPE_IPV4 then
      if |s| < 1 + 4 + 2 then Err(InvalidAddrLen) else Ok(1 + 4 + 2)
    else if s[0] == TYPE_DOMAIN then
      if |s| < 1 + 1 + s[1] as int + 2 then Err(InvalidAddrLen) else Ok(1 + 1 + s[1] as int + 2)
    else if s[0] == TYPE_IPV6 then
      if |s| < 1 + 16 + 2 then Err(InvalidAddrLen) else Ok(1 + 16 + 2)
    else Err(InvalidAddrType)
  }

  /** The stream reader and the slice parser accept the same addresses, except the one four-byte
      address there is (an empty domain name), which the slice parser turns away for its length. */
  lemma StreamAndSliceAgree(s: seq<byte>, e: Error)
    ensures ParseAddr(s).Ok? ==> ReadAddrResult(s, e) == ParseAddr(s)
    ensures ReadAddrResult(s, e).Ok? && ParseAddr(s).Err? <==> |s| == 4 && s[0] == TYPE_DOMAIN && s[1] == 0
    ensures |s| >= 5 && !e.InvalidAddrType? ==>
      (ReadAddrResult(s, e) == Err(InvalidAddrType) <==> ParseAddr(s) == Err(InvalidAddrType))
  {
  }

  /** Exactness: the reader accepts a stream just when it starts with an address, and takes that address. */
  lemma {:induction false} ReadsExactlyAddresses(s: seq<byte>, e: Error, n: nat)
    ensures ReadAddrResult(s, e) == Ok(n) <==> n <= |s| && IsAddr(s[..n])
  {
    if n <= |s| && IsAddr(s[..n]) {
      assert s[..n][0] == s[0] && s[..n][1] == s[1];
    }
  }

  /** The code is prefix-free, so a stream splits into address and remainder in one way only. */
  lemma PrefixFree(a: seq<byte>, s: seq<byte>, a': seq<byte>, s': seq<byte>)
    requires IsAddr(a) && IsAddr(a') && a + s == a' + s'
    ensures a == a' && s == s'
  {
    assert (a + s)[0] == a[0] && (a + s)[1] == a[1];
    assert (a' + s')[0] == a'[0] && (a' + s')[1] == a'[1];
    assert a == (a + s)[..|a|] && a' == (a' + s')[..|a'|];
    assert s == (a + s)[|a|..] && s' == (a' + s')[|a'|..];
  }

  lemma ReadsAddrBack(a: seq<byte>, t: seq<byte>, e: Error)
    requires IsAddr(a)
    ensures ReadAddrResult(a + t, e) == Ok(|a|)
  {
    assert (a + t)[0] == a[0] && (a + t)[1] == a[1];
  }

  // ---------------------------------------------------------------- IP addresses

  const V4_IN_V6: seq<byte> := [0, 0, 0, 0, 0, 0, 0, 0, 0, 0, 255, 255]

  /** net.IP.To4 */
  function To4(ip: seq<byte>): Option<seq<byte>> {
    if |ip| == 4 then Some(ip)
    else if |ip| == 16 && ip[..12] == V4_IN_V6 then Some(ip[12..])
    else None
  }

  /** net.IP.To16 */
  function To16(ip: seq<byte>): Option<seq<byte>> {
    if |ip| == 4 then Some(V4_IN_V6 + ip)
    else if |ip| == 16 then Some(ip)
    else None
  }

  /** The To4-normal form: four bytes whenever the address is an IPv4 one. */
  function NormalIp(ip: seq<byte>): seq<byte> {
    match To4(ip)
    case Some(v4) => v4
    case None => ip
  }

  predicate IsIp(ip: seq<byte>) {
    |ip| == 4 || |ip| == 16
  }

  datatype UdpAddr = UdpAddr(ip: seq<byte>, port: int)

  /** byte(v >> 8), byte(v) */
  function BigEndian(v: int): (r: seq<byte>)
    ensures |r| == 2
  {
    [(v / 256) % 256, v % 256]
  }

  function Uint16(hi: byte, lo: byte): int {
    hi as int * 256 + lo as int
  }

  /** The conversions keep the value modulo 65536. */
  lemma BigEndianExact(v: int)
    ensures Uint16(BigEndian(v)[0], BigEndian(v)[1]) == v % 65536
  {
    var high := v / 256;
    assert v == 65536 * (high / 256) + (256 * (high % 256) + v % 256);
  }

  /** And the more significant byte comes first: the bytes are ordered as the values are. */
  lemma BigEndianOrdered(v: int, w: int)
    requires 0 <= v < w < 65536
    ensures var a, b := BigEndian(v), BigEndian(w); a[0] < b[0] || (a[0] == b[0] && a[1] < b[1])
  {
    BigEndianExact(v);
    BigEndianExact(w);
  }

  /** The bytes ResolveAddrBuffer and the UDP writer produce for an IP address and port. `stale` is what
      the sixteen address bytes of the buffer held before: To16 of a malformed IP copies nothing. */
  function EncodeIp(ip: seq<byte>, port: int, stale: seq<byte>): (r: seq<byte>)
    requires |stale| == 16
    ensures IsAddr(r)
  {
    match To4(ip)
    case Some(v4) => [TYPE_IPV4] + v4 + BigEndian(port)
    case None => [TYPE_IPV6] + To16(ip).GetOr(stale) + BigEndian(port)
  }

  lemma BigEndianOf(hi: byte, lo: byte)
    ensures BigEndian(Uint16(hi, lo)) == [hi, lo]
  {
  }

  /** A domain name with its port, as Addr.String would print it; Panic when it slices out of range. */
  datatype HostPort = HostPort(host: seq<byte>, port: int)

  /** Addr.String on a domain address. The Go code adds 2 (and 1) to the length byte in byte
      arithmetic, so the sums wrap at 256. */
  function DomainText(a: seq<byte>): Result<HostPort, Error>
    requires IsAddr(a) && a[0] == TYPE_DOMAIN
  {
    var end := (2 + a[1] as int) % 256;
    if end < 2 then Err(Panic)
    else Ok(HostPort(a[2..end], Uint16(a[end], a[(end + 1) % 256])))
  }

  /** What the address says: the host between the length byte and the port. */
  function DomainMeaning(a: seq<byte>): HostPort
    requires IsAddr(a) && a[0] == TYPE_DOMAIN
  {
    HostPort(a[2..|a| - 2], Uint16(a[|a| - 2], a[|a| - 1]))
  }

  /** Addr.String means what the address says exactly for names of at most 252 bytes; a 253-byte name
      gets its type byte as the low half of the port, and longer names panic. */
  lemma DomainTextExact(a: seq<byte>)
    requires IsAddr(a) && a[0] == TYPE_DOMAIN
    ensures DomainText(a) == Ok(DomainMeaning(a)) <==> a[1] <= 252 || (a[1] == 253 && a[256] == TYPE_DOMAIN)
    ensures DomainText(a) == Err(Panic) <==> a[1] >= 254
  {
    if a[1] <= 252 {
      assert (2 + a[1] as int) % 256 == 2 + a[1] == |a| - 2;
    } else if a[1] == 253 {
      assert a[255..][0] == a[255];
    } else {
      assert (2 + a[1] as int) % 256 == a[1] - 254;
    }
  }

  /** The name service, as a function of host and port. */
  type Resolver = HostPort -> Option<UdpAddr>

  /** ResolveUDPAddr (ResolveTCPAddr is the same with the TCP resolver). For IP addresses the result
      shares its bytes with the argument; see Datagram. */
  function ResolveUdpAddr(a: seq<byte>, resolver: Resolver): Result<UdpAddr, Error>
    requires IsAddr(a)
  {
    if a[0] == TYPE_IPV4 then Ok(UdpAddr(a[1..5], Uint16(a[5], a[6])))
    else if a[0] == TYPE_DOMAIN then
      match DomainText(a)
      case Err(e) => Err(e)
      case Ok(hp) =>
        (match resolver(hp)
         case Some(u) => Ok(u)
         case None => Err(Other(0)))
    else Ok(UdpAddr(a[1..17], Uint16(a[17], a[18])))
  }

  // ---------------------------------------------------------------- names

  /** The address of a named host: its length, the name, the port. */
  function DomainAddr(host: seq<byte>, port: int): (a: seq<byte>)
    requires |host| <= 255
    ensures IsAddr(a)
  {
    [3, |host|] + host + BigEndian(port)
  }

  lemma DomainAddrMeans(host: seq<byte>, port: int)
    requires |host| <= 255
    ensures DomainMeaning(DomainAddr(host, port)) == HostPort(host, port % 65536)
  {
    var a := DomainAddr(host, port);
    BigEndianExact(port);
    assert a[2..|a| - 2] == host;
    assert a[|a| - 2] == BigEndian(port)[0] && a[|a| - 1] == BigEndian(port)[1];
  }

  /** A named host of at most 252 bytes resolves to what the name service has for that very name and port. */
  lemma NameResolvesExactly(host: seq<byte>, port: int, resolver: Resolver, u: UdpAddr)
    requires |host| <= 252
    ensures ResolveUdpAddr(DomainAddr(host, port), resolver) == Ok(u) <==> resolver(HostPort(host, port % 65536)) == Some(u)
    ensures ResolveUdpAddr(DomainAddr(host, port), resolver).Err? <==> resolver(HostPort(host, port % 65536)) == None
  {
    DomainAddrMeans(host, port);
    DomainTextExact(DomainAddr(host, port));
  }

  /** Every domain address is the address of some named host. */
  lemma DomainAddrOf(a: seq<byte>)
    requires IsAddr(a) && a[0] == TYPE_DOMAIN
    ensures a == DomainAddr(DomainMeaning(a).host, DomainMeaning(a).port)
  {
    BigEndianOf(a[|a| - 2], a[|a| - 1]);
    assert a == [a[0], a[1]] + a[2..|a| - 2] + [a[|a| - 2], a[|a| - 1]];
  }

  // ---------------------------------------------------------------- addresses and bytes

  /** The written bytes, spelled out: four address bytes under type 1 for IPv4, in either of its forms,
      sixteen under type 4 otherwise. */
  lemma EncodesAs(ip: seq<byte>, port: int, stale: seq<byte>)
    requires |stale| == 16
    ensures |ip| == 4 ==> EncodeIp(ip, port, stale) == [1] + ip + BigEndian(port)
    ensures |ip| == 16 && ip[..12] == [0, 0, 0, 0, 0, 0, 0, 0, 0, 0, 255, 255] ==>
      EncodeIp(ip, port, stale) == [1] + ip[12..] + BigEndian(port)
    ensures |ip| == 16 && ip[..12] != [0, 0, 0, 0, 0, 0, 0, 0, 0, 0, 255, 255] ==>
      EncodeIp(ip, port, stale) == [4] + ip + BigEndian(port)
  {
  }

  /** Encoding an IP address and port and resolving the bytes gives the To4-normal address and the
      port modulo 65536. */
  lemma EncodeThenResolve(ip: seq<byte>, port: int, stale: seq<byte>, resolver: Resolver)
    requires IsIp(ip) && |stale| == 16
    ensures ResolveUdpAddr(EncodeIp(ip, port, stale), resolver) == Ok(UdpAddr(NormalIp(ip), port % 65536))
  {
    var a := EncodeIp(ip, port, stale);
    var pb := BigEndian(port);
    BigEndianExact(port);
    if To4(ip).Some? {
      assert a[1..5] == NormalIp(ip) && a[5] == pb[0] && a[6] == pb[1];
    } else {
      assert a[1..17] == NormalIp(ip) && a[17] == pb[0] && a[18] == pb[1];
    }
  }

  /** The other way round, an IP address survives exactly when it is not an IPv4 address dressed as IPv6. */
  lemma ResolveThenEncode(a: seq<byte>, stale: seq<byte>, resolver: Resolver)
    requires IsAddr(a) && a[0] != TYPE_DOMAIN && |stale| == 16
    ensures var u := ResolveUdpAddr(a, resolver).value;
      EncodeIp(u.ip, u.port, stale) == a <==> !(a[0] == TYPE_IPV6 && a[1..13] == V4_IN_V6)
  {
    var u := ResolveUdpAddr(a, resolver).value;
    var n := |a|;
    BigEndianOf(a[n - 2], a[n - 1]);
    assert a == [a[0]] + a[1..n - 2] + [a[n - 2], a[n - 1]];
    if a[0] == TYPE_IPV6 {
      assert u.ip[..12] == a[1..13];
      assert a[1..13] != V4_IN_V6 ==> To4(u.ip) == None && To16(u.ip) == Some(u.ip);
      assert a[1..13] == V4_IN_V6 ==> EncodeIp(u.ip, u.port, stale)[0] == TYPE_IPV4;
    } else {
      assert To4(u.ip) == Some(u.ip);
    }
  }

  /** The written bytes are a function of the address alone exactly when the IP is well-formed. */
  lemma EncodingIgnoresStale(ip: seq<byte>, port: int)
    ensures IsIp(ip) <==>
      forall s, s' | |s| == 16 && |s'| == 16 :: EncodeIp(ip, port, s) == EncodeIp(ip, port, s')
  {
    if !IsIp(ip) {
      var s, s' := seq(16, _ => 0 as byte), seq(16, _ => 1 as byte);
      assert EncodeIp(ip, port, s)[1] != EncodeIp(ip, port, s')[1];
    }
  }

  datatype NetAddr = Ip(ip: seq<byte>, port: int) | Raw(data: seq<byte>) | Foreign

  /** ResolveAddrBuffer(addr, b): Ip is a *net.TCPAddr or *net.UDPAddr, Raw a *socks.Addr. */
  method ResolveAddrBuffer(addr: NetAddr, b: array<byte>) returns (r: Result<nat, Error>)
    requires b.Length >= MAX_ADDR_LEN
    requires addr.Raw? ==> IsAddr(addr.data)
    modifies b
    ensures r.Ok? <==> !addr.Foreign?
    ensures r.Err? ==> r.error == InvalidAddrType && b[..] == old(b[..])
    ensures r.Ok? ==>
      && r.value <= MAX_ADDR_LEN
      && b[..r.value] == (if addr.Raw? then addr.data else EncodeIp(addr.ip, addr.port, old(b[1..17])))
      && forall i :: r.value <= i < b.Length ==> b[i] == old(b[i])
  {
    match addr
    case Ip(ip, port) =>
      var n := PutIp(b, 0, ip, port);
      r := Ok(n);
    case Raw(data) =>
      forall i | 0 <= i < |data| {
        b[i] := data[i];
      }
      r := Ok(|data|);
    case Foreign =>
      r := Err(InvalidAddrType);
  }

  /** Write the address of ip and port at b[off:], as both encoders do. */
  method PutIp(b: array<byte>, off: nat, ip: seq<byte>, port: int) returns (n: nat)
    requires off + (if To4(ip).Some? then 7 else 19) <= b.Length
    requires off + 17 <= b.Length
    modifies b
    ensures n == if To4(ip).Some? then 7 else 19
    ensures b[off..off + n] == EncodeIp(ip, port, old(b[off + 1..off + 17]))
    ensures forall i :: 0 <= i < off || off + n <= i < b.Length ==> b[i] == old(b[i])
  {
    var v4 := To4(ip);
    if v4.Some? {
      PutFixed(b, off, TYPE_IPV4, v4.value, port);
      n := 1 + 4 + 2;
    } else {
      var v6 := To16(ip);
      PutFixed(b, off, TYPE_IPV6, v6.GetOr(b[off + 1..off + 17]), port);
      n := 1 + 16 + 2;
    }
  }

  /** One type byte, the address bytes, and the port, at b[off:]. */
  method PutFixed(b: array<byte>, off: nat, kind: byte, ip: seq<byte>, port: int)
    requires off + |ip| + 3 <= b.Length
    modifies b
    ensures b[off..off + |ip| + 3] == [kind] + ip + BigEndian(port)
    ensures forall i :: 0 <= i < off || off + |ip| + 3 <= i < b.Length ==> b[i] == old(b[i])
  {
    var l := |ip|;
    b[off] := kind;
    forall i | 0 <= i < l {
      b[off + 1 + i] := ip[i];
    }
    b[off + 1 + l], b[off + 2 + l] := (port / 256) % 256, port % 256;
    assert b[off + 1..off + 1 + l] == ip;
    assert b[off..off + l + 3] == [b[off]] + b[off + 1..off + 1 + l] + [b[off + 1 + l], b[off + 2 + l]];
  }
}
