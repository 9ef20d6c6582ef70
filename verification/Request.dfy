/** The request parser HandleWithDialer (pkgs/trojan/trojan.go), which fills one array out of order. */
module Request {
  import opened Prelude
  import opened Streams
  import opened Socks

  const CMD_CONNECT: byte := 1
  const CMD_ASSOCIATE: byte := 3

  datatype Command = Command(cmd: byte, addr: seq<byte>)

  datatype Refusal = ReadCommand(e: Error) | BadCommand | ReadAddress(e: Error) | ReadCrlf(e: Error) | BadCrlf

  predicate IsCommand(c: Command) {
    (c.cmd == CMD_CONNECT || c.cmd == CMD_ASSOCIATE) && IsAddr(c.addr)
  }

  /** The wire form of a request header. */
  function Serialize(c: Command): seq<byte> {
    [c.cmd] + c.addr + CRLF
  }

  /** What the parser makes of a stream that delivers `s` and then fails with `e`. */
  function ParseResult(s: seq<byte>, e: Error): (r: Result<Command, Refusal>)
    ensures r.Ok? ==> IsCommand(r.value) && IsPrefix(Serialize(r.value), s)
    ensures r == Err(BadCommand) <==> s != [] && s[0] != 1 && s[0] != 3
    ensures r.Err? && r.error.ReadCommand? <==> s == []
  {
    if s == [] then Err(ReadCommand(e))
    else if s[0] != CMD_CONNECT && s[0] != CMD_ASSOCIATE then Err(BadCommand)
    else
      match ReadAddrResult(s[1..], e)
      case Err(f) => Err(ReadAddress(f))
      case Ok(n) =>
        if |s| < 1 + n + 2 then Err(ReadCrlf(FullErr(s[1 + n..], e)))
        else if s[1 + n] != 13 || s[1 + n + 1] != 10 then Err(BadCrlf)
        else
          var c := Command(s[0], s[1..][..n]);
          assert s[..|Serialize(c)|] == Serialize(c);
          Ok(c)
  }

  /** Exactness and round trip: a stream is accepted as c just when it starts with c's wire form, so
      acceptance consumes exactly 1 + n + 2 bytes. */
  lemma {:induction false} ParsesExactlySerialized(s: seq<byte>, e: Error, c: Command)
    ensures ParseResult(s, e) == Ok(c) <==> IsCommand(c) && IsPrefix(Serialize(c), s)
  {
    if IsCommand(c) && IsPrefix(Serialize(c), s) {
      var n := |c.addr|;
      var w := Serialize(c);
      assert s == w + s[n + 3..];
      assert w[0] == c.cmd && w[1..1 + n] == c.addr && w[1 + n] == 13 && w[2 + n] == 10;
      assert s[1..] == c.addr + (CRLF + s[n + 3..]);
      ReadsAddrBack(c.addr, CRLF + s[n + 3..], e);
      assert s[1..][..n] == c.addr;
    }
  }

  /** Two different requests never share a stream: the header code is prefix-free. */
  lemma HeadersPrefixFree(c: Command, t: seq<byte>, c': Command, t': seq<byte>)
    requires IsCommand(c) && IsCommand(c')
    requires Serialize(c) + t == Serialize(c') + t'
    ensures c == c' && t == t'
  {
    var s := Serialize(c) + t;
    assert s[..|Serialize(c)|] == Serialize(c) && s[..|Serialize(c')|] == Serialize(c');
    ParsesExactlySerialized(s, EOF, c);
    ParsesExactlySerialized(s, EOF, c');
    assert t == s[|Serialize(c)|..] && t' == s[|Serialize(c')|..];
  }

  /** The wire form, byte by byte, of a request to connect to 127.0.0.1:80. */
  lemma RequestBytes()
    ensures var c := Command(CMD_CONNECT, [1, 127, 0, 0, 1, 0, 80]);
      IsCommand(c) && Serialize(c) == [1, 1, 127, 0, 0, 1, 0, 80, 13, 10]
    ensures IsCommand(Command(3, [1, 127, 0, 0, 1, 0, 80]))
    ensures forall c :: IsCommand(c) ==> c.cmd == 1 || c.cmd == 3
  {
  }

  /** A refusal that blames the stream for ending. */
  predicate BlamesEnd(r: Refusal) {
    r.ReadCommand? || (r.ReadAddress? && r.e != InvalidAddrType) || r.ReadCrlf?
  }

  /** More bytes could still make a request of s. */
  ghost predicate Completable(s: seq<byte>) {
    exists c :: IsCommand(c) && |s| < |Serialize(c)| && IsPrefix(s, Serialize(c))
  }

  /** The address is there, and one more byte that is not the first of a terminator. */
  predicate OddByteAfterAddress(s: seq<byte>) {
    |s| >= 4 && (s[0] == 1 || s[0] == 3) && IsAddr(s[1..|s| - 1]) && s[|s| - 1] != 13
  }

  /** Two bytes, of which the second is no address type: it is not looked at alone. */
  predicate OddType(s: seq<byte>) {
    |s| == 2 && (s[0] == 1 || s[0] == 3) && s[1] != 1 && s[1] != 3 && s[1] != 4
  }

  /** A refused stream is refused for ending early exactly when more bytes could still make a request of
      it, or when its last byte is wrong but was read together with one that did not come. */
  lemma {:induction false} BlamesEndExactly(s: seq<byte>, e: Error)
    requires e != InvalidAddrType
    ensures var r := ParseResult(s, e);
      r.Err? && BlamesEnd(r.error) <==> Completable(s) || OddByteAfterAddress(s) || OddType(s)
  {
    var r := ParseResult(s, e);
    if Completable(s) {
      var c :| IsCommand(c) && |s| < |Serialize(c)| && IsPrefix(s, Serialize(c));
      ProperPrefixBlamed(s, e, c);
    }
    if OddByteAfterAddress(s) {
      var n := |s| - 2;
      assert s[1..][..n] == s[1..|s| - 1];
      ReadsExactlyAddresses(s[1..], e, n);
    }
    if r.Err? && BlamesEnd(r.error) {
      BlamedIsPrefix(s, e);
    }
  }

  lemma ProperPrefixBlamed(s: seq<byte>, e: Error, c: Command)
    requires e != InvalidAddrType && IsCommand(c) && |s| < |Serialize(c)| && IsPrefix(s, Serialize(c))
    ensures var r := ParseResult(s, e); r.Err? && BlamesEnd(r.error)
  {
    var w := Serialize(c);
    assert forall i :: 0 <= i < |s| ==> s[i] == w[..|s|][i] == w[i];
    assert forall i :: 0 <= i < |c.addr| ==> w[1 + i] == c.addr[i];
    if |s| >= 3 {
      assert AddrLen(s[1..]) == |c.addr|;
    }
  }

  lemma BlamedIsPrefix(s: seq<byte>, e: Error)
    requires e != InvalidAddrType
    requires var r := ParseResult(s, e); r.Err? && BlamesEnd(r.error)
    ensures Completable(s) || OddByteAfterAddress(s) || OddType(s)
  {
    if s == [] {
      Completes(s, Command(1, [1, 0, 0, 0, 0, 0, 0]));
    } else {
      var a := s[1..];
      if |a| < 2 || |a| < AddrLen(a) {
        if !OddType(s) {
          var addr := Padded(a);
          assert Serialize(Command(s[0], addr))[..|s|] == s;
          Completes(s, Command(s[0], addr));
        }
      } else {
        var n := AddrLen(a);
        assert IsAddr(a[..n]) && n <= |a| < n + 2;
        if |a| == n || a[n] == 13 {
          var c := Command(s[0], a[..n]);
          assert Serialize(c)[..|s|] == s;
          Completes(s, c);
        } else {
          assert s[1..|s| - 1] == a[..n];
        }
      }
    }
  }

  /** Some address that a, cut short, could have become. */
  function Padded(a: seq<byte>): (addr: seq<byte>)
    requires |a| < 2 || |a| < AddrLen(a)
    requires |a| == 1 ==> a[0] == 1 || a[0] == 3 || a[0] == 4
    ensures IsAddr(addr) && |a| <= |addr| && addr[..|a|] == a
  {
    if a == [] then [1, 0, 0, 0, 0, 0, 0]
    else if |a| == 1 then a + seq(if a[0] == 1 then 6 else if a[0] == 3 then 3 else 18, _ => 0)
    else a + seq(AddrLen(a) - |a|, _ => 0)
  }

  lemma Completes(s: seq<byte>, c: Command)
    requires IsCommand(c) && |s| < |Serialize(c)| && Serialize(c)[..|s|] == s
    ensures Completable(s)
  {
  }

  /** HandleWithDialer up to the point where the tunnel takes over: command in b[0], terminator in
      b[1:3], address in b[3:]. On acceptance the tunnel finds exactly the bytes after the header. */
  method HandleHeader(src: Source, ghost s: seq<byte>, ghost e: Error) returns (r: Result<Command, Refusal>)
    requires Delivers(src.script, src.fin, s, e)
    modifies src`script
    ensures r == ParseResult(s, e)
    ensures r.Ok? ==> Delivers(src.script, src.fin, s[|Serialize(r.value)|..], e)
  {
    var b := new byte[1 + MAX_ADDR_LEN + 2](_ => 0);
    var err := ReadFull(src, b, 0, 1, s, e);
    if err.Some? {
      return Err(ReadCommand(err.value));
    }
    assert b[0] == b[0..1][0] == s[0];
    if b[0] != CMD_CONNECT && b[0] != CMD_ASSOCIATE {
      return Err(BadCommand);
    }
    var addr := ReadAddrBuffer(src, b, 3, s[1..], e);
    if addr.Err? {
      return Err(ReadAddress(addr.error));
    }
    var n := addr.value;
    ghost var rest := s[1..][n..];
    assert rest == s[1 + n..];
    assert b[0] == s[0];
    ghost var addrBytes := b[3..3 + n];
    var refusal := ReadTerminator(src, b, rest, e);
    if refusal.Some? {
      return Err(refusal.value);
    }
    assert rest[2..] == s[1 + n + 2..];
    assert b[3..3 + n] == addrBytes;
    r := Ok(Command(b[0], b[3..3 + n]));
  }

  /** The terminator, read into b[1:3]. */
  method ReadTerminator(src: Source, b: array<byte>, ghost s: seq<byte>, ghost e: Error)
    returns (r: Option<Refusal>)
    requires b.Length >= 3
    requires Delivers(src.script, src.fin, s, e)
    modifies src`script, b
    ensures r == if |s| < 2 then Some(ReadCrlf(FullErr(s, e)))
                 else if s[0] != 13 || s[1] != 10 then Some(BadCrlf)
                 else None
    ensures r.None? ==> Delivers(src.script, src.fin, s[2..], e)
    ensures forall i :: i == 0 || 3 <= i < b.Length ==> b[i] == old(b[i])
  {
    var err := ReadFull(src, b, 1, 2, s, e);
    if err.Some? {
      return Some(ReadCrlf(err.value));
    }
    assert b[1] == b[1..3][0] && b[2] == b[1..3][1];
    if b[1] != 13 || b[2] != 10 {
      return Some(BadCrlf);
    }
    r := None;
  }
}
