/** One connection from the listener to the remote: the sniffed header, the request behind it and the tunnel
    (modules/listener/listener.go, pkgs/trojan/trojan.go, pkgs/trojan/trojan_tcp.go) in one piece. */
module EndToEnd {
  import opened Prelude
  import opened Streams
  import opened Socks
  import opened Request
  import Sniff
  import Tunnel

  /** The goroutine of an accepted connection that delivers `s` and then fails with `e`, as far as the
      tunnel: the request parser starts where the sniffer stopped, and the tunnel where the parser did. */
  method AcceptConnection(c: Source, validate: seq<byte> -> bool, listenerClosed: bool, ghost s: seq<byte>, ghost e: Error)
    returns (fate: Sniff.Fate, request: Option<Result<Command, Refusal>>)
    requires Delivers(c.script, c.fin, s, e) && !Sniff.PlantsZero(c.script)
    modifies c`script
    ensures fate == old(Sniff.FateOf(Sniff.SniffFrom(c.script, c.fin, [], 0), validate, listenerClosed))
    ensures request.Some? <==> fate.Tunnelled?
    ensures fate.Tunnelled? ==>
      && |s| >= Sniff.SNIFF_LEN && request.value == ParseResult(s[Sniff.SNIFF_LEN..], e)
      && (request.value.Ok? ==> Delivers(c.script, c.fin, s[Sniff.SNIFF_LEN..][|Serialize(request.value.value)|..], e))
  {
    ghost var script := c.script;
    Sniff.PlantsFromExactly(script, 0);
    Sniff.FullDelivers(script, c.fin, [], s, e);
    var deeds;
    fate, deeds := Sniff.Serve(c, validate, listenerClosed);
    request := None;
    if fate.Tunnelled? {
      var parsed := HandleHeader(c, s[Sniff.SNIFF_LEN..], e);
      request := Some(parsed);
    }
  }

  /** What reaches the remote of a tunnelled connection with an accepted request to connect: an in-order
      prefix of the client's bytes from behind the 58 of the key line and the request, nothing else; and
      all of them up to the client's end of file, when the upstream copy came to it. `clientIn` may cut
      these bytes into reads in any way. */
  lemma RemoteReceives(script: seq<Chunk>, fin: Error, validate: seq<byte> -> bool, listenerClosed: bool,
                       request: Command, clientIn: seq<Chunk>, remoteIn: seq<Chunk>, wakeable: bool,
                       acts: seq<Tunnel.Action>, s: Tunnel.State)
    requires Tidy(script, fin) && !Sniff.PlantsZero(script)
    requires Sniff.FateOf(Sniff.SniffFrom(script, fin, [], 0), validate, listenerClosed).Tunnelled?
    requires |Avail(script)| >= Sniff.SNIFF_LEN ==>
      && ParseResult(Avail(script)[Sniff.SNIFF_LEN..], FirstErr(script, fin)) == Ok(request)
      && Avail(clientIn) == Avail(script)[Sniff.SNIFF_LEN..][|Serialize(request)|..]
    requires Tunnel.NoStrayDeadline(remoteIn)
    requires Tunnel.Run(Tunnel.Init(clientIn, remoteIn, wakeable), acts) == Some(s)
    ensures var sent := Avail(script); var header := Sniff.SNIFF_LEN + |Serialize(request)|;
      && |sent| >= header && IsPrefix(Serialize(request), sent[Sniff.SNIFF_LEN..])
      && IsPrefix(s.data.toRemote, sent[header..])
      && (s.up.UpDone? && s.upErr == None ==> s.data.toRemote == sent[header..])
  {
    Sniff.PlantsFromExactly(script, 0);
    Sniff.FullDelivers(script, fin, [], Avail(script), FirstErr(script, fin));
    var sent := Avail(script);
    ParsesExactlySerialized(sent[Sniff.SNIFF_LEN..], FirstErr(script, fin), request);
    assert sent[Sniff.SNIFF_LEN..][|Serialize(request)|..] == sent[Sniff.SNIFF_LEN + |Serialize(request)|..];
    Tunnel.TunnelConserves(clientIn, remoteIn, wakeable, acts, s);
  }
}
