# A verified model of caddy-trojan's tunnel, limiter and indexes

This project states, in Dafny, what the core of caddy-trojan does, and proves what its users rely on:
that a TCP tunnel shuts down without losing bytes, wakes or buffers in any interleaving; that UDP frames
survive the trip in both directions; that the CONNECT limiter counts as it promises; that sniffing a
connection is invisible to whoever gets it next; that the domain index answers what its patterns say; and
that the user table in memory stays ahead of the persistent one. Check it with `dafny verify dfyconfig.toml`.

## How to read it

| file | component |
|---|---|
| Prelude, Streams | bytes, errors; an `io.Reader` as a script of read results, `io.ReadFull` as its loop |
| Socks, Request | the address codec of section 5 of RFC 1928; the request parser and its shared buffer |
| Relay | `copyBuffer` and the drain loop, over scripted readers and writers |
| Tunnel | `HandleTCP` as a transition system over both goroutines, deadlines, the channel and what is freed by hand |
| Shutdown | how `HandleTCP` ends: the drain, the grace periods and the half-closes, over whole runs |
| Datagram, Encoder | the two directions of `HandleUDP`: decoder with reused buffer and address cache, right-aligned in-place encoder |
| Session | `HandleUDP` as a whole: both directions as transition system, with deadlines, result channel and buffers |
| Limiter, Handler | one source's record over all event sequences; the table of sources and the order of check, validation and record |
| Replay, Sniff | the replaying connection, the WebSocket stream adapter, the listener's sniff loop |
| EndToEnd | one connection through listener, request parser and tunnel |
| DomainTree, DomainNodes | the wildcard index as a value; the same as heap-linked nodes |
| Accounts, Upstream | memory table, task queue and store as a state machine; the two account stores as objects |

Code that changes state is modelled by methods over arrays and objects, each proved equal to a
specification function; the theorems are about those functions. A script of reads stands for the peer: a
theorem that holds for every script holds for every way the network may cut the stream. `Tunnel.Step` and
`Session.Step` are the step relations of `HandleTCP` and `HandleUDP`; their actions are the statements of
either side, reads and writes completing, deadlines passing, and the rendezvous on the result channel. Any
use of a buffer or of `rc` outside its lifetime, and any second release, sets `held.fault`, so that misuse is
visible in the state.

Assumptions, where a theorem needs them, are in its `requires`:

- `Tunnel`, `Session`: writes return. In `Tunnel` a write to the client never reports the deadline sentinel
  (the assumption the comment in pkgs/trojan/trojan_tcp.go:124-127 makes; `DownstreamConservesExactly` says
  exactly which writers conserve the stream); reads from `rc` report the sentinel only when its
  deadline has passed (`NoStrayDeadline`); an expired deadline makes reads fail; each peer's input is
  finite; the client's read deadline is unset at the start. `HangsExactly`, in both modules: the call
  always returns, or the process crashes, exactly when the client connection can be woken. The HTTP
  `FlushWriter` (modules/handler/handler.go:288-304) cannot be. `Tunnel` starts once the remote is dialled;
  before that a name of 254 or 255 bytes makes `Addr.String` panic (pkgs/trojan/trojan_tcp.go:69).
- Parsers (`Streams.Delivers`): bytes and an error come in one read only when the error is final.
- `Limiter.BurstBound`: one source's requests are serialised and Cleanup does not intervene; the sweeper's
  clock readings may be old. `BurstBoundExact` shows that the bound holds exactly when the cooldown is not
  shorter than the window, `BurstMaximum` what the largest number is (8 with the production constants);
  `Handler.TableBurstBound` lifts both to many sources whose requests interleave. Blocks need no
  serialisation: `BlockLastsExactly` says which recorded failures lift one early.
- `DomainTree`: `**` stands only as the leftmost label of a pattern; `StorePanicsExactly` says what happens
  otherwise. A name that is looked up may be anything: `LoadPanicsExactly`.
- `Accounts.WriteBehind`: every operation fits (`FitsExactly`: exactly those on which memory and store
  agree) and commutes with those it overlaps between its change and its send (`CommuteExactly`).
  `OverlapDivergesExactly` says which overlapping pairs can leave the two in disagreement.

Where the code does less than one might expect, the exact condition is proved: `Addr.String` adds lengths
in byte arithmetic (`DomainTextExact`); a UDP packet of 65536 bytes, for which the buffer has room, is
announced as empty (`FrameDecodesExactly`); a connection whose sniffed part has a read without byte or error
is handed on with a zero nobody sent (`HandedOnExactly`, `ZeroPlanted`); a read into an empty slice, or an
error without bytes, discards the rest of a WebSocket message (`ReadMessagesExactly`); a failure recorded
late lifts a block (`BlockLastsExactly`); overlapping account operations can diverge
(`OverlapDivergesExactly`), and so can a failing store (`FaultsHarmExactly`); the UDP reader's wake can be
overwritten while main may still arm the deadline (`WakeLostExactly`, `WakeOverwrittenExactly`), which delays
the return but does not prevent it; a UDP client that names a host of 254 or 255 bytes crashes the process
(`PanicsExactly`, `CrashesExactly`); a UDP stream that is cut inside a frame, but between two reads of the
decoder, ends without an error (`CleanEndExactly`), and a frame whose payload is cut is counted in full
(`UnfinishedCounts`); a name with `**` inside can make a lookup panic (`LoadPanicsExactly`,
`InnerStarsPanic`); and a lookup that has taken a literal label does not come back for the wildcard beside
it: `FoundExactly` says which covering patterns count, `NoBacktracking` and `CoverageSuffices` when that
makes a difference.

## Model

| member | source | states |
|---|---|---|
| Streams.Source.Read | pkgs/rawconn/conn.go:35-38 | one read of a connection: a prefix of what it has to give, into the given part of the buffer and nowhere else |
| Streams.ReadFull | pkgs/socks/addr.go:73-76 | io.ReadFull fills the range with the next bytes for every chunking, or reports the stream's error, as UnexpectedEOF when cut off midway; bytes outside the range stay |
| Socks.ReadAddrBuffer | pkgs/socks/addr.go:72-106 | result, error and stored bytes depend only on the bytes of the stream; nothing beyond the address is touched; the stream resumes behind it |
| Socks.ReadAddrResult | pkgs/socks/addr.go:72-106 | what is accepted is a complete address of 4 to 259 bytes |
| Socks.ReadsExactlyAddresses | pkgs/socks/addr.go:72-106 | the reader returns n exactly when the first n bytes are a well-formed address |
| Socks.StreamAndSliceAgree | pkgs/socks/addr.go:72-138 | stream reader and ParseAddr accept the same inputs with the same length; the only exception is the four-byte empty domain name, which ParseAddr rejects; both call the same types invalid |
| Socks.PrefixFree | pkgs/socks/addr.go:72-106 | no address is a proper prefix of another: a stream splits into address and rest in one way |
| Socks.ReadsAddrBack | pkgs/socks/addr.go:72-106 | an address followed by anything is read back as itself |
| Socks.BigEndianExact | pkgs/socks/addr.go:186-187 | the two port bytes carry the port modulo 65536 |
| Socks.BigEndianOrdered | pkgs/socks/addr.go:186-187 | the more significant byte first: bytes are ordered as ports are |
| Socks.EncodeIp | pkgs/socks/addr.go:181-218 | the bytes written for any IP and port form a complete address |
| Socks.EncodesAs | pkgs/socks/addr.go:202-217 | which bytes: type 1 and four bytes for IPv4 in either form, type 4 and sixteen otherwise |
| Socks.DomainTextExact | pkgs/socks/addr.go:39-42 | String means what the address says exactly for names of up to 252 bytes (or a 253-byte one that coincides), and panics exactly from 254 |
| Socks.NameResolvesExactly | pkgs/socks/addr.go:157-178 | a host name of up to 252 bytes with a port resolves to u exactly when the name service has u for that very name and port modulo 65536, and fails exactly when it has nothing |
| Socks.DomainAddrOf | pkgs/socks/addr.go:91-104 | every domain address is the address of such a named host |
| Socks.EncodeThenResolve | pkgs/socks/addr.go:157-218 | writing an IP address and port and resolving the bytes gives the To4-normal IP and the port modulo 65536, whatever the buffer held before |
| Socks.ResolveThenEncode | pkgs/socks/addr.go:157-218 | resolving and writing again gives the same bytes exactly unless the address is an IPv4 one dressed as IPv6 |
| Socks.EncodingIgnoresStale | pkgs/socks/addr.go:202-217 | the written bytes are independent of the buffer's old content exactly when the IP has 4 or 16 bytes |
| Socks.ResolveAddrBuffer | pkgs/socks/addr.go:181-226 | the buffer holds the address of a TCP or UDP peer, or a copied socks address; any other type is refused and leaves it unchanged |
| Socks.PutIp | pkgs/socks/addr.go:202-217 | address type, IP and port land at the given offset, nothing around them changes |
| Request.ParseResult | pkgs/trojan/trojan.go:42-66 | an accepted request is a valid command and the stream begins with its wire form |
| Request.ParsesExactlySerialized | pkgs/trojan/trojan.go:42-66 | a stream is accepted as c exactly when c is valid and the stream starts with c's wire form: round trip, and 1+n+2 bytes consumed |
| Request.HeadersPrefixFree | pkgs/trojan/trojan.go:42-66 | two different requests never share a stream |
| Request.RequestBytes | pkgs/trojan/trojan.go:42-66 | the commands are 1 and 3, and a request is laid out as command, address, CRLF |
| Request.BlamesEndExactly | pkgs/trojan/trojan.go:42-66 | a stream is refused for ending early exactly when more bytes could still make a request of it, or its last byte is wrong but is read together with one that did not come |
| Request.HandleHeader | pkgs/trojan/trojan.go:42-66 | the code, filling b[0], b[3:], then b[1:3] of one array, gives that result for every chunking and leaves exactly the tunnel's bytes unread |
| Request.ReadTerminator | pkgs/trojan/trojan.go:59-65 | CRLF is checked in b[1:3] without disturbing command or address |
| Relay.WriteFault | pkgs/trojan/trojan_tcp.go:28-44 | a write that raises no fault has taken every byte |
| Relay.Round | pkgs/trojan/trojan_tcp.go:25-51 | one round writes a prefix of what it read, all of it when it does not fail |
| Relay.Copy | pkgs/trojan/trojan_tcp.go:24-53 | a copy writes an in-order prefix of what it read; without error it wrote everything it read |
| Relay.CopyBuffer | pkgs/trojan/trojan_tcp.go:24-53 | the loop performs that copy and returns the number of bytes the writer accepted |
| Relay.CopyOnce | pkgs/trojan/trojan_tcp.go:25-51 | the loop body performs one round, with its short-write and invalid-write rules |
| Relay.CopyDelivers | pkgs/trojan/trojan_tcp.go:24-53 | with writes that succeed, a copy delivers exactly the bytes before the first read error, for every buffer size and chunking, and reports that error, EOF as none |
| Relay.OnlyWritesDrop | pkgs/trojan/trojan_tcp.go:24-53 | a copy that ended at the read deadline has delivered everything it read, if the writer can be trusted not to report that deadline itself |
| Relay.DrainConserves | pkgs/trojan/trojan_tcp.go:145-152 | over all drain rounds the client receives an in-order prefix of what was read, all of it unless a write failed |
| Relay.DrainLoop | pkgs/trojan/trojan_tcp.go:145-152 | the loop performs those rounds, ends, and adds exactly their bytes to nw |
| Relay.DrainDelivers | pkgs/trojan/trojan_tcp.go:145-152 | with writes that succeed the drain delivers the stream until the remote ends, fails or stays silent for a round |
| Relay.DownstreamConserves | pkgs/trojan/trojan_tcp.go:128-155 | across the first copy and the whole drain nothing is duplicated or skipped |
| Relay.DownstreamConservesExactly | pkgs/trojan/trojan_tcp.go:124-155 | that holds for all reads exactly when no write of the script reports the deadline before one has failed for good |
| Relay.DeadlineWriteSkipsBytes | pkgs/trojan/trojan_tcp.go:124-127 | without the assumption on the client's writer bytes are skipped: a concrete run |
| Tunnel.StepKeepsInv | pkgs/trojan/trojan_tcp.go:73-187 | every step of either side keeps the control, resource, data-flow and result invariants |
| Tunnel.RunKeepsInv | pkgs/trojan/trojan_tcp.go:73-187 | so does every run |
| Tunnel.TunnelSafe | pkgs/trojan/trojan_tcp.go:73-189 | in every interleaving nothing freed is used; on return exactly one send met one receive (or the goroutine never started), both buffers and rc are released once the goroutine is done, and counts and error are those `Reports` spells out from what both copies ended with; while main waits for the goroutine its reads from the client have been given a deadline, and after a hard error its writes |
| Tunnel.TunnelConserves | pkgs/trojan/trojan_tcp.go:91-187 | in every interleaving each peer has received an in-order prefix of the other's bytes, the remote none from behind the client's first read error; nr and nw are their counts; a direction that ended at EOF has delivered everything sent before it |
| Tunnel.WakeNotLost | pkgs/trojan/trojan_tcp.go:104-155 | rc's read deadline, once expired by the goroutine, stays expired until its result is received, and main is at the select only while that result waits |
| Tunnel.StepLowersRank | pkgs/trojan/trojan_tcp.go:123-187 | every step lowers a rank, a drain round being paid for by the bytes of the one before |
| Tunnel.RunsAreShort | pkgs/trojan/trojan_tcp.go:123-187 | no run is longer than the rank of its first state |
| Tunnel.StuckExactly | pkgs/trojan/trojan_tcp.go:91-187 | no step is possible without a peer exactly when HandleTCP has returned or waits for a peer, deadlines having passed |
| Tunnel.Returns | pkgs/trojan/trojan_tcp.go:123-187 | once a direction has ended and the client connection can be woken, HandleTCP returns within the rank even if both peers fall silent |
| Tunnel.MaximalRunsReturn | pkgs/trojan/wakeable.go:24-50 | and every run, in any interleaving, that cannot continue without a peer has returned |
| Tunnel.UnwakeableHangs | pkgs/trojan/wakeable.go:44-50 | with a writer that cannot be woken there is a run in which a direction has ended and nothing but the peer can move |
| Tunnel.HangsExactly | pkgs/trojan/wakeable.go:24-50 | some run can get stuck after a direction has ended, with HandleTCP still waiting, exactly when the client connection cannot be woken |
| Shutdown.HandoffHappened | pkgs/trojan/trojan_tcp.go:105-117 | every run in which main has the result splits at one hand-off, which the following are about |
| Shutdown.DrainsExactly | pkgs/trojan/trojan_tcp.go:141-187 | rc is read again after the hand-off exactly when the first copy ended at the deadline, the upstream ended clean or with a timeout, and the minute had not passed |
| Shutdown.DrainsToTheEnd | pkgs/trojan/trojan_tcp.go:144-153 | then the last of those reads reported an error, or timed out in a round that moved nothing, if every write to the client took all its bytes |
| Shutdown.DrainDeliversAll | pkgs/trojan/trojan_tcp.go:144-153 | and if none of them times out, the client gets everything the remote had still to send before its next error |
| Shutdown.DrainTakesTime | pkgs/trojan/trojan_tcp.go:145-148 | a round of the drain times out only after the deadline set for that round has passed |
| Shutdown.DrainLosesNothing | pkgs/trojan/trojan_tcp.go:144-153 | so the drain loses nothing unless that time passes |
| Shutdown.RemoteEndGraceful | pkgs/trojan/trojan_tcp.go:129-140 | a remote that ends cuts off no read from the client before the grace period has passed |
| Shutdown.WritesAreGivenTime | pkgs/trojan/trojan_tcp.go:171 | writes to the remote get a deadline exactly after a hard error downstream, and it expires by time alone |
| Shutdown.EndsArePassedOn | pkgs/trojan/trojan_tcp.go:91-177 | rc is closed for writing once the goroutine has copied all it will, and before that only after a hard error; on return the client has been told of the end exactly if the remote ended, the upstream failed, or the minute passed, and at a remote end only after it got every byte |
| Datagram.FirstFrame | pkgs/trojan/trojan_udp.go:66-97 | a recognised frame is well-formed |
| Datagram.FirstFrameExact | pkgs/trojan/trojan_udp.go:66-97 | a stream's first frame is f exactly when f is well-formed and the stream starts with f's wire form |
| Datagram.Parse | pkgs/trojan/trojan_udp.go:65-106 | the plain parser: the frames' wire forms and the unfinished rest are the stream again |
| Datagram.ParseInverts | pkgs/trojan/trojan_udp.go:65-106 | frames followed by an unfinished one parse back to themselves |
| Datagram.DecodeRefinesParse | pkgs/trojan/trojan_udp.go:65-106 | the decoder forwards exactly the parser's payloads in order, up to the first unresolvable address, with nr and error accounted for |
| Datagram.DecodeForwards | pkgs/trojan/trojan_udp.go:65-106 | for any list of resolvable frames all are forwarded and nr is their total size |
| Datagram.DeliversAll | pkgs/trojan/trojan_udp.go:72-105 | the i-th packet goes to the i-th frame's resolved address with its payload |
| Datagram.DecodeForwardsNamed | pkgs/trojan/trojan_udp.go:65-106 | frames to named hosts all go, in order, to what the name service has for those very names and ports |
| Datagram.FrameBytes | pkgs/trojan/trojan_udp.go:66-97 | a frame is address, length, CRLF, payload, more significant length byte first |
| Datagram.DecodeStops | pkgs/trojan/trojan_udp.go:72-105 | at an address that does not resolve, which nr leaves out, or a failing write, which nr counts, the decoder ends with that error after all packets before |
| Datagram.CleanEndExactly | pkgs/trojan/trojan_udp.go:65-109 | an end of file counts as clean exactly between two of the decoder's reads, inside a frame too |
| Datagram.UnfinishedCounts | pkgs/trojan/trojan_udp.go:84-95 | an unfinished frame is counted in full in nr once its head has come, and not at all before |
| Datagram.CacheAgrees | pkgs/trojan/trojan_udp.go:72-82 | a cached address, read through the reused buffer it points into, is what resolving afresh gives |
| Datagram.Lookup | pkgs/trojan/trojan_udp.go:72-82 | hit or miss, tt is the resolution of the address just read, and the cache invariant is kept |
| Datagram.ForwardBody | pkgs/trojan/trojan_udp.go:84-105 | length, CRLF and payload are read behind the address, the payload over the length, within the buffer; nr grows as in the code |
| Datagram.SendShared | pkgs/trojan/trojan_udp.go:96-105 | a target whose IP points into the read buffer still stands for the frame's address when the payload is sent |
| Datagram.DecodeLoop | pkgs/trojan/trojan_udp.go:63-106 | the loop with its cache and reused buffer does what decoding with fresh resolution does, for every chunking |
| Datagram.PanicsExactly | pkgs/trojan/trojan_udp.go:65-106 | the decoder panics exactly when its frames resolve and their writes succeed up to an address with a name of 254 or 255 bytes |
| Encoder.EncodesEachAlone | pkgs/trojan/trojan_udp.go:111-152 | whatever the buffer held, each frame is the wire form of its own packet |
| Encoder.FrameDecodesExactly | pkgs/trojan/trojan_udp.go:114-148 | a frame decodes to its packet exactly up to 65535 bytes; a longer one decodes as an empty packet |
| Encoder.EncodeThenDecode | pkgs/trojan/trojan_udp.go:53-151 | over whole runs the decoder gives back every packet, with To4-normal address and port modulo 65536, in order |
| Encoder.EncodeStops | pkgs/trojan/trojan_udp.go:115-151 | at a peer of another kind, or a failing write, the loop ends with that error after the frames of all packets before |
| Encoder.PacketsResolve | pkgs/trojan/trojan_udp.go:132-146 | every packet's frame address resolves to its normalised source |
| Encoder.EncodeOnce | pkgs/trojan/trojan_udp.go:113-151 | one round writes that frame from the right-aligned buffer and keeps the CRLF set before the loop |
| Encoder.PutAligned | pkgs/trojan/trojan_udp.go:132-146 | the address ends where the length begins; only the bytes before it change |
| Encoder.EncodeLoop | pkgs/trojan/trojan_udp.go:112-152 | the loop, from a zeroed buffer with its CRLF, writes exactly the specified frames and ends with the specified error |
| Session.StepKeepsInv | pkgs/trojan/trojan_udp.go:17-170 | every step of either side keeps the control, deadline, resource and result invariants |
| Session.SessionSafe | pkgs/trojan/trojan_udp.go:25-170 | in every interleaving no buffer is used after it was freed; on return one send met one receive (or the reader never started), everything is released after the reader is done, nr is what the reader counted, nw is 0, and the error is the reader's unless that is a clean end, a timeout or a panic, else the main loop's unless that is a timeout; a reader that panicked skips the wake and hands over no error |
| Session.SessionDecodes | pkgs/trojan/trojan_udp.go:53-109 | in every interleaving the packets sent are in order those of the decoder; a reader not cut off by its deadline has sent them all, its count is what the caller gets as nr, and its error is coalesced, none after a panic |
| Session.SessionEncodes | pkgs/trojan/trojan_udp.go:111-152 | in every interleaving the frames written are in order those of the encoder, and so is the end of a loop that was not idle |
| Session.IdleTakesTime | pkgs/trojan/trojan_udp.go:113-117 | main's loop ends for idleness only when its deadline has passed or the reader has ended |
| Session.ForeignPeerWakes | pkgs/trojan/trojan_udp.go:123-130 | a packet from a peer of another kind ends main's loop with its error and wakes the reader, where that is possible |
| Session.StepLowersRank | pkgs/trojan/trojan_udp.go:53-169 | every step lowers a rank |
| Session.SessionIsShort | pkgs/trojan/trojan_udp.go:53-169 | a run has at most 17 + client bytes + 4 * packets steps |
| Session.StuckExactly | pkgs/trojan/trojan_udp.go:53-169 | no step is possible without a peer exactly when the process has crashed, HandleUDP has returned, or it waits for the client, the deadline having passed |
| Session.HangsExactly | pkgs/trojan/trojan_udp.go:153-169 | some run can get stuck in a living process with HandleUDP still waiting exactly when the client connection cannot be woken through w |
| Session.CrashesExactly | pkgs/trojan/trojan_udp.go:53-82 | a client's stream can crash the process exactly when its frames resolve up to an address with a name of 254 or 255 bytes |
| Session.WakeLostExactly | pkgs/trojan/trojan_udp.go:107-117 | once the reader has expired rc's deadline, some run goes on to lose that wake exactly when main is about to arm the deadline, to write a frame, or to read a packet it can frame |
| Session.WakeOverwrittenExactly | pkgs/trojan/trojan_udp.go:107-113 | some run of a session loses the wake exactly when the client's stream does not begin with an address that panics |
| Session.WakeOverwritten | pkgs/trojan/trojan_udp.go:107-113 | such a run, for every other input: the reader ends first, main arms the expired deadline and reads on |
| Limiter.FailCfg | modules/handler/handler.go:309-323 | settings are kept; unset ones become 5 failures, 10 seconds and 60 seconds; the threshold is always positive |
| Limiter.BurstBound | modules/handler/handler.go:330-450 | in any half-open stretch of one window at most 2*threshold-1 failures of a source are recorded, for every mix of expiry and sweeps |
| Limiter.BurstBoundExact | modules/handler/handler.go:330-450 | that bound holds for all serialised runs exactly when cooldown >= window |
| Limiter.BurstBoundAttained | modules/handler/handler.go:438-450 | for every threshold the bound is reached when window <= cooldown <= 2*window-2, through a sweep that drops a block early |
| Limiter.BurstBoundLong | modules/handler/handler.go:330-450 | with a cooldown of at least 2*window-1 at most max(1, 2*threshold-2) fit |
| Limiter.LongBoundAttained | modules/handler/handler.go:350-359 | and that many do, whatever the cooldown |
| Limiter.BurstMaximum | modules/handler/handler.go:330-450 | so the largest number of failures in one window is known exactly for every cooldown >= window >= 2 |
| Limiter.RecordedDescribes | modules/handler/handler.go:344-359 | recording a failure keeps the record an account of the latest failures |
| Limiter.RunDescribes | modules/handler/handler.go:330-450 | so does every event sequence |
| Limiter.BlocksAreEarned | modules/handler/handler.go:330-383 | a source reported limited has threshold failures within one window, the last less than the cooldown ago; no serialisation needed |
| Limiter.BlockLastsExactly | modules/handler/handler.go:344-383 | until first failure plus cooldown a tripped source is limited after every event, requests in flight included, exactly when none records a failure later than the window (with threshold 1: always) |
| Limiter.SerialNeverLate | modules/handler/handler.go:129-140 | serialised requests record no such failure |
| Limiter.BlockLasts | modules/handler/handler.go:344-383 | from the trip on the source stays limited until first failure plus cooldown, at least cooldown-window after the trip |
| Limiter.UnserialisedLiftsBlock | modules/handler/handler.go:129-140 | of two requests let through together one trips the block with a third, the other fails after the window and lifts it: a case of the above |
| Limiter.AlikeStep | modules/handler/handler.go:350-383 | a stale record and no record answer alike and stay bisimilar |
| Limiter.SweepUnobservableExactly | modules/handler/handler.go:438-450 | removing a record is unobservable in every later sequence exactly when it was not blocking, however old the sweeper's reading of the clock |
| Handler.SourcesIndependent | modules/handler/handler.go:330-450 | in any run of the whole table a source's record depends on its own events alone |
| Handler.FailRecord.Count | modules/handler/handler.go:350-359 | the in-place update of a record is the specified one |
| Handler.ConnectLimiter.RecordFailure | modules/handler/handler.go:330-360 | the table changes at that source only, as specified, and the first failure starts the sweeper; empty addresses are ignored |
| Handler.ConnectLimiter.IsRateLimited | modules/handler/handler.go:364-383 | the answer, and the lazy removal of an expired block |
| Handler.ConnectLimiter.CleanupTick | modules/handler/handler.go:438-450 | removes exactly the records whose first failure is older than the cooldown |
| Handler.SweepLeavesExactly | modules/handler/handler.go:438-450 | after any calls a sweep leaves exactly the sources whose window began no longer than the cooldown ago, blocking or not, records untouched |
| Handler.ConnectLimiter.Cleanup | modules/handler/handler.go:387-399 | forgets every record and stops a running sweeper for good |
| Handler.ConnectLimiter.ServeConnect | modules/handler/handler.go:118-151 | a request is tunnelled exactly when it is a CONNECT of HTTP/2 or later with the switch on, not limited, and validated, the "Basic " prefix apart; a failure is recorded exactly when it was let through and refused |
| Handler.KeyBehindBasic | modules/handler/handler.go:132 | a key sent with the prefix and one without it come out the same |
| Handler.AttemptSerial | modules/handler/handler.go:129-140 | requests that follow one another make a serialised run |
| Handler.EachSourceSerial | modules/handler/handler.go:117-151 | however requests of many sources and sweeps interleave, each source sees a serialised run of its own |
| Handler.TableBurstBound | modules/handler/handler.go:117-151 | so no source records more than 2*threshold-1 failures in a stretch of one window, nor more than max(1, 2*threshold-2) with a long cooldown |
| Replay.ReadOwes | pkgs/rawconn/conn.go:35-45 | a read takes its bytes off the front of what the wrapper owes |
| Replay.RewindTransparent | pkgs/rawconn/conn.go:18-45 | for every sequence of read sizes the bytes obtained are a prefix of replay followed by connection |
| Replay.RewindComplete | pkgs/rawconn/conn.go:35-45 | enough non-empty reads bring all of it |
| Replay.RewindEnds | pkgs/rawconn/conn.go:35-45 | the first error a reader meets is the connection's first, and by then it has every byte from before it |
| Replay.Conn.Read | pkgs/rawconn/conn.go:35-45 | the code, with its reset at the end of the replay, is that read |
| Replay.ReadMessagesExactly | pkgs/websocket/websocket.go:38-54 | a read loses nothing exactly when it gets bytes from the current message or none are left in it; errors inside a message are dropped |
| Replay.MessagesBecomeStream | pkgs/websocket/websocket.go:38-54 | for every sequence of non-empty reads, messages whose readers give bytes until their end come out as their concatenation |
| Replay.MessagesEnd | pkgs/websocket/websocket.go:38-54 | the first error comes after all bytes of such messages: end of file for a close frame, the connection's own error otherwise |
| Replay.WebSocketConn.Read | pkgs/websocket/websocket.go:38-54 | the code is that read, with the nil reader left behind by an error |
| Sniff.SniffConserves | modules/listener/listener.go:185-218 | buffer and rest are the original stream, but for the zeros of empty reads |
| Sniff.PadsExactly | modules/listener/listener.go:185-218 | the loop leaves a zero in its buffer exactly when some read is empty after non-empty ones it reads through |
| Sniff.HandedOnExactly | modules/listener/listener.go:185-236 | a handed-on connection owes the stream from byte 0 exactly when no read that the sniffer reaches is without byte and error |
| Sniff.ZeroPlanted | modules/listener/listener.go:205-217 | a concrete connection whose replay starts with a zero nobody sent |
| Sniff.SniffTransparent | modules/listener/listener.go:172-236 | its reader then gets the client's bytes from the first one, for every sequence of read sizes |
| Sniff.SniffDecides | modules/listener/listener.go:185-218 | the outcome depends on the bytes that come without an error, on the failure and on the byte that comes with it, not on how they were chunked |
| Sniff.FateExactly | modules/listener/listener.go:185-246 | unless a read gives neither byte nor error, the fate follows from what the connection delivers: tunnelled as in the next row; closed when it ends after fewer than 58 bytes, none of the first 57 a line feed; handed on in all other cases, unless the listener is closed |
| Sniff.TunnelledExactly | modules/listener/listener.go:208-246 | tunnelled exactly when 58 bytes come without an error, none of the first 57 a line feed, ending in CRLF and carrying a validated key; the tunnel owes the rest |
| Sniff.FullDelivers | modules/listener/listener.go:185-218 | a full buffer leaves a connection that delivers exactly the bytes after the 58 |
| Sniff.Serve | modules/listener/listener.go:172-247 | the byte loop over its array has that fate; it clears the deadline right before any hand-off and again at the end, hands the connection over at most once, and closes it, last, exactly when it was not handed on |
| EndToEnd.AcceptConnection | modules/listener/listener.go:172-247 | a tunnelled connection's request is parsed from byte 58, and the tunnel gets exactly the bytes behind the request |
| EndToEnd.RemoteReceives | pkgs/trojan/trojan.go:42-73 | what reaches the remote is an in-order prefix of the client's bytes from behind key line and request, and all of them when the copy came to the end of file |
| DomainTree.SplitJoin | pkgs/domaintree/domaintree.go:13-17 | splitting a name at its dots and joining it again loses nothing |
| DomainTree.SplitLeavesNoDots | pkgs/domaintree/domaintree.go:13-17 | no label has a dot in it |
| DomainTree.JoinSplit | pkgs/domaintree/domaintree.go:13-17 | labels without dots, joined and split again, are themselves |
| DomainTree.LabelsOfText | pkgs/domaintree/domaintree.go:13-17 | so they are read off a dotted name, with or without a dot at its end |
| DomainTree.StorePanicsExactly | pkgs/domaintree/domaintree.go:19-53 | Put hits a nil node exactly when one lies strictly above the end of the pattern |
| DomainTree.StoreAdmissible | pkgs/domaintree/domaintree.go:19-53 | an admissible Put adds the prefixes of its reversed pattern and nothing else, and never panics |
| DomainTree.PathsArePrefixClosure | pkgs/domaintree/domaintree.go:13-53 | after any sequence of Puts the paths are the prefix closure of the reversed patterns |
| DomainTree.LoadSeesPathsOnly | pkgs/domaintree/domaintree.go:61-101 | tries with the same paths answer every query alike |
| DomainTree.OrderIndependent | pkgs/domaintree/domaintree.go:13-101 | order and repetition of Puts do not matter to any Get |
| DomainTree.LookupSound | pkgs/domaintree/domaintree.go:55-101 | a hit is covered, label by label, by a pattern that was put |
| DomainTree.LookupExact | pkgs/domaintree/domaintree.go:55-101 | for names with `**` at most in front the answer is exactly the one a walk over the set of patterns determines, without panic |
| DomainTree.LoadPanicsExactly | pkgs/domaintree/domaintree.go:84-92 | Get hits a nil node exactly when its walk comes upon one with labels left |
| DomainTree.InnerStarsPanic | pkgs/domaintree/domaintree.go:84-87 | any name that ends with all labels of a put `**` pattern, with more labels before them, does that |
| DomainTree.FoundExactly | pkgs/domaintree/domaintree.go:55-101 | a literal name is found exactly when some pattern covers it from which no other pattern diverts the walk, at the wildcards before the last label |
| DomainTree.TextFoundExactly | pkgs/domaintree/domaintree.go:13-101 | the same from text to answer: dotted patterns put, a dotted name looked up |
| DomainTree.WildcardsInText | pkgs/domaintree/domaintree.go:13-101 | `*.a` finds x.a and not x.y.a, `**.a` finds both |
| DomainTree.CoverageSuffices | pkgs/domaintree/domaintree.go:55-101 | if no two patterns part at a wildcard, a literal name is found exactly when some pattern covers it |
| DomainTree.NeverForgets | pkgs/domaintree/domaintree.go:19-101 | a pattern that was put, and every name above it, is found after all further Puts |
| DomainTree.LiteralLookupExact | pkgs/domaintree/domaintree.go:55-101 | without wildcards a name is found exactly when it is a trailing run of labels of a put domain |
| DomainTree.NoBacktracking | pkgs/domaintree/domaintree.go:84-99 | coverage alone does not suffice: a literal sibling hides a wildcard |
| DomainNodes.Node.Store | pkgs/domaintree/domaintree.go:19-53 | the linked nodes after store are the specified trie; a nil child is reported as the panic it is |
| DomainNodes.Node.Load | pkgs/domaintree/domaintree.go:61-101 | the walk over nodes answers as the specified trie |
| DomainNodes.Node.Put | pkgs/domaintree/domaintree.go:13-17 | Put of a dotted name stores its labels |
| DomainNodes.Node.Get | pkgs/domaintree/domaintree.go:55-59 | Get of a dotted name looks its labels up |
| DomainNodes.BuildIndex | app/proxy.go:436-439 | the index the blocking proxy builds from its list of domains is the specified one, unless a Put panics |
| Accounts.Hex | pkgs/trojan/trojan.go:34 | two lower-case hexadecimal digits a byte |
| Accounts.HexInjective | pkgs/trojan/trojan.go:32-35 | different digests give different keys |
| Accounts.HexSpells | pkgs/trojan/trojan.go:34 | digits 2i and 2i+1 have the value of byte i |
| Accounts.StorageKeysExactly | app/upstream.go:49-60 | the keys accepted are exactly those some 28-byte digest is written as |
| Accounts.ValidStorageKey | app/upstream.go:49-60 | accepts exactly 56 lower-case hexadecimal digits |
| Accounts.GeneratedKeysAreValid | app/upstream.go:45-60 | every key GenKey makes is accepted |
| Accounts.FitsExactly | app/upstream.go:160-350 | memory and store make the same of an operation exactly when it adds an absent (or untouched) account, deletes, or counts traffic of a present one under a valid key, or nothing |
| Accounts.OrdinaryUseFits | app/upstream.go:160-350 | ordinary operations on a table of valid keys fit and keep the keys valid |
| Accounts.CommuteExactly | app/upstream.go:263-350 | the store takes two tasks in either order, whatever it holds, exactly when they concern different accounts, both or neither add, or one counts nothing |
| Accounts.ChargesExactly | app/upstream.go:219-241 | over any tasks that leave an account in place it is charged, up and down, the sum of what was counted for it, modulo 2^64 |
| Accounts.SendAhead | app/upstream.go:150-158 | sends may overtake one another without breaking the refinement |
| Accounts.RunAhead | app/upstream.go:118-241 | every step of callers and worker keeps memory equal to the store with the pending tasks applied |
| Accounts.WriteBehind | app/upstream.go:96-241 | in every covered interleaving that holds from Provision on, and memory is the store when nothing is pending |
| Accounts.ClosedRunDrains | app/upstream.go:118-158 | after Cleanup the worker still applies exactly what was queued |
| Accounts.CleanupDrains | app/upstream.go:118-158 | once drained, the store is memory as it was at Cleanup, if no caller was about to send |
| Accounts.OverlapDivergesExactly | app/upstream.go:160-241 | two fitting calls, one after the other, can end with nothing pending and memory and store in disagreement exactly when, on one account, one adds and the other deletes, or the first adds an absent account and the second counts traffic |
| Accounts.OverlapDiverges | app/upstream.go:160-201 | for every user, an add overtaken by a delete is such a case |
| Accounts.StepsCount | app/upstream.go:118-158 | no run without drops loses or makes up a task |
| Accounts.QueueBounded | app/upstream.go:116 | the channel never holds more than 16 tasks |
| Accounts.ValidatesAlike | app/upstream.go:211-217 | with nothing pending, memory validates exactly the keys the store does |
| Accounts.FaultsHarmExactly | app/upstream.go:263-351 | which failing storage calls change the outcome of an operation, exactly; an Add whose Exists fails and whose Store does not resets an account |
| Accounts.NoFaultsPersist | app/upstream.go:118-134 | without faults the worker does what the refinement says |
| Upstream.GenKey | pkgs/trojan/trojan.go:32-35 | fills the caller's slice with the key |
| Upstream.CaddyUpstream.Add | app/upstream.go:263-279 | keeps an existing account, else stores an empty one, each storage call failing or not on its own |
| Upstream.CaddyUpstream.Delete | app/upstream.go:281-289 | removes the account if there, each storage call failing or not on its own |
| Upstream.CaddyUpstream.Validate | app/upstream.go:312-321 | accepts exactly well-formed keys that are stored, when Exists works |
| Upstream.CaddyUpstream.Consume | app/upstream.go:323-351 | adds traffic to a stored account under a well-formed key; when Load or Store fails it changes nothing and reports it |
| Upstream.CaddyUpstream.Work | app/upstream.go:118-134 | the worker applies the received tasks in order, each with the faults it meets, whose errors it ignores |
| Upstream.MemoryUpstream.constructor | app/upstream.go:96-137 | Provision starts memory as a copy of the accounts that the store lists and loads, with nothing queued |
| Upstream.MemoryUpstream.Add | app/upstream.go:160-183 | resets the account in memory and forwards the task |
| Upstream.MemoryUpstream.Delete | app/upstream.go:185-201 | forgets the account in memory and forwards the task |
| Upstream.MemoryUpstream.Consume | app/upstream.go:219-241 | adds traffic, creating the entry if absent, and forwards the task |
| Upstream.MemoryUpstream.SendTask | app/upstream.go:150-158 | a send on the closed channel is reported, not a panic |

## Left out

- Streams.Source.Read: a read is one entry of a script; blocking and deadlines appear only in Tunnel and Session, where they matter.
- Relay.Round: a write with an impossible count is taken to have accepted nothing, which is also what the code counts.
- Tunnel.StepKeepsInv: HandleTCP is modelled on values, because two goroutines share its state; a copy loop appears as its read and write steps. The dial before it, and the allocation hook for tests, are not modelled beyond an allocation that may fail.
- Session.SessionSafe: rounds of either direction are single steps; a read that the client's deadline cuts off may have counted any number of bytes, since nr grows before a payload is read. nw stays 0, as in the code.
- Socks.ResolveThenEncode: ResolveTCPAddr has the same branches as ResolveUDPAddr and is not repeated; DNS is a resolver function of host and port.
- Socks.DomainTextExact: the text of IPv4 and IPv6 addresses is not modelled, only host bytes and port of a domain name.
- Handler.ConnectLimiter.ServeConnect: what happens to a request that is not tunnelled (the WebSocket path with its origin check, the rest of the HTTP chain) is left out, and so is the sweeper's interval.
- Limiter.BurstBound: clock readings are integers that do not run backwards; saturation of durations is not modelled.
- Sniff.Serve: the accept loop, logging and the traffic accounting after the tunnel are left out.
- Upstream.CaddyUpstream.Consume: a JSON step counts as part of the Load or Store beside it; the storage prefix, JSON text and locking are left out.
- Upstream.MemoryUpstream.SendTask: waiting for room in the channel is left to the state machine in Accounts, whose channel holds 16 tasks.
- Accounts.WriteBehind: does not cover re-adding a user with traffic or counting for a missing one, where memory resets or creates the entry and the store keeps it or fails; nor a failing store.
- Closing the task channel twice and validateDelay are left out.
- SHA-224 is a function from passwords to 28 bytes.
- Caddy modules, provisioning and configuration, the admin endpoints, TLS, and the other dialers (none, environment, SOCKS, HTTP, WireGuard, Shadowsocks, Unix) are plumbing over libraries that are not part of this model.
