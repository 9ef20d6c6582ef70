/** HandleUDP (pkgs/trojan/trojan_udp.go) as a transition system: the reader goroutine, whose rounds are those
    of Datagram, the main flow, whose rounds are those of Encoder, the deadlines, the result channel, and
    the three buffers freed by hand. */
module Session {
  import opened Prelude
  import opened Socks
  import opened Datagram
  import opened Encoder

  // ---------------------------------------------------------------- states

  datatype ReadResult = ReadResult(n: nat, err: Option<Error>)

  datatype Reader =
    | Idle                                   // not started yet
    | Looping                                // decoding frames from the client
    | Waking(e: Error)                       // loop over; rc.SetReadDeadline(now) next
    | Handing(result: ReadResult)            // errCh <- result
    | Finished
    | Dying(result: ReadResult)              // the loop panicked: the deferred send, without the wake
    | Doomed                                 // ... after which the panic goes on
    | Crashed                                // and ends the process

  datatype Main =
    | AllocBb
    | AllocB
    | AllocW
    | Arm                                    // rc.SetReadDeadline(now + timeout)
    | Recv                                   // rc.ReadFrom
    | Put                                    // w.Write of the frame
    | Unsupported                            // trySetImmediateReadDeadline(clientR)
    | Stop(e: Error)                         // rc.SetWriteDeadline(now)
    | Wake(e: Error)                         // wakeReader(w)
    | Await(e: Error)                        // <-errCh
    | FreeW(out: Outcome)
    | FreeB(out: Outcome)
    | FreeBb(out: Outcome)
    | CloseRc(out: Outcome)
    | Done(out: Outcome)

  /** The client's frames: what its stream has still to give, what was made of the rest, and how the
      reader's loop ended, by the client's deadline or of itself. */
  datatype Inbound = Inbound(rest: seq<byte>, e: Error, sent: seq<Packet>, nr: nat, writes: seq<Option<Error>>,
                             end: Option<Error>, timedOut: bool)

  /** The network's packets, the same way. */
  datatype Outbound = Outbound(rest: seq<Arrival>, fin: Error, frames: seq<seq<byte>>, window: seq<byte>,
                               writes: seq<Option<Error>>, end: Option<Error>, timedOut: bool)

  datatype Held = Held(bb: Resource, b: Resource, w: Resource, rc: Resource, fault: bool)

  /** The read deadlines of the client connection and of rc, the write deadline of rc; whether w, and
      whether r, can set the first. */
  datatype Conns = Conns(client: Timer, rc: Timer, rcWrite: Timer, wakeable: bool, wakeableReader: bool)

  datatype State = State(reader: Reader, main: Main, inb: Inbound, outb: Outbound, held: Held, conns: Conns,
                         got: Option<ReadResult>, handoffs: nat)

  /** What the peers have in store, and what the write buffer holds where addresses are built. */
  datatype Peers = Peers(input: seq<byte>, e: Error, arrivals: seq<Arrival>, fin: Error, window: seq<byte>)

  datatype Action =
    | Alloc(ok: bool)
    | ClientFrame(w: Option<Error>)          // the client delivers a round's bytes; WriteTo returns w
    | ReaderTimeout(net: bool, k: nat)       // a read fails on the client's expired deadline, k counted
    | ReaderLocal
    | PacketComes                            // the network delivers a packet
    | PacketFails                            // ReadFrom fails
    | PacketTimeout
    | Written(w: Option<Error>)
    | MainLocal
    | Handoff
    | Tick                                   // rc's deadline passes
    | Crash                                  // the panic of the reader reaches the top

  /** The state after the packet socket was opened. */
  function Init(p: Peers, wakeable: bool, wakeableReader: bool): State {
    State(Idle, AllocBb, Inbound(p.input, p.e, [], 0, [], None, false),
          Outbound(p.arrivals, p.fin, [], p.window, [], None, false),
          Held(Absent, Absent, Absent, Live, false), Conns(Unset, Unset, Unset, wakeable, wakeableReader), None, 0)
  }

  // ---------------------------------------------------------------- steps

  function Use(s: State, bb: bool, b: bool, w: bool): State {
    s.(held := s.held.(fault := s.held.fault || !s.held.rc.Live? || (bb && !s.held.bb.Live?) ||
                      (b && !s.held.b.Live?) || (w && !s.held.w.Live?)))
  }

  /** End of file, a closed pipe and timeouts count as a clean end of the reader; and a panic comes before
      the error is assigned. */
  function Coalesce(e: Error): Option<Error> {
    if e.EOF? || e.ClosedPipe? || IsTimeout(e) || e.Panic? then None else Some(e)
  }

  /** One round of the decoder. */
  function InRound(inb: Inbound, resolver: Resolver, w: Option<Error>): Inbound {
    var r := DecodeRound(inb.rest, inb.e, resolver, w);
    Inbound(r.rest, inb.e, inb.sent + r.sent, inb.nr + r.nr, inb.writes + [w], r.err, false)
  }

  function ReaderGoesOn(s: State): State {
    match s.inb.end
    case None => s
    case Some(e) => s.(reader := if e.Panic? then Dying(ReadResult(s.inb.nr, Coalesce(e))) else Waking(e))
  }

  /** One round of the encoder, for the packet just read. */
  function OutRound(outb: Outbound, w: Option<Error>): Outbound
    requires outb.rest != [] && |outb.window| == 19
  {
    var r := EncodeRound(outb.rest, outb.fin, w, outb.window);
    Outbound(outb.rest[1..], outb.fin, outb.frames + r.frames, r.window, outb.writes + [w], r.err, false)
  }

  function MainEnds(s: State, e: Error, timedOut: bool): State {
    s.(main := Stop(e), outb := s.outb.(end := Some(e), timedOut := timedOut))
  }

  /** What main makes of both ends: the reader's error first, no timeouts. The downstream count stays 0. */
  function Combine(r: ReadResult, e: Error): Outcome {
    Outcome(r.n, 0, if r.err.Some? then r.err else if IsTimeout(e) then None else Some(e))
  }

  function AllocStep(s: State, ok: bool): Option<State> {
    match s.main
    case AllocBb => Some(if ok then s.(held := s.held.(bb := Live), main := AllocB) else s.(main := CloseRc(ALLOC_FAILED)))
    case AllocB => Some(if ok then s.(held := s.held.(b := Live), main := AllocW) else s.(main := FreeBb(ALLOC_FAILED)))
    case AllocW =>
      Some(if ok then s.(held := s.held.(w := Live), main := Arm, reader := Looping) else s.(main := FreeB(ALLOC_FAILED)))
    case _ => None
  }

  function ReaderStatement(s: State): Option<State> {
    match s.reader
    case Waking(e) =>
      Some(Use(s, false, false, false).(conns := s.conns.(rc := Expired), reader := Handing(ReadResult(s.inb.nr, Coalesce(e)))))
    case _ => None
  }

  /** The statements of main that set deadlines. */
  function Signal(s: State): Option<State> {
    match s.main
    case Arm => Some(Use(s, false, false, false).(conns := s.conns.(rc := Armed), main := Recv))
    case Unsupported => Some(MainEnds(s.(conns := s.conns.(client := if s.conns.wakeableReader then Expired else s.conns.client)), UnsupportedPeer, false))
    case Stop(e) => Some(Use(s, false, false, false).(conns := s.conns.(rcWrite := Expired), main := Wake(e)))
    case Wake(e) => Some(s.(conns := s.conns.(client := if s.conns.wakeable then Expired else s.conns.client), main := Await(e)))
    case _ => None
  }

  /** The way out: the deferred releases, last acquired first. */
  function Release(s: State): Option<State> {
    match s.main
    case FreeW(out) =>
      var t := Use(s, false, false, true);
      Some(t.(held := t.held.(w := Gone), main := FreeB(out)))
    case FreeB(out) =>
      var t := Use(s, false, true, false);
      Some(t.(held := t.held.(b := Gone), main := FreeBb(out)))
    case FreeBb(out) =>
      var t := Use(s, true, false, false);
      Some(t.(held := t.held.(bb := Gone), main := CloseRc(out)))
    case CloseRc(out) =>
      var t := Use(s, false, false, false);
      Some(t.(held := t.held.(rc := Gone), main := Done(out)))
    case _ => None
  }

  predicate Leaving(m: Main) { m.FreeW? || m.FreeB? || m.FreeBb? || m.CloseRc? || m.Done? }

  function MainStatement(s: State): Option<State> {
    if Leaving(s.main) then Release(s) else Signal(s)
  }

  /** One step of the whole system; none after a crash. WriteTo itself does not panic. */
  function Step(s: State, a: Action, resolver: Resolver): Option<State> {
    if s.reader.Crashed? then None else StepAlive(s, a, resolver)
  }

  function StepAlive(s: State, a: Action, resolver: Resolver): Option<State> {
    match a
    case Alloc(ok) => AllocStep(s, ok)
    case ClientFrame(w) =>
      if s.reader.Looping? && w != Some(Panic)
      then Some(ReaderGoesOn(Use(s, true, true, false).(inb := InRound(s.inb, resolver, w)))) else None
    case ReaderTimeout(net, k) =>
      if s.reader.Looping? && s.conns.client.Expired?
      then Some(ReaderGoesOn(Use(s, true, true, false).(inb := s.inb.(
             nr := s.inb.nr + k, end := Some(if net then NetTimeout else Deadline), timedOut := true))))
      else None
    case ReaderLocal => ReaderStatement(s)
    case PacketComes =>
      if s.main.Recv? && s.outb.rest != []
      then Some(Use(s, false, false, true).(main := if s.outb.rest[0].from.None? then Unsupported else Put)) else None
    case PacketFails =>
      if s.main.Recv? && s.outb.rest == [] then Some(MainEnds(Use(s, false, false, true), s.outb.fin, false)) else None
    case PacketTimeout =>
      if s.main.Recv? && s.conns.rc.Expired? then Some(MainEnds(Use(s, false, false, true), Deadline, true)) else None
    case Written(w) =>
      if s.main.Put? && s.outb.rest != [] && |s.outb.window| == 19
      then
        var t := Use(s, false, false, true).(outb := OutRound(s.outb, w));
        Some(t.(main := if w.Some? then Stop(w.value) else Arm))
      else None
    case MainLocal => MainStatement(s)
    case Handoff =>
      if (s.reader.Handing? || s.reader.Dying?) && s.main.Await?
      then Some(s.(reader := if s.reader.Handing? then Finished else Doomed, got := Some(s.reader.result), handoffs := s.handoffs + 1,
                   main := FreeW(Combine(s.reader.result, s.main.e)))) else None
    case Tick => if s.conns.rc.Armed? then Some(s.(conns := s.conns.(rc := Expired))) else None
    case Crash => if s.reader.Doomed? then Some(s.(reader := Crashed)) else None
  }

  /** The actions that need no peer; writes are assumed to return. */
  predicate Forced(a: Action) {
    !a.ClientFrame? && !a.PacketComes? && !a.PacketFails?
  }

  ghost predicate Stuck(s: State, resolver: Resolver) {
    forall a :: Forced(a) ==> Step(s, a, resolver) == None
  }

  function Run(s: State, acts: seq<Action>, resolver: Resolver): Option<State>
    decreases |acts|
  {
    if acts == [] then Some(s)
    else
      match Step(s, acts[0], resolver)
      case None => None
      case Some(t) => Run(t, acts[1..], resolver)
  }

  // ---------------------------------------------------------------- what every step keeps

  predicate Allocating(m: Main) { m.AllocBb? || m.AllocB? || m.AllocW? }

  /** What the caller of HandleUDP is told. */
  function Report(s: State): Outcome
    requires s.inb.end.Some? && s.outb.end.Some?
  {
    Combine(ReadResult(s.inb.nr, Coalesce(s.inb.end.value)), s.outb.end.value)
  }

  predicate Control(s: State) {
    && (s.handoffs == if s.got.Some? then 1 else 0)
    && (s.reader.Idle? <==> Allocating(s.main) || (Leaving(s.main) && s.got.None?))
    && (s.reader.Finished? || s.reader.Doomed? || s.reader.Crashed? <==> s.got.Some?)
    && (s.got.Some? ==> Leaving(s.main))
    && (s.main.FreeW? ==> s.got.Some?)
  }

  predicate Deadlines(s: State) {
    && (s.main.Recv? ==> s.conns.rc != Unset)
    && (s.main.Await? && s.conns.wakeable ==> s.conns.client == Expired)
    && (s.main.Wake? || s.main.Await? || s.got.Some? ==> s.conns.rcWrite == Expired)
    && |s.outb.window| == 19
    && (s.main.Put? ==> s.outb.rest != [] && s.outb.rest[0].from.Some?)
    && (s.main.Unsupported? ==> s.outb.rest != [] && s.outb.rest[0].from.None?)
  }

  predicate Resources(s: State) {
    var m := s.main;
    && !s.held.fault
    && s.held.rc == (if m.Done? then Gone else Live)
    && (if m.AllocBb? then s.held.bb == Absent
        else if m.CloseRc? || m.Done? then s.held.bb != Live
        else s.held.bb == Live)
    && (if m.AllocBb? || m.AllocB? then s.held.b == Absent
        else if m.FreeBb? || m.CloseRc? || m.Done? then s.held.b != Live
        else s.held.b == Live)
    && (if Allocating(m) then s.held.w == Absent
        else if Leaving(m) && !m.FreeW? then s.held.w != Live
        else s.held.w == Live)
  }

  predicate Panicked(r: Reader) { r.Dying? || r.Doomed? || r.Crashed? }

  predicate Results(s: State) {
    && (s.reader.Waking? ==> s.inb.end == Some(s.reader.e))
    && (s.inb.end.Some? <==> !s.reader.Idle? && !s.reader.Looping?)
    && (s.inb.end == Some(Panic) <==> Panicked(s.reader))
    && (s.reader.Handing? || s.reader.Dying? ==> s.reader.result == ReadResult(s.inb.nr, Coalesce(s.inb.end.value)))
    && (s.got.Some? ==> s.inb.end.Some? && s.got.value == ReadResult(s.inb.nr, Coalesce(s.inb.end.value)))
    && (s.main.Stop? ==> s.outb.end == Some(s.main.e))
    && (s.main.Wake? ==> s.outb.end == Some(s.main.e))
    && (s.main.Await? ==> s.outb.end == Some(s.main.e))
    && (s.outb.end.Some? <==> s.main.Stop? || s.main.Wake? || s.main.Await? || s.got.Some?)
    && (Leaving(s.main) ==> s.main.out == if s.got.Some? then Report(s) else ALLOC_FAILED)
  }

  predicate Inv(s: State) {
    Control(s) && Deadlines(s) && Resources(s) && Results(s)
  }

  lemma ReaderKeeps(s: State, a: Action, t: State, resolver: Resolver)
    requires Inv(s) && Step(s, a, resolver) == Some(t)
    requires a.ClientFrame? || a.ReaderTimeout? || a.ReaderLocal?
    ensures Inv(t)
  {
  }

  lemma AllocKeepsResources(s: State, ok: bool)
    requires Inv(s) && AllocStep(s, ok).Some?
    ensures Resources(AllocStep(s, ok).value)
  {
  }

  lemma AllocKeeps(s: State, ok: bool)
    requires Inv(s) && AllocStep(s, ok).Some?
    ensures Inv(AllocStep(s, ok).value)
  {
    AllocKeepsResources(s, ok);
  }

  lemma PacketKeeps(s: State, a: Action, t: State, resolver: Resolver)
    requires Inv(s) && Step(s, a, resolver) == Some(t)
    requires a.PacketComes? || a.PacketFails? || a.PacketTimeout? || a.Tick?
    ensures Inv(t)
  {
  }

  lemma WriteKeeps(s: State, a: Action, t: State, resolver: Resolver)
    requires Inv(s) && Step(s, a, resolver) == Some(t) && a.Written?
    ensures Inv(t)
  {
  }

  lemma HandoffKeeps(s: State, a: Action, t: State, resolver: Resolver)
    requires Inv(s) && Step(s, a, resolver) == Some(t) && (a.Handoff? || a.Crash?)
    ensures Inv(t)
  {
  }

  lemma SignalKeepsResources(s: State)
    requires Inv(s) && Signal(s).Some?
    ensures Resources(Signal(s).value)
  {
  }

  lemma SignalKeeps(s: State)
    requires Inv(s) && Signal(s).Some?
    ensures Inv(Signal(s).value)
  {
    SignalKeepsResources(s);
  }

  lemma ReleaseKeepsResources(s: State)
    requires Inv(s) && Release(s).Some?
    ensures Resources(Release(s).value)
  {
  }

  lemma ReleaseKeepsControl(s: State)
    requires Inv(s) && Release(s).Some?
    ensures Control(Release(s).value)
  {
  }

  lemma ReleaseKeeps(s: State)
    requires Inv(s) && Release(s).Some?
    ensures Inv(Release(s).value)
  {
    ReleaseKeepsResources(s);
    ReleaseKeepsControl(s);
  }

  lemma StepKeepsInv(s: State, a: Action, t: State, resolver: Resolver)
    requires Inv(s) && Step(s, a, resolver) == Some(t)
    ensures Inv(t)
  {
    if a.ClientFrame? || a.ReaderTimeout? || a.ReaderLocal? {
      ReaderKeeps(s, a, t, resolver);
    } else if a.Alloc? {
      AllocKeeps(s, a.ok);
    } else if a.MainLocal? {
      if Leaving(s.main) {
        ReleaseKeeps(s);
      } else {
        SignalKeeps(s);
      }
    } else if a.Written? {
      WriteKeeps(s, a, t, resolver);
    } else if a.Handoff? || a.Crash? {
      HandoffKeeps(s, a, t, resolver);
    } else {
      PacketKeeps(s, a, t, resolver);
    }
  }

  lemma {:induction false} RunKeepsInv(s: State, acts: seq<Action>, t: State, resolver: Resolver)
    requires Inv(s) && Run(s, acts, resolver) == Some(t)
    ensures Inv(t)
    decreases |acts|
  {
    if acts != [] {
      var m := Step(s, acts[0], resolver).value;
      StepKeepsInv(s, acts[0], m, resolver);
      RunKeepsInv(m, acts[1..], t, resolver);
    }
  }

  /** What HandleUDP returns when the reader counted nr and ended with `end`, and the main loop with `stop`:
      the reader's error, unless that is a clean end, a timeout or a panic; else the main loop's, unless
      that is a timeout. Nothing is ever counted downstream. */
  predicate Reports(out: Outcome, nr: nat, end: Error, stop: Error) {
    && out.nr == nr && out.nw == 0
    && (if end.EOF? || end.ClosedPipe? || end.Deadline? || end.NetTimeout? || end.Panic? then
          out.err == if stop.Deadline? || stop.NetTimeout? then None else Some(stop)
        else out.err == Some(end))
  }

  /** In every interleaving no buffer is touched after it was freed, nor rc after it was closed; and when
      HandleUDP has returned, one send has met one receive after the reader's last use of anything (or the
      reader was never started), everything has been given back, and the outcome is the report. A reader
      that panicked hands over a result without an error, and takes the process with it. */
  lemma SessionSafe(p: Peers, wakeable: bool, wakeableReader: bool, acts: seq<Action>, s: State, resolver: Resolver)
    requires |p.window| == 19 && Run(Init(p, wakeable, wakeableReader), acts, resolver) == Some(s)
    ensures !s.held.fault && s.handoffs <= 1
    ensures s.held.bb == Gone || s.held.b == Gone || s.held.w == Gone || s.held.rc == Gone ==> s.got.Some? || s.reader.Idle?
    ensures s.got.Some? <==> s.reader.Finished? || s.reader.Doomed? || s.reader.Crashed?
    ensures s.main.Done? ==>
      && s.held.bb != Live && s.held.b != Live && s.held.w != Live && s.held.rc == Gone
      && if s.got.Some? then s.handoffs == 1 && s.inb.end.Some? && s.outb.end.Some? && s.conns.rcWrite == Expired
         else s.reader.Idle? && s.handoffs == 0 && s.main.out.nr == s.main.out.nw == 0 && s.main.out.err.Some?
    ensures s.main.Done? && s.got.Some? ==> Reports(s.main.out, s.inb.nr, s.inb.end.value, s.outb.end.value)
    ensures Panicked(s.reader) <==> s.inb.end == Some(Panic)
  {
    RunKeepsInv(Init(p, wakeable, wakeableReader), acts, s, resolver);
  }

  // ---------------------------------------------------------------- termination

  function ReaderRank(r: Reader): nat {
    match r
    case Idle => 0
    case Looping => 3
    case Waking(_) => 2
    case Handing(_) => 1
    case Finished => 0
    case Dying(_) => 2
    case Doomed => 1
    case Crashed => 0
  }

  function MainRank(m: Main): nat {
    match m
    case AllocBb => 17
    case AllocB => 16
    case AllocW => 15
    case Arm => 11
    case Recv => 9
    case Put => 8
    case Unsupported => 8
    case Stop(_) => 7
    case Wake(_) => 6
    case Await(_) => 5
    case FreeW(_) => 4
    case FreeB(_) => 3
    case FreeBb(_) => 2
    case CloseRc(_) => 1
    case Done(_) => 0
  }

  /** Every step lowers this number. */
  function Rank(s: State): nat {
    ReaderRank(s.reader) + MainRank(s.main) + (if s.conns.rc.Armed? then 1 else 0)
    + |s.inb.rest| + 4 * |s.outb.rest|
  }

  lemma FrameLowersRank(s: State, w: Option<Error>, t: State, resolver: Resolver)
    requires Step(s, ClientFrame(w), resolver) == Some(t)
    ensures Rank(t) < Rank(s)
  {
    RoundShrinks(s.inb.rest, s.inb.e, resolver, w);
  }

  lemma RoundShrinks(s: seq<byte>, e: Error, resolver: Resolver, w: Option<Error>)
    ensures var r := DecodeRound(s, e, resolver, w);
      |r.rest| <= |s| && (r.err.None? ==> |r.rest| < |s|)
  {
  }

  lemma ReaderLowersRank(s: State, a: Action, t: State, resolver: Resolver)
    requires Step(s, a, resolver) == Some(t) && (a.ReaderTimeout? || a.ReaderLocal? || a.Handoff? || a.Tick? || a.Alloc? || a.Crash?)
    ensures Rank(t) < Rank(s)
  {
  }

  lemma LoopLowersRank(s: State, a: Action, t: State, resolver: Resolver)
    requires Step(s, a, resolver) == Some(t) && (a.PacketComes? || a.PacketFails? || a.PacketTimeout? || a.Written?)
    ensures Rank(t) < Rank(s)
  {
  }

  lemma LocalLowersRank(s: State)
    requires MainStatement(s).Some?
    ensures Rank(MainStatement(s).value) < Rank(s)
  {
  }

  lemma StepLowersRank(s: State, a: Action, t: State, resolver: Resolver)
    requires Step(s, a, resolver) == Some(t)
    ensures Rank(t) < Rank(s)
  {
    if a.ClientFrame? {
      FrameLowersRank(s, a.w, t, resolver);
    } else if a.MainLocal? {
      LocalLowersRank(s);
    } else if a.PacketComes? || a.PacketFails? || a.PacketTimeout? || a.Written? {
      LoopLowersRank(s, a, t, resolver);
    } else {
      ReaderLowersRank(s, a, t, resolver);
    }
  }

  /** No run is longer than the rank of its first state. */
  lemma {:induction false} RunsAreShort(s: State, acts: seq<Action>, t: State, resolver: Resolver)
    requires Run(s, acts, resolver) == Some(t)
    ensures |acts| + Rank(t) <= Rank(s)
    decreases |acts|
  {
    if acts != [] {
      var m := Step(s, acts[0], resolver).value;
      StepLowersRank(s, acts[0], m, resolver);
      RunsAreShort(m, acts[1..], t, resolver);
    }
  }

  /** Main waits for a reader that waits for the client. */
  predicate WaitsForClient(s: State) {
    s.reader.Looping? && s.main.Await? && s.conns.client != Expired
  }

  function NextForced(s: State): Action {
    if s.reader.Doomed? then Crash
    else if s.conns.rc.Armed? then Tick
    else if Allocating(s.main) then Alloc(true)
    else if s.main.Recv? then PacketTimeout
    else if s.main.Put? then Written(None)
    else if !s.main.Await? then MainLocal
    else if s.reader.Looping? then ReaderTimeout(false, 0)
    else if s.reader.Waking? then ReaderLocal
    else Handoff
  }

  /** Nothing happens without a peer: the process has crashed, or HandleUDP has returned with no panic on
      its way, or it waits for the client. */
  predicate AtRest(s: State) {
    || s.reader.Crashed?
    || (!s.conns.rc.Armed? && ((s.main.Done? && !s.reader.Doomed?) || WaitsForClient(s)))
  }

  /** Deadlock, exactly. A silent network does not matter: the armed deadline ends the main loop. */
  lemma StuckExactly(s: State, resolver: Resolver)
    requires Inv(s)
    ensures Stuck(s, resolver) <==> AtRest(s)
  {
    if AtRest(s) {
      forall a | Forced(a)
        ensures Step(s, a, resolver) == None
      {
        NoForcedStep(s, a, resolver);
      }
    } else {
      ForcedStep(s, resolver);
    }
  }

  lemma NoForcedStep(s: State, a: Action, resolver: Resolver)
    requires Inv(s) && AtRest(s) && Forced(a)
    ensures Step(s, a, resolver) == None
  {
  }

  lemma ForcedStep(s: State, resolver: Resolver)
    requires Inv(s) && !AtRest(s)
    ensures Forced(NextForced(s)) && Step(s, NextForced(s), resolver).Some?
  {
  }

  /** From some inputs some run gets stuck with HandleUDP still waiting in a living process. */
  ghost predicate CanHang(wakeable: bool, wakeableReader: bool, resolver: Resolver) {
    exists p: Peers, acts, s ::
      && |p.window| == 19 && Run(Init(p, wakeable, wakeableReader), acts, resolver) == Some(s)
      && Stuck(s, resolver) && !s.main.Done? && !s.reader.Crashed?
  }

  /** Unless the process crashes (see CrashesExactly), HandleUDP returns in the end, whoever falls silent
      and in every interleaving, exactly when the client connection can be woken through its writer. */
  lemma HangsExactly(wakeable: bool, wakeableReader: bool, resolver: Resolver)
    ensures CanHang(wakeable, wakeableReader, resolver) <==> !wakeable
  {
    if !wakeable {
      SilentClient(wakeableReader, resolver);
    }
    if wakeable && CanHang(wakeable, wakeableReader, resolver) {
      var p: Peers, acts, s :|
        && |p.window| == 19 && Run(Init(p, wakeable, wakeableReader), acts, resolver) == Some(s)
        && Stuck(s, resolver) && !s.main.Done? && !s.reader.Crashed?;
      StuckHasReturned(Init(p, wakeable, wakeableReader), acts, s, resolver);
    }
  }

  lemma StuckHasReturned(init: State, acts: seq<Action>, s: State, resolver: Resolver)
    requires Inv(init) && init.conns.wakeable && Run(init, acts, resolver) == Some(s) && Stuck(s, resolver)
    ensures s.main.Done? || s.reader.Crashed?
  {
    RunKeepsInv(init, acts, s, resolver);
    RunKeepsConns(init, acts, s, resolver);
    StuckExactly(s, resolver);
  }

  /** Main's loop ends for idleness only when time has passed, or the reader has ended. */
  lemma {:induction false} IdleTakesTime(s: State, acts: seq<Action>, t: State, resolver: Resolver)
    requires Run(s, acts, resolver) == Some(t) && s.conns.rc != Expired && !s.outb.timedOut
    requires Tick !in acts && ReaderLocal !in acts
    ensures t.conns.rc != Expired && !t.outb.timedOut
    decreases |acts|
  {
    if acts != [] {
      var m := Step(s, acts[0], resolver).value;
      NoTimePasses(s, acts[0], m, resolver);
      assert forall a :: a in acts[1..] ==> a in acts;
      IdleTakesTime(m, acts[1..], t, resolver);
    }
  }

  lemma NoTimePasses(s: State, a: Action, t: State, resolver: Resolver)
    requires Step(s, a, resolver) == Some(t) && s.conns.rc != Expired && !s.outb.timedOut
    requires a != Tick && a != ReaderLocal
    ensures t.conns.rc != Expired && !t.outb.timedOut
  {
  }

  /** A packet from a peer of another kind wakes the client's reader at once, where that is possible. */
  lemma ForeignPeerWakes(s: State, t: State, resolver: Resolver)
    requires Inv(s) && s.main.Recv? && s.outb.rest != [] && s.outb.rest[0].from.None? && s.conns.wakeableReader
    requires Run(s, [PacketComes, MainLocal], resolver) == Some(t)
    ensures t.conns.client == Expired && t.outb.end == Some(UnsupportedPeer) && !t.outb.timedOut
    ensures t.outb.frames == s.outb.frames && t.main.Stop?
  {
    var acts := [PacketComes, MainLocal];
    assert acts[1..] == [MainLocal] && [MainLocal][1..] == [];
    var m := Step(s, PacketComes, resolver).value;
    assert Run(m, [MainLocal], resolver) == Step(m, MainLocal, resolver);
  }

  /** The number of steps of a run is bounded by its inputs. */
  lemma SessionIsShort(p: Peers, wakeable: bool, wakeableReader: bool, acts: seq<Action>, s: State, resolver: Resolver)
    requires Run(Init(p, wakeable, wakeableReader), acts, resolver) == Some(s)
    ensures |acts| <= 17 + |p.input| + 4 * |p.arrivals|
  {
    RunsAreShort(Init(p, wakeable, wakeableReader), acts, s, resolver);
  }

  /** The network fails and the client says nothing. */
  lemma SilentClient(wakeableReader: bool, resolver: Resolver)
    ensures CanHang(false, wakeableReader, resolver)
  {
    var p := Peers([], EOF, [], Other(0), seq(19, _ => 0 as byte));
    var s0 := Init(p, false, wakeableReader);
    var acts, s := NetworkFails(s0, resolver);
    RunKeepsInv(s0, acts, s, resolver);
    StuckExactly(s, resolver);
  }

  lemma NetworkFails(s0: State, resolver: Resolver) returns (acts: seq<Action>, s: State)
    requires s0.main == AllocBb && s0.reader == Idle && s0.outb.rest == [] && !s0.conns.wakeable && s0.conns.client == Unset
    ensures Run(s0, acts, resolver) == Some(s)
    ensures s.main.Await? && s.reader.Looping? && s.conns.client == Unset && s.conns.rc == Expired
  {
    var s3 := Started(s0);
    var s4 := Step(s3, MainLocal, resolver).value;
    var s5 := Step(s4, PacketFails, resolver).value;
    var s6 := Step(s5, MainLocal, resolver).value;
    var s7 := Step(s6, MainLocal, resolver).value;
    s := Step(s7, Tick, resolver).value;
    acts := RunFrom(s7, Tick, [], s, resolver);
    acts := RunFrom(s6, MainLocal, acts, s, resolver);
    acts := RunFrom(s5, MainLocal, acts, s, resolver);
    acts := RunFrom(s4, PacketFails, acts, s, resolver);
    acts := RunFrom(s3, MainLocal, acts, s, resolver);
    acts := RunStarts(s0, acts, s, resolver);
  }

  /** The state in which both sides have started. */
  function Started(s: State): State {
    s.(held := Held(Live, Live, Live, s.held.rc, s.held.fault), main := Arm, reader := Looping)
  }

  lemma RunStarts(s: State, acts: seq<Action>, t: State, resolver: Resolver) returns (longer: seq<Action>)
    requires s.main == AllocBb && !s.reader.Crashed? && Run(Started(s), acts, resolver) == Some(t)
    ensures Run(s, longer, resolver) == Some(t)
  {
    var s1 := s.(held := s.held.(bb := Live), main := AllocB);
    var s2 := s1.(held := s1.held.(b := Live), main := AllocW);
    longer := RunFrom(s2, Alloc(true), acts, t, resolver);
    longer := RunFrom(s1, Alloc(true), longer, t, resolver);
    longer := RunFrom(s, Alloc(true), longer, t, resolver);
  }

  lemma {:induction false} RunKeepsConns(s: State, acts: seq<Action>, t: State, resolver: Resolver)
    requires Run(s, acts, resolver) == Some(t)
    ensures t.conns.wakeable == s.conns.wakeable
    decreases |acts|
  {
    if acts != [] {
      var m := Step(s, acts[0], resolver).value;
      StepKeepsConns(s, acts[0], m, resolver);
      RunKeepsConns(m, acts[1..], t, resolver);
    }
  }

  lemma StepKeepsConns(s: State, a: Action, t: State, resolver: Resolver)
    requires Step(s, a, resolver) == Some(t)
    ensures t.conns.wakeable == s.conns.wakeable
  {
    if a.MainLocal? && !Leaving(s.main) {
      assert Signal(s).value.conns.wakeable == s.conns.wakeable;
    }
  }

  // ---------------------------------------------------------------- the wake that is overwritten

  /** The reader has ended and its wake is gone: rc's deadline lies ahead again. */
  predicate WakeLost(s: State) {
    s.reader.Handing? && s.conns.rc.Armed?
  }

  /** Main will set rc's deadline again, or may: a packet is there that it can frame. */
  predicate MayRearm(s: State) {
    s.main.Arm? || s.main.Put? || (s.main.Recv? && s.outb.rest != [] && s.outb.rest[0].from.Some?)
  }

  /** Unlike that of HandleTCP, the reader's wake can be lost here: once the reader has set rc's deadline to
      now, some run goes on to lose it exactly when main may set that deadline again. */
  lemma WakeLostExactly(s: State, resolver: Resolver)
    requires Inv(s) && s.reader.Handing? && s.conns.rc.Expired?
    ensures (exists acts, t :: Run(s, acts, resolver) == Some(t) && WakeLost(t)) <==> MayRearm(s)
  {
    if MayRearm(s) {
      var acts, t := Rearm(s, resolver);
    }
    if acts, t :| Run(s, acts, resolver) == Some(t) && WakeLost(t) {
      if !MayRearm(s) {
        RunKeepsWake(s, acts, t, resolver);
      }
    }
  }

  lemma Rearm(s: State, resolver: Resolver) returns (acts: seq<Action>, t: State)
    requires Inv(s) && s.reader.Handing? && s.conns.rc.Expired? && MayRearm(s)
    ensures Run(s, acts, resolver) == Some(t) && WakeLost(t) && t.main == Recv
  {
    var put := if s.main.Recv? then Step(s, PacketComes, resolver).value else s;
    var arm := if put.main.Put? then Step(put, Written(None), resolver).value else put;
    t := Step(arm, MainLocal, resolver).value;
    acts := RunFrom(arm, MainLocal, [], t, resolver);
    if put.main.Put? {
      acts := RunFrom(put, Written(None), acts, t, resolver);
    }
    if s.main.Recv? {
      acts := RunFrom(s, PacketComes, acts, t, resolver);
    }
  }

  /** The wake has arrived: it is still set and will stay, or the result has been received. */
  predicate WakeKept(s: State) {
    s.got.Some? || (s.reader.Handing? && s.conns.rc.Expired? && !MayRearm(s))
  }

  lemma StepKeepsWake(s: State, a: Action, t: State, resolver: Resolver)
    requires Inv(s) && WakeKept(s) && Step(s, a, resolver) == Some(t)
    ensures WakeKept(t)
  {
  }

  lemma {:induction false} RunKeepsWake(s: State, acts: seq<Action>, t: State, resolver: Resolver)
    requires Inv(s) && WakeKept(s) && Run(s, acts, resolver) == Some(t)
    ensures Inv(t) && WakeKept(t)
    decreases |acts|
  {
    if acts != [] {
      var m := Step(s, acts[0], resolver).value;
      StepKeepsInv(s, acts[0], m, resolver);
      StepKeepsWake(s, acts[0], m, resolver);
      RunKeepsWake(m, acts[1..], t, resolver);
    }
  }

  /** Some run of a session loses the reader's wake. */
  ghost predicate CanLoseWake(p: Peers, wakeable: bool, wakeableReader: bool, resolver: Resolver) {
    exists acts, t :: Run(Init(p, wakeable, wakeableReader), acts, resolver) == Some(t) && WakeLost(t)
  }

  /** No input is safe from it, since main starts by setting the deadline, except that of a client whose
      very first address makes the reader panic before it could wake anyone. */
  lemma WakeOverwrittenExactly(p: Peers, wakeable: bool, wakeableReader: bool, resolver: Resolver)
    requires |p.window| == 19 && p.e != Panic
    ensures CanLoseWake(p, wakeable, wakeableReader, resolver) <==> !StartsFatal(p.input)
  {
    var s0 := Init(p, wakeable, wakeableReader);
    if !StartsFatal(p.input) {
      var acts, t := WakeOverwritten(p, wakeable, wakeableReader, resolver);
    } else if acts, t :| Run(s0, acts, resolver) == Some(t) && WakeLost(t) {
      RunKeepsFatal(p.input, s0, acts, t, resolver);
    }
  }

  /** The reader ends at once, main arms the deadline and reads on. */
  lemma WakeOverwritten(p: Peers, wakeable: bool, wakeableReader: bool, resolver: Resolver)
    returns (acts: seq<Action>, t: State)
    requires |p.window| == 19 && p.e != Panic && !StartsFatal(p.input)
    ensures Run(Init(p, wakeable, wakeableReader), acts, resolver) == Some(t) && WakeLost(t) && t.main == Recv
  {
    var s0 := Init(p, wakeable, wakeableReader);
    var s3 := Started(s0);
    var fails := ClientFrame(Some(Other(0)));
    RoundPanics(p.input, p.e, resolver, Some(Other(0)));
    var s4 := Step(s3, fails, resolver).value;
    var s5 := Step(s4, ReaderLocal, resolver).value;
    RunKeepsInv(s0, [], s0, resolver);
    t := Step(s5, MainLocal, resolver).value;
    acts := RunFrom(s5, MainLocal, [], t, resolver);
    acts := RunFrom(s4, ReaderLocal, acts, t, resolver);
    acts := RunFrom(s3, fails, acts, t, resolver);
    acts := RunStarts(s0, acts, t, resolver);
  }

  /** With a panic first in line the reader either panics or is cut off after main has stopped. */
  predicate FatalAhead(input: seq<byte>, s: State) {
    && (s.reader.Looping? || s.reader.Idle? ==> s.inb.rest == input)
    && (s.conns.client.Expired? ==> s.main.Stop? || s.main.Wake? || s.main.Await? || Leaving(s.main))
    && (s.reader.Waking? || s.reader.Handing? ==> s.conns.client.Expired?)
    && (s.reader.Handing? ==> !s.conns.rc.Armed?)
  }

  lemma StepKeepsFatal(input: seq<byte>, s: State, a: Action, t: State, resolver: Resolver)
    requires Inv(s) && StartsFatal(input) && FatalAhead(input, s) && Step(s, a, resolver) == Some(t)
    ensures FatalAhead(input, t)
  {
    if a.ClientFrame? {
      RoundPanics(input, s.inb.e, resolver, a.w);
    }
  }

  lemma {:induction false} RunKeepsFatal(input: seq<byte>, s: State, acts: seq<Action>, t: State, resolver: Resolver)
    requires Inv(s) && StartsFatal(input) && FatalAhead(input, s) && Run(s, acts, resolver) == Some(t)
    ensures FatalAhead(input, t)
    decreases |acts|
  {
    if acts != [] {
      var m := Step(s, acts[0], resolver).value;
      StepKeepsInv(s, acts[0], m, resolver);
      StepKeepsFatal(input, s, acts[0], m, resolver);
      RunKeepsFatal(input, m, acts[1..], t, resolver);
    }
  }

  lemma RunFrom(s: State, a: Action, acts: seq<Action>, t: State, resolver: Resolver) returns (longer: seq<Action>)
    requires Step(s, a, resolver).Some? && Run(Step(s, a, resolver).value, acts, resolver) == Some(t)
    ensures Run(s, longer, resolver) == Some(t)
  {
    longer := [a] + acts;
    assert longer[1..] == acts;
  }

  // ---------------------------------------------------------------- what is relayed

  function Before(sent: seq<Packet>, nr: nat, d: Decoded): Decoded {
    Decoded(sent + d.sent, nr + d.nr, d.err)
  }

  lemma BeforeTwice(sent: seq<Packet>, nr: nat, more: seq<Packet>, k: nat, d: Decoded)
    ensures Before(sent, nr, Before(more, k, d)) == Before(sent + more, nr + k, d)
  {
  }

  /** The decoder's run on the whole stream is what was done so far, then its run on the rest. */
  ghost predicate Halfway(input: seq<byte>, e: Error, inb: Inbound, resolver: Resolver) {
    inb.e == e && forall ws ::
      Decode(input, e, resolver, inb.writes + ws) == Before(inb.sent, inb.nr, Decode(inb.rest, e, resolver, ws))
  }

  /** Where the reader stands: halfway, at the end of the decoder's run, or cut off by its deadline. */
  ghost predicate Inwards(input: seq<byte>, e: Error, inb: Inbound, resolver: Resolver) {
    var whole := Decode(input, e, resolver, inb.writes);
    if inb.end.None? then Halfway(input, e, inb, resolver)
    else if !inb.timedOut then whole == Decoded(inb.sent, inb.nr, inb.end.value)
    else IsPrefix(inb.sent, whole.sent)
  }

  lemma FirstRound(s: seq<byte>, e: Error, resolver: Resolver, w: Option<Error>, ws: seq<Option<Error>>)
    ensures var r := DecodeRound(s, e, resolver, w);
      Decode(s, e, resolver, [w] + ws) ==
        if r.err.Some? then Decoded(r.sent, r.nr, r.err.value)
        else Before(r.sent, r.nr, Decode(r.rest, e, resolver, ws))
  {
    assert ([w] + ws)[1..] == ws;
  }

  lemma OneMoreWrite(input: seq<byte>, e: Error, inb: Inbound, resolver: Resolver, w: Option<Error>, ws: seq<Option<Error>>)
    requires Halfway(input, e, inb, resolver)
    ensures Decode(input, e, resolver, (inb.writes + [w]) + ws) == Before(inb.sent, inb.nr, Decode(inb.rest, e, resolver, [w] + ws))
  {
    assert (inb.writes + [w]) + ws == inb.writes + ([w] + ws);
  }

  lemma RoundInwards(input: seq<byte>, e: Error, inb: Inbound, resolver: Resolver, w: Option<Error>)
    requires Halfway(input, e, inb, resolver)
    ensures Inwards(input, e, InRound(inb, resolver, w), resolver)
  {
    var r := DecodeRound(inb.rest, e, resolver, w);
    var inb' := InRound(inb, resolver, w);
    if r.err.None? {
      forall ws
        ensures Decode(input, e, resolver, inb'.writes + ws) == Before(inb'.sent, inb'.nr, Decode(inb'.rest, e, resolver, ws))
      {
        OneMoreWrite(input, e, inb, resolver, w, ws);
        FirstRound(inb.rest, e, resolver, w, ws);
        BeforeTwice(inb.sent, inb.nr, r.sent, r.nr, Decode(r.rest, e, resolver, ws));
      }
    } else {
      OneMoreWrite(input, e, inb, resolver, w, []);
      FirstRound(inb.rest, e, resolver, w, []);
      assert inb'.writes + [] == inb'.writes;
    }
  }

  lemma StepInwards(input: seq<byte>, e: Error, s: State, a: Action, t: State, resolver: Resolver)
    requires Results(s) && Inwards(input, e, s.inb, resolver) && Step(s, a, resolver) == Some(t)
    ensures Inwards(input, e, t.inb, resolver)
  {
    if a.ClientFrame? {
      RoundInwards(input, e, s.inb, resolver, a.w);
    } else if a.ReaderTimeout? {
      assert s.inb.writes + [] == s.inb.writes;
    } else {
      LeavesInbound(s, a, t, resolver);
    }
  }

  lemma LeavesInbound(s: State, a: Action, t: State, resolver: Resolver)
    requires Step(s, a, resolver) == Some(t) && !a.ClientFrame? && !a.ReaderTimeout?
    ensures t.inb == s.inb
  {
  }

  lemma {:induction false} RunInwards(input: seq<byte>, e: Error, s: State, acts: seq<Action>, t: State, resolver: Resolver)
    requires Inv(s) && Inwards(input, e, s.inb, resolver) && Run(s, acts, resolver) == Some(t)
    ensures Inwards(input, e, t.inb, resolver)
    decreases |acts|
  {
    if acts != [] {
      var m := Step(s, acts[0], resolver).value;
      StepKeepsInv(s, acts[0], m, resolver);
      StepInwards(input, e, s, acts[0], m, resolver);
      RunInwards(input, e, m, acts[1..], t, resolver);
    }
  }

  /** In every interleaving the packets sent to the network are, in order, those the decoder makes of the
      client's stream; and a reader that was not cut off by its deadline has sent all of them and reports
      the decoder's count and, coalesced, its error. */
  lemma SessionDecodes(p: Peers, wakeable: bool, wakeableReader: bool, acts: seq<Action>, s: State, resolver: Resolver)
    requires |p.window| == 19 && Run(Init(p, wakeable, wakeableReader), acts, resolver) == Some(s)
    ensures var whole := Decode(p.input, p.e, resolver, s.inb.writes);
      && IsPrefix(s.inb.sent, whole.sent)
      && (s.got.Some? && !s.inb.timedOut ==>
            s.inb.sent == whole.sent && s.got == Some(ReadResult(whole.nr, Coalesce(whole.err))))
      && (s.main.Done? && s.got.Some? && !s.inb.timedOut ==> s.main.out.nr == whole.nr && s.inb.end == Some(whole.err))
  {
    var init := Init(p, wakeable, wakeableReader);
    InitHalfway(p, init.inb, resolver);
    RunKeepsInv(init, acts, s, resolver);
    RunInwards(p.input, p.e, init, acts, s, resolver);
    assert s.inb.writes + [] == s.inb.writes;
  }

  lemma InitHalfway(p: Peers, inb: Inbound, resolver: Resolver)
    requires inb == Inbound(p.input, p.e, [], 0, [], None, false)
    ensures Halfway(p.input, p.e, inb, resolver)
  {
    forall ws
      ensures Decode(p.input, p.e, resolver, inb.writes + ws) == Before(inb.sent, inb.nr, Decode(inb.rest, p.e, resolver, ws))
    {
      assert inb.writes + ws == ws;
      BeforeNothing(Decode(p.input, p.e, resolver, ws));
    }
  }

  lemma BeforeNothing(d: Decoded)
    ensures Before([], 0, d) == d
  {
  }

  // ---------------------------------------------------------------- the client that crashes it

  ghost predicate CanCrash(p: Peers, wakeable: bool, wakeableReader: bool, resolver: Resolver) {
    exists acts, s :: Run(Init(p, wakeable, wakeableReader), acts, resolver) == Some(s) && s.reader.Crashed?
  }

  /** A client's stream can crash the process exactly when its frames resolve up to an address with a name
      of 254 or 255 bytes. */
  lemma CrashesExactly(p: Peers, wakeable: bool, wakeableReader: bool, resolver: Resolver)
    requires |p.window| == 19 && p.e != Panic
    ensures CanCrash(p, wakeable, wakeableReader, resolver) <==> MeetsFatal(p.input, resolver, [])
  {
    var init := Init(p, wakeable, wakeableReader);
    PanicsExactly(p.input, p.e, resolver, []);
    if MeetsFatal(p.input, resolver, []) {
      var acts, s := CrashRun(init, resolver);
    }
    if acts, s :| Run(init, acts, resolver) == Some(s) && s.reader.Crashed? {
      SessionDecodes(p, wakeable, wakeableReader, acts, s, resolver);
      InitHalfway(p, init.inb, resolver);
      RunKeepsInv(init, acts, s, resolver);
      RunInwards(p.input, p.e, init, acts, s, resolver);
      RunWritesWell(init, acts, s, resolver);
      PanicsExactly(p.input, p.e, resolver, s.inb.writes);
      FewerWrites(p.input, resolver, s.inb.writes);
    }
  }

  /** Only the reader's own rounds panic, and no write does. */
  predicate WritesWell(s: State) {
    (forall i :: 0 <= i < |s.inb.writes| ==> s.inb.writes[i] != Some(Panic)) && (s.inb.end == Some(Panic) ==> !s.inb.timedOut)
  }

  lemma StepWritesWell(s: State, a: Action, t: State, resolver: Resolver)
    requires WritesWell(s) && Step(s, a, resolver) == Some(t)
    ensures WritesWell(t)
  {
    if !a.ClientFrame? && !a.ReaderTimeout? {
      LeavesInbound(s, a, t, resolver);
    }
  }

  lemma {:induction false} RunWritesWell(s: State, acts: seq<Action>, t: State, resolver: Resolver)
    requires WritesWell(s) && Run(s, acts, resolver) == Some(t)
    ensures WritesWell(t)
    decreases |acts|
  {
    if acts != [] {
      var m := Step(s, acts[0], resolver).value;
      StepWritesWell(s, acts[0], m, resolver);
      RunWritesWell(m, acts[1..], t, resolver);
    }
  }

  /** The reader comes first, then main idles until it takes the result. */
  lemma CrashRun(s: State, resolver: Resolver) returns (acts: seq<Action>, t: State)
    requires s.main == AllocBb && Inv(s) && s.reader == Idle && s.conns.rc == Unset
    requires Decode(s.inb.rest, s.inb.e, resolver, []).err == Panic
    ensures Run(s, acts, resolver) == Some(t) && t.reader.Crashed?
  {
    var s3 := Started(s);
    var first, s4 := ReaderRunsOut(s3, resolver);
    var tail;
    tail, t := MainIdlesOut(s4, resolver);
    RunTwo(s3, first, s4, tail, t, resolver);
    acts := RunStarts(s, first + tail, t, resolver);
  }

  lemma {:induction false} ReaderRunsOut(s: State, resolver: Resolver) returns (acts: seq<Action>, t: State)
    requires s.reader == Looping && s.main == Arm && s.conns.rc != Armed
    requires Decode(s.inb.rest, s.inb.e, resolver, []).err == Panic
    ensures Run(s, acts, resolver) == Some(t) && t.reader.Dying? && t.main == Arm
    decreases |s.inb.rest|
  {
    var a := ClientFrame(None);
    var m := Step(s, a, resolver).value;
    RoundShrinks(s.inb.rest, s.inb.e, resolver, None);
    if m.reader.Dying? {
      t := m;
      acts := RunFrom(s, a, [], t, resolver);
    } else {
      acts, t := ReaderRunsOut(m, resolver);
      acts := RunFrom(s, a, acts, t, resolver);
    }
  }

  lemma MainIdlesOut(s: State, resolver: Resolver) returns (acts: seq<Action>, t: State)
    requires s.reader.Dying? && s.main == Arm
    ensures Run(s, acts, resolver) == Some(t) && t.reader.Crashed?
  {
    var s1 := Step(s, MainLocal, resolver).value;
    var s2 := Step(s1, Tick, resolver).value;
    var s3 := Step(s2, PacketTimeout, resolver).value;
    acts, t := MainStops(s3, resolver);
    acts := RunFrom(s2, PacketTimeout, acts, t, resolver);
    acts := RunFrom(s1, Tick, acts, t, resolver);
    acts := RunFrom(s, MainLocal, acts, t, resolver);
  }

  lemma MainStops(s: State, resolver: Resolver) returns (acts: seq<Action>, t: State)
    requires s.reader.Dying? && s.main.Stop?
    ensures Run(s, acts, resolver) == Some(t) && t.reader.Crashed?
  {
    var s1 := Step(s, MainLocal, resolver).value;
    var s2 := Step(s1, MainLocal, resolver).value;
    var s3 := Step(s2, Handoff, resolver).value;
    t := Step(s3, Crash, resolver).value;
    acts := RunFrom(s3, Crash, [], t, resolver);
    acts := RunFrom(s2, Handoff, acts, t, resolver);
    acts := RunFrom(s1, MainLocal, acts, t, resolver);
    acts := RunFrom(s, MainLocal, acts, t, resolver);
  }

  lemma {:induction false} RunTwo(s: State, first: seq<Action>, m: State, tail: seq<Action>, t: State, resolver: Resolver)
    requires Run(s, first, resolver) == Some(m) && Run(m, tail, resolver) == Some(t)
    ensures Run(s, first + tail, resolver) == Some(t)
    decreases |first|
  {
    if first == [] {
      assert first + tail == tail;
    } else {
      assert (first + tail)[1..] == first[1..] + tail;
      RunTwo(Step(s, first[0], resolver).value, first[1..], m, tail, t, resolver);
    }
  }

  // ---------------------------------------------------------------- the encoder's side

  function Prepend(frames: seq<seq<byte>>, r: Encoded): Encoded {
    Encoded(frames + r.frames, r.err)
  }

  lemma PrependTwice(frames: seq<seq<byte>>, more: seq<seq<byte>>, r: Encoded)
    ensures Prepend(frames, Prepend(more, r)) == Prepend(frames + more, r)
  {
  }

  ghost predicate OutHalfway(p: Peers, outb: Outbound) {
    && |p.window| == |outb.window| == 19 && outb.fin == p.fin
    && forall ws :: Encode(p.arrivals, p.fin, outb.writes + ws, p.window)
                    == Prepend(outb.frames, Encode(outb.rest, p.fin, ws, outb.window))
  }

  ghost predicate Outwards(p: Peers, outb: Outbound)
    requires |p.window| == 19
  {
    var whole := Encode(p.arrivals, p.fin, outb.writes, p.window);
    if outb.end.None? then OutHalfway(p, outb)
    else if !outb.timedOut then whole == Encoded(outb.frames, outb.end.value)
    else IsPrefix(outb.frames, whole.frames)
  }

  lemma FirstEncoded(script: seq<Arrival>, fin: Error, w: Option<Error>, ws: seq<Option<Error>>, window: seq<byte>)
    requires |window| == 19
    ensures var r := EncodeRound(script, fin, w, window);
      Encode(script, fin, [w] + ws, window) ==
        if r.err.Some? then Encoded(r.frames, r.err.value)
        else Prepend(r.frames, Encode(script[1..], fin, ws, r.window))
  {
    assert ([w] + ws)[1..] == ws;
  }

  lemma OneMoreOut(p: Peers, outb: Outbound, w: Option<Error>, ws: seq<Option<Error>>)
    requires OutHalfway(p, outb)
    ensures Encode(p.arrivals, p.fin, (outb.writes + [w]) + ws, p.window)
         == Prepend(outb.frames, Encode(outb.rest, p.fin, [w] + ws, outb.window))
  {
    assert (outb.writes + [w]) + ws == outb.writes + ([w] + ws);
  }

  lemma RoundOutwards(p: Peers, outb: Outbound, w: Option<Error>)
    requires OutHalfway(p, outb) && outb.rest != []
    ensures Outwards(p, OutRound(outb, w))
  {
    var r := EncodeRound(outb.rest, p.fin, w, outb.window);
    var outb' := OutRound(outb, w);
    if r.err.None? {
      forall ws
        ensures Encode(p.arrivals, p.fin, outb'.writes + ws, p.window)
             == Prepend(outb'.frames, Encode(outb'.rest, p.fin, ws, outb'.window))
      {
        OneMoreOut(p, outb, w, ws);
        FirstEncoded(outb.rest, p.fin, w, ws, outb.window);
        PrependTwice(outb.frames, r.frames, Encode(outb.rest[1..], p.fin, ws, r.window));
      }
    } else {
      OneMoreOut(p, outb, w, []);
      FirstEncoded(outb.rest, p.fin, w, [], outb.window);
      assert outb'.writes + [] == outb'.writes;
    }
  }

  /** The loop ends without a write: the network failed, a foreign peer wrote, or the deadline passed. */
  lemma EndsOutwards(p: Peers, outb: Outbound, e: Error, timedOut: bool)
    requires OutHalfway(p, outb)
    requires timedOut || (outb.rest == [] && e == p.fin) ||
             (outb.rest != [] && outb.rest[0].from.None? && e == UnsupportedPeer)
    ensures Outwards(p, outb.(end := Some(e), timedOut := timedOut))
  {
    assert outb.writes + [] == outb.writes;
  }

  lemma StepOutwards(p: Peers, s: State, a: Action, t: State, resolver: Resolver)
    requires |p.window| == 19 && Inv(s) && Outwards(p, s.outb) && Step(s, a, resolver) == Some(t)
    ensures Outwards(p, t.outb)
  {
    if a.Written? {
      RoundOutwards(p, s.outb, a.w);
    } else if a.PacketFails? || a.PacketTimeout? {
      EndsOutwards(p, s.outb, if a.PacketFails? then s.outb.fin else Deadline, a.PacketTimeout?);
    } else if a.MainLocal? && s.main.Unsupported? {
      EndsOutwards(p, s.outb, UnsupportedPeer, false);
    } else {
      LeavesOutbound(s, a, t, resolver);
    }
  }

  lemma LeavesOutbound(s: State, a: Action, t: State, resolver: Resolver)
    requires Step(s, a, resolver) == Some(t)
    requires !a.Written? && !a.PacketFails? && !a.PacketTimeout? && !(a.MainLocal? && s.main.Unsupported?)
    ensures t.outb == s.outb
  {
  }

  lemma {:induction false} RunOutwards(p: Peers, s: State, acts: seq<Action>, t: State, resolver: Resolver)
    requires |p.window| == 19 && Inv(s) && Outwards(p, s.outb) && Run(s, acts, resolver) == Some(t)
    ensures Outwards(p, t.outb)
    decreases |acts|
  {
    if acts != [] {
      var m := Step(s, acts[0], resolver).value;
      StepKeepsInv(s, acts[0], m, resolver);
      StepOutwards(p, s, acts[0], m, resolver);
      RunOutwards(p, m, acts[1..], t, resolver);
    }
  }

  /** In every interleaving the frames written to the client are, in order, those the encoder makes of the
      network's packets; and a main loop that was not ended by the idle deadline ended as the encoder does. */
  lemma SessionEncodes(p: Peers, wakeable: bool, wakeableReader: bool, acts: seq<Action>, s: State, resolver: Resolver)
    requires |p.window| == 19 && Run(Init(p, wakeable, wakeableReader), acts, resolver) == Some(s)
    ensures var whole := Encode(p.arrivals, p.fin, s.outb.writes, p.window);
      && IsPrefix(s.outb.frames, whole.frames)
      && (s.outb.end.Some? && !s.outb.timedOut ==> whole == Encoded(s.outb.frames, s.outb.end.value))
  {
    var init := Init(p, wakeable, wakeableReader);
    InitOutHalfway(p, init.outb);
    RunKeepsInv(init, acts, s, resolver);
    RunOutwards(p, init, acts, s, resolver);
    assert s.outb.writes + [] == s.outb.writes;
  }

  lemma InitOutHalfway(p: Peers, outb: Outbound)
    requires |p.window| == 19 && outb == Outbound(p.arrivals, p.fin, [], p.window, [], None, false)
    ensures OutHalfway(p, outb)
  {
    forall ws
      ensures Encode(p.arrivals, p.fin, outb.writes + ws, p.window)
           == Prepend(outb.frames, Encode(outb.rest, p.fin, ws, outb.window))
    {
      assert outb.writes + ws == ws;
    }
  }
}
