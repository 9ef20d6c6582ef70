/** HandleTCP (pkgs/trojan/trojan_tcp.go) as a transition system: the reader goroutine ("up", client to
    remote), the main flow ("down", remote to client), the deadlines through which they wake each
    other, the unbuffered result channel, and the buffers freed by hand. */
module Tunnel {
  import opened Prelude
  import opened Streams
  import opened Relay

  // ---------------------------------------------------------------- states

  datatype UpResult = UpResult(n: nat, err: Option<Error>)

  datatype Up =
    | UpIdle                                              // not started yet
    | UpRead                                              // copyBuffer: reading from the client
    | UpWrite(data: seq<byte>, er: Option<Error>)         // copyBuffer: writing to rc
    | UpClose(err: Option<Error>)                         // copy over; rc.CloseWrite next
    | UpWake(err: Option<Error>)                          // rc.SetReadDeadline(now) next
    | UpSend(result: UpResult)                            // errCh <- result
    | UpDone

  datatype Why = AtEof | Late | Hard(e: Error)

  datatype Down =
    | DownAllocA
    | DownAllocB
    | DownRead(drain: bool, n: nat)                       // copyBuffer: reading from rc; n bytes so far in this call
    | DownWrite(drain: bool, n: nat, data: seq<byte>, er: Option<Error>)
    | DownEofClose                                        // w.CloseWrite, the remote has ended
    | DownGrace                                           // trySetReadDeadline(w, now + wakeGrace)
    | DownSelect                                          // errCh or a minute
    | DownDrainArm                                        // rc.SetReadDeadline(now + minute)
    | DownFailClose(out: Outcome)                         // w.CloseWrite, then return
    | DownLateClose                                       // w.CloseWrite after the minute
    | DownLateWake                                        // wakeReader(w)
    | DownHardArm(e: Error)                               // rc.SetWriteDeadline(now + wakeGrace)
    | DownHardClose(e: Error)                             // rc.CloseWrite
    | DownHardWake(e: Error)                              // wakeReader(w)
    | DownRecv(why: Why)                                  // <-errCh
    | DownFreeB(out: Outcome)
    | DownFreeA(out: Outcome)
    | DownCloseRc(out: Outcome)
    | DownDone(out: Outcome)

  /** What the reads will give, what has crossed each way, and the byte counts kept by the code. */
  datatype Data = Data(
    clientIn: seq<Chunk>, remoteIn: seq<Chunk>,
    fromClient: seq<byte>, toRemote: seq<byte>,
    fromRemote: seq<byte>, toClient: seq<byte>,
    nr: nat, nw: nat)

  /** What is given back by hand; fault records a use or a release of something not live. */
  datatype Held = Held(bufA: Resource, bufB: Resource, rc: Resource, fault: bool)

  /** The read deadline of the client connection, both deadlines of rc, and whether the tunnel has called
      CloseWrite on rc and on w. */
  datatype Timers = Timers(client: Timer, rc: Timer, rcWrite: Timer, rcClosed: bool, wClosed: bool)

  datatype State = State(
    up: Up, down: Down, timers: Timers, data: Data, held: Held,
    upErr: Option<Error>,               // how the copy to rc ended
    downErr: Option<Error>,             // how the first copy from rc ended
    got: Option<UpResult>,              // the value received from errCh
    handoffs: nat,                      // completed sends, each with its receive
    wakeable: bool)                     // w has SetReadDeadline and shares the reader's connection

  datatype Action =
    | AllocA(ok: bool)
    | AllocB(ok: bool)
    | UpReadData                        // the client delivers its next chunk
    | UpReadTimeout(net: bool)          // the read fails on an expired deadline
    | UpWriteDone(w: WriteResult)
    | UpLocal                           // the next statement of the goroutine
    | DownReadData
    | DownReadTimeout
    | DownWriteDone(w: WriteResult)
    | DownLocal                         // the next statement of the main flow
    | SelectMinute
    | Handoff                           // rendezvous on errCh
    | TickClient                        // a deadline passes
    | TickRc
    | TickRcWrite

  /** The state after rc was dialled. The client's read deadline has been cleared by the callers. */
  function Init(clientIn: seq<Chunk>, remoteIn: seq<Chunk>, wakeable: bool): State {
    State(UpIdle, DownAllocA, Timers(Unset, Unset, Unset, false, false), Data(clientIn, remoteIn, [], [], [], [], 0, 0),
          Held(Absent, Absent, Live, false), None, None, None, 0, wakeable)
  }

  // ---------------------------------------------------------------- steps

  /** Using bufA, bufB or rc is a fault unless it is live. */
  function Use(s: State, bufA: bool, bufB: bool, rc: bool): State {
    s.(held := s.held.(fault := s.held.fault || (bufA && !s.held.bufA.Live?) ||
                      (bufB && !s.held.bufB.Live?) || (rc && !s.held.rc.Live?)))
  }

  /** Both branches of the goroutine after its copy: timeouts count as clean. */
  function UpErr(err: Option<Error>): Option<Error> {
    if err.Some? && IsTimeout(err.value) then None else err
  }

  function UpCopyEnds(s: State, err: Option<Error>): State {
    s.(upErr := err, up := UpClose(err))
  }

  function UpGotRead(s: State, data: seq<byte>, er: Option<Error>): State {
    var t := Use(s, true, false, false).(data := s.data.(fromClient := s.data.fromClient + data));
    if data != [] then t.(up := UpWrite(data, er))
    else if er.Some? then UpCopyEnds(t, ReadFault(er.value))
    else t
  }

  function UpWrote(s: State, w: WriteResult): State
    requires s.up.UpWrite?
  {
    var k := Counted(w, |s.up.data|);
    var f := WriteFault(w, |s.up.data|);
    var t := Use(s, true, false, true).(data := s.data.(toRemote := s.data.toRemote + s.up.data[..k], nr := s.data.nr + k));
    if f.Some? then UpCopyEnds(t, f)
    else if s.up.er.Some? then UpCopyEnds(t, ReadFault(s.up.er.value))
    else t.(up := UpRead)
  }

  /** What follows a copy from rc: the three ways out of the first one, or the drain loop's test. */
  function DownCopyEnds(s: State, drain: bool, n: nat, err: Option<Error>): State {
    if !drain then
      s.(downErr := err,
         down := match err
                 case None => DownEofClose
                 case Some(e) => if e == Deadline then DownSelect else DownHardArm(e))
    else if n == 0 || err != Some(Deadline) then
      s.(down := DownFreeB(Outcome(if s.got.Some? then s.got.value.n else 0, s.data.nw,
                                   if s.got.Some? then s.got.value.err else None)))
    else
      s.(down := DownDrainArm)
  }

  function DownGotRead(s: State, data: seq<byte>, er: Option<Error>): State
    requires s.down.DownRead?
  {
    var t := Use(s, false, true, true).(data := s.data.(fromRemote := s.data.fromRemote + data));
    if data != [] then t.(down := DownWrite(s.down.drain, s.down.n, data, er))
    else if er.Some? then DownCopyEnds(t, s.down.drain, s.down.n, ReadFault(er.value))
    else t
  }

  function DownWrote(s: State, w: WriteResult): State
    requires s.down.DownWrite?
  {
    var k := Counted(w, |s.down.data|);
    var f := WriteFault(w, |s.down.data|);
    var n := s.down.n + k;
    var t := Use(s, false, true, false).(data := s.data.(toClient := s.data.toClient + s.down.data[..k], nw := s.data.nw + k));
    if f.Some? then DownCopyEnds(t, s.down.drain, n, f)
    else if s.down.er.Some? then DownCopyEnds(t, s.down.drain, n, ReadFault(s.down.er.value))
    else t.(down := DownRead(s.down.drain, n))
  }

  function DownReceived(s: State, r: UpResult): Down {
    match s.down
    case DownSelect =>
      if r.err == None then DownDrainArm else DownFailClose(Outcome(r.n, s.data.nw, r.err))
    case DownRecv(Hard(e)) =>
      DownFreeB(Outcome(r.n, s.data.nw, if r.err == None && IsTimeout(e) then None else Some(e)))
    case _ => DownFreeB(Outcome(r.n, s.data.nw, r.err))
  }

  /** wakeReader and trySetReadDeadline do nothing to a writer that cannot be woken. */
  function SetClientTimer(s: State, t: Timer): Timer {
    if s.wakeable then t else s.timers.client
  }

  function UpStatement(s: State): Option<State> {
    match s.up
    case UpClose(err) => Some(Use(s, false, false, true).(timers := s.timers.(rcClosed := true), up := UpWake(err)))
    case UpWake(err) => Some(Use(s, false, false, true).(timers := s.timers.(rc := Expired), up := UpSend(UpResult(s.data.nr, UpErr(err)))))
    case _ => None
  }

  /** The statements of main that close, wake and set deadlines. */
  function Signal(s: State): Option<State> {
    match s.down
    case DownEofClose => Some(s.(timers := s.timers.(wClosed := true), down := DownGrace))
    case DownGrace => Some(s.(timers := s.timers.(client := SetClientTimer(s, Armed)), down := DownRecv(AtEof)))
    case DownDrainArm => Some(Use(s, false, false, true).(timers := s.timers.(rc := Armed), down := DownRead(true, 0)))
    case DownLateClose => Some(s.(timers := s.timers.(wClosed := true), down := DownLateWake))
    case DownLateWake => Some(s.(timers := s.timers.(client := SetClientTimer(s, Expired)), down := DownRecv(Late)))
    case DownHardArm(e) => Some(Use(s, false, false, true).(timers := s.timers.(rcWrite := Armed), down := DownHardClose(e)))
    case DownHardClose(e) => Some(Use(s, false, false, true).(timers := s.timers.(rcClosed := true), down := DownHardWake(e)))
    case DownHardWake(e) => Some(s.(timers := s.timers.(client := SetClientTimer(s, Expired)), down := DownRecv(Hard(e))))
    case _ => None
  }

  /** The way out: the deferred releases, last acquired first. */
  function Release(s: State): Option<State> {
    match s.down
    case DownFailClose(out) => Some(s.(timers := s.timers.(wClosed := true), down := DownFreeB(out)))
    case DownFreeB(out) =>
      var t := Use(s, false, true, false);
      Some(t.(held := t.held.(bufB := Gone), down := DownFreeA(out)))
    case DownFreeA(out) =>
      var t := Use(s, true, false, false);
      Some(t.(held := t.held.(bufA := Gone), down := DownCloseRc(out)))
    case DownCloseRc(out) =>
      var t := Use(s, false, false, true);
      Some(t.(held := t.held.(rc := Gone), down := DownDone(out)))
    case _ => None
  }

  predicate Leaving(d: Down) {
    d.DownFailClose? || d.DownFreeB? || d.DownFreeA? || d.DownCloseRc?
  }

  function DownStatement(s: State): Option<State> {
    if Leaving(s.down) then Release(s) else Signal(s)
  }

  /** One step of the whole system; None when the action is not possible in s. */
  function Step(s: State, a: Action): Option<State> {
    match a
    case AllocA(ok) =>
      if !s.down.DownAllocA? then None
      else if ok then Some(s.(held := s.held.(bufA := Live), down := DownAllocB))
      else Some(s.(down := DownCloseRc(ALLOC_FAILED)))
    case AllocB(ok) =>
      if !s.down.DownAllocB? then None
      else if ok then Some(s.(held := s.held.(bufB := Live), up := UpRead, down := DownRead(false, 0)))
      else Some(s.(down := DownFreeA(ALLOC_FAILED)))
    case UpReadData =>
      if s.up.UpRead? && s.data.clientIn != []
      then Some(UpGotRead(s.(data := s.data.(clientIn := s.data.clientIn[1..])), s.data.clientIn[0].data, s.data.clientIn[0].err)) else None
    case UpReadTimeout(net) =>
      if s.up.UpRead? && s.timers.client.Expired?
      then Some(UpGotRead(s, [], Some(if net then NetTimeout else Deadline))) else None
    case UpWriteDone(w) =>
      if s.up.UpWrite? then Some(UpWrote(s, w)) else None
    case UpLocal => UpStatement(s)
    case DownReadData =>
      if s.down.DownRead? && s.data.remoteIn != []
      then Some(DownGotRead(s.(data := s.data.(remoteIn := s.data.remoteIn[1..])), s.data.remoteIn[0].data, s.data.remoteIn[0].err)) else None
    case DownReadTimeout =>
      if s.down.DownRead? && s.timers.rc.Expired? then Some(DownGotRead(s, [], Some(Deadline))) else None
    case DownWriteDone(w) =>
      if s.down.DownWrite? && w.err != Some(Deadline) then Some(DownWrote(s, w)) else None
    case DownLocal => DownStatement(s)
    case SelectMinute =>
      if s.down.DownSelect? then Some(s.(down := DownLateClose)) else None
    case Handoff =>
      if s.up.UpSend? && (s.down.DownSelect? || s.down.DownRecv?)
      then Some(s.(up := UpDone, got := Some(s.up.result), handoffs := s.handoffs + 1,
                   down := DownReceived(s, s.up.result))) else None
    case TickClient => if s.timers.client.Armed? then Some(s.(timers := s.timers.(client := Expired))) else None
    case TickRc => if s.timers.rc.Armed? then Some(s.(timers := s.timers.(rc := Expired))) else None
    case TickRcWrite => if s.timers.rcWrite.Armed? then Some(s.(timers := s.timers.(rcWrite := Expired))) else None
  }

  /** The actions that happen without the peers' help: the program's own statements, timers, failing
      expired reads, and (as assumed) writes that return. A delivery of bytes is the peer's choice. */
  predicate Forced(a: Action) {
    !a.UpReadData? && !a.DownReadData?
  }

  ghost predicate Stuck(s: State) {
    forall a :: Forced(a) ==> Step(s, a) == None
  }

  /** A run: the state reached by a list of actions, None if one of them was not possible. */
  function Run(s: State, acts: seq<Action>): Option<State>
    decreases |acts|
  {
    if acts == [] then Some(s)
    else
      match Step(s, acts[0])
      case None => None
      case Some(t) => Run(t, acts[1..])
  }

  // ---------------------------------------------------------------- what every step keeps

  predicate UpCopying(u: Up) { u.UpRead? || u.UpWrite? }

  predicate Returning(d: Down) {
    d.DownFreeB? || d.DownFreeA? || d.DownCloseRc? || d.DownDone?
  }

  predicate DownCopying(d: Down) { d.DownAllocA? || d.DownAllocB? || d.DownRead? || d.DownWrite? }

  /** The drain loop, whose copies come after the goroutine's result. */
  predicate Draining(d: Down) {
    d.DownDrainArm? || ((d.DownRead? || d.DownWrite?) && d.drain)
  }

  /** Main is in the deadline branch and has not received yet. */
  predicate AtDeadline(d: Down) {
    d.DownSelect? || d.DownLateClose? || d.DownLateWake? || d == DownRecv(Late)
  }

  /** What the caller of HandleTCP is told: both byte counts, and an error unless the tunnel shut down
      in an orderly way. A hard error downstream wins, except for a timeout after a clean upstream. */
  function Report(s: State): Outcome {
    var up := UpErr(s.upErr);
    Outcome(|s.data.toRemote|, |s.data.toClient|,
            if s.downErr == None || s.downErr == Some(Deadline) then up
            else if up == None && IsTimeout(s.downErr.value) then None
            else s.downErr)
  }

  /** Main has received the result, or never started the goroutine. */
  predicate Received(d: Down) {
    Returning(d) || Draining(d) || d.DownFailClose?
  }

  /** Control: where the two sides can be relative to each other, and the state of the deadlines. */
  predicate Control(s: State) {
    && (s.handoffs == if s.got.Some? then 1 else 0)
    && (s.up.UpIdle? <==> s.down.DownAllocA? || s.down.DownAllocB? || (Returning(s.down) && s.got == None))
    && (s.up.UpDone? <==> s.got.Some?)
    && (s.got.Some? ==> Received(s.down))
    && (Received(s.down) && !Returning(s.down) ==> s.got.Some?)
    && (Draining(s.down) ==> s.got.Some? && s.got.value.err == None)
    // rc's read deadline: untouched until the goroutine's wake, expired until main has received.
    && (s.up.UpIdle? || UpCopying(s.up) || s.up.UpClose? || s.up.UpWake? ==> s.timers.rc == Unset)
    && (s.up.UpSend? ==> s.timers.rc == Expired)
    && (AtDeadline(s.down) ==> s.up.UpSend?)
    && ((s.down.DownRead? || s.down.DownWrite?) && s.down.drain ==> s.timers.rc != Unset)
    // the client is woken, or about to be, before main waits for the goroutine
    && (s.down.DownRecv? && s.wakeable ==> if s.down.why.AtEof? then s.timers.client != Unset else s.timers.client == Expired)
    && (s.down.DownHardClose? || s.down.DownHardWake? || (s.down.DownRecv? && s.down.why.Hard?) ==> s.timers.rcWrite != Unset)
    && (!s.wakeable ==> s.timers.client == Unset)
  }

  /** Resources: what is live at each point, and that nothing was ever misused. */
  predicate Resources(s: State) {
    && !s.held.fault
    && s.held.rc == (if s.down.DownDone? then Gone else Live)
    && (if s.down.DownAllocA? then s.held.bufA == Absent
        else if s.down.DownCloseRc? || s.down.DownDone? then s.held.bufA != Live
        else s.held.bufA == Live)
    && (if s.up.UpIdle? then s.held.bufB == Absent
        else if s.down.DownFreeA? || s.down.DownCloseRc? || s.down.DownDone? then s.held.bufB == Gone
        else s.held.bufB == Live)
    && (s.down.DownFreeB? ==> s.got.Some?)
  }

  /** Data: each direction is a prefix of what was read, and everything read while its copy is clean. */
  predicate Flow(s: State) {
    && s.data.nr == |s.data.toRemote| && s.data.nw == |s.data.toClient|
    && IsPrefix(s.data.toRemote, s.data.fromClient)
    && IsPrefix(s.data.toClient, s.data.fromRemote)
    && (s.up.UpIdle? || s.up.UpRead? || (!UpCopying(s.up) && s.upErr == None) ==> s.data.toRemote == s.data.fromClient)
    && (s.up.UpWrite? ==> s.data.fromClient == s.data.toRemote + s.up.data)
    && (Level(s) ==> s.data.toClient == s.data.fromRemote)
    && (s.down.DownWrite? ==> s.data.fromRemote == s.data.toClient + s.down.data && s.down.er != Some(Deadline))
  }

  /** The client has been given every byte read from rc so far. */
  predicate Level(s: State) {
    if Returning(s.down) then s.downErr == None
    else if DownCopying(s.down) then !s.down.DownWrite?
    else s.downErr == None || s.downErr == Some(Deadline)
  }

  /** No read from rc reports the deadline sentinel of its own accord. */
  predicate NoStrayDeadline(script: seq<Chunk>) {
    forall i :: 0 <= i < |script| ==> script[i].err != Some(Deadline)
  }

  /** Results: how each copy ended is what is being reported. */
  predicate Results(s: State) {
    && NoStrayDeadline(s.data.remoteIn)
    && (s.up.UpClose? ==> s.up.err == s.upErr)
    && (s.up.UpWake? ==> s.up.err == s.upErr)
    && (s.up.UpSend? ==> s.up.result == UpResult(s.data.nr, UpErr(s.upErr)))
    && (s.got.Some? ==> s.got.value == UpResult(s.data.nr, UpErr(s.upErr)))
    && (DownCopying(s.down) && !Draining(s.down) ==> s.downErr == None)
    && (s.down.DownFailClose? ==> s.got.Some? && s.got.value.err.Some?)
    && (s.down.DownEofClose? || s.down.DownGrace? || s.down == DownRecv(AtEof) ==> s.downErr == None)
    && (Draining(s.down) || AtDeadline(s.down) || s.down.DownFailClose? ==> s.downErr == Some(Deadline))
    && (s.down.DownHardArm? ==> s.downErr == Some(s.down.e) && s.down.e != Deadline)
    && (s.down.DownHardClose? ==> s.downErr == Some(s.down.e) && s.down.e != Deadline)
    && (s.down.DownHardWake? ==> s.downErr == Some(s.down.e) && s.down.e != Deadline)
    && (s.down.DownRecv? && s.down.why.Hard? ==> s.downErr == Some(s.down.why.e) && s.down.why.e != Deadline)
    && (Returning(s.down) || s.down.DownFailClose? ==>
          s.down.out == if s.got.Some? then Report(s) else ALLOC_FAILED)
  }

  predicate Inv(s: State) {
    Control(s) && Resources(s) && Flow(s) && Results(s)
  }

  lemma UpReadKeeps(s: State, data: seq<byte>, er: Option<Error>)
    requires Inv(s) && s.up.UpRead?
    ensures Inv(UpGotRead(s, data, er))
  {
  }

  lemma UpWriteKeeps(s: State, w: WriteResult)
    requires Inv(s) && s.up.UpWrite?
    ensures Inv(UpWrote(s, w))
  {
  }

  lemma UpStatementKeeps(s: State)
    requires Inv(s) && UpStatement(s).Some?
    ensures Inv(UpStatement(s).value)
  {
  }

  lemma DownReadKeeps(s: State, data: seq<byte>, er: Option<Error>)
    requires Inv(s) && s.down.DownRead?
    requires er == Some(Deadline) ==> s.timers.rc == Expired && data == []
    ensures Inv(DownGotRead(s, data, er))
  {
  }

  lemma FirstWriteFailsKeeps(s: State, w: WriteResult)
    requires Inv(s) && s.down.DownWrite? && !s.down.drain && w.err != Some(Deadline)
    requires WriteFault(w, |s.down.data|).Some?
    ensures Inv(DownWrote(s, w))
  {
    var k := Counted(w, |s.down.data|);
    assert s.data.toClient + s.down.data[..k] == s.data.fromRemote[..|s.data.toClient| + k];
  }

  lemma FirstWriteKeeps(s: State, w: WriteResult)
    requires Inv(s) && s.down.DownWrite? && !s.down.drain && w.err != Some(Deadline)
    requires WriteFault(w, |s.down.data|).None?
    ensures Inv(DownWrote(s, w))
  {
    assert s.data.toClient + s.down.data[..|s.down.data|] == s.data.fromRemote;
  }

  lemma DrainWriteFailsKeeps(s: State, w: WriteResult)
    requires Inv(s) && s.down.DownWrite? && s.down.drain && w.err != Some(Deadline)
    requires WriteFault(w, |s.down.data|).Some?
    ensures Inv(DownWrote(s, w))
  {
    var k := Counted(w, |s.down.data|);
    assert s.data.toClient + s.down.data[..k] == s.data.fromRemote[..|s.data.toClient| + k];
  }

  lemma DrainWriteKeeps(s: State, w: WriteResult)
    requires Inv(s) && s.down.DownWrite? && s.down.drain && w.err != Some(Deadline)
    requires WriteFault(w, |s.down.data|).None?
    ensures Inv(DownWrote(s, w))
  {
    assert s.data.toClient + s.down.data[..|s.down.data|] == s.data.fromRemote;
  }

  lemma DownWriteKeeps(s: State, w: WriteResult)
    requires Inv(s) && s.down.DownWrite? && w.err != Some(Deadline)
    ensures Inv(DownWrote(s, w))
  {
    var failed := WriteFault(w, |s.down.data|).Some?;
    if s.down.drain {
      if failed {
        DrainWriteFailsKeeps(s, w);
      } else {
        DrainWriteKeeps(s, w);
      }
    } else if failed {
      FirstWriteFailsKeeps(s, w);
    } else {
      FirstWriteKeeps(s, w);
    }
  }

  lemma ReleaseKeeps(s: State)
    requires Inv(s) && Release(s).Some?
    ensures Inv(Release(s).value)
  {
  }

  lemma WakeKeeps(s: State)
    requires Inv(s) && Signal(s).Some?
    requires s.down.DownEofClose? || s.down.DownGrace? || s.down.DownLateClose? || s.down.DownLateWake?
    ensures Inv(Signal(s).value)
  {
  }

  lemma HardKeeps(s: State)
    requires Inv(s) && Signal(s).Some?
    requires s.down.DownHardArm? || s.down.DownHardClose? || s.down.DownHardWake? || s.down.DownDrainArm?
    ensures Inv(Signal(s).value)
  {
  }

  lemma HandoffKeeps(s: State, t: State)
    requires Inv(s) && Step(s, Handoff) == Some(t)
    ensures Inv(t)
  {
  }

  lemma AllocKeeps(s: State, a: Action, t: State)
    requires Inv(s) && Step(s, a) == Some(t) && (a.AllocA? || a.AllocB?)
    ensures Inv(t)
  {
  }

  lemma ClockKeeps(s: State, a: Action, t: State)
    requires Inv(s) && Step(s, a) == Some(t)
    requires a.SelectMinute? || a.TickClient? || a.TickRc? || a.TickRcWrite?
    ensures Inv(t)
  {
  }

  /** What is still to be read matters to the invariant only through its errors. */
  lemma PopKeeps(s: State)
    requires Inv(s)
    ensures s.data.clientIn != [] ==> Inv(s.(data := s.data.(clientIn := s.data.clientIn[1..])))
    ensures s.data.remoteIn != [] ==> Inv(s.(data := s.data.(remoteIn := s.data.remoteIn[1..])))
  {
    assert forall i :: 0 <= i < |s.data.remoteIn| - 1 ==> s.data.remoteIn[1..][i] == s.data.remoteIn[i + 1];
  }

  lemma UpStepKeeps(s: State, a: Action, t: State)
    requires Inv(s) && Step(s, a) == Some(t)
    requires a.UpReadData? || a.UpReadTimeout? || a.UpWriteDone? || a.UpLocal?
    ensures Inv(t)
  {
    match a
    case UpReadData =>
      PopKeeps(s);
      UpReadKeeps(s.(data := s.data.(clientIn := s.data.clientIn[1..])), s.data.clientIn[0].data, s.data.clientIn[0].err);
    case UpReadTimeout(net) => UpReadKeeps(s, [], Some(if net then NetTimeout else Deadline));
    case UpWriteDone(w) => UpWriteKeeps(s, w);
    case UpLocal => UpStatementKeeps(s);
  }

  lemma DownStepKeeps(s: State, a: Action, t: State)
    requires Inv(s) && Step(s, a) == Some(t)
    requires a.DownReadData? || a.DownReadTimeout? || a.DownWriteDone? || a.DownLocal?
    ensures Inv(t)
  {
    match a
    case DownReadData =>
      PopKeeps(s);
      DownReadKeeps(s.(data := s.data.(remoteIn := s.data.remoteIn[1..])), s.data.remoteIn[0].data, s.data.remoteIn[0].err);
    case DownReadTimeout => DownReadKeeps(s, [], Some(Deadline));
    case DownWriteDone(w) => DownWriteKeeps(s, w);
    case DownLocal =>
      if Leaving(s.down) {
        ReleaseKeeps(s);
      } else if s.down.DownEofClose? || s.down.DownGrace? || s.down.DownLateClose? || s.down.DownLateWake? {
        WakeKeeps(s);
      } else {
        HardKeeps(s);
      }
  }

  lemma StepKeepsInv(s: State, a: Action, t: State)
    requires Inv(s) && Step(s, a) == Some(t)
    ensures Inv(t)
  {
    if a.UpReadData? || a.UpReadTimeout? || a.UpWriteDone? || a.UpLocal? {
      UpStepKeeps(s, a, t);
    } else if a.DownReadData? || a.DownReadTimeout? || a.DownWriteDone? || a.DownLocal? {
      DownStepKeeps(s, a, t);
    } else if a.Handoff? {
      HandoffKeeps(s, t);
    } else if a.AllocA? || a.AllocB? {
      AllocKeeps(s, a, t);
    } else {
      ClockKeeps(s, a, t);
    }
  }

  lemma InitInv(clientIn: seq<Chunk>, remoteIn: seq<Chunk>, wakeable: bool)
    requires NoStrayDeadline(remoteIn)
    ensures Inv(Init(clientIn, remoteIn, wakeable))
  {
  }

  lemma {:induction false} RunKeepsInv(s: State, acts: seq<Action>, t: State)
    requires Inv(s) && Run(s, acts) == Some(t)
    ensures Inv(t)
    decreases |acts|
  {
    if acts != [] {
      var m := Step(s, acts[0]).value;
      StepKeepsInv(s, acts[0], m);
      RunKeepsInv(m, acts[1..], t);
    }
  }

  /** Nothing read from either peer appears or disappears on the way into the tunnel. */
  ghost predicate SameInputs(s: State, t: State) {
    && t.data.fromClient + Bytes(t.data.clientIn) == s.data.fromClient + Bytes(s.data.clientIn)
    && t.data.fromRemote + Bytes(t.data.remoteIn) == s.data.fromRemote + Bytes(s.data.remoteIn)
    && t.wakeable == s.wakeable
  }

  lemma ReadsKeepInputs(s: State, a: Action, t: State)
    requires Step(s, a) == Some(t) && (a.UpReadData? || a.DownReadData?)
    ensures SameInputs(s, t)
  {
    if a.UpReadData? {
      assert (s.data.fromClient + s.data.clientIn[0].data) + Bytes(s.data.clientIn[1..])
          == s.data.fromClient + (s.data.clientIn[0].data + Bytes(s.data.clientIn[1..]));
    } else {
      assert (s.data.fromRemote + s.data.remoteIn[0].data) + Bytes(s.data.remoteIn[1..])
          == s.data.fromRemote + (s.data.remoteIn[0].data + Bytes(s.data.remoteIn[1..]));
    }
  }

  lemma StepKeepsInputs(s: State, a: Action, t: State)
    requires Step(s, a) == Some(t)
    ensures SameInputs(s, t)
  {
    if a.UpReadData? || a.DownReadData? {
      ReadsKeepInputs(s, a, t);
    } else {
      assert t.data.clientIn == s.data.clientIn && t.data.remoteIn == s.data.remoteIn;
      assert s.data.fromClient + [] == s.data.fromClient && s.data.fromRemote + [] == s.data.fromRemote;
    }
  }

  lemma {:induction false} RunKeepsInputs(s: State, acts: seq<Action>, t: State)
    requires Run(s, acts) == Some(t)
    ensures SameInputs(s, t)
    decreases |acts|
  {
    if acts != [] {
      var m := Step(s, acts[0]).value;
      StepKeepsInputs(s, acts[0], m);
      RunKeepsInputs(m, acts[1..], t);
    }
  }

  /** What was read and what is to come before the first error make up the whole. */
  predicate Progress(got: seq<byte>, rest: seq<Chunk>, whole: seq<byte>) {
    got + Avail(rest) == whole
  }

  predicate UpReads(whole: seq<byte>, s: State) {
    && IsPrefix(s.data.fromClient, whole)
    && (s.up.UpIdle? || s.up.UpRead? || (s.up.UpWrite? && s.up.er.None?) ==> Progress(s.data.fromClient, s.data.clientIn, whole))
    && (s.up.UpWrite? && s.up.er.Some? ==> s.data.fromClient == whole)
    && (!s.up.UpIdle? && !UpCopying(s.up) && s.upErr.None? ==> s.data.fromClient == whole)
  }

  /** The first copy from the remote is under way. */
  predicate DownFirst(d: Down) {
    d.DownAllocA? || d.DownAllocB? || (d.DownRead? && !d.drain) || (d.DownWrite? && !d.drain)
  }

  predicate DownReads(whole: seq<byte>, s: State) {
    && (DownFirst(s.down) ==> IsPrefix(s.data.fromRemote, whole))
    && (DownFirst(s.down) && (s.down.DownWrite? ==> s.down.er.None?) ==> Progress(s.data.fromRemote, s.data.remoteIn, whole))
    && (DownFirst(s.down) && s.down.DownWrite? && s.down.er.Some? ==> s.data.fromRemote == whole)
    && (!DownFirst(s.down) && !s.up.UpIdle? && s.downErr.None? ==> s.data.fromRemote == whole)
  }

  lemma ReadOn(got: seq<byte>, rest: seq<Chunk>, whole: seq<byte>)
    requires Progress(got, rest, whole) && rest != []
    ensures if rest[0].err.None? then Progress(got + rest[0].data, rest[1..], whole) else got + rest[0].data == whole
    ensures IsPrefix(got + rest[0].data, whole)
  {
    if rest[0].err.None? {
      assert got + (rest[0].data + Avail(rest[1..])) == (got + rest[0].data) + Avail(rest[1..]);
    }
  }

  lemma UpReadReads(whole: seq<byte>, s: State, t: State)
    requires UpReads(whole, s) && Step(s, UpReadData) == Some(t)
    ensures UpReads(whole, t)
  {
    ReadOn(s.data.fromClient, s.data.clientIn, whole);
    assert s.data.fromClient + [] == s.data.fromClient;
  }

  lemma UpWriteReads(whole: seq<byte>, s: State, a: Action, t: State)
    requires UpReads(whole, s) && Step(s, a) == Some(t) && (a.UpReadTimeout? || a.UpWriteDone?)
    ensures UpReads(whole, t)
  {
    assert s.data.fromClient + [] == s.data.fromClient;
  }

  /** Steps of main, and of the clocks. */
  predicate MainSide(a: Action) {
    || a.AllocA? || a.DownReadData? || a.DownReadTimeout? || a.DownWriteDone? || a.DownLocal?
    || a.SelectMinute? || a.TickClient? || a.TickRc? || a.TickRcWrite?
  }

  lemma MainLeavesUp(s: State, a: Action, t: State)
    requires Step(s, a) == Some(t) && MainSide(a)
    ensures t.up == s.up && t.upErr == s.upErr && t.data.fromClient == s.data.fromClient && t.data.clientIn == s.data.clientIn
  {
  }

  lemma UpStepReads(whole: seq<byte>, s: State, a: Action, t: State)
    requires UpReads(whole, s) && Step(s, a) == Some(t) && (a.AllocB? ==> s.up.UpIdle?)
    ensures UpReads(whole, t)
  {
    if a.UpReadData? {
      UpReadReads(whole, s, t);
    } else if a.UpReadTimeout? || a.UpWriteDone? {
      UpWriteReads(whole, s, a, t);
    } else if MainSide(a) {
      MainLeavesUp(s, a, t);
    }
  }

  lemma DownReadReads(whole: seq<byte>, s: State, t: State)
    requires Results(s) && DownReads(whole, s) && Step(s, DownReadData) == Some(t)
    ensures DownReads(whole, t)
  {
    if DownFirst(s.down) {
      ReadOn(s.data.fromRemote, s.data.remoteIn, whole);
    }
    assert s.data.fromRemote + [] == s.data.fromRemote;
  }

  lemma DownWriteReads(whole: seq<byte>, s: State, a: Action, t: State)
    requires Results(s) && DownReads(whole, s) && Step(s, a) == Some(t) && (a.DownReadTimeout? || a.DownWriteDone?)
    ensures DownReads(whole, t)
  {
    assert s.data.fromRemote + [] == s.data.fromRemote;
  }

  /** Steps of the goroutine, and of the clocks. */
  predicate GoroutineSide(a: Action) {
    a.UpReadData? || a.UpReadTimeout? || a.UpWriteDone? || a.UpLocal? || a.TickClient? || a.TickRc? || a.TickRcWrite?
  }

  lemma GoroutineLeavesDown(s: State, a: Action, t: State)
    requires Step(s, a) == Some(t) && GoroutineSide(a)
    ensures t.down == s.down && t.downErr == s.downErr && t.data.fromRemote == s.data.fromRemote && t.data.remoteIn == s.data.remoteIn
    ensures t.up.UpIdle? <==> s.up.UpIdle?
  {
  }

  lemma DownLocalReads(whole: seq<byte>, s: State, a: Action, t: State)
    requires Inv(s) && DownReads(whole, s) && Step(s, a) == Some(t)
    requires a.AllocA? || a.AllocB? || a.DownLocal? || a.SelectMinute? || a.Handoff?
    ensures DownReads(whole, t)
  {
  }

  lemma DownStepReads(whole: seq<byte>, s: State, a: Action, t: State)
    requires Inv(s) && DownReads(whole, s) && Step(s, a) == Some(t)
    ensures DownReads(whole, t)
  {
    if a.DownReadData? {
      DownReadReads(whole, s, t);
    } else if a.DownReadTimeout? || a.DownWriteDone? {
      DownWriteReads(whole, s, a, t);
    } else if GoroutineSide(a) {
      GoroutineLeavesDown(s, a, t);
    } else {
      DownLocalReads(whole, s, a, t);
    }
  }

  lemma {:induction false} RunReads(client: seq<byte>, remote: seq<byte>, s: State, acts: seq<Action>, t: State)
    requires Inv(s) && UpReads(client, s) && DownReads(remote, s) && Run(s, acts) == Some(t)
    ensures UpReads(client, t) && DownReads(remote, t)
    decreases |acts|
  {
    if acts != [] {
      var m := Step(s, acts[0]).value;
      StepKeepsInv(s, acts[0], m);
      UpStepReads(client, s, acts[0], m);
      DownStepReads(remote, s, acts[0], m);
      RunReads(client, remote, m, acts[1..], t);
    }
  }

  // ---------------------------------------------------------------- safety of every run

  /** What HandleTCP returns: the bytes delivered each way; the error that ended the downstream copy, if it
      was neither end of file nor the wake; but none if that is a timeout and the upstream ended cleanly;
      and otherwise the upstream's error. A timeout upstream is a clean end. */
  predicate Reports(out: Outcome, s: State) {
    var upClean := s.upErr.None? || s.upErr.value.Deadline? || s.upErr.value.NetTimeout?;
    && out.nr == |s.data.toRemote| && out.nw == |s.data.toClient|
    && out.err ==
       if s.downErr.None? || s.downErr.value.Deadline? then (if upClean then None else s.upErr)
       else if upClean && s.downErr.value.NetTimeout? then None
       else s.downErr
  }

  /** In every interleaving nothing freed is touched; and when HandleTCP has returned, the goroutine has
      finished after exactly one send met exactly one receive (or was never started), both buffers and
      rc have been given back, and the outcome reports what the tunnel did. While main waits for the
      goroutine, a client connection that can be woken has been, or will be after the grace period when the
      remote has ended, and after a hard error the writes to rc have a deadline. */
  lemma TunnelSafe(clientIn: seq<Chunk>, remoteIn: seq<Chunk>, wakeable: bool, acts: seq<Action>, s: State)
    requires NoStrayDeadline(remoteIn)
    requires Run(Init(clientIn, remoteIn, wakeable), acts) == Some(s)
    ensures !s.held.fault
    ensures s.handoffs <= 1
    ensures s.held.rc == Gone || s.held.bufA == Gone || s.held.bufB == Gone ==> s.up.UpDone? || s.up.UpIdle?
    ensures s.down.DownDone? ==>
      && s.held.bufA != Live && s.held.bufB != Live && s.held.rc == Gone
      && if s.up.UpDone? then s.handoffs == 1 && Reports(s.down.out, s)
         else s.up.UpIdle? && s.handoffs == 0 && s.down.out.nr == s.down.out.nw == 0 && s.down.out.err.Some?
    ensures s.down.DownRecv? && s.wakeable ==>
      if s.down.why.AtEof? then s.timers.client != Unset else s.timers.client == Expired
    ensures s.down.DownRecv? && s.down.why.Hard? ==> s.timers.rcWrite != Unset
  {
    InitInv(clientIn, remoteIn, wakeable);
    RunKeepsInv(Init(clientIn, remoteIn, wakeable), acts, s);
  }

  /** In every interleaving each peer has received an in-order prefix of what the other one sent, the remote
      nothing from behind the client's first read error; the counts are those of the bytes delivered; and a
      direction that ended at end of file has delivered everything its peer sent before it. */
  lemma TunnelConserves(clientIn: seq<Chunk>, remoteIn: seq<Chunk>, wakeable: bool, acts: seq<Action>, s: State)
    requires NoStrayDeadline(remoteIn)
    requires Run(Init(clientIn, remoteIn, wakeable), acts) == Some(s)
    ensures IsPrefix(s.data.toRemote, Bytes(clientIn)) && s.data.nr == |s.data.toRemote|
    ensures IsPrefix(s.data.toClient, Bytes(remoteIn)) && s.data.nw == |s.data.toClient|
    ensures s.up.UpDone? && s.upErr == None ==> s.data.toRemote == s.data.fromClient
    ensures s.down.DownDone? && s.downErr == None ==> s.data.toClient == s.data.fromRemote
    ensures Draining(s.down) && !s.down.DownWrite? ==> s.data.toClient == s.data.fromRemote
    ensures IsPrefix(s.data.toRemote, Avail(clientIn))
    ensures s.up.UpDone? && s.upErr == None ==> s.data.toRemote == Avail(clientIn)
    ensures s.down.DownDone? && s.up.UpDone? && s.downErr == None ==> s.data.toClient == Avail(remoteIn)
  {
    var init := Init(clientIn, remoteIn, wakeable);
    InitInv(clientIn, remoteIn, wakeable);
    assert [] + Avail(clientIn) == Avail(clientIn) && [] + Avail(remoteIn) == Avail(remoteIn);
    RunReads(Avail(clientIn), Avail(remoteIn), init, acts, s);
    PrefixOfPrefix(s.data.toRemote, s.data.fromClient, Avail(clientIn));
    RunKeepsInv(init, acts, s);
    RunKeepsInputs(init, acts, s);
    assert [] + Bytes(clientIn) == Bytes(clientIn) && [] + Bytes(remoteIn) == Bytes(remoteIn);
    PrefixOfAppend(s.data.toRemote, s.data.fromClient, Bytes(s.data.clientIn));
    PrefixOfAppend(s.data.toClient, s.data.fromRemote, Bytes(s.data.remoteIn));
  }

  /** The wake is not lost: rc's read deadline is unset until the goroutine expires it, stays expired
      through every step until the result has been received, and main is in its deadline branch only
      while that result is waiting. */
  lemma WakeNotLost(clientIn: seq<Chunk>, remoteIn: seq<Chunk>, wakeable: bool, acts: seq<Action>, s: State, a: Action)
    requires NoStrayDeadline(remoteIn)
    requires Run(Init(clientIn, remoteIn, wakeable), acts) == Some(s) && Step(s, a).Some?
    ensures KeepsWake(s, a, Step(s, a).value)
  {
    InitInv(clientIn, remoteIn, wakeable);
    RunKeepsInv(Init(clientIn, remoteIn, wakeable), acts, s);
    StepKeepsInv(s, a, Step(s, a).value);
    StepKeepsWake(s, a, Step(s, a).value);
  }

  predicate KeepsWake(s: State, a: Action, t: State) {
    && (UpCopying(s.up) ==> s.timers.rc == Unset)
    && (s.up.UpWake? && t.up.UpSend? ==> t.timers.rc == Expired)
    && (s.up.UpSend? && t.timers.rc != Expired ==> a == Handoff)
    && (t.timers.rc != s.timers.rc && t.timers.rc == Armed ==> s.got.Some?)
    && (s.down.DownSelect? || t.down.DownSelect? ==> s.up.UpSend?)
  }

  lemma StepKeepsWake(s: State, a: Action, t: State)
    requires Inv(s) && Inv(t) && Step(s, a) == Some(t)
    ensures KeepsWake(s, a, t)
  {
  }

  // ---------------------------------------------------------------- termination

  function Ticks(t: Timer): nat {
    if t.Armed? then 1 else 0
  }

  function UpRank(u: Up): nat {
    match u
    case UpIdle => 0
    case UpRead => 4
    case UpWrite(_, _) => 5
    case UpClose(_) => 3
    case UpWake(_) => 2
    case UpSend(_) => 1
    case UpDone => 0
  }

  function DownRank(d: Down): nat {
    match d
    case DownAllocA => 21
    case DownAllocB => 20
    case DownWrite(drain, _, _, _) => if drain then 14 else 15
    case DownRead(drain, n) => if !drain then 14 else if n > 0 then 13 else 10
    case DownSelect => 13
    case DownDrainArm => 12
    case DownHardArm(_) => 8
    case DownEofClose => 7
    case DownGrace => 6
    case DownHardClose(_) => 6
    case DownLateClose => 6
    case DownHardWake(_) => 5
    case DownLateWake => 5
    case DownRecv(_) => 4
    case DownFailClose(_) => 4
    case DownFreeB(_) => 3
    case DownFreeA(_) => 2
    case DownCloseRc(_) => 1
    case DownDone(_) => 0
  }

  /** Every step of every interleaving lowers this number. A drain round is paid for by the bytes the
      previous round moved. */
  function Rank(s: State): nat {
    UpRank(s.up) + DownRank(s.down) + Ticks(s.timers.client) + Ticks(s.timers.rc) + Ticks(s.timers.rcWrite)
    + 5 * (|s.data.clientIn| + |s.data.remoteIn|)
  }

  lemma UpCopyLowersRank(s: State, a: Action, t: State)
    requires Step(s, a) == Some(t) && (a.UpReadData? || a.UpReadTimeout? || a.UpWriteDone?)
    ensures Rank(t) < Rank(s)
  {
  }

  lemma DownReadLowersRank(s: State, a: Action, t: State)
    requires Inv(s) && Step(s, a) == Some(t) && (a.DownReadData? || a.DownReadTimeout?)
    ensures Rank(t) < Rank(s)
  {
  }

  lemma DownWriteLowersRank(s: State, a: Action, t: State)
    requires Step(s, a) == Some(t) && a.DownWriteDone?
    ensures Rank(t) < Rank(s)
  {
  }

  lemma UpStatementLowersRank(s: State, a: Action, t: State)
    requires Step(s, a) == Some(t) && (a.UpLocal? || a.Handoff?)
    ensures Rank(t) < Rank(s)
  {
  }

  lemma ReleaseLowersRank(s: State)
    requires Release(s).Some?
    ensures Rank(Release(s).value) < Rank(s)
  {
  }

  lemma SignalLowersRank(s: State)
    requires Signal(s).Some?
    ensures Rank(Signal(s).value) < Rank(s)
  {
    var t := Signal(s).value;
    assert t.data == s.data && t.up == s.up;
    assert DownRank(t.down) < DownRank(s.down);
    assert t.timers.(rcClosed := s.timers.rcClosed, wClosed := s.timers.wClosed) != s.timers ==>
      DownRank(t.down) + 2 <= DownRank(s.down) || s.down.DownLateWake? || s.down.DownHardWake?;
  }

  lemma StepLowersRank(s: State, a: Action, t: State)
    requires Inv(s) && Step(s, a) == Some(t)
    ensures Rank(t) < Rank(s)
  {
    if a.UpReadData? || a.UpReadTimeout? || a.UpWriteDone? {
      UpCopyLowersRank(s, a, t);
    } else if a.DownReadData? || a.DownReadTimeout? {
      DownReadLowersRank(s, a, t);
    } else if a.DownWriteDone? {
      DownWriteLowersRank(s, a, t);
    } else if a.UpLocal? || a.Handoff? {
      UpStatementLowersRank(s, a, t);
    } else if a.DownLocal? {
      if Leaving(s.down) {
        ReleaseLowersRank(s);
      } else {
        SignalLowersRank(s);
      }
    }
  }

  /** No run is longer than the rank of its first state. */
  lemma {:induction false} RunsAreShort(s: State, acts: seq<Action>, t: State)
    requires Inv(s) && Run(s, acts) == Some(t)
    ensures |acts| + Rank(t) <= Rank(s)
    decreases |acts|
  {
    if acts != [] {
      var m := Step(s, acts[0]).value;
      StepKeepsInv(s, acts[0], m);
      StepLowersRank(s, acts[0], m);
      RunsAreShort(m, acts[1..], t);
    }
  }

  /** The tunnel is waiting for a peer: the client for the upstream copy, the remote for the downstream
      one unless main is already waiting for the goroutine. */
  predicate WaitsForPeer(s: State) {
    && s.up.UpRead? && s.timers.client == Unset
    && (s.down.DownRecv? || (s.down.DownRead? && s.timers.rc == Unset))
  }

  predicate ClocksQuiet(s: State) {
    !s.timers.client.Armed? && !s.timers.rc.Armed? && !s.timers.rcWrite.Armed?
  }

  /** An action that needs no peer, when there is one. */
  function NextForced(s: State): Action {
    if s.timers.client.Armed? then TickClient
    else if s.timers.rc.Armed? then TickRc
    else if s.timers.rcWrite.Armed? then TickRcWrite
    else if s.down.DownAllocA? then AllocA(true)
    else if s.down.DownAllocB? then AllocB(true)
    else if s.up.UpWrite? then UpWriteDone(WriteResult(|s.up.data|, None))
    else if s.down.DownWrite? then DownWriteDone(WriteResult(|s.down.data|, None))
    else if s.up.UpClose? || s.up.UpWake? then UpLocal
    else if s.up.UpRead? && s.timers.client.Expired? then UpReadTimeout(false)
    else if s.down.DownRead? && s.timers.rc.Expired? then DownReadTimeout
    else if s.down.DownSelect? then SelectMinute
    else if s.up.UpSend? && s.down.DownRecv? then Handoff
    else DownLocal
  }

  /** Deadlock, exactly: once the deadlines have passed, the system can go no further without a peer just
      when HandleTCP has returned or is waiting for a peer. */
  lemma StuckExactly(s: State)
    requires Inv(s)
    ensures Stuck(s) <==> ClocksQuiet(s) && (s.down.DownDone? || WaitsForPeer(s))
    ensures !Stuck(s) ==> Forced(NextForced(s)) && Step(s, NextForced(s)).Some?
  {
    if ClocksQuiet(s) && (s.down.DownDone? || WaitsForPeer(s)) {
      assert s.down.DownDone? ==> s.up.UpDone? || s.up.UpIdle?;
      forall a | Forced(a)
        ensures Step(s, a) == None
      {
        NoForcedStep(s, a);
      }
    } else {
      var a := NextForced(s);
      assert Forced(a) && Step(s, a).Some?;
    }
  }

  lemma NoForcedStep(s: State, a: Action)
    requires Inv(s) && ClocksQuiet(s) && (s.down.DownDone? || WaitsForPeer(s)) && Forced(a)
    ensures Step(s, a) == None
  {
  }

  /** One direction of the tunnel has ended. */
  predicate OneEnded(s: State) {
    || !(s.up.UpIdle? || UpCopying(s.up))
    || !(DownCopying(s.down) && !Draining(s.down))
  }

  lemma StepKeepsEnded(s: State, a: Action, t: State)
    requires Inv(s) && OneEnded(s) && Step(s, a) == Some(t)
    ensures OneEnded(t)
  {
  }

  /** Once either direction has ended, HandleTCP returns in at most Rank(s) steps even if both peers fall
      silent, provided the client connection can be woken. */
  lemma {:induction false} Returns(s: State) returns (acts: seq<Action>, t: State)
    requires Inv(s) && OneEnded(s) && s.wakeable
    ensures Run(s, acts) == Some(t) && t.down.DownDone?
    ensures forall i :: 0 <= i < |acts| ==> Forced(acts[i])
    ensures |acts| <= Rank(s)
    decreases Rank(s)
  {
    StuckExactly(s);
    if s.down.DownDone? {
      acts, t := [], s;
    } else {
      var a := NextForced(s);
      var m := Step(s, a).value;
      StepKeepsInv(s, a, m);
      StepLowersRank(s, a, m);
      StepKeepsEnded(s, a, m);
      StepKeepsInputs(s, a, m);
      var rest;
      rest, t := Returns(m);
      acts := [a] + rest;
      assert acts[1..] == rest;
    }
  }

  /** And not only along some run: whatever the interleaving, a run that cannot be continued without a
      peer after one direction has ended is one in which HandleTCP has returned. */
  lemma MaximalRunsReturn(s: State, acts: seq<Action>, t: State)
    requires Inv(s) && OneEnded(s) && s.wakeable && Run(s, acts) == Some(t)
    ensures Stuck(t) ==> t.down.DownDone?
    ensures |acts| <= Rank(s)
  {
    RunKeepsEnded(s, acts, t);
    StuckExactly(t);
    RunsAreShort(s, acts, t);
  }

  lemma {:induction false} RunKeepsEnded(s: State, acts: seq<Action>, t: State)
    requires Inv(s) && OneEnded(s) && Run(s, acts) == Some(t)
    ensures Inv(t) && OneEnded(t) && t.wakeable == s.wakeable
    decreases |acts|
  {
    if acts != [] {
      var m := Step(s, acts[0]).value;
      StepKeepsInv(s, acts[0], m);
      StepKeepsEnded(s, acts[0], m);
      StepKeepsInputs(s, acts[0], m);
      RunKeepsEnded(m, acts[1..], t);
    }
  }

  /** The provision on the client connection is needed. When the remote ends while the client of an
      unwakeable writer stays silent, main waits on errCh for as long as the client does. */
  lemma UnwakeableHangs()
    ensures exists acts, s ::
      && Run(Init([], [Chunk([], Some(EOF))], false), acts) == Some(s)
      && OneEnded(s) && Stuck(s) && !s.down.DownDone?
  {
    var s0 := Init([], [Chunk([], Some(EOF))], false);
    var acts, s := RemoteEndsFirst();
    InitInv([], [Chunk([], Some(EOF))], false);
    RunKeepsInv(s0, acts, s);
    StuckExactly(s);
  }

  /** From some inputs some run gets stuck after a direction has ended, with HandleTCP still waiting. */
  ghost predicate CanHang(wakeable: bool) {
    exists clientIn, remoteIn, acts, s ::
      && NoStrayDeadline(remoteIn) && Run(Init(clientIn, remoteIn, wakeable), acts) == Some(s)
      && OneEnded(s) && Stuck(s) && !s.down.DownDone?
  }

  /** Being able to wake the client connection is exactly what the shutdown needs. */
  lemma HangsExactly(wakeable: bool)
    ensures CanHang(wakeable) <==> !wakeable
  {
    if !wakeable {
      UnwakeableHangs();
      var acts, s :|
        && Run(Init([], [Chunk([], Some(EOF))], false), acts) == Some(s)
        && OneEnded(s) && Stuck(s) && !s.down.DownDone?;
      assert NoStrayDeadline([Chunk([], Some(EOF))]);
    }
    if wakeable && CanHang(wakeable) {
      var clientIn, remoteIn, acts, s :|
        && NoStrayDeadline(remoteIn) && Run(Init(clientIn, remoteIn, wakeable), acts) == Some(s)
        && OneEnded(s) && Stuck(s) && !s.down.DownDone?;
      StuckHasReturned(clientIn, remoteIn, acts, s);
    }
  }

  lemma StuckHasReturned(clientIn: seq<Chunk>, remoteIn: seq<Chunk>, acts: seq<Action>, s: State)
    requires NoStrayDeadline(remoteIn) && Run(Init(clientIn, remoteIn, true), acts) == Some(s)
    requires OneEnded(s) && Stuck(s)
    ensures s.down.DownDone?
  {
    var init := Init(clientIn, remoteIn, true);
    InitInv(clientIn, remoteIn, true);
    RunKeepsInv(init, acts, s);
    RunKeepsInputs(init, acts, s);
    assert s.wakeable;
    MaximalRunsReturn(s, [], s);
  }

  lemma RemoteEndsFirst() returns (acts: seq<Action>, s: State)
    ensures Run(Init([], [Chunk([], Some(EOF))], false), acts) == Some(s)
    ensures s.up == UpRead && s.down == DownRecv(AtEof) && s.timers == Timers(Unset, Unset, Unset, false, true)
  {
    var s0 := Init([], [Chunk([], Some(EOF))], false);
    var s2 := s0.(up := UpRead, down := DownRead(false, 0), held := Held(Live, Live, Live, false));
    var s3 := s2.(down := DownEofClose, data := s0.data.(remoteIn := []));
    var s4 := s3.(down := DownGrace, timers := s3.timers.(wClosed := true));
    s := s4.(down := DownRecv(AtEof));
    acts := RunFrom(s4, DownLocal, [], s);
    acts := RunFrom(s3, DownLocal, acts, s);
    assert s0.data.fromRemote + [] == [] && s0.data.remoteIn[1..] == [];
    assert Step(s2, DownReadData) == Some(s3);
    acts := RunFrom(s2, DownReadData, acts, s);
    acts := RunFrom(s0.(down := DownAllocB, held := s0.held.(bufA := Live)), AllocB(true), acts, s);
    acts := RunFrom(s0, AllocA(true), acts, s);
  }

  lemma RunFrom(s: State, a: Action, acts: seq<Action>, t: State) returns (longer: seq<Action>)
    requires Step(s, a).Some? && Run(Step(s, a).value, acts) == Some(t)
    ensures Run(s, longer) == Some(t) && longer == [a] + acts
  {
    longer := [a] + acts;
    assert longer[1..] == acts;
  }
}
