/** What happens around the end of a TCP tunnel (pkgs/trojan/trojan_tcp.go:104-187), over the runs of Tunnel:
    the drain after the upstream has ended, the grace period after the remote has, and the half-closes. */
module Shutdown {
  import opened Prelude
  import opened Streams
  import opened Relay
  import opened Tunnel

  // ---------------------------------------------------------------- the drain

  /** The reader has ended cleanly: at end of file, or at a timeout. */
  predicate UpClean(s: State) {
    s.upErr.None? || s.upErr.value.Deadline? || s.upErr.value.NetTimeout?
  }

  /** Every write to the client along the run takes all its bytes. */
  predicate FullWrites(s: State, acts: seq<Action>)
    decreases |acts|
  {
    acts == [] ||
    (FullWrite(s, acts[0]) && (Step(s, acts[0]).Some? ==> FullWrites(Step(s, acts[0]).value, acts[1..])))
  }

  predicate FullWrite(s: State, a: Action) {
    a.DownWriteDone? && s.down.DownWrite? ==> a.w == WriteResult(|s.down.data|, None)
  }

  /** What an observer of the reads from rc has seen: whether there was one, whether the last one is a
      reason to stop (it reported an error, or it timed out in silence), and whether bytes have come since
      the last timeout. */
  datatype Seen = Seen(any: bool, stop: bool, moved: bool)

  function Watch(h: Seen, s: State, a: Action): Seen {
    if a.DownReadData? && s.data.remoteIn != [] then
      Seen(true, s.data.remoteIn[0].err.Some?, h.moved || s.data.remoteIn[0].data != [])
    else if a.DownReadTimeout? then Seen(true, !h.moved, false)
    else h
  }

  function WatchRun(h: Seen, s: State, acts: seq<Action>): Seen
    decreases |acts|
  {
    if acts == [] || Step(s, acts[0]).None? then h
    else WatchRun(Watch(h, s, acts[0]), Step(s, acts[0]).value, acts[1..])
  }

  const NOTHING_SEEN := Seen(false, false, false)

  /** Where the drain stands, given what was seen of its reads. */
  predicate Drains(h: Seen, s: State) {
    && (Draining(s.down) || (Returning(s.down) && h.any && h.stop))
    && (s.down.DownDrainArm? ==> !h.moved)
    && (s.down.DownRead? ==> (h.moved <==> s.down.n > 0))
    && (s.down.DownWrite? ==> h.any && h.moved && s.down.data != [] && (h.stop <==> s.down.er.Some?))
    && (s.down.DownWrite? && s.down.er.Some? ==> s.down.er.value != Deadline)
  }

  lemma DrainReads(h: Seen, s: State, a: Action, t: State)
    requires Inv(s) && Drains(h, s) && Step(s, a) == Some(t) && (a.DownReadData? || a.DownReadTimeout?)
    ensures Drains(Watch(h, s, a), t)
  {
  }

  lemma DrainWrites(h: Seen, s: State, a: Action, t: State)
    requires Inv(s) && Drains(h, s) && Step(s, a) == Some(t) && a.DownWriteDone?
    requires FullWrite(s, a)
    ensures Drains(h, t)
  {
  }

  lemma DrainOthers(h: Seen, s: State, a: Action, t: State)
    requires Inv(s) && Drains(h, s) && Step(s, a) == Some(t)
    requires !a.DownReadData? && !a.DownReadTimeout? && !a.DownWriteDone?
    ensures Drains(h, t)
  {
    if a.DownLocal? && Leaving(s.down) {
      assert Returning(Release(s).value.down);
    }
  }

  lemma {:induction false} DrainRuns(h: Seen, s: State, acts: seq<Action>, t: State)
    requires Inv(s) && Drains(h, s) && Run(s, acts) == Some(t) && FullWrites(s, acts)
    ensures Drains(WatchRun(h, s, acts), t)
    decreases |acts|
  {
    if acts != [] {
      var a, m := acts[0], Step(s, acts[0]).value;
      StepKeepsInv(s, a, m);
      if a.DownReadData? || a.DownReadTimeout? {
        DrainReads(h, s, a, m);
      } else if a.DownWriteDone? {
        DrainWrites(h, s, a, m);
      } else {
        DrainOthers(h, s, a, m);
      }
      DrainRuns(Watch(h, s, a), m, acts[1..], t);
    }
  }

  /** Main had been woken at the deadline, and not given up after its minute. */
  lemma {:induction false} NoMinuteNotLate(s: State, acts: seq<Action>, t: State)
    requires Run(s, acts) == Some(t) && SelectMinute !in acts && !GivenUp(s.down)
    ensures !GivenUp(t.down)
    decreases |acts|
  {
    if acts != [] {
      var m := Step(s, acts[0]).value;
      StepNotLate(s, acts[0], m);
      assert forall a :: a in acts[1..] ==> a in acts;
      NoMinuteNotLate(m, acts[1..], t);
    }
  }

  predicate GivenUp(d: Down) {
    d.DownLateClose? || d.DownLateWake? || d == DownRecv(Late)
  }

  lemma StepNotLate(s: State, a: Action, t: State)
    requires Step(s, a) == Some(t) && a != SelectMinute && !GivenUp(s.down)
    ensures !GivenUp(t.down)
  {
  }

  /** The situation at the hand-off: main was woken at the deadline because the goroutine had ended. */
  ghost predicate HandedOver(clientIn: seq<Chunk>, remoteIn: seq<Chunk>, wakeable: bool, before: seq<Action>, s: State) {
    && NoStrayDeadline(remoteIn)
    && Run(Init(clientIn, remoteIn, wakeable), before) == Some(s)
    && Step(s, Handoff).Some?
  }

  /** Every run in which main has the goroutine's result has a hand-off. */
  lemma {:induction false} HandoffHappened(s0: State, acts: seq<Action>, t: State)
    returns (before: seq<Action>, s: State, after: seq<Action>)
    requires Run(s0, acts) == Some(t) && s0.got.None? && t.got.Some?
    ensures acts == before + ([Handoff] + after) && Run(s0, before) == Some(s)
    ensures Step(s, Handoff).Some? && Run(Step(s, Handoff).value, after) == Some(t)
    decreases |acts|
  {
    var m := Step(s0, acts[0]).value;
    if acts[0] == Handoff {
      before, s, after := [], s0, acts[1..];
    } else {
      OnlyHandoffGets(s0, acts[0], m);
      before, s, after := HandoffHappened(m, acts[1..], t);
      before := [acts[0]] + before;
      assert before[1..] + ([Handoff] + after) == acts[1..];
    }
  }

  lemma OnlyHandoffGets(s: State, a: Action, t: State)
    requires Step(s, a) == Some(t) && a != Handoff
    ensures t.got == s.got
  {
  }

  /** Draining is what follows a clean hand-off at the deadline. */
  lemma DrainStarts(clientIn: seq<Chunk>, remoteIn: seq<Chunk>, wakeable: bool, before: seq<Action>, s: State)
    requires HandedOver(clientIn, remoteIn, wakeable, before, s)
    requires s.downErr == Some(Deadline) && UpClean(s) && SelectMinute !in before
    ensures Inv(s) && Inv(Step(s, Handoff).value)
    ensures Drains(NOTHING_SEEN, Step(s, Handoff).value) && Step(s, Handoff).value.data == s.data
    ensures s.data.toClient == s.data.fromRemote
  {
    InitInv(clientIn, remoteIn, wakeable);
    RunKeepsInv(Init(clientIn, remoteIn, wakeable), before, s);
    StepKeepsInv(s, Handoff, Step(s, Handoff).value);
    NoMinuteNotLate(Init(clientIn, remoteIn, wakeable), before, s);
    assert s.down.DownSelect?;
  }

  /** After a clean hand-off the drain goes on until it must stop: when HandleTCP has returned, rc was read
      since, and the last read reported an error or was a timeout in silence, all the client's writes having
      succeeded. */
  lemma DrainsToTheEnd(clientIn: seq<Chunk>, remoteIn: seq<Chunk>, wakeable: bool, before: seq<Action>, s: State,
                       after: seq<Action>, t: State)
    requires HandedOver(clientIn, remoteIn, wakeable, before, s)
    requires s.downErr == Some(Deadline) && UpClean(s) && SelectMinute !in before
    requires Run(Step(s, Handoff).value, after) == Some(t) && t.down.DownDone?
    requires FullWrites(Step(s, Handoff).value, after)
    ensures var h := WatchRun(NOTHING_SEEN, Step(s, Handoff).value, after); h.any && h.stop
  {
    DrainStarts(clientIn, remoteIn, wakeable, before, s);
    DrainRuns(NOTHING_SEEN, Step(s, Handoff).value, after, t);
  }

  /** The drain in terms of bytes: since the hand-off, when `got` was there, it has read a part of `whole`,
      and the client has been given what was read. */
  predicate DrainReading(got: seq<byte>, whole: seq<byte>, s: State) {
    && (Draining(s.down) || Returning(s.down))
    && (!s.down.DownWrite? ==> s.data.toClient == s.data.fromRemote)
    && (if Returning(s.down) || (s.down.DownWrite? && s.down.er.Some?) then s.data.fromRemote == got + whole
        else Progress(s.data.fromRemote, s.data.remoteIn, got + whole))
  }

  lemma ReadingReads(got: seq<byte>, whole: seq<byte>, s: State, t: State)
    requires Inv(s) && DrainReading(got, whole, s) && Step(s, DownReadData) == Some(t)
    ensures DrainReading(got, whole, t)
  {
    ReadOn(s.data.fromRemote, s.data.remoteIn, got + whole);
    assert s.data.fromRemote + [] == s.data.fromRemote;
  }

  lemma ReadingWrites(got: seq<byte>, whole: seq<byte>, s: State, a: Action, t: State)
    requires Inv(s) && DrainReading(got, whole, s) && Step(s, a) == Some(t) && a.DownWriteDone? && FullWrite(s, a)
    requires s.down.DownWrite? && s.down.er.Some? ==> s.down.er.value != Deadline
    ensures DrainReading(got, whole, t)
  {
    assert s.down.data[..|s.down.data|] == s.down.data;
  }

  lemma ReadingOthers(got: seq<byte>, whole: seq<byte>, s: State, a: Action, t: State)
    requires Inv(s) && DrainReading(got, whole, s) && Step(s, a) == Some(t)
    requires !a.DownReadData? && !a.DownReadTimeout? && !a.DownWriteDone?
    ensures DrainReading(got, whole, t)
  {
    if a.DownLocal? && Leaving(s.down) {
      assert Returning(Release(s).value.down);
    }
  }

  lemma {:induction false} ReadingRuns(got: seq<byte>, whole: seq<byte>, h: Seen, s: State, acts: seq<Action>, t: State)
    requires Inv(s) && Drains(h, s) && DrainReading(got, whole, s)
    requires Run(s, acts) == Some(t) && FullWrites(s, acts) && DownReadTimeout !in acts
    ensures DrainReading(got, whole, t)
    decreases |acts|
  {
    if acts != [] {
      var a, m := acts[0], Step(s, acts[0]).value;
      StepKeepsInv(s, a, m);
      if a.DownReadData? {
        ReadingReads(got, whole, s, m);
        DrainReads(h, s, a, m);
      } else if a.DownWriteDone? {
        ReadingWrites(got, whole, s, a, m);
        DrainWrites(h, s, a, m);
      } else {
        ReadingOthers(got, whole, s, a, m);
        DrainOthers(h, s, a, m);
      }
      assert forall b :: b in acts[1..] ==> b in acts;
      ReadingRuns(got, whole, Watch(h, s, a), m, acts[1..], t);
    }
  }

  /** A drain without a timeout gives the client everything the remote sends until its next error. */
  lemma DrainDeliversAll(clientIn: seq<Chunk>, remoteIn: seq<Chunk>, wakeable: bool, before: seq<Action>, s: State,
                         after: seq<Action>, t: State)
    requires HandedOver(clientIn, remoteIn, wakeable, before, s)
    requires s.downErr == Some(Deadline) && UpClean(s) && SelectMinute !in before
    requires Run(Step(s, Handoff).value, after) == Some(t) && t.down.DownDone?
    requires FullWrites(Step(s, Handoff).value, after) && DownReadTimeout !in after
    ensures t.data.toClient == s.data.toClient + Avail(s.data.remoteIn)
  {
    DrainStarts(clientIn, remoteIn, wakeable, before, s);
    ReadingRuns(s.data.fromRemote, Avail(s.data.remoteIn), NOTHING_SEEN, Step(s, Handoff).value, after, t);
  }

  /** rc is armed for each round of the drain. */
  predicate Waits(s: State) {
    Returning(s.down) || s.down.DownDrainArm? || (Draining(s.down) && s.timers.rc.Armed?)
  }

  lemma StepWaits(s: State, a: Action, t: State)
    requires Inv(s) && Waits(s) && Step(s, a) == Some(t) && a != TickRc
    ensures Waits(t) && a != DownReadTimeout
  {
  }

  /** A round of the drain times out only when its minute has passed. */
  lemma {:induction false} DrainTakesTime(s: State, acts: seq<Action>, t: State)
    requires Inv(s) && Waits(s) && Run(s, acts) == Some(t) && TickRc !in acts
    ensures Waits(t) && DownReadTimeout !in acts
    decreases |acts|
  {
    if acts != [] {
      var m := Step(s, acts[0]).value;
      StepKeepsInv(s, acts[0], m);
      StepWaits(s, acts[0], m);
      assert forall a :: a in acts[1..] ==> a in acts;
      DrainTakesTime(m, acts[1..], t);
    }
  }

  /** Without the minute passing on rc, then, nothing is cut off: from the hand-off on, the client gets all
      that the remote sends before its next error. */
  lemma DrainLosesNothing(clientIn: seq<Chunk>, remoteIn: seq<Chunk>, wakeable: bool, before: seq<Action>, s: State,
                          after: seq<Action>, t: State)
    requires HandedOver(clientIn, remoteIn, wakeable, before, s)
    requires s.downErr == Some(Deadline) && UpClean(s) && SelectMinute !in before
    requires Run(Step(s, Handoff).value, after) == Some(t) && t.down.DownDone?
    requires FullWrites(Step(s, Handoff).value, after) && TickRc !in after
    ensures t.data.toClient == s.data.toClient + Avail(s.data.remoteIn)
  {
    DrainStarts(clientIn, remoteIn, wakeable, before, s);
    DrainTakesTime(Step(s, Handoff).value, after, t);
    DrainDeliversAll(clientIn, remoteIn, wakeable, before, s, after, t);
  }

  /** Main is on its way out without a drain. */
  predicate OnTheWayOut(d: Down) {
    Returning(d) || d.DownFailClose?
  }

  lemma {:induction false} NoMoreReads(s: State, acts: seq<Action>, t: State)
    requires OnTheWayOut(s.down) && Run(s, acts) == Some(t)
    ensures forall a :: a in acts ==> !a.DownReadData? && !a.DownReadTimeout?
    decreases |acts|
  {
    if acts != [] {
      var m := Step(s, acts[0]).value;
      StaysOut(s, acts[0], m);
      NoMoreReads(m, acts[1..], t);
    }
  }

  lemma StaysOut(s: State, a: Action, t: State)
    requires OnTheWayOut(s.down) && Step(s, a) == Some(t)
    ensures OnTheWayOut(t.down) && !a.DownReadData? && !a.DownReadTimeout?
  {
  }

  lemma {:induction false} MinuteIsLate(s: State, acts: seq<Action>, t: State)
    requires Run(s, acts) == Some(t) && (SelectMinute in acts || GivenUp(s.down) || OnTheWayOut(s.down))
    requires Inv(s)
    ensures GivenUp(t.down) || OnTheWayOut(t.down)
    decreases |acts|
  {
    if acts != [] {
      var a, m := acts[0], Step(s, acts[0]).value;
      StepKeepsInv(s, a, m);
      if a == SelectMinute || GivenUp(s.down) || OnTheWayOut(s.down) {
        StepIsLate(s, a, m);
      }
      assert SelectMinute in acts ==> a == SelectMinute || SelectMinute in acts[1..];
      MinuteIsLate(m, acts[1..], t);
    }
  }

  lemma StepIsLate(s: State, a: Action, t: State)
    requires Step(s, a) == Some(t) && (a == SelectMinute || GivenUp(s.down) || OnTheWayOut(s.down))
    ensures GivenUp(t.down) || OnTheWayOut(t.down)
  {
  }

  /** When is rc read again after the hand-off? Never, unless main was woken at the deadline within its
      minute and the upstream ended cleanly; then always, before HandleTCP returns. */
  lemma DrainsExactly(clientIn: seq<Chunk>, remoteIn: seq<Chunk>, wakeable: bool, before: seq<Action>, s: State,
                      after: seq<Action>, t: State)
    requires HandedOver(clientIn, remoteIn, wakeable, before, s)
    requires Run(Step(s, Handoff).value, after) == Some(t) && t.down.DownDone? && FullWrites(Step(s, Handoff).value, after)
    ensures WatchRun(NOTHING_SEEN, Step(s, Handoff).value, after).any <==>
      s.downErr == Some(Deadline) && UpClean(s) && SelectMinute !in before
  {
    if s.downErr == Some(Deadline) && UpClean(s) && SelectMinute !in before {
      DrainsToTheEnd(clientIn, remoteIn, wakeable, before, s, after, t);
    } else {
      NoDrain(clientIn, remoteIn, wakeable, before, s);
      NoMoreReads(Step(s, Handoff).value, after, t);
      NothingSeen(Step(s, Handoff).value, after);
    }
  }

  lemma NoDrain(clientIn: seq<Chunk>, remoteIn: seq<Chunk>, wakeable: bool, before: seq<Action>, s: State)
    requires HandedOver(clientIn, remoteIn, wakeable, before, s)
    requires !(s.downErr == Some(Deadline) && UpClean(s) && SelectMinute !in before)
    ensures OnTheWayOut(Step(s, Handoff).value.down)
  {
    InitInv(clientIn, remoteIn, wakeable);
    RunKeepsInv(Init(clientIn, remoteIn, wakeable), before, s);
    if SelectMinute in before {
      MinuteIsLate(Init(clientIn, remoteIn, wakeable), before, s);
    }
  }

  lemma {:induction false} NothingSeen(s: State, acts: seq<Action>)
    requires forall a :: a in acts ==> !a.DownReadData? && !a.DownReadTimeout?
    ensures WatchRun(NOTHING_SEEN, s, acts) == NOTHING_SEEN
    decreases |acts|
  {
    if acts != [] && Step(s, acts[0]).Some? {
      assert acts[0] in acts;
      NothingSeen(Step(s, acts[0]).value, acts[1..]);
    }
  }

  // ---------------------------------------------------------------- the grace period

  /** The client's reads have not been cut off, unless main has given up on it. */
  predicate Graceful(s: State) {
    s.downErr.Some? || s.timers.client != Expired
  }

  lemma StepGraceful(s: State, a: Action, t: State)
    requires Inv(s) && Graceful(s) && Step(s, a) == Some(t) && a != TickClient
    ensures Graceful(t) && (s.downErr.Some? ==> t.downErr.Some?) && (s.downErr.None? ==> !a.UpReadTimeout?)
  {
  }

  /** While the remote has not failed, the client is cut off only after the grace period: without that time
      passing no read from it times out, although the remote may have ended. */
  lemma {:induction false} GraceIsKept(s: State, acts: seq<Action>, t: State)
    requires Inv(s) && Graceful(s) && Run(s, acts) == Some(t) && TickClient !in acts
    ensures Graceful(t) && (s.downErr.Some? ==> t.downErr.Some?)
    ensures t.downErr.None? ==> forall a :: a in acts ==> !a.UpReadTimeout?
    decreases |acts|
  {
    if acts != [] {
      var m := Step(s, acts[0]).value;
      StepKeepsInv(s, acts[0], m);
      StepGraceful(s, acts[0], m);
      assert forall a :: a in acts[1..] ==> a in acts;
      GraceIsKept(m, acts[1..], t);
    }
  }

  lemma RemoteEndGraceful(clientIn: seq<Chunk>, remoteIn: seq<Chunk>, wakeable: bool, acts: seq<Action>, s: State)
    requires NoStrayDeadline(remoteIn) && Run(Init(clientIn, remoteIn, wakeable), acts) == Some(s)
    requires s.downErr == None && TickClient !in acts
    ensures forall a :: a in acts ==> !a.UpReadTimeout?
  {
    InitInv(clientIn, remoteIn, wakeable);
    GraceIsKept(Init(clientIn, remoteIn, wakeable), acts, s);
  }

  /** rc's write deadline: set after a hard error alone, expired by time alone. */
  predicate WriteGrace(s: State, passed: bool) {
    && (s.timers.rcWrite.Expired? <==> passed)
    && (s.timers.rcWrite != Unset <==>
         s.downErr.Some? && !s.downErr.value.Deadline? && !s.down.DownHardArm?)
  }

  lemma StepWriteGrace(s: State, a: Action, t: State, passed: bool)
    requires Inv(s) && WriteGrace(s, passed) && Step(s, a) == Some(t)
    ensures WriteGrace(t, passed || a == TickRcWrite)
  {
    if a.DownReadData? || a.DownReadTimeout? || a.DownWriteDone? {
      CopyWriteGrace(s, a, t, passed);
    }
  }

  lemma CopyWriteGrace(s: State, a: Action, t: State, passed: bool)
    requires Inv(s) && WriteGrace(s, passed) && Step(s, a) == Some(t)
    requires a.DownReadData? || a.DownReadTimeout? || a.DownWriteDone?
    ensures WriteGrace(t, passed)
  {
  }

  lemma {:induction false} RunWriteGrace(s: State, acts: seq<Action>, t: State, passed: bool)
    requires Inv(s) && WriteGrace(s, passed) && Run(s, acts) == Some(t)
    ensures WriteGrace(t, passed || TickRcWrite in acts)
    decreases |acts|
  {
    if acts != [] {
      var m := Step(s, acts[0]).value;
      StepKeepsInv(s, acts[0], m);
      StepWriteGrace(s, acts[0], m, passed);
      RunWriteGrace(m, acts[1..], t, passed || acts[0] == TickRcWrite);
      assert TickRcWrite in acts <==> acts[0] == TickRcWrite || TickRcWrite in acts[1..];
    }
  }

  /** Writes to the remote are cut off only after a hard error downstream, and not before the grace period
      that main then gives them has passed; and no return after such an error comes without it being set. */
  lemma WritesAreGivenTime(clientIn: seq<Chunk>, remoteIn: seq<Chunk>, wakeable: bool, acts: seq<Action>, s: State)
    requires NoStrayDeadline(remoteIn) && Run(Init(clientIn, remoteIn, wakeable), acts) == Some(s)
    ensures s.timers.rcWrite.Expired? <==> TickRcWrite in acts
    ensures s.timers.rcWrite != Unset ==> s.downErr.Some? && s.downErr != Some(Deadline)
    ensures s.down.DownDone? && s.downErr.Some? && s.downErr != Some(Deadline) ==> s.timers.rcWrite != Unset
  {
    InitInv(clientIn, remoteIn, wakeable);
    RunWriteGrace(Init(clientIn, remoteIn, wakeable), acts, s, false);
  }

  // ---------------------------------------------------------------- half-closes

  predicate UpPast(u: Up) { u.UpWake? || u.UpSend? || u.UpDone? }

  /** What the client is told of the end: that the remote has ended, or that no more will come. */
  predicate ClientTold(s: State, minute: bool) {
    || s.down.DownGrace? || s.down == DownRecv(AtEof)
    || s.down.DownLateWake? || s.down == DownRecv(Late)
    || (Returning(s.down) && s.got.Some? &&
        (s.downErr.None? || (s.downErr.value.Deadline? && (minute || !UpClean(s)))))
  }

  /** rc's write side is closed once the goroutine has finished its copy, or main has seen a hard error; w's
      as ClientTold says. */
  predicate HalfClosed(s: State, minute: bool) {
    && (s.timers.rcClosed <==> UpPast(s.up) || s.down.DownHardWake? || (s.down.DownRecv? && s.down.why.Hard?))
    && (s.timers.wClosed <==> ClientTold(s, minute))
    && (GivenUp(s.down) ==> minute) && (minute ==> GivenUp(s.down) || Returning(s.down))
  }

  lemma UpStepHalves(s: State, a: Action, t: State, minute: bool)
    requires Inv(s) && HalfClosed(s, minute) && Step(s, a) == Some(t)
    requires a.UpReadData? || a.UpReadTimeout? || a.UpWriteDone? || a.UpLocal?
    ensures HalfClosed(t, minute)
  {
  }

  lemma DownCopyHalves(s: State, a: Action, t: State, minute: bool)
    requires Inv(s) && HalfClosed(s, minute) && Step(s, a) == Some(t)
    requires a.DownWriteDone? || a.AllocA? || a.AllocB?
    ensures HalfClosed(t, minute)
  {
  }

  lemma DownReadHalves(s: State, a: Action, t: State, minute: bool)
    requires Inv(s) && HalfClosed(s, minute) && Step(s, a) == Some(t) && (a.DownReadData? || a.DownReadTimeout?)
    ensures HalfClosed(t, minute)
  {
  }

  lemma DownLocalHalves(s: State, t: State, minute: bool)
    requires Inv(s) && HalfClosed(s, minute) && Step(s, DownLocal) == Some(t)
    ensures HalfClosed(t, minute)
  {
  }

  lemma OtherHalves(s: State, a: Action, t: State, minute: bool)
    requires Inv(s) && HalfClosed(s, minute) && Step(s, a) == Some(t)
    requires a.SelectMinute? || a.Handoff? || a.TickClient? || a.TickRc? || a.TickRcWrite?
    ensures HalfClosed(t, minute || a == SelectMinute)
  {
  }

  lemma {:induction false} RunHalves(s: State, acts: seq<Action>, t: State, minute: bool)
    requires Inv(s) && HalfClosed(s, minute) && Run(s, acts) == Some(t)
    ensures HalfClosed(t, minute || SelectMinute in acts)
    decreases |acts|
  {
    if acts != [] {
      var a, m := acts[0], Step(s, acts[0]).value;
      StepKeepsInv(s, a, m);
      if a.UpReadData? || a.UpReadTimeout? || a.UpWriteDone? || a.UpLocal? {
        UpStepHalves(s, a, m, minute);
      } else if a.DownReadData? || a.DownReadTimeout? {
        DownReadHalves(s, a, m, minute);
      } else if a.DownWriteDone? || a.AllocA? || a.AllocB? {
        DownCopyHalves(s, a, m, minute);
      } else if a.DownLocal? {
        DownLocalHalves(s, m, minute);
      } else {
        OtherHalves(s, a, m, minute);
      }
      RunHalves(m, acts[1..], t, minute || a == SelectMinute);
      assert SelectMinute in acts <==> a == SelectMinute || SelectMinute in acts[1..];
    }
  }

  /** An end is passed on: rc is closed for writing once the goroutine has copied all it will, and before
      that only after a hard error; and when HandleTCP returns, the client has been told of the end exactly
      if the remote ended, the upstream failed, or the goroutine's result did not come within the minute. */
  lemma EndsArePassedOn(clientIn: seq<Chunk>, remoteIn: seq<Chunk>, wakeable: bool, acts: seq<Action>, s: State)
    requires NoStrayDeadline(remoteIn) && Run(Init(clientIn, remoteIn, wakeable), acts) == Some(s)
    ensures UpPast(s.up) ==> s.timers.rcClosed
    ensures s.timers.rcClosed && !UpPast(s.up) ==> s.downErr.Some? && s.downErr != Some(Deadline)
    ensures s.down.DownDone? && s.up.UpDone? ==>
      (s.timers.wClosed <==> s.downErr == None || (s.downErr == Some(Deadline) && (SelectMinute in acts || !UpClean(s))))
    ensures s.timers.wClosed && s.downErr == None ==> s.data.toClient == Avail(remoteIn)
  {
    var init := Init(clientIn, remoteIn, wakeable);
    InitInv(clientIn, remoteIn, wakeable);
    RunKeepsInv(init, acts, s);
    RunHalves(init, acts, s, false);
    assert [] + Avail(clientIn) == Avail(clientIn) && [] + Avail(remoteIn) == Avail(remoteIn);
    RunReads(Avail(clientIn), Avail(remoteIn), init, acts, s);
  }
}
