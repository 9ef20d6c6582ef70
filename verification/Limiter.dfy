/** The CONNECT failure limiter (modules/handler/handler.go): tumbling windows, lazy expiry on access and a
    background sweeper. Times are nanoseconds; every operation takes the clock reading it would make. */
module Limiter {
  import opened Prelude

  // ---------------------------------------------------------------- one source

  /** threshold, window and cooldown as failCfg returns them. */
  datatype Config = Config(threshold: int, window: int, cooldown: int)

  const CONNECT_FAIL_LIMIT := 5
  const CONNECT_FAIL_WINDOW := 10_000_000_000
  const CONNECT_FAIL_COOLDOWN := 60_000_000_000

  /** failCfg: unset fields fall back to the production constants. */
  function FailCfg(threshold: int, window: int, cooldown: int): (c: Config)
    ensures c.threshold >= 1
    ensures c.threshold == if threshold > 0 then threshold else 5
    ensures c.window == if window != 0 then window else 10_000_000_000
    ensures c.cooldown == if cooldown != 0 then cooldown else 60_000_000_000
  {
    Config(if threshold <= 0 then CONNECT_FAIL_LIMIT else threshold,
           if window == 0 then CONNECT_FAIL_WINDOW else window,
           if cooldown == 0 then CONNECT_FAIL_COOLDOWN else cooldown)
  }

  /** The fields of a failRecord; None is the zero time. */
  datatype Rec = Rec(count: nat, first: Option<int>, blocked: Option<int>)

  /** The record after recordFailure at `now`. */
  function Recorded(rec: Option<Rec>, now: int, c: Config): Rec {
    var r := rec.GetOr(Rec(0, None, None));
    var r1 := if r.first.None? || now - r.first.value > c.window then Rec(0, Some(now), None) else r;
    var r2 := r1.(count := r1.count + 1);
    if r2.count >= c.threshold && r2.blocked.None? then r2.(blocked := Some(now + c.cooldown)) else r2
  }

  /** The answer of isRateLimited at `now`. */
  predicate Limited(rec: Option<Rec>, now: int) {
    rec.Some? && rec.value.blocked.Some? && now < rec.value.blocked.value
  }

  /** The record after isRateLimited: an expired block is dropped. */
  function Checked(rec: Option<Rec>, now: int): Option<Rec> {
    if rec.Some? && rec.value.blocked.Some? && now >= rec.value.blocked.value then None else rec
  }

  /** The record after cleanupTick. */
  function Swept(rec: Option<Rec>, now: int, c: Config): Option<Rec> {
    if rec.Some? && rec.value.first.Some? && now - rec.value.first.value > c.cooldown then None else rec
  }

  /** What can happen to the record of one source: an access, a recorded failure, a sweep, and Cleanup. */
  datatype Event = Check(t: int) | Fail(t: int) | Tick(t: int) | Reset(t: int)

  function After(rec: Option<Rec>, ev: Event, c: Config): Option<Rec> {
    match ev
    case Check(t) => Checked(rec, t)
    case Fail(t) => Some(Recorded(rec, t, c))
    case Tick(t) => Swept(rec, t, c)
    case Reset(_) => None
  }

  function Run(rec: Option<Rec>, evs: seq<Event>, c: Config): Option<Rec>
    decreases |evs|
  {
    if evs == [] then rec else Run(After(rec, evs[0], c), evs[1..], c)
  }

  /** The clock does not run backwards. The sweeper reads it before it waits for the lock, so a tick may
      come with an older time; the others read it under the lock. */
  predicate Ordered(from: int, evs: seq<Event>)
    decreases |evs|
  {
    evs == [] || (InOrder(from, evs[0]) && Ordered(Later(from, evs[0]), evs[1..]))
  }

  predicate InOrder(from: int, ev: Event) {
    ev.Tick? || from <= ev.t
  }

  /** The clock after ev. */
  function Later(now: int, ev: Event): int {
    if now < ev.t then ev.t else now
  }

  /** Whether a request that was let through is under way after ev. */
  predicate Arms(armed: bool, rec: Option<Rec>, ev: Event) {
    if ev.Check? then !Limited(rec, ev.t) else armed && !ev.Fail?
  }

  /** Requests of the source are serialised: a failure is recorded only by a request whose check let it
      through, and no other request of the source comes between (sweeps may). `armed` says that such a
      request is under way. */
  predicate Serial(armed: bool, rec: Option<Rec>, evs: seq<Event>, c: Config)
    decreases |evs|
  {
    evs == [] ||
    ((evs[0].Fail? ==> armed) && Serial(Arms(armed, rec, evs[0]), After(rec, evs[0], c), evs[1..], c))
  }

  predicate NoReset(evs: seq<Event>) {
    forall i :: 0 <= i < |evs| ==> !evs[i].Reset?
  }

  /** The number of failures recorded in lo <= t < hi. */
  function CountIn(evs: seq<Event>, lo: int, hi: int): nat
    decreases |evs|
  {
    if evs == [] then 0
    else (if evs[0].Fail? && lo <= evs[0].t < hi then 1 else 0) + CountIn(evs[1..], lo, hi)
  }

  // ---------------------------------------------------------------- how many failures get through

  /** The induction behind BurstBound. `epoch` is the start of the latest counting window, n the number
      of failures so far in the stretch of length c.window that starts at x. */
  ghost predicate BurstInv(rec: Option<Rec>, armed: bool, now: int, epoch: Option<int>, x: int, n: nat, c: Config) {
    var size := if rec.Some? then rec.value.count else c.threshold;
    && (n > 0 ==> x <= now)
    && (epoch.Some? ==> epoch.value <= now)
    && (rec.Some? ==>
          && epoch.Some? && rec.value.first == epoch
          && 1 <= rec.value.count <= c.threshold
          && (rec.value.blocked.None? <==> rec.value.count < c.threshold)
          && (rec.value.blocked.Some? ==> epoch.value + c.cooldown <= rec.value.blocked.value && !armed))
    && (rec.None? && epoch.Some? ==> epoch.value + c.window <= now)
    && (epoch.None? ==> n == 0)
    && (epoch.Some? ==>
          n <= if epoch.value < x then size - 1
               else if epoch.value < x + c.window then c.threshold - 1 + size
               else 2 * c.threshold - 1)
  }

  lemma {:induction false} BurstFrom(rec: Option<Rec>, armed: bool, now: int, epoch: Option<int>, evs: seq<Event>,
                                     x: int, n: nat, c: Config)
    requires c.threshold >= 1 && c.cooldown >= c.window
    requires BurstInv(rec, armed, now, epoch, x, n, c)
    requires Ordered(now, evs) && Serial(armed, rec, evs, c) && NoReset(evs)
    ensures n + CountIn(evs, x, x + c.window) <= 2 * c.threshold - 1
    decreases |evs|
  {
    if evs != [] {
      var ev := evs[0];
      var rec' := After(rec, ev, c);
      var armed' := Arms(armed, rec, ev);
      var n' := n + if ev.Fail? && x <= ev.t < x + c.window then 1 else 0;
      var epoch' := if ev.Fail? then rec'.value.first else epoch;
      assert forall i :: 0 <= i < |evs| - 1 ==> evs[1..][i] == evs[i + 1];
      BurstFrom(rec', armed', Later(now, ev), epoch', evs[1..], x, n', c);
    }
  }

  /** A serialised run of one source from an empty table, without Cleanup. */
  ghost predicate SerialRun(evs: seq<Event>, start: int, c: Config) {
    Ordered(start, evs) && Serial(false, None, evs, c) && NoReset(evs)
  }

  /** The failures recorded in the half-open stretch of one window from x. */
  function Stretch(evs: seq<Event>, x: int, c: Config): nat {
    CountIn(evs, x, x + c.window)
  }

  /** In any half-open stretch of time as long as the window, at most 2 * threshold - 1 failures of a
      source are recorded, for every mix of lazy expiry and sweeps. */
  lemma BurstBound(evs: seq<Event>, start: int, x: int, c: Config)
    requires c.threshold >= 1 && c.cooldown >= c.window
    requires SerialRun(evs, start, c)
    ensures Stretch(evs, x, c) <= 2 * c.threshold - 1
  {
    BurstFrom(None, false, start, None, evs, x, 0, c);
  }

  /** The bound is reached, for every threshold, when the cooldown is shorter than two windows: the sweeper
      drops the block of a source whose last failures came at the end of their window. */
  lemma BurstBoundAttained(c: Config)
    requires c.threshold >= 1 && 2 <= c.window <= c.cooldown <= 2 * c.window - 2
    ensures exists evs, start, x :: SerialRun(evs, start, c) && Stretch(evs, x, c) == 2 * c.threshold - 1
  {
    var w, th := c.window, c.threshold;
    var u := c.cooldown + 1;
    if th == 1 {
      OneBurst(w, c);
    } else {
      BurstRuns(0, th, u, u, None, [], w, c);
      var evs := Cons(w, false, Some(Full(0, w, c)), Tick(u), Burst(th, u) + [], w, c);
      BurstRuns(1, th - 1, 0, w, Some(Rec(1, Some(0), None)), evs, w, c);
      evs := FirstFailure(Burst(th - 1, w) + evs, w, c);
      assert SerialRun(evs, 0, c) && Stretch(evs, w, c) == 2 * th - 1;
    }
  }

  /** A failure at 0 in front of a run that goes on from its record. */
  lemma FirstFailure(rest: seq<Event>, x: int, c: Config) returns (evs: seq<Event>)
    requires c.threshold > 1 && x > 0
    requires Ordered(0, rest) && NoReset(rest) && Serial(false, Some(Rec(1, Some(0), None)), rest, c)
    ensures SerialRun(evs, 0, c) && Stretch(evs, x, c) == Stretch(rest, x, c)
  {
    evs := Cons(0, true, None, Fail(0), rest, x, c);
    evs := Cons(0, false, None, Check(0), evs, x, c);
  }

  /** threshold failures at one time in an empty table. */
  lemma OneBurst(t: int, c: Config)
    requires c.threshold >= 1 && c.window > 0
    ensures exists evs, start, x :: SerialRun(evs, start, c) && Stretch(evs, x, c) == c.threshold
  {
    BurstRuns(0, c.threshold, t, t, None, [], t, c);
    assert SerialRun(Burst(c.threshold, t) + [], t, c);
  }

  // ---------------------------------------------------------------- with a long cooldown

  /** The most failures in a stretch of one window when a block outlasts the stretch, as it does with the
      production constants. */
  function Cap(c: Config): int {
    if c.threshold >= 2 then 2 * c.threshold - 2 else 1
  }

  /** The induction behind BurstBoundLong; n is the number of failures so far in the stretch from x. */
  ghost predicate LongInv(rec: Option<Rec>, armed: bool, now: int, x: int, n: nat, c: Config) {
    && n <= Cap(c)
    && (n > 0 ==> x <= now)
    && (rec.None? && n > 0 ==> x + c.window <= now)
    && (rec.Some? ==>
          && rec.value.first.Some? && 1 <= rec.value.count <= c.threshold
          && var f, size := rec.value.first.value, rec.value.count;
          && f <= now
          && (rec.value.blocked.None? <==> size < c.threshold)
          && (rec.value.blocked.Some? ==>
                && !armed && f + c.cooldown <= rec.value.blocked.value
                && (n > 0 ==> x + c.cooldown <= rec.value.blocked.value || x + c.window <= now))
          && (f < x ==> n <= size - 1 && (n > 0 ==> x <= f + c.window))
          && (x <= f < x + c.window ==> n <= Cap(c) - c.threshold + size))
  }

  lemma LongStep(rec: Option<Rec>, armed: bool, now: int, ev: Event, x: int, n: nat, c: Config)
    requires c.threshold >= 1 && c.window > 0 && c.cooldown >= 2 * c.window - 1
    requires LongInv(rec, armed, now, x, n, c) && InOrder(now, ev) && !ev.Reset? && (ev.Fail? ==> armed)
    ensures LongInv(After(rec, ev, c), Arms(armed, rec, ev), Later(now, ev), x,
                    n + (if ev.Fail? && x <= ev.t < x + c.window then 1 else 0), c)
  {
  }

  lemma {:induction false} LongFrom(rec: Option<Rec>, armed: bool, now: int, evs: seq<Event>, x: int, n: nat, c: Config)
    requires c.threshold >= 1 && c.window > 0 && c.cooldown >= 2 * c.window - 1
    requires LongInv(rec, armed, now, x, n, c)
    requires Ordered(now, evs) && Serial(armed, rec, evs, c) && NoReset(evs)
    ensures n + CountIn(evs, x, x + c.window) <= Cap(c)
    decreases |evs|
  {
    if evs != [] {
      var ev := evs[0];
      assert forall i :: 0 <= i < |evs| - 1 ==> evs[1..][i] == evs[i + 1];
      LongStep(rec, armed, now, ev, x, n, c);
      LongFrom(After(rec, ev, c), Arms(armed, rec, ev), Later(now, ev), evs[1..], x,
               n + (if ev.Fail? && x <= ev.t < x + c.window then 1 else 0), c);
    }
  }

  /** With a cooldown of two windows or more, one failure less: 8 with the production constants. */
  lemma BurstBoundLong(evs: seq<Event>, start: int, x: int, c: Config)
    requires c.threshold >= 1 && c.window > 0 && c.cooldown >= 2 * c.window - 1
    requires SerialRun(evs, start, c)
    ensures Stretch(evs, x, c) <= Cap(c)
  {
    LongFrom(None, false, start, evs, x, 0, c);
  }

  /** The most failures of a source that fit into one window, exactly. */
  function Most(c: Config): int {
    if c.cooldown <= 2 * c.window - 2 then 2 * c.threshold - 1 else Cap(c)
  }

  lemma BurstMaximum(c: Config)
    requires c.threshold >= 1 && 2 <= c.window <= c.cooldown
    ensures forall evs, start, x :: SerialRun(evs, start, c) ==> Stretch(evs, x, c) <= Most(c)
    ensures exists evs, start, x :: SerialRun(evs, start, c) && Stretch(evs, x, c) == Most(c)
  {
    forall evs, start, x | SerialRun(evs, start, c)
      ensures Stretch(evs, x, c) <= Most(c)
    {
      if c.cooldown <= 2 * c.window - 2 {
        BurstBound(evs, start, x, c);
      } else {
        BurstBoundLong(evs, start, x, c);
      }
    }
    if c.cooldown <= 2 * c.window - 2 {
      BurstBoundAttained(c);
    } else {
      LongBoundAttained(c);
    }
  }

  /** And that many come about, whatever the cooldown: threshold - 2 at the end of a window whose first
      failure is too old to count, and threshold right after it. */
  lemma LongBoundAttained(c: Config)
    requires c.threshold >= 1 && c.window >= 2
    ensures exists evs, start, x :: SerialRun(evs, start, c) && Stretch(evs, x, c) == Cap(c)
  {
    var w, th := c.window, c.threshold;
    if th == 1 {
      OneBurst(w, c);
    } else {
      BurstRuns(0, th, w + 1, w + 1, Some(Rec(th - 1, Some(0), None)), [], w, c);
      BurstRuns(1, th - 2, 0, w, Some(Rec(1, Some(0), None)), Burst(th, w + 1) + [], w, c);
      var evs := FirstFailure(Burst(th - 2, w) + (Burst(th, w + 1) + []), w, c);
      assert SerialRun(evs, 0, c) && Stretch(evs, w, c) == 2 * th - 2;
    }
  }

  /** A run with one more event in front. */
  lemma Cons(start: int, armed: bool, rec: Option<Rec>, ev: Event, rest: seq<Event>, x: int, c: Config)
    returns (evs: seq<Event>)
    requires InOrder(start, ev) && Ordered(Later(start, ev), rest)
    requires !ev.Reset? && NoReset(rest)
    requires (ev.Fail? ==> armed) && Serial(Arms(armed, rec, ev), After(rec, ev, c), rest, c)
    ensures evs == [ev] + rest
    ensures Ordered(start, evs) && NoReset(evs) && Serial(armed, rec, evs, c)
    ensures Stretch(evs, x, c) == Stretch(rest, x, c) + if ev.Fail? && x <= ev.t < x + c.window then 1 else 0
  {
    evs := [ev] + rest;
    assert evs[1..] == rest;
  }

  /** k requests at time t, each let through and failing. */
  function Burst(k: nat, t: int): seq<Event> {
    if k == 0 then [] else [Check(t), Fail(t)] + Burst(k - 1, t)
  }

  /** The condition cooldown >= window is exactly what the bound needs: with a shorter cooldown a second
      full round of failures fits into the same stretch. */
  lemma BurstBoundExact(c: Config)
    requires c.threshold >= 1 && c.window > 0
    ensures c.cooldown >= c.window <==>
      forall evs, start, x :: SerialRun(evs, start, c) ==> Stretch(evs, x, c) <= 2 * c.threshold - 1
  {
    if c.cooldown >= c.window {
      forall evs, start, x | SerialRun(evs, start, c)
        ensures Stretch(evs, x, c) <= 2 * c.threshold - 1
      {
        BurstBound(evs, start, x, c);
      }
    } else {
      var u := if c.cooldown > 0 then c.cooldown else 0;
      var th := c.threshold;
      var second := Burst(th, u) + [];
      BurstRuns(0, th, u, u, Some(Full(0, 0, c)), [], 0, c);
      assert second[0] == Check(u);
      var evs := Burst(th, 0) + second;
      BurstRuns(0, th, 0, 0, None, second, 0, c);
      assert SerialRun(evs, 0, c);
      assert Stretch(evs, 0, c) == 2 * th;
    }
  }

  /** A record that began at f and whose threshold was reached at t. */
  function Full(f: int, t: int, c: Config): Rec {
    Rec(if c.threshold >= 0 then c.threshold else 0, Some(f), Some(t + c.cooldown))
  }

  /** The record of j failures, the first at f and the last at t. */
  function Counting(j: nat, f: int, t: int, c: Config): Rec {
    if j < c.threshold then Rec(j, Some(f), None) else Full(f, t, c)
  }

  /** j failures so far in a window that began at f; with none, the next one begins it. */
  predicate InBurst(j: nat, f: int, t: int, rec: Option<Rec>, c: Config) {
    && f <= t <= f + c.window
    && if j == 0 then f == t && !Limited(rec, t) && Recorded(Checked(rec, t), t, c) == Recorded(None, t, c)
       else rec == Some(Counting(j, f, t, c))
  }

  lemma OneMore(j: nat, f: int, t: int, rec: Option<Rec>, c: Config)
    requires j < c.threshold && InBurst(j, f, t, rec, c)
    ensures !Limited(rec, t) && InBurst(j + 1, f, t, Some(Recorded(Checked(rec, t), t, c)), c)
  {
  }

  /** A burst of k failures after j of its window: it is serialised, and its record counts j + k. */
  lemma {:induction false} BurstRuns(j: nat, k: nat, f: int, t: int, rec: Option<Rec>, tail: seq<Event>, x: int, c: Config)
    requires j + k <= c.threshold && j + k > 0
    requires InBurst(j, f, t, rec, c)
    requires Ordered(t, tail) && Serial(false, Some(Counting(j + k, f, t, c)), tail, c) && NoReset(tail)
    ensures var evs := Burst(k, t) + tail;
      && Ordered(t, evs) && Serial(false, rec, evs, c) && NoReset(evs)
      && Stretch(evs, x, c) == Stretch(tail, x, c) + if x <= t < x + c.window then k else 0
    decreases k
  {
    if k == 0 {
      assert Burst(k, t) + tail == tail;
    } else {
      var rec' := Some(Recorded(Checked(rec, t), t, c));
      OneMore(j, f, t, rec, c);
      BurstRuns(j + 1, k - 1, f, t, rec', tail, x, c);
      var rest := Cons(t, true, Checked(rec, t), Fail(t), Burst(k - 1, t) + tail, x, c);
      var all := Cons(t, false, rec, Check(t), rest, x, c);
      BurstFirst(k, t, tail);
    }
  }

  lemma BurstFirst(k: nat, t: int, tail: seq<Event>)
    requires k > 0
    ensures Burst(k, t) + tail == [Check(t)] + ([Fail(t)] + (Burst(k - 1, t) + tail))
  {
  }

  // ---------------------------------------------------------------- what a block means

  /** The times of the recorded failures. */
  function FailTimes(evs: seq<Event>): seq<int>
    decreases |evs|
  {
    if evs == [] then []
    else FailTime(evs[0]) + FailTimes(evs[1..])
  }

  function FailTime(ev: Event): seq<int> {
    if ev.Fail? then [ev.t] else []
  }

  predicate UpTo(times: seq<int>, t: int) {
    forall i :: 0 <= i < |times| ==> times[i] <= t
  }

  /** The record describes the last failures in the history: they began at first and fell within one
      window of it, and the block was tripped by the threshold-th of them. */
  ghost predicate Describes(rec: Option<Rec>, fails: seq<int>, c: Config)
    requires c.threshold >= 1
  {
    rec.Some? ==>
      var r := rec.value;
      var k := |fails| - r.count;
      && 1 <= r.count <= |fails|
      && r.first == Some(fails[k])
      && (r.count == 1 || c.window >= 0)
      && (forall i :: k <= i < |fails| ==> fails[k] <= fails[i])
      && (forall i :: k < i < |fails| ==> fails[i] <= fails[k] + c.window)
      && (r.blocked.Some? ==> r.count >= c.threshold && r.blocked.value == fails[k + c.threshold - 1] + c.cooldown)
      && (r.blocked.None? ==> r.count < c.threshold)
  }

  lemma RecordedDescribes(rec: Option<Rec>, fails: seq<int>, t: int, c: Config)
    requires c.threshold >= 1 && Describes(rec, fails, c)
    requires UpTo(fails, t)
    ensures Describes(Some(Recorded(rec, t, c)), fails + [t], c)
  {
    if rec.Some? {
      var k := |fails| - rec.value.count;
      assert forall i :: 0 <= i < |fails| ==> (fails + [t])[i] == fails[i];
      assert fails[k] <= t;
    }
  }

  lemma StepDescribes(rec: Option<Rec>, fails: seq<int>, now: int, ev: Event, c: Config)
    requires c.threshold >= 1 && Describes(rec, fails, c) && UpTo(fails, now) && InOrder(now, ev)
    ensures Describes(After(rec, ev, c), fails + FailTime(ev), c) && UpTo(fails + FailTime(ev), Later(now, ev))
  {
    if ev.Fail? {
      RecordedDescribes(rec, fails, ev.t, c);
    } else {
      assert fails + FailTime(ev) == fails;
    }
  }

  lemma {:induction false} RunDescribes(rec: Option<Rec>, fails: seq<int>, now: int, evs: seq<Event>, c: Config)
    requires c.threshold >= 1 && Describes(rec, fails, c) && UpTo(fails, now) && Ordered(now, evs)
    ensures Describes(Run(rec, evs, c), fails + FailTimes(evs), c)
    decreases |evs|
  {
    if evs == [] {
      assert fails + FailTimes(evs) == fails;
    } else {
      StepDescribes(rec, fails, now, evs[0], c);
      RunDescribes(After(rec, evs[0], c), fails + FailTime(evs[0]), Later(now, evs[0]), evs[1..], c);
      FailTimesFirst(fails, evs);
    }
  }

  lemma FailTimesFirst(fails: seq<int>, evs: seq<Event>)
    requires evs != []
    ensures fails + FailTimes(evs) == (fails + FailTime(evs[0])) + FailTimes(evs[1..])
  {
  }

  /** RunDescribes for a source that starts without a record. */
  lemma HistoryDescribes(start: int, evs: seq<Event>, t: int, c: Config)
    requires c.threshold >= 1 && Ordered(start, evs) && Last(start, evs) <= t
    ensures Describes(Run(None, evs, c), FailTimes(evs), c) && UpTo(FailTimes(evs), t)
  {
    RunDescribes(None, [], start, evs, c);
    FailsBeforeLast(start, evs);
    assert [] + FailTimes(evs) == FailTimes(evs);
  }

  lemma {:induction false} FailsBeforeLast(now: int, evs: seq<Event>)
    requires Ordered(now, evs)
    ensures UpTo(FailTimes(evs), Last(now, evs))
    decreases |evs|
  {
    if evs != [] {
      OrderedLast(Later(now, evs[0]), evs[1..]);
      FailsBeforeLast(Later(now, evs[0]), evs[1..]);
    }
  }

  /** The clock after all events. */
  function Last(now: int, evs: seq<Event>): int
    decreases |evs|
  {
    if evs == [] then now else Last(Later(now, evs[0]), evs[1..])
  }

  /** Blocks are earned and expire: a source reported limited at t has `threshold` consecutive recorded
      failures within one window, the last of them less than the cooldown before t. This needs no
      serialisation and survives sweeps and Cleanup. */
  lemma BlocksAreEarned(evs: seq<Event>, start: int, t: int, c: Config)
    requires c.threshold >= 1 && Ordered(start, evs) && Last(start, evs) <= t
    requires Limited(Run(None, evs, c), t)
    ensures exists k: nat :: EarnedAt(FailTimes(evs), k, t, c)
  {
    HistoryDescribes(start, evs, t, c);
    DescribedIsEarned(Run(None, evs, c), FailTimes(evs), t, c);
  }

  lemma DescribedIsEarned(rec: Option<Rec>, fails: seq<int>, t: int, c: Config)
    requires c.threshold >= 1 && Describes(rec, fails, c) && UpTo(fails, t) && Limited(rec, t)
    ensures EarnedAt(fails, |fails| - rec.value.count, t, c)
  {
  }

  predicate EarnedAt(fails: seq<int>, k: nat, t: int, c: Config)
    requires c.threshold >= 1
  {
    var trip := k + c.threshold - 1;
    && trip < |fails|
    && (trip == k || fails[trip] - fails[k] <= c.window)
    && fails[trip] <= t < fails[trip] + c.cooldown
  }

  lemma {:induction false} OrderedLast(now: int, evs: seq<Event>)
    ensures now <= Last(now, evs)
    decreases |evs|
  {
    if evs != [] {
      OrderedLast(Later(now, evs[0]), evs[1..]);
    }
  }

  /** The source is limited after every one of the events. */
  predicate LimitedThroughout(rec: Option<Rec>, evs: seq<Event>, c: Config)
    decreases |evs|
  {
    evs == [] ||
    (Limited(After(rec, evs[0], c), evs[0].t) && LimitedThroughout(After(rec, evs[0], c), evs[1..], c))
  }

  /** A failure is recorded when the window that began at `first` is over. */
  predicate LateFailure(first: int, evs: seq<Event>, c: Config) {
    exists i :: 0 <= i < |evs| && evs[i].Fail? && evs[i].t - first > c.window
  }

  /** A record whose block lasts at least until first failure + cooldown. */
  predicate Blocking(rec: Rec, now: int, c: Config) {
    && rec.first.Some? && rec.first.value <= now
    && rec.blocked.Some? && rec.first.value + c.cooldown <= rec.blocked.value
    && rec.count >= c.threshold
  }

  /** One event before first failure + cooldown. */
  lemma BlockedStep(rec: Rec, now: int, ev: Event, c: Config)
    requires c.threshold >= 1 && Blocking(rec, now, c) && !ev.Reset?
    requires InOrder(now, ev) && Later(now, ev) < rec.first.value + c.cooldown
    ensures var late := ev.Fail? && ev.t - rec.first.value > c.window;
      var rec' := After(Some(rec), ev, c);
      && rec'.Some?
      && (!late ==> rec'.value.first == rec.first && Blocking(rec'.value, Later(now, ev), c) && Limited(rec', ev.t))
      && (late && c.threshold == 1 ==> rec'.value.first == Some(ev.t) && Blocking(rec'.value, ev.t, c) && Limited(rec', ev.t))
      && (late && c.threshold > 1 ==> !Limited(rec', ev.t))
  {
  }

  /** How long a block lasts, exactly: before first failure + cooldown the source is limited after every
      event, requests that were let through before the trip included, just when none of them records a
      failure after the window of the first one. With threshold 1 such a failure blocks anew. */
  lemma {:induction false} BlockLastsExactly(rec: Rec, now: int, evs: seq<Event>, c: Config)
    requires c.threshold >= 1 && Blocking(rec, now, c)
    requires Ordered(now, evs) && NoReset(evs) && Last(now, evs) < rec.first.value + c.cooldown
    ensures LimitedThroughout(Some(rec), evs, c) <==> c.threshold == 1 || !LateFailure(rec.first.value, evs, c)
    ensures c.threshold == 1 || !LateFailure(rec.first.value, evs, c) ==>
      forall t :: Last(now, evs) <= t < rec.first.value + c.cooldown ==> Limited(Run(Some(rec), evs, c), t)
    decreases |evs|
  {
    if evs != [] {
      var ev, rest := evs[0], evs[1..];
      OrderedLast(Later(now, evs[0]), evs[1..]);
      BlockedStep(rec, now, ev, c);
      LateFirst(rec.first.value, evs, c);
      assert forall i :: 0 <= i < |rest| ==> rest[i] == evs[i + 1];
      var rec' := After(Some(rec), ev, c).value;
      if !(ev.Fail? && ev.t - rec.first.value > c.window) || c.threshold == 1 {
        BlockLastsExactly(rec', Later(now, ev), rest, c);
      }
    }
  }

  lemma LateFirst(first: int, evs: seq<Event>, c: Config)
    requires evs != []
    ensures LateFailure(first, evs, c) <==>
      (evs[0].Fail? && evs[0].t - first > c.window) || LateFailure(first, evs[1..], c)
  {
    var rest := evs[1..];
    assert forall i :: 0 <= i < |rest| ==> rest[i] == evs[i + 1];
    if LateFailure(first, evs, c) {
      var i :| 0 <= i < |evs| && evs[i].Fail? && evs[i].t - first > c.window;
      assert i > 0 ==> rest[i - 1] == evs[i];
    }
    if LateFailure(first, rest, c) {
      var i :| 0 <= i < |rest| && rest[i].Fail? && rest[i].t - first > c.window;
      assert evs[i + 1] == rest[i];
    }
  }

  /** Serialised requests record no failure at all while the block stands. */
  lemma {:induction false} SerialNeverLate(rec: Rec, now: int, evs: seq<Event>, c: Config)
    requires c.threshold >= 1 && Blocking(rec, now, c)
    requires Ordered(now, evs) && NoReset(evs) && Last(now, evs) < rec.first.value + c.cooldown
    requires Serial(false, Some(rec), evs, c)
    ensures !LateFailure(rec.first.value, evs, c)
    decreases |evs|
  {
    if evs != [] {
      OrderedLast(Later(now, evs[0]), evs[1..]);
      BlockedStep(rec, now, evs[0], c);
      LateFirst(rec.first.value, evs, c);
      assert forall i :: 0 <= i < |evs| - 1 ==> evs[1..][i] == evs[i + 1];
      SerialNeverLate(After(Some(rec), evs[0], c).value, Later(now, evs[0]), evs[1..], c);
    }
  }

  /** When a run trips a block, the source stays limited until first failure + cooldown, which leaves at
      least cooldown - window from the failure that tripped it, through all that follows without a late
      failure; for serialised requests, through all that follows. */
  lemma BlockLasts(evs: seq<Event>, start: int, trip: int, later: seq<Event>, t: int, c: Config)
    requires c.threshold >= 1 && Ordered(start, evs) && Last(start, evs) <= trip
    requires var rec := Run(None, evs, c);
      && (rec.Some? ==> rec.value.blocked.None?)
      && Recorded(rec, trip, c).blocked.Some?
    requires var rec := Recorded(Run(None, evs, c), trip, c);
      && Ordered(trip, later) && NoReset(later)
      && Last(trip, later) <= t < rec.first.value + c.cooldown
      && (c.threshold == 1 || !LateFailure(rec.first.value, later, c) || Serial(false, Some(rec), later, c))
    ensures Limited(Run(Some(Recorded(Run(None, evs, c), trip, c)), later, c), t)
    ensures var rec := Recorded(Run(None, evs, c), trip, c);
      rec.blocked == Some(trip + c.cooldown) && (c.window >= 0 ==> trip + c.cooldown - c.window <= rec.first.value + c.cooldown)
  {
    HistoryDescribes(start, evs, trip, c);
    RecordedDescribes(Run(None, evs, c), FailTimes(evs), trip, c);
    TripBlocks(Run(None, evs, c), FailTimes(evs), trip, c);
    var rec := Recorded(Run(None, evs, c), trip, c);
    if Serial(false, Some(rec), later, c) {
      SerialNeverLate(rec, trip, later, c);
    }
    BlockLastsExactly(rec, trip, later, c);
  }

  lemma TripBlocks(rec: Option<Rec>, fails: seq<int>, trip: int, c: Config)
    requires c.threshold >= 1 && Describes(rec, fails, c) && UpTo(fails, trip)
    requires (rec.Some? ==> rec.value.blocked.None?) && Recorded(rec, trip, c).blocked.Some?
    ensures Blocking(Recorded(rec, trip, c), trip, c)
  {
  }

  /** A late failure is possible only when requests overlap: of the two requests checked at 0, both let
      through, one fails at once, and the other at 11, after the block was tripped and after the window. */
  lemma UnserialisedLiftsBlock()
    ensures var c := Config(2, 10, 60);
      var evs := [Check(0), Check(0), Fail(0), Check(1), Fail(1)];
      && Run(None, evs, c) == Some(Rec(2, Some(0), Some(61)))
      && Limited(Run(None, evs, c), 2)
      && !LimitedThroughout(Run(None, evs, c), [Fail(11)], c) && 11 < 0 + c.cooldown
  {
    var c := Config(2, 10, 60);
    var one, full := Some(Rec(1, Some(0), None)), Rec(2, Some(0), Some(61));
    var e1, e2, e3, e4 := [Fail(1)], [Check(1), Fail(1)], [Fail(0), Check(1), Fail(1)], [Check(0), Fail(0), Check(1), Fail(1)];
    var evs := [Check(0), Check(0), Fail(0), Check(1), Fail(1)];
    assert evs[1..] == e4 && e4[1..] == e3 && e3[1..] == e2 && e2[1..] == e1 && e1[1..] == [];
    assert Run(one, e2, c) == Run(one, e1, c) == Some(full);
    assert Run(None, evs, c) == Run(None, e4, c) == Run(None, e3, c) == Run(one, e2, c);
    assert [Fail(11)][0].Fail? && LateFailure(0, [Fail(11)], c);
    BlockLastsExactly(full, 1, [Fail(11)], c);
  }

  // ---------------------------------------------------------------- the sweeper

  /** What the callers see: the answers of isRateLimited. */
  function Answers(rec: Option<Rec>, evs: seq<Event>, c: Config): seq<bool>
    decreases |evs|
  {
    if evs == [] then []
    else (if evs[0].Check? then [Limited(rec, evs[0].t)] else []) + Answers(After(rec, evs[0], c), evs[1..], c)
  }

  /** A record that no longer matters: its window is over and it does not block. */
  predicate Stale(rec: Rec, now: int, c: Config) {
    rec.first.Some? && now - rec.first.value > c.window && !Limited(Some(rec), now)
  }

  /** The bisimulation: equal, or one is gone and the other stale. */
  predicate Alike(a: Option<Rec>, b: Option<Rec>, now: int, c: Config) {
    a == b || (a == None && Stale(b.value, now, c)) || (b == None && Stale(a.value, now, c))
  }

  lemma AlikeStep(a: Option<Rec>, b: Option<Rec>, now: int, ev: Event, c: Config)
    requires Alike(a, b, now, c) && InOrder(now, ev)
    ensures Alike(After(a, ev, c), After(b, ev, c), Later(now, ev), c)
    ensures !ev.Tick? ==> Limited(a, ev.t) == Limited(b, ev.t)
  {
  }

  lemma {:induction false} AlikeForever(a: Option<Rec>, b: Option<Rec>, now: int, evs: seq<Event>, c: Config)
    requires Alike(a, b, now, c) && Ordered(now, evs)
    ensures Answers(a, evs, c) == Answers(b, evs, c)
    decreases |evs|
  {
    if evs != [] {
      AlikeStep(a, b, now, evs[0], c);
      AlikeForever(After(a, evs[0], c), After(b, evs[0], c), Later(now, evs[0]), evs[1..], c);
    }
  }

  lemma OneAnswer(rec: Option<Rec>, now: int, c: Config)
    ensures Ordered(now, [Check(now)]) && Answers(rec, [Check(now)], c) == [Limited(rec, now)]
  {
    var evs := [Check(now)];
    var rec' := After(rec, evs[0], c);
    assert evs[1..] == [] && Answers(rec', [], c) == [];
    assert Answers(rec, evs, c) == [Limited(rec, now)] + Answers(rec', evs[1..], c);
  }

  /** A sweep that removes a record is unobservable, in every later sequence of operations, exactly when
      the record was not blocking at the time, however old the sweeper's own reading of it. */
  lemma SweepUnobservableExactly(rec: Rec, tick: int, now: int, c: Config)
    requires c.cooldown >= c.window && tick <= now && Swept(Some(rec), tick, c) == None
    ensures !Limited(Some(rec), now) <==>
      forall evs :: Ordered(now, evs) ==> Answers(Some(rec), evs, c) == Answers(None, evs, c)
  {
    if !Limited(Some(rec), now) {
      forall evs | Ordered(now, evs)
        ensures Answers(Some(rec), evs, c) == Answers(None, evs, c)
      {
        AlikeForever(Some(rec), None, now, evs, c);
      }
    } else {
      OneAnswer(Some(rec), now, c);
      OneAnswer(None, now, c);
      var evs := [Check(now)];
      assert Ordered(now, evs) && Answers(Some(rec), evs, c) != Answers(None, evs, c);
    }
  }
}
