/** The limiter's table of sources as the HTTP handler keeps it (modules/handler/handler.go), and the order
    in which a CONNECT request uses it. */
module Handler {
  import opened Prelude
  import opened Limiter

  // ---------------------------------------------------------------- the table as a value

  type Table = map<string, Rec>

  function Get(m: Table, addr: string): Option<Rec> {
    if addr in m then Some(m[addr]) else None
  }

  function Put(m: Table, addr: string, r: Option<Rec>): Table {
    if r.Some? then m[addr := r.value] else m - {addr}
  }

  /** A call on the handler: isRateLimited, recordFailure, cleanupTick, Cleanup. */
  datatype Call = Access(addr: string, t: int) | Failure(addr: string, t: int) | Sweep(t: int) | Clear(t: int)

  function Apply(m: Table, call: Call, c: Config): Table {
    match call
    case Access(addr, t) => if addr == "" then m else Put(m, addr, Checked(Get(m, addr), t))
    case Failure(addr, t) => if addr == "" then m else m[addr := Recorded(Get(m, addr), t, c)]
    case Sweep(t) => map a | a in m && Swept(Some(m[a]), t, c).Some? :: m[a]
    case Clear(_) => map[]
  }

  function ApplyAll(m: Table, calls: seq<Call>, c: Config): Table
    decreases |calls|
  {
    if calls == [] then m else ApplyAll(Apply(m, calls[0], c), calls[1..], c)
  }

  /** What a call is to the record of one source. */
  function EventOf(call: Call, addr: string): seq<Event> {
    match call
    case Access(a, t) => if a == addr then [Check(t)] else []
    case Failure(a, t) => if a == addr then [Fail(t)] else []
    case Sweep(t) => [Tick(t)]
    case Clear(t) => [Reset(t)]
  }

  function EventsOf(calls: seq<Call>, addr: string): seq<Event>
    decreases |calls|
  {
    if calls == [] then [] else EventOf(calls[0], addr) + EventsOf(calls[1..], addr)
  }

  lemma ApplyAt(m: Table, call: Call, addr: string, c: Config)
    requires addr != ""
    ensures var evs := EventOf(call, addr);
      Get(Apply(m, call, c), addr) == if evs == [] then Get(m, addr) else After(Get(m, addr), evs[0], c)
  {
  }

  lemma RunFrom(rec: Option<Rec>, first: seq<Event>, rest: seq<Event>, c: Config)
    requires |first| <= 1
    ensures Run(rec, first + rest, c) == Run(if first == [] then rec else After(rec, first[0], c), rest, c)
  {
    if first == [] {
      assert first + rest == rest;
    } else {
      assert (first + rest)[1..] == rest;
    }
  }

  /** Sources do not interfere: in any run of the whole table, the record of a source is the outcome of
      its own events alone. */
  lemma {:induction false} SourcesIndependent(m: Table, calls: seq<Call>, addr: string, c: Config)
    requires addr != ""
    ensures Get(ApplyAll(m, calls, c), addr) == Run(Get(m, addr), EventsOf(calls, addr), c)
    decreases |calls|
  {
    if calls != [] {
      SourcesIndependent(Apply(m, calls[0], c), calls[1..], addr, c);
      ApplyAt(m, calls[0], addr, c);
      RunFrom(Get(m, addr), EventOf(calls[0], addr), EventsOf(calls[1..], addr), c);
    }
  }

  /** Every record has its first failure. */
  predicate Begun(m: Table) {
    forall a :: a in m ==> m[a].first.Some?
  }

  lemma {:induction false} CallsKeepBegun(m: Table, calls: seq<Call>, c: Config)
    requires Begun(m)
    ensures Begun(ApplyAll(m, calls, c))
    decreases |calls|
  {
    if calls != [] {
      CallKeepsBegun(m, calls[0], c);
      CallsKeepBegun(Apply(m, calls[0], c), calls[1..], c);
    }
  }

  lemma CallKeepsBegun(m: Table, call: Call, c: Config)
    requires Begun(m)
    ensures Begun(Apply(m, call, c))
  {
  }

  /** A sweep keeps the table small: of the sources in it, after any calls, it leaves exactly those whose
      window began no longer than the cooldown ago, with their records untouched, blocking or not. */
  lemma SweepLeavesExactly(calls: seq<Call>, t: int, addr: string, c: Config)
    ensures var m := ApplyAll(map[], calls, c); var m' := Apply(m, Sweep(t), c);
      && (addr in m' <==> addr in m && m[addr].first.Some? && t - m[addr].first.value <= c.cooldown)
      && (addr in m' ==> m'[addr] == m[addr])
  {
    CallsKeepBegun(map[], calls, c);
  }

  // ---------------------------------------------------------------- the table in the heap

  class FailRecord {
    var count: nat
    var firstFailure: Option<int>
    var blockedUntil: Option<int>

    constructor ()
      ensures View() == Rec(0, None, None)
    {
      count, firstFailure, blockedUntil := 0, None, None;
    }

    ghost function View(): Rec
      reads this
    {
      Rec(count, firstFailure, blockedUntil)
    }

    /** One more failure, in a new window if the old one is over. */
    method Count(now: int, cfg: Config)
      modifies this
      ensures View() == Recorded(Some(old(View())), now, cfg)
    {
      if firstFailure == None || now - firstFailure.value > cfg.window {
        count := 0;
        firstFailure := Some(now);
        blockedUntil := None;
      }
      count := count + 1;
      if count >= cfg.threshold && blockedUntil == None {
        blockedUntil := Some(now + cfg.cooldown);
      }
    }
  }

  /** The cleanup goroutine: started by the first failure, stopped by Cleanup, never started again. */
  datatype Sweeper = Idle | Running | Stopped

  /** strings.TrimPrefix(header, "Basic ") */
  function TrimBasic(header: string): string {
    if |header| >= 6 && header[..6] == "Basic " then header[6..] else header
  }

  /** A key sent with the prefix and one sent without it come out the same. */
  lemma KeyBehindBasic(key: string)
    ensures TrimBasic("Basic " + key) == key
    ensures !IsPrefix("Basic ", key) ==> TrimBasic(key) == key
  {
    assert ("Basic " + key)[..6] == "Basic ";
  }

  class ConnectLimiter {
    const failThreshold: int
    const failWindow: int
    const failCooldown: int
    var failState: map<string, FailRecord>
    var sweeper: Sweeper

    constructor (threshold: int, window: int, cooldown: int)
      ensures Valid() && View() == map[] && sweeper == Idle
      ensures Cfg() == FailCfg(threshold, window, cooldown)
    {
      failThreshold, failWindow, failCooldown := threshold, window, cooldown;
      failState, sweeper := map[], Idle;
    }

    /** No two sources share a record. */
    ghost predicate Valid()
      reads this`failState
    {
      forall a, b :: a in failState && b in failState && a != b ==> failState[a] != failState[b]
    }

    ghost function View(): Table
      reads this`failState, failState.Values
    {
      map a | a in failState :: failState[a].View()
    }

    function Cfg(): Config {
      FailCfg(failThreshold, failWindow, failCooldown)
    }

    method SpawnCleanupLoop()
      modifies this`sweeper
      ensures sweeper == if old(sweeper) == Idle then Running else old(sweeper)
    {
      if sweeper == Idle {
        sweeper := Running;
      }
    }

    /** The record of addr, a new one if there is none. */
    method RecordOf(addr: string) returns (rec: FailRecord)
      requires Valid()
      modifies this`failState
      ensures Valid() && failState == old(failState)[addr := rec]
      ensures rec in old(failState.Values) || fresh(rec)
      ensures rec.View() == Get(old(View()), addr).GetOr(Rec(0, None, None))
      ensures View() == old(View())[addr := rec.View()]
    {
      if addr in failState {
        rec := failState[addr];
      } else {
        rec := new FailRecord();
        failState := failState[addr := rec];
      }
    }

    /** One more failure of addr in the table. */
    method RecordAt(addr: string, now: int, cfg: Config)
      requires Valid()
      modifies this`failState, failState.Values
      ensures Valid() && View() == old(View())[addr := Recorded(Get(old(View()), addr), now, cfg)]
      ensures failState.Keys == old(failState.Keys) + {addr}
      ensures forall a :: a in failState && a != addr ==> failState[a] == old(failState)[a]
      ensures failState[addr] in old(failState.Values) || fresh(failState[addr])
    {
      ghost var m := View();
      var rec := RecordOf(addr);
      ghost var m1 := View();
      CountAt(addr, rec, now, cfg);
      assert View() == m1[addr := Recorded(Get(m, addr), now, cfg)];
    }

    /** Count a failure in the record of addr; the other records stay. */
    method CountAt(addr: string, rec: FailRecord, now: int, cfg: Config)
      requires Valid() && addr in failState && failState[addr] == rec
      modifies rec
      ensures Valid() && View() == old(View())[addr := Recorded(Some(old(rec.View())), now, cfg)]
    {
      rec.Count(now, cfg);
    }

    method RecordFailure(addr: string, now: int)
      requires Valid()
      modifies this, failState.Values
      ensures Valid() && View() == Apply(old(View()), Failure(addr, now), Cfg())
      ensures forall r :: r in failState.Values ==> r in old(failState.Values) || fresh(r)
      ensures sweeper == if addr != "" && old(sweeper) == Idle then Running else old(sweeper)
    {
      if addr == "" {
        return;
      }
      var cfg := Cfg();
      SpawnCleanupLoop();
      RecordAt(addr, now, cfg);
    }

    method IsRateLimited(addr: string, now: int) returns (limited: bool)
      requires Valid()
      modifies this`failState
      ensures Valid() && View() == Apply(old(View()), Access(addr, now), Cfg())
      ensures limited <==> addr != "" && Limited(Get(old(View()), addr), now)
      ensures failState.Values <= old(failState.Values)
    {
      if addr == "" || addr !in failState {
        return false;
      }
      var rec := failState[addr];
      if rec.blockedUntil == None {
        return false;
      }
      if now < rec.blockedUntil.value {
        return true;
      }
      failState := failState - {addr};
      limited := false;
    }

    method CleanupTick(now: int)
      requires Valid()
      modifies this`failState
      ensures Valid() && View() == Apply(old(View()), Sweep(now), Cfg())
      ensures failState.Values <= old(failState.Values)
    {
      var cfg := Cfg();
      ghost var table := failState;
      var todo := failState.Keys;
      while todo != {}
        invariant todo <= failState.Keys <= table.Keys
        invariant forall a :: a in failState ==> failState[a] == table[a]
        invariant forall a :: a in table && a !in todo ==>
          (a in failState <==> Swept(Some(table[a].View()), now, cfg).Some?)
        decreases todo
      {
        var a :| a in todo;
        todo := todo - {a};
        var rec := failState[a];
        if rec.firstFailure != None && now - rec.firstFailure.value > cfg.cooldown {
          failState := failState - {a};
        }
      }
    }

    method Cleanup()
      modifies this
      ensures Valid() && View() == map[]
      ensures sweeper == if old(sweeper) == Running then Stopped else old(sweeper)
    {
      if sweeper == Running {
        sweeper := Stopped;
      }
      failState := map[];
    }

    /** A request of the given method and HTTP version from addr, with its Proxy-Authorization header;
        `enabled` is the handler's connect switch. The clock reads t1 at the check and t2 when a failure is
        recorded. An offender goes past the credential check altogether. */
    method ServeConnect(enabled: bool, verb: string, major: nat, addr: string, header: string,
                        validate: string -> bool, t1: int, t2: int)
      returns (tunnelled: bool)
      requires Valid()
      modifies this, failState.Values
      ensures Valid()
      ensures var applies := enabled && verb == "CONNECT" && major != 1;
        var limited := addr != "" && Limited(Get(old(View()), addr), t1);
        var auth := TrimBasic(header);
        var failed := if limited || tunnelled then [] else [Failure(addr, t2)];
        && (tunnelled <==> applies && !limited && |auth| == HEADER_LEN && validate(auth))
        && View() == ApplyAll(old(View()), if applies then [Access(addr, t1)] + failed else [], Cfg())
    {
      if !(enabled && verb == "CONNECT") || major == 1 {
        return false;
      }
      var limited := IsRateLimited(addr, t1);
      ghost var m := View();
      ApplyTwo(old(View()), Access(addr, t1), Failure(addr, t2), Cfg());
      if limited {
        return false;
      }
      var auth := TrimBasic(header);
      if |auth| != HEADER_LEN {
        RecordFailure(addr, t2);
        return false;
      }
      if !validate(auth) {
        RecordFailure(addr, t2);
        return false;
      }
      tunnelled := true;
    }
  }

  lemma ApplyTwo(m: Table, a: Call, b: Call, c: Config)
    ensures ApplyAll(m, [a] + [], c) == Apply(m, a, c)
    ensures ApplyAll(m, [a] + [b], c) == Apply(Apply(m, a, c), b, c)
  {
    var m' := Apply(m, a, c);
    assert ApplyAll(m', [], c) == m';
    assert [a] + [] == [a] && [a][1..] == [];
    assert ([a] + [b])[1..] == [b] && [b][1..] == [];
    assert ApplyAll(m', [b], c) == ApplyAll(Apply(m', b, c), [], c) == Apply(m', b, c);
  }

  // ---------------------------------------------------------------- serialised requests

  /** The events of one request whose check comes at t1 and whose failure, if it fails, at t2. */
  function Attempt(rec: Option<Rec>, t1: int, t2: int, ok: bool): seq<Event> {
    [Check(t1)] + if Limited(rec, t1) || ok then [] else [Fail(t2)]
  }

  /** A source whose requests come one after the other makes a serialised run: any attempt may stand
      before a serialised rest. */
  lemma AttemptSerial(rec: Option<Rec>, t1: int, t2: int, ok: bool, rest: seq<Event>, armed: bool, c: Config)
    requires Serial(false, Run(rec, Attempt(rec, t1, t2, ok), c), rest, c)
    ensures Serial(armed, rec, Attempt(rec, t1, t2, ok) + rest, c)
  {
    var a := Attempt(rec, t1, t2, ok);
    var evs := a + rest;
    assert Run(Checked(rec, t1), a[1..], c) == Run(rec, a, c);
    if Limited(rec, t1) || ok {
      assert evs[1..] == rest && a[1..] == [];
      StillSerial(Checked(rec, t1), rest, c);
    } else {
      assert a[1..] == [Fail(t2)] && [Fail(t2)][1..] == [];
      assert evs[1..] == [Fail(t2)] + rest && evs[1..][1..] == rest;
      assert Run(Checked(rec, t1), a[1..], c) == Some(Recorded(Checked(rec, t1), t2, c));
      assert Serial(true, Checked(rec, t1), evs[1..], c);
    }
  }

  lemma {:induction false} StillSerial(rec: Option<Rec>, evs: seq<Event>, c: Config)
    requires Serial(false, rec, evs, c)
    ensures Serial(true, rec, evs, c)
    decreases |evs|
  {
    if evs != [] && !evs[0].Check? {
      StillSerial(After(rec, evs[0], c), evs[1..], c);
    }
  }

  // ---------------------------------------------------------------- many sources at once

  /** What can happen to the handler: a request arrives and is checked; one that was let through fails, or
      is tunnelled; the sweeper ticks. */
  datatype Move = Arrive(addr: string, t: int) | Refuse(addr: string, t: int) | Admit(addr: string) | Clean(t: int)

  /** The table and the sources with a request under way. */
  datatype Desk = Desk(table: Table, open: set<string>)

  function CallOf(mv: Move): seq<Call> {
    match mv
    case Arrive(addr, t) => [Access(addr, t)]
    case Refuse(addr, t) => [Failure(addr, t)]
    case Admit(_) => []
    case Clean(t) => [Sweep(t)]
  }

  function CallsOf(mvs: seq<Move>): seq<Call>
    decreases |mvs|
  {
    if mvs == [] then [] else CallOf(mvs[0]) + CallsOf(mvs[1..])
  }

  /** None when the move is not possible: the requests of one source come one after the other. */
  function Proceed(d: Desk, mv: Move, c: Config): Option<Desk> {
    match mv
    case Arrive(addr, t) =>
      if addr in d.open then None
      else
        var limited := addr != "" && Limited(Get(d.table, addr), t);
        Some(Desk(Apply(d.table, Access(addr, t), c), if limited then d.open else d.open + {addr}))
    case Refuse(addr, t) =>
      if addr in d.open then Some(Desk(Apply(d.table, Failure(addr, t), c), d.open - {addr})) else None
    case Admit(addr) =>
      if addr in d.open then Some(d.(open := d.open - {addr})) else None
    case Clean(t) => Some(d.(table := Apply(d.table, Sweep(t), c)))
  }

  predicate Possible(d: Desk, mvs: seq<Move>, c: Config)
    decreases |mvs|
  {
    mvs == [] || (Proceed(d, mvs[0], c).Some? && Possible(Proceed(d, mvs[0], c).value, mvs[1..], c))
  }

  /** The clock does not run backwards, except in the sweeper's older readings. */
  predicate InTime(from: int, mvs: seq<Move>)
    decreases |mvs|
  {
    mvs == [] || (MoveInTime(from, mvs[0]) && InTime(TimeAfter(from, mvs[0]), mvs[1..]))
  }

  predicate MoveInTime(from: int, mv: Move) {
    mv.Admit? || mv.Clean? || from <= mv.t
  }

  function TimeAfter(now: int, mv: Move): int {
    if !mv.Admit? && now < mv.t then mv.t else now
  }

  /** The record of one source before and after a move. */
  lemma ProceedAt(d: Desk, mv: Move, addr: string, c: Config)
    requires addr != "" && Proceed(d, mv, c).Some?
    ensures Get(Proceed(d, mv, c).value.table, addr) == Run(Get(d.table, addr), EventsOf(CallOf(mv), addr), c)
  {
    SourcesIndependent(d.table, CallOf(mv), addr, c);
    if !mv.Admit? {
      var call := CallOf(mv)[0];
      assert [call][1..] == [];
      assert ApplyAll(d.table, [call], c) == ApplyAll(Apply(d.table, call, c), [], c);
    }
  }

  /** What a move is to a source: nothing, or one event. */
  lemma EventOfMove(mv: Move, mvs: seq<Move>, addr: string)
    ensures EventsOf(CallOf(mv) + CallsOf(mvs), addr) == EventsOf(CallOf(mv), addr) + EventsOf(CallsOf(mvs), addr)
    ensures !mv.Admit? ==> EventsOf(CallOf(mv), addr) == EventOf(CallOf(mv)[0], addr)
    ensures mv.Admit? ==> EventsOf(CallOf(mv), addr) == []
  {
    var later := CallsOf(mvs);
    if mv.Admit? {
      assert CallOf(mv) + later == later;
    } else {
      var call := CallOf(mv)[0];
      assert (CallOf(mv) + later)[1..] == later && CallOf(mv)[1..] == [];
      assert EventsOf([], addr) == [];
    }
  }

  /** However the requests of many sources interleave, each source sees a serialised run of its own. */
  lemma {:induction false} EachSourceSerial(d: Desk, mvs: seq<Move>, now: int, addr: string, c: Config)
    requires addr != "" && Possible(d, mvs, c) && InTime(now, mvs)
    ensures var evs := EventsOf(CallsOf(mvs), addr);
      Serial(addr in d.open, Get(d.table, addr), evs, c) && Ordered(now, evs) && NoReset(evs)
    decreases |mvs|
  {
    if mvs != [] {
      var mv, d' := mvs[0], Proceed(d, mvs[0], c).value;
      var evs, later := EventsOf(CallsOf(mvs), addr), EventsOf(CallsOf(mvs[1..]), addr);
      EachSourceSerial(d', mvs[1..], TimeAfter(now, mv), addr, c);
      ProceedAt(d, mv, addr, c);
      EventOfMove(mv, mvs[1..], addr);
      FirstMove(d, mv, addr, later, now, c);
    }
  }

  /** One move in front of a serialised rest. */
  lemma FirstMove(d: Desk, mv: Move, addr: string, later: seq<Event>, now: int, c: Config)
    requires addr != "" && Proceed(d, mv, c).Some? && MoveInTime(now, mv)
    requires var d' := Proceed(d, mv, c).value;
      Serial(addr in d'.open, Get(d'.table, addr), later, c) && NoReset(later)
    requires Ordered(TimeAfter(now, mv), later)
    requires Get(Proceed(d, mv, c).value.table, addr) == Run(Get(d.table, addr), EventsOf(CallOf(mv), addr), c)
    requires EventsOf(CallOf(mv), addr) == if mv.Admit? then [] else EventOf(CallOf(mv)[0], addr)
    ensures var evs := EventsOf(CallOf(mv), addr) + later;
      Serial(addr in d.open, Get(d.table, addr), evs, c) && Ordered(now, evs) && NoReset(evs)
  {
    var first := EventsOf(CallOf(mv), addr);
    var rec, rec' := Get(d.table, addr), Get(Proceed(d, mv, c).value.table, addr);
    if first == [] {
      assert first + later == later && rec' == rec;
      if mv.Admit? && mv.addr == addr {
        StillSerial(rec, later, c);
      }
      OrderedEarlier(now, TimeAfter(now, mv), later);
    } else {
      assert (first + later)[1..] == later && first[1..] == [];
      assert rec' == Run(After(rec, first[0], c), [], c) == After(rec, first[0], c);
    }
  }

  lemma {:induction false} OrderedEarlier(now: int, from: int, evs: seq<Event>)
    requires now <= from && Ordered(from, evs)
    ensures Ordered(now, evs)
    decreases |evs|
  {
    if evs != [] {
      OrderedEarlier(Later(now, evs[0]), Later(from, evs[0]), evs[1..]);
    }
  }

  /** The bound for the whole handler: however requests of many sources and sweeps interleave, no source
      records more than 2 * threshold - 1 failures in a stretch of one window. */
  lemma TableBurstBound(mvs: seq<Move>, now: int, addr: string, x: int, c: Config)
    requires c.threshold >= 1 && c.cooldown >= c.window && addr != ""
    requires Possible(Desk(map[], {}), mvs, c) && InTime(now, mvs)
    ensures Stretch(EventsOf(CallsOf(mvs), addr), x, c) <= 2 * c.threshold - 1
    ensures c.window > 0 && c.cooldown >= 2 * c.window - 1 ==> Stretch(EventsOf(CallsOf(mvs), addr), x, c) <= Cap(c)
  {
    EachSourceSerial(Desk(map[], {}), mvs, now, addr, c);
    BurstBound(EventsOf(CallsOf(mvs), addr), now, x, c);
    if c.window > 0 && c.cooldown >= 2 * c.window - 1 {
      BurstBoundLong(EventsOf(CallsOf(mvs), addr), now, x, c);
    }
  }
}
