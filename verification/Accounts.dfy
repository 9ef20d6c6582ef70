/** User accounts (app/upstream.go): the in-memory table runs ahead of a persistent store, which a worker
    brings up to date from a queue of tasks. */
module Accounts {
  import opened Prelude

  // ---------------------------------------------------------------- keys

  type Digest = d: seq<byte> | |d| == 28 witness seq(28, _ => 0)

  /** SHA-224 of a password. */
  type Hash = string -> Digest

  function HexDigit(n: int): char
    requires 0 <= n < 16
  {
    if n < 10 then '0' + n as char else 'a' + (n - 10) as char
  }

  predicate IsHexDigit(c: char) {
    '0' <= c <= '9' || 'a' <= c <= 'f'
  }

  /** hex.Encode */
  function Hex(b: seq<byte>): (s: string)
    ensures |s| == 2 * |b|
    ensures forall i :: 0 <= i < |s| ==> IsHexDigit(s[i])
  {
    if b == [] then ""
    else
      var rest := Hex(b[1..]);
      var two := [HexDigit(b[0] / 16), HexDigit(b[0] % 16)];
      assert forall i :: 2 <= i < |two + rest| ==> (two + rest)[i] == rest[i - 2];
      two + rest
  }

  /** GenKey */
  function KeyFor(password: string, hash: Hash): string {
    Hex(hash(password))
  }

  /** What validStorageKey accepts: 56 lower-case hexadecimal digits. */
  predicate IsStorageKey(k: string) {
    |k| == HEADER_LEN && forall i :: 0 <= i < |k| ==> IsHexDigit(k[i])
  }

  method ValidStorageKey(k: string) returns (ok: bool)
    ensures ok <==> IsStorageKey(k)
  {
    if |k| != HEADER_LEN {
      return false;
    }
    for i := 0 to |k|
      invariant forall j :: 0 <= j < i ==> IsHexDigit(k[j])
    {
      var c := k[i];
      if !(('0' <= c && c <= '9') || ('a' <= c && c <= 'f')) {
        return false;
      }
    }
    ok := true;
  }

  /** Generated keys are always accepted by the store. */
  lemma GeneratedKeysAreValid(password: string, hash: Hash)
    ensures IsStorageKey(KeyFor(password, hash))
  {
  }

  /** The value of a hexadecimal digit. */
  function DigitValue(c: char): (n: int)
    requires IsHexDigit(c)
    ensures 0 <= n < 16
  {
    if c <= '9' then c as int - '0' as int else c as int - 'a' as int + 10
  }

  /** Digits 2i and 2i+1 spell byte i, the more significant one first. */
  lemma {:induction false} HexSpells(b: seq<byte>, i: nat)
    requires i < |b|
    ensures 16 * DigitValue(Hex(b)[2 * i]) + DigitValue(Hex(b)[2 * i + 1]) == b[i]
    decreases i
  {
    var s := Hex(b);
    assert s[2..] == Hex(b[1..]);
    if i > 0 {
      HexSpells(b[1..], i - 1);
      assert s[2 * i] == s[2..][2 * (i - 1)] && s[2 * i + 1] == s[2..][2 * (i - 1) + 1];
    } else {
      assert s[0] == HexDigit(b[0] / 16) && s[1] == HexDigit(b[0] % 16);
    }
  }

  /** The bytes that hexadecimal digits spell. */
  function Unhex(s: string): (b: seq<byte>)
    requires |s| % 2 == 0 && forall i :: 0 <= i < |s| ==> IsHexDigit(s[i])
    ensures 2 * |b| == |s|
  {
    if s == "" then [] else [16 * DigitValue(s[0]) + DigitValue(s[1])] + Unhex(s[2..])
  }

  lemma {:induction false} HexUnhex(s: string)
    requires |s| % 2 == 0 && forall i :: 0 <= i < |s| ==> IsHexDigit(s[i])
    ensures Hex(Unhex(s)) == s
    decreases |s|
  {
    if s != "" {
      HexUnhex(s[2..]);
      var b := Unhex(s);
      assert b[1..] == Unhex(s[2..]);
      assert HexDigit(b[0] / 16) == s[0] && HexDigit(b[0] % 16) == s[1];
      assert s == [s[0], s[1]] + s[2..];
    }
  }

  /** What the store accepts as a key is exactly what a digest of 28 bytes can look like. */
  lemma StorageKeysExactly(k: string)
    ensures IsStorageKey(k) <==> exists d: Digest :: Hex(d) == k
  {
    if IsStorageKey(k) {
      HexUnhex(k);
      var d: Digest := Unhex(k);
      assert Hex(d) == k;
    }
  }

  /** Two passwords share an account only if their digests collide. */
  lemma {:induction false} HexInjective(a: seq<byte>, b: seq<byte>)
    ensures Hex(a) == Hex(b) <==> a == b
  {
    if Hex(a) == Hex(b) && a != [] && b != [] {
      var s := Hex(a);
      assert s[2..] == Hex(a[1..]) && s[2..] == Hex(b[1..]);
      assert s[0] == HexDigit(a[0] / 16) == HexDigit(b[0] / 16);
      assert s[1] == HexDigit(a[0] % 16) == HexDigit(b[0] % 16);
      HexInjective(a[1..], b[1..]);
      assert a[0] == b[0];
      assert a == [a[0]] + a[1..] && b == [b[0]] + b[1..];
    }
  }

  // ---------------------------------------------------------------- traffic

  const TWO63 := 0x8000_0000_0000_0000
  const TWO64 := 0x1_0000_0000_0000_0000

  type int64 = x: int | -TWO63 <= x < TWO63

  /** Equal modulo 2^64. */
  predicate Congruent(x: int, y: int) {
    (x - y) % 0x1_0000_0000_0000_0000 == 0
  }

  /** int64 addition, wrapping round. */
  function Add64(a: int64, b: int64): (s: int64)
    ensures -TWO63 <= a as int + b as int < TWO63 ==> s == a + b
    ensures Congruent(s, a as int + b as int)
  {
    var sum := a as int + b as int;
    if sum >= TWO63 then sum - TWO64
    else if sum < -TWO63 then sum + TWO64
    else sum
  }

  lemma Add64Commutes(x: int64, a: int64, b: int64)
    ensures Add64(Add64(x, a), b) == Add64(Add64(x, b), a)
  {
  }

  datatype Traffic = Traffic(up: int64, down: int64)

  const NOTHING := Traffic(0, 0)

  function Plus(t: Traffic, up: int64, down: int64): Traffic {
    Traffic(Add64(t.up, up), Add64(t.down, down))
  }

  type Table = map<string, Traffic>

  // ---------------------------------------------------------------- one operation on either side

  datatype Task = TaskAdd(password: string) | TaskDelete(password: string) | TaskConsume(key: string, up: int64, down: int64)

  function KeyOf(t: Task, hash: Hash): string {
    match t
    case TaskAdd(p) => KeyFor(p, hash)
    case TaskDelete(p) => KeyFor(p, hash)
    case TaskConsume(k, _, _) => k
  }

  /** Add, Delete and Consume on the memory table: adding resets, consuming creates. */
  function Remember(mm: Table, t: Task, hash: Hash): Table {
    var k := KeyOf(t, hash);
    match t
    case TaskAdd(_) => mm[k := NOTHING]
    case TaskDelete(_) => mm - {k}
    case TaskConsume(_, up, down) => mm[k := Plus(if k in mm then mm[k] else NOTHING, up, down)]
  }

  /** The same on the store: adding keeps what is there, consuming needs a valid key that is there. */
  function Persist(store: Table, t: Task, hash: Hash): Table {
    var k := KeyOf(t, hash);
    match t
    case TaskAdd(_) => if k in store then store else store[k := NOTHING]
    case TaskDelete(_) => store - {k}
    case TaskConsume(_, up, down) =>
      if !IsStorageKey(k) || k !in store then store else store[k := Plus(store[k], up, down)]
  }

  /** The operations on which memory and store agree. */
  predicate Fits(m: Table, t: Task, hash: Hash) {
    var k := KeyOf(t, hash);
    match t
    case TaskAdd(_) => k !in m || m[k] == NOTHING
    case TaskDelete(_) => true
    case TaskConsume(_, up, down) => k in m && (IsStorageKey(k) || (up == 0 && down == 0))
  }

  /** Memory and store make the same of an operation exactly when it fits. */
  lemma FitsExactly(m: Table, t: Task, hash: Hash)
    ensures Remember(m, t, hash) == Persist(m, t, hash) <==> Fits(m, t, hash)
  {
    var k := KeyOf(t, hash);
    match t
    case TaskAdd(_) =>
      assert k in m && m[k] != NOTHING ==> Remember(m, t, hash)[k] != Persist(m, t, hash)[k];
      assert k in m && m[k] == NOTHING ==> m[k := NOTHING] == m;
    case TaskDelete(_) =>
    case TaskConsume(_, up, down) =>
      if k !in m {
        assert k in Remember(m, t, hash) && k !in Persist(m, t, hash);
      } else if !IsStorageKey(k) {
        PlusZero(m[k], up, down);
        assert Remember(m, t, hash)[k] == Plus(m[k], up, down);
        assert up == 0 && down == 0 ==> m[k := m[k]] == m;
      }
  }

  lemma PlusZero(t: Traffic, up: int64, down: int64)
    ensures Plus(t, up, down) == t <==> up == 0 && down == 0
  {
  }

  predicate AllValid(m: Table) {
    forall k :: k in m ==> IsStorageKey(k)
  }

  /** In a table of valid keys, adding an absent user, deleting any, and consuming for a present one fit,
      and the keys stay valid. */
  lemma OrdinaryUseFits(m: Table, t: Task, hash: Hash)
    requires AllValid(m)
    requires t.TaskAdd? ==> KeyOf(t, hash) !in m
    requires t.TaskConsume? ==> KeyOf(t, hash) in m
    ensures Fits(m, t, hash) && AllValid(Remember(m, t, hash))
  {
    if t.TaskAdd? {
      GeneratedKeysAreValid(t.password, hash);
    }
  }

  // ---------------------------------------------------------------- a store that fails

  /** Which calls of the storage library fail during one operation: Exists then answers no; load and store
      include the JSON step next to them. */
  datatype Faults = Faults(exist: bool, load: bool, store: bool, delete: bool)

  const NO_FAULTS := Faults(false, false, false, false)

  function PersistWith(store: Table, t: Task, hash: Hash, f: Faults): Table {
    var k := KeyOf(t, hash);
    match t
    case TaskAdd(_) => if (!f.exist && k in store) || f.store then store else store[k := NOTHING]
    case TaskDelete(_) => if f.exist || k !in store || f.delete then store else store - {k}
    case TaskConsume(_, up, down) =>
      if !IsStorageKey(k) || f.load || k !in store || f.store then store else store[k := Plus(store[k], up, down)]
  }

  /** An operation does what it should in spite of the faults. */
  predicate Unharmed(store: Table, t: Task, hash: Hash, f: Faults) {
    var k := KeyOf(t, hash);
    match t
    case TaskAdd(_) => if k in store then !f.exist || f.store || store[k] == NOTHING else !f.store
    case TaskDelete(_) => k !in store || !(f.exist || f.delete)
    case TaskConsume(_, up, down) => !IsStorageKey(k) || k !in store || (up == 0 && down == 0) || !(f.load || f.store)
  }

  /** Faults do harm exactly where Unharmed says so; among them is an Add that, because Exists failed and
      Store did not, resets the traffic of an account that is there. */
  lemma FaultsHarmExactly(store: Table, t: Task, hash: Hash, f: Faults)
    ensures PersistWith(store, t, hash, f) == Persist(store, t, hash) <==> Unharmed(store, t, hash, f)
  {
    var k := KeyOf(t, hash);
    match t
    case TaskAdd(_) =>
      assert k in store && store[k] == NOTHING ==> store[k := NOTHING] == store;
      assert k !in store ==> k in Persist(store, t, hash);
      assert k in store ==> Persist(store, t, hash)[k] == store[k];
    case TaskDelete(_) =>
      assert k !in Persist(store, t, hash);
      assert k !in store ==> store - {k} == store;
    case TaskConsume(_, up, down) =>
      if k in store {
        PlusZero(store[k], up, down);
        assert up == 0 && down == 0 ==> store[k := store[k]] == store;
        assert IsStorageKey(k) ==> Persist(store, t, hash)[k] == Plus(store[k], up, down);
      }
  }

  function NextFaults(faults: seq<Faults>): Faults {
    if faults == [] then NO_FAULTS else faults[0]
  }

  function LaterFaults(faults: seq<Faults>): seq<Faults> {
    if faults == [] then [] else faults[1..]
  }

  function PersistAllWith(store: Table, ts: seq<Task>, hash: Hash, faults: seq<Faults>): Table
    decreases |ts|
  {
    if ts == [] then store
    else PersistAllWith(PersistWith(store, ts[0], hash, NextFaults(faults)), ts[1..], hash, LaterFaults(faults))
  }

  /** Without faults the worker does what the refinement says. */
  lemma {:induction false} NoFaultsPersist(store: Table, ts: seq<Task>, hash: Hash)
    ensures PersistAllWith(store, ts, hash, []) == PersistAll(store, ts, hash)
    decreases |ts|
  {
    if ts != [] {
      FaultsHarmExactly(store, ts[0], hash, NO_FAULTS);
      NoFaultsPersist(Persist(store, ts[0], hash), ts[1..], hash);
    }
  }

  // ---------------------------------------------------------------- queues of operations

  function PersistAll(store: Table, ts: seq<Task>, hash: Hash): Table
    decreases |ts|
  {
    if ts == [] then store else PersistAll(Persist(store, ts[0], hash), ts[1..], hash)
  }

  lemma {:induction false} PersistAppend(store: Table, a: seq<Task>, b: seq<Task>, hash: Hash)
    ensures PersistAll(store, a + b, hash) == PersistAll(PersistAll(store, a, hash), b, hash)
    decreases |a|
  {
    if a == [] {
      assert a + b == b;
    } else {
      assert (a + b)[1..] == a[1..] + b;
      PersistAppend(Persist(store, a[0], hash), a[1..], b, hash);
    }
  }

  /** Counting nothing. */
  predicate Idle(t: Task) {
    t.TaskConsume? && t.up == 0 && t.down == 0
  }

  /** Tasks whose order does not matter: of two on one account that change anything, both add it or
      neither does. */
  predicate Commute(a: Task, b: Task, hash: Hash) {
    KeyOf(a, hash) != KeyOf(b, hash) || (a.TaskAdd? <==> b.TaskAdd?) || Idle(a) || Idle(b)
  }

  function Get(m: Table, k: string): Option<Traffic> {
    if k in m then Some(m[k]) else None
  }

  /** What a task does to the entry of its own account. */
  function Entry(o: Option<Traffic>, t: Task, valid: bool): Option<Traffic> {
    match t
    case TaskAdd(_) => if o.Some? then o else Some(NOTHING)
    case TaskDelete(_) => None
    case TaskConsume(_, up, down) => if valid && o.Some? then Some(Plus(o.value, up, down)) else o
  }

  lemma PersistAt(store: Table, t: Task, hash: Hash, k: string)
    ensures Get(Persist(store, t, hash), k) ==
      if k == KeyOf(t, hash) then Entry(Get(store, k), t, IsStorageKey(k)) else Get(store, k)
  {
  }

  lemma SameTable(m: Table, n: Table)
    requires forall k :: Get(m, k) == Get(n, k)
    ensures m == n
  {
    assert forall k :: k in m <==> Get(m, k).Some?;
    assert forall k :: k in n <==> Get(n, k).Some?;
    assert forall k :: k in m ==> Get(m, k) == Some(m[k]);
  }

  lemma EntriesCommute(o: Option<Traffic>, a: Task, b: Task, valid: bool)
    requires (a.TaskAdd? <==> b.TaskAdd?) || Idle(a) || Idle(b)
    ensures Entry(Entry(o, a, valid), b, valid) == Entry(Entry(o, b, valid), a, valid)
  {
    if a.TaskConsume? && b.TaskConsume? && valid && o.Some? {
      Add64Commutes(o.value.up, a.up, b.up);
      Add64Commutes(o.value.down, a.down, b.down);
    }
  }

  lemma CommuteSwap(store: Table, a: Task, b: Task, hash: Hash)
    requires Commute(a, b, hash)
    ensures Persist(Persist(store, a, hash), b, hash) == Persist(Persist(store, b, hash), a, hash)
  {
    forall k
      ensures Get(Persist(Persist(store, a, hash), b, hash), k) == Get(Persist(Persist(store, b, hash), a, hash), k)
    {
      PersistAt(store, a, hash, k);
      PersistAt(store, b, hash, k);
      PersistAt(Persist(store, a, hash), b, hash, k);
      PersistAt(Persist(store, b, hash), a, hash, k);
      if KeyOf(a, hash) == KeyOf(b, hash) {
        EntriesCommute(Get(store, k), a, b, IsStorageKey(k));
      }
    }
    SameTable(Persist(Persist(store, a, hash), b, hash), Persist(Persist(store, b, hash), a, hash));
  }

  /** The store takes two tasks in either order, whatever it holds, exactly when they commute. */
  lemma CommuteExactly(a: Task, b: Task, hash: Hash)
    ensures Commute(a, b, hash) <==>
      forall store :: Persist(Persist(store, a, hash), b, hash) == Persist(Persist(store, b, hash), a, hash)
  {
    if Commute(a, b, hash) {
      forall store
        ensures Persist(Persist(store, a, hash), b, hash) == Persist(Persist(store, b, hash), a, hash)
      {
        CommuteSwap(store, a, b, hash);
      }
    } else if a.TaskAdd? {
      AddFirstMatters(a, b, hash);
    } else {
      AddFirstMatters(b, a, hash);
    }
  }

  /** An empty store shows the order of an Add and whatever else changes its account. */
  lemma AddFirstMatters(add: Task, b: Task, hash: Hash)
    requires add.TaskAdd? && !Commute(add, b, hash)
    ensures Persist(Persist(map[], add, hash), b, hash) != Persist(Persist(map[], b, hash), add, hash)
  {
    var k := KeyOf(add, hash);
    GeneratedKeysAreValid(add.password, hash);
    PersistAt(map[], add, hash, k);
    PersistAt(map[], b, hash, k);
    PersistAt(Persist(map[], add, hash), b, hash, k);
    PersistAt(Persist(map[], b, hash), add, hash, k);
    if b.TaskConsume? {
      PlusZero(NOTHING, b.up, b.down);
    }
  }

  predicate CommutesWithAll(t: Task, ts: seq<Task>, hash: Hash) {
    forall i :: 0 <= i < |ts| ==> Commute(ts[i], t, hash)
  }

  /** A task that commutes with all those before it may be done first. */
  lemma {:induction false} DoneFirst(store: Table, before: seq<Task>, t: Task, hash: Hash)
    requires CommutesWithAll(t, before, hash)
    ensures PersistAll(store, before + [t], hash) == PersistAll(store, [t] + before, hash)
    decreases |before|
  {
    if before == [] {
      assert before + [t] == [t] + before;
    } else {
      var b, rest := before[0], before[1..];
      assert (before + [t])[1..] == rest + [t];
      DoneFirst(Persist(store, b, hash), rest, t, hash);
      assert ([t] + rest)[1..] == rest && ([t] + before)[1..] == before;
      CommuteSwap(store, b, t, hash);
    }
  }

  // ---------------------------------------------------------------- callers, channel and worker

  const CAPACITY := 16

  /** The table in memory, the store, and the tasks on their way: held by the worker, in the channel, and
      in the hands of callers that have changed the table but not sent yet. */
  datatype State = State(mm: Table, store: Table, worker: Option<Task>, queue: seq<Task>, inflight: seq<Task>, closed: bool)

  datatype Action =
    | Call(t: Task)        // a caller changes the table under its lock
    | Send(i: nat)         // ... and its send goes through
    | Drop(i: nat)         // ... or finds the channel closed
    | Take                 // the worker receives
    | Work                 // the worker applies what it received
    | Close                // Cleanup

  function Held(o: Option<Task>): seq<Task> {
    if o.Some? then [o.value] else []
  }

  function Pending(s: State): seq<Task> {
    Held(s.worker) + s.queue + s.inflight
  }

  /** Memory and store both at m, nothing under way. */
  function Fresh(m: Table): State {
    State(m, m, None, [], [], false)
  }

  function Without<T>(s: seq<T>, i: nat): seq<T>
    requires i < |s|
  {
    s[..i] + s[i + 1..]
  }

  function Step(s: State, a: Action, hash: Hash): Option<State> {
    match a
    case Call(t) => Some(s.(mm := Remember(s.mm, t, hash), inflight := s.inflight + [t]))
    case Send(i) =>
      if s.closed || i >= |s.inflight| || |s.queue| >= CAPACITY then None
      else Some(s.(queue := s.queue + [s.inflight[i]], inflight := Without(s.inflight, i)))
    case Drop(i) =>
      if !s.closed || i >= |s.inflight| then None else Some(s.(inflight := Without(s.inflight, i)))
    case Take =>
      if s.worker.Some? || s.queue == [] then None else Some(s.(worker := Some(s.queue[0]), queue := s.queue[1..]))
    case Work =>
      if s.worker.None? then None else Some(s.(worker := None, store := Persist(s.store, s.worker.value, hash)))
    case Close => if s.closed then None else Some(s.(closed := true))
  }

  /** The calls the refinement covers: memory and store agree on them, and they commute with the calls
      they overlap. */
  predicate Covered(s: State, a: Action, hash: Hash) {
    a.Call? ==> Fits(s.mm, a.t, hash) && CommutesWithAll(a.t, s.inflight, hash)
  }

  predicate PairwiseCommute(ts: seq<Task>, hash: Hash) {
    forall i, j :: 0 <= i < j < |ts| ==> Commute(ts[i], ts[j], hash)
  }

  /** Memory is the store with everything pending applied, in the order of the changes to memory. */
  predicate Ahead(s: State, hash: Hash) {
    PairwiseCommute(s.inflight, hash) && s.mm == PersistAll(s.store, Pending(s), hash)
  }

  lemma CallAhead(s: State, t: Task, hash: Hash)
    requires Ahead(s, hash) && Fits(s.mm, t, hash) && CommutesWithAll(t, s.inflight, hash)
    ensures Ahead(Step(s, Call(t), hash).value, hash)
  {
    var s' := Step(s, Call(t), hash).value;
    FitsExactly(s.mm, t, hash);
    PersistAppend(s.store, Pending(s), [t], hash);
    assert Pending(s') == Pending(s) + [t];
    assert [t][1..] == [];
    assert PersistAll(s.mm, [t], hash) == PersistAll(Persist(s.mm, t, hash), [], hash);
  }

  lemma SendAhead(s: State, i: nat, hash: Hash)
    requires Ahead(s, hash) && Step(s, Send(i), hash).Some?
    ensures Ahead(Step(s, Send(i), hash).value, hash)
  {
    var s' := Step(s, Send(i), hash).value;
    var t, before, after := s.inflight[i], s.inflight[..i], s.inflight[i + 1..];
    var head := Held(s.worker) + s.queue;
    Requeue(head, s.inflight, i);
    MoveAhead(s.store, head, before, t, after, hash);
    assert Held(s.worker) + (s.queue + [t]) == head + [t];
    WithoutCommutes(s.inflight, i, hash);
  }

  lemma WithoutCommutes(ts: seq<Task>, i: nat, hash: Hash)
    requires i < |ts| && PairwiseCommute(ts, hash)
    ensures PairwiseCommute(Without(ts, i), hash)
    ensures CommutesWithAll(ts[i], ts[..i], hash)
  {
    var rest := Without(ts, i);
    assert forall k :: 0 <= k < |rest| ==> rest[k] == ts[if k < i then k else k + 1];
  }

  lemma Requeue(head: seq<Task>, inflight: seq<Task>, i: nat)
    requires i < |inflight|
    ensures var t, before, after := inflight[i], inflight[..i], inflight[i + 1..];
      && head + inflight == head + ((before + [t]) + after)
      && (head + [t]) + Without(inflight, i) == head + (([t] + before) + after)
  {
    assert inflight == (inflight[..i] + [inflight[i]]) + inflight[i + 1..];
  }

  lemma MoveAhead(store: Table, head: seq<Task>, before: seq<Task>, t: Task, after: seq<Task>, hash: Hash)
    requires CommutesWithAll(t, before, hash)
    ensures PersistAll(store, head + ((before + [t]) + after), hash) == PersistAll(store, head + (([t] + before) + after), hash)
  {
    var m := PersistAll(store, head, hash);
    PersistAppend(store, head, (before + [t]) + after, hash);
    PersistAppend(store, head, ([t] + before) + after, hash);
    PersistAppend(m, before + [t], after, hash);
    PersistAppend(m, [t] + before, after, hash);
    DoneFirst(m, before, t, hash);
  }

  lemma TakeAhead(s: State, hash: Hash)
    requires Ahead(s, hash) && Step(s, Take, hash).Some?
    ensures Ahead(Step(s, Take, hash).value, hash)
  {
    assert Pending(Step(s, Take, hash).value) == Pending(s);
  }

  lemma WorkAhead(s: State, hash: Hash)
    requires Ahead(s, hash) && Step(s, Work, hash).Some?
    ensures Ahead(Step(s, Work, hash).value, hash)
  {
    var rest := s.queue + s.inflight;
    var s' := Step(s, Work, hash).value;
    assert Pending(s) == [s.worker.value] + rest && Pending(s') == rest;
    assert Pending(s)[1..] == rest;
  }

  lemma WorkerAhead(s: State, a: Action, hash: Hash)
    requires Ahead(s, hash) && Step(s, a, hash).Some? && (a.Take? || a.Work? || a.Close?)
    ensures Ahead(Step(s, a, hash).value, hash)
  {
    if a.Take? {
      TakeAhead(s, hash);
    } else if a.Work? {
      WorkAhead(s, hash);
    } else {
      assert Pending(Step(s, a, hash).value) == Pending(s);
    }
  }

  /** A run in which every call is covered. */
  function Run(s: State, acts: seq<Action>, hash: Hash): Option<State>
    decreases |acts|
  {
    if acts == [] then Some(s)
    else if !Covered(s, acts[0], hash) then None
    else
      match Step(s, acts[0], hash)
      case None => None
      case Some(t) => Run(t, acts[1..], hash)
  }

  /** The channel never holds more than 16 tasks, in any interleaving. */
  lemma {:induction false} QueueBounded(s: State, acts: seq<Action>, t: State, hash: Hash)
    requires Steps(s, acts, hash) == Some(t) && |s.queue| <= 16
    ensures |t.queue| <= 16
    decreases |acts|
  {
    if acts != [] {
      var m := Step(s, acts[0], hash).value;
      assert |m.queue| <= 16;
      QueueBounded(m, acts[1..], t, hash);
    }
  }

  predicate NoDrop(acts: seq<Action>) {
    forall i :: 0 <= i < |acts| ==> !acts[i].Drop?
  }

  lemma {:induction false} RunAhead(s: State, acts: seq<Action>, t: State, hash: Hash)
    requires Ahead(s, hash) && Run(s, acts, hash) == Some(t) && NoDrop(acts)
    ensures Ahead(t, hash)
    decreases |acts|
  {
    if acts != [] {
      var a := acts[0];
      match a {
        case Call(c) => CallAhead(s, c, hash);
        case Send(i) => SendAhead(s, i, hash);
        case Drop(_) =>
        case _ => WorkerAhead(s, a, hash);
      }
      assert forall i :: 0 <= i < |acts| - 1 ==> acts[1..][i] == acts[i + 1];
      RunAhead(Step(s, a, hash).value, acts[1..], t, hash);
    }
  }

  /** Write-behind refinement: in every interleaving of callers and worker in which each operation fits
      and commutes with those it overlaps, the table in memory is at all times the store with the pending
      tasks applied in order, and is the store when none is pending. */
  lemma WriteBehind(table: Table, acts: seq<Action>, t: State, hash: Hash)
    requires Run(Fresh(table), acts, hash) == Some(t) && NoDrop(acts)
    ensures t.mm == PersistAll(t.store, Pending(t), hash)
    ensures Pending(t) == [] ==> t.mm == t.store
  {
    var s := Fresh(table);
    assert Pending(s) == [];
    RunAhead(s, acts, t, hash);
  }

  /** What the worker has been given. */
  function Given(s: State): seq<Task> {
    Held(s.worker) + s.queue
  }

  lemma {:induction false} ClosedRunDrains(s: State, acts: seq<Action>, t: State, hash: Hash)
    requires s.closed && Run(s, acts, hash) == Some(t)
    ensures t.closed && PersistAll(t.store, Given(t), hash) == PersistAll(s.store, Given(s), hash)
    decreases |acts|
  {
    if acts != [] {
      var s' := Step(s, acts[0], hash).value;
      if acts[0].Take? {
        assert Given(s') == Given(s);
      } else if acts[0].Work? {
        assert Given(s)[1..] == Given(s');
      }
      ClosedRunDrains(s', acts[1..], t, hash);
    }
  }

  /** Cleanup loses nothing already sent: once the worker has drained the channel, the store is the table
      as memory had it at Cleanup, if no caller was between its change and its send. */
  lemma CleanupDrains(table: Table, acts: seq<Action>, s: State, acts': seq<Action>, t: State, hash: Hash)
    requires Run(Fresh(table), acts, hash) == Some(s) && NoDrop(acts)
    requires s.closed && s.inflight == []
    requires Run(s, acts', hash) == Some(t) && Given(t) == []
    ensures t.store == s.mm
  {
    WriteBehind(table, acts, s, hash);
    ClosedRunDrains(s, acts', t, hash);
    assert Pending(s) == Given(s);
  }

  // ---------------------------------------------------------------- what is charged

  /** The bytes that the tasks count for account k, up and down. */
  function SumUp(ts: seq<Task>, k: string): int {
    if ts == [] then 0 else UpOf(ts[0], k) + SumUp(ts[1..], k)
  }

  function SumDown(ts: seq<Task>, k: string): int {
    if ts == [] then 0 else DownOf(ts[0], k) + SumDown(ts[1..], k)
  }

  function UpOf(t: Task, k: string): int {
    if t.TaskConsume? && t.key == k then t.up as int else 0
  }

  function DownOf(t: Task, k: string): int {
    if t.TaskConsume? && t.key == k then t.down as int else 0
  }

  /** Adding or deleting a user is not among the tasks. */
  predicate OnlyCounted(ts: seq<Task>, k: string, hash: Hash) {
    forall i :: 0 <= i < |ts| ==> KeyOf(ts[i], hash) != k || ts[i].TaskConsume?
  }

  function Charged(m: Table, k: string): Traffic {
    if k in m then m[k] else NOTHING
  }

  /** An account was charged that much, up and down, modulo 2^64. */
  predicate ChargedBy(before: Traffic, after: Traffic, up: int, down: int) {
    Congruent(after.up, before.up as int + up) && Congruent(after.down, before.down as int + down)
  }

  /** Traffic is neither lost nor mixed up: an account is charged, up and down, the sum of what was counted
      for it, whatever other accounts do in between. */
  lemma {:induction false} ChargesExactly(m: Table, ts: seq<Task>, k: string, hash: Hash)
    requires OnlyCounted(ts, k, hash)
    ensures ChargedBy(Charged(m, k), Charged(RememberAll(m, ts, hash), k), SumUp(ts, k), SumDown(ts, k))
    decreases |ts|
  {
    if ts != [] {
      var m1, later := Remember(m, ts[0], hash), ts[1..];
      assert OnlyCounted(later, k, hash) by {
        assert forall i :: 0 <= i < |later| ==> later[i] == ts[i + 1];
      }
      ChargesExactly(m1, later, k, hash);
      ChargesOne(m, ts[0], k, hash);
      assert RememberAll(m, ts, hash) == RememberAll(m1, later, hash);
      ChargesAdd(Charged(m, k), Charged(m1, k), Charged(RememberAll(m, ts, hash), k), ts, k);
    }
  }

  lemma ChargesOne(m: Table, t: Task, k: string, hash: Hash)
    requires KeyOf(t, hash) != k || t.TaskConsume?
    ensures ChargedBy(Charged(m, k), Charged(Remember(m, t, hash), k), UpOf(t, k), DownOf(t, k))
  {
  }

  lemma ChargesAdd(before: Traffic, mid: Traffic, after: Traffic, ts: seq<Task>, k: string)
    requires ts != [] && ChargedBy(before, mid, UpOf(ts[0], k), DownOf(ts[0], k))
    requires ChargedBy(mid, after, SumUp(ts[1..], k), SumDown(ts[1..], k))
    ensures ChargedBy(before, after, SumUp(ts, k), SumDown(ts, k))
  {
    CongruentPlus(after.up, mid.up, before.up, SumUp(ts[1..], k), UpOf(ts[0], k));
    CongruentPlus(after.down, mid.down, before.down, SumDown(ts[1..], k), DownOf(ts[0], k));
  }

  lemma CongruentPlus(after: int, mid: int, before: int, later: int, first: int)
    requires Congruent(after, mid + later) && Congruent(mid, before + first)
    ensures Congruent(after, before + (first + later))
  {
    assert (after - (mid + later)) % 0x1_0000_0000_0000_0000 == 0;
    assert (mid - (before + first)) % 0x1_0000_0000_0000_0000 == 0;
  }

  // ---------------------------------------------------------------- overlapping calls

  /** A run without any condition on the calls. */
  function Steps(s: State, acts: seq<Action>, hash: Hash): Option<State>
    decreases |acts|
  {
    if acts == [] then Some(s)
    else
      match Step(s, acts[0], hash)
      case None => None
      case Some(t) => Steps(t, acts[1..], hash)
  }

  function Called(a: Action): seq<Task> {
    if a.Call? then [a.t] else []
  }

  /** The operations called in a run, in the order of their changes to memory. */
  function Calls(acts: seq<Action>): seq<Task>
    decreases |acts|
  {
    if acts == [] then []
    else Called(acts[0]) + Calls(acts[1..])
  }

  function RememberAll(mm: Table, ts: seq<Task>, hash: Hash): Table
    decreases |ts|
  {
    if ts == [] then mm else RememberAll(Remember(mm, ts[0], hash), ts[1..], hash)
  }

  /** The tasks the worker applies in a run, in its order. */
  function Worked(s: State, acts: seq<Action>, hash: Hash): seq<Task>
    requires Steps(s, acts, hash).Some?
    decreases |acts|
  {
    if acts == [] then []
    else (if acts[0].Work? then Held(s.worker) else []) + Worked(Step(s, acts[0], hash).value, acts[1..], hash)
  }

  /** Memory has had everything, in the order of the calls. */
  lemma {:induction false} StepsRemember(s: State, acts: seq<Action>, t: State, hash: Hash)
    requires Steps(s, acts, hash) == Some(t)
    ensures t.mm == RememberAll(s.mm, Calls(acts), hash)
    decreases |acts|
  {
    if acts != [] {
      StepMemory(s, acts[0], hash);
      StepsRemember(Step(s, acts[0], hash).value, acts[1..], t, hash);
      FirstRemembered(s.mm, acts[0], Calls(acts[1..]), hash);
    }
  }

  lemma StepMemory(s: State, a: Action, hash: Hash)
    requires Step(s, a, hash).Some?
    ensures var s' := Step(s, a, hash).value;
      && s'.mm == (if a.Call? then Remember(s.mm, a.t, hash) else s.mm)
      && s'.store == (if a.Work? then Persist(s.store, s.worker.value, hash) else s.store)
      && (a.Work? ==> s.worker.Some?)
  {
  }

  /** The store has had the worker's tasks. */
  lemma {:induction false} StepsPersist(s: State, acts: seq<Action>, t: State, hash: Hash)
    requires Steps(s, acts, hash) == Some(t)
    ensures t.store == PersistAll(s.store, Worked(s, acts, hash), hash)
    decreases |acts|
  {
    if acts != [] {
      var s' := Step(s, acts[0], hash).value;
      var later := Worked(s', acts[1..], hash);
      StepMemory(s, acts[0], hash);
      StepsPersist(s', acts[1..], t, hash);
      if acts[0].Work? {
        FirstPersisted(s.store, s.worker.value, later, hash);
      } else {
        assert [] + later == later;
      }
    }
  }

  lemma FirstRemembered(mm: Table, a: Action, later: seq<Task>, hash: Hash)
    ensures RememberAll(mm, Called(a) + later, hash) ==
      RememberAll(if a.Call? then Remember(mm, a.t, hash) else mm, later, hash)
  {
    if a.Call? {
      assert (Called(a) + later)[1..] == later;
    } else {
      assert Called(a) + later == later;
    }
  }

  lemma FirstPersisted(store: Table, t: Task, later: seq<Task>, hash: Hash)
    ensures PersistAll(store, [t] + later, hash) == PersistAll(Persist(store, t, hash), later, hash)
  {
    assert ([t] + later)[1..] == later;
  }

  function Count(ts: seq<Task>, x: Task): nat {
    if ts == [] then 0 else (if ts[0] == x then 1 else 0) + Count(ts[1..], x)
  }

  lemma {:induction false} CountAppend(a: seq<Task>, b: seq<Task>, x: Task)
    ensures Count(a + b, x) == Count(a, x) + Count(b, x)
  {
    if a == [] {
      assert a + b == b;
    } else {
      assert (a + b)[1..] == a[1..] + b;
      CountAppend(a[1..], b, x);
    }
  }

  lemma CountPending(s: State, x: Task)
    ensures Count(Pending(s), x) == Count(Held(s.worker), x) + Count(s.queue, x) + Count(s.inflight, x)
  {
    CountAppend(Held(s.worker) + s.queue, s.inflight, x);
    CountAppend(Held(s.worker), s.queue, x);
  }

  lemma CountWithout(ts: seq<Task>, i: nat, x: Task)
    requires i < |ts|
    ensures Count(ts, x) == Count([ts[i]], x) + Count(Without(ts, i), x)
  {
    var before, after := ts[..i], ts[i + 1..];
    assert ts == before + ([ts[i]] + after);
    CountAppend(before, [ts[i]] + after, x);
    CountAppend([ts[i]], after, x);
    CountAppend(before, after, x);
  }

  /** No task is lost or made up by a step. */
  lemma StepCounts(s: State, a: Action, hash: Hash, x: Task)
    requires Step(s, a, hash).Some? && !a.Drop?
    ensures Count(if a.Work? then Held(s.worker) else [], x) + Count(Pending(Step(s, a, hash).value), x)
         == Count(Pending(s), x) + Count(Called(a), x)
  {
    CountPending(s, x);
    CountPending(Step(s, a, hash).value, x);
    match a {
      case Call(t) => CountAppend(s.inflight, [t], x);
      case Send(i) =>
        CountWithout(s.inflight, i, x);
        CountAppend(s.queue, [s.inflight[i]], x);
      case Take =>
        assert s.queue == [s.queue[0]] + s.queue[1..];
        CountAppend([s.queue[0]], s.queue[1..], x);
      case Work =>
      case Close =>
    }
  }

  /** Nor by a run without drops: what was called has been applied to the store or is pending. */
  lemma {:induction false} StepsCount(s: State, acts: seq<Action>, t: State, hash: Hash, x: Task)
    requires Steps(s, acts, hash) == Some(t) && NoDrop(acts)
    ensures Count(Worked(s, acts, hash), x) + Count(Pending(t), x) == Count(Pending(s), x) + Count(Calls(acts), x)
    decreases |acts|
  {
    if acts != [] {
      var a, s' := acts[0], Step(s, acts[0], hash).value;
      assert forall i :: 0 <= i < |acts| - 1 ==> acts[1..][i] == acts[i + 1];
      StepCounts(s, a, hash, x);
      StepsCount(s', acts[1..], t, hash, x);
      CountAppend(Called(a), Calls(acts[1..]), x);
      CountAppend(if a.Work? then Held(s.worker) else [], Worked(s', acts[1..], hash), x);
    }
  }

  /** Some run with the two calls a, then b, from m ends, with nothing pending, in disagreement. */
  ghost predicate CanDiverge(m: Table, a: Task, b: Task, hash: Hash) {
    exists acts, t ::
      && Steps(Fresh(m), acts, hash) == Some(t) && NoDrop(acts) && Calls(acts) == [a, b]
      && Pending(t) == [] && t.mm != t.store
  }

  /** Which overlaps do harm: on one account, an Add with a Delete, or the Add of an absent account with
      counting traffic for it. */
  predicate Conflict(m: Table, a: Task, b: Task, hash: Hash) {
    && KeyOf(a, hash) == KeyOf(b, hash)
    && (|| (a.TaskAdd? && b.TaskDelete?)
        || (a.TaskDelete? && b.TaskAdd?)
        || (a.TaskAdd? && KeyOf(a, hash) !in m && b.TaskConsume? && !Idle(b)))
  }

  /** Two operations that fit, called one after the other, can leave memory and store in disagreement
      exactly when they conflict. */
  lemma OverlapDivergesExactly(m: Table, a: Task, b: Task, hash: Hash)
    requires Fits(m, a, hash) && Fits(Remember(m, a, hash), b, hash)
    ensures CanDiverge(m, a, b, hash) <==> Conflict(m, a, b, hash)
  {
    FitsExactly(m, a, hash);
    FitsExactly(Remember(m, a, hash), b, hash);
    SwapConflicts(m, a, b, hash);
    if Conflict(m, a, b, hash) {
      SecondFirst(m, a, b, hash);
    }
    if CanDiverge(m, a, b, hash) {
      var acts, t :|
        && Steps(Fresh(m), acts, hash) == Some(t) && NoDrop(acts) && Calls(acts) == [a, b]
        && Pending(t) == [] && t.mm != t.store;
      EndsInOneOrder(m, acts, t, a, b, hash);
    }
  }

  /** A finished run of two calls leaves memory with both in order and the store with both in either. */
  lemma EndsInOneOrder(m: Table, acts: seq<Action>, t: State, a: Task, b: Task, hash: Hash)
    requires Steps(Fresh(m), acts, hash) == Some(t) && NoDrop(acts) && Calls(acts) == [a, b] && Pending(t) == []
    ensures t.mm == Remember(Remember(m, a, hash), b, hash)
    ensures t.store == Persist(Persist(m, a, hash), b, hash) || t.store == Persist(Persist(m, b, hash), a, hash)
  {
    StepsRemember(Fresh(m), acts, t, hash);
    StepsPersist(Fresh(m), acts, t, hash);
    var done := Worked(Fresh(m), acts, hash);
    forall x
      ensures Count(done, x) == Count([a, b], x)
    {
      StepsCount(Fresh(m), acts, t, hash, x);
      assert Pending(Fresh(m)) == [];
    }
    TwoOrders(done, a, b);
    Both(m, a, b, hash);
    Both(m, b, a, hash);
  }

  lemma TwoOrders(done: seq<Task>, a: Task, b: Task)
    requires forall x :: Count(done, x) == Count([a, b], x)
    ensures done == [a, b] || done == [b, a]
  {
    CountTwo(a, b, a);
    CountTwo(a, b, b);
    var x, rest := done[0], done[1..];
    assert Count(done, x) >= 1;
    CountTwo(a, b, x);
    var y := if x == a then b else a;
    forall z
      ensures Count(done, z) == Count([x, y], z)
    {
      CountTwo(a, b, z);
      CountTwo(x, y, z);
    }
    OneLeft(done, x, y);
    assert done == [x] + rest;
  }

  lemma OneLeft(done: seq<Task>, x: Task, y: Task)
    requires done != [] && done[0] == x
    requires forall z :: Count(done, z) == Count([x, y], z)
    ensures done[1..] == [y]
  {
    var rest := done[1..];
    forall z
      ensures Count(rest, z) == if z == y then 1 else 0
    {
      CountTwo(x, y, z);
      assert Count(done, z) == (if x == z then 1 else 0) + Count(rest, z);
    }
    assert Count(rest, y) == 1;
    var last := rest[1..];
    assert Count(rest, rest[0]) >= 1;
    var w := if last == [] then y else last[0];
    assert Count(rest, w) == (if y == w then 1 else 0) + Count(last, w);
    assert last != [] ==> Count(last, w) >= 1;
  }

  lemma CountTwo(a: Task, b: Task, x: Task)
    ensures Count([a, b], x) == (if a == x then 1 else 0) + (if b == x then 1 else 0)
  {
    assert [a, b][1..] == [b] && [b][1..] == [];
    assert Count([b], x) == (if b == x then 1 else 0) + Count([], x);
  }

  lemma Both(m: Table, a: Task, b: Task, hash: Hash)
    ensures PersistAll(m, [a, b], hash) == Persist(Persist(m, a, hash), b, hash)
    ensures RememberAll(m, [a, b], hash) == Remember(Remember(m, a, hash), b, hash)
  {
    assert [a, b][1..] == [b] && [b][1..] == [];
    assert PersistAll(Persist(m, a, hash), [b], hash) == PersistAll(Persist(Persist(m, a, hash), b, hash), [], hash);
    assert RememberAll(Remember(m, a, hash), [b], hash) == RememberAll(Remember(Remember(m, a, hash), b, hash), [], hash);
  }

  /** What the store makes of two fitting tasks in the wrong order. */
  lemma SwapConflicts(m: Table, a: Task, b: Task, hash: Hash)
    requires Fits(m, a, hash) && Fits(Persist(m, a, hash), b, hash)
    ensures Persist(Persist(m, a, hash), b, hash) != Persist(Persist(m, b, hash), a, hash) <==> Conflict(m, a, b, hash)
  {
    var k := KeyOf(a, hash);
    PersistAt(m, a, hash, k);
    PersistAt(m, b, hash, k);
    PersistAt(Persist(m, a, hash), b, hash, k);
    PersistAt(Persist(m, b, hash), a, hash, k);
    if Commute(a, b, hash) {
      CommuteSwap(m, a, b, hash);
    }
  }

  lemma SecondFirst(m: Table, a: Task, b: Task, hash: Hash)
    requires Remember(Remember(m, a, hash), b, hash) != Persist(Persist(m, b, hash), a, hash)
    ensures CanDiverge(m, a, b, hash)
  {
    var acts := Overtaking(m, a, b, hash);
    assert Calls(acts) == [a, b];
  }

  /** The run in which b overtakes a. */
  lemma Overtaking(m: Table, a: Task, b: Task, hash: Hash) returns (acts: seq<Action>)
    ensures Steps(Fresh(m), acts, hash) ==
      Some(Fresh(m).(mm := Remember(Remember(m, a, hash), b, hash), store := Persist(Persist(m, b, hash), a, hash)))
    ensures NoDrop(acts) && Calls(acts) == [a] + ([b] + [])
  {
    var m1 := Remember(m, a, hash);
    var s1 := Fresh(m).(mm := m1, inflight := [a]);
    var s2 := s1.(mm := Remember(m1, b, hash), inflight := [a, b]);
    acts := SecondThenFirst(s2, a, b, hash);
    assert [a] + [b] == [a, b] && [] + [a] == [a];
    acts := StepsFrom(s1, Call(b), acts, Applied(s2, a, b, hash), hash);
    acts := StepsFrom(Fresh(m), Call(a), acts, Applied(s2, a, b, hash), hash);
  }

  ghost function Applied(s: State, a: Task, b: Task, hash: Hash): State {
    s.(store := Persist(Persist(s.store, b, hash), a, hash), inflight := [])
  }

  lemma SecondThenFirst(s: State, a: Task, b: Task, hash: Hash) returns (acts: seq<Action>)
    requires s.queue == [] && s.worker.None? && !s.closed && s.inflight == [a, b]
    ensures Steps(s, acts, hash) == Some(Applied(s, a, b, hash)) && NoDrop(acts) && Calls(acts) == []
  {
    assert Without([a, b], 1) == [a] && Without([a], 0) == [];
    acts := StepsThrough(s.(store := Persist(s.store, b, hash), inflight := [a]), 0, [], Applied(s, a, b, hash), hash);
    acts := StepsThrough(s, 1, acts, Applied(s, a, b, hash), hash);
  }

  lemma StepsFrom(s: State, a: Action, acts: seq<Action>, t: State, hash: Hash) returns (longer: seq<Action>)
    requires Step(s, a, hash).Some? && Steps(Step(s, a, hash).value, acts, hash) == Some(t)
    requires !a.Drop? && NoDrop(acts)
    ensures Steps(s, longer, hash) == Some(t) && longer == [a] + acts && NoDrop(longer)
    ensures Calls(longer) == Called(a) + Calls(acts)
  {
    longer := [a] + acts;
    assert longer[1..] == acts;
  }

  /** One task on its way from a caller into an idle store. */
  lemma StepsThrough(s: State, i: nat, acts: seq<Action>, t: State, hash: Hash) returns (longer: seq<Action>)
    requires s.queue == [] && s.worker.None? && !s.closed && i < |s.inflight|
    requires Steps(s.(inflight := Without(s.inflight, i), store := Persist(s.store, s.inflight[i], hash)), acts, hash) == Some(t)
    requires NoDrop(acts)
    ensures Steps(s, longer, hash) == Some(t) && NoDrop(longer) && Calls(longer) == Calls(acts)
  {
    var task := s.inflight[i];
    var sent := s.(queue := [task], inflight := Without(s.inflight, i));
    assert [] + [task] == [task] && [task][1..] == [];
    longer := StepsFrom(sent.(queue := [], worker := Some(task)), Work, acts, t, hash);
    longer := StepsFrom(sent, Take, longer, t, hash);
    longer := StepsFrom(s, Send(i), longer, t, hash);
  }

  /** For every user: a delete whose task overtakes that of the add before it leaves the store with a user
      that memory has forgotten. */
  lemma OverlapDiverges(password: string, hash: Hash)
    ensures CanDiverge(map[], TaskAdd(password), TaskDelete(password), hash)
  {
    OverlapDivergesExactly(map[], TaskAdd(password), TaskDelete(password), hash);
  }

  // ---------------------------------------------------------------- validation

  /** With nothing pending, memory and store validate the same keys, when the keys in memory are well
      formed; validation does not tell which side is asked. */
  lemma ValidatesAlike(table: Table, acts: seq<Action>, t: State, k: string, hash: Hash)
    requires Run(Fresh(table), acts, hash) == Some(t) && NoDrop(acts) && Pending(t) == []
    requires AllValid(table)
    ensures k in t.mm <==> IsStorageKey(k) && k in t.store
  {
    WriteBehind(table, acts, t, hash);
    RunKeepsValid(Fresh(table), acts, t, hash);
  }

  lemma {:induction false} RunKeepsValid(s: State, acts: seq<Action>, t: State, hash: Hash)
    requires AllValid(s.mm) && Run(s, acts, hash) == Some(t)
    ensures AllValid(t.mm)
    decreases |acts|
  {
    if acts != [] {
      if acts[0].Call? && acts[0].t.TaskAdd? {
        GeneratedKeysAreValid(acts[0].t.password, hash);
      }
      RunKeepsValid(Step(s, acts[0], hash).value, acts[1..], t, hash);
    }
  }
}
