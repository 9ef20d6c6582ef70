/** The two account stores as objects (app/upstream.go), against the operations of Accounts. */
module Upstream {
  import opened Prelude
  import opened Accounts

  /** GenKey writes into the caller's slice. */
  method GenKey(password: string, hash: Hash, key: array<char>)
    requires key.Length == HEADER_LEN
    modifies key
    ensures key[..] == KeyFor(password, hash)
  {
    var h := Hex(hash(password));
    forall i | 0 <= i < |h| {
      key[i] := h[i];
    }
  }

  /** The store, with the faults its next operations will meet. */
  class CaddyUpstream {
    const hash: Hash
    var storage: Table
    var faults: seq<Faults>

    constructor (hash: Hash, storage: Table, faults: seq<Faults>)
      ensures this.hash == hash && this.storage == storage && this.faults == faults
    {
      this.hash, this.storage, this.faults := hash, storage, faults;
    }

    /** The faults of one operation. */
    method Meet() returns (f: Faults)
      modifies this`faults
      ensures f == NextFaults(old(faults)) && faults == LaterFaults(old(faults))
    {
      f := NextFaults(faults);
      faults := LaterFaults(faults);
    }

    method Add(s: string) returns (ok: bool)
      modifies this
      ensures storage == PersistWith(old(storage), TaskAdd(s), hash, NextFaults(old(faults)))
      ensures faults == LaterFaults(old(faults))
      ensures var f := NextFaults(old(faults)); ok <==> (!f.exist && KeyFor(s, hash) in old(storage)) || !f.store
    {
      var f := Meet();
      var b := new char[HEADER_LEN](_ => ' ');
      GenKey(s, hash, b);
      var key := b[..];
      if !f.exist && key in storage {
        return true;
      }
      if f.store {
        return false;
      }
      storage := storage[key := NOTHING];
      ok := true;
    }

    method Delete(s: string) returns (ok: bool)
      modifies this
      ensures storage == PersistWith(old(storage), TaskDelete(s), hash, NextFaults(old(faults)))
      ensures faults == LaterFaults(old(faults))
      ensures var f := NextFaults(old(faults)); ok <==> f.exist || KeyFor(s, hash) !in old(storage) || !f.delete
    {
      var f := Meet();
      var b := new char[HEADER_LEN](_ => ' ');
      GenKey(s, hash, b);
      var key := b[..];
      if f.exist || key !in storage {
        return true;
      }
      if f.delete {
        return false;
      }
      storage := storage - {key};
      ok := true;
    }

    method Validate(k: string) returns (ok: bool)
      modifies this`faults
      ensures ok <==> IsStorageKey(k) && k in storage && !NextFaults(old(faults)).exist
      ensures faults == LaterFaults(old(faults))
    {
      var f := Meet();
      var valid := ValidStorageKey(k);
      ok := valid && !f.exist && k in storage;
    }

    method Consume(k: string, nr: int64, nw: int64) returns (ok: bool)
      modifies this
      ensures storage == PersistWith(old(storage), TaskConsume(k, nr, nw), hash, NextFaults(old(faults)))
      ensures faults == LaterFaults(old(faults))
      ensures var f := NextFaults(old(faults)); ok <==> IsStorageKey(k) && k in old(storage) && !f.load && !f.store
    {
      var f := Meet();
      var valid := ValidStorageKey(k);
      if !valid {
        return false;
      }
      if f.load || k !in storage {
        return false;
      }
      var traffic := storage[k];
      traffic := traffic.(up := Add64(traffic.up, nr));
      traffic := traffic.(down := Add64(traffic.down, nw));
      if f.store {
        return false;
      }
      storage := storage[k := traffic];
      ok := true;
    }

    /** The worker goroutine on the tasks it receives until the channel is closed and empty. It ignores
        errors: tasks that meet a failing store are lost. */
    method Work(ch: seq<Task>)
      modifies this
      ensures storage == PersistAllWith(old(storage), ch, hash, old(faults))
    {
      var rest := ch;
      while rest != []
        invariant PersistAllWith(storage, rest, hash, faults) == PersistAllWith(old(storage), ch, hash, old(faults))
        decreases |rest|
      {
        var t := rest[0];
        rest := rest[1..];
        match t
        case TaskAdd(p) => var _ := Add(p);
        case TaskDelete(p) => var _ := Delete(p);
        case TaskConsume(k, up, down) => var _ := Consume(k, up, down);
      }
    }
  }

  class MemoryUpstream {
    const hash: Hash
    var up: CaddyUpstream?
    var mm: Table
    var ch: seq<Task>
    var closed: bool

    /** Provision: the table starts as a copy of the accounts that Range lists and loads, built before
        anything is forwarded to the store. */
    constructor (hash: Hash, persist: CaddyUpstream?, loads: set<string>)
      ensures this.hash == hash && up == persist && ch == [] && !closed
      ensures mm == if persist == null then map[] else map k | k in persist.storage && k in loads :: persist.storage[k]
    {
      this.hash := hash;
      up, mm, ch, closed := null, map[], [], false;
      new;
      if persist == null {
        return;
      }
      var listed := map k | k in persist.storage && k in loads :: persist.storage[k];
      var todo := listed.Keys;
      while todo != {}
        invariant up == null && ch == [] && !closed
        invariant todo <= listed.Keys
        invariant forall k :: k in mm <==> k in listed && k !in todo
        invariant forall k :: k in mm ==> mm[k] == listed[k]
        decreases todo
      {
        var k :| k in todo;
        todo := todo - {k};
        AddKey(k);
        Consume(k, listed[k].up, listed[k].down);
      }
      up := persist;
    }

    /** What the channel holds after sending t: nothing is sent without a store or after Cleanup. */
    function Sent(t: Task): seq<Task>
      reads this
    {
      if up == null || closed then ch else ch + [t]
    }

    method Cleanup()
      modifies this`closed
      ensures closed
    {
      closed := true;
    }

    /** Forward t, unless Cleanup has closed the channel. Waiting for room is left to Accounts. */
    method SendTask(t: Task) returns (ok: bool)
      modifies this`ch
      ensures ok <==> !closed
      ensures ch == if closed then old(ch) else old(ch) + [t]
    {
      if closed {
        return false;
      }
      ch := ch + [t];
      ok := true;
    }

    method AddKey(key: string)
      modifies this`mm
      ensures mm == old(mm)[key := NOTHING]
    {
      mm := mm[key := NOTHING];
    }

    method Add(s: string)
      modifies this`mm, this`ch
      ensures mm == Remember(old(mm), TaskAdd(s), hash)
      ensures ch == old(Sent(TaskAdd(s)))
    {
      var b := new char[HEADER_LEN](_ => ' ');
      GenKey(s, hash, b);
      AddKey(b[..]);
      if up == null {
        return;
      }
      var _ := SendTask(TaskAdd(s));
    }

    method Delete(s: string)
      modifies this`mm, this`ch
      ensures mm == Remember(old(mm), TaskDelete(s), hash)
      ensures ch == old(Sent(TaskDelete(s)))
    {
      var b := new char[HEADER_LEN](_ => ' ');
      GenKey(s, hash, b);
      mm := mm - {b[..]};
      if up == null {
        return;
      }
      var _ := SendTask(TaskDelete(s));
    }

    method Validate(k: string) returns (ok: bool)
      ensures ok <==> k in mm
    {
      ok := k in mm;
    }

    method Consume(k: string, nr: int64, nw: int64)
      modifies this`mm, this`ch
      ensures mm == Remember(old(mm), TaskConsume(k, nr, nw), hash)
      ensures ch == old(Sent(TaskConsume(k, nr, nw)))
    {
      var traffic := if k in mm then mm[k] else NOTHING;
      traffic := traffic.(up := Add64(traffic.up, nr));
      traffic := traffic.(down := Add64(traffic.down, nw));
      mm := mm[k := traffic];
      if up == null {
        return;
      }
      var _ := SendTask(TaskConsume(k, nr, nw));
    }
  }
}
