/** The open-addressing hash map, updating its three buffers in place.  Each method is proved equal to its
    function in `HashRuns`, so every theorem there is about these methods. */
module HashMaps {
  import opened Wrappers
  import opened HashTable
  import opened HashRuns

  datatype SlotState = EMPTY | OCCUPIED | TOMBSTONE

  /** A call's result, or UNREACHABLE where the C code falls out of a probe loop. */
  datatype Call<+T> = Returned(value: T) | FellOut

  function SlotOf<K, V>(state: SlotState, key: K, value: V): Slot<K, V> {
    match state
    case EMPTY => Empty
    case OCCUPIED => Occupied(key, value)
    case TOMBSTONE => Tombstone
  }

  /** Three buffers hold the slots `t`. */
  ghost predicate Holds<K, V>(states: array<SlotState>, keys: array<K>, values: array<V>, t: Table<K, V>)
    reads states, keys, values
  {
    && states.Length == keys.Length == values.Length == |t|
    && (forall i :: 0 <= i < |t| ==> t[i] == SlotOf(states[i], keys[i], values[i]))
  }

  ghost predicate Distinct<K, V>(states: array<SlotState>, keys: array<K>, values: array<V>) {
    && states as object != keys as object
    && states as object != values as object
    && keys as object != values as object
  }

  /** One step around a table of `n` slots. */
  function Next(i: nat, n: nat): (r: nat)
    requires i < n
    ensures r == if i + 1 < n then i + 1 else 0
  {
    (i + 1) % n
  }

  lemma EmptyOneSlot<K, V>(t: Table<K, V>, i: nat)
    requires i < |t|
    ensures t[i].Occupied? ==> i in OccupiedSlots(t)
    ensures OccupiedSlots(t[i := Empty]) == OccupiedSlots(t) - {i}
    ensures t[i := Tombstone][i := Empty] == t[i := Empty]
    ensures t[i].Empty? ==> t[i := Empty] == t
  {
  }

  class HashMap<K(!new), V> {
    var keyed: bool                // whether the key lifetime pointer is set
    var policy: KeyPolicy<K>
    var capacity: nat
    var states: array<SlotState>
    var keys: array<K>
    var values: array<V>
    var elemCount: nat
    ghost var slots: Table<K, V>   // what the buffers hold
    const zeroKey: K               // what a key slot holds once its bytes are zeroed
    const zeroValue: V

    ghost predicate Shape()
      reads this, states, keys, values
    {
      Distinct(states, keys, values) && Holds(states, keys, values, slots) && |slots| == capacity
    }

    ghost function Buffers(): set<object>
      reads this
    {
      {states as object, keys as object, values as object}
    }

    ghost function Abstract(): State<K, V>
      reads this
    {
      State(slots, elemCount)
    }

    ghost predicate Valid()
      reads this, states, keys, values
    {
      keyed && Shape() && Lawful(policy) && WellFormed(policy, Abstract())
    }

    /** The map the buffers stand for. */
    ghost function Map(): map<K, V>
      reads this
    {
      Contents(slots)
    }

    /** The zeroed map: no slots, and no key lifetime either, so every operation would fail its asserts. */
    ghost predicate Zeroed()
      reads this, states, keys, values
    {
      !keyed && Shape() && Abstract() == Fresh(0)
    }

    /** `hashmap_create_complex`; `mem` says whether the buffers of a map with slots can be allocated. */
    constructor (policy: KeyPolicy<K>, capacity: nat, zeroKey: K, zeroValue: V, mem: bool)
      requires Lawful(policy)
      ensures fresh(Buffers())
      ensures capacity == 0 || mem ==> Valid() && this.policy == policy && Abstract() == Fresh(capacity)
      ensures capacity != 0 && !mem ==> Zeroed()
    {
      var n := if mem then capacity else 0;
      this.keyed := capacity == 0 || mem;
      this.policy, this.capacity, this.elemCount := policy, n, 0;
      this.zeroKey, this.zeroValue := zeroKey, zeroValue;
      states := new SlotState[n](_ => EMPTY);
      keys := new K[n](_ => zeroKey);
      values := new V[n](_ => zeroValue);
      slots := AllEmpty(n);
      new;
      FreshIsWellFormed<K, V>(policy, n);
    }

    /** The three buffer allocations shared by creation, growth and copying. */
    method Allocate(n: nat) returns (newStates: array<SlotState>, newKeys: array<K>, newValues: array<V>)
      ensures fresh({newStates as object, newKeys as object, newValues as object})
      ensures Distinct(newStates, newKeys, newValues)
      ensures newStates.Length == newKeys.Length == newValues.Length == n
    {
      newStates := new SlotState[n](_ => EMPTY);
      newKeys := new K[n](_ => zeroKey);
      newValues := new V[n](_ => zeroValue);
    }

    method Adopt(newStates: array<SlotState>, newKeys: array<K>, newValues: array<V>, n: nat, ghost t: Table<K, V>)
      requires Distinct(newStates, newKeys, newValues) && Holds(newStates, newKeys, newValues, t) && |t| == n
      modifies this`states, this`keys, this`values, this`capacity, this`slots
      ensures Shape() && slots == t
      ensures states == newStates && keys == newKeys && values == newValues
    {
      states, keys, values, capacity, slots := newStates, newKeys, newValues, n, t;
    }

    // ---- The probe loops ----

    /** `hashmap_has`. */
    method Has(key: K) returns (r: Call<bool>)
      requires keyed && Shape() && capacity > 0
      ensures match Scan(policy, slots, key, 0)
        case Hit(_) => r == Returned(true)
        case Vacant(_) => r == Returned(false)
        case FellThrough => r == FellOut
    {
      ghost var h := Home(policy, key, capacity);
      var index := policy.hash(key) % capacity;
      var probes := 0;
      while probes < capacity
        invariant 0 <= probes <= capacity
        invariant probes < capacity ==> index == Wrap(h, probes, capacity)
        invariant Passed(policy, slots, key, probes)
        invariant Scan(policy, slots, key, 0) == Scan(policy, slots, key, probes)
      {
        match states[index] {
          case EMPTY =>
            return Returned(false);
          case OCCUPIED =>
            if policy.equals(key, keys[index]) {
              return Returned(true);
            }
          case TOMBSTONE =>
        }
        index := Next(index, capacity);
        probes := probes + 1;
      }
      return FellOut;
    }

    /** `hashmap_at`: the slot whose value is addressed, or None for the null pointer. */
    method At(key: K) returns (r: Call<Option<nat>>)
      requires keyed && Shape() && capacity > 0
      ensures match Scan(policy, slots, key, 0)
        case Hit(d) => r == Returned(Some(Wrap(Home(policy, key, capacity), d, capacity)))
        case Vacant(_) => r == Returned(None)
        case FellThrough => r == FellOut
    {
      var has := Has(key);
      if has == FellOut { return FellOut; }
      if !has.value { return Returned(None); }
      ghost var h := Home(policy, key, capacity);
      var index := policy.hash(key) % capacity;
      var probes := 0;
      while probes < capacity
        invariant 0 <= probes <= capacity
        invariant probes < capacity ==> index == Wrap(h, probes, capacity)
        invariant Passed(policy, slots, key, probes)
        invariant Scan(policy, slots, key, 0) == Scan(policy, slots, key, probes)
      {
        match states[index] {
          case EMPTY =>
            return Returned(None);
          case OCCUPIED =>
            if policy.equals(key, keys[index]) {
              return Returned(Some(index));
            }
          case TOMBSTONE =>
        }
        index := Next(index, capacity);
        probes := probes + 1;
      }
      return FellOut;
    }

    method InsertAtSlot(index: nat, key: K, value: V)
      requires Shape() && index < capacity
      modifies this`elemCount, this`slots, states, keys, values
      ensures Shape() && Abstract() == State(old(slots)[index := Occupied(key, value)], old(elemCount) + 1)
    {
      keys[index] := key;
      values[index] := value;
      states[index] := OCCUPIED;
      elemCount := elemCount + 1;
      slots := slots[index := Occupied(key, value)];
    }

    method RemoveAtSlot(index: nat)
      requires Shape() && index < capacity && elemCount > 0
      modifies this`elemCount, this`slots, states, keys, values
      ensures Shape() && Abstract() == State(old(slots)[index := Tombstone], old(elemCount) - 1)
      ensures keys[index] == zeroKey && values[index] == zeroValue
    {
      keys[index] := zeroKey;
      values[index] := zeroValue;
      states[index] := TOMBSTONE;
      elemCount := elemCount - 1;
      slots := slots[index := Tombstone];
    }

    /** An equal key is removed from its slot, then inserted there. */
    method OverwriteSlot(index: nat, key: K, value: V)
      requires Shape() && index < capacity && elemCount > 0
      modifies this`elemCount, this`slots, states, keys, values
      ensures Shape() && Abstract() == State(old(slots)[index := Occupied(key, value)], old(elemCount))
    {
      ghost var t := slots;
      RemoveAtSlot(index);
      InsertAtSlot(index, key, value);
      assert t[index := Tombstone][index := Occupied(key, value)] == t[index := Occupied(key, value)];
    }

    /** The probe loop of `hashmap_insert_any`. */
    method InsertProbe(key: K, value: V) returns (r: Call<bool>)
      requires Shape() && elemCount < capacity && elemCount == |OccupiedSlots(slots)|
      modifies this`elemCount, this`slots, states, keys, values
      ensures Shape()
      ensures match InsertInto(policy, old(Abstract()), key, value)
        case Done(next, ok) => r == Returned(ok) && Abstract() == next
        case Unreachable => r == FellOut && Abstract() == old(Abstract())
    {
      ghost var t, h := slots, Home(policy, key, capacity);
      var index := policy.hash(key) % capacity;
      var tombstone: Option<nat> := None;
      var probes := 0;
      while probes < capacity
        invariant 0 <= probes <= capacity
        invariant probes < capacity ==> index == Wrap(h, probes, capacity)
        invariant Passed(policy, t, key, probes)
        invariant Scan(policy, t, key, 0) == Scan(policy, t, key, probes)
        invariant tombstone == LastTombstone(t, h, probes)
        invariant Shape() && Abstract() == old(Abstract())
      {
        match states[index] {
          case EMPTY =>
            if tombstone.Some? {
              index := tombstone.value;
            }
            InsertAtSlot(index, key, value);
            return Returned(true);
          case TOMBSTONE =>
            tombstone := Some(index);
          case OCCUPIED =>
            if policy.equals(key, keys[index]) {
              assert index in OccupiedSlots(t);
              OverwriteSlot(index, key, value);
              return Returned(true);
            }
        }
        index := Next(index, capacity);
        probes := probes + 1;
      }
      return FellOut;
    }

    /** `hashmap_remove`. */
    method RemoveProbe(key: K) returns (r: Call<bool>)
      requires Shape() && elemCount <= capacity
      modifies this`elemCount, this`slots, states, keys, values
      ensures Shape()
      ensures match HashRuns.Remove(policy, old(Abstract()), key)
        case Done(next, ok) => r == Returned(ok) && Abstract() == next
        case Unreachable => r == FellOut && Abstract() == old(Abstract())
    {
      if elemCount == 0 {
        return Returned(false);
      }
      ghost var t, h := slots, Home(policy, key, capacity);
      var index := policy.hash(key) % capacity;
      var probes := 0;
      while probes < capacity
        invariant 0 <= probes <= capacity
        invariant probes < capacity ==> index == Wrap(h, probes, capacity)
        invariant Passed(policy, t, key, probes)
        invariant Scan(policy, t, key, 0) == Scan(policy, t, key, probes)
        invariant Shape() && Abstract() == old(Abstract())
      {
        match states[index] {
          case EMPTY =>
            return Returned(false);
          case OCCUPIED =>
            if policy.equals(key, keys[index]) {
              RemoveAtSlot(index);
              return Returned(true);
            }
          case TOMBSTONE =>
        }
        index := Next(index, capacity);
        probes := probes + 1;
      }
      return FellOut;
    }

    // ---- Rehashing ----

    /** The probe loop of `hashmap_rehash` for one entry; its TOMBSTONE branch is dead. */
    method PlaceEntry(destStates: array<SlotState>, destKeys: array<K>, destValues: array<V>,
        ghost t: Table<K, V>, key: K, value: V)
      requires 0 < |t| && Holds(destStates, destKeys, destValues, t) && Distinct(destStates, destKeys, destValues)
      requires NoTombstones(t) && FirstEmpty(t, Home(policy, key, |t|), 0).Some?
      modifies destStates, destKeys, destValues
      ensures Holds(destStates, destKeys, destValues, Place(policy, t, key, value))
    {
      var n := destStates.Length;
      ghost var h := Home(policy, key, n);
      var index := policy.hash(key) % n;
      var exit := false;
      var probes := 0;
      while probes < n && !exit
        invariant 0 <= probes <= n
        invariant !exit ==> (probes < n ==> index == Wrap(h, probes, n))
        invariant !exit ==> Holds(destStates, destKeys, destValues, t)
        invariant !exit ==> Solid(t, h, probes) && FirstEmpty(t, h, 0) == FirstEmpty(t, h, probes)
        invariant exit ==> Holds(destStates, destKeys, destValues, Place(policy, t, key, value))
      {
        match destStates[index] {
          case EMPTY =>
            destKeys[index] := key;
            destValues[index] := value;
            destStates[index] := OCCUPIED;
            exit := true;
          case OCCUPIED =>
            index := Next(index, n);
          case TOMBSTONE =>
            assert false;
        }
        probes := probes + 1;
      }
    }

    /** One round of the entry loop of `hashmap_rehash`. */
    method RehashOne(destStates: array<SlotState>, destKeys: array<K>, destValues: array<V>,
        i: nat, ghost dest: Table<K, V>)
      requires Shape() && Lawful(policy) && Unique(policy, slots) && i < capacity <= |dest|
      requires Holds(destStates, destKeys, destValues, dest) && dest == Rehash(policy, slots, i, |dest|)
      requires {destStates as object, destKeys as object, destValues as object} !! Buffers()
      requires Distinct(destStates, destKeys, destValues)
      modifies destStates, destKeys, destValues
      ensures Holds(destStates, destKeys, destValues, RehashSlot(policy, slots, i, dest))
    {
      if states[i] == OCCUPIED {
        RehashKeeps(policy, slots, i, |dest|);
        PlaceSucceeds(policy, slots, i, dest);
        PlaceEntry(destStates, destKeys, destValues, dest, keys[i], values[i]);
      }
    }

    /** `hashmap_rehash`. */
    method RehashInto(destStates: array<SlotState>, destKeys: array<K>, destValues: array<V>, newCapacity: nat)
      requires Shape() && Lawful(policy) && Unique(policy, slots) && capacity < newCapacity
      requires destStates.Length == destKeys.Length == destValues.Length == newCapacity
      requires {destStates as object, destKeys as object, destValues as object} !! Buffers()
      requires Distinct(destStates, destKeys, destValues)
      modifies destStates, destKeys, destValues
      ensures Holds(destStates, destKeys, destValues, Rehash(policy, slots, |slots|, newCapacity))
    {
      forall i | 0 <= i < newCapacity { destStates[i] := EMPTY; }
      ghost var dest: Table<K, V> := AllEmpty(newCapacity);
      var i := 0;
      while i < capacity
        invariant 0 <= i <= capacity && Shape()
        invariant dest == Rehash(policy, slots, i, newCapacity) && Holds(destStates, destKeys, destValues, dest)
      {
        RehashOne(destStates, destKeys, destValues, i, dest);
        dest := RehashSlot(policy, slots, i, dest);
        i := i + 1;
      }
      RehashKeeps(policy, slots, i, newCapacity);
      ConstructRest(destStates, destKeys, destValues, dest);
    }

    /** The last loop of `hashmap_rehash`: slots left over are constructed and marked EMPTY. */
    method ConstructRest(destStates: array<SlotState>, destKeys: array<K>, destValues: array<V>, ghost t: Table<K, V>)
      requires Holds(destStates, destKeys, destValues, t) && NoTombstones(t)
      requires Distinct(destStates, destKeys, destValues)
      modifies destStates
      ensures Holds(destStates, destKeys, destValues, t)
    {
      for j := 0 to destStates.Length
        invariant Holds(destStates, destKeys, destValues, t)
      {
        if destStates[j] != OCCUPIED {
          destStates[j] := EMPTY;
        }
      }
    }

    /** `hashmap_grow`; None is the "double it" sentinel. */
    method Grow(request: Option<nat>, mem: bool) returns (ok: bool)
      requires Valid()
      modifies this
      ensures Valid() && policy == old(policy) && fresh(Buffers() - old(Buffers()))
      ensures HashRuns.Grow(policy, old(Abstract()), request, mem) == Done(Abstract(), ok)
      ensures Map() == old(Map())
      ensures ok && request.Some? ==> capacity == request.value
      ensures ok && request.None? ==> capacity == if old(capacity) == 0 then 1 else 2 * old(capacity)
    {
      GrowRefines(policy, Abstract(), request, mem);
      var newCapacity;
      match request {
        case Some(n) =>
          if n < capacity { return false; }
          if n == capacity { return true; }
          newCapacity := n;
        case None =>
          newCapacity := if capacity == 0 then 1 else 2 * capacity;
      }
      if !mem { return false; }
      var newStates, newKeys, newValues := Allocate(newCapacity);
      RehashInto(newStates, newKeys, newValues, newCapacity);
      Adopt(newStates, newKeys, newValues, newCapacity, Rehash(policy, slots, |slots|, newCapacity));
      return true;
    }

    // ---- The public operations ----

    /** `hashmap_insert` and `hashmap_insert_move`, which differ only in how the bytes travel.
        `mem` says whether the allocation of a grown table succeeds. */
    method Insert(key: K, value: V, mem: bool) returns (r: Call<bool>)
      requires Valid()
      modifies this, states, keys, values
      ensures Valid() && policy == old(policy) && fresh(Buffers() - old(Buffers()))
      ensures r == Returned(true) ==> Map() == Without(policy, old(Map()), key)[key := value]
      ensures r == Returned(true) && old(elemCount) < old(capacity) ==> capacity == old(capacity)
      ensures r == Returned(true) && old(elemCount) == old(capacity) ==>
        capacity == if old(capacity) == 0 then 1 else 2 * old(capacity)
      ensures r == Returned(false) <==> old(elemCount) == old(capacity) && !mem
      ensures r != Returned(true) ==> Abstract() == old(Abstract())
      ensures match HashRuns.Insert(policy, old(Abstract()), key, value, mem)
        case Done(next, ok) => r == Returned(ok) && Abstract() == next
        case Unreachable => r == FellOut && Abstract() == old(Abstract())
    {
      InsertRefines(policy, Abstract(), key, value, mem);
      if elemCount >= capacity {
        var grown := Grow(None, mem);
        if !grown {
          return Returned(false);
        }
      }
      r := InsertProbe(key, value);
    }

    method Remove(key: K) returns (r: Call<bool>)
      requires Valid()
      modifies this`elemCount, this`slots, states, keys, values
      ensures Valid()
      ensures r == Returned(true) ==>
        Map() == Without(policy, old(Map()), key) && Buried(policy, old(Abstract()), key, Abstract())
      ensures r != Returned(true) ==> Abstract() == old(Abstract())
      ensures r != FellOut ==> (r == Returned(true) <==> Present(policy, old(slots), key))
      ensures match HashRuns.Remove(policy, old(Abstract()), key)
        case Done(next, ok) => r == Returned(ok) && Abstract() == next
        case Unreachable => r == FellOut && Abstract() == old(Abstract())
    {
      RemoveRefines(policy, Abstract(), key);
      r := RemoveProbe(key);
    }

    /** One round of the loop of `hashmap_clear`. */
    method ClearSlot(i: nat)
      requires Shape() && i < capacity && elemCount == |OccupiedSlots(slots)|
      modifies this`elemCount, this`slots, states, keys, values
      ensures Shape() && slots == old(slots)[i := Empty] && elemCount == |OccupiedSlots(slots)|
    {
      EmptyOneSlot(slots, i);
      var state := states[i];
      if state == OCCUPIED {
        RemoveAtSlot(i);
      }
      if state != EMPTY {
        states[i] := EMPTY;
        slots := slots[i := Empty];
      }
    }

    /** The loop of `hashmap_clear`. */
    method ClearSlots()
      requires Shape() && elemCount == |OccupiedSlots(slots)|
      modifies this`elemCount, this`slots, states, keys, values
      ensures Shape() && Abstract() == Fresh(capacity)
    {
      var i := 0;
      while i < capacity
        invariant 0 <= i <= capacity && Shape() && elemCount == |OccupiedSlots(slots)|
        invariant forall j :: 0 <= j < i ==> slots[j].Empty?
      {
        ClearSlot(i);
        i := i + 1;
      }
      assert slots == AllEmpty<K, V>(capacity);
      FreshIsWellFormed<K, V>(policy, capacity);
    }

    /** `hashmap_clear`. */
    method Clear()
      requires Valid()
      modifies this`elemCount, this`slots, states, keys, values
      ensures Valid() && Abstract() == HashRuns.Clear(old(Abstract())) && Map() == map[]
    {
      ClearRefines(policy, Abstract());
      if elemCount == 0 { return; }
      ClearSlots();
    }

    /** `hashmap_copy_walloc` for plain-data keys and values: fresh buffers with the same slots. */
    method CopyFrom(src: HashMap<K, V>, mem: bool) returns (ok: bool)
      requires src.Valid()
      modifies this
      ensures ok == mem
      ensures ok ==> Valid() && policy == old(src.policy) && Abstract() == old(src.Abstract()) && fresh(Buffers())
      ensures !ok ==> unchanged(this)
    {
      if !mem { return false; }
      var newStates, newKeys, newValues := Allocate(src.capacity);
      src.RelocateInto(newStates, newKeys, newValues);
      elemCount, policy, keyed := src.elemCount, src.policy, src.keyed;
      Adopt(newStates, newKeys, newValues, src.capacity, src.slots);
      return true;
    }

    /** `hashmap_relocate_buffers` for plain-data keys and values: three block moves. */
    method RelocateInto(destStates: array<SlotState>, destKeys: array<K>, destValues: array<V>)
      requires Shape() && destStates.Length == destKeys.Length == destValues.Length == capacity
      requires {destStates as object, destKeys as object, destValues as object} !! Buffers()
      requires Distinct(destStates, destKeys, destValues)
      modifies destStates, destKeys, destValues
      ensures Holds(destStates, destKeys, destValues, slots)
    {
      forall i | 0 <= i < capacity { destKeys[i] := keys[i]; }
      forall i | 0 <= i < capacity { destValues[i] := values[i]; }
      forall i | 0 <= i < capacity { destStates[i] := states[i]; }
    }

    /** `hashmap_destroy`: entries are cleared, the buffers let go, the fields zeroed. */
    method Destroy()
      requires Valid() || Zeroed()
      modifies this, states, keys, values
      ensures Zeroed() && fresh(Buffers())
    {
      if capacity != 0 {
        Clear();
      }
      ResetState();
    }

    /** `hashmap_reset_state`. */
    method ResetState()
      modifies this
      ensures Zeroed() && fresh(Buffers())
    {
      var noStates, noKeys, noValues := Allocate(0);
      elemCount, keyed := 0, false;
      Adopt(noStates, noKeys, noValues, 0, AllEmpty(0));
    }

    /** `hashmap_move`: the old map is destroyed, ownership of the buffers passes, and the source is zeroed. */
    method MoveFrom(src: HashMap<K, V>)
      requires src != this && (Valid() || Zeroed()) && (src.Valid() || src.Zeroed()) && Buffers() !! src.Buffers()
      modifies this, states, keys, values, src
      ensures old(src.Valid()) ==> Valid() && policy == old(src.policy)
      ensures old(src.Zeroed()) ==> Zeroed()
      ensures Abstract() == old(src.Abstract()) && Buffers() == old(src.Buffers())
      ensures src.Zeroed() && fresh(src.Buffers())
    {
      Destroy();
      elemCount, policy, keyed := src.elemCount, src.policy, src.keyed;
      Adopt(src.states, src.keys, src.values, src.capacity, src.slots);
      src.ResetState();
    }

    // ---- Whole runs, in place ----

    /** One call, chosen by `op`. */
    method Apply(op: Op<K, V>) returns (r: Call<bool>)
      requires Valid()
      modifies this, states, keys, values
      ensures Valid() && policy == old(policy) && fresh(Buffers() - old(Buffers()))
      ensures match Step(policy, old(Abstract()), op)
        case Done(next, ok) => r == Returned(ok) && Abstract() == next
        case Unreachable => r == FellOut && Abstract() == old(Abstract())
    {
      match op
      case InsertOp(key, value, mem) => r := Insert(key, value, mem);
      case RemoveOp(key) => r := Remove(key);
      case LookupOp(key) => if capacity == 0 { r := FellOut; } else { r := Has(key); }
      case ClearOp => Clear(); r := Returned(true);
      case GrowOp(request, mem) => var ok := Grow(request, mem); r := Returned(ok);
    }

    /** A run of calls, up to the first that falls out: the in-place map follows the run function. */
    method ApplyAll(ops: seq<Op<K, V>>) returns (oks: Option<seq<bool>>)
      requires Valid()
      modifies this, states, keys, values
      ensures Valid() && policy == old(policy) && fresh(Buffers() - old(Buffers()))
      ensures match Run(policy, old(Abstract()), ops)
        case Finished(last, results) => oks == Some(results) && Abstract() == last
        case Stuck => oks == None
      decreases |ops|
    {
      if ops == [] {
        return Some([]);
      }
      var first := Apply(ops[0]);
      if first.FellOut? {
        return None;
      }
      var rest := ApplyAll(ops[1..]);
      if rest.None? {
        return None;
      }
      return Some([first.value] + rest.value);
    }
  }

  /** `m` is where the run `ops` from `start` leads, if that run completes. */
  ghost predicate Follows<K(!new), V>(m: HashMap<K, V>, p: KeyPolicy<K>, start: State<K, V>, ops: seq<Op<K, V>>)
    requires start.count <= |start.slots|
    reads m, m.states, m.keys, m.values
  {
    && m.Valid() && m.policy == p
    && match Run(p, start, ops) case Finished(last, _) => m.Abstract() == last case Stuck => true
  }

  /** Maps that share no buffer do not affect each other. */
  method RunBoth<K(!new), V>(m: HashMap<K, V>, n: HashMap<K, V>, mOps: seq<Op<K, V>>, nOps: seq<Op<K, V>>)
    requires m != n && m.Valid() && n.Valid() && m.Buffers() !! n.Buffers()
    modifies m, m.states, m.keys, m.values, n, n.states, n.keys, n.values
    ensures Follows(m, old(m.policy), old(m.Abstract()), mOps)
    ensures Follows(n, old(n.policy), old(n.Abstract()), nOps)
  {
    var _ := m.ApplyAll(mOps);
    assert Follows(m, old(m.policy), old(m.Abstract()), mOps);
    assert n.Valid() && n.Abstract() == old(n.Abstract()) && n.Buffers() !! m.Buffers();
    var _ := n.ApplyAll(nOps);
  }

  /** A copy and its source share no buffer: whatever runs of calls are made on the two, each follows its own run
      from the copied state. */
  method CopyIsIndependent<K(!new), V>(src: HashMap<K, V>, dest: HashMap<K, V>,
      srcOps: seq<Op<K, V>>, destOps: seq<Op<K, V>>)
    requires src != dest && src.Valid()
    modifies src, src.states, src.keys, src.values, dest
    ensures Follows(src, old(src.policy), old(src.Abstract()), srcOps)
    ensures Follows(dest, old(src.policy), old(src.Abstract()), destOps)
  {
    var _ := dest.CopyFrom(src, true);
    RunBoth(src, dest, srcOps, destOps);
  }
}
