/** What a hash table's slots mean, and what each operation does to them.

    A table is the sequence of its slots; `HashMap` keeps the same slots in three arrays and is proved
    equal to the functions of this module.  The theorems here are about those functions: the probe
    invariant, the abstract map, the exact condition under which a probe loop completes, and rehashing. */
module HashTable {
  import opened Wrappers
  import opened Align

  datatype Slot<+K, +V> = Empty | Occupied(key: K, value: V) | Tombstone

  type Table<K, V> = seq<Slot<K, V>>

  /** The `hash` and `equals` callbacks of the key lifetime policy. */
  datatype KeyPolicy<!K> = KeyPolicy(hash: K -> nat, equals: (K, K) -> bool)

  /** `equals` is any equivalence, not necessarily `==`, and equal keys hash alike. */
  ghost predicate Lawful<K(!new)>(p: KeyPolicy<K>) {
    && (forall x :: p.equals(x, x))
    && (forall x, y :: p.equals(x, y) ==> p.equals(y, x))
    && (forall x, y, z :: p.equals(x, y) && p.equals(y, z) ==> p.equals(x, z))
    && (forall x, y :: p.equals(x, y) ==> p.hash(x) == p.hash(y))
  }

  // ---- The circular probe path ----

  function Home<K>(p: KeyPolicy<K>, k: K, n: nat): (h: nat)
    requires n > 0
    ensures h < n
  {
    p.hash(k) % n
  }

  /** The slot `d` probes after slot `h` in a table of `n` slots. */
  function Wrap(h: nat, d: nat, n: nat): (i: nat)
    requires h < n && d < n
    ensures i < n
  {
    if h + d < n then h + d else h + d - n
  }

  /** The `d`th probe for `k` looks at slot `(hash + d) % n`: linear probing, once around the table. */
  lemma ProbePath<K>(p: KeyPolicy<K>, k: K, d: nat, n: nat)
    requires d < n
    ensures Wrap(Home(p, k, n), d, n) == (p.hash(k) + d) % n
  {
    var q, h := p.hash(k) / n, p.hash(k) % n;
    assert p.hash(k) == n * q + h;
    if h + d < n {
      ModIs(p.hash(k) + d, n, q, h + d);
    } else {
      assert n * (q + 1) == n * q + n;
      ModIs(p.hash(k) + d, n, q + 1, h + d - n);
    }
  }

  /** The number of probes from slot `h` to slot `i`. */
  function Dist(h: nat, i: nat, n: nat): (d: nat)
    requires h < n && i < n
    ensures d < n && Wrap(h, d, n) == i
  {
    if h <= i then i - h else i + n - h
  }

  /** No slot among the first `d` probes from `h` is Empty. */
  ghost predicate Solid<K, V>(t: Table<K, V>, h: nat, d: nat)
    requires h < |t| && d <= |t|
  {
    forall e :: 0 <= e < d ==> !t[Wrap(h, e, |t|)].Empty?
  }

  // ---- Invariant ----

  ghost predicate Unique<K, V>(p: KeyPolicy<K>, t: Table<K, V>) {
    forall i, j :: 0 <= i < |t| && 0 <= j < |t| && i != j && t[i].Occupied? && t[j].Occupied?
      ==> !p.equals(t[i].key, t[j].key)
  }

  ghost predicate Reachable<K, V>(p: KeyPolicy<K>, t: Table<K, V>, i: nat)
    requires i < |t| && t[i].Occupied?
  {
    var h := Home(p, t[i].key, |t|);
    Solid(t, h, Dist(h, i, |t|))
  }

  /** The probe invariant: keys are pairwise unequal, and no Empty slot lies on the circular path
      from an entry's home slot to the slot that holds it. */
  ghost predicate ProbeInvariant<K, V>(p: KeyPolicy<K>, t: Table<K, V>) {
    && Unique(p, t)
    && (forall i :: 0 <= i < |t| && t[i].Occupied? ==> Reachable(p, t, i))
  }

  ghost function OccupiedBelow<K, V>(t: Table<K, V>, n: nat): set<nat>
    requires n <= |t|
  {
    set i: nat | 0 <= i < n && t[i].Occupied?
  }

  ghost function OccupiedSlots<K, V>(t: Table<K, V>): set<nat> {
    OccupiedBelow(t, |t|)
  }

  ghost predicate NoTombstones<K, V>(t: Table<K, V>) {
    forall i :: 0 <= i < |t| ==> !t[i].Tombstone?
  }

  ghost predicate HasEmpty<K, V>(t: Table<K, V>) {
    exists i :: 0 <= i < |t| && t[i].Empty?
  }

  ghost predicate Present<K, V>(p: KeyPolicy<K>, t: Table<K, V>, k: K) {
    exists i :: 0 <= i < |t| && t[i].Occupied? && p.equals(k, t[i].key)
  }

  // ---- The abstract map ----

  ghost function Keys<K, V>(t: Table<K, V>): set<K> {
    set i | 0 <= i < |t| && t[i].Occupied? :: t[i].key
  }

  ghost function ValueOf<K, V>(t: Table<K, V>, k: K): V
    requires k in Keys(t)
  {
    var i :| 0 <= i < |t| && t[i].Occupied? && t[i].key == k;
    t[i].value
  }

  /** The map a table stands for. */
  ghost function Contents<K, V>(t: Table<K, V>): map<K, V> {
    map k | k in Keys(t) :: ValueOf(t, k)
  }

  /** `m` has exactly the entries held by Occupied slots. */
  ghost predicate Denotes<K, V>(t: Table<K, V>, m: map<K, V>) {
    && (forall i :: 0 <= i < |t| && t[i].Occupied? ==> t[i].key in m && m[t[i].key] == t[i].value)
    && (forall k :: k in m ==> k in Keys(t))
  }

  /** `m` without the keys that the policy calls equal to `k`; `m - {k}` when `equals` is `==`. */
  ghost function Without<K, V>(p: KeyPolicy<K>, m: map<K, V>, k: K): map<K, V> {
    map x | x in m && !p.equals(k, x) :: m[x]
  }

  lemma WithoutIsMapRemoval<K(!new), V>(p: KeyPolicy<K>, m: map<K, V>, k: K, v: V)
    requires forall x, y :: p.equals(x, y) <==> x == y
    ensures Without(p, m, k) == m - {k}
    ensures Without(p, m, k)[k := v] == m[k := v]
  {
  }

  /** Removing an inserted key leaves what was there for the other keys. */
  lemma WithoutUndoesInsert<K(!new), V>(p: KeyPolicy<K>, m: map<K, V>, k: K, v: V)
    requires Lawful(p)
    ensures Without(p, Without(p, m, k)[k := v], k) == Without(p, m, k)
    ensures (forall x :: x in m ==> !p.equals(k, x)) ==> Without(p, Without(p, m, k)[k := v], k) == m
  {
  }

  lemma {:induction false} ContentsDenotes<K(!new), V>(p: KeyPolicy<K>, t: Table<K, V>)
    requires Lawful(p) && Unique(p, t)
    ensures Denotes(t, Contents(t))
    ensures forall m :: Denotes(t, m) ==> m == Contents(t)
  {
    forall i | 0 <= i < |t| && t[i].Occupied?
      ensures t[i].key in Keys(t) && ValueOf(t, t[i].key) == t[i].value
    {
      assert t[i].key in Keys(t);
      var j :| 0 <= j < |t| && t[j].Occupied? && t[j].key == t[i].key && ValueOf(t, t[i].key) == t[j].value;
      assert p.equals(t[i].key, t[j].key);
    }
    assert Denotes(t, Contents(t));
    forall m | Denotes(t, m)
      ensures m == Contents(t)
    {
      assert forall k :: k in m <==> k in Keys(t);
      assert forall k :: k in m ==> m[k] == Contents(t)[k];
    }
  }

  // ---- Probing ----

  /** Where a probe from a key's home slot stops: at an equal key, at the first Empty slot, or nowhere
      within `capacity` probes.  `d` counts probes. */
  datatype Probe = Hit(d: nat) | Vacant(d: nat) | FellThrough

  /** The first `d` probes from `k`'s home met neither an Empty slot nor a key equal to `k`. */
  ghost predicate Passed<K, V>(p: KeyPolicy<K>, t: Table<K, V>, k: K, d: nat)
    requires 0 < |t| && d <= |t|
  {
    forall e :: 0 <= e < d ==>
      var s := t[Wrap(Home(p, k, |t|), e, |t|)];
      !s.Empty? && !(s.Occupied? && p.equals(k, s.key))
  }

  function Scan<K, V>(p: KeyPolicy<K>, t: Table<K, V>, k: K, d: nat): (r: Probe)
    requires 0 < |t| && d <= |t| && Passed(p, t, k, d)
    ensures r.Hit? ==>
      && r.d < |t| && Passed(p, t, k, r.d)
      && var s := t[Wrap(Home(p, k, |t|), r.d, |t|)]; s.Occupied? && p.equals(k, s.key)
    ensures r.Vacant? ==>
      && r.d < |t| && Passed(p, t, k, r.d)
      && t[Wrap(Home(p, k, |t|), r.d, |t|)].Empty?
    ensures r.FellThrough? ==> Passed(p, t, k, |t|)
    decreases |t| - d
  {
    if d == |t| then FellThrough else
    match t[Wrap(Home(p, k, |t|), d, |t|)]
    case Empty => Vacant(d)
    case Tombstone => Scan(p, t, k, d + 1)
    case Occupied(key, _) => if p.equals(k, key) then Hit(d) else Scan(p, t, k, d + 1)
  }

  /** The last Tombstone among the first `d` probes, if any. */
  function LastTombstone<K, V>(t: Table<K, V>, h: nat, d: nat): (r: Option<nat>)
    requires h < |t| && d <= |t|
    ensures r.Some? ==> r.value < |t| && t[r.value].Tombstone? && Dist(h, r.value, |t|) < d
  {
    if d == 0 then None
    else if t[Wrap(h, d - 1, |t|)].Tombstone? then Some(Wrap(h, d - 1, |t|))
    else LastTombstone(t, h, d - 1)
  }

  lemma {:induction false} LastTombstoneIsLast<K, V>(t: Table<K, V>, h: nat, d: nat, e: nat)
    requires h < |t| && e < d <= |t| && t[Wrap(h, e, |t|)].Tombstone?
    ensures LastTombstone(t, h, d).Some? && e <= Dist(h, LastTombstone(t, h, d).value, |t|)
  {
    if e < d - 1 && !t[Wrap(h, d - 1, |t|)].Tombstone? {
      LastTombstoneIsLast(t, h, d - 1, e);
    }
  }

  /** Among the first `d` probes from `h`, number `e` is the last that looks at a Tombstone. */
  ghost predicate LastBuried<K, V>(t: Table<K, V>, h: nat, d: nat, e: nat)
    requires h < |t| && d <= |t|
  {
    e < d && t[Wrap(h, e, |t|)].Tombstone? && forall f :: e < f < d ==> !t[Wrap(h, f, |t|)].Tombstone?
  }

  lemma TheLastBuried<K, V>(t: Table<K, V>, h: nat, d: nat, e: nat)
    requires h < |t| && d <= |t| && LastBuried(t, h, d, e)
    ensures LastTombstone(t, h, d) == Some(Wrap(h, e, |t|))
  {
    LastTombstoneIsLast(t, h, d, e);
    var i := LastTombstone(t, h, d).value;
    assert Wrap(h, Dist(h, i, |t|), |t|) == i;
  }

  /** The slot an absent key goes to when the first Empty slot is `d` probes away. */
  function InsertSlot<K, V>(t: Table<K, V>, h: nat, d: nat): (i: nat)
    requires h < |t| && d < |t|
    ensures i < |t|
  {
    match LastTombstone(t, h, d)
    case Some(i) => i
    case None => Wrap(h, d, |t|)
  }

  /** Under the probe invariant a probe hits exactly when the key is present ... */
  lemma HitIffPresent<K(!new), V>(p: KeyPolicy<K>, t: Table<K, V>, k: K)
    requires Lawful(p) && ProbeInvariant(p, t) && 0 < |t|
    ensures Scan(p, t, k, 0).Hit? <==> Present(p, t, k)
  {
    if Present(p, t, k) {
      var i :| 0 <= i < |t| && t[i].Occupied? && p.equals(k, t[i].key);
      var h := Home(p, k, |t|);
      assert Reachable(p, t, i) && h == Home(p, t[i].key, |t|);
      assert Solid(t, h, Dist(h, i, |t|));
      var r := Scan(p, t, k, 0);
      assert Wrap(h, Dist(h, i, |t|), |t|) == i;
    }
  }

  /** ... and, with no invariant at all, it falls through exactly when the key is absent and no slot is
      Empty: `capacity` wrap-around probes visit every slot. */
  lemma FallsThroughIff<K(!new), V>(p: KeyPolicy<K>, t: Table<K, V>, k: K)
    requires 0 < |t|
    ensures Scan(p, t, k, 0).FellThrough? <==> !Present(p, t, k) && !HasEmpty(t)
  {
    var h := Home(p, k, |t|);
    if Scan(p, t, k, 0).FellThrough? {
      forall i | 0 <= i < |t|
        ensures !t[i].Empty? && !(t[i].Occupied? && p.equals(k, t[i].key))
      {
        assert Wrap(h, Dist(h, i, |t|), |t|) == i;
      }
    }
  }

  // ---- Changing one slot ----

  /** Filling slot `i` with `k`, where `i` is vacant or already holds an equal key, no other slot holds
      one, and the path from `k`'s home to `i` has no Empty slot. */
  lemma FillSlot<K(!new), V>(p: KeyPolicy<K>, t: Table<K, V>, i: nat, k: K, v: V)
    requires Lawful(p) && ProbeInvariant(p, t) && i < |t|
    requires t[i].Occupied? ==> p.equals(k, t[i].key)
    requires forall j :: 0 <= j < |t| && j != i && t[j].Occupied? ==> !p.equals(k, t[j].key)
    requires Solid(t, Home(p, k, |t|), Dist(Home(p, k, |t|), i, |t|))
    ensures ProbeInvariant(p, t[i := Occupied(k, v)])
    ensures Contents(t[i := Occupied(k, v)]) == Without(p, Contents(t), k)[k := v]
    ensures OccupiedSlots(t[i := Occupied(k, v)]) == OccupiedSlots(t) + {i}
  {
    var t' := t[i := Occupied(k, v)];
    assert Unique(p, t');
    forall j | 0 <= j < |t'| && t'[j].Occupied?
      ensures Reachable(p, t', j)
    {
      assert j != i ==> Reachable(p, t, j);
    }
    ContentsDenotes(p, t);
    ContentsDenotes(p, t');
    var m := Without(p, Contents(t), k)[k := v];
    forall x | x in m
      ensures x in Keys(t')
    {
      if x == k {
        assert t'[i].key == k;
      } else {
        var j :| 0 <= j < |t| && t[j].Occupied? && t[j].key == x;
        assert t'[j].key == x;
      }
    }
    assert Denotes(t', m);
  }

  /** Turning the slot of `k` into a Tombstone. */
  lemma BurySlot<K(!new), V>(p: KeyPolicy<K>, t: Table<K, V>, i: nat, k: K)
    requires Lawful(p) && ProbeInvariant(p, t) && i < |t|
    requires t[i].Occupied? && p.equals(k, t[i].key)
    ensures ProbeInvariant(p, t[i := Tombstone])
    ensures Contents(t[i := Tombstone]) == Without(p, Contents(t), k)
    ensures OccupiedSlots(t[i := Tombstone]) == OccupiedSlots(t) - {i}
  {
    var t' := t[i := Tombstone];
    assert Unique(p, t');
    forall j | 0 <= j < |t'| && t'[j].Occupied?
      ensures Reachable(p, t', j)
    {
      assert Reachable(p, t, j);
    }
    BuryContents(p, t, i, k);
  }

  lemma BuryContents<K(!new), V>(p: KeyPolicy<K>, t: Table<K, V>, i: nat, k: K)
    requires i < |t| && t[i].Occupied? && p.equals(k, t[i].key)
    requires Lawful(p) && Unique(p, t) && Unique(p, t[i := Tombstone])
    ensures Contents(t[i := Tombstone]) == Without(p, Contents(t), k)
  {
    var t' := t[i := Tombstone];
    ContentsDenotes(p, t);
    ContentsDenotes(p, t');
    var m := Without(p, Contents(t), k);
    forall j | 0 <= j < |t'| && t'[j].Occupied?
      ensures t'[j].key in m && m[t'[j].key] == t'[j].value
    {
      assert !p.equals(t[i].key, t[j].key);
    }
    forall x | x in m
      ensures x in Keys(t')
    {
      var j :| 0 <= j < |t| && t[j].Occupied? && t[j].key == x;
      assert t'[j].key == x;
    }
    assert Denotes(t', m);
  }
}
