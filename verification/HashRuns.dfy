/** The operations of a hash table as functions from state to state, what they do to the abstract map,
    exactly when their probe loops fail to complete, and what holds over whole runs. */
module HashRuns {
  import opened Wrappers
  import opened Ranges
  import opened HashTable
  import opened Align
  import GrowthPolicy

  /** The slots and the element counter of a hash map. */
  datatype State<+K, +V> = State(slots: seq<Slot<K, V>>, count: nat)

  /** A call returns (`ok` is its result), or its probe loop runs out of probes and control reaches
      the UNREACHABLE marker behind it. A lookup in a table of no slots, where the C code takes a remainder
      by zero, counts as running out too. */
  datatype Outcome<+K, +V> = Done(next: State<K, V>, ok: bool) | Unreachable

  ghost predicate WellFormed<K, V>(p: KeyPolicy<K>, s: State<K, V>) {
    && ProbeInvariant(p, s.slots)
    && s.count == |OccupiedSlots(s.slots)|
    && s.count <= |s.slots|
  }

  // ---- Cardinalities ----

  /** Pigeonhole: fewer entries than slots and no tombstones leave an Empty slot. */
  lemma EmptySlotExists<K, V>(t: Table<K, V>)
    requires NoTombstones(t) && |OccupiedSlots(t)| < |t|
    ensures HasEmpty(t)
  {
    assert (forall i :: 0 <= i < |t| ==> t[i].Occupied?) ==> OccupiedSlots(t) == Below(|t|);
  }

  ghost function TombstoneSlots<K, V>(t: Table<K, V>): set<nat> {
    set i: nat | 0 <= i < |t| && t[i].Tombstone?
  }

  /** Entries and tombstones together fill a table exactly when no slot is Empty. */
  lemma EmptySlotIff<K, V>(t: Table<K, V>)
    ensures |OccupiedSlots(t)| + |TombstoneSlots(t)| <= |t|
    ensures HasEmpty(t) <==> |OccupiedSlots(t)| + |TombstoneSlots(t)| < |t|
  {
    var filled := OccupiedSlots(t) + TombstoneSlots(t);
    assert OccupiedSlots(t) !! TombstoneSlots(t);
    SubsetSize(filled, Below(|t|));
    if i :| 0 <= i < |t| && t[i].Empty? {
      assert i in Below(|t|) && i !in filled;
    } else {
      assert forall i: nat :: i < |t| ==> i in filled;
      assert filled == Below(|t|);
    }
  }

  lemma CountAtMostCapacity<K, V>(t: Table<K, V>)
    ensures |OccupiedSlots(t)| <= |t|
  {
    SubsetSize(OccupiedSlots(t), Below(|t|));
  }

  ghost function KeysOf<K, V>(t: Table<K, V>, slots: set<nat>): set<K>
    requires slots <= OccupiedSlots(t)
  {
    set i | i in slots :: t[i].key
  }

  lemma {:induction false} DistinctKeys<K(!new), V>(p: KeyPolicy<K>, t: Table<K, V>, slots: set<nat>)
    requires Lawful(p) && Unique(p, t) && slots <= OccupiedSlots(t)
    ensures |KeysOf(t, slots)| == |slots|
    decreases |slots|
  {
    if slots != {} {
      var i :| i in slots;
      DistinctKeys(p, t, slots - {i});
      assert KeysOf(t, slots) == KeysOf(t, slots - {i}) + {t[i].key};
      assert t[i].key !in KeysOf(t, slots - {i});
    }
  }

  /** The element counter is the size of the abstract map. */
  lemma CountIsMapSize<K(!new), V>(p: KeyPolicy<K>, s: State<K, V>)
    requires Lawful(p) && WellFormed(p, s)
    ensures s.count == |Contents(s.slots)| <= |s.slots|
  {
    DistinctKeys(p, s.slots, OccupiedSlots(s.slots));
    assert KeysOf(s.slots, OccupiedSlots(s.slots)) == Keys(s.slots) == Contents(s.slots).Keys;
  }

  // ---- Rehashing ----

  /** The number of probes from `h` to the first Empty slot; None when the probe loop of a rehash runs
      out, or meets a Tombstone. */
  function FirstEmpty<K, V>(t: Table<K, V>, h: nat, d: nat): (r: Option<nat>)
    requires h < |t| && d <= |t| && Solid(t, h, d)
    ensures r.Some? ==> r.value < |t| && Solid(t, h, r.value) && t[Wrap(h, r.value, |t|)].Empty?
    ensures r.None? && NoTombstones(t) ==> Solid(t, h, |t|)
    decreases |t| - d
  {
    if d == |t| then None else
    match t[Wrap(h, d, |t|)]
    case Empty => Some(d)
    case Tombstone => None
    case Occupied(_, _) => FirstEmpty(t, h, d + 1)
  }

  function Place<K, V>(p: KeyPolicy<K>, t: Table<K, V>, k: K, v: V): (r: Table<K, V>)
    requires 0 < |t|
    ensures |r| == |t|
  {
    var h := Home(p, k, |t|);
    match FirstEmpty(t, h, 0)
    case Some(d) => t[Wrap(h, d, |t|) := Occupied(k, v)]
    case None => t
  }

  /** What one round of the rehash loop leaves in `dest`. */
  function RehashSlot<K, V>(p: KeyPolicy<K>, src: Table<K, V>, i: nat, dest: Table<K, V>): (r: Table<K, V>)
    requires i < |src| && 0 < |dest|
    ensures |r| == |dest|
  {
    if src[i].Occupied? then Place(p, dest, src[i].key, src[i].value) else dest
  }

  function AllEmpty<K, V>(n: nat): (t: Table<K, V>)
    ensures |t| == n
  {
    seq(n, _ => Empty)
  }

  /** A table of `n` slots into which the first `i` slots of `src` have been rehashed, in slot order. */
  function Rehash<K, V>(p: KeyPolicy<K>, src: Table<K, V>, i: nat, n: nat): (r: Table<K, V>)
    requires i <= |src| && 0 < n
    ensures |r| == n
  {
    if i == 0 then AllEmpty(n) else RehashSlot(p, src, i - 1, Rehash(p, src, i - 1, n))
  }

  /** `dest` holds exactly the entries in the first `i` slots of `src`, and no tombstones. */
  ghost predicate Rehashed<K, V>(p: KeyPolicy<K>, src: Table<K, V>, i: nat, dest: Table<K, V>)
    requires i <= |src|
  {
    && ProbeInvariant(p, dest)
    && NoTombstones(dest)
    && |OccupiedSlots(dest)| == |OccupiedBelow(src, i)|
    && SameEntries(src, i, dest)
  }

  ghost predicate SameEntries<K, V>(src: Table<K, V>, i: nat, dest: Table<K, V>)
    requires i <= |src|
  {
    && (forall j :: 0 <= j < i && src[j].Occupied? ==> src[j] in dest)
    && (forall d :: 0 <= d < |dest| && dest[d].Occupied? ==> dest[d] in src[..i])
  }

  /** Every entry finds an Empty slot within the probes allowed: neither the fall-through nor the
      TOMBSTONE branch of the rehash loop is taken. */
  lemma PlaceSucceeds<K(!new), V>(p: KeyPolicy<K>, src: Table<K, V>, i: nat, dest: Table<K, V>)
    requires i < |src| <= |dest| && src[i].Occupied?
    requires Rehashed(p, src, i, dest)
    ensures FirstEmpty(dest, Home(p, src[i].key, |dest|), 0).Some?
  {
    var h := Home(p, src[i].key, |dest|);
    CountAtMostCapacity(src[..i]);
    assert OccupiedBelow(src, i) == OccupiedSlots(src[..i]);
    EmptySlotExists(dest);
    var e :| 0 <= e < |dest| && dest[e].Empty?;
    assert Wrap(h, Dist(h, e, |dest|), |dest|) == e;
  }

  lemma NotYetPlaced<K(!new), V>(p: KeyPolicy<K>, src: Table<K, V>, i: nat, dest: Table<K, V>)
    requires Lawful(p) && Unique(p, src) && i < |src| && src[i].Occupied?
    requires Rehashed(p, src, i, dest)
    ensures forall j :: 0 <= j < |dest| && dest[j].Occupied? ==> !p.equals(src[i].key, dest[j].key)
  {
    forall j | 0 <= j < |dest| && dest[j].Occupied?
      ensures !p.equals(src[i].key, dest[j].key)
    {
      var j' :| 0 <= j' < i && src[j'] == dest[j];
      assert !p.equals(src[i].key, src[j'].key);
    }
  }

  lemma PlaceEntries<K, V>(src: Table<K, V>, i: nat, dest: Table<K, V>, w: nat)
    requires i < |src| && src[i].Occupied? && w < |dest| && dest[w].Empty?
    requires SameEntries(src, i, dest)
    ensures SameEntries(src, i + 1, dest[w := src[i]])
  {
    var dest' := dest[w := src[i]];
    assert src[..i + 1] == src[..i] + [src[i]];
    forall j | 0 <= j < i + 1 && src[j].Occupied?
      ensures src[j] in dest'
    {
      if j < i {
        var c :| 0 <= c < |dest| && dest[c] == src[j];
        assert dest'[c] == src[j];
      } else {
        assert dest'[w] == src[i];
      }
    }
  }

  /** The slot a rehashed entry goes to. */
  function PlaceSlot<K, V>(p: KeyPolicy<K>, t: Table<K, V>, k: K): (w: nat)
    requires 0 < |t| && FirstEmpty(t, Home(p, k, |t|), 0).Some?
    ensures w < |t| && t[w].Empty?
  {
    Wrap(Home(p, k, |t|), FirstEmpty(t, Home(p, k, |t|), 0).value, |t|)
  }

  lemma PlaceInvariant<K(!new), V>(p: KeyPolicy<K>, t: Table<K, V>, k: K, v: V)
    requires Lawful(p) && ProbeInvariant(p, t) && NoTombstones(t) && 0 < |t|
    requires FirstEmpty(t, Home(p, k, |t|), 0).Some?
    requires forall j :: 0 <= j < |t| && t[j].Occupied? ==> !p.equals(k, t[j].key)
    ensures Place(p, t, k, v) == t[PlaceSlot(p, t, k) := Occupied(k, v)]
    ensures ProbeInvariant(p, Place(p, t, k, v)) && NoTombstones(Place(p, t, k, v))
    ensures |OccupiedSlots(Place(p, t, k, v))| == |OccupiedSlots(t)| + 1
  {
    var h := Home(p, k, |t|);
    var w := PlaceSlot(p, t, k);
    assert Dist(h, w, |t|) == FirstEmpty(t, h, 0).value;
    FillSlot(p, t, w, k, v);
  }

  lemma PlaceKeeps<K(!new), V>(p: KeyPolicy<K>, src: Table<K, V>, i: nat, dest: Table<K, V>)
    requires Lawful(p) && Unique(p, src) && i < |src| <= |dest| && src[i].Occupied?
    requires Rehashed(p, src, i, dest)
    ensures Rehashed(p, src, i + 1, Place(p, dest, src[i].key, src[i].value))
  {
    assert |OccupiedBelow(src, i + 1)| == |OccupiedBelow(src, i)| + 1 by {
      assert OccupiedBelow(src, i + 1) == OccupiedBelow(src, i) + {i};
    }
    assert FirstEmpty(dest, Home(p, src[i].key, |dest|), 0).Some? by {
      PlaceSucceeds(p, src, i, dest);
    }
    PlaceEntries(src, i, dest, PlaceSlot(p, dest, src[i].key));
    NotYetPlaced(p, src, i, dest);
    PlaceInvariant(p, dest, src[i].key, src[i].value);
  }

  lemma SkipKeeps<K, V>(p: KeyPolicy<K>, src: Table<K, V>, i: nat, dest: Table<K, V>)
    requires i < |src| && !src[i].Occupied? && Rehashed(p, src, i, dest)
    ensures Rehashed(p, src, i + 1, dest)
  {
    assert OccupiedBelow(src, i + 1) == OccupiedBelow(src, i);
    assert src[..i + 1] == src[..i] + [src[i]];
  }

  lemma RehashSlotKeeps<K(!new), V>(p: KeyPolicy<K>, src: Table<K, V>, i: nat, dest: Table<K, V>)
    requires Lawful(p) && Unique(p, src) && i < |src| <= |dest| && Rehashed(p, src, i, dest)
    ensures Rehashed(p, src, i + 1, RehashSlot(p, src, i, dest))
  {
    if src[i].Occupied? {
      PlaceKeeps(p, src, i, dest);
    } else {
      SkipKeeps(p, src, i, dest);
    }
  }

  lemma NothingRehashed<K, V>(p: KeyPolicy<K>, src: Table<K, V>, n: nat)
    requires 0 < n
    ensures Rehashed(p, src, 0, AllEmpty(n))
  {
    assert OccupiedSlots(AllEmpty<K, V>(n)) == {} && OccupiedBelow(src, 0) == {};
  }

  lemma {:induction false} RehashKeeps<K(!new), V>(p: KeyPolicy<K>, src: Table<K, V>, i: nat, n: nat)
    requires Lawful(p) && Unique(p, src) && i <= |src| <= n && 0 < n
    ensures Rehashed(p, src, i, Rehash(p, src, i, n))
  {
    if i == 0 {
      NothingRehashed(p, src, n);
    } else {
      RehashKeeps(p, src, i - 1, n);
      RehashSlotKeeps(p, src, i - 1, Rehash(p, src, i - 1, n));
    }
  }

  /** Rehashing preserves meaning under any change of modulus to a table at least as large. */
  lemma RehashPreservesMeaning<K(!new), V>(p: KeyPolicy<K>, src: Table<K, V>, n: nat)
    requires Lawful(p) && Unique(p, src) && |src| <= n && 0 < n
    ensures var dest := Rehash(p, src, |src|, n);
      && |dest| == n && ProbeInvariant(p, dest) && NoTombstones(dest)
      && Contents(dest) == Contents(src)
      && |OccupiedSlots(dest)| == |OccupiedSlots(src)|
  {
    RehashKeeps(p, src, |src|, n);
    SameEntriesSameContents(p, src, Rehash(p, src, |src|, n));
  }

  lemma {:induction false} RehashKeepsEntries<K, V>(p: KeyPolicy<K>, src: Table<K, V>, i: nat, j: nat, n: nat, d: nat)
    requires i <= j <= |src| && 0 < n && d < n && Rehash(p, src, i, n)[d].Occupied?
    ensures Rehash(p, src, j, n)[d] == Rehash(p, src, i, n)[d]
    decreases j
  {
    if i < j {
      RehashKeepsEntries(p, src, i, j - 1, n, d);
    }
  }

  /** The next entry goes farther from its home than the entries placed before that have the same home. */
  lemma PlacedBehind<K(!new), V>(p: KeyPolicy<K>, dest: Table<K, V>, k: K, a: nat)
    requires Lawful(p) && ProbeInvariant(p, dest) && a < |dest| && dest[a].Occupied?
    requires Home(p, dest[a].key, |dest|) == Home(p, k, |dest|) && FirstEmpty(dest, Home(p, k, |dest|), 0).Some?
    ensures var h, n := Home(p, k, |dest|), |dest|; Dist(h, a, n) < Dist(h, PlaceSlot(p, dest, k), n)
  {
    var h, n, b := Home(p, k, |dest|), |dest|, PlaceSlot(p, dest, k);
    assert Reachable(p, dest, a) && Dist(h, b, n) == FirstEmpty(dest, h, 0).value;
    assert Wrap(h, Dist(h, a, n), n) == a && Wrap(h, Dist(h, b, n), n) == b;
  }

  lemma RehashNext<K(!new), V>(p: KeyPolicy<K>, src: Table<K, V>, n: nat, i: nat, j: nat) returns (a: nat, b: nat)
    requires Lawful(p) && Unique(p, src) && |src| <= n && i < j < |src|
    requires src[i].Occupied? && src[j].Occupied? && Home(p, src[i].key, n) == Home(p, src[j].key, n)
    ensures var dest, h := Rehash(p, src, j + 1, n), Home(p, src[i].key, n);
      a < n && b < n && dest[a] == src[i] && dest[b] == src[j] && Dist(h, a, n) < Dist(h, b, n)
  {
    var dest := Rehash(p, src, j, n);
    RehashKeeps(p, src, j, n);
    PlaceSucceeds(p, src, j, dest);
    a :| 0 <= a < n && dest[a] == src[i];
    b := PlaceSlot(p, dest, src[j].key);
    PlacedBehind(p, dest, src[j].key, a);
    assert Rehash(p, src, j + 1, n) == dest[b := src[j]];
  }

  /** Entries are rehashed in slot order: of two with the same new home, the one from the lower slot ends up nearer to
      that home. */
  lemma RehashKeepsOrder<K(!new), V>(p: KeyPolicy<K>, src: Table<K, V>, n: nat, i: nat, j: nat)
    requires Lawful(p) && Unique(p, src) && |src| <= n && i < j < |src|
    requires src[i].Occupied? && src[j].Occupied? && Home(p, src[i].key, n) == Home(p, src[j].key, n)
    ensures var dest, h := Rehash(p, src, |src|, n), Home(p, src[i].key, n);
      exists a, b :: 0 <= a < n && 0 <= b < n && dest[a] == src[i] && dest[b] == src[j] && Dist(h, a, n) < Dist(h, b, n)
  {
    var a, b := RehashNext(p, src, n, i, j);
    RehashKeepsEntries(p, src, j + 1, |src|, n, a);
    RehashKeepsEntries(p, src, j + 1, |src|, n, b);
  }

  lemma SameEntriesSameContents<K(!new), V>(p: KeyPolicy<K>, src: Table<K, V>, dest: Table<K, V>)
    requires Lawful(p) && Unique(p, src) && Unique(p, dest) && SameEntries(src, |src|, dest)
    ensures Contents(dest) == Contents(src)
  {
    assert src[..|src|] == src;
    ContentsDenotes(p, src);
    ContentsDenotes(p, dest);
    forall k | k in Contents(src)
      ensures k in Keys(dest)
    {
      var j :| 0 <= j < |src| && src[j].Occupied? && src[j].key == k;
      var d :| 0 <= d < |dest| && dest[d] == src[j];
      assert dest[d].key == k;
    }
    assert Denotes(dest, Contents(src));
  }

  // ---- Operations ----

  /** `request` is None for the "double it" sentinel; `mem` says whether allocation succeeds. */
  function Grow<K, V>(p: KeyPolicy<K>, s: State<K, V>, request: Option<nat>, mem: bool): (r: Outcome<K, V>)
    ensures r.Done? && r.next.count == s.count && |s.slots| <= |r.next.slots|
  {
    var n := match request case Some(c) => c case None => GrowthPolicy.Twice(|s.slots|);
    if request.Some? && n < |s.slots| then Done(s, false)
    else if request.Some? && n == |s.slots| then Done(s, true)
    else if !mem then Done(s, false)
    else Done(State(Rehash(p, s.slots, |s.slots|, n), s.count), true)
  }

  function InsertInto<K, V>(p: KeyPolicy<K>, s: State<K, V>, k: K, v: V): (r: Outcome<K, V>)
    requires s.count < |s.slots|
    ensures r.Done? ==> r.ok && r.next.count <= |r.next.slots| == |s.slots|
  {
    var h := Home(p, k, |s.slots|);
    match Scan(p, s.slots, k, 0)
    case Hit(d) => Done(State(s.slots[Wrap(h, d, |s.slots|) := Occupied(k, v)], s.count), true)
    case Vacant(d) => Done(State(s.slots[InsertSlot(s.slots, h, d) := Occupied(k, v)], s.count + 1), true)
    case FellThrough => Unreachable
  }

  function Insert<K, V>(p: KeyPolicy<K>, s: State<K, V>, k: K, v: V, mem: bool): (r: Outcome<K, V>)
    requires s.count <= |s.slots|
    ensures r.Done? ==> r.next.count <= |r.next.slots|
  {
    if s.count >= |s.slots| then
      var g := Grow(p, s, None, mem);
      if !g.ok then g else InsertInto(p, g.next, k, v)
    else InsertInto(p, s, k, v)
  }

  function Remove<K, V>(p: KeyPolicy<K>, s: State<K, V>, k: K): (r: Outcome<K, V>)
    requires s.count <= |s.slots|
    ensures r.Done? ==> r.next.count <= |r.next.slots| == |s.slots|
  {
    if s.count == 0 then Done(s, false) else
    match Scan(p, s.slots, k, 0)
    case Hit(d) => Done(State(s.slots[Wrap(Home(p, k, |s.slots|), d, |s.slots|) := Tombstone], s.count - 1), true)
    case Vacant(_) => Done(s, false)
    case FellThrough => Unreachable
  }

  /** Clearing an empty map returns at once, tombstones and all. */
  function Clear<K, V>(s: State<K, V>): (r: State<K, V>)
    ensures |r.slots| == |s.slots|
  {
    if s.count == 0 then s else State(AllEmpty(|s.slots|), 0)
  }

  // ---- Each operation refines its map operation ----

  /** An equal key is overwritten in its slot. */
  lemma OverwriteRefines<K(!new), V>(p: KeyPolicy<K>, s: State<K, V>, k: K, v: V)
    requires Lawful(p) && WellFormed(p, s) && s.count < |s.slots| && Scan(p, s.slots, k, 0).Hit?
    ensures var r := InsertInto(p, s, k, v);
      && r.Done? && WellFormed(p, r.next) && Contents(r.next.slots) == Without(p, Contents(s.slots), k)[k := v]
  {
    var t, n := s.slots, |s.slots|;
    var h, d := Home(p, k, n), Scan(p, s.slots, k, 0).d;
    var i := Wrap(h, d, n);
    assert Dist(h, i, n) == d;
    forall j | 0 <= j < n && j != i && t[j].Occupied?
      ensures !p.equals(k, t[j].key)
    {
      assert p.equals(k, t[i].key) && !p.equals(t[i].key, t[j].key);
    }
    FillSlot(p, t, i, k, v);
    assert OccupiedSlots(t) + {i} == OccupiedSlots(t);
  }

  /** An absent key goes to the last Tombstone before the first Empty slot, or to that Empty slot. */
  lemma NewKeyRefines<K(!new), V>(p: KeyPolicy<K>, s: State<K, V>, k: K, v: V)
    requires Lawful(p) && WellFormed(p, s) && s.count < |s.slots| && Scan(p, s.slots, k, 0).Vacant?
    ensures var r := InsertInto(p, s, k, v);
      && r.Done? && WellFormed(p, r.next) && Contents(r.next.slots) == Without(p, Contents(s.slots), k)[k := v]
  {
    var t, n := s.slots, |s.slots|;
    var h, d := Home(p, k, n), Scan(p, s.slots, k, 0).d;
    var i := InsertSlot(t, h, d);
    HitIffPresent(p, t, k);
    assert Dist(h, i, n) <= d && !t[i].Occupied?;
    FillSlot(p, t, i, k, v);
  }

  lemma FillTombstones<K, V>(t: Table<K, V>, i: nat, k: K, v: V)
    requires i < |t|
    ensures TombstoneSlots(t[i := Occupied(k, v)]) == TombstoneSlots(t) - {i}
    ensures t[i].Tombstone? ==> |TombstoneSlots(t[i := Occupied(k, v)])| == |TombstoneSlots(t)| - 1
    ensures !t[i].Tombstone? ==> |TombstoneSlots(t[i := Occupied(k, v)])| == |TombstoneSlots(t)|
  {
    if t[i].Tombstone? {
      assert i in TombstoneSlots(t);
    } else {
      assert TombstoneSlots(t) - {i} == TombstoneSlots(t);
    }
  }

  /** Where an absent key goes: if there are Tombstones before the first Empty slot, the last of them is reused and
      their number drops by one; otherwise that Empty slot is filled. No other slot changes. */
  lemma NewKeySlot<K, V>(p: KeyPolicy<K>, s: State<K, V>, k: K, v: V)
    requires s.count < |s.slots| && Scan(p, s.slots, k, 0).Vacant?
    ensures var t, n, h, d := s.slots, |s.slots|, Home(p, k, |s.slots|), Scan(p, s.slots, k, 0).d;
      var r := InsertInto(p, s, k, v);
      && r.Done? && r.next.count == s.count + 1
      && (forall e :: LastBuried(t, h, d, e) ==>
          && r.next.slots == t[Wrap(h, e, n) := Occupied(k, v)]
          && |TombstoneSlots(r.next.slots)| == |TombstoneSlots(t)| - 1)
      && ((exists e :: 0 <= e < d && t[Wrap(h, e, n)].Tombstone?) ==> exists e :: LastBuried(t, h, d, e))
      && ((forall e :: 0 <= e < d ==> !t[Wrap(h, e, n)].Tombstone?) ==>
          && r.next.slots == t[Wrap(h, d, n) := Occupied(k, v)]
          && |TombstoneSlots(r.next.slots)| == |TombstoneSlots(t)|)
  {
    var t, n, h, d := s.slots, |s.slots|, Home(p, k, |s.slots|), Scan(p, s.slots, k, 0).d;
    FillTombstones(t, InsertSlot(t, h, d), k, v);
    forall e | LastBuried(t, h, d, e)
      ensures InsertSlot(t, h, d) == Wrap(h, e, n) && t[Wrap(h, e, n)].Tombstone?
    {
      TheLastBuried(t, h, d, e);
    }
    if e :| 0 <= e < d && t[Wrap(h, e, n)].Tombstone? {
      SomeLastBuried(t, h, d, e);
    } else {
      NoneBuried(t, h, d);
    }
  }

  lemma {:induction false} NoneBuried<K, V>(t: Table<K, V>, h: nat, d: nat)
    requires h < |t| && d <= |t| && forall e :: 0 <= e < d ==> !t[Wrap(h, e, |t|)].Tombstone?
    ensures LastTombstone(t, h, d) == None
  {
    if d > 0 {
      NoneBuried(t, h, d - 1);
    }
  }

  lemma {:induction false} SomeLastBuried<K, V>(t: Table<K, V>, h: nat, d: nat, e: nat)
    requires h < |t| && e < d <= |t| && t[Wrap(h, e, |t|)].Tombstone?
    ensures exists f :: LastBuried(t, h, d, f)
    decreases d - e
  {
    if f :| e < f < d && t[Wrap(h, f, |t|)].Tombstone? {
      SomeLastBuried(t, h, d, f);
    } else {
      assert LastBuried(t, h, d, e);
    }
  }

  /** A key that is there is overwritten where it is, and nothing else changes. */
  lemma OverwriteSlot<K, V>(p: KeyPolicy<K>, s: State<K, V>, k: K, v: V)
    requires s.count < |s.slots| && Scan(p, s.slots, k, 0).Hit?
    ensures var r := InsertInto(p, s, k, v);
      && r.Done? && r.next.count == s.count
      && exists i :: 0 <= i < |s.slots| && s.slots[i].Occupied? && p.equals(k, s.slots[i].key)
          && r.next.slots == s.slots[i := Occupied(k, v)]
  {
    var i := Wrap(Home(p, k, |s.slots|), Scan(p, s.slots, k, 0).d, |s.slots|);
    assert s.slots[i].Occupied? && p.equals(k, s.slots[i].key);
  }

  lemma InsertIntoRefines<K(!new), V>(p: KeyPolicy<K>, s: State<K, V>, k: K, v: V)
    requires Lawful(p) && WellFormed(p, s) && s.count < |s.slots|
    ensures var r := InsertInto(p, s, k, v);
      && (r.Unreachable? <==> !Present(p, s.slots, k) && !HasEmpty(s.slots))
      && (r.Done? ==> WellFormed(p, r.next) && Contents(r.next.slots) == Without(p, Contents(s.slots), k)[k := v])
      && (r.Done? && NoTombstones(s.slots) ==> NoTombstones(r.next.slots))
  {
    FallsThroughIff(p, s.slots, k);
    match Scan(p, s.slots, k, 0)
    case Hit(_) => OverwriteRefines(p, s, k, v);
    case Vacant(_) => NewKeyRefines(p, s, k, v);
    case FellThrough =>
  }

  /** Insert is `m[k := v]`, or leaves the state alone when the table is full and cannot grow.  It runs out
      of probes exactly when the table is not full, the key is absent and no slot is Empty. */
  lemma InsertRefines<K(!new), V>(p: KeyPolicy<K>, s: State<K, V>, k: K, v: V, mem: bool)
    requires Lawful(p) && WellFormed(p, s)
    ensures var r := Insert(p, s, k, v, mem);
      && (r.Unreachable? <==> s.count < |s.slots| && !Present(p, s.slots, k) && !HasEmpty(s.slots))
      && (r.Done? ==> WellFormed(p, r.next) && (r.ok <==> s.count < |s.slots| || mem))
      && (r.Done? && r.ok ==> Contents(r.next.slots) == Without(p, Contents(s.slots), k)[k := v])
      && (r.Done? && !r.ok ==> r.next == s)
      && (r.Done? && r.ok ==>
          |r.next.slots| == if s.count < |s.slots| then |s.slots| else if |s.slots| == 0 then 1 else 2 * |s.slots|)
      && (r.Done? && NoTombstones(s.slots) ==> NoTombstones(r.next.slots))
  {
    if s.count < |s.slots| {
      InsertIntoRefines(p, s, k, v);
    } else if mem {
      GrowRefines(p, s, None, mem);
      var g := Grow(p, s, None, mem).next;
      EmptySlotExists(g.slots);
      InsertIntoRefines(p, g, k, v);
    }
  }

  /** One slot, that of a key equal to `k`, has become a Tombstone. */
  ghost predicate Buried<K, V>(p: KeyPolicy<K>, s: State<K, V>, k: K, next: State<K, V>) {
    exists i :: 0 <= i < |s.slots| && s.slots[i].Occupied? && p.equals(k, s.slots[i].key)
      && next.slots == s.slots[i := Tombstone]
  }

  lemma BuryRefines<K(!new), V>(p: KeyPolicy<K>, s: State<K, V>, k: K)
    requires Lawful(p) && WellFormed(p, s) && s.count > 0 && Scan(p, s.slots, k, 0).Hit?
    ensures var r := Remove(p, s, k);
      && r.Done? && r.ok && WellFormed(p, r.next) && Contents(r.next.slots) == Without(p, Contents(s.slots), k)
      && Buried(p, s, k, r.next)
  {
    var t := s.slots;
    var i := Wrap(Home(p, k, |t|), Scan(p, t, k, 0).d, |t|);
    BurySlot(p, t, i, k);
    assert i in OccupiedSlots(t);
  }

  /** Remove is `m - {k}` and reports whether the key was there.  It runs out of probes exactly when the
      map is nonempty, the key is absent and no slot is Empty. */
  lemma RemoveRefines<K(!new), V>(p: KeyPolicy<K>, s: State<K, V>, k: K)
    requires Lawful(p) && WellFormed(p, s)
    ensures var r := Remove(p, s, k);
      && (r.Unreachable? <==> s.count > 0 && !Present(p, s.slots, k) && !HasEmpty(s.slots))
      && (r.Done? ==>
        && WellFormed(p, r.next) && Contents(r.next.slots) == Without(p, Contents(s.slots), k)
        && (r.ok <==> Present(p, s.slots, k)) && (if r.ok then Buried(p, s, k, r.next) else r.next == s))
  {
    if s.count == 0 {
      assert OccupiedSlots(s.slots) == {};
      assert forall i :: 0 <= i < |s.slots| && s.slots[i].Occupied? ==> i in OccupiedSlots(s.slots);
      AbsentKey(p, s.slots, k);
    } else {
      FallsThroughIff(p, s.slots, k);
      HitIffPresent(p, s.slots, k);
      match Scan(p, s.slots, k, 0)
      case Hit(_) => BuryRefines(p, s, k);
      case Vacant(_) => AbsentKey(p, s.slots, k);
      case FellThrough =>
    }
  }

  lemma AbsentKey<K(!new), V>(p: KeyPolicy<K>, t: Table<K, V>, k: K)
    requires !Present(p, t, k)
    ensures Without(p, Contents(t), k) == Contents(t)
  {
  }

  /** Grow never changes the map; when it reallocates it leaves no tombstones. */
  lemma GrowRefines<K(!new), V>(p: KeyPolicy<K>, s: State<K, V>, request: Option<nat>, mem: bool)
    requires Lawful(p) && WellFormed(p, s)
    ensures var r := Grow(p, s, request, mem);
      && WellFormed(p, r.next) && Contents(r.next.slots) == Contents(s.slots)
      && (r.ok <==> request == Some(|s.slots|) || (mem && (request.Some? ==> |s.slots| < request.value)))
      && (!r.ok || request == Some(|s.slots|) ==> r.next == s)
      && (r.ok && request.Some? ==> |r.next.slots| == request.value)
      && (r.ok && request.None? ==> |r.next.slots| == if |s.slots| == 0 then 1 else 2 * |s.slots|)
      && (|r.next.slots| != |s.slots| || NoTombstones(s.slots) ==> NoTombstones(r.next.slots))
  {
    var n := match request case Some(c) => c case None => GrowthPolicy.Twice(|s.slots|);
    if |s.slots| < n {
      RehashPreservesMeaning(p, s.slots, n);
    }
  }

  lemma AllEmptyIff<K, V>(t: Table<K, V>)
    requires OccupiedSlots(t) == {}
    ensures t == AllEmpty<K, V>(|t|) <==> NoTombstones(t)
  {
    if NoTombstones(t) {
      forall i | 0 <= i < |t|
        ensures t[i].Empty?
      {
        assert i !in OccupiedSlots(t);
      }
    }
  }

  function Fresh<K, V>(n: nat): State<K, V> {
    State(AllEmpty(n), 0)
  }

  lemma FreshIsWellFormed<K(!new), V>(p: KeyPolicy<K>, n: nat)
    ensures var s: State<K, V> := Fresh(n);
      WellFormed(p, s) && NoTombstones(s.slots) && Contents(s.slots) == map[]
  {
    var s: State<K, V> := Fresh(n);
    assert OccupiedSlots(s.slots) == {};
    assert Keys(s.slots) == {};
  }

  /** Clear empties the map; it empties the table exactly when the map was nonempty or held no tombstones. */
  lemma ClearRefines<K(!new), V>(p: KeyPolicy<K>, s: State<K, V>)
    requires Lawful(p) && WellFormed(p, s)
    ensures var r := Clear(s);
      && WellFormed(p, r) && Contents(r.slots) == map[] && r.count == 0
      && (r.slots == AllEmpty(|s.slots|) <==> s.count > 0 || NoTombstones(s.slots))
      && (s.count == 0 ==> r == s)
  {
    if s.count == 0 {
      CountIsMapSize(p, s);
      AllEmptyIff(s.slots);
    } else {
      FreshIsWellFormed<K, V>(p, |s.slots|);
    }
  }

  /** A lookup that completes is membership in the map, and the slot it stops at holds the map's entry;
      it fails to complete exactly when the key is absent and no slot is Empty. */
  lemma LookupRefines<K(!new), V>(p: KeyPolicy<K>, s: State<K, V>, k: K)
    requires Lawful(p) && WellFormed(p, s) && 0 < |s.slots|
    ensures match Scan(p, s.slots, k, 0)
      case Hit(d) =>
        var e := s.slots[Wrap(Home(p, k, |s.slots|), d, |s.slots|)];
        e.Occupied? && p.equals(k, e.key) && e.key in Contents(s.slots) && Contents(s.slots)[e.key] == e.value
      case Vacant(_) => forall x :: x in Contents(s.slots) ==> !p.equals(k, x)
      case FellThrough => (forall x :: x in Contents(s.slots) ==> !p.equals(k, x)) && !HasEmpty(s.slots)
    ensures Scan(p, s.slots, k, 0).FellThrough? <==> !Present(p, s.slots, k) && !HasEmpty(s.slots)
  {
    HitIffPresent(p, s.slots, k);
    FallsThroughIff(p, s.slots, k);
    ContentsDenotes(p, s.slots);
  }

  /** What a caller can tell beforehand: a probe runs out exactly when the key is absent and entries and
      tombstones fill the table. */
  lemma FallsThroughIffFilled<K(!new), V>(p: KeyPolicy<K>, s: State<K, V>, k: K)
    requires WellFormed(p, s) && 0 < |s.slots|
    ensures Scan(p, s.slots, k, 0).FellThrough? <==>
      !Present(p, s.slots, k) && s.count + |TombstoneSlots(s.slots)| == |s.slots|
    ensures NoTombstones(s.slots) ==>
      (Scan(p, s.slots, k, 0).FellThrough? <==> !Present(p, s.slots, k) && s.count == |s.slots|)
  {
    FallsThroughIff(p, s.slots, k);
    EmptySlotIff(s.slots);
    if NoTombstones(s.slots) {
      assert TombstoneSlots(s.slots) == {};
    }
  }

  // ---- Whole runs ----

  datatype Op<+K, +V> =
    | InsertOp(key: K, value: V, mem: bool)
    | RemoveOp(key: K)
    | LookupOp(key: K)
    | ClearOp
    | GrowOp(request: Option<nat>, mem: bool)

  /** `hashmap_has`; `hashmap_at` probes the same way. */
  function Lookup<K, V>(p: KeyPolicy<K>, s: State<K, V>, k: K): (r: Outcome<K, V>)
    ensures r.Done? ==> r.next == s
  {
    if |s.slots| == 0 then Unreachable else
    match Scan(p, s.slots, k, 0)
    case Hit(_) => Done(s, true)
    case Vacant(_) => Done(s, false)
    case FellThrough => Unreachable
  }

  function Step<K, V>(p: KeyPolicy<K>, s: State<K, V>, op: Op<K, V>): (r: Outcome<K, V>)
    requires s.count <= |s.slots|
    ensures r.Done? ==> r.next.count <= |r.next.slots|
  {
    match op
    case InsertOp(k, v, mem) => Insert(p, s, k, v, mem)
    case RemoveOp(k) => Remove(p, s, k)
    case LookupOp(k) => Lookup(p, s, k)
    case ClearOp => Done(Clear(s), true)
    case GrowOp(request, mem) => Grow(p, s, request, mem)
  }

  /** What one operation with result `ok` does to the abstract map. */
  ghost function MapStep<K, V>(p: KeyPolicy<K>, m: map<K, V>, op: Op<K, V>, ok: bool): map<K, V> {
    match op
    case InsertOp(k, v, _) => if ok then Without(p, m, k)[k := v] else m
    case RemoveOp(k) => Without(p, m, k)
    case LookupOp(_) => m
    case ClearOp => map[]
    case GrowOp(_, _) => m
  }

  ghost predicate MapHas<K, V>(p: KeyPolicy<K>, m: map<K, V>, k: K) {
    exists x :: x in m && p.equals(k, x)
  }

  /** Lookups and removals report membership. */
  ghost predicate MapReports<K, V>(p: KeyPolicy<K>, m: map<K, V>, op: Op<K, V>, ok: bool) {
    op.LookupOp? || op.RemoveOp? ==> (ok <==> MapHas(p, m, op.key))
  }

  datatype RunResult<+K, +V> = Finished(last: State<K, V>, oks: seq<bool>) | Stuck

  function Run<K, V>(p: KeyPolicy<K>, s: State<K, V>, ops: seq<Op<K, V>>): (r: RunResult<K, V>)
    requires s.count <= |s.slots|
    ensures r.Finished? ==> |r.oks| == |ops|
    decreases |ops|
  {
    if ops == [] then Finished(s, []) else
    match Step(p, s, ops[0])
    case Unreachable => Stuck
    case Done(next, ok) =>
      match Run(p, next, ops[1..])
      case Stuck => Stuck
      case Finished(last, oks) => Finished(last, [ok] + oks)
  }

  /** The map after the run `ops` with results `oks`. */
  ghost function MapRun<K, V>(p: KeyPolicy<K>, m: map<K, V>, ops: seq<Op<K, V>>, oks: seq<bool>): map<K, V>
    requires |oks| == |ops|
    decreases |ops|
  {
    if ops == [] then m else MapRun(p, MapStep(p, m, ops[0], oks[0]), ops[1..], oks[1..])
  }

  /** Every lookup and removal of the run reported membership in the map of that moment. */
  ghost predicate MapRunReports<K, V>(p: KeyPolicy<K>, m: map<K, V>, ops: seq<Op<K, V>>, oks: seq<bool>)
    requires |oks| == |ops|
    decreases |ops|
  {
    ops == [] || (
      && MapReports(p, m, ops[0], oks[0])
      && MapRunReports(p, MapStep(p, m, ops[0], oks[0]), ops[1..], oks[1..]))
  }

  /** The operation probes. */
  predicate Probes<K, V>(s: State<K, V>, op: Op<K, V>) {
    match op
    case InsertOp(_, _, _) => s.count < |s.slots|
    case RemoveOp(_) => s.count > 0
    case LookupOp(_) => true
    case _ => false
  }

  /** The guard of the UNREACHABLE marker: the operation probes, its key is absent, no slot is Empty. */
  ghost predicate Blocked<K, V>(p: KeyPolicy<K>, s: State<K, V>, op: Op<K, V>) {
    Probes(s, op) && !Present(p, s.slots, op.key) && !HasEmpty(s.slots)
  }

  /** The same guard in terms of sizes: entries and tombstones fill the table. Without tombstones an insertion
      is never blocked, and a lookup or removal only in a full table. */
  lemma BlockedIffFilled<K(!new), V>(p: KeyPolicy<K>, s: State<K, V>, op: Op<K, V>)
    requires WellFormed(p, s)
    ensures Blocked(p, s, op) <==>
      Probes(s, op) && !Present(p, s.slots, op.key) && s.count + |TombstoneSlots(s.slots)| == |s.slots|
    ensures NoTombstones(s.slots) ==> (Blocked(p, s, op) <==>
      (op.LookupOp? || (op.RemoveOp? && s.count > 0)) && !Present(p, s.slots, op.key) && s.count == |s.slots|)
  {
    EmptySlotIff(s.slots);
    if NoTombstones(s.slots) {
      assert TombstoneSlots(s.slots) == {};
    }
  }

  lemma PresentIffMapHas<K(!new), V>(p: KeyPolicy<K>, s: State<K, V>, k: K)
    requires Lawful(p) && WellFormed(p, s)
    ensures Present(p, s.slots, k) <==> MapHas(p, Contents(s.slots), k)
  {
    ContentsDenotes(p, s.slots);
    if i :| 0 <= i < |s.slots| && s.slots[i].Occupied? && p.equals(k, s.slots[i].key) {
      assert s.slots[i].key in Contents(s.slots);
    }
  }

  lemma LookupReports<K(!new), V>(p: KeyPolicy<K>, s: State<K, V>, k: K)
    requires Lawful(p) && WellFormed(p, s)
    ensures var r := Lookup(p, s, k);
      && (r.Unreachable? <==> !Present(p, s.slots, k) && !HasEmpty(s.slots))
      && (r.Done? ==> (r.ok <==> Present(p, s.slots, k)))
  {
    if 0 < |s.slots| {
      FallsThroughIff(p, s.slots, k);
      HitIffPresent(p, s.slots, k);
    }
  }

  lemma StepRefines<K(!new), V>(p: KeyPolicy<K>, s: State<K, V>, op: Op<K, V>)
    requires Lawful(p) && WellFormed(p, s)
    ensures var r := Step(p, s, op);
      && (r.Unreachable? <==> Blocked(p, s, op))
      && (r.Done? ==>
        && WellFormed(p, r.next)
        && Contents(r.next.slots) == MapStep(p, Contents(s.slots), op, r.ok)
        && MapReports(p, Contents(s.slots), op, r.ok)
        && (!op.RemoveOp? && NoTombstones(s.slots) ==> NoTombstones(r.next.slots)))
  {
    match op
    case InsertOp(k, v, mem) => InsertRefines(p, s, k, v, mem);
    case RemoveOp(k) => RemoveRefines(p, s, k); PresentIffMapHas(p, s, k);
    case LookupOp(k) => LookupReports(p, s, k); PresentIffMapHas(p, s, k);
    case ClearOp => ClearRefines(p, s);
    case GrowOp(request, mem) => GrowRefines(p, s, request, mem);
  }

  /** Every run that completes keeps the probe invariant and the count, computes the map run, and its lookups and
      removals report what the map says. */
  lemma {:induction false} RunRefines<K(!new), V>(p: KeyPolicy<K>, s: State<K, V>, ops: seq<Op<K, V>>)
    requires Lawful(p) && WellFormed(p, s)
    ensures var r := Run(p, s, ops);
      r.Finished? ==>
        && WellFormed(p, r.last)
        && Contents(r.last.slots) == MapRun(p, Contents(s.slots), ops, r.oks)
        && MapRunReports(p, Contents(s.slots), ops, r.oks)
    decreases |ops|
  {
    if ops != [] {
      StepRefines(p, s, ops[0]);
      var r := Step(p, s, ops[0]);
      if r.Done? {
        RunRefines(p, r.next, ops[1..]);
        var rest := Run(p, r.next, ops[1..]);
        if rest.Finished? {
          var oks := [r.ok] + rest.oks;
          assert oks[0] == r.ok && oks[1..] == rest.oks;
        }
      }
    }
  }

  /** At every lookup of the run the key is there or the table is not full. */
  ghost predicate LookupsSafe<K, V>(p: KeyPolicy<K>, s: State<K, V>, ops: seq<Op<K, V>>)
    requires s.count <= |s.slots|
    decreases |ops|
  {
    ops == [] || (
      && (ops[0].LookupOp? ==> Present(p, s.slots, ops[0].key) || s.count < |s.slots|)
      && match Step(p, s, ops[0])
         case Done(next, _) => LookupsSafe(p, next, ops[1..])
         case Unreachable => true)
  }

  /** Runs without removals make no tombstones. They complete exactly when every lookup finds its key or a table
      that is not full. */
  lemma {:induction false} NoRemovalCompletesIff<K(!new), V>(p: KeyPolicy<K>, s: State<K, V>, ops: seq<Op<K, V>>)
    requires Lawful(p) && WellFormed(p, s) && NoTombstones(s.slots)
    requires forall op :: op in ops ==> !op.RemoveOp?
    ensures Run(p, s, ops).Finished? <==> LookupsSafe(p, s, ops)
    ensures Run(p, s, ops).Finished? ==> NoTombstones(Run(p, s, ops).last.slots)
    decreases |ops|
  {
    if ops != [] {
      assert ops[0] in ops;
      StepRefines(p, s, ops[0]);
      BlockedIffFilled(p, s, ops[0]);
      var r := Step(p, s, ops[0]);
      if r.Done? {
        NoRemovalCompletesIff(p, r.next, ops[1..]);
      }
    }
  }

  /** In particular, runs of insert, clear and grow alone never run out: a table without tombstones that is not
      full has an Empty slot, and a full one is grown first. */
  lemma {:induction false} NoRemovalNeverStuck<K(!new), V>(p: KeyPolicy<K>, s: State<K, V>, ops: seq<Op<K, V>>)
    requires Lawful(p) && WellFormed(p, s) && NoTombstones(s.slots)
    requires forall op :: op in ops ==> !op.RemoveOp? && !op.LookupOp?
    ensures Run(p, s, ops).Finished? && NoTombstones(Run(p, s, ops).last.slots)
    decreases |ops|
  {
    if ops != [] {
      assert ops[0] in ops;
      StepRefines(p, s, ops[0]);
      BlockedIffFilled(p, s, ops[0]);
      NoRemovalNeverStuck(p, Step(p, s, ops[0]).next, ops[1..]);
    }
  }

  /** Number keys that hash to themselves. */
  function Numbers(): KeyPolicy<nat> {
    KeyPolicy(k => k, (x, y) => x == y)
  }

  /** A full table needs no removal to make a lookup or a removal of an absent key run out: one slot, one entry. */
  lemma FullTableSticks()
    ensures var s: State<nat, nat> := Fresh(1);
      && Lawful(Numbers())
      && Run(Numbers(), s, [InsertOp(0, 0, true)]) == Finished(State([Occupied(0, 0)], 1), [true])
      && Scan(Numbers(), [Occupied(0, 0)], 1, 0).FellThrough?
      && Run(Numbers(), s, [InsertOp(0, 0, true), LookupOp(1)]).Stuck?
      && Run(Numbers(), s, [InsertOp(0, 0, true), RemoveOp(1)]).Stuck?
  {
    var p := Numbers();
    var s: State<nat, nat> := Fresh(1);
    var full: State<nat, nat> := State([Occupied(0, 0)], 1);
    var a: Op<nat, nat>, b: Op<nat, nat>, c: Op<nat, nat> := InsertOp(0, 0, true), LookupOp(1), RemoveOp(1);
    assert s.slots == [Empty];
    assert Scan(p, s.slots, 0, 0) == Vacant(0);
    assert Step(p, s, a) == Done(full, true);
    assert Scan(p, full.slots, 1, 0) == Scan(p, full.slots, 1, 1) == FellThrough;
    assert [a][1..] == [] && Run(p, full, []) == Finished(full, []);
    RunHead(p, s, [a, b], full);
    RunHead(p, s, [a, c], full);
  }

  /** With removals insertion can run out as well: two entries, one removed, and a third key finds a Tombstone and a
      stranger. */
  lemma RemovalCanStick()
    ensures var s: State<nat, nat> := Fresh(2);
      && Lawful(Numbers())
      && Run(Numbers(), s, [InsertOp(0, 0, true), InsertOp(1, 1, true), RemoveOp(0), InsertOp(2, 2, true)]).Stuck?
  {
    var p := Numbers();
    var s: State<nat, nat> := Fresh(2);
    var a: Op<nat, nat>, b: Op<nat, nat> := InsertOp(0, 0, true), InsertOp(1, 1, true);
    var c: Op<nat, nat>, d: Op<nat, nat> := RemoveOp(0), InsertOp(2, 2, true);
    var s1 := State([Occupied(0, 0), Empty], 1);
    var s2 := State([Occupied(0, 0), Occupied(1, 1)], 2);
    var s3 := State([Tombstone, Occupied(1, 1)], 1);
    assert s.slots == [Empty, Empty];
    StepsToStuck(s, s1, s2, s3);
    RunHead(p, s, [a, b, c, d], s1);
    RunHead(p, s1, [b, c, d], s2);
    RunHead(p, s2, [c, d], s3);
  }

  lemma StepsToStuck(s: State<nat, nat>, s1: State<nat, nat>, s2: State<nat, nat>, s3: State<nat, nat>)
    requires s == State([Empty, Empty], 0) && s1 == State([Occupied(0, 0), Empty], 1)
    requires s2 == State([Occupied(0, 0), Occupied(1, 1)], 2) && s3 == State([Tombstone, Occupied(1, 1)], 1)
    ensures Insert(Numbers(), s, 0, 0, true) == Done(s1, true)
    ensures Insert(Numbers(), s1, 1, 1, true) == Done(s2, true)
    ensures Remove(Numbers(), s2, 0) == Done(s3, true)
    ensures Insert(Numbers(), s3, 2, 2, true) == Unreachable
  {
    assert Scan(Numbers(), s3.slots, 2, 0) == Scan(Numbers(), s3.slots, 2, 1) == FellThrough;
  }

  lemma RunHead<K, V>(p: KeyPolicy<K>, s: State<K, V>, ops: seq<Op<K, V>>, next: State<K, V>)
    requires ops != [] && s.count <= |s.slots| && Step(p, s, ops[0]) == Done(next, true)
    ensures next.count <= |next.slots|
    ensures Run(p, s, ops).Stuck? <==> Run(p, next, ops[1..]).Stuck?
  {
  }
}
