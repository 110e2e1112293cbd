/** The buffer memory source: a doubly linked list of blocks inside a caller's buffer, reserved first-fit. */
module BufferSource {
  import opened Wrappers
  import opened Align
  import opened HeaderMemory

  // Throughout, 32 is `sizeof(BufferBlock)` and 8 is `PTR_SIZE`.

  // ---- The block list as a sequence ----

  /** A block: free when it has no user; a used block's `size` counts the user's bytes, a free block's counts
      from the block's own address. */
  datatype Entry = Entry(addr: nat, size: nat, user: Option<nat>)

  /** Where the bytes between block `i` and the next header end. */
  function Limit(l: seq<Entry>, end: nat, i: nat): nat
    requires i < |l|
  {
    if i + 1 < |l| then l[i + 1].addr else end
  }

  /** Block `i` has room for its header; a free extent, or the back pointer and the user's bytes, end at or
      before the next header. */
  ghost predicate Fits(l: seq<Entry>, end: nat, i: nat)
    requires i < |l|
  {
    var e := l[i];
    && e.addr + 32 <= Limit(l, end, i)
    && match e.user
       case None => e.addr + e.size <= Limit(l, end, i)
       case Some(u) => e.addr + 40 <= u && u + e.size <= Limit(l, end, i)
  }

  ghost predicate WellFormed(l: seq<Entry>, buffer: nat, end: nat) {
    && l != [] && l[0].addr == buffer
    && (forall i :: 0 <= i < |l| ==> Fits(l, end, i))
  }

  lemma {:induction false} Ascending(l: seq<Entry>, buffer: nat, end: nat, i: nat, j: nat)
    requires WellFormed(l, buffer, end) && i < j <= |l|
    ensures Limit(l, end, i) <= if j == |l| then end else l[j].addr
    decreases j
  {
    if i < j - 1 {
      Ascending(l, buffer, end, i, j - 1);
      assert Fits(l, end, j - 1);
    }
  }

  /** In a well-formed list, whatever a block owns ends before any later header starts, inside the buffer. */
  lemma WellFormedMeans(l: seq<Entry>, buffer: nat, end: nat)
    requires WellFormed(l, buffer, end)
    ensures forall i, j :: 0 <= i < j < |l| ==>
      l[i].addr + 32 <= l[j].addr && (l[i].user.Some? ==> l[i].user.value + l[i].size <= l[j].addr)
    ensures forall i :: 0 <= i < |l| ==>
      buffer <= l[i].addr && l[i].addr + 32 <= end && (l[i].user.Some? ==> l[i].user.value + l[i].size <= end)
  {
    forall i, j | 0 <= i < j < |l|
      ensures l[i].addr + 32 <= l[j].addr && (l[i].user.Some? ==> l[i].user.value + l[i].size <= l[j].addr)
    {
      Ascending(l, buffer, end, i, j);
      assert Fits(l, end, i);
    }
    forall i | 0 <= i < |l|
      ensures buffer <= l[i].addr && l[i].addr + 32 <= end
      ensures l[i].user.Some? ==> l[i].user.value + l[i].size <= end
    {
      if i > 0 {
        Ascending(l, buffer, end, 0, i);
        assert Fits(l, end, 0);
      }
      Ascending(l, buffer, end, i, |l|);
      assert Fits(l, end, i);
    }
  }

  // ---- First fit ----

  /** The asserts of `buffer_reserve`, and addresses that do not wrap around. */
  predicate Askable(end: nat, size: nat, alignment: nat) {
    IsPowerOfTwo(alignment) && end + size + alignment + 40 < WORD
  }

  /** `buffer_try_fit_pointer_in_block`. */
  function TryFit(e: Entry, size: nat, alignment: nat): (r: Option<nat>)
    requires Askable(e.addr, size, alignment)
    ensures r.Some? ==>
      && e.user.None? && r.value % alignment == 0
      && e.addr + 40 <= r.value && r.value + size <= e.addr + e.size
  {
    if e.user.Some? then None
    else if e.size < size then None
    else
      var aligned := AlignUp(e.addr + 40, alignment);
      if aligned + size > e.addr + e.size then None else Some(aligned)
  }

  /** A block fits exactly when it is free and some aligned address in it leaves room for the back pointer
      below and the request above; it then offers the least such address. */
  lemma FitsIff(e: Entry, size: nat, alignment: nat)
    requires Askable(e.addr, size, alignment)
    ensures TryFit(e, size, alignment).Some? <==>
      e.user.None? && exists p: nat :: p % alignment == 0 && e.addr + 40 <= p && p + size <= e.addr + e.size
    ensures TryFit(e, size, alignment).Some? ==>
      forall p: nat :: p % alignment == 0 && e.addr + 40 <= p ==> TryFit(e, size, alignment).value <= p
  {
    AlignUpIsLeast(e.addr + 40, alignment);
  }

  /** The first block from index `i` on that fits, with the address it offers. */
  function FirstFit(l: seq<Entry>, i: nat, size: nat, alignment: nat): (r: Option<(nat, nat)>)
    requires i <= |l| && forall k :: 0 <= k < |l| ==> Askable(l[k].addr, size, alignment)
    ensures r.Some? ==>
      && i <= r.value.0 < |l| && TryFit(l[r.value.0], size, alignment) == Some(r.value.1)
      && forall k :: i <= k < r.value.0 ==> TryFit(l[k], size, alignment).None?
    ensures r.None? ==> forall k :: i <= k < |l| ==> TryFit(l[k], size, alignment).None?
    decreases |l| - i
  {
    if i == |l| then None
    else match TryFit(l[i], size, alignment)
      case Some(ptr) => Some((i, ptr))
      case None => FirstFit(l, i + 1, size, alignment)
  }

  /** Block `i` taken at `ptr`; what is left becomes a new free block if a header fits before `limit`. */
  function Split(l: seq<Entry>, end: nat, i: nat, ptr: nat, size: nat): seq<Entry>
    requires i < |l|
  {
    var taken := Entry(l[i].addr, size, Some(ptr));
    var rest := Limit(l, end, i) - (ptr + size) - 32;
    if rest >= 0 then l[..i] + [taken, Entry(ptr + size, rest, None)] + l[i + 1..] else l[i := taken]
  }

  function Reserve(l: seq<Entry>, end: nat, size: nat, alignment: nat): (seq<Entry>, Option<nat>)
    requires forall k :: 0 <= k < |l| ==> Askable(l[k].addr, size, alignment)
  {
    match FirstFit(l, 0, size, alignment)
    case None => (l, None)
    case Some((i, ptr)) => (Split(l, end, i, ptr, size), Some(ptr))
  }

  lemma AddressesAskable(l: seq<Entry>, buffer: nat, end: nat, size: nat, alignment: nat)
    requires WellFormed(l, buffer, end) && Askable(end, size, alignment)
    ensures forall k :: 0 <= k < |l| ==> Askable(l[k].addr, size, alignment)
  {
    WellFormedMeans(l, buffer, end);
  }

  lemma SplitKeepsWellFormed(l: seq<Entry>, buffer: nat, end: nat, i: nat, ptr: nat, size: nat)
    requires WellFormed(l, buffer, end) && i < |l| && l[i].user.None?
    requires l[i].addr + 40 <= ptr && ptr + size <= l[i].addr + l[i].size
    ensures WellFormed(Split(l, end, i, ptr, size), buffer, end)
  {
    var l' := Split(l, end, i, ptr, size);
    assert Fits(l, end, i);
    forall j | 0 <= j < |l'|
      ensures Fits(l', end, j)
    {
      if j < i {
        assert Fits(l, end, j);
      } else if j > i {
        var k := if |l'| == |l| then j else j - 1;
        assert k > i ==> Fits(l, end, k) && l'[j] == l[k];
      }
    }
  }

  /** `l'` is `l` with `ptr` taken from block `i`, the first that fits: aligned, with room for the back pointer
      below it, ending before the next header. What is left over becomes a free block, header included, if a
      header fits; every other block is unchanged and in place. */
  ghost predicate TakenFrom(l: seq<Entry>, l': seq<Entry>, end: nat, i: nat, ptr: nat, size: nat, alignment: nat)
    requires i < |l| && forall k :: 0 <= k < |l| ==> Askable(l[k].addr, size, alignment)
  {
    && TryFit(l[i], size, alignment) == Some(ptr)
    && (forall k :: 0 <= k < i ==> TryFit(l[k], size, alignment).None?)
    && ptr % alignment == 0 && l[i].addr + 40 <= ptr && ptr + size <= Limit(l, end, i)
    && i < |l'| && l'[i] == Entry(l[i].addr, size, Some(ptr)) && l'[..i] == l[..i]
    && (if ptr + size + 32 <= Limit(l, end, i)
        then i + 1 < |l'| && l'[i + 1] == Entry(ptr + size, Limit(l, end, i) - (ptr + size) - 32, None)
          && l'[i + 2..] == l[i + 1..]
        else l'[i + 1..] == l[i + 1..])
  }

  /** Reserving, from any well-formed list: the list stays well-formed; null means that no block fits; and
      otherwise the result is aligned, leaves room for the back pointer, lies in the first block that fits,
      and every block already in use stays exactly as it was. */
  lemma ReserveMeans(l: seq<Entry>, buffer: nat, end: nat, size: nat, alignment: nat)
    requires WellFormed(l, buffer, end) && Askable(end, size, alignment)
    requires forall k :: 0 <= k < |l| ==> Askable(l[k].addr, size, alignment)
    ensures var (l', r) := Reserve(l, end, size, alignment);
      && WellFormed(l', buffer, end)
      && (r.None? <==> forall k :: 0 <= k < |l| ==> TryFit(l[k], size, alignment).None?)
      && (r.None? ==> l' == l)
      && (r.Some? ==> exists i :: 0 <= i < |l| && TakenFrom(l, l', end, i, r.value, size, alignment))
  {
    match FirstFit(l, 0, size, alignment)
    case None =>
    case Some((i, ptr)) =>
      SplitKeepsWellFormed(l, buffer, end, i, ptr, size);
      assert Fits(l, end, i);
      assert TakenFrom(l, Split(l, end, i, ptr, size), end, i, ptr, size, alignment);
  }

  // ---- Release ----

  ghost predicate Used(l: seq<Entry>, i: nat) {
    i < |l| && l[i].user.Some? && l[i].addr <= l[i].user.value
  }

  predicate PrevFree(l: seq<Entry>, i: nat) {
    0 < i <= |l| && l[i - 1].user.None?
  }

  predicate NextFree(l: seq<Entry>, i: nat) {
    i + 1 < |l| && l[i + 1].user.None?
  }

  /** The size of block `i` once it is free: from its header to the end of the user's bytes. */
  function FreedSize(l: seq<Entry>, i: nat): nat
    requires Used(l, i)
  {
    l[i].user.value + l[i].size - l[i].addr
  }

  function Grown(e: Entry, n: nat): Entry {
    e.(size := e.size + n)
  }

  /** Block `i` freed, and its free neighbours grown by it where they stand. */
  function Merged(l: seq<Entry>, i: nat): (l': seq<Entry>)
    requires Used(l, i)
    ensures |l'| == |l| && forall j :: 0 <= j < |l| ==> l'[j].addr == l[j].addr
  {
    var n := FreedSize(l, i);
    var l1 := l[i := Entry(l[i].addr, n, None)];
    var l2 := if PrevFree(l, i) then l1[i - 1 := Grown(l[i - 1], n)] else l1;
    if NextFree(l, i) then l2[i + 1 := Grown(l[i + 1], n)] else l2
  }

  /** A free neighbour takes block `i` out of the list; but the first block stays. */
  predicate Unlinked(l: seq<Entry>, i: nat) {
    PrevFree(l, i) || (NextFree(l, i) && i > 0)
  }

  /** `buffer_release` of block `i`: the list found by following `next` from the first block. */
  function Released(l: seq<Entry>, i: nat): seq<Entry>
    requires Used(l, i)
  {
    if Unlinked(l, i) then Merged(l, i)[..i] + Merged(l, i)[i + 1..] else Merged(l, i)
  }

  /** The block behind is in use or has room to grow in place. */
  predicate RoomBehind(l: seq<Entry>, end: nat, i: nat)
    requires Used(l, i)
  {
    NextFree(l, i) ==> l[i + 1].addr + l[i + 1].size + FreedSize(l, i) <= Limit(l, end, i + 1)
  }

  /** A free block behind has room to grow, and a block before it to be linked to. */
  predicate CleanRelease(l: seq<Entry>, end: nat, i: nat)
    requires Used(l, i)
  {
    RoomBehind(l, end, i) && (NextFree(l, i) ==> i > 0)
  }

  /** The index before entry `i` is taken out, if it is, of what is then at index `k`. */
  function Shifted(unlinked: bool, i: nat, k: nat): nat {
    if unlinked && i <= k then k + 1 else k
  }

  /** Where the blocks of the list after a release come from. */
  function Origin(l: seq<Entry>, i: nat, k: nat): nat
    requires Used(l, i)
  {
    Shifted(Unlinked(l, i), i, k)
  }

  lemma ReleasedFrom(l: seq<Entry>, i: nat, k: nat)
    requires Used(l, i) && k < |Released(l, i)|
    ensures var j := Origin(l, i, k); j < |l| && (Unlinked(l, i) ==> j != i) && Released(l, i)[k] == Merged(l, i)[j]
    ensures |Released(l, i)| == if Unlinked(l, i) then |l| - 1 else |l|
  {
  }

  lemma ReleaseBeforeUsed(l: seq<Entry>, i: nat)
    requires Used(l, i) && !(i + 1 < |l| && l[i + 1].user.None?)
    ensures var n := l[i].user.value + l[i].size - l[i].addr;
      Released(l, i) == if i > 0 && l[i - 1].user.None?
        then l[..i - 1] + [Entry(l[i - 1].addr, l[i - 1].size + n, None)] + l[i + 1..]
        else l[..i] + [Entry(l[i].addr, n, None)] + l[i + 1..]
  {
  }

  lemma ReleaseBeforeFree(l: seq<Entry>, i: nat)
    requires Used(l, i) && i + 1 < |l| && l[i + 1].user.None?
    ensures var n := l[i].user.value + l[i].size - l[i].addr;
      var behind := [Entry(l[i + 1].addr, l[i + 1].size + n, None)] + l[i + 2..];
      Released(l, i) == if i == 0 then [Entry(l[i].addr, n, None)] + behind
        else if l[i - 1].user.None? then l[..i - 1] + [Entry(l[i - 1].addr, l[i - 1].size + n, None)] + behind
        else l[..i] + behind
  {
    var n := FreedSize(l, i);
    assert Merged(l, i)[i + 1..] == [Grown(l[i + 1], n)] + l[i + 2..];
    if i == 0 {
      assert Merged(l, i) == [Entry(l[0].addr, n, None)] + Merged(l, i)[1..];
    } else if l[i - 1].user.None? {
      assert Merged(l, i)[..i] == l[..i - 1] + [Grown(l[i - 1], n)];
    } else {
      assert Merged(l, i)[..i] == l[..i];
    }
  }

  /** What a release leaves, neighbour by neighbour. A free block before takes over the released one, header and all.
      With none there and none behind, the released block is free from its header to the end of the user's bytes. */
  lemma ReleaseMeans(l: seq<Entry>, i: nat)
    requires Used(l, i)
    ensures var n := l[i].user.value + l[i].size - l[i].addr;
      var prevFree, nextFree := i > 0 && l[i - 1].user.None?, i + 1 < |l| && l[i + 1].user.None?;
      var freed := Entry(l[i].addr, n, None);
      && (!prevFree && !nextFree ==> Released(l, i) == l[..i] + [freed] + l[i + 1..])
      && (prevFree && !nextFree ==>
          Released(l, i) == l[..i - 1] + [Entry(l[i - 1].addr, l[i - 1].size + n, None)] + l[i + 1..])
      && (nextFree ==>
          var behind := [Entry(l[i + 1].addr, l[i + 1].size + n, None)] + l[i + 2..];
          Released(l, i) == if prevFree then l[..i - 1] + [Entry(l[i - 1].addr, l[i - 1].size + n, None)] + behind
            else if i > 0 then l[..i] + behind
            else [freed] + behind)
  {
    if i + 1 < |l| && l[i + 1].user.None? {
      ReleaseBeforeFree(l, i);
    } else {
      ReleaseBeforeUsed(l, i);
    }
  }

  /** The joined extent ends at the end of the released bytes exactly when the block before had left no gap. */
  lemma JoinedExtentIff(l: seq<Entry>, i: nat)
    requires Used(l, i) && i > 0 && l[i - 1].user.None?
    ensures |Released(l, i)| >= i
    ensures var e, joined := l[i - 1], Released(l, i)[i - 1];
      && joined.addr == e.addr && joined.user.None?
      && joined.addr + joined.size == e.addr + e.size + (l[i].user.value + l[i].size - l[i].addr)
      && (joined.addr + joined.size == l[i].user.value + l[i].size <==> e.addr + e.size == l[i].addr)
  {
    ReleaseMeans(l, i);
  }

  /** The block split off by a reservation always leaves such a gap, of a header: releasing the block behind it joins
      the two 32 bytes short of the end of the released bytes. */
  lemma RemainderFallsShort(l: seq<Entry>, buffer: nat, end: nat, i: nat, ptr: nat, size: nat)
    requires WellFormed(l, buffer, end) && i + 1 < |l| && l[i].user.None? && l[i + 1].user.Some?
    requires l[i].addr + 40 <= ptr && ptr + size + 32 <= l[i + 1].addr
    ensures var l' := Split(l, end, i, ptr, size);
      && |l'| == |l| + 1 && l'[i + 1].user.None? && l'[i + 2] == l[i + 1] && Used(l', i + 2)
      && |Released(l', i + 2)| >= i + 2
      && var joined := Released(l', i + 2)[i + 1];
         joined.addr + joined.size + 32 == l[i + 1].user.value + l[i + 1].size
  {
    assert Fits(l, end, i + 1);
    JoinedExtentIff(Split(l, end, i, ptr, size), i + 2);
  }

  /** A request that fits the joined range is granted there when no earlier block fits. */
  lemma JoinedRangeIsGranted(l: seq<Entry>, buffer: nat, end: nat, i: nat, size: nat, alignment: nat, p: nat)
    requires WellFormed(l, buffer, end) && Askable(end, size, alignment)
    requires Used(l, i) && i > 0 && l[i - 1].user.None?
    requires p % alignment == 0 && l[i - 1].addr + 40 <= p
    requires p + size <= l[i - 1].addr + l[i - 1].size + (l[i].user.value + l[i].size - l[i].addr)
    ensures forall k :: 0 <= k < |l| ==> Askable(l[k].addr, size, alignment)
    ensures forall k :: 0 <= k < |Released(l, i)| ==> Askable(Released(l, i)[k].addr, size, alignment)
    ensures (forall k :: 0 <= k < i - 1 ==> TryFit(l[k], size, alignment).None?) ==>
      var r := Reserve(Released(l, i), end, size, alignment).1;
      r.Some? && l[i - 1].addr + 40 <= r.value <= p
  {
    var l' := Released(l, i);
    AddressesAskable(l, buffer, end, size, alignment);
    forall k | 0 <= k < |l'|
      ensures Askable(l'[k].addr, size, alignment)
    {
      ReleasedFrom(l, i, k);
    }
    JoinedExtentIff(l, i);
    FitsIff(l'[i - 1], size, alignment);
    if forall k :: 0 <= k < i - 1 ==> TryFit(l[k], size, alignment).None? {
      ReleaseMeans(l, i);
      assert forall k :: 0 <= k < i - 1 ==> l'[k] == l[k];
      assert FirstFit(l', 0, size, alignment) == Some((i - 1, TryFit(l'[i - 1], size, alignment).value));
    }
  }

  /** A release keeps the list well-formed exactly when the block behind is in use or has room to grow. */
  lemma ReleaseKeepsWellFormedIff(l: seq<Entry>, buffer: nat, end: nat, i: nat)
    requires WellFormed(l, buffer, end) && i < |l| && l[i].user.Some?
    ensures Used(l, i)
    ensures WellFormed(Released(l, i), buffer, end) <==> RoomBehind(l, end, i)
  {
    assert Fits(l, end, i);
    var l' := Released(l, i);
    if RoomBehind(l, end, i) {
      forall k | 0 <= k < |l'|
        ensures Fits(l', end, k)
      {
        ReleaseKeepsFits(l, buffer, end, i, k);
      }
      ReleasedFrom(l, i, 0);
    } else {
      var k := if PrevFree(l, i) || i > 0 then i else i + 1;
      ReleasedFrom(l, i, k);
      assert l'[k] == Grown(l[i + 1], FreedSize(l, i));
      assert Limit(l', end, k) == Limit(l, end, i + 1);
      assert !Fits(l', end, k);
    }
  }

  lemma ReleaseKeepsFits(l: seq<Entry>, buffer: nat, end: nat, i: nat, k: nat)
    requires WellFormed(l, buffer, end) && Used(l, i) && RoomBehind(l, end, i) && k < |Released(l, i)|
    ensures Fits(Released(l, i), end, k)
  {
    var l' := Released(l, i);
    var j := Origin(l, i, k);
    ReleasedFrom(l, i, k);
    assert Fits(l, end, j) && Fits(l, end, i);
    if k + 1 < |l'| {
      ReleasedFrom(l, i, k + 1);
    }
    if j == i - 1 && Unlinked(l, i) {
      assert Limit(l', end, k) == Limit(l, end, i);
    } else {
      assert Limit(l', end, k) == Limit(l, end, j);
    }
  }

  // ---- Runs of reservations and releases ----

  datatype Op = ReserveOp(size: nat, alignment: nat) | ReleaseOp(k: nat)

  /** The list, and the ranges handed out and not released. */
  datatype Machine = Machine(list: seq<Entry>, spans: seq<Span>)

  /** A fresh buffer is one free block; its size leaves out the header. */
  function Fresh(buffer: nat, capacity: nat): seq<Entry>
    requires capacity > 32
  {
    [Entry(buffer, capacity - 32, None)]
  }

  /** Span `sp` is the user range of block `i` of the list. */
  predicate HeldAt(l: seq<Entry>, sp: Span, i: nat) {
    i < |l| && l[i].user == Some(sp.start) && l[i].size == sp.size
  }

  ghost predicate Held(l: seq<Entry>, sp: Span) {
    exists i: nat :: HeldAt(l, sp, i)
  }

  ghost function Holder(l: seq<Entry>, sp: Span): (i: nat)
    requires Held(l, sp)
    ensures HeldAt(l, sp, i)
  {
    var i: nat :| HeldAt(l, sp, i);
    i
  }

  ghost predicate Apart(a: Span, b: Span) {
    a.start != b.start && (a.start + a.size <= b.start || b.start + b.size <= a.start)
  }

  ghost predicate SpansHeld(m: Machine, buffer: nat, end: nat) {
    && WellFormed(m.list, buffer, end)
    && (forall s :: 0 <= s < |m.spans| ==>
      Held(m.list, m.spans[s]) && m.spans[s].alignment > 0 && m.spans[s].start % m.spans[s].alignment == 0)
    && (forall s, t :: 0 <= s < |m.spans| && 0 <= t < |m.spans| && s != t ==> Apart(m.spans[s], m.spans[t]))
  }

  /** Requests pass the asserts; what is released is outstanding, and its release is clean. */
  ghost predicate Enabled(m: Machine, end: nat, op: Op) {
    match op
    case ReserveOp(size, alignment) => Askable(end, size, alignment)
    case ReleaseOp(k) =>
      && k < |m.spans| && Held(m.list, m.spans[k]) && var i := Holder(m.list, m.spans[k]);
      Used(m.list, i) && CleanRelease(m.list, end, i)
  }

  ghost function Step(m: Machine, end: nat, op: Op): Machine {
    match op
    case ReserveOp(size, alignment) =>
      if exists k :: 0 <= k < |m.list| && !Askable(m.list[k].addr, size, alignment) then m else
      (match Reserve(m.list, end, size, alignment)
       case (l, Some(ptr)) => Machine(l, m.spans + [Span(ptr, size, alignment)])
       case (_, None) => m)
    case ReleaseOp(k) =>
      if !Enabled(m, end, op) then m else
      Machine(Released(m.list, Holder(m.list, m.spans[k])), m.spans[..k] + m.spans[k + 1..])
  }

  /** What each step does: a granted reservation adds its range, and a release drops the one released. */
  lemma StepMeans(m: Machine, buffer: nat, end: nat, op: Op)
    requires WellFormed(m.list, buffer, end) && Enabled(m, end, op)
    ensures op.ReserveOp? ==>
      && (forall k :: 0 <= k < |m.list| ==> Askable(m.list[k].addr, op.size, op.alignment))
      && var (l, r) := Reserve(m.list, end, op.size, op.alignment);
         Step(m, end, op) == Machine(l, m.spans + (if r.Some? then [Span(r.value, op.size, op.alignment)] else []))
    ensures op.ReleaseOp? ==>
      && Step(m, end, op).spans == m.spans[..op.k] + m.spans[op.k + 1..]
      && exists i :: 0 <= i < |m.list| && Used(m.list, i) && HeldAt(m.list, m.spans[op.k], i)
          && Step(m, end, op).list == Released(m.list, i)
  {
    if op.ReserveOp? {
      AddressesAskable(m.list, buffer, end, op.size, op.alignment);
      ReserveMeans(m.list, buffer, end, op.size, op.alignment);
    }
  }

  ghost function Run(m: Machine, end: nat, ops: seq<Op>): Machine
    decreases |ops|
  {
    if ops == [] then m else Run(Step(m, end, ops[0]), end, ops[1..])
  }

  ghost predicate EnabledRun(m: Machine, end: nat, ops: seq<Op>)
    decreases |ops|
  {
    ops == [] || (Enabled(m, end, ops[0]) && EnabledRun(Step(m, end, ops[0]), end, ops[1..]))
  }

  lemma SplitKeepsHeld(l: seq<Entry>, end: nat, i: nat, ptr: nat, size: nat, sp: Span)
    requires i < |l| && l[i].user.None? && Held(l, sp)
    ensures Held(Split(l, end, i, ptr, size), sp)
  {
    var l' := Split(l, end, i, ptr, size);
    var j := Holder(l, sp);
    assert HeldAt(l', sp, if j < i || |l'| == |l| then j else j + 1);
  }

  lemma HeldApart(l: seq<Entry>, buffer: nat, end: nat, i: nat, ptr: nat, size: nat, sp: Span)
    requires WellFormed(l, buffer, end) && i < |l| && l[i].user.None? && Held(l, sp)
    requires l[i].addr + 40 <= ptr && ptr + size <= l[i].addr + l[i].size
    ensures sp.start != ptr && (sp.start + sp.size <= ptr || ptr + size <= sp.start)
  {
    var j := Holder(l, sp);
    assert Fits(l, end, i) && Fits(l, end, j);
    if j < i {
      Ascending(l, buffer, end, j, i);
    } else {
      Ascending(l, buffer, end, i, j);
    }
  }

  lemma SplitKeepsSpans(m: Machine, buffer: nat, end: nat, i: nat, sp: Span)
    requires SpansHeld(m, buffer, end) && i < |m.list| && m.list[i].user.None?
    requires m.list[i].addr + 40 <= sp.start && sp.start + sp.size <= m.list[i].addr + m.list[i].size
    requires sp.alignment > 0 && sp.start % sp.alignment == 0
    ensures SpansHeld(Machine(Split(m.list, end, i, sp.start, sp.size), m.spans + [sp]), buffer, end)
  {
    var l' := Split(m.list, end, i, sp.start, sp.size);
    SplitKeepsWellFormed(m.list, buffer, end, i, sp.start, sp.size);
    forall s | 0 <= s < |m.spans|
      ensures Held(l', m.spans[s]) && Apart(m.spans[s], sp) && Apart(sp, m.spans[s])
    {
      SplitKeepsHeld(m.list, end, i, sp.start, sp.size, m.spans[s]);
      HeldApart(m.list, buffer, end, i, sp.start, sp.size, m.spans[s]);
    }
    assert HeldAt(l', sp, i);
  }

  lemma ReserveKeepsSpans(m: Machine, buffer: nat, end: nat, op: Op)
    requires SpansHeld(m, buffer, end) && op.ReserveOp? && Enabled(m, end, op)
    ensures SpansHeld(Step(m, end, op), buffer, end)
  {
    AddressesAskable(m.list, buffer, end, op.size, op.alignment);
    match FirstFit(m.list, 0, op.size, op.alignment)
    case None =>
    case Some((i, ptr)) =>
      assert TryFit(m.list[i], op.size, op.alignment) == Some(ptr);
      SplitKeepsSpans(m, buffer, end, i, Span(ptr, op.size, op.alignment));
  }

  /** Other blocks in use survive a release as they are. */
  lemma ReleaseKeepsHeld(l: seq<Entry>, i: nat, sp: Span)
    requires Used(l, i) && Held(l, sp) && l[i].user != Some(sp.start)
    ensures Held(Released(l, i), sp)
  {
    var j := Holder(l, sp);
    var k := if j > i && Unlinked(l, i) then j - 1 else j;
    ReleasedFrom(l, i, k);
    assert HeldAt(Released(l, i), sp, k);
  }

  lemma ReleaseKeepsSpans(m: Machine, buffer: nat, end: nat, op: Op)
    requires SpansHeld(m, buffer, end) && op.ReleaseOp? && Enabled(m, end, op)
    ensures SpansHeld(Step(m, end, op), buffer, end)
  {
    var k := op.k;
    var i := Holder(m.list, m.spans[k]);
    ReleaseKeepsWellFormedIff(m.list, buffer, end, i);
    forall s | 0 <= s < |m.spans| && s != k
      ensures Held(Released(m.list, i), m.spans[s])
    {
      assert Apart(m.spans[s], m.spans[k]);
      ReleaseKeepsHeld(m.list, i, m.spans[s]);
    }
    var spans := m.spans[..k] + m.spans[k + 1..];
    assert forall s :: 0 <= s < |spans| ==> spans[s] == m.spans[if s < k then s else s + 1];
  }

  /** Over every run of reservations and clean releases: the list stays well-formed, and all ranges handed out and
      not released are aligned, pairwise disjoint and held by blocks of the list. */
  lemma {:induction false} RunKeepsSpans(m: Machine, buffer: nat, end: nat, ops: seq<Op>)
    requires SpansHeld(m, buffer, end) && EnabledRun(m, end, ops)
    ensures SpansHeld(Run(m, end, ops), buffer, end)
    decreases |ops|
  {
    if ops != [] {
      if ops[0].ReserveOp? {
        ReserveKeepsSpans(m, buffer, end, ops[0]);
      } else {
        ReleaseKeepsSpans(m, buffer, end, ops[0]);
      }
      RunKeepsSpans(Step(m, end, ops[0]), buffer, end, ops[1..]);
    }
  }

  lemma FreshIsWellFormed(buffer: nat, capacity: nat)
    requires capacity > 32
    ensures SpansHeld(Machine(Fresh(buffer, capacity), []), buffer, buffer + capacity)
  {
  }

  /** Whenever the first reservation of a buffer succeeds, releasing it at once is not clean: the free block behind
      grows in place, past the end of the buffer. */
  lemma FirstReleaseBreaks(buffer: nat, capacity: nat, size: nat, alignment: nat)
    requires capacity > 32 && Askable(buffer + capacity, size, alignment)
    ensures Askable(buffer, size, alignment)
    ensures var (l, r) := Reserve(Fresh(buffer, capacity), buffer + capacity, size, alignment);
      && (capacity >= size + alignment + 72 ==> r.Some?)
      && (r.Some? ==>
            && Used(l, 0) && l[0].user == r && !CleanRelease(l, buffer + capacity, 0)
            && !WellFormed(Released(l, 0), buffer, buffer + capacity)
            && |Released(l, 0)| == 2 && Released(l, 0)[1].addr + Released(l, 0)[1].size > buffer + capacity)
  {
    var l0, end := Fresh(buffer, capacity), buffer + capacity;
    FreshIsWellFormed(buffer, capacity);
    AddressesAskable(l0, buffer, end, size, alignment);
    assert Askable(l0[0].addr, size, alignment);
    ReserveMeans(l0, buffer, end, size, alignment);
    var (l, r) := Reserve(l0, end, size, alignment);
    if r.Some? {
      assert TakenFrom(l0, l, end, 0, r.value, size, alignment);
      ReleaseKeepsWellFormedIff(l, buffer, end, 0);
    }
  }

  lemma AnyAddressIsAligned(e: Entry, size: nat)
    requires e.addr + 40 < WORD
    ensures IsPowerOfTwo(1)
    ensures Askable(e.addr, size, 1) ==>
      TryFit(e, size, 1) == if e.user.Some? || e.size < size + 40 then None else Some(e.addr + 40)
  {
    assert IsPowerOfTwo(1);
    AlignUpIs(e.addr + 40, 1, e.addr + 40);
  }

  /** The next reservation can then be given bytes beyond the buffer: whenever the first one left more than a header
      free behind it, a request for all but 72 bytes of the buffer succeeds and ends past the buffer. */
  lemma ReservedPastTheEnd(buffer: nat, capacity: nat, size: nat, alignment: nat)
    requires capacity > 32 && Askable(buffer + capacity, size, alignment) && buffer + 2 * capacity + 41 < WORD
    ensures Askable(buffer, size, alignment) && IsPowerOfTwo(1)
    ensures var end := buffer + capacity;
      var (l, r) := Reserve(Fresh(buffer, capacity), end, size, alignment);
      r.Some? && r.value + size + 32 < end ==>
        && Used(l, 0) && capacity > 72
        && (forall k :: 0 <= k < |Released(l, 0)| ==> Askable(Released(l, 0)[k].addr, capacity - 72, 1))
        && Reserve(Released(l, 0), end, capacity - 72, 1).1 == Some(r.value + size + 40)
        && r.value + size + 40 + (capacity - 72) > end
  {
    var l0, end := Fresh(buffer, capacity), buffer + capacity;
    FirstReleaseBreaks(buffer, capacity, size, alignment);
    var (l, r) := Reserve(l0, end, size, alignment);
    if r.Some? && r.value + size + 32 < end {
      var l', n := Released(l, 0), r.value + size - buffer;
      assert l' == [Entry(buffer, n, None), Entry(buffer + n, capacity - 32, None)];
      AnyAddressIsAligned(l'[0], capacity - 72);
      AnyAddressIsAligned(l'[1], capacity - 72);
      assert FirstFit(l', 1, capacity - 72, 1) == Some((1, buffer + n + 40));
    }
  }

  // ---- Alignment of the headers ----

  ghost predicate HeadersAligned(l: seq<Entry>) {
    forall i :: 0 <= i < |l| ==> l[i].addr % 8 == 0
  }

  /** In a block with an aligned header, a header behind the request is aligned exactly when the size is a multiple
      of 8. */
  lemma NextHeaderAlignedIff(e: Entry, size: nat, alignment: nat)
    requires e.addr % 8 == 0 && Askable(e.addr, size, alignment) && TryFit(e, size, alignment).Some?
    ensures (TryFit(e, size, alignment).value + size) % 8 == 0 <==> size % 8 == 0
  {
    BehindAligned(e.addr + 40, TryFit(e, size, alignment).value, size, alignment);
  }

  lemma BehindAligned(start: nat, ptr: nat, size: nat, alignment: nat)
    requires start % 8 == 0 && IsPowerOfTwo(alignment) && start <= ptr < start + alignment && ptr % alignment == 0
    ensures (ptr + size) % 8 == 0 <==> size % 8 == 0
  {
    PowerSplit(alignment);
    GapIsMultiple(start, ptr, alignment);
    SumOfMultiples(start, ptr - start, size);
  }

  /** Reserving keeps all headers aligned exactly when the size is a multiple of 8 or nothing is split off. */
  lemma ReserveKeepsAlignedIff(l: seq<Entry>, end: nat, size: nat, alignment: nat)
    requires HeadersAligned(l) && forall k :: 0 <= k < |l| ==> Askable(l[k].addr, size, alignment)
    ensures var l' := Reserve(l, end, size, alignment).0;
      HeadersAligned(l') <==> size % 8 == 0 || |l'| == |l|
  {
    match FirstFit(l, 0, size, alignment)
    case None =>
    case Some((i, ptr)) =>
      NextHeaderAlignedIff(l[i], size, alignment);
      var l' := Split(l, end, i, ptr, size);
      if |l'| == |l| {
        assert forall j :: 0 <= j < |l| ==> l'[j].addr == l[j].addr;
      } else {
        assert l'[i + 1].addr == ptr + size;
        assert forall j :: 0 <= j < |l'| && j != i + 1 ==> l'[j].addr == l[if j <= i then j else j - 1].addr;
      }
  }

  lemma ReleaseKeepsAligned(l: seq<Entry>, i: nat)
    requires HeadersAligned(l) && Used(l, i)
    ensures HeadersAligned(Released(l, i))
  {
    forall k | 0 <= k < |Released(l, i)|
      ensures Released(l, i)[k].addr % 8 == 0
    {
      ReleasedFrom(l, i, k);
    }
  }

  /** Over every such run whose sizes are multiples of 8, all headers stay aligned. */
  lemma {:induction false} RunKeepsAligned(m: Machine, buffer: nat, end: nat, ops: seq<Op>)
    requires SpansHeld(m, buffer, end) && EnabledRun(m, end, ops)
    requires HeadersAligned(m.list) && forall op :: op in ops && op.ReserveOp? ==> op.size % 8 == 0
    ensures HeadersAligned(Run(m, end, ops).list)
    decreases |ops|
  {
    if ops != [] {
      var op := ops[0];
      assert op in ops;
      if op.ReserveOp? {
        AddressesAskable(m.list, buffer, end, op.size, op.alignment);
        ReserveKeepsAlignedIff(m.list, end, op.size, op.alignment);
        ReserveKeepsSpans(m, buffer, end, op);
      } else {
        ReleaseKeepsAligned(m.list, Holder(m.list, m.spans[op.k]));
        ReleaseKeepsSpans(m, buffer, end, op);
      }
      RunKeepsAligned(Step(m, end, op), buffer, end, ops[1..]);
    }
  }

  /** The very first reservation of an odd size misaligns a header: 1 byte of the buffer at 4096 puts one at 4137. */
  lemma OddSizeMisaligns(buffer: nat, capacity: nat, size: nat)
    requires buffer % 8 == 0 && size % 8 != 0 && capacity >= size + 72 && Askable(buffer, size, 8)
    ensures var (l', r) := Reserve(Fresh(buffer, capacity), buffer + capacity, size, 8);
      && HeadersAligned(Fresh(buffer, capacity)) && r == Some(buffer + 40)
      && |l'| == 2 && l'[1].addr == buffer + 40 + size && !HeadersAligned(l')
  {
    var l := Fresh(buffer, capacity);
    AlignUpIs(buffer + 40, 8, buffer + 40);
    assert FirstFit(l, 0, size, 8) == Some((0, buffer + 40));
    ReserveKeepsAlignedIff(l, buffer + capacity, size, 8);
  }

  // ---- The linked list in memory ----

  /** A `BufferBlock` header; links are addresses, None for null. */
  datatype BufferBlock = BufferBlock(size: nat, free: bool, next: Option<nat>, prev: Option<nat>)

  /** The headers and the back pointers in the buffer, by address. */
  datatype Memory = Memory(blocks: map<nat, BufferBlock>, back: map<nat, nat>)

  /** What is left once the bytes `[lo, hi)` have been overwritten. */
  function Touch(m: Memory, lo: nat, hi: nat): Memory {
    Memory(Scribble(m.blocks, lo, hi, 32), Scribble(m.back, lo, hi, 8))
  }

  function WriteHeader(m: Memory, at: nat, b: BufferBlock): Memory {
    var m' := Touch(m, at, at + 32);
    m'.(blocks := m'.blocks[at := b])
  }

  function WriteBack(m: Memory, at: nat, to: nat): Memory {
    var m' := Touch(m, at, at + 8);
    m'.(back := m'.back[at := to])
  }

  function Next(l: seq<Entry>, i: nat): Option<nat>
    requires i < |l|
  {
    if i + 1 < |l| then Some(l[i + 1].addr) else None
  }

  function Prev(l: seq<Entry>, i: nat): Option<nat>
    requires i < |l|
  {
    if i > 0 then Some(l[i - 1].addr) else None
  }

  function HeaderOf(l: seq<Entry>, i: nat): BufferBlock
    requires i < |l|
  {
    BufferBlock(l[i].size, l[i].user.None?, Next(l, i), Prev(l, i))
  }

  /** The header at entry `e` is `b`, and the word below its user pointer leads back to it. */
  ghost predicate Holds(m: Memory, e: Entry, b: BufferBlock) {
    && e.addr in m.blocks && m.blocks[e.addr] == b
    && (e.user.Some? ==> 8 <= e.user.value && e.user.value - 8 in m.back && m.back[e.user.value - 8] == e.addr)
  }

  /** The header of block `i` is intact and matches its neighbours. */
  ghost predicate Node(m: Memory, l: seq<Entry>, i: nat)
    requires i < |l|
  {
    Holds(m, l[i], HeaderOf(l, i))
  }

  /** Neither the header nor the back pointer of `e` shares a byte with `[lo, hi)`. */
  predicate Untouched(e: Entry, lo: nat, hi: nat) {
    && (e.addr + 32 <= lo || hi <= e.addr)
    && (e.user.Some? ==> e.user.value <= lo || hi <= e.user.value - 8)
  }

  lemma TouchKeeps(m: Memory, e: Entry, b: BufferBlock, lo: nat, hi: nat)
    requires Holds(m, e, b) && Untouched(e, lo, hi)
    ensures Holds(Touch(m, lo, hi), e, b)
  {
  }

  /** A write behind what block `i` owns and before the next header touches no header and no back pointer. */
  lemma GapUntouched(l: seq<Entry>, buffer: nat, end: nat, i: nat, lo: nat, hi: nat, j: nat)
    requires WellFormed(l, buffer, end) && i < |l| && j < |l|
    requires l[i].addr + 32 <= lo <= hi <= Limit(l, end, i) && (l[i].user.Some? ==> l[i].user.value <= lo)
    ensures Untouched(l[j], lo, hi)
  {
    assert Fits(l, end, i) && Fits(l, end, j);
    if j < i {
      Ascending(l, buffer, end, j, i);
    } else if i < j {
      Ascending(l, buffer, end, i, j);
    }
  }

  /** Writing the header of block `i` leaves every other header and all back pointers intact. */
  lemma WriteHeaderKeeps(m: Memory, l: seq<Entry>, buffer: nat, end: nat, i: nat, b: BufferBlock,
      j: nat, c: BufferBlock)
    requires WellFormed(l, buffer, end) && i < |l| && j < |l| && Holds(m, l[j], c)
    ensures Holds(WriteHeader(m, l[i].addr, b), l[j], if i == j then b else c)
  {
    assert Fits(l, end, i) && Fits(l, end, j);
    if j < i {
      Ascending(l, buffer, end, j, i);
    } else if i < j {
      Ascending(l, buffer, end, i, j);
    }
  }

  /** A block's owner cannot reach any header or back pointer. */
  lemma OwnerUntouched(l: seq<Entry>, buffer: nat, end: nat, i: nat, at: nat, j: nat)
    requires WellFormed(l, buffer, end) && i < |l| && j < |l|
    requires l[i].user.Some? && l[i].user.value <= at < l[i].user.value + l[i].size
    ensures Untouched(l[j], at, at + 1)
  {
    assert Fits(l, end, i);
    GapUntouched(l, buffer, end, i, at, at + 1, j);
  }

  class BufferAllocator {
    const buffer: nat
    const capacity: nat
    const first: nat
    var mem: Memory
    ghost var list: seq<Entry>

    ghost function End(): nat {
      buffer + capacity
    }

    ghost predicate Valid()
      reads this
    {
      && first == buffer && WellFormed(list, buffer, End())
      && (forall i :: 0 <= i < |list| ==> Node(mem, list, i))
    }

    /** `buffer_memory_source_create`. */
    constructor (buffer: nat, capacity: nat)
      requires buffer % 8 == 0 && capacity > 32
      ensures Valid() && list == Fresh(buffer, capacity) && this.buffer == buffer && this.capacity == capacity
      ensures HeadersAligned(list) && list == [Entry(buffer, capacity - 32, None)]
    {
      this.buffer, this.capacity, this.first := buffer, capacity, buffer;
      this.mem := Memory(map[buffer := BufferBlock(capacity - 32, true, None, None)], map[]);
      this.list := Fresh(buffer, capacity);
    }

    /** `buffer_try_fit_pointer_in_block`, for the `i`th block. */
    method TryFitInBlock(at: nat, size: nat, alignment: nat, ghost i: nat) returns (r: Option<nat>)
      requires Valid() && i < |list| && at == list[i].addr && Askable(at, size, alignment)
      ensures r == TryFit(list[i], size, alignment)
    {
      assert Node(mem, list, i);
      var block := mem.blocks[at];
      if !block.free { return None; }
      if block.size < size { return None; }
      var minAddress := at + 32 + 8;
      var aligned := AlignUp(minAddress, alignment);
      if aligned + size > at + block.size { return None; }
      return Some(aligned);
    }

    /** The search loop of `buffer_reserve`: the block at `at`, the `i`th, offers `ptr`. */
    method FindFit(size: nat, alignment: nat) returns (at: nat, ptr: Option<nat>, ghost i: nat)
      requires Valid() && Askable(End(), size, alignment)
      requires forall k :: 0 <= k < |list| ==> Askable(list[k].addr, size, alignment)
      ensures ptr.None? ==> FirstFit(list, 0, size, alignment) == None
      ensures ptr.Some? ==>
        i < |list| && at == list[i].addr && FirstFit(list, 0, size, alignment) == Some((i, ptr.value))
    {
      var current := Some(first);
      at, ptr, i := first, None, 0;
      while current.Some?
        invariant 0 <= i <= |list| && ptr.None?
        invariant current == if i < |list| then Some(list[i].addr) else None
        invariant FirstFit(list, 0, size, alignment) == FirstFit(list, i, size, alignment)
        decreases |list| - i
      {
        at := current.value;
        ptr := TryFitInBlock(at, size, alignment, i);
        if ptr.Some? { return; }
        assert Node(mem, list, i);
        current := mem.blocks[at].next;
        i := i + 1;
      }
    }

    /** `buffer_reserve`. */
    method ReserveBytes(size: nat, alignment: nat) returns (ptr: Option<nat>)
      requires Valid() && Askable(End(), size, alignment)
      modifies this
      ensures Valid()
      ensures forall k :: 0 <= k < |old(list)| ==> Askable(old(list)[k].addr, size, alignment)
      ensures (list, ptr) == Reserve(old(list), End(), size, alignment)
      ensures ptr.None? ==> list == old(list) && mem == old(mem)
    {
      AddressesAskable(list, buffer, End(), size, alignment);
      var at, found, i := FindFit(size, alignment);
      if found.None? {
        return None;
      }
      TakeBlock(at, found.value, size, i);
      return found;
    }

    /** What `buffer_reserve` does to the block it found. */
    method TakeBlock(at: nat, ptr: nat, size: nat, ghost i: nat)
      requires Valid() && i < |list| && at == list[i].addr && list[i].user.None?
      requires list[i].addr + 40 <= ptr && ptr + size <= list[i].addr + list[i].size
      modifies this
      ensures Valid() && list == Split(old(list), End(), i, ptr, size)
    {
      ghost var l := list;
      assert Fits(l, End(), i);
      var rest := MarkTaken(at, ptr, size, i);
      if rest >= 0 {
        InsertRest(at, ptr + size, rest, i);
        assert list == Split(l, End(), i, ptr, size);
      }
    }

    /** The first half of `buffer_reserve`: write the back pointer and take the block. The result is the size
        left over for a further block, negative when not even a header fits. */
    method MarkTaken(at: nat, ptr: nat, size: nat, ghost i: nat) returns (rest: int)
      requires Valid() && i < |list| && at == list[i].addr && list[i].user.None?
      requires list[i].addr + 40 <= ptr && ptr + size <= list[i].addr + list[i].size
      modifies this
      ensures Valid() && list == old(list)[i := Entry(at, size, Some(ptr))]
      ensures rest == Limit(list, End(), i) - (ptr + size) - 32
    {
      ghost var l, m := list, mem;
      assert Node(m, l, i) && Fits(l, End(), i);
      mem := WriteBack(mem, ptr - 8, at);
      forall j | 0 <= j < |l|
        ensures Node(mem, l, j)
      {
        assert Node(m, l, j);
        GapUntouched(l, buffer, End(), i, ptr - 8, ptr, j);
        TouchKeeps(m, l[j], HeaderOf(l, j), ptr - 8, ptr);
      }
      ghost var m1 := mem;
      assert Node(m1, l, i);
      var block := mem.blocks[at].(size := size, free := false);
      mem := WriteHeader(mem, at, block);
      var oldNextStart := match block.next case Some(n) => n case None => buffer + capacity;
      rest := oldNextStart - (ptr + size) - 32;
      list := l[i := Entry(at, size, Some(ptr))];
      forall j | 0 <= j < |list|
        ensures Fits(list, End(), j) && Node(mem, list, j)
      {
        assert Fits(l, End(), j) && Node(m1, l, j);
        WriteHeaderKeeps(m1, l, buffer, End(), i, block, j, HeaderOf(l, j));
      }
    }

    /** The second half: a header for the space left over, linked in after block `i`. */
    method InsertRest(at: nat, nextStart: nat, rest: nat, ghost i: nat)
      requires Valid() && i < |list| && at == list[i].addr && list[i].user.Some?
      requires nextStart == list[i].user.value + list[i].size
      requires nextStart + 32 + rest == Limit(list, End(), i)
      modifies this
      ensures Valid() && list == old(list)[..i + 1] + [Entry(nextStart, rest, None)] + old(list)[i + 1..]
    {
      ghost var l, m := list, mem;
      list := l[..i + 1] + [Entry(nextStart, rest, None)] + l[i + 1..];
      InsertKeepsWellFormed(l, buffer, End(), i, list[i + 1]);
      assert Node(m, l, i) && (i + 1 < |l| ==> Node(m, l, i + 1) && list[i + 2] == l[i + 1]);
      var next := mem.blocks[at].next;
      var header := BufferBlock(rest, true, next, Some(at));
      mem := WriteHeader(mem, nextStart, header);
      WriteHeaderKeeps(m, list, buffer, End(), i + 1, header, i, HeaderOf(l, i));
      if next.Some? {
        WriteHeaderKeeps(m, list, buffer, End(), i + 1, header, i + 2, HeaderOf(l, i + 1));
        ghost var m1 := mem;
        mem := WriteHeader(mem, next.value, mem.blocks[next.value].(prev := Some(nextStart)));
        WriteHeaderKeeps(m1, list, buffer, End(), i + 2, mem.blocks[next.value], i, HeaderOf(l, i));
      }
      mem := WriteHeader(mem, at, mem.blocks[at].(next := Some(nextStart)));
      assert mem == LinkedIn(m, l, i, nextStart, rest);
      forall j | 0 <= j < |list|
        ensures Node(mem, list, j)
      {
        LinkedInNode(m, l, buffer, End(), i, nextStart, rest, j);
      }
    }

    /** `buffer_release`, for the pointer of the `i`th block: the list follows the release function, and its links
        and extents stay sound exactly when the release is clean. */
    method ReleaseBytes(ptr: nat, ghost i: nat)
      requires Valid() && i < |list| && list[i].user == Some(ptr)
      modifies this
      ensures Used(old(list), i) && list == Released(old(list), i)
      ensures Valid() <==> CleanRelease(old(list), End(), i)
    {
      ghost var l := list;
      assert Fits(l, End(), i);
      var block := FreeHeader(ptr, i);
      MergeNeighbours(block, i);
      list := Released(l, i);
      ReleaseKeepsWellFormedIff(l, buffer, End(), i);
      ReleasedNodes(mem, l, End(), i, ReleasedHeaders(l, i));
    }

    /** The header of the block is found from the pointer, and rewritten as that of a free block. */
    method FreeHeader(ptr: nat, ghost i: nat) returns (block: BufferBlock)
      requires Valid() && i < |list| && list[i].user == Some(ptr)
      modifies this`mem
      ensures Used(list, i) && block == FreedHeader(list, i) && HoldsAll(mem, list, Headers(list)[i := block])
    {
      assert Node(mem, list, i) && Fits(list, End(), i);
      var at := mem.back[ptr - 8];
      block := mem.blocks[at];
      block := block.(free := true, size := ptr + block.size - at);
      forall j | 0 <= j < |list|
        ensures Holds(mem, list[j], Headers(list)[j])
      {
        assert Node(mem, list, j);
      }
      PutHeader(at, block, i, Headers(list));
    }

    /** The two merges. */
    method MergeNeighbours(block: BufferBlock, ghost i: nat)
      requires WellFormed(list, buffer, End()) && Used(list, i) && block == FreedHeader(list, i)
      requires HoldsAll(mem, list, Headers(list)[i := block])
      modifies this`mem
      ensures HoldsAll(mem, list, ReleasedHeaders(list, i))
    {
      ghost var hs := Headers(list)[i := block];
      assert i > 0 ==> Holds(mem, list[i - 1], hs[i - 1]);
      if block.prev.Some? && mem.blocks[block.prev.value].free {
        hs := MergeBack(block, i, hs);
      }
      assert i + 1 < |list| ==> Holds(mem, list[i + 1], hs[i + 1]) && hs[i + 1].free == NextFree(list, i);
      if block.next.Some? && mem.blocks[block.next.value].free {
        hs := MergeForward(block, i, hs);
      }
    }

    /** One header written in place; `hs` lists the headers of all blocks. */
    method PutHeader(at: nat, b: BufferBlock, ghost i: nat, ghost hs: seq<BufferBlock>)
      requires WellFormed(list, buffer, End()) && HoldsAll(mem, list, hs) && i < |list| && at == list[i].addr
      modifies this`mem
      ensures HoldsAll(mem, list, hs[i := b])
    {
      ghost var m := mem;
      mem := WriteHeader(mem, at, b);
      forall j | 0 <= j < |list|
        ensures Holds(mem, list[j], hs[i := b][j])
      {
        WriteHeaderKeeps(m, list, buffer, End(), i, b, j, hs[j]);
      }
    }

    /** A free block before the released one takes it over. */
    method MergeBack(block: BufferBlock, ghost i: nat, ghost hs: seq<BufferBlock>)
      returns (ghost hs': seq<BufferBlock>)
      requires WellFormed(list, buffer, End()) && HoldsAll(mem, list, hs) && 0 < i < |list|
      requires block.prev == Prev(list, i) && block.next == Next(list, i)
      modifies this`mem
      ensures hs' == TakenOver(list, i, block, hs) && HoldsAll(mem, list, hs')
    {
      hs' := hs;
      var prev := block.prev.value;
      if block.next.Some? {
        var next := block.next.value;
        var b := mem.blocks[next].(prev := block.prev);
        PutHeader(next, b, i + 1, hs');
        hs' := hs'[i + 1 := b];
      }
      var b := mem.blocks[prev].(next := block.next, size := mem.blocks[prev].size + block.size);
      PutHeader(prev, b, i - 1, hs');
      hs' := hs'[i - 1 := b];
    }

    /** A free block behind the released one grows by it where it stands. */
    method MergeForward(block: BufferBlock, ghost i: nat, ghost hs: seq<BufferBlock>)
      returns (ghost hs': seq<BufferBlock>)
      requires WellFormed(list, buffer, End()) && HoldsAll(mem, list, hs) && i + 1 < |list|
      requires block.prev == Prev(list, i) && block.next == Next(list, i)
      modifies this`mem
      ensures hs' == GrownBehind(list, i, block, hs) && HoldsAll(mem, list, hs')
    {
      hs' := hs;
      var next := block.next.value;
      var b := mem.blocks[next].(prev := block.prev);
      PutHeader(next, b, i + 1, hs');
      hs' := hs'[i + 1 := b];
      if block.prev.Some? {
        var prev := block.prev.value;
        var p := mem.blocks[prev].(next := block.next);
        PutHeader(prev, p, i - 1, hs');
        hs' := hs'[i - 1 := p];
      }
      b := mem.blocks[next].(size := mem.blocks[next].size + block.size);
      PutHeader(next, b, i + 1, hs');
      hs' := hs'[i + 1 := b];
    }

    /** The owner of block `i` writes a byte: the list in memory stays as it was. */
    method WriteByte(at: nat, ghost i: nat)
      requires Valid() && i < |list| && list[i].user.Some?
      requires list[i].user.value <= at < list[i].user.value + list[i].size
      modifies this`mem
      ensures Valid() && mem == Touch(old(mem), at, at + 1)
    {
      ghost var m := mem;
      mem := Touch(mem, at, at + 1);
      forall j | 0 <= j < |list|
        ensures Node(mem, list, j)
      {
        assert Node(m, list, j);
        OwnerUntouched(list, buffer, End(), i, at, j);
        TouchKeeps(m, list[j], HeaderOf(list, j), at, at + 1);
      }
    }
  }

  ghost predicate HoldsAll(m: Memory, l: seq<Entry>, hs: seq<BufferBlock>) {
    |hs| == |l| && forall j :: 0 <= j < |l| ==> Holds(m, l[j], hs[j])
  }

  /** The headers after the merge with a free block before, and after the merge with one behind. */
  function TakenOver(l: seq<Entry>, i: nat, block: BufferBlock, hs: seq<BufferBlock>): seq<BufferBlock>
    requires 0 < i < |l| == |hs|
  {
    var hs1 := if i + 1 < |l| then hs[i + 1 := hs[i + 1].(prev := block.prev)] else hs;
    hs1[i - 1 := hs1[i - 1].(next := block.next, size := hs1[i - 1].size + block.size)]
  }

  function GrownBehind(l: seq<Entry>, i: nat, block: BufferBlock, hs: seq<BufferBlock>): seq<BufferBlock>
    requires i + 1 < |l| == |hs|
  {
    var hs1 := if i > 0 then hs[i - 1 := hs[i - 1].(next := block.next)] else hs;
    hs1[i + 1 := hs1[i + 1].(prev := block.prev, size := hs1[i + 1].size + block.size)]
  }

  function Headers(l: seq<Entry>): (hs: seq<BufferBlock>)
    ensures |hs| == |l| && forall j :: 0 <= j < |l| ==> hs[j] == HeaderOf(l, j)
  {
    seq(|l|, k requires 0 <= k < |l| => HeaderOf(l, k))
  }

  function FreedHeader(l: seq<Entry>, i: nat): BufferBlock
    requires Used(l, i)
  {
    HeaderOf(l, i).(free := true, size := FreedSize(l, i))
  }

  function ReleasedHeaders(l: seq<Entry>, i: nat): seq<BufferBlock>
    requires Used(l, i)
  {
    var block := FreedHeader(l, i);
    var hs := Headers(l)[i := block];
    var hs1 := if PrevFree(l, i) then TakenOver(l, i, block, hs) else hs;
    if NextFree(l, i) then GrownBehind(l, i, block, hs1) else hs1
  }

  /** The headers written match the list after the release, but for the back link when the first block is released
      before a free one. */
  lemma ReleasedNodes(m: Memory, l: seq<Entry>, end: nat, i: nat, hs: seq<BufferBlock>)
    requires Used(l, i) && hs == ReleasedHeaders(l, i) && HoldsAll(m, l, hs)
    ensures (forall k :: 0 <= k < |Released(l, i)| ==> Node(m, Released(l, i), k)) <==> !(i == 0 && NextFree(l, i))
  {
    if i == 0 && NextFree(l, i) {
      assert Holds(m, l[1], hs[1]);
      ReleasedFrom(l, i, 1);
      assert !Node(m, Released(l, i), 1);
    } else {
      forall k | 0 <= k < |Released(l, i)|
        ensures Node(m, Released(l, i), k)
      {
        ReleasedNode(m, l, i, hs, k);
      }
    }
  }

  /** Taking entry `i` out of a list changes only the links of its neighbours. */
  lemma ShiftedLinks(l: seq<Entry>, l': seq<Entry>, unlinked: bool, i: nat, k: nat)
    requires i < |l| && k < |l'| == if unlinked then |l| - 1 else |l|
    requires forall m :: 0 <= m < |l'| ==> l'[m].addr == l[Shifted(unlinked, i, m)].addr
    ensures var j := Shifted(unlinked, i, k);
      && Next(l', k) == Next(l, if unlinked && j == i - 1 then i else j)
      && Prev(l', k) == Prev(l, if unlinked && j == i + 1 then i else j)
  {
    if k > 0 {
      assert l'[k - 1].addr == l[Shifted(unlinked, i, k - 1)].addr;
    }
    if k + 1 < |l'| {
      assert l'[k + 1].addr == l[Shifted(unlinked, i, k + 1)].addr;
    }
  }

  /** Only the neighbours of an unlinked block change their links. */
  lemma ReleasedNeighbours(l: seq<Entry>, i: nat, k: nat)
    requires Used(l, i) && k < |Released(l, i)|
    ensures var j := Origin(l, i, k);
      && j < |l| && (Unlinked(l, i) ==> j != i)
      && Next(Released(l, i), k) == Next(l, if Unlinked(l, i) && j == i - 1 then i else j)
      && Prev(Released(l, i), k) == Prev(l, if Unlinked(l, i) && j == i + 1 then i else j)
  {
    forall m | 0 <= m < |Released(l, i)|
      ensures Released(l, i)[m].addr == l[Shifted(Unlinked(l, i), i, m)].addr
    {
      ReleasedAddress(l, i, m);
    }
    ReleasedFrom(l, i, k);
    ShiftedLinks(l, Released(l, i), Unlinked(l, i), i, k);
  }

  lemma ReleasedAddress(l: seq<Entry>, i: nat, k: nat)
    requires Used(l, i) && k < |Released(l, i)|
    ensures var j := Origin(l, i, k); j < |l| && (Unlinked(l, i) ==> j != i) && Released(l, i)[k].addr == l[j].addr
  {
    ReleasedFrom(l, i, k);
  }

  lemma ReleasedExtent(l: seq<Entry>, i: nat, j: nat)
    requires Used(l, i) && j < |l|
    ensures var h := ReleasedHeaders(l, i)[j];
      h.free == Merged(l, i)[j].user.None? && h.size == Merged(l, i)[j].size
  {
  }

  lemma ReleasedLinks(l: seq<Entry>, i: nat, j: nat)
    requires Used(l, i) && j < |l| && !(i == 0 && NextFree(l, i))
    ensures var h := ReleasedHeaders(l, i)[j];
      && h.next == Next(l, if Unlinked(l, i) && j == i - 1 then i else j)
      && h.prev == Prev(l, if Unlinked(l, i) && j == i + 1 then i else j)
  {
  }

  lemma ReleasedNode(m: Memory, l: seq<Entry>, i: nat, hs: seq<BufferBlock>, k: nat)
    requires Used(l, i) && hs == ReleasedHeaders(l, i) && HoldsAll(m, l, hs) && !(i == 0 && NextFree(l, i))
    requires k < |Released(l, i)|
    ensures Node(m, Released(l, i), k)
  {
    ReleasedFrom(l, i, k);
    ReleasedNeighbours(l, i, k);
    var j := Origin(l, i, k);
    ReleasedExtent(l, i, j);
    ReleasedLinks(l, i, j);
    assert Holds(m, l[j], hs[j]);
  }

  lemma InsertKeepsWellFormed(l: seq<Entry>, buffer: nat, end: nat, i: nat, e: Entry)
    requires WellFormed(l, buffer, end) && i < |l| && l[i].user.Some? && e.user.None?
    requires e.addr == l[i].user.value + l[i].size && e.addr + 32 + e.size == Limit(l, end, i)
    ensures WellFormed(l[..i + 1] + [e] + l[i + 1..], buffer, end)
  {
    var l' := l[..i + 1] + [e] + l[i + 1..];
    assert Fits(l, end, i);
    forall j | 0 <= j < |l'|
      ensures Fits(l', end, j)
    {
      if j != i + 1 {
        assert Fits(l, end, if j <= i then j else j - 1);
      }
    }
  }

  /** Memory once a header at `nextStart` has been written and linked in after block `i`. */
  function LinkedIn(m: Memory, l: seq<Entry>, i: nat, nextStart: nat, rest: nat): Memory
    requires i < |l|
  {
    var m1 := WriteHeader(m, nextStart, BufferBlock(rest, true, Next(l, i), Some(l[i].addr)));
    var m2 := if i + 1 < |l| then WriteHeader(m1, l[i + 1].addr, HeaderOf(l, i + 1).(prev := Some(nextStart))) else m1;
    WriteHeader(m2, l[i].addr, HeaderOf(l, i).(next := Some(nextStart)))
  }

  lemma LinkedInNode(m: Memory, l: seq<Entry>, buffer: nat, end: nat, i: nat, nextStart: nat, rest: nat, j: nat)
    requires WellFormed(l, buffer, end) && i < |l| && l[i].user.Some? && nextStart == l[i].user.value + l[i].size
    requires nextStart + 32 + rest == Limit(l, end, i) && j <= |l|
    requires forall k :: 0 <= k < |l| ==> Node(m, l, k)
    ensures Node(LinkedIn(m, l, i, nextStart, rest), l[..i + 1] + [Entry(nextStart, rest, None)] + l[i + 1..], j)
  {
    var e := Entry(nextStart, rest, None);
    var l' := l[..i + 1] + [e] + l[i + 1..];
    InsertKeepsWellFormed(l, buffer, end, i, e);
    var b, n := BufferBlock(rest, true, Next(l, i), Some(l[i].addr)), HeaderOf(l, i).(next := Some(nextStart));
    var m1 := WriteHeader(m, nextStart, b);
    var c := if j == i + 1 then b else HeaderOf(l, if j <= i then j else j - 1);
    assert Holds(m1, l'[j], c) by {
      if j != i + 1 {
        assert Node(m, l, if j <= i then j else j - 1);
        WriteHeaderKeeps(m, l', buffer, end, i + 1, b, j, c);
      }
    }
    if i + 1 == |l| {
      WriteHeaderKeeps(m1, l', buffer, end, i, n, j, c);
    } else {
      var p := HeaderOf(l, i + 1).(prev := Some(nextStart));
      assert l'[i + 2] == l[i + 1];
      WriteHeaderKeeps(m1, l', buffer, end, i + 2, p, j, c);
      WriteHeaderKeeps(WriteHeader(m1, l[i + 1].addr, p), l', buffer, end, i, n, j, if j == i + 2 then p else c);
    }
  }
}
