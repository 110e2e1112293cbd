/** The pool allocator: fixed-size blocks and a free list threaded through an index array. */
module Pool {
  import opened Wrappers
  import opened Align
  import opened Ranges

  // ---- The free list as a sequence ----

  /** `free` is the free list in order, `out` the indices of outstanding blocks. */
  datatype State = State(free: seq<nat>, out: set<nat>)

  /** The list is duplicate-free and holds exactly the indices of `[0, n)` that are not outstanding. */
  ghost predicate Partition(s: State, n: nat) {
    && (forall i, j :: 0 <= i < j < |s.free| ==> s.free[i] != s.free[j])
    && (forall k: nat :: k in s.free <==> k < n && k !in s.out)
    && (forall k: nat :: k in s.out ==> k < n)
  }

  function Indices(n: nat): (r: seq<nat>)
    ensures |r| == n && forall i :: 0 <= i < n ==> r[i] == i
  {
    seq(n, i => i)
  }

  function Fresh(n: nat): State {
    State(Indices(n), {})
  }

  datatype Op = AllocOp | FreeOp(index: nat) | ResetOp

  /** Callers free only outstanding blocks. */
  predicate Enabled(s: State, op: Op) {
    op.FreeOp? ==> op.index in s.out
  }

  /** The next state, and the index returned by an allocation. */
  function Step(s: State, n: nat, op: Op): (State, Option<nat>) {
    match op
    case AllocOp =>
      if s.free == [] then (s, None) else (State(s.free[1..], s.out + {s.free[0]}), Some(s.free[0]))
    case FreeOp(k) => (State([k] + s.free, s.out - {k}), None)
    case ResetOp => (Fresh(n), None)
  }

  function Run(s: State, n: nat, ops: seq<Op>): State
    decreases |ops|
  {
    if ops == [] then s else Run(Step(s, n, ops[0]).0, n, ops[1..])
  }

  predicate EnabledRun(s: State, n: nat, ops: seq<Op>)
    decreases |ops|
  {
    ops == [] || (Enabled(s, ops[0]) && EnabledRun(Step(s, n, ops[0]).0, n, ops[1..]))
  }

  lemma StepKeepsPartition(s: State, n: nat, op: Op)
    requires Partition(s, n) && Enabled(s, op)
    ensures Partition(Step(s, n, op).0, n)
  {
    var s' := Step(s, n, op).0;
    match op
    case AllocOp =>
      if s.free != [] {
        assert s.free == [s.free[0]] + s'.free;
        assert forall x: nat :: x in s.free <==> x == s.free[0] || x in s'.free;
        assert s.free[0] in s.free && s.free[0] !in s'.free;
      }
    case FreeOp(k) =>
      assert k !in s.free;
      assert forall x: nat :: x in s'.free <==> x == k || x in s.free;
    case ResetOp =>
      forall k: nat
        ensures k in s'.free <==> k < n
      {
        if k < n {
          assert s'.free[k] == k;
        }
      }
  }

  /** Over every run the free list is duplicate-free and enumerates exactly the blocks not outstanding. */
  lemma {:induction false} RunKeepsPartition(s: State, n: nat, ops: seq<Op>)
    requires Partition(s, n) && EnabledRun(s, n, ops)
    ensures Partition(Run(s, n, ops), n)
    decreases |ops|
  {
    if ops != [] {
      StepKeepsPartition(s, n, ops[0]);
      RunKeepsPartition(Step(s, n, ops[0]).0, n, ops[1..]);
    }
  }

  /** Allocation returns null exactly when all blocks are outstanding, and then changes nothing. */
  lemma NullIffExhausted(s: State, n: nat)
    requires Partition(s, n)
    ensures Step(s, n, AllocOp).1.None? <==> s.out == Below(n)
    ensures Step(s, n, AllocOp).1.None? ==> |s.out| == n && Step(s, n, AllocOp).0 == s
    ensures Step(s, n, AllocOp).1.Some? ==> Step(s, n, AllocOp).1.value !in s.out
  {
    if s.free == [] {
      assert forall k: nat :: k < n ==> k in s.out;
    } else {
      assert s.free[0] in s.free;
    }
  }

  /** Freeing the block just allocated restores the pool exactly. */
  lemma FreeUndoesAlloc(s: State, n: nat)
    requires Partition(s, n) && s.free != []
    ensures var (s', k) := Step(s, n, AllocOp);
      k.Some? && Enabled(s', FreeOp(k.value)) && Step(s', n, FreeOp(k.value)).0 == s
  {
    assert s.free[0] in s.free;
    assert s.free == [s.free[0]] + s.free[1..];
    assert s.out + {s.free[0]} - {s.free[0]} == s.out;
  }

  function Frees(ks: seq<nat>): seq<Op> {
    seq(|ks|, i requires 0 <= i < |ks| => FreeOp(ks[i]))
  }

  /** Allocates `c` times, collecting the indices returned. */
  function AllocMany(s: State, n: nat, c: nat): (State, seq<nat>)
    requires c <= |s.free|
    decreases c
  {
    if c == 0 then (s, []) else
    var (s', k) := Step(s, n, AllocOp);
    var (last, ks) := AllocMany(s', n, c - 1);
    (last, [k.value] + ks)
  }

  lemma {:induction false} FreesPush(s: State, n: nat, ks: seq<nat>)
    ensures Run(s, n, Frees(ks)).free == Reversed(ks) + s.free
    decreases |ks|
  {
    if ks != [] {
      assert Frees(ks)[1..] == Frees(ks[1..]);
      FreesPush(Step(s, n, FreeOp(ks[0])).0, n, ks[1..]);
    }
  }

  function Reversed(ks: seq<nat>): (r: seq<nat>)
    ensures |r| == |ks|
    ensures forall i :: 0 <= i < |ks| ==> r[i] == ks[|ks| - 1 - i]
  {
    if ks == [] then [] else Reversed(ks[1..]) + [ks[0]]
  }

  lemma {:induction false} AllocsPop(s: State, n: nat, c: nat)
    requires c <= |s.free|
    ensures AllocMany(s, n, c).1 == s.free[..c]
    decreases c
  {
    if c > 0 {
      AllocsPop(Step(s, n, AllocOp).0, n, c - 1);
    }
  }

  /** Freed blocks are reissued last in, first out. */
  lemma FreesReissuedInReverse(s: State, n: nat, ks: seq<nat>)
    ensures |ks| <= |Run(s, n, Frees(ks)).free|
    ensures AllocMany(Run(s, n, Frees(ks)), n, |ks|).1 == Reversed(ks)
  {
    FreesPush(s, n, ks);
    AllocsPop(Run(s, n, Frees(ks)), n, |ks|);
  }

  /** After a reset, whatever was outstanding: all blocks are free, and are issued in order of their indices. */
  lemma ResetReissuesAll(s: State, n: nat)
    ensures var s' := Step(s, n, ResetOp).0;
      && s'.out == {} && |s'.free| == n && (forall i :: 0 <= i < n ==> s'.free[i] == i)
      && var ks := AllocMany(s', n, n).1; |ks| == n && forall i :: 0 <= i < n ==> ks[i] == i
  {
    AllocsPop(Step(s, n, ResetOp).0, n, n);
  }

  // ---- Addresses ----

  /** Where block `k` starts, and the index recovered from a pointer. */
  function PtrOf(buffer: nat, blockSize: nat, k: nat): nat {
    buffer + k * blockSize
  }

  function IndexOf(buffer: nat, blockSize: nat, ptr: nat): nat
    requires buffer <= ptr && blockSize > 0
  {
    (ptr - buffer) / blockSize
  }

  /** The asserts of `pool_free`. */
  predicate IsBlockPtr(buffer: nat, blockSize: nat, n: nat, ptr: nat)
    requires blockSize > 0
  {
    buffer <= ptr < buffer + blockSize * n && (ptr - buffer) % blockSize == 0
  }

  /** Index to pointer to index, for every block. */
  lemma IndexRoundTrip(buffer: nat, blockSize: nat, n: nat, k: nat)
    requires blockSize > 0 && k < n
    ensures IsBlockPtr(buffer, blockSize, n, PtrOf(buffer, blockSize, k))
    ensures IndexOf(buffer, blockSize, PtrOf(buffer, blockSize, k)) == k
  {
    ModIs(k * blockSize, blockSize, k, 0);
    MulAtLeast(blockSize, n - k);
    assert blockSize * n == blockSize * k + blockSize * (n - k);
  }

  /** Pointer to index to pointer, for every pointer that the asserts let through. */
  lemma PtrRoundTrip(buffer: nat, blockSize: nat, n: nat, ptr: nat)
    requires blockSize > 0 && IsBlockPtr(buffer, blockSize, n, ptr)
    ensures IndexOf(buffer, blockSize, ptr) < n
    ensures PtrOf(buffer, blockSize, IndexOf(buffer, blockSize, ptr)) == ptr
  {
    var k := IndexOf(buffer, blockSize, ptr);
    assert ptr - buffer == blockSize * k;
    assert blockSize * (k - n) == blockSize * k - blockSize * n;
    MulAtLeast(blockSize, k - n);
    assert k == n ==> blockSize * (k - n) == 0;
  }

  /** Distinct blocks are disjoint and in bounds. */
  lemma BlocksDisjoint(buffer: nat, blockSize: nat, n: nat, j: nat, k: nat)
    requires j < k < n
    ensures PtrOf(buffer, blockSize, j) + blockSize <= PtrOf(buffer, blockSize, k)
    ensures PtrOf(buffer, blockSize, k) + blockSize <= buffer + blockSize * n
  {
    MulAtLeast(blockSize, k - j);
    assert blockSize * k == blockSize * j + blockSize * (k - j);
    MulAtLeast(blockSize, n - k);
    assert blockSize * n == blockSize * k + blockSize * (n - k);
  }

  /** `pool_create` rounds the stride up, so every block of an aligned buffer is aligned. */
  lemma BlocksAligned(buffer: nat, requested: nat, alignment: nat, k: nat)
    requires IsPowerOfTwo(alignment) && requested + alignment < WORD && buffer % alignment == 0
    ensures requested <= AlignUp(requested, alignment)
    ensures PtrOf(buffer, AlignUp(requested, alignment), k) % alignment == 0
  {
    StrideAligned(buffer, AlignUp(requested, alignment), alignment, k);
  }

  lemma StrideAligned(buffer: nat, stride: nat, alignment: nat, k: nat)
    requires alignment > 0 && buffer % alignment == 0 && stride % alignment == 0
    ensures PtrOf(buffer, stride, k) % alignment == 0
  {
    var q, r := buffer / alignment, stride / alignment;
    assert buffer == alignment * q && stride == alignment * r;
    assert k * stride == alignment * (k * r);
    ModIs(PtrOf(buffer, stride, k), alignment, q + k * r, 0);
  }

  /** The range of block `k`. */
  ghost predicate InPlace(buffer: nat, blockSize: nat, n: nat, alignment: nat, k: nat) {
    && alignment > 0 && PtrOf(buffer, blockSize, k) % alignment == 0
    && buffer <= PtrOf(buffer, blockSize, k) && PtrOf(buffer, blockSize, k) + blockSize <= buffer + blockSize * n
  }

  /** The ranges of blocks `j` and `k` do not overlap. */
  ghost predicate Apart(buffer: nat, blockSize: nat, j: nat, k: nat) {
    || PtrOf(buffer, blockSize, j) + blockSize <= PtrOf(buffer, blockSize, k)
    || PtrOf(buffer, blockSize, k) + blockSize <= PtrOf(buffer, blockSize, j)
  }

  lemma BlockInPlace(buffer: nat, blockSize: nat, n: nat, alignment: nat, k: nat)
    requires k < n && alignment > 0 && buffer % alignment == 0 && blockSize % alignment == 0
    ensures InPlace(buffer, blockSize, n, alignment, k)
  {
    StrideAligned(buffer, blockSize, alignment, k);
    MulAtLeast(blockSize, n - k);
    assert blockSize * n == blockSize * k + blockSize * (n - k);
  }

  /** Over every run, the blocks outstanding are in bounds, aligned and pairwise disjoint. */
  lemma RunKeepsBlocksApart(buffer: nat, requested: nat, alignment: nat, s: State, n: nat, ops: seq<Op>)
    requires IsPowerOfTwo(alignment) && requested + alignment < WORD && buffer % alignment == 0
    requires Partition(s, n) && EnabledRun(s, n, ops)
    ensures var blockSize, last := AlignUp(requested, alignment), Run(s, n, ops);
      && requested <= blockSize
      && (forall k :: k in last.out ==> InPlace(buffer, blockSize, n, alignment, k))
      && (forall j, k :: j in last.out && k in last.out && j != k ==> Apart(buffer, blockSize, j, k))
  {
    var blockSize, last := AlignUp(requested, alignment), Run(s, n, ops);
    RunKeepsPartition(s, n, ops);
    forall k | k in last.out
      ensures InPlace(buffer, blockSize, n, alignment, k)
    {
      BlockInPlace(buffer, blockSize, n, alignment, k);
    }
    forall j, k | j in last.out && k in last.out && j != k
      ensures Apart(buffer, blockSize, j, k)
    {
      if j < k {
        BlocksDisjoint(buffer, blockSize, n, j, k);
      } else {
        BlocksDisjoint(buffer, blockSize, n, k, j);
      }
    }
  }

  // ---- The free list in the index array ----

  /** The link of the `i`th free block leads to the next one. */
  ghost predicate Link(next: seq<Option<nat>>, free: seq<nat>, i: nat)
    requires i < |free|
  {
    free[i] < |next| && next[free[i]] == if i + 1 < |free| then Some(free[i + 1]) else None
  }

  /** Following `next` from `head` visits exactly `free`. */
  ghost predicate Threads(next: seq<Option<nat>>, head: Option<nat>, free: seq<nat>) {
    && head == (if free == [] then None else Some(free[0]))
    && (forall i :: 0 <= i < |free| ==> Link(next, free, i))
  }

  /** The head's link leads to the rest of the list. */
  lemma PopThreads(next: seq<Option<nat>>, head: Option<nat>, free: seq<nat>)
    requires Threads(next, head, free) && free != []
    ensures free[0] < |next| && Threads(next, next[free[0]], free[1..])
  {
    assert Link(next, free, 0);
    forall i | 0 <= i < |free[1..]|
      ensures Link(next, free[1..], i)
    {
      assert Link(next, free, i + 1);
    }
  }

  /** Freeing a block that is not in the list threads it in at the front ... */
  lemma PushThreads(next: seq<Option<nat>>, head: Option<nat>, free: seq<nat>, k: nat)
    requires Threads(next, head, free) && k < |next| && k !in free
    ensures Threads(next[k := head], Some(k), [k] + free)
  {
    var next', free' := next[k := head], [k] + free;
    forall i | 0 <= i < |free'|
      ensures Link(next', free', i)
    {
      if i > 0 {
        assert Link(next, free, i - 1) && free'[i] == free[i - 1];
      }
    }
  }

  /** ... and freeing one that is closes a cycle: from then on the list threads no finite sequence at all. */
  lemma DoubleFreeCloses(next: seq<Option<nat>>, head: Option<nat>, free: seq<nat>, k: nat, after: seq<nat>)
    requires Threads(next, head, free) && k < |next| && k in free
    ensures !Threads(next[k := head], Some(k), after)
  {
    if Threads(next[k := head], Some(k), after) {
      var last := |after| - 1;
      assert Link(next[k := head], after, last);
      StaysOnCycle(next, head, free, k, after, last);
      assert false;
    }
  }

  /** `x` is among the blocks of the list up to the first `k`. */
  ghost predicate UpToFirst(free: seq<nat>, k: nat, x: nat) {
    exists j :: 0 <= j < |free| && free[j] == x && k !in free[..j]
  }

  /** Following the closed list never leaves those blocks, and each of them has a successor. */
  lemma {:induction false} StaysOnCycle(next: seq<Option<nat>>, head: Option<nat>, free: seq<nat>, k: nat,
      after: seq<nat>, i: nat)
    requires Threads(next, head, free) && k < |next| && k in free
    requires Threads(next[k := head], Some(k), after) && i < |after|
    ensures UpToFirst(free, k, after[i]) && after[i] < |next| && next[k := head][after[i]].Some?
    decreases i
  {
    if i == 0 {
      var j :| 0 <= j < |free| && free[j] == k;
      var f := FirstOccurrence(free, k, j);
    } else {
      StaysOnCycle(next, head, free, k, after, i - 1);
      assert Link(next[k := head], after, i - 1);
      NextOnCycle(next, head, free, k, after[i - 1]);
    }
    HasSuccessor(next, head, free, k, after[i]);
  }

  lemma HasSuccessor(next: seq<Option<nat>>, head: Option<nat>, free: seq<nat>, k: nat, x: nat)
    requires Threads(next, head, free) && k < |next| && k in free && UpToFirst(free, k, x)
    ensures x < |next| && next[k := head][x].Some?
  {
    var j :| 0 <= j < |free| && free[j] == x && k !in free[..j];
    assert Link(next, free, j);
    if x != k {
      KBeyond(free, k, j);
    }
  }

  lemma NextOnCycle(next: seq<Option<nat>>, head: Option<nat>, free: seq<nat>, k: nat, x: nat)
    requires Threads(next, head, free) && k < |next| && k in free && UpToFirst(free, k, x)
    ensures x < |next| && next[k := head][x].Some? && UpToFirst(free, k, next[k := head][x].value)
  {
    HasSuccessor(next, head, free, k, x);
    var j :| 0 <= j < |free| && free[j] == x && k !in free[..j];
    assert Link(next, free, j);
    if x == k {
      assert k !in free[..0] && free[0] == head.value;
    } else {
      KBeyond(free, k, j);
      assert free[..j + 1] == free[..j] + [x];
      assert k !in free[..j + 1] && free[j + 1] == next[x].value;
    }
  }

  lemma {:induction false} FirstOccurrence(free: seq<nat>, k: nat, j: nat) returns (f: nat)
    requires j < |free| && free[j] == k
    ensures f <= j && free[f] == k && k !in free[..f]
    decreases j
  {
    if k in free[..j] {
      var m :| 0 <= m < j && free[..j][m] == k;
      f := FirstOccurrence(free, k, m);
    } else {
      f := j;
    }
  }

  lemma KBeyond(free: seq<nat>, k: nat, j: nat)
    requires k in free && j < |free| && free[j] != k && k !in free[..j]
    ensures j + 1 < |free|
  {
    assert free == free[..j] + free[j..];
    var f :| 0 <= f < |free[j..]| && free[j..][f] == k;
    assert free[j..][0] == free[j];
  }

  // ---- The allocator ----

  class PoolAllocator {
    const buffer: nat
    const blockSize: nat
    const blockCount: nat
    const alignment: nat
    const next: array<Option<nat>>   // the `next` fields of `meta_buffer`
    var freeList: Option<nat>
    ghost var state: State

    ghost predicate Valid()
      reads this, next
    {
      && blockSize > 0 && blockCount > 0 && next.Length == blockCount
      && Threads(next[..], freeList, state.free) && Partition(state, blockCount)
    }

    /** `pool_create` and `pool_init`, for a buffer already reserved. */
    constructor (buffer: nat, requested: nat, blockCount: nat, alignment: nat)
      requires requested > 0 && blockCount > 0
      requires IsPowerOfTwo(alignment) && requested + alignment < WORD
      ensures Valid() && fresh(next)
      ensures state.out == {} && |state.free| == blockCount && forall i :: 0 <= i < blockCount ==> state.free[i] == i
      ensures this.buffer == buffer && this.blockCount == blockCount && this.alignment == alignment
      ensures blockSize == AlignUp(requested, alignment)
    {
      this.buffer, this.blockCount, this.alignment := buffer, blockCount, alignment;
      this.blockSize := AlignUp(requested, alignment);
      this.next := new Option<nat>[blockCount](_ => None);
      this.freeList, this.state := None, State([], {});
      new;
      BuildFreeList();
    }

    /** `pool_build_free_list`. */
    method BuildFreeList()
      requires blockCount > 0 && blockSize > 0 && next.Length == blockCount
      modifies this, next
      ensures Valid() && state == Fresh(blockCount)
      ensures state.out == {} && |state.free| == blockCount && forall i :: 0 <= i < blockCount ==> state.free[i] == i
    {
      var previous := 0;
      freeList := Some(0);
      var i := 1;
      while i < blockCount
        invariant 1 <= i <= blockCount && previous == i - 1 && freeList == Some(0)
        invariant forall k :: 0 <= k < i - 1 ==> next[k] == Some(k + 1)
      {
        next[previous] := Some(i);
        previous := i;
        i := i + 1;
      }
      next[previous] := None;
      state := Fresh(blockCount);
      FreshIsPartition(blockCount);
    }

    /** `pool_alloc`. */
    method AllocBlock(size: nat, align: nat) returns (ptr: Option<nat>)
      requires Valid() && size <= blockSize && align <= alignment
      modifies this
      ensures Valid()
      ensures var (s, k) := Step(old(state), blockCount, AllocOp);
        state == s && ptr == if k.Some? then Some(PtrOf(buffer, blockSize, k.value)) else None
      ensures ptr.None? <==> old(state.free) == []
      ensures ptr.None? ==> state == old(state) && freeList == old(freeList) && next[..] == old(next[..])
      ensures ptr.Some? ==> state == State(old(state.free)[1..], old(state.out) + {old(state.free)[0]})
    {
      StepKeepsPartition(state, blockCount, AllocOp);
      if freeList.None? {
        return None;
      }
      var index := freeList.value;
      PopThreads(next[..], freeList, state.free);
      freeList := next[index];
      state := Step(state, blockCount, AllocOp).0;
      return Some(buffer + index * blockSize);
    }

    /** `pool_free`. An outstanding block joins the front of the list; a block that is free already is accepted
        too, and leaves a list that no longer ends. */
    method FreeBlock(ptr: nat)
      requires Valid() && IsBlockPtr(buffer, blockSize, blockCount, ptr)
      modifies this, next
      ensures var k := IndexOf(buffer, blockSize, ptr);
        && k < blockCount && next[..] == old(next[..])[k := old(freeList)] && freeList == Some(k)
        && (k in old(state).out ==> Valid() && state == Step(old(state), blockCount, FreeOp(k)).0)
        && (k !in old(state).out ==> forall free :: !Threads(next[..], freeList, free))
    {
      PtrRoundTrip(buffer, blockSize, blockCount, ptr);
      var index := (ptr - buffer) / blockSize;
      ghost var links, head, free := next[..], freeList, state.free;
      next[index] := freeList;
      freeList := Some(index);
      if index in state.out {
        StepKeepsPartition(state, blockCount, FreeOp(index));
        PushThreads(links, head, free, index);
        state := Step(state, blockCount, FreeOp(index)).0;
      } else {
        ghost var closed := links[index := head];
        assert next[..] == closed;
        forall after: seq<nat>
          ensures !Threads(closed, freeList, after)
        {
          DoubleFreeCloses(links, head, free, index, after);
        }
      }
    }

    /** `pool_reset`. */
    method Reset()
      requires Valid()
      modifies this, next
      ensures Valid() && state == Step(old(state), blockCount, ResetOp).0
      ensures state.out == {} && |state.free| == blockCount && forall i :: 0 <= i < blockCount ==> state.free[i] == i
    {
      BuildFreeList();
    }
  }

  lemma FreshIsPartition(n: nat)
    ensures Partition(Fresh(n), n)
  {
    StepKeepsPartition(State([], Below(n)), n, ResetOp);
  }
}
