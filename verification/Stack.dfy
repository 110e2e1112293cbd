/** The stack allocator: last in, first out, with a header hidden below each user pointer that links back to the
    offset before the allocation. */
module Stack {
  import opened Wrappers
  import opened Align
  import opened HeaderMemory

  // Throughout, 16 is `sizeof(StackHeader)` and 8 is `alignof(StackHeader)`.

  datatype Header = Header(previous: nat, current: nat)

  /** `mem` holds the headers that lie intact inside the buffer, by address. */
  datatype State = State(buffer: nat, capacity: nat, offset: nat, mem: map<nat, Header>)

  /** `compute_stack_header_ptr`. */
  function HeaderPtr(ptr: nat): (h: nat)
    requires 16 <= ptr < WORD
    ensures h % 8 == 0 && h <= ptr - 16 < h + 8
  {
    EightIsPowerOfTwo();
    AlignDown(ptr - 16, 8)
  }

  /** A buffer aligned for headers, whose addresses do not wrap around. */
  ghost predicate Sound(s: State) {
    s.buffer % 8 == 0 && s.offset <= s.capacity && s.buffer + s.capacity < WORD
  }

  /** The asserts of `stack_alloc`, and sums that do not wrap around. */
  ghost predicate Askable(s: State, size: nat, alignment: nat) {
    && IsPowerOfTwo(alignment)
    && s.buffer + s.capacity + 32 + alignment <= WORD && size + 32 + alignment <= WORD
  }

  /** Where the user's bytes would start if the header were placed at the rounded-up offset. */
  function AlignedStart(s: State, alignment: nat): (r: nat)
    requires Sound(s) && Askable(s, 0, alignment)
    ensures s.buffer + AlignUp(s.offset, 8) + 16 <= r < s.buffer + AlignUp(s.offset, 8) + 16 + alignment
    ensures r % alignment == 0
  {
    EightIsPowerOfTwo();
    AlignUp(s.buffer + AlignUp(s.offset, 8) + 16, alignment)
  }

  function Padding(s: State, alignment: nat): (r: nat)
    requires Sound(s) && Askable(s, 0, alignment)
    ensures 16 <= r < 16 + alignment
  {
    EightIsPowerOfTwo();
    AlignedStart(s, alignment) - (s.buffer + AlignUp(s.offset, 8) + 16) + 16
  }

  /** The state once `padding` and then `size` bytes have been taken, with a header below the user's bytes. */
  function Take(s: State, padding: nat, size: nat): State
    requires 16 <= padding && s.buffer + s.offset + padding < WORD
  {
    var offset := s.offset + padding + size;
    var h := HeaderPtr(s.buffer + s.offset + padding);
    State(s.buffer, s.capacity, offset, Store(s.mem, h, 16, Header(s.offset, offset)))
  }

  function Alloc(s: State, size: nat, alignment: nat): (r: (State, Option<nat>))
    requires Sound(s) && Askable(s, size, alignment)
    ensures Sound(r.0) && r.0.buffer == s.buffer && r.0.capacity == s.capacity
    ensures r.1.Some? ==>
      && s.buffer + s.offset + 16 <= r.1.value && r.1.value + size == s.buffer + r.0.offset < WORD
  {
    var padding := Padding(s, alignment);
    if padding + size > s.capacity - s.offset then (s, None) else
    (Take(s, padding, size), Some(s.buffer + s.offset + padding))
  }

  /** What an allocation does. With `up` the offset rounded up to a multiple of 8 and `q` the least aligned address
      that leaves room for a header above it, the user's bytes start at `ptr`, lower by the rounding. Null means that
      they would end past the buffer, and changes nothing; otherwise the offset moves to their end, and only the header
      below them is written. */
  lemma AllocMeans(s: State, size: nat, alignment: nat, up: nat, q: nat, ptr: nat)
    requires Sound(s) && Askable(s, size, alignment)
    requires up % 8 == 0 && s.offset <= up < s.offset + 8
    requires q % alignment == 0 && s.buffer + up + 16 <= q < s.buffer + up + 16 + alignment
    requires ptr == q - (up - s.offset)
    ensures 16 <= ptr < WORD
    ensures Alloc(s, size, alignment) ==
      if ptr + size > s.buffer + s.capacity then (s, None) else
      var offset := ptr + size - s.buffer;
      (State(s.buffer, s.capacity, offset, Store(s.mem, HeaderPtr(ptr), 16, Header(s.offset, offset))), Some(ptr))
  {
    PaddingIs(s, alignment, up, q);
    AllocTakes(s, size, alignment, Padding(s, alignment), ptr);
  }

  lemma AllocTakes(s: State, size: nat, alignment: nat, padding: nat, ptr: nat)
    requires Sound(s) && Askable(s, size, alignment)
    requires padding == Padding(s, alignment) && ptr == s.buffer + s.offset + padding
    ensures 16 <= ptr < WORD
    ensures Alloc(s, size, alignment) ==
      if ptr + size > s.buffer + s.capacity then (s, None) else
      var offset := ptr + size - s.buffer;
      (State(s.buffer, s.capacity, offset, Store(s.mem, HeaderPtr(ptr), 16, Header(s.offset, offset))), Some(ptr))
  {
  }

  lemma PaddingIs(s: State, alignment: nat, up: nat, q: nat)
    requires Sound(s) && Askable(s, 0, alignment)
    requires up % 8 == 0 && s.offset <= up < s.offset + 8
    requires q % alignment == 0 && s.buffer + up + 16 <= q < s.buffer + up + 16 + alignment
    ensures Padding(s, alignment) == q - s.buffer - up
  {
    EightIsPowerOfTwo();
    AlignUpIs(s.offset, 8, up);
    AlignUpIs(s.buffer + up + 16, alignment, q);
  }

  /** From an offset aligned for headers, null means that no aligned address with room for a header below leaves room
      for the request. */
  lemma NullIffNoRoom(s: State, size: nat, alignment: nat)
    requires Sound(s) && s.offset % 8 == 0 && Askable(s, size, alignment)
    ensures Alloc(s, size, alignment).1.None? <==>
      !exists p: nat :: p % alignment == 0 && s.buffer + s.offset + 16 <= p && p + size <= s.buffer + s.capacity
  {
    var q := AlignUp(s.buffer + s.offset + 16, alignment);
    AlignUpIsLeast(s.buffer + s.offset + 16, alignment);
    AllocMeans(s, size, alignment, s.offset, q, q);
    if Alloc(s, size, alignment).1.Some? {
      assert q % alignment == 0 && q + size <= s.buffer + s.capacity;
    }
  }

  /** None when the top-only assertion fails. */
  function Free(s: State, ptr: nat): Option<State>
    requires 16 <= ptr < WORD && HeaderPtr(ptr) in s.mem
  {
    var header := s.mem[HeaderPtr(ptr)];
    if header.current == s.offset then Some(s.(offset := header.previous)) else None
  }

  /** `stack_realloc` without the branch that frees; None when an assertion fails. The sums are taken modulo the
      word. */
  function Realloc(s: State, ptr: nat, oldSize: nat, newSize: nat): Option<State>
    requires 16 <= ptr < WORD && HeaderPtr(ptr) in s.mem && (newSize > 0 || newSize == oldSize)
  {
    if newSize == oldSize then Some(s) else
    var h := HeaderPtr(ptr);
    if s.mem[h].current != s.offset then None
    else if s.offset > (s.capacity + oldSize - newSize) % WORD then None
    else
      var offset := (s.offset + newSize - oldSize) % WORD;
      Some(s.(offset := offset, mem := Store(s.mem, h, 16, s.mem[h].(current := offset))))
  }

  // ---- The header chain ----

  /** A live allocation; `base` is the offset before it was made. */
  datatype Block = Block(base: nat, ptr: nat, size: nat, alignment: nat)

  function End(buffer: nat, b: Block): int {
    b.ptr + b.size - buffer
  }

  /** Block `i` starts at the end of its predecessor, and its own header, found from its pointer alone,
      records both ends. */
  ghost predicate Linked(s: State, live: seq<Block>, i: nat)
    requires i < |live|
  {
    var b := live[i];
    && b.base == (if i == 0 then 0 else End(s.buffer, live[i - 1]))
    && s.buffer + b.base + 16 <= b.ptr && b.ptr + b.size < WORD
    && HeaderPtr(b.ptr) in s.mem && s.mem[HeaderPtr(b.ptr)] == Header(b.base, End(s.buffer, b))
  }

  ghost predicate Chain(s: State, live: seq<Block>) {
    && Sound(s)
    && s.offset == (if live == [] then 0 else End(s.buffer, live[|live| - 1]))
    && (forall i :: 0 <= i < |live| ==> Linked(s, live, i))
  }

  /** Live blocks occupy disjoint stretches of the buffer, in order. */
  lemma {:induction false} Ordered(s: State, live: seq<Block>, i: nat, j: nat)
    requires Chain(s, live) && i < j <= |live|
    ensures End(s.buffer, live[i]) <= if j == |live| then s.offset else live[j].base
    decreases j
  {
    assert j < |live| ==> Linked(s, live, j);
    assert Linked(s, live, j - 1);
    if i < j - 1 {
      Ordered(s, live, i, j - 1);
    }
  }

  lemma Above(s: State, live: seq<Block>, i: nat, j: nat)
    requires Chain(s, live) && i < j < |live|
    ensures live[i].ptr + live[i].size + 16 <= live[j].ptr
  {
    Ordered(s, live, i, j);
    assert Linked(s, live, j);
  }

  /** The header for `p` ends at or below the header for `q`. */
  ghost predicate HeaderBelow(p: nat, q: nat) {
    16 <= p < WORD && 16 <= q < WORD && HeaderPtr(p) + 16 <= HeaderPtr(q)
  }

  /** Two header addresses: the second header starts at or above the first one's end. */
  lemma HeadersApart(p: nat, q: nat)
    requires 16 <= p < WORD && p + 16 <= q < WORD
    ensures HeaderBelow(p, q)
  {
    EightIsPowerOfTwo();
    AlignDownIsGreatest(q - 16, 8, HeaderPtr(p) + 16);
  }

  lemma TakeKeepsLink(s: State, live: seq<Block>, padding: nat, size: nat, b: Block, i: nat)
    requires Chain(s, live) && 16 <= padding && s.offset + padding + size <= s.capacity && i < |live|
    ensures HeaderBelow(live[i].ptr, s.buffer + s.offset + padding)
    ensures Linked(Take(s, padding, size), live + [b], i)
  {
    assert Linked(s, live, i);
    Ordered(s, live, i, |live|);
    HeadersApart(live[i].ptr, s.buffer + s.offset + padding);
  }

  lemma TakeAddsLink(s: State, live: seq<Block>, padding: nat, size: nat, alignment: nat)
    requires Chain(s, live) && 16 <= padding && s.offset + padding + size <= s.capacity
    ensures var b := Block(s.offset, s.buffer + s.offset + padding, size, alignment);
      Linked(Take(s, padding, size), live + [b], |live|)
  {
    var b := Block(s.offset, s.buffer + s.offset + padding, size, alignment);
    assert (live + [b])[|live|] == b && (live != [] ==> (live + [b])[|live| - 1] == live[|live| - 1]);
  }

  lemma TakeKeepsChain(s: State, live: seq<Block>, padding: nat, size: nat, alignment: nat)
    requires Chain(s, live) && 16 <= padding && s.offset + padding + size <= s.capacity
    ensures Chain(Take(s, padding, size), live + [Block(s.offset, s.buffer + s.offset + padding, size, alignment)])
    ensures forall i :: 0 <= i < |live| ==> HeaderBelow(live[i].ptr, s.buffer + s.offset + padding)
  {
    var b := Block(s.offset, s.buffer + s.offset + padding, size, alignment);
    TakeAddsLink(s, live, padding, size, alignment);
    forall i | 0 <= i < |live|
      ensures Linked(Take(s, padding, size), live + [b], i)
    {
      TakeKeepsLink(s, live, padding, size, b, i);
    }
    forall i | 0 <= i < |live|
      ensures HeaderBelow(live[i].ptr, b.ptr)
    {
      TakeKeepsLink(s, live, padding, size, b, i);
    }
  }

  /** For any sizes: the new header overlaps no live header, and the chain grows by one link. */
  lemma AllocKeepsChain(s: State, live: seq<Block>, size: nat, alignment: nat)
    requires Chain(s, live) && Askable(s, size, alignment) && Alloc(s, size, alignment).1.Some?
    ensures var (s', ptr) := Alloc(s, size, alignment);
      && Chain(s', live + [Block(s.offset, ptr.value, size, alignment)])
      && (forall i :: 0 <= i < |live| ==> HeaderBelow(live[i].ptr, ptr.value))
  {
    var padding := Padding(s, alignment);
    TakeKeepsChain(s, live, padding, size, alignment);
    assert Alloc(s, size, alignment) == (Take(s, padding, size), Some(s.buffer + s.offset + padding));
  }

  /** Freeing the block just allocated gives back its bytes and disturbs no header but its own. */
  lemma FreeUndoesAlloc(s: State, live: seq<Block>, size: nat, alignment: nat)
    requires Chain(s, live) && Askable(s, size, alignment) && Alloc(s, size, alignment).1.Some?
    ensures var (s', ptr) := Alloc(s, size, alignment);
      && HeaderPtr(ptr.value) in s'.mem
      && Free(s', ptr.value) == Some(s'.(offset := s.offset))
      && Chain(s'.(offset := s.offset), live)
  {
    var (s', ptr) := Alloc(s, size, alignment);
    var live' := live + [Block(s.offset, ptr.value, size, alignment)];
    AllocKeepsChain(s, live, size, alignment);
    FreeOnlyTop(s', live', |live|);
    assert live'[..|live|] == live;
  }

  /** The top-only assertion passes, among live pointers, exactly for the latest one, and freeing it restores
      the offset from before its allocation. */
  lemma FreeOnlyTop(s: State, live: seq<Block>, i: nat)
    requires Chain(s, live) && i < |live|
    ensures Linked(s, live, i) && (Free(s, live[i].ptr).Some? <==> i == |live| - 1)
    ensures i == |live| - 1 ==>
      && Free(s, live[i].ptr) == Some(s.(offset := live[i].base))
      && Chain(s.(offset := live[i].base), live[..i])
  {
    assert Linked(s, live, i);
    if i < |live| - 1 {
      Ordered(s, live, i, |live| - 1);
      assert Linked(s, live, |live| - 1);
    } else {
      var s' := s.(offset := live[i].base);
      assert i > 0 ==> Linked(s, live, i - 1);
      forall j | 0 <= j < i
        ensures Linked(s', live[..i], j)
      {
        assert Linked(s, live, j);
      }
    }
  }

  /** Frees the live blocks from the top down, recording the offsets passed through. */
  ghost function FreeAll(s: State, live: seq<Block>): (r: Option<(State, seq<nat>)>)
    requires Chain(s, live)
    decreases |live|
  {
    if live == [] then Some((s, [])) else
    var n := |live| - 1;
    FreeOnlyTop(s, live, n);
    match Free(s, live[n].ptr)
    case None => None
    case Some(s') =>
      match FreeAll(s', live[..n])
      case None => None
      case Some((last, offsets)) => Some((last, [s'.offset] + offsets))
  }

  /** Freeing in reverse order never fails and walks the offset back through every earlier value to 0. */
  lemma {:induction false} UnwindsToZero(s: State, live: seq<Block>)
    requires Chain(s, live)
    ensures FreeAll(s, live).Some?
    ensures var (last, offsets) := FreeAll(s, live).value;
      && last == s.(offset := 0) && |offsets| == |live|
      && (forall i :: 0 <= i < |live| ==> offsets[i] == live[|live| - 1 - i].base)
    decreases |live|
  {
    if live == [] {
      assert s == s.(offset := 0);
    } else {
      var n := |live| - 1;
      FreeOnlyTop(s, live, n);
      var s' := s.(offset := live[n].base);
      UnwindsToZero(s', live[..n]);
      assert Linked(s, live, 0);
    }
  }

  /** A link below the top survives whatever leaves the headers below the top header alone. */
  lemma LinkBelowTop(s: State, live: seq<Block>, s': State, live': seq<Block>, i: nat)
    requires Chain(s, live) && i < |live| - 1 && |live'| == |live| && live'[..|live| - 1] == live[..|live| - 1]
    requires 16 <= live[|live| - 1].ptr < WORD && s'.buffer == s.buffer
    requires forall h :: h in s.mem && h + 16 <= HeaderPtr(live[|live| - 1].ptr) ==>
      h in s'.mem && s'.mem[h] == s.mem[h]
    ensures Linked(s', live', i)
  {
    var n := |live| - 1;
    assert Linked(s, live, i);
    Above(s, live, i, n);
    HeadersApart(live[i].ptr, live[n].ptr);
    assert forall j :: 0 <= j < n ==> live'[j] == live'[..n][j] == live[..n][j] == live[j];
  }

  lemma Unwrapped(x: nat)
    requires x < WORD
    ensures x % WORD == x
  {
    ModIs(x, WORD, 0, x);
  }

  /** Realloc with sums that do not wrap around. */
  lemma ReallocIs(s: State, ptr: nat, oldSize: nat, newSize: nat)
    requires 16 <= ptr < WORD && HeaderPtr(ptr) in s.mem && newSize > 0 && s.mem[HeaderPtr(ptr)].current == s.offset
    requires oldSize <= s.offset && s.offset + newSize - oldSize <= s.capacity && s.capacity + oldSize < WORD
    ensures Realloc(s, ptr, oldSize, newSize) == Some(
              if newSize == oldSize then s else
              var h, offset := HeaderPtr(ptr), s.offset + newSize - oldSize;
              s.(offset := offset, mem := Store(s.mem, h, 16, s.mem[h].(current := offset))))
  {
    Unwrapped(s.capacity + oldSize - newSize);
    Unwrapped(s.offset + newSize - oldSize);
  }

  /** Reallocating the top block truthfully keeps the chain when the new size fits the capacity. */
  lemma ReallocKeepsChain(s: State, live: seq<Block>, newSize: nat)
    requires Chain(s, live) && live != [] && newSize > 0
    requires var b := live[|live| - 1]; s.offset + newSize - b.size <= s.capacity && s.capacity + b.size < WORD
    ensures var b := live[|live| - 1];
      && Linked(s, live, |live| - 1)
      && Realloc(s, b.ptr, b.size, newSize).Some?
      && Chain(Realloc(s, b.ptr, b.size, newSize).value, live[|live| - 1 := b.(size := newSize)])
  {
    var n := |live| - 1;
    var b := live[n];
    var live' := live[n := b.(size := newSize)];
    assert Linked(s, live, n);
    ReallocIs(s, b.ptr, b.size, newSize);
    if newSize == b.size {
      assert live' == live;
      return;
    }
    var s' := Realloc(s, b.ptr, b.size, newSize).value;
    forall i | 0 <= i < n
      ensures Linked(s', live', i)
    {
      LinkBelowTop(s, live, s', live', i);
    }
    assert n > 0 ==> live'[n - 1] == live[n - 1];
    assert Linked(s', live', n);
  }

  /** The capacity assertion of realloc is not the bound it looks like: its subtraction wraps around, so it
      also passes for requests larger than capacity and old size together. */
  lemma ReallocBoundExact(s: State, live: seq<Block>, newSize: nat)
    requires Chain(s, live) && live != [] && 0 < newSize < WORD
    requires var b := live[|live| - 1]; newSize != b.size && s.capacity + b.size < WORD
    ensures var b := live[|live| - 1];
      && Linked(s, live, |live| - 1)
      && (newSize <= s.capacity + b.size ==>
        (Realloc(s, b.ptr, b.size, newSize).Some? <==> s.offset + newSize - b.size <= s.capacity))
      && (newSize > s.capacity + b.size ==>
        (Realloc(s, b.ptr, b.size, newSize).Some? <==> s.offset + newSize - b.size <= s.capacity + WORD))
  {
    var b := live[|live| - 1];
    assert Linked(s, live, |live| - 1);
    var room := s.capacity + b.size - newSize;
    if room >= 0 {
      ModIs(room, WORD, 0, room);
    } else {
      ModIs(room, WORD, -1, room + WORD);
    }
  }

  /** It fails at every chain: one byte more than capacity and old size together passes the assertion and leaves
      the offset beyond the capacity. */
  lemma ReallocBoundFails(s: State, live: seq<Block>)
    requires Chain(s, live) && live != []
    requires var b := live[|live| - 1]; s.capacity + b.size + 1 < WORD && s.offset + s.capacity + 1 < WORD
    ensures var b := live[|live| - 1];
      && Linked(s, live, |live| - 1)
      && var r := Realloc(s, b.ptr, b.size, s.capacity + b.size + 1);
         r.Some? && r.value.offset == s.offset + s.capacity + 1 > s.capacity
  {
    var b := live[|live| - 1];
    var newSize := s.capacity + b.size + 1;
    ReallocBoundExact(s, live, newSize);
    ModIs(s.offset + newSize - b.size, WORD, 0, s.offset + s.capacity + 1);
  }

  // ---- Layout ----

  lemma ShiftedMultiple(x: nat, d: nat, a: nat)
    requires a > 0 && x % a == 0 && d <= x
    ensures (x - d) % a == 0 <==> d % a == 0
  {
    assert x == a * (x / a);
    if d % a == 0 {
      assert x - d == a * (x / a - d / a);
      ModIs(x - d, a, x / a - d / a, 0);
    }
    if (x - d) % a == 0 {
      assert d == a * (x / a - (x - d) / a);
      ModIs(d, a, x / a - (x - d) / a, 0);
    }
  }

  /** The padding omits the rounding of the offset, so the result has the requested alignment exactly when
      that rounding is itself a multiple of it. */
  lemma AlignedExactly(s: State, size: nat, alignment: nat)
    requires Sound(s) && Askable(s, size, alignment) && Alloc(s, size, alignment).1.Some?
    ensures IsPowerOfTwo(8)
    ensures Alloc(s, size, alignment).1.value % alignment == 0
      <==> (AlignUp(s.offset, 8) - s.offset) % alignment == 0
  {
    EightIsPowerOfTwo();
    ShiftedMultiple(AlignedStart(s, alignment), AlignUp(s.offset, 8) - s.offset, alignment);
  }

  /** From an offset aligned for headers, the result is the least aligned address that leaves room for one. */
  lemma LeastAddress(s: State, size: nat, alignment: nat)
    requires Sound(s) && s.offset % 8 == 0 && Askable(s, size, alignment) && Alloc(s, size, alignment).1.Some?
    ensures forall q: nat :: q % alignment == 0 && s.buffer + s.offset + 16 <= q ==>
      Alloc(s, size, alignment).1.value <= q
  {
    EightIsPowerOfTwo();
    AlignUpIsLeast(s.offset, 8);
    AlignUpIsLeast(s.buffer + s.offset + 16, alignment);
  }

  lemma PaddingIsMultiple(s: State, alignment: nat)
    requires Sound(s) && Askable(s, 0, alignment)
    ensures Padding(s, alignment) % 8 == 0
  {
    EightIsPowerOfTwo();
    var up := AlignUp(s.offset, 8);
    PowerSplit(alignment);
    StartIsMultiple(s.buffer, up);
    GapIsMultiple(s.buffer + up + 16, AlignedStart(s, alignment), alignment);
    StartIsMultiple(0, AlignedStart(s, alignment) - (s.buffer + up + 16));
  }

  lemma StartIsMultiple(buffer: nat, up: nat)
    requires buffer % 8 == 0 && up % 8 == 0
    ensures (buffer + up + 16) % 8 == 0
  {
  }

  lemma RoundedBelow(low: nat, gap: nat)
    requires gap % 8 == 0 && low + gap < WORD && IsPowerOfTwo(8)
    ensures low <= AlignDown(low + gap, 8) <==> low % 8 == 0 || gap > 0
  {
    if low % 8 == 0 {
      AlignDownIsGreatest(low + gap, 8, low);
    }
  }

  /** The offset is aligned for headers, or the least address for the user's bytes above the rounded offset is not
      aligned as asked, which leaves a gap. */
  predicate HeaderRoom(s: State, alignment: nat)
    requires Sound(s) && Askable(s, 0, alignment)
  {
    EightIsPowerOfTwo();
    s.offset % 8 == 0 || (s.buffer + AlignUp(s.offset, 8) + 16) % alignment != 0
  }

  lemma GapIff(s: State, alignment: nat)
    requires Sound(s) && Askable(s, 0, alignment)
    ensures IsPowerOfTwo(8)
    ensures Padding(s, alignment) > 16 <==> (s.buffer + AlignUp(s.offset, 8) + 16) % alignment != 0
  {
    EightIsPowerOfTwo();
    var least := s.buffer + AlignUp(s.offset, 8) + 16;
    if least % alignment == 0 {
      AlignUpIs(least, alignment, least);
    }
  }

  /** And the new header keeps clear of the bytes below the old offset exactly when there is room for it. */
  lemma HeaderClearExactly(s: State, size: nat, alignment: nat)
    requires Sound(s) && Askable(s, size, alignment) && Alloc(s, size, alignment).1.Some?
    ensures s.buffer + s.offset <= HeaderPtr(Alloc(s, size, alignment).1.value) <==> HeaderRoom(s, alignment)
  {
    EightIsPowerOfTwo();
    PaddingIsMultiple(s, alignment);
    GapIff(s, alignment);
    var low, gap := s.buffer + s.offset, Padding(s, alignment) - 16;
    LowBits(s.buffer, s.offset, gap);
    RoundedBelow(low, gap);
    assert HeaderPtr(Alloc(s, size, alignment).1.value) == AlignDown(low + gap, 8) by {
      assert Alloc(s, size, alignment).1.value - 16 == low + gap;
    }
  }

  lemma LowBits(buffer: nat, offset: nat, gap: nat)
    requires buffer % 8 == 0 && (gap + 16) % 8 == 0
    ensures (buffer + offset) % 8 == offset % 8 && gap % 8 == 0
  {
  }

  // ---- Headers out of reach ----

  ghost predicate Owns(live: seq<Block>, i: nat, at: nat) {
    i < |live| && live[i].ptr <= at < live[i].ptr + live[i].size
  }

  /** The byte at `at` is not one of the header's for `ptr`. */
  ghost predicate Spares(ptr: nat, at: nat) {
    16 <= ptr < WORD && (at < HeaderPtr(ptr) || HeaderPtr(ptr) + 16 <= at)
  }

  /** The header of block `j` lies above the block before, or that block owns no byte. */
  ghost predicate Guarded(buffer: nat, live: seq<Block>, j: nat)
    requires j < |live|
  {
    && 16 <= live[j].ptr < WORD
    && (j == 0 || live[j - 1].size == 0 || buffer + live[j].base <= HeaderPtr(live[j].ptr))
  }

  ghost predicate Guard(s: State, live: seq<Block>) {
    Chain(s, live) && forall j :: 0 <= j < |live| ==> Guarded(s.buffer, live, j)
  }

  lemma GuardedIsSpared(s: State, live: seq<Block>, i: nat, at: nat, j: nat)
    requires Chain(s, live) && Owns(live, i, at) && j < |live| && Guarded(s.buffer, live, j)
    ensures Spares(live[j].ptr, at)
  {
    assert Linked(s, live, j);
    if j <= i {
      if j < i {
        Above(s, live, j, i);
      }
    } else {
      Ordered(s, live, i, j);
      if i < j - 1 {
        Ordered(s, live, i, j - 1);
        assert Linked(s, live, j - 1);
      }
    }
  }

  lemma UnguardedIsReached(s: State, live: seq<Block>, j: nat)
    requires Chain(s, live) && j < |live| && !Guarded(s.buffer, live, j)
    ensures j > 0 && s.buffer + live[j].base > 0
    ensures Owns(live, j - 1, s.buffer + live[j].base - 1) && !Spares(live[j].ptr, s.buffer + live[j].base - 1)
  {
    assert Linked(s, live, j) && (j > 0 ==> Linked(s, live, j - 1));
  }

  /** Along a header chain, the guard says exactly that no owner can write a byte of any header. */
  lemma GuardMeans(s: State, live: seq<Block>)
    requires Chain(s, live)
    ensures Guard(s, live) <==>
      forall i: nat, at: nat, j: nat :: Owns(live, i, at) && j < |live| ==> Spares(live[j].ptr, at)
  {
    if Guard(s, live) {
      forall i: nat, at: nat, j: nat | Owns(live, i, at) && j < |live|
        ensures Spares(live[j].ptr, at)
      {
        GuardedIsSpared(s, live, i, at, j);
      }
    } else {
      var j :| 0 <= j < |live| && !Guarded(s.buffer, live, j);
      UnguardedIsReached(s, live, j);
    }
  }

  lemma WriteKeepsGuard(s: State, live: seq<Block>, i: nat, at: nat)
    requires Guard(s, live) && Owns(live, i, at)
    ensures Guard(s.(mem := Scribble(s.mem, at, at + 1, 16)), live)
  {
    var s' := s.(mem := Scribble(s.mem, at, at + 1, 16));
    forall j | 0 <= j < |live|
      ensures Linked(s', live, j)
    {
      assert Linked(s, live, j) && Guarded(s.buffer, live, j);
      GuardedIsSpared(s, live, i, at, j);
    }
  }

  /** There is room for the new header, or the block below owns no byte. */
  ghost predicate Clear(s: State, live: seq<Block>, alignment: nat)
    requires Sound(s) && Askable(s, 0, alignment)
  {
    HeaderRoom(s, alignment) || (live != [] && live[|live| - 1].size == 0)
  }

  lemma OneMoreGuarded(s: State, live: seq<Block>, s': State, b: Block)
    requires Guard(s, live) && Chain(s', live + [b]) && s'.buffer == s.buffer && 16 <= b.ptr < WORD
    ensures Guard(s', live + [b]) <==>
      live == [] || live[|live| - 1].size == 0 || s.buffer + b.base <= HeaderPtr(b.ptr)
  {
    var n, live' := |live|, live + [b];
    forall j | 0 <= j < n
      ensures Guarded(s.buffer, live', j)
    {
      assert Guarded(s.buffer, live, j) && live'[j] == live[j] && (j > 0 ==> live'[j - 1] == live[j - 1]);
    }
    assert live'[n] == b && (n > 0 ==> live'[n - 1] == live[n - 1]);
    assert Guarded(s.buffer, live', n) <==>
      live == [] || live[n - 1].size == 0 || s.buffer + b.base <= HeaderPtr(b.ptr);
  }

  /** An allocation keeps all headers out of owners' reach exactly when it is clear. */
  lemma AllocKeepsGuardIff(s: State, live: seq<Block>, size: nat, alignment: nat)
    requires Guard(s, live) && Askable(s, size, alignment) && Alloc(s, size, alignment).1.Some?
    ensures var (s', ptr) := Alloc(s, size, alignment);
      Guard(s', live + [Block(s.offset, ptr.value, size, alignment)]) <==> Clear(s, live, alignment)
  {
    var (s', ptr) := Alloc(s, size, alignment);
    AllocKeepsChain(s, live, size, alignment);
    HeaderClearExactly(s, size, alignment);
    OneMoreGuarded(s, live, s', Block(s.offset, ptr.value, size, alignment));
  }

  lemma FreeKeepsGuard(s: State, live: seq<Block>)
    requires Guard(s, live) && live != []
    ensures Guard(s.(offset := live[|live| - 1].base), live[..|live| - 1])
  {
    var n := |live| - 1;
    FreeOnlyTop(s, live, n);
    assert forall j :: 0 <= j < n ==> Guarded(s.buffer, live, j) && live[..n][j] == live[j];
  }

  lemma ReallocKeepsGuard(s: State, live: seq<Block>, newSize: nat)
    requires Guard(s, live) && live != [] && newSize > 0
    requires var b := live[|live| - 1]; s.offset + newSize - b.size <= s.capacity && s.capacity + b.size < WORD
    ensures var b := live[|live| - 1];
      && Linked(s, live, |live| - 1) && Realloc(s, b.ptr, b.size, newSize).Some?
      && Guard(Realloc(s, b.ptr, b.size, newSize).value, live[|live| - 1 := b.(size := newSize)])
  {
    var n := |live| - 1;
    ReallocKeepsChain(s, live, newSize);
    var live' := live[n := live[n].(size := newSize)];
    forall j | 0 <= j <= n
      ensures Guarded(s.buffer, live', j)
    {
      assert Guarded(s.buffer, live, j);
    }
  }

  /** Block `b` has its header and its bytes to itself, above `base`, and the alignment it asked for. */
  ghost predicate Tight(buffer: nat, b: Block) {
    && 16 <= b.ptr < WORD && buffer + b.base <= HeaderPtr(b.ptr) && b.alignment > 0 && b.ptr % b.alignment == 0
    && b.size % 8 == 0 && End(buffer, b) % 8 == 0
  }

  ghost predicate Layout(s: State, live: seq<Block>) {
    && Chain(s, live) && s.offset % 8 == 0
    && (forall i :: 0 <= i < |live| ==> Tight(s.buffer, live[i]))
  }

  /** Under the layout invariant, headers and user ranges of live blocks are pairwise disjoint, in bounds, and
      the user ranges are aligned. */
  lemma LayoutMeans(s: State, live: seq<Block>)
    requires Layout(s, live)
    ensures forall i :: 0 <= i < |live| ==>
      && 16 <= live[i].ptr < WORD && s.buffer <= HeaderPtr(live[i].ptr)
      && HeaderPtr(live[i].ptr) + 16 <= live[i].ptr
      && live[i].ptr + live[i].size <= s.buffer + s.offset <= s.buffer + s.capacity
      && live[i].alignment > 0 && live[i].ptr % live[i].alignment == 0
    ensures forall i, j :: 0 <= i < j < |live| ==> live[i].ptr + live[i].size <= HeaderPtr(live[j].ptr)
  {
    forall i | 0 <= i < |live|
      ensures Tight(s.buffer, live[i]) && live[i].ptr + live[i].size <= s.buffer + s.offset
    {
      assert Linked(s, live, i);
      Ordered(s, live, i, |live|);
    }
    forall i, j | 0 <= i < j < |live|
      ensures live[i].ptr + live[i].size <= HeaderPtr(live[j].ptr)
    {
      assert Linked(s, live, j) && Tight(s.buffer, live[j]);
      Ordered(s, live, i, j);
    }
  }

  lemma NewBlockIsTight(s: State, size: nat, alignment: nat)
    requires Sound(s) && s.offset % 8 == 0 && Askable(s, size, alignment) && size % 8 == 0
    requires Alloc(s, size, alignment).1.Some?
    ensures var (s', ptr) := Alloc(s, size, alignment);
      s'.offset % 8 == 0 && Tight(s'.buffer, Block(s.offset, ptr.value, size, alignment))
  {
    EightIsPowerOfTwo();
    AlignUpIsLeast(s.offset, 8);
    AlignedExactly(s, size, alignment);
    HeaderClearExactly(s, size, alignment);
    PaddingIsMultiple(s, alignment);
    SumIsMultiple(s.offset, Padding(s, alignment), size);
  }

  lemma SumIsMultiple(x: nat, y: nat, z: nat)
    requires x % 8 == 0 && y % 8 == 0 && z % 8 == 0
    ensures (x + y + z) % 8 == 0
  {
  }

  lemma AllocKeepsLayout(s: State, live: seq<Block>, size: nat, alignment: nat)
    requires Layout(s, live) && Askable(s, size, alignment) && size % 8 == 0
    requires Alloc(s, size, alignment).1.Some?
    ensures var (s', ptr) := Alloc(s, size, alignment);
      Layout(s', live + [Block(s.offset, ptr.value, size, alignment)])
  {
    var (s', ptr) := Alloc(s, size, alignment);
    var live' := live + [Block(s.offset, ptr.value, size, alignment)];
    AllocKeepsChain(s, live, size, alignment);
    NewBlockIsTight(s, size, alignment);
    assert forall i :: 0 <= i < |live| ==> Tight(s.buffer, live[i]) && live'[i] == live[i];
  }

  lemma LayoutGuards(s: State, live: seq<Block>)
    requires Layout(s, live)
    ensures Guard(s, live)
  {
    forall j | 0 <= j < |live|
      ensures Guarded(s.buffer, live, j)
    {
      assert Tight(s.buffer, live[j]);
    }
  }

  /** A write by the owner of a block touches no header. */
  lemma WriteKeepsLayout(s: State, live: seq<Block>, i: nat, at: nat)
    requires Layout(s, live) && Owns(live, i, at)
    ensures Layout(s.(mem := Scribble(s.mem, at, at + 1, 16)), live)
  {
    LayoutGuards(s, live);
    WriteKeepsGuard(s, live, i, at);
  }

  // ---- Whole runs ----

  datatype Op =
    | AllocOp(size: nat, alignment: nat)
    | FreeTopOp
    | ReallocTopOp(newSize: nat)
    | ResetOp
    | WriteOp(i: nat, at: nat)    // the owner of block i writes its byte at address `at`

  datatype Machine = Machine(s: State, live: seq<Block>)

  /** What the asserts of the source, and block ownership, demand of a caller. */
  ghost predicate Enabled(m: Machine, op: Op) {
    match op
    case AllocOp(size, alignment) => Askable(m.s, size, alignment)
    case FreeTopOp => true
    case ReallocTopOp(n) =>
      m.live != [] && n > 0 && var b := m.live[|m.live| - 1];
      m.s.offset + n - b.size <= m.s.capacity && m.s.capacity + b.size < WORD
    case ResetOp => true
    case WriteOp(i, at) => Owns(m.live, i, at)
  }

  /** The header of the latest block can be read. */
  ghost predicate TopReadable(m: Machine) {
    m.live != [] && var p := m.live[|m.live| - 1].ptr; 16 <= p < WORD && HeaderPtr(p) in m.s.mem
  }

  ghost function Step(m: Machine, op: Op): Machine {
    var n := |m.live| - 1;
    match op
    case AllocOp(size, alignment) =>
      if !Sound(m.s) || !Askable(m.s, size, alignment) then m else
      (match Alloc(m.s, size, alignment)
       case (s', Some(ptr)) => Machine(s', m.live + [Block(m.s.offset, ptr, size, alignment)])
       case (_, None) => m)
    case FreeTopOp =>
      if !TopReadable(m) then m else
      (match Free(m.s, m.live[n].ptr)
       case Some(s') => Machine(s', m.live[..n])
       case None => m)
    case ReallocTopOp(newSize) =>
      if newSize == 0 || !TopReadable(m) then m else
      (match Realloc(m.s, m.live[n].ptr, m.live[n].size, newSize)
       case Some(s') => Machine(s', m.live[n := m.live[n].(size := newSize)])
       case None => m)
    case ResetOp => Machine(m.s.(offset := 0), [])
    case WriteOp(_, at) => m.(s := m.s.(mem := Scribble(m.s.mem, at, at + 1, 16)))
  }

  ghost function Run(m: Machine, ops: seq<Op>): Machine
    decreases |ops|
  {
    if ops == [] then m else Run(Step(m, ops[0]), ops[1..])
  }

  ghost predicate EnabledRun(m: Machine, ops: seq<Op>)
    decreases |ops|
  {
    ops == [] || (Enabled(m, ops[0]) && EnabledRun(Step(m, ops[0]), ops[1..]))
  }

  /** What each step does: a failed allocation nothing; a free drops the latest block and its bytes; a realloc changes
      only the latest block's size and the offset; a reset drops everything. */
  lemma StepMeans(m: Machine, op: Op)
    requires Chain(m.s, m.live) && Enabled(m, op)
    ensures var m' := Step(m, op); var n := |m.live| - 1;
      match op
      case AllocOp(size, alignment) =>
        var (s', r) := Alloc(m.s, size, alignment);
        m' == if r.Some? then Machine(s', m.live + [Block(m.s.offset, r.value, size, alignment)]) else m
      case FreeTopOp => m' == if n < 0 then m else Machine(m.s.(offset := m.live[n].base), m.live[..n])
      case ReallocTopOp(newSize) =>
        && m'.s.offset == m.s.offset + newSize - m.live[n].size
        && m'.live == m.live[n := m.live[n].(size := newSize)]
      case ResetOp => m' == Machine(m.s.(offset := 0), [])
      case WriteOp(_, at) => m' == m.(s := m.s.(mem := Scribble(m.s.mem, at, at + 1, 16)))
  {
    match op
    case AllocOp(size, alignment) => StepAllocMeans(m, size, alignment);
    case FreeTopOp =>
      if m.live != [] {
        FreeOnlyTop(m.s, m.live, |m.live| - 1);
      }
    case ReallocTopOp(newSize) =>
      var b := m.live[|m.live| - 1];
      assert Linked(m.s, m.live, |m.live| - 1);
      ReallocIs(m.s, b.ptr, b.size, newSize);
    case ResetOp =>
    case WriteOp(_, _) =>
  }

  lemma StepAllocMeans(m: Machine, size: nat, alignment: nat)
    requires Sound(m.s) && Askable(m.s, size, alignment)
    ensures var (s', r) := Alloc(m.s, size, alignment);
      Step(m, AllocOp(size, alignment))
      == if r.Some? then Machine(s', m.live + [Block(m.s.offset, r.value, size, alignment)]) else m
  {
  }

  lemma StepKeepsChain(m: Machine, op: Op)
    requires Chain(m.s, m.live) && Enabled(m, op) && !op.WriteOp?
    ensures Chain(Step(m, op).s, Step(m, op).live)
  {
    match op
    case AllocOp(size, alignment) =>
      if Alloc(m.s, size, alignment).1.Some? {
        AllocKeepsChain(m.s, m.live, size, alignment);
      }
    case FreeTopOp =>
      if m.live != [] {
        FreeOnlyTop(m.s, m.live, |m.live| - 1);
      }
    case ReallocTopOp(newSize) => ReallocKeepsChain(m.s, m.live, newSize);
    case ResetOp =>
  }

  /** Over every run with blocks of any sizes, as long as no owner writes: the header chain stays intact, and
      freeing what is live in reverse order walks the offset back to 0. */
  lemma {:induction false} RunKeepsChain(m: Machine, ops: seq<Op>)
    requires Chain(m.s, m.live) && EnabledRun(m, ops)
    requires forall op :: op in ops ==> !op.WriteOp?
    ensures var last := Run(m, ops);
      && Chain(last.s, last.live)
      && FreeAll(last.s, last.live).Some? && FreeAll(last.s, last.live).value.0.offset == 0
    decreases |ops|
  {
    if ops == [] {
      UnwindsToZero(m.s, m.live);
    } else {
      assert ops[0] in ops;
      StepKeepsChain(m, ops[0]);
      RunKeepsChain(Step(m, ops[0]), ops[1..]);
    }
  }

  lemma StepKeepsGuardIff(m: Machine, op: Op)
    requires Guard(m.s, m.live) && Enabled(m, op)
    ensures Guard(Step(m, op).s, Step(m, op).live) <==> ClearStep(m, op)
  {
    match op
    case AllocOp(size, alignment) =>
      if Alloc(m.s, size, alignment).1.Some? {
        AllocKeepsGuardIff(m.s, m.live, size, alignment);
      }
    case FreeTopOp =>
      if m.live != [] {
        FreeOnlyTop(m.s, m.live, |m.live| - 1);
        FreeKeepsGuard(m.s, m.live);
      }
    case ReallocTopOp(newSize) => ReallocKeepsGuard(m.s, m.live, newSize);
    case ResetOp =>
    case WriteOp(i, at) => WriteKeepsGuard(m.s, m.live, i, at);
  }

  /** A successful allocation is clear. */
  ghost predicate ClearStep(m: Machine, op: Op) {
    op.AllocOp? && Sound(m.s) && Askable(m.s, op.size, op.alignment) && Alloc(m.s, op.size, op.alignment).1.Some? ==>
      Clear(m.s, m.live, op.alignment)
  }

  ghost predicate ClearRun(m: Machine, ops: seq<Op>)
    decreases |ops|
  {
    ops == [] || (ClearStep(m, ops[0]) && ClearRun(Step(m, ops[0]), ops[1..]))
  }

  /** At every point of the run, the header chain is intact and no owner can reach any of its headers. */
  ghost predicate GuardThroughout(m: Machine, ops: seq<Op>)
    decreases |ops|
  {
    Guard(m.s, m.live) && (ops == [] || GuardThroughout(Step(m, ops[0]), ops[1..]))
  }

  /** Over every run with blocks of any sizes, whatever owners write: the headers stay intact and out of reach exactly
      when every successful allocation is clear, and then what is live unwinds to 0. */
  lemma {:induction false} RunGuardedIff(m: Machine, ops: seq<Op>)
    requires Guard(m.s, m.live) && EnabledRun(m, ops)
    ensures GuardThroughout(m, ops) <==> ClearRun(m, ops)
    ensures ClearRun(m, ops) ==>
      var last := Run(m, ops);
      && Guard(last.s, last.live)
      && FreeAll(last.s, last.live).Some? && FreeAll(last.s, last.live).value.0.offset == 0
    decreases |ops|
  {
    if ops == [] {
      UnwindsToZero(m.s, m.live);
    } else {
      StepKeepsGuardIff(m, ops[0]);
      if ClearStep(m, ops[0]) {
        RunGuardedIff(Step(m, ops[0]), ops[1..]);
      }
    }
  }

  ghost predicate SizedForHeaders(op: Op) {
    (op.AllocOp? ==> op.size % 8 == 0) && (op.ReallocTopOp? ==> op.newSize % 8 == 0)
  }

  lemma FreeKeepsLayout(s: State, live: seq<Block>)
    requires Layout(s, live) && live != []
    ensures Layout(s.(offset := live[|live| - 1].base), live[..|live| - 1])
  {
    var n := |live| - 1;
    FreeOnlyTop(s, live, n);
    var s', live' := s.(offset := live[n].base), live[..n];
    assert Linked(s, live, n);
    assert n > 0 ==> Linked(s, live, n - 1) && Tight(s.buffer, live[n - 1]);
    assert forall j :: 0 <= j < n ==> Tight(s.buffer, live[j]) && live'[j] == live[j];
  }

  lemma ReallocKeepsLayout(s: State, live: seq<Block>, newSize: nat)
    requires Layout(s, live) && live != [] && newSize > 0 && newSize % 8 == 0
    requires var b := live[|live| - 1]; s.offset + newSize - b.size <= s.capacity && s.capacity + b.size < WORD
    ensures var b := live[|live| - 1];
      && Linked(s, live, |live| - 1) && Realloc(s, b.ptr, b.size, newSize).Some?
      && Layout(Realloc(s, b.ptr, b.size, newSize).value, live[|live| - 1 := b.(size := newSize)])
  {
    var n := |live| - 1;
    var b := live[n];
    ReallocKeepsChain(s, live, newSize);
    var s', live' := Realloc(s, b.ptr, b.size, newSize).value, live[n := b.(size := newSize)];
    assert Linked(s, live, n) && Tight(s.buffer, b);
    ResizedEnd(End(s.buffer, b), b.size, newSize);
    assert forall j :: 0 <= j < n ==> Tight(s.buffer, live[j]) && live'[j] == live[j];
    assert Tight(s'.buffer, live'[n]);
  }

  lemma ResizedEnd(end: int, oldSize: nat, newSize: nat)
    requires end % 8 == 0 && oldSize % 8 == 0 && newSize % 8 == 0
    ensures (end - oldSize + newSize) % 8 == 0
  {
  }

  lemma AllocStepKeepsLayout(m: Machine, op: Op)
    requires Layout(m.s, m.live) && op.AllocOp? && Enabled(m, op) && SizedForHeaders(op)
    ensures Layout(Step(m, op).s, Step(m, op).live)
  {
    if Alloc(m.s, op.size, op.alignment).1.Some? {
      AllocKeepsLayout(m.s, m.live, op.size, op.alignment);
    }
  }

  lemma FreeStepKeepsLayout(m: Machine, op: Op)
    requires Layout(m.s, m.live) && op.FreeTopOp?
    ensures Layout(Step(m, op).s, Step(m, op).live)
  {
    if m.live != [] {
      FreeOnlyTop(m.s, m.live, |m.live| - 1);
      FreeKeepsLayout(m.s, m.live);
    }
  }

  lemma ReallocStepKeepsLayout(m: Machine, op: Op)
    requires Layout(m.s, m.live) && op.ReallocTopOp? && Enabled(m, op) && SizedForHeaders(op)
    ensures Layout(Step(m, op).s, Step(m, op).live)
  {
    ReallocKeepsLayout(m.s, m.live, op.newSize);
  }

  lemma StepKeepsLayout(m: Machine, op: Op)
    requires Layout(m.s, m.live) && Enabled(m, op) && SizedForHeaders(op)
    ensures Layout(Step(m, op).s, Step(m, op).live)
  {
    match op
    case AllocOp(_, _) => AllocStepKeepsLayout(m, op);
    case FreeTopOp => FreeStepKeepsLayout(m, op);
    case ReallocTopOp(_) => ReallocStepKeepsLayout(m, op);
    case ResetOp =>
    case WriteOp(i, at) => WriteKeepsLayout(m.s, m.live, i, at);
  }

  /** Over every run whose sizes are multiples of 8, whatever owners write to their blocks: the layout and the
      header chain hold throughout. */
  lemma {:induction false} RunKeepsLayout(m: Machine, ops: seq<Op>)
    requires Layout(m.s, m.live) && EnabledRun(m, ops)
    requires forall op :: op in ops ==> SizedForHeaders(op)
    ensures Layout(Run(m, ops).s, Run(m, ops).live)
    decreases |ops|
  {
    if ops != [] {
      assert ops[0] in ops;
      StepKeepsLayout(m, ops[0]);
      RunKeepsLayout(Step(m, ops[0]), ops[1..]);
    }
  }

  // ---- Runs that go wrong ----

  ghost predicate Empty(m: Machine, room: nat) {
    && m.s.buffer % 8 == 0 && m.s.offset == 0 && m.live == []
    && room <= m.s.capacity && m.s.buffer + m.s.capacity + 40 <= WORD
  }

  /** Without extra padding, the user's bytes start 16 above the offset, and the header at the multiple of 8 at or
      below the offset. */
  lemma UnpaddedAlloc(s: State, size: nat, alignment: nat, start: nat, h: nat)
    requires s.buffer % 8 == 0 && s.offset + 16 + size <= s.capacity && s.buffer + s.capacity + 40 <= WORD
    requires alignment == 1 || alignment == 8
    requires start % 8 == 0 && s.offset <= start < s.offset + 8 && h % 8 == 0 && h <= s.buffer + s.offset < h + 8
    ensures Sound(s) && Askable(s, size, alignment)
    ensures var offset := s.offset + 16 + size;
      Alloc(s, size, alignment)
      == (State(s.buffer, s.capacity, offset, Store(s.mem, h, 16, Header(s.offset, offset))),
          Some(s.buffer + s.offset + 16))
  {
    AlreadyAligned(s.buffer, start, alignment);
    AllocMeans(s, size, alignment, start, s.buffer + start + 16, s.buffer + s.offset + 16);
    HeaderPtrIs(s.buffer + s.offset + 16, h);
  }

  lemma AlreadyAligned(buffer: nat, start: nat, alignment: nat)
    requires buffer % 8 == 0 && start % 8 == 0 && (alignment == 1 || alignment == 8)
    ensures IsPowerOfTwo(alignment) && (buffer + start + 16) % alignment == 0
  {
    EightIsPowerOfTwo();
    SumOfMultiples(buffer, start, 16);
  }

  lemma OddPlace(buffer: nat, size: nat)
    requires buffer % 8 == 0 && 0 < size < 8
    ensures (buffer + 16) % 8 == 0 && (buffer + 32 + size) % 8 != 0
  {
  }

  lemma HeaderPtrIs(ptr: nat, h: nat)
    requires 16 <= ptr < WORD && h % 8 == 0 && h <= ptr - 16 < h + 8
    ensures HeaderPtr(ptr) == h
  {
    EightIsPowerOfTwo();
    AlignDownIsGreatest(ptr - 16, 8, h);
    if h < HeaderPtr(ptr) {
      MultiplesApart(h, HeaderPtr(ptr), 8);
    }
  }

  lemma UnpaddedStep(m: Machine, op: Op, start: nat, h: nat)
    requires m.s.buffer % 8 == 0 && op.AllocOp? && (op.alignment == 1 || op.alignment == 8)
    requires m.s.offset + 16 + op.size <= m.s.capacity && m.s.buffer + m.s.capacity + 40 <= WORD
    requires start % 8 == 0 && m.s.offset <= start < m.s.offset + 8
    requires h % 8 == 0 && h <= m.s.buffer + m.s.offset < h + 8
    ensures Enabled(m, op)
    ensures var offset := m.s.offset + 16 + op.size;
      Step(m, op)
      == Machine(State(m.s.buffer, m.s.capacity, offset, Store(m.s.mem, h, 16, Header(m.s.offset, offset))),
           m.live + [Block(m.s.offset, m.s.buffer + m.s.offset + 16, op.size, op.alignment)])
  {
    UnpaddedAlloc(m.s, op.size, op.alignment, start, h);
  }

  /** From any empty stack, a first block of 1 to 7 bytes and then one aligned to 8: the second block is misaligned,
      and its header lies on the first block's bytes. Writing the lowest of them, as the owner may, destroys the
      header, and the second block cannot be freed. One byte and then eight at 4096 give 4112 and 4129. */
  lemma OddSizesOverlap(m: Machine, odd: Op, eight: Op, write: Op)
    requires odd.AllocOp? && 0 < odd.size < 8 && odd.alignment == 1
    requires eight.AllocOp? && eight.alignment == 8 && Empty(m, 32 + odd.size + eight.size)
    requires write == WriteOp(0, m.s.buffer + 16)
    ensures Chain(m.s, m.live) && EnabledRun(m, [odd, eight, write])
    ensures var ptr := m.s.buffer + 32 + odd.size;
      && Run(m, [odd, eight]).live
         == [Block(0, m.s.buffer + 16, odd.size, 1), Block(16 + odd.size, ptr, eight.size, 8)]
      && ptr % 8 != 0 && ptr < WORD && HeaderPtr(ptr) == m.s.buffer + 16
      && HeaderPtr(ptr) in Run(m, [odd, eight]).s.mem && HeaderPtr(ptr) !in Run(m, [odd, eight, write]).s.mem
  {
    OddPlace(m.s.buffer, odd.size);
    var m1, m2 := Step(m, odd), Step(Step(m, odd), eight);
    OddSteps(m, odd, m1, eight, m2, write);
    RunOfThree(m, odd, eight, write, m1, m2);
  }

  lemma OddSteps(m: Machine, odd: Op, m1: Machine, eight: Op, m2: Machine, write: Op)
    requires m1 == Step(m, odd) && m2 == Step(m1, eight)
    requires odd.AllocOp? && 0 < odd.size < 8 && odd.alignment == 1
    requires eight.AllocOp? && eight.alignment == 8 && Empty(m, 32 + odd.size + eight.size)
    requires write == WriteOp(0, m.s.buffer + 16)
    ensures Enabled(m, odd) && Enabled(m1, eight)
    ensures var ptr := m.s.buffer + 32 + odd.size;
      && m2.live == [Block(0, m.s.buffer + 16, odd.size, 1), Block(16 + odd.size, ptr, eight.size, 8)]
      && ptr < WORD && HeaderPtr(ptr) == m.s.buffer + 16 && m.s.buffer + 16 in m2.s.mem
      && Enabled(m2, write) && m.s.buffer + 16 !in Step(m2, write).s.mem
  {
    FirstBlock(m, odd);
    SecondBlock(m1, eight, write, Block(0, m.s.buffer + 16, odd.size, 1), m.s.buffer + 32 + odd.size);
  }

  lemma FirstBlock(m: Machine, op: Op)
    requires op.AllocOp? && op.alignment == 1 && Empty(m, 16 + op.size)
    ensures Enabled(m, op)
    ensures var m' := Step(m, op);
      && m'.s.buffer == m.s.buffer && m'.s.capacity == m.s.capacity && m'.s.offset == 16 + op.size
      && m'.live == [Block(0, m.s.buffer + 16, op.size, 1)]
  {
    UnpaddedStep(m, op, 0, m.s.buffer);
  }

  lemma SecondBlock(m: Machine, eight: Op, write: Op, b: Block, ptr: nat)
    requires m.s.buffer % 8 == 0 && 16 < m.s.offset < 24 && m.s.buffer + m.s.capacity + 40 <= WORD
    requires m.live == [b] && b.ptr == m.s.buffer + 16 && b.size > 0 && ptr == m.s.buffer + m.s.offset + 16
    requires eight.AllocOp? && eight.alignment == 8 && m.s.offset + 16 + eight.size <= m.s.capacity
    requires write == WriteOp(0, b.ptr)
    ensures Enabled(m, eight) && HeaderPtr(ptr) == b.ptr
    ensures var m' := Step(m, eight);
      && m'.live == [b, Block(m.s.offset, ptr, eight.size, 8)] && b.ptr in m'.s.mem
      && Enabled(m', write) && b.ptr !in Step(m', write).s.mem
  {
    HeaderPtrIs(ptr, b.ptr);
    UnpaddedStep(m, eight, 24, b.ptr);
  }

  lemma RunOfThree(m0: Machine, a: Op, b: Op, c: Op, m1: Machine, m2: Machine)
    requires Step(m0, a) == m1 && Step(m1, b) == m2 && Enabled(m0, a) && Enabled(m1, b) && Enabled(m2, c)
    ensures EnabledRun(m0, [a, b, c]) && Run(m0, [a, b]) == m2 && Run(m0, [a, b, c]) == Step(m2, c)
  {
    assert [a, b, c][1..] == [b, c] && [b, c][1..] == [c] && [a, b][1..] == [b] && [b][1..] == [] && [c][1..] == [];
    assert Run(m1, [b]) == Run(m2, []) == m2;
    assert Run(m2, [c]) == Run(Step(m2, c), []) == Step(m2, c);
    assert Run(m1, [b, c]) == Run(m2, [c]);
    assert EnabledRun(m2, [c]) && EnabledRun(m1, [b, c]);
  }

  /** From any empty stack, one block and then a realloc of it to one byte more than capacity plus old size: the
      assertion passes, and the offset ends up beyond the buffer. */
  lemma OversizedReallocPasses(m: Machine, op: Op)
    requires op.AllocOp? && op.alignment == 1 && Empty(m, 16 + op.size) && 2 * m.s.capacity + 1 < WORD
    ensures var after := Run(m, [op]);
      && after.live == [Block(0, m.s.buffer + 16, op.size, 1)] && after.s.capacity == m.s.capacity
      && Chain(after.s, after.live) && Linked(after.s, after.live, 0)
      && var r := Realloc(after.s, m.s.buffer + 16, op.size, m.s.capacity + op.size + 1);
         r.Some? && r.value.offset == 16 + op.size + m.s.capacity + 1 > m.s.capacity
  {
    FirstBlock(m, op);
    StepKeepsChain(m, op);
    var after := Step(m, op);
    assert Run(m, [op]) == after by {
      assert [op][1..] == [];
    }
    ReallocBoundFails(after.s, after.live);
  }

  // ---- The allocator ----

  /** The old size is that of block `i`, and the new one fits. */
  ghost predicate Truthful(s: State, live: seq<Block>, i: nat, oldSize: nat, newSize: nat)
    requires i < |live|
  {
    oldSize == live[i].size && s.capacity + oldSize < WORD && s.offset + newSize - oldSize <= s.capacity
  }

  class StackAllocator {
    const buffer: nat
    const capacity: nat
    var offset: nat
    var mem: map<nat, Header>     // the headers in the buffer
    ghost var live: seq<Block>

    ghost function Abstract(): State
      reads this
    {
      State(buffer, capacity, offset, mem)
    }

    ghost predicate Valid()
      reads this
    {
      Chain(Abstract(), live)
    }

    constructor (buffer: nat, capacity: nat)
      requires buffer % 8 == 0 && buffer + capacity < WORD
      ensures Valid() && Layout(Abstract(), live) && Abstract() == State(buffer, capacity, 0, map[]) && live == []
    {
      this.buffer, this.capacity, this.offset, this.mem, this.live := buffer, capacity, 0, map[], [];
    }

    /** The address arithmetic of `stack_alloc`. */
    method PaddingFor(alignment: nat) returns (padding: nat)
      requires Sound(Abstract()) && Askable(Abstract(), 0, alignment)
      ensures padding == Padding(Abstract(), alignment)
    {
      EightIsPowerOfTwo();
      var minHeaderAddress := AlignUp(offset, 8);
      var minAddress := buffer + minHeaderAddress + 16;
      var aligned := AlignUp(minAddress, alignment);
      padding := aligned - minAddress + 16;
    }

    /** `stack_alloc`. */
    method AllocBytes(size: nat, alignment: nat) returns (ptr: Option<nat>)
      requires Valid() && Askable(Abstract(), size, alignment)
      modifies this
      ensures Valid() && (Abstract(), ptr) == Alloc(old(Abstract()), size, alignment)
      ensures live == if ptr.Some? then old(live) + [Block(old(offset), ptr.value, size, alignment)] else old(live)
      ensures ptr.None? ==> Abstract() == old(Abstract())
    {
      var padding := PaddingFor(alignment);
      AllocTakes(Abstract(), size, alignment, padding, buffer + offset + padding);
      var required := padding + size;
      if required > capacity - offset {
        return None;
      }
      var result := TakeTop(padding, size, alignment);
      return Some(result);
    }

    /** The state change of `stack_alloc`: bump the offset, write the header. */
    method TakeTop(padding: nat, size: nat, ghost alignment: nat) returns (result: nat)
      requires Valid() && 16 <= padding && offset + padding + size <= capacity
      modifies this
      ensures Valid() && result == buffer + old(offset) + padding
      ensures Abstract() == Take(old(Abstract()), padding, size)
      ensures live == old(live) + [Block(old(offset), result, size, alignment)]
    {
      var baseOffset := offset;
      result := buffer + offset + padding;
      TakeKeepsChain(Abstract(), live, padding, size, alignment);
      offset := offset + padding + size;
      mem := Store(mem, HeaderPtr(result), 16, Header(baseOffset, offset));
      live := live + [Block(baseOffset, result, size, alignment)];
    }

    /** `stack_free` of any pointer whose header can still be read, or of null; the result says whether the
        assertion passes. Among live pointers it passes for the latest only, and keeps the chain. */
    method FreePtr(ptr: Option<nat>) returns (passed: bool)
      requires Valid() && (ptr.Some? ==> 16 <= ptr.value < WORD && HeaderPtr(ptr.value) in mem)
      modifies this
      ensures ptr.None? ==> passed && Abstract() == old(Abstract()) && live == old(live)
      ensures ptr.Some? ==> match Free(old(Abstract()), ptr.value)
        case Some(s) => passed && Abstract() == s
        case None => !passed && Abstract() == old(Abstract()) && live == old(live)
      ensures ptr.Some? ==>
        && mem == old(mem) && (passed <==> mem[HeaderPtr(ptr.value)].current == old(offset))
        && (passed ==> offset == mem[HeaderPtr(ptr.value)].previous)
      ensures ptr.Some? ==> forall i :: 0 <= i < |old(live)| && old(live)[i].ptr == ptr.value ==>
        && Valid() && (passed <==> i == |old(live)| - 1)
        && (passed ==> live == old(live)[..i] && offset == old(live)[i].base)
    {
      if ptr.None? { return true; }
      ghost var s, blocks := Abstract(), live;
      var header := mem[HeaderPtr(ptr.value)];
      if header.current != offset {
        forall i | 0 <= i < |live| && live[i].ptr == ptr.value
          ensures i != |live| - 1
        {
          FreeOnlyTop(s, live, i);
        }
        return false;
      }
      offset := header.previous;
      if live != [] {
        live := live[..|live| - 1];
      }
      forall i | 0 <= i < |blocks| && blocks[i].ptr == ptr.value
        ensures Valid() && i == |blocks| - 1 && live == blocks[..i] && offset == blocks[i].base
      {
        FreeOnlyTop(s, blocks, i);
      }
      return true;
    }

    /** `stack_realloc` of any pointer whose header can still be read, or of null, but for the branch that frees; the
        result says whether the assertions pass. Among live pointers they pass for the latest only or an unchanged
        size; with the block's true old size and a size that fits, the chain is kept. */
    method ReallocPtr(ptr: Option<nat>, oldSize: nat, newSize: nat) returns (passed: bool)
      requires Valid() && (ptr.Some? ==> 16 <= ptr.value < WORD && HeaderPtr(ptr.value) in mem)
      requires ptr.Some? ==> newSize > 0 || newSize == oldSize
      modifies this
      ensures ptr.None? ==> passed && Abstract() == old(Abstract()) && live == old(live)
      ensures ptr.Some? ==> match Realloc(old(Abstract()), ptr.value, oldSize, newSize)
        case Some(s) => passed && Abstract() == s
        case None => !passed && Abstract() == old(Abstract()) && live == old(live)
      ensures ptr.Some? ==> forall i :: 0 <= i < |old(live)| && old(live)[i].ptr == ptr.value ==>
        && (newSize != oldSize && passed ==> i == |old(live)| - 1)
        && (Truthful(old(Abstract()), old(live), i, oldSize, newSize) ==>
            && Valid() && (passed <==> i == |old(live)| - 1 || newSize == oldSize)
            && (passed ==> live == old(live)[i := old(live)[i].(size := newSize)]))
    {
      if ptr.None? { return true; }
      ghost var s, blocks := Abstract(), live;
      if newSize == oldSize {
        assert forall i :: 0 <= i < |live| && oldSize == live[i].size ==> live == live[i := live[i].(size := newSize)];
        return true;
      }
      var h := HeaderPtr(ptr.value);
      var header := mem[h];
      forall i | 0 <= i < |live| && live[i].ptr == ptr.value
        ensures header.current == offset <==> i == |live| - 1
      {
        FreeOnlyTop(s, live, i);
      }
      if header.current != offset { return false; }
      forall i | 0 <= i < |live| && live[i].ptr == ptr.value && Truthful(s, live, i, oldSize, newSize)
        ensures Realloc(s, ptr.value, oldSize, newSize).Some?
        ensures Chain(Realloc(s, ptr.value, oldSize, newSize).value, live[i := live[i].(size := newSize)])
      {
        ReallocKeepsChain(s, live, newSize);
      }
      if offset > (capacity + oldSize - newSize) % WORD { return false; }
      offset := (offset + newSize - oldSize) % WORD;
      mem := Store(mem, h, 16, header.(current := offset));
      if live != [] {
        live := live[|live| - 1 := live[|live| - 1].(size := newSize)];
      }
      return true;
    }

    /** `stack_reset`. */
    method Reset()
      requires Valid()
      modifies this
      ensures Valid() && Abstract() == old(Abstract()).(offset := 0) && live == []
    {
      offset, live := 0, [];
    }
  }
}
