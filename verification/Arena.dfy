/** The arena: a bump allocator whose only state is an offset. */
module Arena {
  import opened Wrappers
  import opened Align
  import opened HeaderMemory

  datatype State = State(buffer: nat, capacity: nat, offset: nat)

  /** What the asserts of `arena_alloc` demand, and addresses that do not wrap around. */
  predicate Askable(buffer: nat, capacity: nat, size: nat, alignment: nat) {
    IsPowerOfTwo(alignment) && alignment < WORD && buffer + capacity + alignment <= WORD && size + alignment <= WORD
  }

  function Alloc(a: State, size: nat, alignment: nat): (r: (State, Option<nat>))
    requires a.offset <= a.capacity && Askable(a.buffer, a.capacity, size, alignment)
    ensures r.0.offset <= r.0.capacity && r.0.buffer == a.buffer && r.0.capacity == a.capacity
  {
    var current := a.buffer + a.offset;
    var padding := AlignUp(current, alignment) - current;
    if padding + size > a.capacity - a.offset then (a, None)
    else (a.(offset := a.offset + padding + size), Some(a.buffer + a.offset + padding))
  }

  /** Null means that no aligned start at or after the current offset leaves room for the request, and it costs
      nothing. */
  lemma NullIffNoRoom(a: State, size: nat, alignment: nat)
    requires a.offset <= a.capacity && Askable(a.buffer, a.capacity, size, alignment)
    ensures Alloc(a, size, alignment).1.None? <==>
      !exists p: nat :: p % alignment == 0 && a.buffer + a.offset <= p && p + size <= a.buffer + a.capacity
    ensures Alloc(a, size, alignment).1.None? ==> Alloc(a, size, alignment).0 == a
  {
    var p := AlignUp(a.buffer + a.offset, alignment);
    AlignUpIsLeast(a.buffer + a.offset, alignment);
    if Alloc(a, size, alignment).1.Some? {
      assert p % alignment == 0 && p + size <= a.buffer + a.capacity;
    }
  }

  /** A successful allocation takes the least aligned start at or after the offset, and not a byte more than it
      needs. */
  lemma AllocIsTight(a: State, size: nat, alignment: nat)
    requires a.offset <= a.capacity && Askable(a.buffer, a.capacity, size, alignment)
    requires Alloc(a, size, alignment).1.Some?
    ensures var (a', p) := Alloc(a, size, alignment);
      && a.buffer + a.offset <= p.value && p.value % alignment == 0 && a.buffer + a'.offset == p.value + size
      && forall q: nat :: q % alignment == 0 && a.buffer + a.offset <= q ==> p.value <= q
  {
    AlignUpIsLeast(a.buffer + a.offset, alignment);
  }

  /** The spans lie in order inside the used part of the buffer, aligned and pairwise disjoint. */
  ghost predicate Layout(a: State, spans: seq<Span>) {
    && a.offset <= a.capacity
    && (forall i :: 0 <= i < |spans| ==>
      && a.buffer <= spans[i].start && spans[i].start + spans[i].size <= a.buffer + a.offset
      && spans[i].alignment > 0 && spans[i].start % spans[i].alignment == 0)
    && (forall i, j :: 0 <= i < j < |spans| ==> spans[i].start + spans[i].size <= spans[j].start)
  }

  datatype Op = AllocOp(size: nat, alignment: nat) | ResetOp

  /** The spans outstanding after one call. */
  function Track(spans: seq<Span>, op: Op, r: Option<nat>): seq<Span> {
    match op
    case AllocOp(size, alignment) => if r.Some? then spans + [Span(r.value, size, alignment)] else spans
    case ResetOp => []
  }

  function Step(a: State, op: Op): (r: (State, Option<nat>))
    requires a.offset <= a.capacity
    requires op.AllocOp? ==> Askable(a.buffer, a.capacity, op.size, op.alignment)
    ensures r.0.offset <= r.0.capacity && r.0.buffer == a.buffer && r.0.capacity == a.capacity
  {
    match op
    case AllocOp(size, alignment) => Alloc(a, size, alignment)
    case ResetOp => (a.(offset := 0), None)
  }

  function Run(a: State, spans: seq<Span>, ops: seq<Op>): (r: (State, seq<Span>))
    requires a.offset <= a.capacity
    requires forall op :: op in ops && op.AllocOp? ==> Askable(a.buffer, a.capacity, op.size, op.alignment)
    decreases |ops|
  {
    if ops == [] then (a, spans) else
      assert ops[0] in ops;
      var (a', p) := Step(a, ops[0]);
      Run(a', Track(spans, ops[0], p), ops[1..])
  }

  /** A failed call leaves the arena, and so every later call, as it was. */
  lemma FailedCallIsSkipped(a: State, spans: seq<Span>, op: Op, ops: seq<Op>)
    requires a.offset <= a.capacity
    requires forall o :: (o == op || o in ops) && o.AllocOp? ==> Askable(a.buffer, a.capacity, o.size, o.alignment)
    requires op.AllocOp? && Step(a, op).1.None?
    ensures Run(a, spans, [op] + ops) == Run(a, spans, ops)
  {
    NullIffNoRoom(a, op.size, op.alignment);
    assert ([op] + ops)[1..] == ops;
  }

  lemma StepKeepsLayout(a: State, spans: seq<Span>, op: Op)
    requires Layout(a, spans)
    requires op.AllocOp? ==> Askable(a.buffer, a.capacity, op.size, op.alignment)
    ensures var (a', p) := Step(a, op); Layout(a', Track(spans, op, p))
  {
  }

  /** Over every run, all ranges returned since the last reset are ordered, disjoint, aligned and in bounds. */
  lemma {:induction false} RunKeepsLayout(a: State, spans: seq<Span>, ops: seq<Op>)
    requires Layout(a, spans)
    requires forall op :: op in ops && op.AllocOp? ==> Askable(a.buffer, a.capacity, op.size, op.alignment)
    ensures Layout(Run(a, spans, ops).0, Run(a, spans, ops).1)
    decreases |ops|
  {
    if ops != [] {
      assert ops[0] in ops;
      StepKeepsLayout(a, spans, ops[0]);
      var (a', p) := Step(a, ops[0]);
      RunKeepsLayout(a', Track(spans, ops[0], p), ops[1..]);
    }
  }

  class ArenaAllocator {
    const buffer: nat
    const capacity: nat
    var offset: nat
    ghost var spans: seq<Span>

    ghost function Abstract(): State
      reads this
    {
      State(buffer, capacity, offset)
    }

    ghost predicate Valid()
      reads this
    {
      Layout(Abstract(), spans)
    }

    constructor (buffer: nat, capacity: nat)
      ensures Valid() && Abstract() == State(buffer, capacity, 0) && spans == []
    {
      this.buffer, this.capacity, this.offset, this.spans := buffer, capacity, 0, [];
    }

    /** `arena_alloc`. */
    method AllocBytes(size: nat, alignment: nat) returns (ptr: Option<nat>)
      requires Valid() && Askable(buffer, capacity, size, alignment)
      modifies this
      ensures Valid() && (Abstract(), ptr) == Alloc(old(Abstract()), size, alignment)
      ensures ptr.None? ==> offset == old(offset) && spans == old(spans)
      ensures ptr.Some? ==>
        && buffer + old(offset) <= ptr.value && ptr.value % alignment == 0 && buffer + offset == ptr.value + size
        && spans == old(spans) + [Span(ptr.value, size, alignment)]
    {
      StepKeepsLayout(Abstract(), spans, AllocOp(size, alignment));
      var current := buffer + offset;
      var aligned := AlignUp(current, alignment);
      var padding := aligned - current;
      var required := padding + size;
      if required > capacity - offset {
        return None;
      }
      offset := offset + padding;
      ptr := Some(buffer + offset);
      offset := offset + size;
      spans := Track(spans, AllocOp(size, alignment), ptr);
    }

    /** `arena_reset`. */
    method Reset()
      requires Valid()
      modifies this
      ensures Valid() && offset == 0 && spans == [] && Abstract() == Step(old(Abstract()), ResetOp).0
    {
      offset, spans := 0, [];
    }
  }
}
