/** The `cmalloc` memory source: aligned blocks carved out of over-sized `malloc` blocks, with the raw address
    kept in a header just below the user's bytes. */
module Cmalloc {
  import opened Wrappers
  import opened Align
  import opened HeaderMemory

  const HEADER: nat := 8
  const MAX_ALIGNMENT: nat := 16

  function Effective(alignment: nat): nat {
    if alignment < MAX_ALIGNMENT then MAX_ALIGNMENT else alignment
  }

  /** The number of bytes asked of `malloc`. */
  function MaxSize(size: nat, alignment: nat): nat {
    size + Effective(alignment) + HEADER - 1
  }

  /** A block `malloc` may return: its bytes do not wrap around. */
  predicate Mallocable(raw: nat, size: nat, alignment: nat) {
    IsPowerOfTwo(alignment) && 0 < raw && raw + MaxSize(size, alignment) < WORD
  }

  lemma SixteenIsPowerOfTwo()
    ensures IsPowerOfTwo(16)
  {
    Pow2Passes(4);
    assert Pow2(4) == 2 * Pow2(3) == 4 * Pow2(2) == 8 * Pow2(1);
  }

  function UserPtr(raw: nat, size: nat, alignment: nat): (p: nat)
    requires Mallocable(raw, size, alignment)
    ensures raw + HEADER <= p && p + size <= raw + MaxSize(size, alignment)
    ensures p % Effective(alignment) == 0
  {
    SixteenIsPowerOfTwo();
    AlignUp(raw + HEADER, Effective(alignment))
  }

  /** The user's bytes start at the least address with room for the header that is a multiple of 16 and of any larger
      alignment asked for. */
  lemma UserPtrIsLeast(raw: nat, size: nat, alignment: nat, p: nat)
    requires Mallocable(raw, size, alignment)
    requires p % (if alignment < 16 then 16 else alignment) == 0 && raw + 8 <= p
    ensures UserPtr(raw, size, alignment) <= p
    ensures UserPtr(raw, size, alignment) % (if alignment < 16 then 16 else alignment) == 0
  {
    SixteenIsPowerOfTwo();
    AlignUpIsLeast(raw + HEADER, Effective(alignment));
  }

  /** What is asked of `malloc` is not a byte too much: at some raw address the user's bytes end with the block. */
  lemma MaxSizeIsTight(size: nat, alignment: nat)
    requires IsPowerOfTwo(alignment) && size + 2 * alignment + 64 < WORD
    ensures exists raw: nat ::
      Mallocable(raw, size, alignment) && UserPtr(raw, size, alignment) + size == raw + MaxSize(size, alignment)
  {
    SixteenIsPowerOfTwo();
    var e := Effective(alignment);
    var raw := e - 7;
    ModIs(2 * e, e, 2, 0);
    AlignUpIs(e + 1, e, 2 * e);
    assert Mallocable(raw, size, alignment) && UserPtr(raw, size, alignment) + size == raw + MaxSize(size, alignment);
  }

  lemma SmallPower(a: nat)
    requires IsPowerOfTwo(a) && a < 16
    ensures a == 1 || a == 2 || a == 4 || a == 8
  {
    PowerSplit(a);
  }

  /** Rounding a small power of two up to 16 still honours it. */
  lemma SmallPowersDivide16(a: nat, p: nat)
    requires IsPowerOfTwo(a) && p % Effective(a) == 0
    ensures p % a == 0
  {
    if a < 16 {
      SmallPower(a);
      MultipleOf16(p);
    }
  }

  lemma MultipleOf16(p: nat)
    requires p % 16 == 0
    ensures p % 2 == p % 4 == p % 8 == 0
  {
    var q := p / 16;
    ModIs(p, 8, 2 * q, 0);
    ModIs(p, 4, 4 * q, 0);
    ModIs(p, 2, 8 * q, 0);
  }

  /** An outstanding block: what malloc gave, and what the user got. */
  datatype Block = Block(raw: nat, user: nat, size: nat, alignment: nat)

  datatype State = State(headers: map<nat, nat>, live: seq<Block>)

  function ReserveStep(s: State, raw: nat, size: nat, alignment: nat): State
    requires Mallocable(raw, size, alignment)
  {
    var user := UserPtr(raw, size, alignment);
    State(Store(s.headers, user - HEADER, HEADER, raw), s.live + [Block(raw, user, size, alignment)])
  }

  /** The address `cmalloc_release` frees, read from the header below the user pointer. */
  function RawOf(headers: map<nat, nat>, user: nat): Option<nat>
    requires HEADER <= user
  {
    if user - HEADER in headers then Some(headers[user - HEADER]) else None
  }

  function Extent(b: Block): nat {
    b.raw + MaxSize(b.size, b.alignment)
  }

  /** Header and user range of a block fit its malloc block, and the user range is aligned as asked. */
  ghost predicate Placed(b: Block) {
    && b.raw <= b.user - HEADER && b.user + b.size <= Extent(b)
    && b.alignment > 0 && b.user % b.alignment == 0
  }

  ghost predicate Invariant(s: State) {
    && (forall i :: 0 <= i < |s.live| ==> Placed(s.live[i]) && RawOf(s.headers, s.live[i].user) == Some(s.live[i].raw))
    && (forall i, j :: 0 <= i < |s.live| && 0 <= j < |s.live| && i != j ==>
      Extent(s.live[i]) <= s.live[j].raw || Extent(s.live[j]) <= s.live[i].raw)
  }

  /** `malloc` hands out blocks disjoint from all outstanding ones. */
  ghost predicate Disjoint(s: State, raw: nat, size: nat, alignment: nat) {
    forall i :: 0 <= i < |s.live| ==>
      Extent(s.live[i]) <= raw || raw + MaxSize(size, alignment) <= s.live[i].raw
  }

  /** Reserve, release, and the owner of a block writing one of its bytes. */
  datatype Op = ReserveOp(raw: nat, size: nat, alignment: nat) | ReleaseOp(i: nat) | WriteOp(i: nat, at: nat)

  ghost predicate Enabled(s: State, op: Op) {
    match op
    case ReserveOp(raw, size, alignment) => Mallocable(raw, size, alignment) && Disjoint(s, raw, size, alignment)
    case ReleaseOp(i) => i < |s.live|
    case WriteOp(i, at) => i < |s.live| && s.live[i].user <= at < s.live[i].user + s.live[i].size
  }

  ghost function Step(s: State, op: Op): State
    requires Enabled(s, op)
  {
    match op
    case ReserveOp(raw, size, alignment) => ReserveStep(s, raw, size, alignment)
    case ReleaseOp(i) => s.(live := s.live[..i] + s.live[i + 1..])
    case WriteOp(i, at) => s.(headers := Scribble(s.headers, at, at + 1, HEADER))
  }

  lemma ReserveKeepsInvariant(s: State, raw: nat, size: nat, alignment: nat)
    requires Invariant(s) && Mallocable(raw, size, alignment) && Disjoint(s, raw, size, alignment)
    ensures Invariant(ReserveStep(s, raw, size, alignment))
  {
    var user := UserPtr(raw, size, alignment);
    var s' := ReserveStep(s, raw, size, alignment);
    SmallPowersDivide16(alignment, user);
    forall i | 0 <= i < |s'.live|
      ensures Placed(s'.live[i]) && RawOf(s'.headers, s'.live[i].user) == Some(s'.live[i].raw)
    {
      if i < |s.live| {
        assert s'.live[i] == s.live[i];
        assert Placed(s.live[i]) && RawOf(s.headers, s.live[i].user) == Some(s.live[i].raw);
      }
    }
  }

  lemma WriteKeepsInvariant(s: State, i: nat, at: nat)
    requires Invariant(s) && Enabled(s, WriteOp(i, at))
    ensures Invariant(Step(s, WriteOp(i, at)))
  {
    var s' := Step(s, WriteOp(i, at));
    forall j | 0 <= j < |s.live|
      ensures RawOf(s'.headers, s.live[j].user) == Some(s.live[j].raw)
    {
      assert Placed(s.live[i]) && Placed(s.live[j]) && RawOf(s.headers, s.live[j].user) == Some(s.live[j].raw);
    }
  }

  lemma StepKeepsInvariant(s: State, op: Op)
    requires Invariant(s) && Enabled(s, op)
    ensures Invariant(Step(s, op))
  {
    match op
    case ReserveOp(raw, size, alignment) => ReserveKeepsInvariant(s, raw, size, alignment);
    case ReleaseOp(_) =>
    case WriteOp(i, at) => WriteKeepsInvariant(s, i, at);
  }

  ghost predicate EnabledRun(s: State, ops: seq<Op>)
    decreases |ops|
  {
    ops == [] || (Enabled(s, ops[0]) && EnabledRun(Step(s, ops[0]), ops[1..]))
  }

  ghost function Run(s: State, ops: seq<Op>): State
    requires EnabledRun(s, ops)
    decreases |ops|
  {
    if ops == [] then s else Run(Step(s, ops[0]), ops[1..])
  }

  /** Over every run, whatever users write to their blocks, each outstanding block is in bounds and aligned,
      and releasing it frees exactly the address malloc returned for it. */
  lemma {:induction false} ReleaseRecoversRaw(s: State, ops: seq<Op>)
    requires Invariant(s) && EnabledRun(s, ops)
    ensures Invariant(Run(s, ops))
    ensures var last := Run(s, ops); forall i :: 0 <= i < |last.live| ==>
      Placed(last.live[i]) && RawOf(last.headers, last.live[i].user) == Some(last.live[i].raw)
    decreases |ops|
  {
    if ops != [] {
      StepKeepsInvariant(s, ops[0]);
      ReleaseRecoversRaw(Step(s, ops[0]), ops[1..]);
    }
  }

  class CmallocSource {
    var headers: map<nat, nat>   // the headers in the heap
    ghost var live: seq<Block>

    ghost function Abstract(): State
      reads this
    {
      State(headers, live)
    }

    constructor ()
      ensures Abstract() == State(map[], []) && Invariant(Abstract())
    {
      headers, live := map[], [];
    }

    /** `cmalloc_reserve`; `malloced` is what `malloc(MaxSize(size, alignment))` returned. */
    method Reserve(size: nat, alignment: nat, malloced: Option<nat>) returns (ptr: Option<nat>)
      requires Invariant(Abstract())
      requires malloced.Some? ==> Enabled(Abstract(), ReserveOp(malloced.value, size, alignment))
      modifies this
      ensures Invariant(Abstract())
      ensures malloced.None? ==> ptr.None? && Abstract() == old(Abstract())
      ensures malloced.Some? ==>
        && Abstract() == Step(old(Abstract()), ReserveOp(malloced.value, size, alignment))
        && ptr.Some? && live == old(live) + [Block(malloced.value, ptr.value, size, alignment)]
    {
      var effective := if alignment < MAX_ALIGNMENT then MAX_ALIGNMENT else alignment;
      if malloced.None? {
        return None;
      }
      ghost var s := Abstract();
      ReserveKeepsInvariant(s, malloced.value, size, alignment);
      SixteenIsPowerOfTwo();
      var aligned := AlignUp(malloced.value + HEADER, effective);
      assert aligned == UserPtr(malloced.value, size, alignment);
      headers := Store(headers, aligned - HEADER, HEADER, malloced.value);
      live := live + [Block(malloced.value, aligned, size, alignment)];
      assert Abstract() == ReserveStep(s, malloced.value, size, alignment);
      return Some(aligned);
    }

    /** `cmalloc_release` of the `i`th outstanding block: the address passed to `free`. */
    method Release(ptr: nat, ghost i: nat) returns (freed: nat)
      requires Invariant(Abstract()) && i < |live| && ptr == live[i].user
      modifies this`live
      ensures Invariant(Abstract()) && Abstract() == Step(old(Abstract()), ReleaseOp(i))
      ensures freed == old(live)[i].raw && live == old(live)[..i] + old(live)[i + 1..]
    {
      StepKeepsInvariant(Abstract(), ReleaseOp(i));
      freed := headers[ptr - HEADER];
      live := live[..i] + live[i + 1..];
    }
  }
}
