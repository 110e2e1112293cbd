/** The growable array, updating its buffer in place, with the element-lifetime discipline made explicit:
    a slot is raw memory or holds a live element, and every callback says which it needs. */
module DynArrays {
  import opened Align
  import opened GrowthPolicy

  datatype Cell<+T> = Raw | Live(value: T)

  /** The callbacks an element policy provides; plain data has no policy at all. */
  datatype Lifetime = Pod | Policy(ctor: bool, dtor: bool, copy: bool, move: bool) {
    /** Some way of carrying an element from one slot to another exists. */
    predicate Transferable() { Pod? || move || copy }

    predicate Moves() { Policy? && move }

    /** The policies for which the array accounts for every construction and destruction. */
    predicate Managed() { Policy? && ctor && dtor && move }
  }

  /** The prefix `[0, n)` of a buffer is live and the rest is raw. */
  ghost predicate LivePrefix<T>(b: seq<Cell<T>>, n: nat) {
    forall i :: 0 <= i < |b| ==> (b[i].Live? <==> i < n)
  }

  // ---- Runs, on sequences ----

  datatype Op<+T> =
    | PushOp(value: T, mem: bool)
    | InsertOp(index: nat, value: T, mem: bool)
    | AppendOp(values: seq<T>, mem: bool)
    | PopOp
    | RemoveOp(index: nat)
    | ClearOp
    | ReserveOp(n: nat, mem: bool)
    | ShrinkOp(mem: bool)

  /** What an array of live elements amounts to. */
  datatype State<+T> = State(elements: seq<T>, growth: Growth)

  /** What the asserts, and for shrinking the null callbacks, demand of a caller. */
  predicate Enabled<T>(l: Lifetime, s: State<T>, op: Op<T>) {
    match op
    case InsertOp(index, _, _) => index <= |s.elements|
    case RemoveOp(index) => index < |s.elements|
    case ShrinkOp(mem) =>
      s.growth.size == s.growth.capacity || s.growth.size == 0 || !mem || l.Transferable()
    case _ => true
  }

  predicate Succeeds<T>(l: Lifetime, g: Growth, op: Op<T>) {
    match op
    case PushOp(_, mem) => l.Transferable() && (g.size < g.capacity || mem)
    case InsertOp(_, _, mem) => l.Transferable() && (g.size < g.capacity || mem)
    case AppendOp(values, mem) => values == [] || (l.Transferable() && (g.size + |values| <= g.capacity || mem))
    case PopOp => true
    case RemoveOp(_) => l.Transferable()
    case ClearOp => true
    case ReserveOp(n, mem) => n <= g.capacity || (l.Transferable() && mem)
    case ShrinkOp(mem) => g.size == 0 || g.size == g.capacity || mem
  }

  function SeqStep<T>(xs: seq<T>, op: Op<T>): seq<T> {
    match op
    case PushOp(value, _) => xs + [value]
    case InsertOp(index, value, _) => if index <= |xs| then xs[..index] + [value] + xs[index..] else xs
    case AppendOp(values, _) => xs + values
    case PopOp => if xs == [] then [] else xs[..|xs| - 1]
    case RemoveOp(index) => if index < |xs| then xs[..index] + xs[index + 1..] else xs
    case ClearOp => []
    case ReserveOp(_, _) => xs
    case ShrinkOp(_) => xs
  }

  function AccountStep<T>(g: Growth, op: Op<T>): Growth {
    match op
    case PushOp(_, mem) => GrowthStep(g, Add(1, mem))
    case InsertOp(_, _, mem) => GrowthStep(g, Add(1, mem))
    case AppendOp(values, mem) => if values == [] then g else GrowthStep(g, Add(|values|, mem))
    case PopOp => GrowthStep(g, Drop(1))
    case RemoveOp(_) => GrowthStep(g, Drop(1))
    case ClearOp => GrowthStep(g, Drop(g.size))
    case ReserveOp(n, _) => if n <= g.capacity then g else g.(capacity := n, relocated := g.relocated + g.size)
    case ShrinkOp(_) => g.(capacity := g.size)
  }

  /** A call that fails changes nothing. */
  function Step<T>(l: Lifetime, s: State<T>, op: Op<T>): State<T> {
    if Succeeds(l, s.growth, op) then State(SeqStep(s.elements, op), AccountStep(s.growth, op)) else s
  }

  function Run<T>(l: Lifetime, s: State<T>, ops: seq<Op<T>>): State<T>
    decreases |ops|
  {
    if ops == [] then s else Run(l, Step(l, s, ops[0]), ops[1..])
  }

  predicate EnabledRun<T>(l: Lifetime, s: State<T>, ops: seq<Op<T>>)
    decreases |ops|
  {
    ops == [] || (Enabled(l, s, ops[0]) && EnabledRun(l, Step(l, s, ops[0]), ops[1..]))
  }

  /** No explicit change of capacity. */
  predicate AddsAndDrops<T>(ops: seq<Op<T>>) {
    forall i :: 0 <= i < |ops| ==> !ops[i].ReserveOp? && !ops[i].ShrinkOp?
  }

  /** Over every run of adding and dropping, growth stays amortised. */
  lemma {:induction false} RunStaysAmortised<T>(l: Lifetime, s: State<T>, ops: seq<Op<T>>, c: nat)
    requires Amortised(s.growth, c)
    requires AddsAndDrops(ops)
    ensures Amortised(Run(l, s, ops).growth, c)
    decreases |ops|
  {
    if ops != [] {
      var op, g := ops[0], s.growth;
      assert AddsAndDrops(ops[1..]);
      AddKeepsAmortised(g, c, match op
        case PushOp(_, mem) => Add(1, mem)
        case InsertOp(_, _, mem) => Add(1, mem)
        case AppendOp(values, mem) => Add(|values|, mem)
        case ClearOp => Drop(g.size)
        case _ => Drop(1));
      RunStaysAmortised(l, Step(l, s, op), ops[1..], c);
    }
  }

  function Elements<T>(xs: seq<T>): (cells: seq<Cell<T>>)
    ensures |cells| == |xs| && forall i :: 0 <= i < |xs| ==> cells[i] == Live(xs[i])
  {
    seq(|xs|, i requires 0 <= i < |xs| => Live(xs[i]))
  }

  /** What a successful call does to the cells. */
  function CellStep<T>(cells: seq<Cell<T>>, op: Op<T>): seq<Cell<T>> {
    match op
    case PushOp(value, _) => cells + [Live(value)]
    case InsertOp(index, value, _) =>
      if index <= |cells| then cells[..index] + [Live(value)] + cells[index..] else cells
    case AppendOp(values, _) => cells + Elements(values)
    case PopOp => if cells == [] then [] else cells[..|cells| - 1]
    case RemoveOp(index) => if index < |cells| then cells[..index] + cells[index + 1..] else cells
    case ClearOp => []
    case _ => cells
  }

  lemma StepElements<T>(xs: seq<T>, op: Op<T>)
    ensures CellStep(Elements(xs), op) == Elements(SeqStep(xs, op))
  {
  }

  class DynArray<T> {
    var lifetime: Lifetime
    var buffer: array?<Cell<T>>
    var size: nat
    var capacity: nat
    var blank: T                 // what the policy's `ctor` builds
    ghost var relocated: nat     // elements relocated by growing
    ghost var added: nat         // elements added by push, insert and append

    ghost predicate Valid()
      reads this, buffer
    {
      && size <= capacity
      && (buffer == null ==> capacity == 0)
      && (buffer != null ==> buffer.Length == capacity && (lifetime.Managed() ==> LivePrefix(buffer[..], size)))
    }

    /** The elements. */
    ghost function Cells(): seq<Cell<T>>
      requires Valid()
      reads this, buffer
    {
      if buffer == null then [] else buffer[..size]
    }

    ghost function Account(): Growth
      reads this
    {
      Growth(size, capacity, relocated, added)
    }

    constructor (lifetime: Lifetime, capacity: nat, blank: T)
      ensures Valid() && this.lifetime == lifetime && Cells() == []
      ensures Account() == Growth(0, capacity, 0, 0) && (buffer != null ==> fresh(buffer))
    {
      this.lifetime, this.capacity, this.size, this.blank := lifetime, capacity, 0, blank;
      buffer := null;
      relocated, added := 0, 0;
      new;
      if capacity != 0 {
        buffer := new Cell<T>[capacity](_ => Raw);
      }
    }

    // ---- Policy callbacks ----

    /** `move`: the destination must be raw, and the source is left destroyed. */
    method Move(dst: array<Cell<T>>, i: nat, src: array<Cell<T>>, j: nat)
      requires i < dst.Length && j < src.Length && (dst == src ==> i != j)
      requires lifetime.Managed() ==> dst[i].Raw? && src[j].Live?
      modifies dst, src
      ensures dst == src ==> dst[..] == old(dst[..])[i := old(src[j])][j := Raw]
      ensures dst != src ==> dst[..] == old(dst[..])[i := old(src[j])] && src[..] == old(src[..])[j := Raw]
    {
      dst[i] := src[j];
      src[j] := Raw;
    }

    /** `copy`: the source must be live and stays so. */
    method Copy(dst: array<Cell<T>>, i: nat, src: array<Cell<T>>, j: nat)
      requires i < dst.Length && j < src.Length
      requires lifetime.Managed() ==> dst[i].Raw? && src[j].Live?
      modifies dst
      ensures dst[..] == old(dst[..])[i := old(src[j])]
    {
      dst[i] := src[j];
    }

    /** `dtor`: the element must be live. */
    method Dtor(b: array<Cell<T>>, i: nat)
      requires i < b.Length
      requires lifetime.Managed() ==> b[i].Live?
      modifies b
      ensures b[..] == old(b[..])[i := Raw]
    {
      b[i] := Raw;
    }

    /** `ctor`: the slot must be raw. */
    method Ctor(b: array<Cell<T>>, i: nat)
      requires i < b.Length
      requires lifetime.Managed() ==> b[i].Raw?
      modifies b
      ensures b[..] == old(b[..])[i := Live(blank)]
    {
      b[i] := Live(blank);
    }

    /** `allocator_free`: no live element may be lost with its buffer. */
    method Free(b: array<Cell<T>>)
      requires lifetime.Managed() ==> LivePrefix(b[..], 0)
    {
    }

    // ---- Capacity ----

    /** The relocation loops of `dynarray_reserve` and `dynarray_shrink_to_fit`. */
    method Relocate(dst: array<Cell<T>>)
      requires Valid() && buffer != null && dst != buffer && lifetime.Transferable()
      requires size <= dst.Length && LivePrefix(dst[..], 0)
      modifies dst, buffer
      ensures dst[..size] == old(buffer[..size])
      ensures lifetime.Managed() ==> LivePrefix(dst[..], size) && LivePrefix(buffer[..], 0)
    {
      if lifetime.Pod? {
        forall k | 0 <= k < size { dst[k] := buffer[k]; }
        return;
      }
      var i := 0;
      while i < size
        invariant 0 <= i <= size
        invariant dst[..i] == old(buffer[..i])
        invariant forall k :: i <= k < size ==> buffer[k] == old(buffer[k])
        invariant forall k :: i <= k < dst.Length ==> dst[k].Raw?
        invariant lifetime.Managed() ==> (forall k :: 0 <= k < buffer.Length ==> (buffer[k].Live? <==> i <= k < size))
      {
        if lifetime.move {
          Move(dst, i, buffer, i);
        } else {
          Copy(dst, i, buffer, i);
        }
        i := i + 1;
      }
      assert forall k :: 0 <= k < size ==> dst[..size][k] == old(buffer[..size])[k];
    }

    /** `dynarray_reserve`. */
    method Reserve(n: nat, mem: bool) returns (ok: bool)
      requires Valid()
      modifies this`buffer, this`capacity, this`relocated, buffer
      ensures Valid() && Cells() == old(Cells()) && (buffer == old(buffer) || fresh(buffer))
      ensures ok <==> n <= old(capacity) || ((lifetime.Pod? || lifetime.move || lifetime.copy) && mem)
      ensures !ok || n <= old(capacity) ==> Account() == old(Account())
      ensures ok && old(capacity) < n ==>
        Account() == old(Account()).(capacity := n, relocated := old(relocated) + size)
    {
      if n <= capacity { return true; }
      if lifetime.Policy? && !(lifetime.move || lifetime.copy) { return false; }
      if !mem { return false; }
      var newBuffer := new Cell<T>[n](_ => Raw);
      if buffer == null {
        buffer := newBuffer;
        capacity := n;
        return true;
      }
      Relocate(newBuffer);
      Free(buffer);
      relocated := relocated + size;
      buffer := newBuffer;
      capacity := n;
      return true;
    }

    /** `dynarray_ensure_capacity`: doubles until `need` fits. */
    method EnsureCapacity(need: nat, mem: bool) returns (ok: bool)
      requires Valid()
      modifies this`buffer, this`capacity, this`relocated, buffer
      ensures Valid() && Cells() == old(Cells()) && (buffer == old(buffer) || fresh(buffer))
      ensures ok <==> need <= old(capacity) || ((lifetime.Pod? || lifetime.move || lifetime.copy) && mem)
      ensures !ok || need <= old(capacity) ==> Account() == old(Account())
      ensures ok && old(capacity) < need ==>
        Account()
        == old(Account()).(capacity := TargetCapacity(old(capacity), need), relocated := old(relocated) + size)
      ensures ok && old(capacity) < need ==>
        exists k: nat :: FirstFitting(if old(capacity) == 0 then 1 else old(capacity), need, k)
          && capacity == (if old(capacity) == 0 then 1 else old(capacity)) * Pow2(k)
      ensures ok ==> need <= capacity
    {
      LeastDoublingThatFits(capacity, need);
      var target := capacity;
      while need > target
        invariant capacity <= target && (need <= capacity ==> target == capacity)
        invariant TargetCapacity(capacity, need) == TargetCapacity(target, need)
        decreases need - target
      {
        target := if target == 0 then 1 else 2 * target;
      }
      ok := Reserve(target, mem);
    }

    /** `dynarray_shrink_to_fit`; once it comes to relocating, the policy must be able to. */
    method ShrinkToFit(mem: bool) returns (ok: bool)
      requires Valid() && (size == capacity || size == 0 || !mem || lifetime.Transferable())
      modifies this`buffer, this`capacity, buffer
      ensures Valid() && Cells() == old(Cells()) && (buffer == old(buffer) || buffer == null || fresh(buffer))
      ensures ok <==> size == 0 || size == old(capacity) || mem
      ensures capacity == if ok then size else old(capacity)
    {
      if size == capacity { return true; }
      if size == 0 {
        Free(buffer);
        buffer := null;
        capacity := 0;
        return true;
      }
      if !mem { return false; }
      var newBuffer := new Cell<T>[size](_ => Raw);
      Relocate(newBuffer);
      Free(buffer);
      buffer := newBuffer;
      capacity := size;
      return true;
    }

    /** `dynarray_resize`: never reallocates; keeps the common prefix. */
    method Resize(n: nat) returns (ok: bool)
      requires Valid()
      modifies this`size, buffer
      ensures Valid()
      ensures ok <==> n == old(size) || n <= capacity
      ensures size == if ok then n else old(size)
      ensures ok && n <= old(size) ==> Cells() == old(Cells())[..n]
      ensures ok && n > old(size) ==> Cells()[..old(size)] == old(Cells())
      ensures ok && lifetime.Policy? && lifetime.ctor ==> forall k :: old(size) <= k < n ==> Cells()[k] == Live(blank)
      ensures !ok ==> Cells() == old(Cells())
    {
      if n == size { return true; }
      if n > capacity { return false; }
      var oldSize := size;
      size := n;
      if n < oldSize {
        if lifetime.Pod? || !lifetime.dtor { return true; }
        DtorRange(n, oldSize);
        return true;
      }
      if lifetime.Pod? || !lifetime.ctor { return true; }
      CtorRange(oldSize, n);
      assert buffer[..oldSize] == old(buffer[..oldSize]);
      return true;
    }

    /** The constructor loop of resize. */
    method CtorRange(lo: nat, hi: nat)
      requires buffer != null && lo <= hi <= buffer.Length
      requires lifetime.Managed() ==> forall k :: lo <= k < hi ==> buffer[k].Raw?
      modifies buffer
      ensures forall k :: 0 <= k < buffer.Length ==> buffer[k] == if lo <= k < hi then Live(blank) else old(buffer[k])
    {
      var i := lo;
      while i < hi
        invariant lo <= i <= hi
        invariant forall k :: 0 <= k < buffer.Length ==>
          buffer[k] == if lo <= k < i then Live(blank) else old(buffer[k])
      {
        Ctor(buffer, i);
        i := i + 1;
      }
    }

    /** The destructor loops of resize and clear. */
    method DtorRange(lo: nat, hi: nat)
      requires buffer != null && lo <= hi <= buffer.Length
      requires lifetime.Managed() ==> forall k :: lo <= k < hi ==> buffer[k].Live?
      modifies buffer
      ensures forall k :: 0 <= k < buffer.Length ==> buffer[k] == if lo <= k < hi then Raw else old(buffer[k])
    {
      var i := lo;
      while i < hi
        invariant lo <= i <= hi
        invariant forall k :: 0 <= k < buffer.Length ==> buffer[k] == if lo <= k < i then Raw else old(buffer[k])
      {
        Dtor(buffer, i);
        i := i + 1;
      }
    }

    // ---- Modifiers ----

    /** The element a caller passes in, afterwards: `move` invalidates it. */
    ghost function Handed(c: Cell<T>, ok: bool): Cell<T>
      reads this`lifetime
    {
      if ok && lifetime.Moves() then Raw else c
    }

    /** `dynarray_push_unchecked`, of `src[j]`. */
    method PushUnchecked(src: array<Cell<T>>, j: nat) returns (ok: bool)
      requires Valid() && size < capacity && src != buffer && j < src.Length
      requires lifetime.Managed() ==> src[j].Live?
      modifies this`size, this`added, buffer, src
      ensures Valid() && ok == lifetime.Transferable()
      ensures Cells() == if ok then old(Cells()) + [old(src[j])] else old(Cells())
      ensures Account()
        == if ok then old(Account()).(size := old(size) + 1, added := old(added) + 1) else old(Account())
      ensures src[..] == old(src[..])[j := Handed(old(src[j]), ok)]
    {
      if lifetime.Pod? {
        buffer[size] := src[j];
      } else if lifetime.move {
        Move(buffer, size, src, j);
      } else if lifetime.copy {
        Copy(buffer, size, src, j);
      } else {
        return false;
      }
      size := size + 1;
      added := added + 1;
      return true;
    }

    /** `dynarray_push`, of `src[j]`. */
    method Push(src: array<Cell<T>>, j: nat, mem: bool) returns (ok: bool)
      requires Valid() && src != buffer && j < src.Length
      requires lifetime.Managed() ==> src[j].Live?
      modifies this`buffer, this`size, this`capacity, this`relocated, this`added, buffer, src
      ensures Valid() && (buffer == old(buffer) || fresh(buffer))
      ensures ok <==> (lifetime.Pod? || lifetime.move || lifetime.copy) && (old(size) < old(capacity) || mem)
      ensures ok && old(size) < old(capacity) ==> capacity == old(capacity)
      ensures ok && old(size) == old(capacity) ==> capacity == if old(capacity) == 0 then 1 else 2 * old(capacity)
      ensures ok && lifetime.Policy? && lifetime.move ==> src[j].Raw?
      ensures Cells() == if ok then old(Cells()) + [old(src[j])] else old(Cells())
      ensures lifetime.Transferable() ==> Account() == GrowthStep(old(Account()), Add(1, mem))
      ensures !ok ==> Account() == old(Account())
      ensures src[..] == old(src[..])[j := Handed(old(src[j]), ok)]
    {
      LeastDoublingThatFits(capacity, size + 1);
      var enough := EnsureCapacity(size + 1, mem);
      if !enough { return false; }
      ok := PushUnchecked(src, j);
    }

    /** `dynarray_append`, of `data[..count]`. */
    method Append(data: array<Cell<T>>, count: nat, mem: bool) returns (ok: bool)
      requires Valid() && data != buffer && count <= data.Length
      requires lifetime.Managed() ==> forall k :: 0 <= k < count ==> data[k].Live?
      modifies this`buffer, this`size, this`capacity, this`relocated, this`added, buffer, data
      ensures Valid() && (buffer == old(buffer) || fresh(buffer))
      ensures ok <==>
        count == 0 || ((lifetime.Pod? || lifetime.move || lifetime.copy) && (old(size) + count <= old(capacity) || mem))
      ensures ok && lifetime.Policy? && lifetime.move ==> forall k :: 0 <= k < count ==> data[k].Raw?
      ensures old(size) + count <= old(capacity) ==> capacity == old(capacity)
      ensures Cells() == if ok then old(Cells()) + old(data[..count]) else old(Cells())
      ensures lifetime.Transferable() ==> Account() == GrowthStep(old(Account()), Add(count, mem))
      ensures count == 0 ==> Account() == old(Account())
      ensures !ok ==> Account() == old(Account())
      ensures forall k :: 0 <= k < data.Length ==>
        data[k] == if k < count then Handed(old(data[k]), ok) else old(data[k])
    {
      if count == 0 { return true; }
      var enough := EnsureCapacity(size + count, mem);
      if !enough { return false; }
      ok := CopyIn(data, count);
    }

    /** The block copy of `dynarray_append` for plain data. */
    method CopyBlock(data: array<Cell<T>>, count: nat)
      requires Valid() && lifetime.Pod? && size + count <= capacity && 0 < count <= data.Length && data != buffer
      modifies this`size, this`added, buffer
      ensures Valid() && Cells() == old(Cells()) + data[..count]
      ensures Account() == old(Account()).(size := old(size) + count, added := old(added) + count)
    {
      forall k | 0 <= k < count { buffer[size + k] := data[k]; }
      assert buffer[..size + count] == buffer[..size] + data[..count];
      size := size + count;
      added := added + count;
    }

    /** The block copy of `dynarray_append`, or its element loop. */
    method CopyIn(data: array<Cell<T>>, count: nat) returns (ok: bool)
      requires Valid() && size + count <= capacity && 0 < count <= data.Length && data != buffer
      requires lifetime.Managed() ==> forall k :: 0 <= k < count ==> data[k].Live?
      modifies this`size, this`added, buffer, data
      ensures Valid() && ok == lifetime.Transferable()
      ensures Cells() == if ok then old(Cells()) + old(data[..count]) else old(Cells())
      ensures Account()
        == if ok then old(Account()).(size := old(size) + count, added := old(added) + count) else old(Account())
      ensures forall k :: 0 <= k < data.Length ==>
        data[k] == if k < count then Handed(old(data[k]), ok) else old(data[k])
    {
      if lifetime.Pod? {
        CopyBlock(data, count);
        return true;
      }
      var i := 0;
      while i < count
        invariant 0 <= i <= count && Valid() && (i > 0 ==> lifetime.Transferable())
        invariant Cells() == old(Cells()) + old(data[..i])
        invariant Account() == old(Account()).(size := old(size) + i, added := old(added) + i)
        invariant forall k :: 0 <= k < data.Length ==>
          data[k] == if k < i then Handed(old(data[k]), true) else old(data[k])
      {
        var pushed := PushUnchecked(data, i);
        if !pushed { return false; }
        assert old(data[..i + 1]) == old(data[..i]) + [old(data[i])];
        i := i + 1;
      }
      return true;
    }

    /** `dynarray_pop`. */
    method Pop()
      requires Valid()
      modifies this`size, buffer
      ensures Valid() && Account() == GrowthStep(old(Account()), Drop(1))
      ensures Cells() == if old(size) == 0 then [] else old(Cells())[..old(size) - 1]
    {
      if size == 0 { return; }
      if lifetime.Policy? && lifetime.dtor {
        Dtor(buffer, size - 1);
      }
      size := size - 1;
    }

    /** The shift of `dynarray_insert`: everything from `index` on moves up one slot. */
    method ShiftUp(index: nat)
      requires Valid() && index <= size < capacity && lifetime.Transferable()
      modifies buffer
      ensures forall k :: 0 <= k < index ==> buffer[k] == old(buffer[k])
      ensures forall k :: index < k <= size ==> buffer[k] == old(buffer[k - 1])
      ensures lifetime.Managed() ==> forall k :: 0 <= k < capacity ==> (buffer[k].Live? <==> k <= size && k != index)
    {
      if lifetime.Pod? {
        forall k | index < k <= size { buffer[k] := buffer[k - 1]; }
        return;
      }
      var i := size;
      while i > index
        invariant index <= i <= size
        invariant forall k :: 0 <= k < i ==> buffer[k] == old(buffer[k])
        invariant forall k :: i < k <= size ==> buffer[k] == old(buffer[k - 1])
        invariant lifetime.Managed() ==> forall k :: 0 <= k < capacity ==> (buffer[k].Live? <==> k <= size && k != i)
      {
        if lifetime.move {
          Move(buffer, i, buffer, i - 1);
        } else {
          Copy(buffer, i, buffer, i - 1);
        }
        i := i - 1;
      }
    }

    /** `dynarray_insert`, of `src[j]` before `index`. */
    method Insert(index: nat, src: array<Cell<T>>, j: nat, mem: bool) returns (ok: bool)
      requires Valid() && index <= size && src != buffer && j < src.Length
      requires lifetime.Managed() ==> src[j].Live?
      modifies this`buffer, this`size, this`capacity, this`relocated, this`added, buffer, src
      ensures Valid() && (buffer == old(buffer) || fresh(buffer))
      ensures ok <==> (lifetime.Pod? || lifetime.move || lifetime.copy) && (old(size) < old(capacity) || mem)
      ensures ok && old(size) < old(capacity) ==> capacity == old(capacity)
      ensures ok && old(size) == old(capacity) ==> capacity == if old(capacity) == 0 then 1 else 2 * old(capacity)
      ensures ok && lifetime.Policy? && lifetime.move ==> src[j].Raw?
      ensures Cells() == if ok then old(Cells())[..index] + [old(src[j])] + old(Cells())[index..] else old(Cells())
      ensures lifetime.Transferable() ==> Account() == GrowthStep(old(Account()), Add(1, mem))
      ensures !ok ==> Account() == old(Account())
      ensures src[..] == old(src[..])[j := Handed(old(src[j]), ok)]
    {
      LeastDoublingThatFits(capacity, size + 1);
      var enough := EnsureCapacity(size + 1, mem);
      if !enough { return false; }
      ghost var cells, x := Cells(), src[j];
      assert cells == old(Cells()) && x == old(src[j]);
      ok := InsertUnchecked(index, src, j);
      assert Cells() == if ok then cells[..index] + [x] + cells[index..] else cells;
    }

    /** `dynarray_insert` once there is room. */
    method InsertUnchecked(index: nat, src: array<Cell<T>>, j: nat) returns (ok: bool)
      requires Valid() && index <= size < capacity && src != buffer && j < src.Length
      requires lifetime.Managed() ==> src[j].Live?
      modifies this`size, this`added, buffer, src
      ensures Valid() && ok == lifetime.Transferable()
      ensures Cells() == if ok then old(Cells())[..index] + [old(src[j])] + old(Cells())[index..] else old(Cells())
      ensures Account()
        == if ok then old(Account()).(size := old(size) + 1, added := old(added) + 1) else old(Account())
      ensures src[..] == old(src[..])[j := Handed(old(src[j]), ok)]
    {
      if !lifetime.Transferable() { return false; }
      OpenGapAndPut(index, src, j);
      size := size + 1;
      added := added + 1;
      return true;
    }

    /** The in-place part of `dynarray_insert`: shift, then write. */
    method OpenGapAndPut(index: nat, src: array<Cell<T>>, j: nat)
      requires Valid() && index <= size < capacity && lifetime.Transferable() && src != buffer && j < src.Length
      requires lifetime.Managed() ==> src[j].Live?
      modifies buffer, src
      ensures buffer[..size + 1] == old(buffer[..index]) + [old(src[j])] + old(buffer[index..size])
      ensures lifetime.Managed() ==> LivePrefix(buffer[..], size + 1)
      ensures src[..] == old(src[..])[j := Handed(old(src[j]), true)]
    {
      ShiftUp(index);
      PutInGap(index, src, j);
      assert forall k :: 0 <= k < capacity ==> buffer[..][k] == buffer[k];
    }

    /** The last write of `dynarray_insert`, into the slot the shift vacated. */
    method PutInGap(index: nat, src: array<Cell<T>>, j: nat)
      requires buffer != null && index < buffer.Length && lifetime.Transferable() && src != buffer && j < src.Length
      requires lifetime.Managed() ==> buffer[index].Raw? && src[j].Live?
      modifies buffer, src
      ensures buffer[..] == old(buffer[..])[index := old(src[j])]
      ensures src[..] == old(src[..])[j := Handed(old(src[j]), true)]
    {
      if lifetime.Pod? {
        buffer[index] := src[j];
      } else if lifetime.move {
        Move(buffer, index, src, j);
      } else {
        if lifetime.dtor {
          Dtor(buffer, index);
        }
        Copy(buffer, index, src, j);
      }
    }

    /** The shift of `dynarray_remove`: everything after `index` moves down one slot. */
    method ShiftDown(index: nat)
      requires buffer != null && buffer.Length == capacity && index < size <= capacity
      requires lifetime.Transferable()
      requires lifetime.Managed() ==> forall k :: 0 <= k < capacity ==> (buffer[k].Live? <==> k < size && k != index)
      modifies buffer
      ensures forall k :: 0 <= k < index ==> buffer[k] == old(buffer[k])
      ensures forall k :: index <= k < size - 1 ==> buffer[k] == old(buffer[k + 1])
      ensures lifetime.Managed() ==> LivePrefix(buffer[..], size - 1)
    {
      if lifetime.Pod? {
        forall k | index <= k < size - 1 { buffer[k] := buffer[k + 1]; }
        return;
      }
      var i := index + 1;
      while i < size
        invariant index < i <= size
        invariant forall k :: 0 <= k < index ==> buffer[k] == old(buffer[k])
        invariant forall k :: index <= k < i - 1 ==> buffer[k] == old(buffer[k + 1])
        invariant forall k :: i <= k < size ==> buffer[k] == old(buffer[k])
        invariant lifetime.Managed() ==> forall k :: 0 <= k < capacity ==> (buffer[k].Live? <==> k < size && k != i - 1)
      {
        if lifetime.move {
          Move(buffer, i - 1, buffer, i);
        } else {
          Copy(buffer, i - 1, buffer, i);
        }
        i := i + 1;
      }
    }

    /** `dynarray_remove`. */
    method Remove(index: nat) returns (ok: bool)
      requires Valid() && index < size
      modifies this`size, buffer
      ensures Valid() && ok == (lifetime.Pod? || lifetime.move || lifetime.copy)
      ensures Cells() == if ok then old(Cells())[..index] + old(Cells())[index + 1..] else old(Cells())
      ensures Account() == if ok then GrowthStep(old(Account()), Drop(1)) else old(Account())
    {
      if !lifetime.Transferable() { return false; }
      TakeAndCloseGap(index);
      size := size - 1;
      return true;
    }

    /** The in-place part of `dynarray_remove`: destroy, then shift. */
    method TakeAndCloseGap(index: nat)
      requires Valid() && index < size && lifetime.Transferable()
      modifies buffer
      ensures buffer[..size - 1] == old(buffer[..index]) + old(buffer[index + 1..size])
      ensures lifetime.Managed() ==> LivePrefix(buffer[..], size - 1)
    {
      if lifetime.Policy? && lifetime.dtor {
        Dtor(buffer, index);
      }
      assert forall k :: 0 <= k < capacity ==> buffer[..][k] == buffer[k] && old(buffer[..])[k] == old(buffer[k]);
      ShiftDown(index);
      assert buffer[..size - 1] == old(buffer[..index]) + old(buffer[index + 1..size]);
      if lifetime.Policy? && !lifetime.move && lifetime.dtor {
        Dtor(buffer, size - 1);
        assert buffer[..size - 1] == buffer[..][..size - 1];
      }
    }

    /** `dynarray_clear`. */
    method Clear()
      requires Valid()
      modifies this`size, buffer
      ensures Valid() && Cells() == [] && Account() == GrowthStep(old(Account()), Drop(old(size)))
    {
      if lifetime.Policy? && lifetime.dtor && size > 0 {
        DtorRange(0, size);
      }
      size := 0;
    }

    /** `dynarray_move`: the old elements are destroyed, the buffer changes owner, the source is emptied. */
    method MoveFrom(src: DynArray<T>)
      requires src != this && Valid() && src.Valid() && (buffer == null || buffer != src.buffer)
      modifies this, buffer, src
      ensures Valid() && Cells() == old(src.Cells()) && lifetime == old(src.lifetime)
      ensures buffer == old(src.buffer) && capacity == old(src.capacity)
      ensures src.Valid() && src.buffer == null && src.size == src.capacity == 0 && src.lifetime == Pod
    {
      if buffer != null {
        Clear();
        Free(buffer);
      }
      buffer, size, capacity := src.buffer, src.size, src.capacity;
      lifetime, blank := src.lifetime, src.blank;
      src.buffer, src.size, src.capacity, src.lifetime := null, 0, 0, Pod;
    }

    // ---- Whole runs, in place ----

    /** The caller's elements, in an array of the caller's own. */
    method Hand(values: seq<T>) returns (src: array<Cell<T>>)
      ensures fresh(src) && src[..] == Elements(values) && src.Length == |values|
    {
      src := new Cell<T>[|values|](k requires 0 <= k < |values| => Live(values[k]));
    }

    /** One call that adds, or the success flag it returns without adding. */
    method ApplyAdding(op: Op<T>, ghost xs: seq<T>) returns (ok: bool)
      requires Valid() && Cells() == Elements(xs) && Enabled(lifetime, State(xs, Account()), op)
      requires op.PushOp? || op.InsertOp? || op.AppendOp?
      modifies this`buffer, this`size, this`capacity, this`relocated, this`added, buffer
      ensures Valid() && (buffer == old(buffer) || fresh(buffer))
      ensures ok == Succeeds(lifetime, old(Account()), op)
      ensures Cells() == if ok then CellStep(old(Cells()), op) else old(Cells())
      ensures Account() == if ok then AccountStep(old(Account()), op) else old(Account())
    {
      match op
      case PushOp(value, mem) =>
        var src := Hand([value]);
        ok := Push(src, 0, mem);
      case InsertOp(index, value, mem) =>
        var src := Hand([value]);
        ok := Insert(index, src, 0, mem);
      case AppendOp(values, mem) =>
        var src := Hand(values);
        assert src[..|values|] == Elements(values);
        ok := Append(src, |values|, mem);
    }

    /** One call, chosen by `op`. */
    method Apply(op: Op<T>, ghost xs: seq<T>) returns (ok: bool)
      requires Valid() && Cells() == Elements(xs) && Enabled(lifetime, State(xs, Account()), op)
      modifies this`buffer, this`size, this`capacity, this`relocated, this`added, buffer
      ensures Valid() && (buffer == old(buffer) || buffer == null || fresh(buffer))
      ensures ok == Succeeds(lifetime, old(Account()), op)
      ensures var next := Step(lifetime, State(xs, old(Account())), op);
        Cells() == Elements(next.elements) && Account() == next.growth
    {
      StepElements(xs, op);
      match op
      case PopOp =>
        Pop();
        ok := true;
      case RemoveOp(index) =>
        ok := Remove(index);
      case ClearOp =>
        Clear();
        ok := true;
      case ReserveOp(n, mem) =>
        ok := Reserve(n, mem);
      case ShrinkOp(mem) =>
        ok := ShrinkToFit(mem);
      case _ =>
        ok := ApplyAdding(op, xs);
    }

    /** A run of calls: the elements follow the run on sequences, and the live prefix is kept. From a fresh array and
        without explicit capacity changes, fewer than twice the elements added are relocated. */
    method ApplyAll(ops: seq<Op<T>>, ghost xs: seq<T>)
      requires Valid() && Cells() == Elements(xs) && EnabledRun(lifetime, State(xs, Account()), ops)
      modifies this`buffer, this`size, this`capacity, this`relocated, this`added, buffer
      ensures Valid() && (buffer == old(buffer) || buffer == null || fresh(buffer))
      ensures var last := Run(lifetime, State(xs, old(Account())), ops);
        Cells() == Elements(last.elements) && Account() == last.growth
      ensures old(size) == old(relocated) == old(added) == 0 && AddsAndDrops(ops) ==>
        relocated == 0 || relocated < 2 * added
      decreases |ops|
    {
      ghost var s := State(xs, Account());
      if size == relocated == added == 0 && AddsAndDrops(ops) {
        RunStaysAmortised(lifetime, s, ops, capacity);
      }
      if ops != [] {
        var _ := Apply(ops[0], xs);
        ApplyAll(ops[1..], Step(lifetime, s, ops[0]).elements);
      }
    }
  }
}
