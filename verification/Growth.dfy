/** The growth policy of a dynamic array: capacities double until the request fits, and over any run the
    elements relocated by growing stay below twice the elements added. */
module GrowthPolicy {
  import opened Align

  /** One turn of the doubling loop. */
  function Twice(c: nat): nat {
    if c == 0 then 1 else 2 * c
  }

  /** The capacity the doubling loop stops at when `need` elements must fit. */
  function TargetCapacity(c: nat, need: nat): (r: nat)
    decreases if need <= c then 0 else need - c
  {
    if need <= c then c else TargetCapacity(Twice(c), need)
  }

  /** `c` doubled `k` times is the first of the doublings of `c` that fits. */
  ghost predicate FirstFitting(c: nat, need: nat, k: nat) {
    need <= c * Pow2(k) && forall j :: 0 <= j < k ==> c * Pow2(j) < need
  }

  lemma {:induction false} DoubledFirst(c: nat, k: nat)
    requires k > 0
    ensures c * Pow2(k) == (2 * c) * Pow2(k - 1)
  {
    var p := Pow2(k - 1);
    assert Pow2(k) == 2 * p;
    assert c * (2 * p) == (2 * c) * p;
  }

  lemma {:induction false} DoublingsNeeded(c: nat, need: nat) returns (k: nat)
    requires c > 0
    ensures FirstFitting(c, need, k) && TargetCapacity(c, need) == c * Pow2(k)
    decreases if need <= c then 0 else need - c
  {
    if need <= c {
      k := 0;
    } else {
      var k' := DoublingsNeeded(2 * c, need);
      k := k' + 1;
      DoubledFirst(c, k);
      forall j | 0 <= j < k
        ensures c * Pow2(j) < need
      {
        if j > 0 {
          DoubledFirst(c, j);
        }
      }
    }
  }

  /** The loop stops at the least `c * 2^k` that fits, or from 0 at the least `2^k`; below twice the request whenever
      it grows. */
  lemma LeastDoublingThatFits(c: nat, need: nat)
    ensures need > 0 || c > 0 ==>
      exists k: nat :: FirstFitting(if c == 0 then 1 else c, need, k)
        && TargetCapacity(c, need) == (if c == 0 then 1 else c) * Pow2(k)
    ensures need <= c ==> TargetCapacity(c, need) == c
    ensures c < need ==> need <= TargetCapacity(c, need) < 2 * need && 2 * c <= TargetCapacity(c, need)
    ensures c + 1 == need ==> TargetCapacity(c, need) == if c == 0 then 1 else 2 * c
  {
    if need > 0 || c > 0 {
      var start := if c == 0 then 1 else c;
      var k := DoublingsNeeded(start, need);
      assert FirstFitting(start, need, k);
      if c < need {
        TargetBelowTwice(c, need);
      }
    }
  }

  lemma {:induction false} TargetBelowTwice(c: nat, need: nat)
    requires c < need
    ensures need <= TargetCapacity(c, need) < 2 * need && 2 * c <= TargetCapacity(c, need)
    decreases need - c
  {
    if Twice(c) < need {
      TargetBelowTwice(Twice(c), need);
    }
  }

  /** What growth accounting sees of an array: `relocated` elements moved by growing, `added` by callers. */
  datatype Growth = Growth(size: nat, capacity: nat, relocated: nat, added: nat)

  /** Push and insert add one element, append many; pop and remove drop one. */
  datatype GrowthOp = Add(n: nat, mem: bool) | Drop(n: nat)

  function GrowthStep(g: Growth, op: GrowthOp): Growth {
    match op
    case Add(n, mem) =>
      if g.size + n <= g.capacity then g.(size := g.size + n, added := g.added + n)
      else if !mem then g
      else Growth(g.size + n, TargetCapacity(g.capacity, g.size + n), g.relocated + g.size, g.added + n)
    case Drop(n) => g.(size := if n <= g.size then g.size - n else 0)
  }

  /** An addition takes effect exactly when it fits or there is memory; the array grows exactly when it does not fit,
      to the least doubling that does, and then relocates what it holds. */
  lemma AddMeans(g: Growth, n: nat, mem: bool)
    requires g.size <= g.capacity
    ensures var g' := GrowthStep(g, Add(n, mem)); var fits := g.size + n <= g.capacity;
      && (!fits && !mem ==> g' == g)
      && (fits || mem ==> g'.size == g.size + n && g'.added == g.added + n)
      && (g'.capacity != g.capacity <==> !fits && mem)
      && g'.relocated == g.relocated + (if g'.capacity != g.capacity then g.size else 0)
      && (!fits && mem ==>
          exists k: nat :: FirstFitting(if g.capacity == 0 then 1 else g.capacity, g.size + n, k)
            && g'.capacity == (if g.capacity == 0 then 1 else g.capacity) * Pow2(k))
  {
    LeastDoublingThatFits(g.capacity, g.size + n);
  }

  function GrowthRun(g: Growth, ops: seq<GrowthOp>): Growth
    decreases |ops|
  {
    if ops == [] then g else GrowthRun(GrowthStep(g, ops[0]), ops[1..])
  }

  /** Holds of an array created with capacity `c` and changed only by adding and dropping. */
  ghost predicate Amortised(g: Growth, c: nat) {
    && g.size <= g.added && g.size <= g.capacity
    && g.relocated + c <= g.capacity
    && (g.capacity == c || g.capacity < 2 * g.added)
  }

  lemma AddKeepsAmortised(g: Growth, c: nat, op: GrowthOp)
    requires Amortised(g, c)
    ensures Amortised(GrowthStep(g, op), c)
  {
    if op.Add? {
      LeastDoublingThatFits(g.capacity, g.size + op.n);
    }
  }

  lemma {:induction false} RunKeepsAmortised(g: Growth, ops: seq<GrowthOp>, c: nat)
    requires Amortised(g, c)
    ensures Amortised(GrowthRun(g, ops), c)
    decreases |ops|
  {
    if ops != [] {
      AddKeepsAmortised(g, c, ops[0]);
      RunKeepsAmortised(GrowthStep(g, ops[0]), ops[1..], c);
    }
  }

  /** Amortised growth from a fresh array of any capacity. */
  lemma RelocationsBelowTwiceAdded(c: nat, ops: seq<GrowthOp>)
    ensures var g := GrowthRun(Growth(0, c, 0, 0), ops);
      && g.size <= g.capacity
      && (g.relocated == 0 || g.relocated < 2 * g.added)
  {
    RunKeepsAmortised(Growth(0, c, 0, 0), ops, c);
  }
}
