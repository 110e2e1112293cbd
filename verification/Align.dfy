/** Mask arithmetic on 64-bit addresses, proved against ordinary division.

    `And` is bitwise conjunction on naturals, so the masks below are the ones the C code computes; the
    contracts say what the masking means. */
module Align {
  const WORD: nat := 0x1_0000_0000_0000_0000

  function Pow2(k: nat): (r: nat)
    ensures r > 0
  {
    if k == 0 then 1 else 2 * Pow2(k - 1)
  }

  function And(x: nat, y: nat): nat {
    if x == 0 || y == 0 then 0 else 2 * And(x / 2, y / 2) + (if x % 2 == 1 && y % 2 == 1 then 1 else 0)
  }

  /** `~x` on 64 bits. */
  function Not(x: nat): (r: nat)
    requires x < WORD
    ensures r < WORD
  {
    WORD - 1 - x
  }

  /** The test asserted by every allocator: positive, and no bit shared with its predecessor. */
  predicate IsPowerOfTwo(a: nat) {
    a > 0 && And(a, a - 1) == 0
  }

  lemma {:induction false} AndSelf(x: nat)
    ensures And(x, x) == x
  {
    if x > 0 {
      AndSelf(x / 2);
    }
  }

  lemma {:induction false} Pow2Passes(k: nat)
    ensures IsPowerOfTwo(Pow2(k))
  {
    if k > 0 {
      Pow2Passes(k - 1);
      var b := Pow2(k - 1);
      assert (2 * b) / 2 == b && (2 * b - 1) / 2 == b - 1 && (2 * b) % 2 == 0;
    }
  }

  /** The test passes exactly on the powers of two. */
  lemma {:induction false} PowerOfTwoTest(a: nat)
    ensures IsPowerOfTwo(a) <==> exists k: nat :: a == Pow2(k)
  {
    if k: nat :| a == Pow2(k) {
      Pow2Passes(k);
    }
    if IsPowerOfTwo(a) {
      var _ := Exponent(a);
    }
  }

  lemma {:induction false} Exponent(a: nat) returns (k: nat)
    requires IsPowerOfTwo(a)
    ensures a == Pow2(k)
  {
    if a == 1 {
      k := 0;
    } else if a % 2 == 1 {
      assert (a - 1) / 2 == a / 2;
      AndSelf(a / 2);
      assert false;
    } else {
      assert (a - 1) / 2 == a / 2 - 1;
      assert And(a, a - 1) == 2 * And(a / 2, a / 2 - 1);
      k := Exponent(a / 2);
      k := k + 1;
    }
  }

  lemma AndOdd(x: nat, half: nat)
    ensures And(x, 2 * half + 1) == 2 * And(x / 2, half) + x % 2
  {
    assert (2 * half + 1) / 2 == half && (2 * half + 1) % 2 == 1;
  }

  lemma {:induction false} AndOnes(x: nat, w: nat)
    requires x < Pow2(w)
    ensures And(x, Pow2(w) - 1) == x
    decreases w
  {
    if w > 0 && x > 0 {
      AndOnes(x / 2, w - 1);
      AndOdd(x, Pow2(w - 1) - 1);
    }
  }

  lemma ModDouble(x: nat, m: nat)
    requires m > 0
    ensures x % (2 * m) == 2 * ((x / 2) % m) + x % 2
  {
    var q, r := (x / 2) / m, (x / 2) % m;
    assert x == (2 * m) * q + (2 * r + x % 2) by {
      assert x / 2 == m * q + r;
    }
    ModIs(x, 2 * m, q, 2 * r + x % 2);
  }

  /** Euclidean division is unique. */
  lemma ModIs(x: int, m: nat, q: int, r: int)
    requires m > 0 && x == m * q + r && 0 <= r < m
    ensures x % m == r && x / m == q
  {
    var q', r' := x / m, x % m;
    assert m * (q - q') == r' - r && m * (q' - q) == r - r';
    MulAtLeast(m, q - q');
    MulAtLeast(m, q' - q);
  }

  lemma MulAtLeast(m: nat, d: int)
    ensures d >= 1 ==> m * d >= m
  {
  }

  lemma AndEven(x: nat, half: nat)
    ensures And(x, 2 * half) == 2 * And(x / 2, half)
  {
    assert (2 * half) / 2 == half && (2 * half) % 2 == 0;
  }

  /** Masking with the complement of `2^k - 1` clears the low `k` bits of a `w`-bit number. */
  lemma {:induction false} MaskClears(x: nat, k: nat, w: nat)
    requires k <= w && x < Pow2(w)
    ensures Pow2(k) <= Pow2(w) && And(x, Pow2(w) - Pow2(k)) == x - x % Pow2(k)
    decreases k
  {
    if k == 0 {
      AndOnes(x, w);
    } else {
      MaskClears(x / 2, k - 1, w - 1);
      var half := Pow2(w - 1) - Pow2(k - 1);
      assert Pow2(w) - Pow2(k) == 2 * half;
      AndEven(x, half);
      ModDouble(x, Pow2(k - 1));
    }
  }

  lemma {:induction false} Pow2Sum(j: nat, k: nat)
    ensures Pow2(j + k) == Pow2(j) * Pow2(k)
    decreases k
  {
    if k > 0 {
      Pow2Sum(j, k - 1);
    }
  }

  lemma WordIsPow2()
    ensures Pow2(64) == WORD
  {
    assert Pow2(2) == 4;
    Pow2Sum(2, 2);
    Pow2Sum(4, 4);
    Pow2Sum(8, 8);
    Pow2Sum(16, 16);
    Pow2Sum(32, 32);
  }

  lemma {:induction false} Pow2Monotone(j: nat, k: nat)
    requires j <= k
    ensures Pow2(j) <= Pow2(k)
    decreases k
  {
    if j < k {
      Pow2Monotone(j, k - 1);
    }
  }

  lemma MaskMeans(x: nat, a: nat)
    requires IsPowerOfTwo(a) && a < WORD && x < WORD
    ensures And(x, Not(a - 1)) == x - x % a
  {
    var k := Exponent(a);
    WordIsPow2();
    if k > 64 {
      Pow2Monotone(64, k);
    }
    MaskClears(x, k, 64);
  }

  lemma RoundDown(x: nat, a: nat)
    requires a > 0
    ensures var r := x - x % a; r % a == 0 && r <= x < r + a
  {
    ModIs(x - x % a, a, x / a, 0);
  }

  /** `align_down` and `align_down_ptr`. */
  function AlignDown(p: nat, a: nat): (r: nat)
    requires IsPowerOfTwo(a) && a < WORD && p < WORD
    ensures r % a == 0 && r <= p < r + a
  {
    MaskMeans(p, a);
    RoundDown(p, a);
    And(p, Not(a - 1))
  }

  lemma MaskedSum(p: nat, a: nat)
    requires IsPowerOfTwo(a) && a < WORD && p < WORD
    ensures p + a - 1 < WORD ==>
      var r := And((p + a - 1) % WORD, Not(a - 1)); r % a == 0 && p <= r < p + a
  {
    if p + a - 1 < WORD {
      var x := p + a - 1;
      ModIs(x, WORD, 0, x);
      MaskMeans(x, a);
      RoundDown(x, a);
    }
  }

  /** `align_up` and `align_up_ptr`; the addition wraps around like the machine's. */
  function AlignUp(p: nat, a: nat): (r: nat)
    requires IsPowerOfTwo(a) && a < WORD && p < WORD
    ensures p + a - 1 < WORD ==> r % a == 0 && p <= r < p + a
  {
    MaskedSum(p, a);
    And((p + a - 1) % WORD, Not(a - 1))
  }

  /** Distinct multiples of `a` are at least `a` apart. */
  lemma MultiplesApart(m: int, n: int, a: nat)
    requires a > 0 && m % a == 0 && n % a == 0 && m < n
    ensures m + a <= n
  {
    var i, j := m / a, n / a;
    assert m == a * i && n == a * j;
    assert a * (j - i) == n - m && a * (i - j) == m - n;
    MulAtLeast(a, j - i);
    MulAtLeast(a, i - j);
  }

  /** Align-down gives the greatest multiple not above `p`. */
  lemma AlignDownIsGreatest(p: nat, a: nat, m: nat)
    requires IsPowerOfTwo(a) && a < WORD && p < WORD
    requires m % a == 0 && m <= p
    ensures m <= AlignDown(p, a)
  {
    if AlignDown(p, a) < m {
      MultiplesApart(AlignDown(p, a), m, a);
    }
  }

  /** Align-up gives the least multiple not below `p`, exactly when the addition does not wrap around;
      when it does, the result is 0. */
  lemma AlignUpIsLeast(p: nat, a: nat)
    requires IsPowerOfTwo(a) && a < WORD && p < WORD
    ensures p + a - 1 < WORD <==> p <= AlignUp(p, a)
    ensures p + a - 1 < WORD ==>
      && AlignUp(p, a) % a == 0
      && forall m: nat :: m % a == 0 && p <= m ==> AlignUp(p, a) <= m
    ensures p + a - 1 >= WORD ==> AlignUp(p, a) == 0
  {
    var r := AlignUp(p, a);
    if p + a - 1 < WORD {
      forall m: nat | m % a == 0 && p <= m
        ensures r <= m
      {
        if m < r {
          MultiplesApart(m, r, a);
        }
      }
    } else {
      var x := p + a - 1 - WORD;
      assert (p + a - 1) % WORD == x by { ModIs(p + a - 1, WORD, 1, x); }
      MaskMeans(x, a);
      assert x % a == x by { ModIs(x, a, 0, x); }
    }
  }

  /** Any multiple of `a` in `[p, p + a)` is the one align-up gives. */
  lemma AlignUpIs(p: nat, a: nat, r: nat)
    requires IsPowerOfTwo(a) && a < WORD && p + a - 1 < WORD
    requires r % a == 0 && p <= r < p + a
    ensures AlignUp(p, a) == r
  {
    AlignUpIsLeast(p, a);
    if AlignUp(p, a) < r {
      MultiplesApart(AlignUp(p, a), r, a);
    }
  }

  // ---- Multiples of 8 ----

  lemma EightIsPowerOfTwo()
    ensures IsPowerOfTwo(8)
  {
    Pow2Passes(3);
    assert Pow2(3) == 2 * Pow2(2) == 4 * Pow2(1);
  }

  /** A power of two divides 8 or is a multiple of it. */
  lemma {:induction false} PowerSplit(a: nat)
    requires IsPowerOfTwo(a)
    ensures a == 1 || a == 2 || a == 4 || a % 8 == 0
  {
    var k := Exponent(a);
    assert Pow2(0) == 1 && Pow2(1) == 2 && Pow2(2) == 4 && Pow2(3) == 8;
    if k >= 3 {
      Pow2Sum(k - 3, 3);
      ModIs(a, 8, Pow2(k - 3), 0);
    }
  }

  /** A multiple of a multiple of 8 is a multiple of 8. */
  lemma DividesThrough(x: nat, a: nat)
    requires a > 0 && a % 8 == 0 && x % a == 0
    ensures x % 8 == 0
  {
    var q, r := x / a, a / 8;
    assert x == a * q && a == 8 * r;
    assert x == 8 * (r * q);
    ModIs(x, 8, r * q, 0);
  }

  /** Between two starts aligned for headers, the gap is a multiple of 8. */
  lemma GapIsMultiple(start: nat, aligned: nat, alignment: nat)
    requires start % 8 == 0 && start <= aligned < start + alignment && aligned % alignment == 0
    requires alignment == 1 || alignment == 2 || alignment == 4 || alignment % 8 == 0
    ensures (aligned - start) % 8 == 0
  {
    if alignment % 8 == 0 {
      DividesThrough(aligned, alignment);
      DifferenceOfMultiples(aligned, start);
    } else {
      SmallGap(start, aligned, alignment);
    }
  }

  lemma DifferenceOfMultiples(a: nat, b: nat)
    requires a % 8 == 0 && b % 8 == 0 && b <= a
    ensures (a - b) % 8 == 0
  {
    ModIs(a - b, 8, a / 8 - b / 8, 0);
  }

  /** An alignment that divides 8 leaves no gap. */
  lemma SmallGap(start: nat, aligned: nat, alignment: nat)
    requires start % 8 == 0 && start <= aligned < start + alignment && aligned % alignment == 0
    requires alignment == 1 || alignment == 2 || alignment == 4
    ensures aligned == start
  {
    var q := start / 8;
    ModIs(start, alignment, (8 / alignment) * q, 0);
    if start < aligned {
      MultiplesApart(start, aligned, alignment);
    }
  }

  lemma SumOfMultiples(a: nat, b: nat, c: nat)
    requires a % 8 == 0 && b % 8 == 0
    ensures (a + b + c) % 8 == 0 <==> c % 8 == 0
  {
  }
}
