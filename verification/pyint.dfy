/** Python's integer bit operations on unbounded `int`.

    Python integers behave like infinite two's-complement bit strings: `>>`
    is floor division by a power of two, and `&`, `|`, `^` act bit by bit
    with negative numbers carrying infinitely many leading one bits.  Each
    operator here peels off the lowest bit (`x == 2 * (x / 2) + x % 2` with
    Dafny's Euclidean `/` and `%`, which floor for a positive divisor) until
    both operands are `0` or `-1`. */
module PyInt {

  function Pow2(n: nat): (r: nat)
    ensures r >= 1
  {
    if n == 0 then 1 else 2 * Pow2(n - 1)
  }

  function Abs(x: int): nat {
    if x < 0 then -x else x
  }

  /** `x << k` */
  function Shl(x: int, k: nat): int {
    x * Pow2(k)
  }

  /** `x >> k` */
  function Shr(x: int, k: nat): int {
    x / Pow2(k)
  }

  /** `(x >> i) & 1` */
  function Bit(x: int, i: nat): int {
    (x / Pow2(i)) % 2
  }

  /** A bit string of all zeros (`0`) or all ones (`-1`). */
  predicate IsSignOnly(x: int) {
    x == 0 || x == -1
  }

  lemma HalfShrinks(x: int)
    ensures IsSignOnly(x) ==> x / 2 == x
    ensures !IsSignOnly(x) ==> Abs(x / 2) < Abs(x)
  {
  }

  /** `a ^ b` */
  function Xor(a: int, b: int): int
    decreases Abs(a) + Abs(b)
  {
    if IsSignOnly(a) && IsSignOnly(b) then
      (if a == b then 0 else -1)
    else
      HalfShrinks(a);
      HalfShrinks(b);
      2 * Xor(a / 2, b / 2) + (a % 2 + b % 2) % 2
  }

  /** `a & b` */
  function And(a: int, b: int): int
    decreases Abs(a) + Abs(b)
  {
    if IsSignOnly(a) && IsSignOnly(b) then
      (if a == -1 && b == -1 then -1 else 0)
    else
      HalfShrinks(a);
      HalfShrinks(b);
      2 * And(a / 2, b / 2) + (a % 2) * (b % 2)
  }

  /** `a | b` */
  function Or(a: int, b: int): int
    decreases Abs(a) + Abs(b)
  {
    if IsSignOnly(a) && IsSignOnly(b) then
      (if a == -1 || b == -1 then -1 else 0)
    else
      HalfShrinks(a);
      HalfShrinks(b);
      2 * Or(a / 2, b / 2) + (if a % 2 == 1 || b % 2 == 1 then 1 else 0)
  }

  lemma Pow2Split(k: nat)
    requires k >= 1
    ensures Pow2(k) == 2 * Pow2(k - 1)
  {
  }

  lemma Pow2Add(a: nat, b: nat)
    ensures Pow2(a + b) == Pow2(a) * Pow2(b)
  {
    if a > 0 {
      Pow2Add(a - 1, b);
    }
  }

  lemma Pow2Monotone(a: nat, b: nat)
    requires a <= b
    ensures Pow2(a) <= Pow2(b)
  {
    if a < b {
      Pow2Monotone(a, b - 1);
    }
  }

  /** Dividing twice is dividing by the product. */
  lemma DivDiv(x: int, k: nat)
    ensures x / Pow2(k + 1) == (x / 2) / Pow2(k)
  {
    var q := x / 2;
    var r := x % 2;
    assert x == 2 * q + r && 0 <= r < 2;
    var q2 := q / Pow2(k);
    var r2 := q % Pow2(k);
    assert q == Pow2(k) * q2 + r2 && 0 <= r2 < Pow2(k);
    assert x == Pow2(k + 1) * q2 + (2 * r2 + r);
    assert 0 <= 2 * r2 + r < Pow2(k + 1);
    DivUnique(x, Pow2(k + 1), q2, 2 * r2 + r);
  }

  lemma MulAtLeast(d: int, n: int)
    requires d > 0 && n >= 1
    ensures d * n >= d
    decreases n
  {
    if n > 1 {
      MulAtLeast(d, n - 1);
      assert d * n == d * (n - 1) + d;
    }
  }

  lemma MulGap(d: int, a: int, b: int)
    requires d > 0 && a > b
    ensures d * a >= d * b + d
  {
    MulAtLeast(d, a - b);
    assert d * a == d * b + d * (a - b);
  }

  lemma DivUnique(x: int, d: int, q: int, r: int)
    requires d > 0
    requires x == d * q + r && 0 <= r < d
    ensures x / d == q && x % d == r
  {
    var q' := x / d;
    assert x == d * q' + x % d;
    if q' > q {
      MulGap(d, q', q);
      assert false;
    } else if q' < q {
      MulGap(d, q, q');
      assert false;
    }
  }

  /** The low `k` bits of `x`: `x % 2^k`, built from the lowest bit upwards. */
  lemma ModPow2Step(x: int, k: nat)
    requires k >= 1
    ensures x % Pow2(k) == 2 * ((x / 2) % Pow2(k - 1)) + x % 2
  {
    var q := x / 2;
    var r := x % 2;
    var q2 := q / Pow2(k - 1);
    var r2 := q % Pow2(k - 1);
    assert x == Pow2(k) * q2 + (2 * r2 + r);
    DivUnique(x, Pow2(k), q2, 2 * r2 + r);
  }

  lemma AndZero(x: int)
    ensures And(x, 0) == 0
    decreases Abs(x)
  {
    if !IsSignOnly(x) {
      HalfShrinks(x);
      AndZero(x / 2);
    }
  }

  lemma OrZero(x: int)
    ensures Or(x, 0) == x
    decreases Abs(x)
  {
    if !IsSignOnly(x) {
      HalfShrinks(x);
      OrZero(x / 2);
    }
  }

  /** Masking with `2^k - 1` keeps the low `k` bits: Python's `x & mask`
      equals the Euclidean remainder, also for negative `x`. */
  lemma {:induction false} AndLowMask(x: int, k: nat)
    ensures And(x, Pow2(k) - 1) == x % Pow2(k)
    ensures 0 <= And(x, Pow2(k) - 1) < Pow2(k)
    decreases k
  {
    if k == 0 {
      AndZero(x);
    } else {
      var h := Pow2(k - 1) - 1;
      assert Pow2(k) - 1 == 2 * h + 1;
      AndOddMask(x, h);
      AndLowMask(x / 2, k - 1);
      ModPow2Step(x, k);
    }
  }

  /** One bit of an odd mask: the low bit of `x` is kept and the rest is
      masked with the mask shifted down. */
  lemma AndOddMask(x: int, h: nat)
    ensures And(x, 2 * h + 1) == 2 * And(x / 2, h) + x % 2
  {
    var m := 2 * h + 1;
    assert m / 2 == h && m % 2 == 1;
    assert !IsSignOnly(m);
  }

  /** Masking a value that already fits in `k` bits leaves it alone. */
  lemma MaskKeeps(x: int, k: nat)
    requires 0 <= x < Pow2(k)
    ensures And(x, Pow2(k) - 1) == x
  {
    AndLowMask(x, k);
    DivUnique(x, Pow2(k), 0, x);
  }

  /** XOR of two `k`-bit values is a `k`-bit value. */
  lemma {:induction false} XorBound(a: int, b: int, k: nat)
    requires 0 <= a < Pow2(k) && 0 <= b < Pow2(k)
    ensures 0 <= Xor(a, b) < Pow2(k)
  {
    if IsSignOnly(a) && IsSignOnly(b) {
    } else {
      assert k >= 1;
      XorBound(a / 2, b / 2, k - 1);
    }
  }

  /** Placing `u` above `k` low bits and or-ing in `l < 2^k` is addition. */
  lemma {:induction false} OrDisjoint(u: nat, l: int, k: nat)
    requires 0 <= l < Pow2(k)
    ensures Or(Shl(u, k), l) == u * Pow2(k) + l
  {
    if k == 0 {
      OrZero(u);
    } else {
      var hi := u * Pow2(k);
      assert hi == 2 * (u * Pow2(k - 1));
      assert hi / 2 == u * Pow2(k - 1) && hi % 2 == 0;
      if IsSignOnly(hi) && IsSignOnly(l) {
      } else {
        OrDisjoint(u, l / 2, k - 1);
      }
    }
  }

  /** Setting a bit that is clear adds its weight. */
  lemma {:induction false} OrClearBit(a: int, j: nat)
    requires a >= 0
    requires Bit(a, j) == 0
    ensures Or(a, Pow2(j)) == a + Pow2(j)
  {
    var p := Pow2(j);
    if j == 0 {
      assert a % 2 == 0;
      assert Or(a, 1) == 2 * Or(a / 2, 0) + 1;
      OrZero(a / 2);
    } else {
      DivDiv(a, j - 1);
      assert p / 2 == Pow2(j - 1) && p % 2 == 0;
      OrClearBit(a / 2, j - 1);
    }
  }
}
