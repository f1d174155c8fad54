/** The checksum engine shared by every script: a bit-by-bit parameterised
    CRC, `sum8`, the `cs15` fold, the strided `xor16_slices` XOR, reading a
    stored checksum out of a frame, and `verify_checksum`, which compares
    the two. Python integers are unbounded, so every mask and shift is
    written out with the operators of `PyInt`. */
module Checksums {
  import opened Wrappers
  import opened PyInt
  import opened PyBytes
  import opened PyStr
  import opened Spec

  // ---------------------------------------------------------------------
  // reflect_bits

  /** The loop of `reflect_bits(v, w)` from bit `i` on; `acc` holds the
      mirrored bits set so far. */
  function ReflectLoop(v: int, w: nat, i: nat, acc: int): int
    requires i <= w
    decreases w - i
  {
    if i == w then acc
    else ReflectLoop(v, w, i + 1, if And(v, Pow2(i)) != 0 then Or(acc, Pow2(w - 1 - i)) else acc)
  }

  /** Reference definition of bit reversal: bit 0 of `v` lands on bit
      `w - 1`, and bits `1 .. w-1` mirror into the `w - 1` bits below. */
  function Mirror(v: int, w: nat): (r: nat)
    ensures r < Pow2(w)
    decreases w
  {
    if w == 0 then 0 else (v % 2) * Pow2(w - 1) + Mirror(v / 2, w - 1)
  }

  /** `reflect_bits(v, w)`: the low `w` bits of `v` in reverse order. */
  function ReflectBits(v: int, w: nat): (r: int)
    ensures r == Mirror(v, w)
    ensures 0 <= r < Pow2(w)
  {
    ReflectLoopMirror(v, w, 0, 0);
    ReflectLoop(v, w, 0, 0)
  }

  /** `v & (1 << i)` is bit `i` of `v` in place. */
  lemma {:induction false} AndPow2(v: int, i: nat)
    ensures And(v, Pow2(i)) == Bit(v, i) * Pow2(i)
    decreases i
  {
    if i == 0 {
      AndZero(v / 2);
    } else {
      var p := Pow2(i);
      assert p / 2 == Pow2(i - 1) && p % 2 == 0;
      AndPow2(v / 2, i - 1);
      DivDiv(v, i - 1);
    }
  }

  /** `x // 2^(k+1) == (x // 2^k) // 2` */
  lemma DivPow2Succ(x: int, k: nat)
    ensures x / Pow2(k + 1) == (x / Pow2(k)) / 2
  {
    var q := (x / Pow2(k)) / 2;
    var r2 := (x / Pow2(k)) % 2;
    var r1 := x % Pow2(k);
    assert x == Pow2(k) * (x / Pow2(k)) + r1;
    assert x / Pow2(k) == 2 * q + r2;
    assert x == Pow2(k + 1) * q + (Pow2(k) * r2 + r1);
    DivUnique(x, Pow2(k + 1), q, Pow2(k) * r2 + r1);
  }

  /** A multiple of `2^(m+1)` has bit `m` clear. */
  lemma MultipleBitClear(acc: int, m: nat)
    requires acc % Pow2(m + 1) == 0
    ensures Bit(acc, m) == 0
    ensures (acc + Pow2(m)) % Pow2(m) == 0 && acc % Pow2(m) == 0
  {
    var p := Pow2(m);
    assert Pow2(m + 1) == 2 * p;
    var q := acc / (2 * p);
    assert acc == (2 * p) * q;
    DoubleMul(p, q);
    DivUnique(acc, p, 2 * q, 0);
    DivUnique(acc + p, p, 2 * q + 1, 0);
  }

  lemma DoubleMul(p: int, q: int)
    ensures (2 * p) * q == p * (2 * q) && p * (2 * q) + p == p * (2 * q + 1)
  {
  }

  /** From step `i` on, the loop adds the mirror of the bits it has not
      looked at yet. */
  lemma {:induction false} ReflectLoopMirror(v: int, w: nat, i: nat, acc: int)
    requires i <= w
    requires acc >= 0 && acc % Pow2(w - i) == 0
    ensures ReflectLoop(v, w, i, acc) == acc + Mirror(v / Pow2(i), w - i)
    decreases w - i
  {
    if i < w {
      var m := w - 1 - i;
      var acc' := if And(v, Pow2(i)) != 0 then Or(acc, Pow2(m)) else acc;
      ReflectStep(v, w, i, acc, acc');
      ReflectLoopMirror(v, w, i + 1, acc');
      DivPow2Succ(v, i);
      var y := v / Pow2(i);
      assert Mirror(y, w - i) == (y % 2) * Pow2(m) + Mirror(y / 2, m);
    }
  }

  /** One pass of `reflect_bits`' loop sets bit `w - 1 - i` of the
      accumulator to bit `i` of `v`, leaving the bits below clear. */
  lemma ReflectStep(v: int, w: nat, i: nat, acc: int, acc': int)
    requires i < w
    requires acc >= 0 && acc % Pow2(w - i) == 0
    requires acc' == if And(v, Pow2(i)) != 0 then Or(acc, Pow2(w - 1 - i)) else acc
    ensures acc' == acc + Bit(v, i) * Pow2(w - 1 - i)
    ensures acc' >= 0 && acc' % Pow2(w - (i + 1)) == 0
  {
    var m := w - 1 - i;
    var b := Bit(v, i);
    AndPow2(v, i);
    MultipleBitClear(acc, m);
    if b == 1 {
      OrClearBit(acc, m);
    }
  }

  /** Mirroring peels bit `n - 1` off the top as well as bit 0 off the bottom. */
  lemma {:induction false} MirrorTop(v: int, n: nat)
    requires n >= 1
    ensures Mirror(v, n) == 2 * Mirror(v % Pow2(n - 1), n - 1) + Bit(v, n - 1)
    decreases n
  {
    if n >= 2 {
      MirrorTop(v / 2, n - 1);
      MirrorTopStep(v, n, v % 2, Pow2(n - 1), Pow2(n - 2), (v / 2) % Pow2(n - 2), v % Pow2(n - 1));
    } else {
      assert v % Pow2(0) == 0 && v / Pow2(0) == v;
    }
  }

  /** The inductive step of `MirrorTop`, with its terms named. */
  lemma MirrorTopStep(v: int, n: nat, b: int, p1: nat, p2: nat, half: int, low: int)
    requires n >= 2 && p1 == Pow2(n - 1) && p2 == Pow2(n - 2)
    requires b == v % 2 && half == (v / 2) % p2 && low == v % p1
    requires Mirror(v / 2, n - 1) == 2 * Mirror(half, n - 2) + Bit(v / 2, n - 2)
    ensures Mirror(v, n) == 2 * Mirror(low, n - 1) + Bit(v, n - 1)
  {
    assert p1 == 2 * p2;
    MirrorLow(v, n, b, p1, p2, half, low);
    DivDiv(v, n - 2);
    assert Bit(v / 2, n - 2) == Bit(v, n - 1);
    BitTimesDouble(b, p1, p2);
    assert Mirror(v, n) == b * p1 + Mirror(v / 2, n - 1);
  }

  /** The low `n - 1` bits of `v` reflected: the bottom bit goes to the
      top. */
  lemma MirrorLow(v: int, n: nat, b: int, p1: nat, p2: nat, half: int, low: int)
    requires n >= 2 && p1 == Pow2(n - 1) && p2 == Pow2(n - 2) && p1 == 2 * p2
    requires b == v % 2 && half == (v / 2) % p2 && low == v % p1
    ensures Mirror(low, n - 1) == b * p2 + Mirror(half, n - 2)
  {
    ModPow2Step(v, n - 1);
    assert low == 2 * half + b;
    DivUnique(low, 2, half, b);
  }

  lemma BitTimesDouble(b: int, p1: int, p2: int)
    requires b == 0 || b == 1
    requires p1 == 2 * p2
    ensures b * p1 == 2 * (b * p2)
  {
    if b == 0 {
      assert b * p1 == 0 && b * p2 == 0;
    } else {
      assert b * p1 == p1 && b * p2 == p2;
    }
  }

  /** Reflecting twice restores any `w`-bit value. */
  lemma {:induction false} MirrorTwice(v: int, w: nat)
    requires 0 <= v < Pow2(w)
    ensures Mirror(Mirror(v, w), w) == v
    decreases w
  {
    if w >= 1 {
      var p := Pow2(w - 1);
      var b := v % 2;
      var u := Mirror(v, w);
      var rest := Mirror(v / 2, w - 1);
      assert u == p * b + rest;
      DivUnique(u, p, b, rest);
      assert v / 2 < p;
      MirrorTwice(v / 2, w - 1);
      MirrorTop(u, w);
      MirrorTwiceStep(v, u, b, rest, p, w);
    }
  }

  /** The last step of `MirrorTwice`, with its terms named. */
  lemma MirrorTwiceStep(v: int, u: int, b: int, rest: int, p: nat, w: nat)
    requires w >= 1 && p == Pow2(w - 1) && b == v % 2
    requires u / p == b && u % p == rest && Mirror(rest, w - 1) == v / 2
    requires Mirror(u, w) == 2 * Mirror(u % Pow2(w - 1), w - 1) + Bit(u, w - 1)
    ensures Mirror(u, w) == v
  {
    assert Bit(u, w - 1) == b;
  }

  /** `reflect_bits` is an involution on `w`-bit values. */
  lemma ReflectTwice(v: int, w: nat)
    requires 0 <= v < Pow2(w)
    ensures ReflectBits(ReflectBits(v, w), w) == v
  {
    MirrorTwice(v, w);
  }

  // ---------------------------------------------------------------------
  // crc_compute

  /** One round of the reflected (LSB-first) register; `poly` is used
      as given and not masked. */
  function RefinRound(crc: int, poly: int): int {
    if And(crc, 1) != 0 then Xor(Shr(crc, 1), poly) else Shr(crc, 1)
  }

  /** One round of the MSB-first register, masked to the width. */
  function NormalRound(crc: int, poly: int, topbit: int, mask: int): int {
    if And(crc, topbit) != 0 then And(Xor(Shl(crc, 1), poly), mask) else And(Shl(crc, 1), mask)
  }

  function RefinRounds(crc: int, poly: int, k: nat): int
    decreases k
  {
    if k == 0 then crc else RefinRounds(RefinRound(crc, poly), poly, k - 1)
  }

  function NormalRounds(crc: int, poly: int, topbit: int, width: nat, k: nat): (r: int)
    requires 0 <= crc < Pow2(width)
    ensures 0 <= r < Pow2(width)
    decreases k
  {
    if k == 0 then crc
    else
      var next := NormalRound(crc, poly, topbit, Pow2(width) - 1);
      AndLowMask(Xor(Shl(crc, 1), poly), width);
      AndLowMask(Shl(crc, 1), width);
      NormalRounds(next, poly, topbit, width, k - 1)
  }

  /** The register after feeding `data` to the reflected CRC, before the
      final mask. */
  function RefinRegister(data: seq<Byte>, poly: int, crc: int): int {
    if |data| == 0 then crc
    else RefinRegister(data[1..], poly, RefinRounds(Xor(crc, data[0]), poly, 8))
  }

  /** The register after feeding `data` to the MSB-first CRC; it needs
      `width >= 8` since each byte is shifted left by `width - 8`. */
  function NormalRegister(data: seq<Byte>, poly: int, width: nat, crc: int): (r: int)
    requires width >= 8
    requires 0 <= crc < Pow2(width)
    ensures 0 <= r < Pow2(width)
  {
    if |data| == 0 then crc
    else
      var mask := Pow2(width) - 1;
      var fed := And(Shl(data[0], width - 8), mask);
      AndLowMask(Shl(data[0], width - 8), width);
      XorBound(crc, fed, width);
      NormalRegister(data[1..], poly, width, NormalRounds(Xor(crc, fed), poly, Pow2(width - 1), width, 8))
  }

  /** Feeding `a + b` to the reflected register is feeding `a`, then `b`:
      the CRC can be computed incrementally. */
  lemma {:induction false} RefinRegisterAppend(a: seq<Byte>, b: seq<Byte>, poly: int, crc: int)
    ensures RefinRegister(a + b, poly, crc) == RefinRegister(b, poly, RefinRegister(a, poly, crc))
    decreases |a|
  {
    if |a| == 0 {
      assert a + b == b;
    } else {
      assert (a + b)[1..] == a[1..] + b && (a + b)[0] == a[0];
      RefinRegisterAppend(a[1..], b, poly, RefinRounds(Xor(crc, a[0]), poly, 8));
    }
  }

  /** The same for the MSB-first register. */
  lemma {:induction false} NormalRegisterAppend(a: seq<Byte>, b: seq<Byte>, poly: int, width: nat, crc: int)
    requires width >= 8 && 0 <= crc < Pow2(width)
    ensures NormalRegister(a + b, poly, width, crc) == NormalRegister(b, poly, width, NormalRegister(a, poly, width, crc))
    decreases |a|
  {
    if |a| == 0 {
      assert a + b == b;
    } else {
      assert (a + b)[1..] == a[1..] + b && (a + b)[0] == a[0];
      var fed := And(Shl(a[0], width - 8), Pow2(width) - 1);
      AndLowMask(Shl(a[0], width - 8), width);
      XorBound(crc, fed, width);
      var next := NormalRounds(Xor(crc, fed), poly, Pow2(width - 1), width, 8);
      assert NormalRegister(a + b, poly, width, crc) == NormalRegister(a[1..] + b, poly, width, next);
      assert NormalRegister(a, poly, width, crc) == NormalRegister(a[1..], poly, width, next);
      NormalRegisterAppend(a[1..], b, poly, width, next);
    }
  }

  /** Whether `crc_compute` raises: the MSB-first branch computes
      `1 << (width - 1)` and shifts each byte by `width - 8`, and Python
      rejects negative shift counts. */
  predicate CrcRaises(width: nat, dataLen: nat, refin: bool) {
    !refin && (width == 0 || (width < 8 && dataLen > 0))
  }

  /** `crc_compute(data, width, poly, init, xorout, refin, refout)` */
  function CrcCompute(data: seq<Byte>, width: nat, poly: int, init: int, xorout: int, refin: bool, refout: bool): (r: Result<nat>)
    ensures r.Err? <==> CrcRaises(width, |data|, refin)
    ensures r.Ok? ==> r.value < Pow2(width)
    ensures r.Ok? && !refin ==> r.value == Xor(if refout then Mirror(RegisterOf(data, width, poly, init), width)
                                                else RegisterOf(data, width, poly, init), xorout) % Pow2(width)
    ensures r.Ok? && refin ==> r.value == Xor(if refout then Mirror(RefinRegisterOf(data, width, poly, init), width)
                                               else RefinRegisterOf(data, width, poly, init), xorout) % Pow2(width)
  {
    var mask := Pow2(width) - 1;
    var crc0 := And(init, mask);
    AndLowMask(init, width);
    if CrcRaises(width, |data|, refin) then Err("negative shift count")
    else
      var crc := if refin then And(RefinRegister(data, poly, crc0), mask)
                 else if |data| == 0 then crc0
                 else NormalRegister(data, poly, width, crc0);
      var out := if refout then ReflectBits(crc, width) else crc;
      AndLowMask(Xor(out, xorout), width);
      Ok(And(Xor(out, xorout), mask))
  }

  /** The MSB-first register after the whole input, from `init` masked to
      the width. */
  function RegisterOf(data: seq<Byte>, width: nat, poly: int, init: int): (r: int)
    requires width > 0 && (width >= 8 || |data| == 0)
    ensures 0 <= r < Pow2(width)
  {
    AndLowMask(init, width);
    var crc0 := And(init, Pow2(width) - 1);
    if |data| == 0 then crc0 else NormalRegister(data, poly, width, crc0)
  }

  /** The reflected register after the whole input, from `init` masked to
      the width, masked to the width at the end. */
  function RefinRegisterOf(data: seq<Byte>, width: nat, poly: int, init: int): (r: int)
    ensures 0 <= r < Pow2(width)
  {
    AndLowMask(init, width);
    var reg := RefinRegister(data, poly, And(init, Pow2(width) - 1));
    AndLowMask(reg, width);
    And(reg, Pow2(width) - 1)
  }

  /** With a polynomial of the width, one reflected round stays within the
      width. */
  lemma RefinRoundBound(crc: int, poly: int, width: nat)
    requires 0 <= crc < Pow2(width) && 0 <= poly < Pow2(width)
    ensures 0 <= RefinRound(crc, poly) < Pow2(width)
  {
    assert 0 <= Shr(crc, 1) <= crc;
    XorBound(Shr(crc, 1), poly, width);
  }

  lemma {:induction false} RefinRoundsBound(crc: int, poly: int, width: nat, k: nat)
    requires 0 <= crc < Pow2(width) && 0 <= poly < Pow2(width)
    ensures 0 <= RefinRounds(crc, poly, k) < Pow2(width)
    decreases k
  {
    if k > 0 {
      RefinRoundBound(crc, poly, width);
      RefinRoundsBound(RefinRound(crc, poly), poly, width, k - 1);
    }
  }

  /** With a polynomial of the width and a width of at least a byte, the
      reflected register never leaves the width. */
  lemma {:induction false} RefinRegisterBound(data: seq<Byte>, poly: int, width: nat, crc: int)
    requires width >= 8 && 0 <= crc < Pow2(width) && 0 <= poly < Pow2(width)
    ensures 0 <= RefinRegister(data, poly, crc) < Pow2(width)
    decreases |data|
  {
    if |data| > 0 {
      Pow2Monotone(8, width);
      assert Pow2(8) == 256 by { Pow2Add(4, 4); }
      XorBound(crc, data[0], width);
      RefinRoundsBound(Xor(crc, data[0]), poly, width, 8);
      RefinRegisterBound(data[1..], poly, width, RefinRounds(Xor(crc, data[0]), poly, 8));
    }
  }

  /** The CRC of `a + b` is the CRC of `b` started from the register `a`
      leaves, so a checksum can be computed over data arriving in pieces
      (for the reflected register, when the polynomial fits the width). */
  lemma CrcResumes(a: seq<Byte>, b: seq<Byte>, width: nat, poly: int, init: int, xorout: int, refin: bool, refout: bool)
    requires width >= 8
    requires refin ==> 0 <= poly < Pow2(width)
    ensures CrcCompute(a + b, width, poly, init, xorout, refin, refout)
         == CrcCompute(b, width, poly, if refin then RefinRegisterOf(a, width, poly, init) else RegisterOf(a, width, poly, init),
                       xorout, refin, refout)
  {
    if refin {
      RefinRegisterOfAppend(a, b, width, poly, init);
    } else {
      RegisterOfAppend(a, b, width, poly, init);
    }
  }

  /** Resuming the reflected register from where `a` left it. */
  lemma RefinRegisterOfAppend(a: seq<Byte>, b: seq<Byte>, width: nat, poly: int, init: int)
    requires width >= 8 && 0 <= poly < Pow2(width)
    ensures RefinRegisterOf(a + b, width, poly, init) == RefinRegisterOf(b, width, poly, RefinRegisterOf(a, width, poly, init))
  {
    var mask := Pow2(width) - 1;
    AndLowMask(init, width);
    var crc0 := And(init, mask);
    var mid := RefinRegister(a, poly, crc0);
    var m := RefinRegisterOf(a, width, poly, init);
    assert m == mid && And(m, mask) == m by {
      RefinRegisterBound(a, poly, width, crc0);
      MaskKeeps(mid, width);
    }
    assert RefinRegisterOf(a + b, width, poly, init) == And(RefinRegister(b, poly, mid), mask) by {
      RefinRegisterAppend(a, b, poly, crc0);
    }
  }

  /** Resuming the MSB-first register from where `a` left it. */
  lemma RegisterOfAppend(a: seq<Byte>, b: seq<Byte>, width: nat, poly: int, init: int)
    requires width >= 8
    ensures RegisterOf(a + b, width, poly, init) == RegisterOf(b, width, poly, RegisterOf(a, width, poly, init))
  {
    AndLowMask(init, width);
    var crc0 := And(init, Pow2(width) - 1);
    var m := RegisterOf(a, width, poly, init);
    MaskKeeps(m, width);
    if |a| > 0 && |b| > 0 {
      NormalRegisterAppend(a, b, poly, width, crc0);
    } else if |a| == 0 {
      assert a + b == b;
    } else {
      assert a + b == a;
    }
  }

  // ---------------------------------------------------------------------
  // checksum_sum8

  /** `checksum_sum8(frame, start, end)`: the byte sum of
      `frame[start:end + 1]` (Python slice) masked to 8 bits. */
  function Sum8(frame: seq<Byte>, start: int, end: int): (r: nat)
    ensures r < 256
    ensures r == Sum(PySlice(frame, start, end + 1)) % 256
    ensures 0 <= start <= end < |frame| ==> r == Sum(frame[start..end + 1]) % 256
  {
    var s := Sum(PySlice(frame, start, end + 1));
    SumNonNeg(PySlice(frame, start, end + 1));
    AndLowMask(s, 8);
    And(s, 0xFF)
  }

  // ---------------------------------------------------------------------
  // checksum_cs15

  /** Little-endian word `j` of `d`; a missing high byte reads as the zero
      byte `cs15` pads with. */
  function Word(d: seq<Byte>, j: nat): nat
    requires 2 * j < |d|
  {
    var hi: int := if 2 * j + 1 < |d| then d[2 * j + 1] else 0;
    d[2 * j] + 256 * hi
  }

  /** The words of `d`, one per started pair of bytes. */
  function Words(d: seq<Byte>): (ws: seq<nat>)
    ensures |ws| == (|d| + 1) / 2
  {
    seq((|d| + 1) / 2, j requires 0 <= j < (|d| + 1) / 2 => Word(d, j))
  }

  /** Reference value of the `chk32` accumulator: word `j` of `m` weighs
      `2^(m - 1 - j)`. */
  function Weighted(ws: seq<nat>): nat {
    if |ws| == 0 then 0 else ws[0] * Pow2(|ws| - 1) + Weighted(ws[1..])
  }

  /** Reference end-around fold: `(x mod 2^15 + x div 2^15) mod 2^15`. */
  function Fold15(x: nat): nat {
    (x % Pow2(15) + x / Pow2(15)) % Pow2(15)
  }

  /** The loop `chk32 = (chk32 << 1) + (data[i] | (data[i+1] << 8))` over
      the padded data from position `i`. */
  function Cs15Loop(d: seq<Byte>, i: nat, chk: int): int
    requires |d| % 2 == 0 && i <= |d| && i % 2 == 0
    decreases |d| - i
  {
    if i == |d| then chk
    else Cs15Loop(d, i + 2, Shl(chk, 1) + Or(d[i], Shl(d[i + 1], 8)))
  }

  /** `data` with the zero byte appended when its length is odd. */
  function Pad(data: seq<Byte>): (d: seq<Byte>)
    ensures |d| % 2 == 0
  {
    if |data| % 2 == 1 then data + [0] else data
  }

  /** `checksum_cs15(data)` */
  function Cs15(data: seq<Byte>): (r: nat)
    ensures r < 0x8000
    ensures r == Fold15(Weighted(Words(data)))
  {
    var d := Pad(data);
    var chk := Cs15Loop(d, 0, 0);
    Cs15Total(data, d, chk);
    Fold15Bits(chk)
  }

  /** `(chk32 & 0x7FFF) + (chk32 >> 15)`, masked again with `0x7FFF`. */
  function Fold15Bits(chk: nat): (r: nat)
    ensures r == Fold15(chk) && r < 0x8000
  {
    Fold15Masks(chk);
    And(And(chk, 0x7FFF) + Shr(chk, 15), 0x7FFF)
  }

  /** The loop over the padded data computes the weighted sum of the
      unpadded data's words. */
  lemma Cs15Total(data: seq<Byte>, d: seq<Byte>, chk: int)
    requires d == Pad(data) && chk == Cs15Loop(d, 0, 0)
    ensures chk == Weighted(Words(data))
  {
    Cs15LoopTotal(d);
    PadWords(data);
  }

  /** The masks and shift of `checksum_cs15` compute `Fold15`. */
  lemma Fold15Masks(chk: nat)
    ensures And(And(chk, 0x7FFF) + Shr(chk, 15), 0x7FFF) == Fold15(chk) < 0x8000
  {
    var p := Pow2(15);
    assert p == 0x8000 by {
      assert Pow2(8) == 256 && Pow2(7) == 128;
      Pow2Add(8, 7);
    }
    AndLowMask(chk, 15);
    var checksum := And(chk, 0x7FFF) + Shr(chk, 15);
    assert checksum == chk % p + chk / p;
    AndLowMask(checksum, 15);
  }

  /** Padding changes no word. */
  lemma PadWords(data: seq<Byte>)
    ensures Words(Pad(data)) == Words(data)
  {
    var d := Pad(data);
    assert |Words(d)| == |Words(data)|;
    forall j | 0 <= j < |Words(d)|
      ensures Words(d)[j] == Words(data)[j]
    {
      assert d[2 * j] == data[2 * j];
      if 2 * j + 1 < |data| {
        assert d[2 * j + 1] == data[2 * j + 1];
      }
    }
  }

  /** An odd-length input gives the same `cs15` as the input with its zero
      pad byte written out. */
  lemma Cs15PadInvariant(data: seq<Byte>)
    requires |data| % 2 == 1
    ensures Cs15(data + [0]) == Cs15(data)
  {
    assert Pad(data) == data + [0];
    PadWords(data);
    PadWords(data + [0]);
  }

  /** Horner's fold from `acc` is the weighted sum shifted past it. */
  lemma {:induction false} HornerWeighted(ws: seq<nat>, acc: int)
    ensures HornerFold(ws, acc) == acc * Pow2(|ws|) + Weighted(ws)
    decreases |ws|
  {
    if |ws| > 0 {
      var p := Pow2(|ws| - 1);
      HornerWeighted(ws[1..], 2 * acc + ws[0]);
      assert Pow2(|ws|) == 2 * p;
      ShiftedWeight(acc, ws[0], p);
    }
  }

  /** One Horner step moves the accumulator one place further up. */
  lemma ShiftedWeight(acc: int, w: int, p: int)
    ensures (2 * acc + w) * p == acc * (2 * p) + w * p
  {
  }

  function HornerFold(ws: seq<nat>, acc: int): int {
    if |ws| == 0 then acc else HornerFold(ws[1..], 2 * acc + ws[0])
  }

  /** The byte loop folds the words of the (even-length) data: from byte
      `2 * k` on it folds the words from `k` on. */
  lemma {:induction false} Cs15LoopWeighted(d: seq<Byte>, k: nat, chk: int)
    requires |d| % 2 == 0 && 2 * k <= |d|
    ensures Cs15Loop(d, 2 * k, chk) == HornerFold(Words(d)[k..], chk)
    decreases |d| - 2 * k
  {
    var ws := Words(d);
    if 2 * k < |d| {
      var word := Or(d[2 * k], Shl(d[2 * k + 1], 8));
      PairWord(d, k);
      assert Cs15Loop(d, 2 * k, chk) == Cs15Loop(d, 2 * (k + 1), 2 * chk + word);
      HornerStep(ws, k, chk);
      Cs15LoopWeighted(d, k + 1, 2 * chk + word);
    } else {
      assert ws[k..] == [];
    }
  }

  /** One step of Horner's fold over a suffix. */
  lemma HornerStep(ws: seq<nat>, k: nat, acc: int)
    requires k < |ws|
    ensures HornerFold(ws[k..], acc) == HornerFold(ws[k + 1..], 2 * acc + ws[k])
  {
    assert ws[k..][0] == ws[k];
    assert ws[k..][1..] == ws[k + 1..];
  }

  /** The loop over the whole padded data computes the weighted sum. */
  lemma Cs15LoopTotal(d: seq<Byte>)
    requires |d| % 2 == 0
    ensures Cs15Loop(d, 0, 0) == Weighted(Words(d))
  {
    Cs15LoopWeighted(d, 0, 0);
    assert Words(d)[0..] == Words(d);
    HornerWeighted(Words(d), 0);
  }

  /** `data[2k] | (data[2k + 1] << 8)` is word `k`. */
  lemma PairWord(d: seq<Byte>, k: nat)
    requires |d| % 2 == 0 && 2 * k < |d|
    ensures Or(d[2 * k], Shl(d[2 * k + 1], 8)) == Word(d, k)
  {
    OrDisjoint(d[2 * k + 1], d[2 * k], 8);
    OrCommutes(d[2 * k], Shl(d[2 * k + 1], 8));
  }

  /** `a | b == b | a` */
  lemma {:induction false} OrCommutes(a: int, b: int)
    ensures Or(a, b) == Or(b, a)
    decreases Abs(a) + Abs(b)
  {
    if !(IsSignOnly(a) && IsSignOnly(b)) {
      HalfShrinks(a);
      HalfShrinks(b);
      OrCommutes(a / 2, b / 2);
    }
  }

  // ---------------------------------------------------------------------
  // checksum_xor16_slices

  /** `acc ^= frame[i]` for each index `i` of `idx` inside the frame, in order. */
  function XorFrom(acc: int, frame: seq<Byte>, idx: seq<nat>): int
    decreases |idx|
  {
    if |idx| == 0 then acc
    else XorFrom(if idx[0] < |frame| then Xor(acc, frame[idx[0]]) else acc, frame, idx[1..])
  }

  /** Reference: the XOR of the bytes at the selected indices. */
  function XorOf(frame: seq<Byte>, idx: seq<nat>): int {
    XorFrom(0, frame, idx)
  }

  lemma {:induction false} XorFromAppend(acc: int, frame: seq<Byte>, a: seq<nat>, b: seq<nat>)
    ensures XorFrom(acc, frame, a + b) == XorFrom(XorFrom(acc, frame, a), frame, b)
    decreases |a|
  {
    if |a| > 0 {
      assert (a + b)[1..] == a[1..] + b;
      XorFromAppend(if a[0] < |frame| then Xor(acc, frame[a[0]]) else acc, frame, a[1..], b);
    } else {
      assert a + b == b;
    }
  }

  /** Folding bytes into a byte-sized accumulator stays a byte. */
  lemma {:induction false} XorFromByte(acc: int, frame: seq<Byte>, idx: seq<nat>)
    requires 0 <= acc < 256
    ensures 0 <= XorFrom(acc, frame, idx) < 256
    decreases |idx|
  {
    if |idx| > 0 {
      if idx[0] < |frame| {
        XorBound(acc, frame[idx[0]], 8);
        XorFromByte(Xor(acc, frame[idx[0]]), frame, idx[1..]);
      } else {
        XorFromByte(acc, frame, idx[1..]);
      }
    }
  }

  /** The in-range ones of `pos + rel` for `rel` in `rels`, in order. */
  function RelIndices(n: nat, pos: int, rels: seq<int>): (r: seq<nat>)
    ensures forall k :: 0 <= k < |r| ==> r[k] < n
  {
    if |rels| == 0 then []
    else (if 0 <= pos + rels[0] < n then [(pos + rels[0]) as nat] else []) + RelIndices(n, pos, rels[1..])
  }

  /** The loop `for rel in rels: idx = pos + rel; if 0 <= idx < len(frame): acc ^= frame[idx]`. */
  function XorRels(frame: seq<Byte>, pos: int, rels: seq<int>, acc: int): (r: int)
    ensures r == XorFrom(acc, frame, RelIndices(|frame|, pos, rels))
  {
    if |rels| == 0 then acc
    else
      var idx := pos + rels[0];
      var acc' := if 0 <= idx < |frame| then Xor(acc, frame[idx]) else acc;
      var here := if 0 <= idx < |frame| then [idx as nat] else [];
      XorFromAppend(acc, frame, here, RelIndices(|frame|, pos, rels[1..]));
      XorRels(frame, pos, rels[1..], acc')
  }

  /** The loop over the seed offsets: those inside the frame are selected. */
  function XorSeeds(frame: seq<Byte>, offs: seq<int>, acc: int): (r: int)
    ensures r == XorFrom(acc, frame, RelIndices(|frame|, 0, offs))
  {
    if |offs| == 0 then acc
    else
      var acc' := if 0 <= offs[0] < |frame| then Xor(acc, frame[offs[0]]) else acc;
      var here := if 0 <= offs[0] < |frame| then [offs[0] as nat] else [];
      XorFromAppend(acc, frame, here, RelIndices(|frame|, 0, offs[1..]));
      XorSeeds(frame, offs[1..], acc')
  }

  /** The positions a slice walks: `start, start + stride, ... <= end`. */
  datatype Window = Window(start: nat, end: nat, stride: nat)

  /** The bounds handling of one `data_slices` entry: `None` when it is
      skipped (non-positive stride or an empty window after clamping). */
  function SliceWindow(n: nat, sl: XorSlice): (r: Option<Window>)
    ensures r.Some? ==> r.value.stride >= 1 && r.value.start <= r.value.end < n
    ensures sl.stride.GetOr(1) <= 0 ==> r.None?
    ensures n == 0 ==> r.None?
  {
    var start := sl.from.GetOr(0);
    var end := sl.to.GetOr(n - 1);
    var stride := sl.stride.GetOr(1);
    if stride <= 0 then None
    else
      var end1 := if end < 0 then n + end else end;
      var start1 := if start < 0 then n + start else start;
      var start2 := if start1 < 0 then 0 else start1;
      var end2 := if end1 >= n then n - 1 else end1;
      if start2 > end2 then None else Some(Window(start2, end2, stride))
  }

  /** The indices one slice selects for one of the two accumulators. */
  function WindowIndices(n: nat, pos: nat, w: Window, rels: seq<int>): (r: seq<nat>)
    requires w.stride >= 1
    ensures forall k :: 0 <= k < |r| ==> r[k] < n
    decreases w.end + 1 - pos
  {
    if pos > w.end then [] else RelIndices(n, pos, rels) + WindowIndices(n, pos + w.stride, w, rels)
  }

  /** The `while pos <= end` loop of one slice, updating both accumulators. */
  function XorWindow(frame: seq<Byte>, pos: nat, w: Window, lowRel: seq<int>, upRel: seq<int>, low: int, up: int): (r: (int, int))
    requires w.stride >= 1
    ensures r.0 == XorFrom(low, frame, WindowIndices(|frame|, pos, w, lowRel))
    ensures r.1 == XorFrom(up, frame, WindowIndices(|frame|, pos, w, upRel))
    decreases w.end + 1 - pos
  {
    if pos > w.end then (low, up)
    else
      var n := |frame|;
      XorFromAppend(low, frame, RelIndices(n, pos, lowRel), WindowIndices(n, pos + w.stride, w, lowRel));
      XorFromAppend(up, frame, RelIndices(n, pos, upRel), WindowIndices(n, pos + w.stride, w, upRel));
      XorWindow(frame, pos + w.stride, w, lowRel, upRel, XorRels(frame, pos, lowRel, low), XorRels(frame, pos, upRel, up))
  }

  /** Every index the slices select for the low (`low`) or high accumulator. */
  function SliceIndices(n: nat, slices: seq<XorSlice>, low: bool): (r: seq<nat>)
    ensures forall k :: 0 <= k < |r| ==> r[k] < n
  {
    if |slices| == 0 then []
    else
      var here := match SliceWindow(n, slices[0])
        case None => []
        case Some(w) => WindowIndices(n, w.start, w, if low then slices[0].lowRel else slices[0].upRel);
      here + SliceIndices(n, slices[1..], low)
  }

  /** The loop over `data_slices`. */
  function XorSlicesLoop(frame: seq<Byte>, slices: seq<XorSlice>, low: int, up: int): (r: (int, int))
    ensures r.0 == XorFrom(low, frame, SliceIndices(|frame|, slices, true))
    ensures r.1 == XorFrom(up, frame, SliceIndices(|frame|, slices, false))
  {
    if |slices| == 0 then (low, up)
    else
      var n := |frame|;
      var sl := slices[0];
      match SliceWindow(n, sl)
      case None =>
        assert SliceIndices(n, slices, true) == SliceIndices(n, slices[1..], true);
        assert SliceIndices(n, slices, false) == SliceIndices(n, slices[1..], false);
        XorSlicesLoop(frame, slices[1..], low, up)
      case Some(w) =>
        var (low', up') := XorWindow(frame, w.start, w, sl.lowRel, sl.upRel, low, up);
        XorFromAppend(low, frame, WindowIndices(n, w.start, w, sl.lowRel), SliceIndices(n, slices[1..], true));
        XorFromAppend(up, frame, WindowIndices(n, w.start, w, sl.upRel), SliceIndices(n, slices[1..], false));
        XorSlicesLoop(frame, slices[1..], low', up')
  }

  /** The bytes XOR-ed into the low (`low`) or high accumulator: the
      in-range seed offsets, then every slice's selections in order. */
  function Selected(n: nat, p: Params, low: bool): (r: seq<nat>)
    ensures forall k :: 0 <= k < |r| ==> r[k] < n
  {
    RelIndices(n, 0, if low then p.seedLow else p.seedUp) + SliceIndices(n, p.slices, low)
  }

  /** `checksum_xor16_slices(frame, params)`: the high byte is the XOR of
      the bytes selected for `up`, the low byte that of the bytes selected
      for `low`. */
  function Xor16(frame: seq<Byte>, p: Params): (r: nat)
    ensures r < 0x1_0000
    ensures r == XorOf(frame, Selected(|frame|, p, false)) * 256 + XorOf(frame, Selected(|frame|, p, true))
    ensures 0 <= XorOf(frame, Selected(|frame|, p, false)) < 256 && 0 <= XorOf(frame, Selected(|frame|, p, true)) < 256
  {
    var low0 := XorSeeds(frame, p.seedLow, 0);
    var up0 := XorSeeds(frame, p.seedUp, 0);
    var acc := XorSlicesLoop(frame, p.slices, low0, up0);
    SelectedFold(frame, p);
    PackWord(acc.1, acc.0);
    And(Or(Shl(acc.1, 8), acc.0), 0xFFFF)
  }

  /** The two accumulators end as the XOR of their selected bytes. */
  lemma SelectedFold(frame: seq<Byte>, p: Params)
    ensures var acc := XorSlicesLoop(frame, p.slices, XorSeeds(frame, p.seedLow, 0), XorSeeds(frame, p.seedUp, 0));
            acc.0 == XorOf(frame, Selected(|frame|, p, true)) && acc.1 == XorOf(frame, Selected(|frame|, p, false))
            && 0 <= acc.0 < 256 && 0 <= acc.1 < 256
  {
    var n := |frame|;
    XorFromAppend(0, frame, RelIndices(n, 0, p.seedLow), SliceIndices(n, p.slices, true));
    XorFromAppend(0, frame, RelIndices(n, 0, p.seedUp), SliceIndices(n, p.slices, false));
    XorFromByte(0, frame, Selected(n, p, true));
    XorFromByte(0, frame, Selected(n, p, false));
  }

  /** `((up << 8) | low) & 0xFFFF` for two bytes is `up * 256 + low`. */
  lemma PackWord(up: int, low: int)
    requires 0 <= up < 256 && 0 <= low < 256
    ensures And(Or(Shl(up, 8), low), 0xFFFF) == up * 256 + low
  {
    assert Pow2(8) == 256 && Pow2(16) == 0x1_0000;
    var x := Or(Shl(up, 8), low);
    assert x == up * 256 + low by { OrDisjoint(up, low, 8); }
    assert x < 0x1_0000 by {
      assert up * 256 <= 255 * 256;
    }
    assert And(x, 0xFFFF) == x by {
      AndLowMask(x, 16);
      DivUnique(x, Pow2(16), 0, x);
    }
  }

  // ---------------------------------------------------------------------
  // Stored checksums

  /** `resolve_index(index, total_len)`: a negative index counts from the end. */
  function ResolveIndex(index: int, totalLen: int): (r: int)
    ensures 0 <= r < totalLen <==> -totalLen <= index < totalLen || (index >= 0 && index < totalLen)
    ensures index < 0 ==> r - index == totalLen
    ensures index >= 0 ==> r == index
  {
    if index >= 0 then index else totalLen + index
  }

  /** A resolved index inside the frame names the byte Python's indexing names. */
  lemma ResolveMatchesIndexing<T>(s: seq<T>, index: int)
    requires 0 <= ResolveIndex(index, |s|) < |s|
    ensures PyIndex(s, index) == Ok(s[ResolveIndex(index, |s|)])
  {
  }

  /** `_checksum_nbytes(store_format)` */
  function ChecksumNBytes(fmt: string): (r: Result<nat>)
    ensures r.Ok? <==> fmt == "uint8" || StartsWith(fmt, "uint16_") || StartsWith(fmt, "uint32_")
    ensures r == Ok(1) <==> fmt == "uint8"
    ensures r == Ok(2) <==> fmt != "uint8" && StartsWith(fmt, "uint16_")
    ensures r.Ok? ==> r.value == 1 || r.value == 2 || r.value == 4
  {
    if fmt == "uint8" then Ok(1)
    else if StartsWith(fmt, "uint16_") then Ok(2)
    else if StartsWith(fmt, "uint32_") then Ok(4)
    else Err("Unsupported store_format")
  }

  /** The byte order a store format names, when it names one. */
  predicate FormatReadable(fmt: string) {
    fmt == "uint8" || EndsWith(fmt, "_le") || EndsWith(fmt, "_be")
  }

  /** `read_expected_checksum(frame, store_at, store_format)`: the unsigned
      value of the `n` bytes at the resolved position, little-endian for a
      `_le` format and big-endian for `_be`. */
  function ReadExpected(frame: seq<Byte>, storeAt: int, fmt: string): (r: Result<nat>)
    ensures r.Ok? <==> ChecksumNBytes(fmt).Ok?
                       && 0 <= ResolveIndex(storeAt, |frame|)
                       && ResolveIndex(storeAt, |frame|) + ChecksumNBytes(fmt).value <= |frame|
                       && FormatReadable(fmt)
    ensures r.Ok? ==>
      var n := ChecksumNBytes(fmt).value;
      var start := ResolveIndex(storeAt, |frame|);
      var raw := frame[start..start + n];
      r.value < Pow256(n)
      && (fmt == "uint8" ==> r.value == frame[start])
      && (fmt != "uint8" && EndsWith(fmt, "_le") ==> r.value == FromLE(raw))
      && (fmt != "uint8" && !EndsWith(fmt, "_le") ==> r.value == FromBE(raw))
  {
    var n :- ChecksumNBytes(fmt);
    var start := ResolveIndex(storeAt, |frame|);
    var end := start + n;
    if start < 0 || end > |frame| then Err("Checksum field out of bounds")
    else
      var raw := frame[start..end];
      if fmt == "uint8" then Ok(raw[0])
      else if EndsWith(fmt, "_le") then Ok(FromLE(raw))
      else if EndsWith(fmt, "_be") then Ok(FromBE(raw))
      else Err("Unsupported store_format")
  }

  // ---------------------------------------------------------------------
  // compute_checksum / verify_checksum

  /** The inclusive range `[start, end]` of `checksum.range` resolved
      against the frame, or the error `compute_checksum` raises. */
  function ResolveRange(frame: seq<Byte>, rng: Option<Range>): (r: Result<(nat, nat)>)
    ensures r.Ok? ==> r.value.0 <= r.value.1 < |frame|
    ensures r.Ok? ==> rng.Some? && rng.value.from.Some? && rng.value.to.Some?
                      && r.value.0 == ResolveIndex(rng.value.from.value, |frame|)
                      && r.value.1 == ResolveIndex(rng.value.to.value, |frame|)
    ensures rng.Some? && rng.value.from.Some? && rng.value.to.Some? ==>
      (r.Ok? <==> 0 <= ResolveIndex(rng.value.from.value, |frame|) <= ResolveIndex(rng.value.to.value, |frame|) < |frame|)
  {
    match rng
    case None => Err("Checksum requires checksum.range")
    case Some(Range(from, to)) =>
      if from.None? || to.None? then Err("KeyError")
      else
        var start := ResolveIndex(from.value, |frame|);
        var end := ResolveIndex(to.value, |frame|);
        if start < 0 || end < 0 || start >= |frame| || end >= |frame| || end < start then Err("Invalid checksum.range")
        else Ok((start, end))
  }

  /** A store format is given when it is present and not the empty string. */
  predicate HasFormat(spec: ChecksumSpec) {
    spec.storeFormat.Some? && spec.storeFormat.value != ""
  }

  /** The CRC parameters, all five keys required. */
  predicate HasCrcParams(p: Params) {
    p.poly.Some? && p.init.Some? && p.xorout.Some? && p.refin.Some? && p.refout.Some?
  }

  predicate IsCrcType(t: string) {
    t == "crc16" || t == "crc32"
  }

  predicate IsKnownType(t: string) {
    t == "sum8" || t == "cs15" || t == "xor16_slices" || IsCrcType(t)
  }

  /** The CRC width a checksum type names. */
  function CrcWidth(t: string): nat {
    if t == "crc16" then 16 else 32
  }

  /** The value of a checksum type other than `xor16_slices` over the
      resolved range `[start, end]` of the frame. */
  function RangeChecksum(frame: seq<Byte>, start: nat, end: nat, ctype: string, spec: ChecksumSpec): (r: Result<nat>)
    requires start <= end < |frame|
    ensures ctype == "sum8" ==> r == Ok(Sum(frame[start..end + 1]) % 256)
    ensures ctype == "cs15" ==> r == Ok(Cs15(frame[start..end + 1]))
    ensures IsCrcType(ctype) ==> (r.Ok? <==> HasFormat(spec) && spec.params.Some? && HasCrcParams(spec.params.value))
    ensures IsCrcType(ctype) && r.Ok? ==>
              var p := spec.params.value;
              r == CrcCompute(frame[start..end + 1], CrcWidth(ctype), p.poly.value, p.init.value, p.xorout.value,
                              p.refin.value, p.refout.value)
    ensures !IsKnownType(ctype) || ctype == "xor16_slices" ==> r.Err?
    ensures r.Ok? && ctype == "crc16" ==> r.value < 0x1_0000
    ensures r.Ok? ==> r.value < 0x1_0000_0000
  {
    var data := frame[start..end + 1];
    if ctype == "sum8" then Ok(Sum8(frame, start, end))
    else if ctype == "cs15" then Ok(Cs15(data))
    else if IsCrcType(ctype) then
      if !HasFormat(spec) then Err("CRC requires checksum.store_format")
      else if spec.params.None? then Err("CRC requires checksum.params")
      else if !HasCrcParams(spec.params.value) then Err("KeyError")
      else
        var p := spec.params.value;
        CrcWidthBounds();
        CrcCompute(data, CrcWidth(ctype), p.poly.value, p.init.value, p.xorout.value, p.refin.value, p.refout.value)
    else Err("Unsupported checksum type")
  }

  lemma CrcWidthBounds()
    ensures Pow2(16) == 0x1_0000 && Pow2(32) == 0x1_0000_0000
  {
    assert Pow2(8) == 0x100;
    Pow2Add(8, 8);
    Pow2Add(16, 16);
  }

  /** `compute_checksum(frame, checksum_spec)` */
  function ComputeChecksum(frame: seq<Byte>, spec: ChecksumSpec): (r: Result<nat>)
    ensures spec.ctype.None? ==> r.Err?
    ensures spec.ctype == Some("xor16_slices") ==>
              (r.Ok? <==> spec.params.Some?) && (r.Ok? ==> r.value == Xor16(frame, spec.params.value))
    ensures spec.ctype.Some? && spec.ctype.value != "xor16_slices" ==>
              (ResolveRange(frame, spec.range).Err? ==> r.Err?)
              && (ResolveRange(frame, spec.range).Ok? ==>
                    r == RangeChecksum(frame, ResolveRange(frame, spec.range).value.0,
                                       ResolveRange(frame, spec.range).value.1, spec.ctype.value, spec))
    ensures r.Ok? ==> r.value < 0x1_0000_0000
  {
    match spec.ctype
    case None => Err("KeyError: 'type'")
    case Some(ctype) =>
      if ctype == "xor16_slices" then
        match spec.params
        case None => Err("xor16_slices requires checksum.params")
        case Some(p) => Ok(Xor16(frame, p))
      else
        var (start, end) :- ResolveRange(frame, spec.range);
        RangeChecksum(frame, start, end, ctype, spec)
  }

  /** The store format `verify_checksum` reads with: the given one, or
      the default of the checksum type. */
  function StoreFormat(spec: ChecksumSpec, ctype: string): (r: Result<string>)
    ensures HasFormat(spec) ==> r == Ok(spec.storeFormat.value)
    ensures !HasFormat(spec) && ctype == "sum8" ==> r == Ok("uint8")
    ensures !HasFormat(spec) && (ctype == "cs15" || ctype == "xor16_slices") ==> r == Ok("uint16_le")
    ensures r.Err? <==> !HasFormat(spec) && ctype != "sum8" && ctype != "cs15" && ctype != "xor16_slices"
  {
    if HasFormat(spec) then Ok(spec.storeFormat.value)
    else if ctype == "sum8" then Ok("uint8")
    else if ctype == "cs15" || ctype == "xor16_slices" then Ok("uint16_le")
    else Err("checksum.store_format is required for this checksum type")
  }

  /** `verify_checksum(frame, checksum_spec)`: the stored value is read
      first, then computed; true iff the two are equal. */
  function VerifyChecksum(frame: seq<Byte>, spec: ChecksumSpec): (r: Result<bool>)
    ensures r.Ok? <==> spec.ctype.Some? && StoreFormat(spec, spec.ctype.value).Ok? && spec.storeAt.Some?
                       && ReadExpected(frame, spec.storeAt.value, StoreFormat(spec, spec.ctype.value).value).Ok?
                       && ComputeChecksum(frame, spec).Ok?
    ensures r.Ok? ==> (r.value <==> ComputeChecksum(frame, spec).value
                                    == ReadExpected(frame, spec.storeAt.value, StoreFormat(spec, spec.ctype.value).value).value)
  {
    match spec.ctype
    case None => Err("KeyError: 'type'")
    case Some(ctype) =>
      var fmt :- StoreFormat(spec, ctype);
      if spec.storeAt.None? then Err("KeyError: 'store_at'")
      else
        var expected :- ReadExpected(frame, spec.storeAt.value, fmt);
        var actual :- ComputeChecksum(frame, spec);
        Ok(actual == expected)
  }
}
