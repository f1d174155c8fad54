/** Python `bytes`/`bytearray` operations the framing engine relies on:
    slicing with possibly negative bounds, indexing, `find`, and
    `int.from_bytes` / `struct.pack` for unsigned integers. */
module PyBytes {
  import opened Wrappers
  import PyInt

  type Byte = x: int | 0 <= x < 256

  predicate IsPrefix<T(==)>(p: seq<T>, s: seq<T>) {
    |p| <= |s| && s[..|p|] == p
  }

  predicate IsSuffix<T(==)>(p: seq<T>, s: seq<T>) {
    |p| <= |s| && s[|s| - |p|..] == p
  }

  /** Where a slice bound `i` lands in a sequence of length `n`. */
  function SliceBound(i: int, n: nat): (r: nat)
    ensures r <= n
    ensures 0 <= i <= n ==> r == i
    ensures i > n ==> r == n
    ensures i < 0 ==> (r == 0 <==> i + n <= 0)
  {
    if i < 0 then (if i + n < 0 then 0 else i + n)
    else if i > n then n
    else i
  }

  /** `s[i:j]` */
  function PySlice<T>(s: seq<T>, i: int, j: int): (r: seq<T>)
    ensures |r| <= |s|
    ensures 0 <= i <= j <= |s| ==> r == s[i..j]
  {
    var a := SliceBound(i, |s|);
    var b := SliceBound(j, |s|);
    if b <= a then [] else s[a..b]
  }

  /** `s[i]`, which raises `IndexError` outside `-len(s) <= i < len(s)`. */
  function PyIndex<T>(s: seq<T>, i: int): (r: Result<T>)
    ensures r.Ok? <==> -|s| <= i < |s|
    ensures 0 <= i < |s| ==> r == Ok(s[i])
    ensures -|s| <= i < 0 ==> r == Ok(s[|s| + i])
  {
    if 0 <= i < |s| then Ok(s[i])
    else if -|s| <= i < 0 then Ok(s[|s| + i])
    else Err("index out of range")
  }

  predicate OccursAt<T(==)>(s: seq<T>, sub: seq<T>, k: int) {
    0 <= k && k + |sub| <= |s| && s[k..k + |sub|] == sub
  }

  /** `s.find(sub, start)` for a non-negative `start`: the first
      occurrence at or after `start`, or -1. */
  function FindFrom<T(==)>(s: seq<T>, sub: seq<T>, start: nat): (r: int)
    ensures r == -1 || (start <= r && OccursAt(s, sub, r))
    ensures r == -1 ==> forall k :: start <= k <= |s| - |sub| ==> !OccursAt(s, sub, k)
    ensures r >= 0 ==> forall k :: start <= k < r ==> !OccursAt(s, sub, k)
    decreases |s| - start
  {
    if start + |sub| > |s| then -1
    else if s[start..start + |sub|] == sub then start
    else FindFrom(s, sub, start + 1)
  }

  /** `s.find(sub)` */
  function Find<T(==)>(s: seq<T>, sub: seq<T>): (r: int)
    ensures r == -1 || OccursAt(s, sub, r)
    ensures r == -1 ==> forall k :: 0 <= k <= |s| - |sub| ==> !OccursAt(s, sub, k)
    ensures r >= 0 ==> forall k :: 0 <= k < r ==> !OccursAt(s, sub, k)
  {
    FindFrom(s, sub, 0)
  }

  function Sum(bs: seq<int>): int {
    if |bs| == 0 then 0 else bs[0] + Sum(bs[1..])
  }

  lemma SumNonNeg(bs: seq<Byte>)
    ensures Sum(bs) >= 0
  {
  }

  function Pow256(n: nat): (r: nat)
    ensures r >= 1
  {
    if n == 0 then 1 else 256 * Pow256(n - 1)
  }

  lemma Pow256Values()
    ensures Pow256(1) == 0x100
    ensures Pow256(2) == 0x1_0000
    ensures Pow256(4) == 0x1_0000_0000
  {
    assert Pow256(3) == 0x100_0000;
  }

  /** `int.from_bytes(bs, "little", signed=False)` */
  function FromLE(bs: seq<Byte>): (r: nat)
    ensures r < Pow256(|bs|)
  {
    if |bs| == 0 then 0 else bs[0] + 256 * FromLE(bs[1..])
  }

  /** `int.from_bytes(bs, "big", signed=False)` */
  function FromBE(bs: seq<Byte>): (r: nat)
    ensures r < Pow256(|bs|)
  {
    if |bs| == 0 then 0 else 256 * FromBE(bs[..|bs| - 1]) + bs[|bs| - 1]
  }

  /** The `n` little-endian bytes of `v mod 256^n`, as `struct.pack` writes
      an unsigned value that fits. */
  function ToLE(v: nat, n: nat): (r: seq<Byte>)
    ensures |r| == n
  {
    if n == 0 then [] else [v % 256] + ToLE(v / 256, n - 1)
  }

  /** The `n` big-endian bytes of `v mod 256^n`. */
  function ToBE(v: nat, n: nat): (r: seq<Byte>)
    ensures |r| == n
  {
    if n == 0 then [] else ToBE(v / 256, n - 1) + [v % 256]
  }

  lemma ModPow256Step(v: nat, n: nat)
    requires n >= 1
    ensures v % Pow256(n) == v % 256 + 256 * ((v / 256) % Pow256(n - 1))
  {
    var q := (v / 256) / Pow256(n - 1);
    var r := (v / 256) % Pow256(n - 1);
    assert v / 256 == Pow256(n - 1) * q + r;
    assert v == 256 * (v / 256) + v % 256;
    assert v == Pow256(n) * q + (v % 256 + 256 * r);
    assert 0 <= v % 256 + 256 * r < Pow256(n) by {
      assert r <= Pow256(n - 1) - 1;
      assert 256 * r <= 256 * Pow256(n - 1) - 256;
    }
    PyInt.DivUnique(v, Pow256(n), q, v % 256 + 256 * r);
  }

  /** Little-endian encoding and decoding are inverse up to truncation. */
  lemma {:induction false} FromToLE(v: nat, n: nat)
    ensures FromLE(ToLE(v, n)) == v % Pow256(n)
  {
    if n > 0 {
      var r := ToLE(v, n);
      assert r[1..] == ToLE(v / 256, n - 1);
      FromToLE(v / 256, n - 1);
      ModPow256Step(v, n);
    }
  }

  /** Big-endian encoding and decoding are inverse up to truncation. */
  lemma {:induction false} FromToBE(v: nat, n: nat)
    ensures FromBE(ToBE(v, n)) == v % Pow256(n)
  {
    if n > 0 {
      var r := ToBE(v, n);
      assert r[..n - 1] == ToBE(v / 256, n - 1);
      FromToBE(v / 256, n - 1);
      ModPow256Step(v, n);
    }
  }

  /** Every byte string is the encoding of its own value. */
  lemma {:induction false} ToFromLE(bs: seq<Byte>)
    ensures ToLE(FromLE(bs), |bs|) == bs
  {
    if |bs| > 0 {
      var v := FromLE(bs);
      assert v % 256 == bs[0] && v / 256 == FromLE(bs[1..]);
      ToFromLE(bs[1..]);
    }
  }

  lemma {:induction false} ToFromBE(bs: seq<Byte>)
    ensures ToBE(FromBE(bs), |bs|) == bs
  {
    if |bs| > 0 {
      var v := FromBE(bs);
      var init := bs[..|bs| - 1];
      assert v % 256 == bs[|bs| - 1] && v / 256 == FromBE(init);
      ToFromBE(init);
      assert init + [bs[|bs| - 1]] == bs;
    }
  }
}
