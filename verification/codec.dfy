/** Field values on the wire: the decoder's `parse_value` and the
    encoder's `encode_value`.

    The integer types are 1, 2 or 4 bytes, unsigned or two's-complement
    signed, little- or big-endian; `"bytes"` is raw data written as hex
    text.  The two directions are inverse to each other, which the lemmas
    at the end state. */
module Codec {
  import opened Wrappers
  import opened PyInt
  import opened PyBytes
  import opened PyStr
  import opened Values

  /** The layout of one integer field type. */
  datatype IntType = IntType(width: nat, signed: bool, big: bool)

  /** The integer types both scripts know, by their protocol names. */
  function IntTypeOf(t: string): (r: Option<IntType>)
    ensures r.Some? ==> r.value.width == 1 || r.value.width == 2 || r.value.width == 4
    ensures r.Some? && r.value.width == 1 ==> !r.value.big
    ensures r.Some? <==> t in {"uint8", "int8", "uint16_le", "uint16_be", "int16_le", "int16_be",
                               "uint32_le", "uint32_be", "int32_le", "int32_be"}
  {
    if t == "uint8" then Some(IntType(1, false, false))
    else if t == "int8" then Some(IntType(1, true, false))
    else if t == "uint16_le" then Some(IntType(2, false, false))
    else if t == "uint16_be" then Some(IntType(2, false, true))
    else if t == "int16_le" then Some(IntType(2, true, false))
    else if t == "int16_be" then Some(IntType(2, true, true))
    else if t == "uint32_le" then Some(IntType(4, false, false))
    else if t == "uint32_be" then Some(IntType(4, false, true))
    else if t == "int32_le" then Some(IntType(4, true, false))
    else if t == "int32_be" then Some(IntType(4, true, true))
    else None
  }

  /** The float types, whose values this model does not interpret. */
  predicate IsFloatType(t: string) {
    t == "float32_le" || t == "float32_be"
  }

  /** The unsigned value of `raw` in the given byte order. */
  function Unsigned(raw: seq<Byte>, big: bool): (r: nat)
    ensures r < Pow256(|raw|)
  {
    if big then FromBE(raw) else FromLE(raw)
  }

  /** The values an integer type can hold. */
  predicate InRange(i: int, it: IntType) {
    if it.signed then -(Pow256(it.width) / 2) <= i < Pow256(it.width) / 2
    else 0 <= i < Pow256(it.width)
  }

  /** Reading an `n`-byte pattern `u` as a two's-complement number. */
  function ToSigned(u: nat, n: nat): (r: int)
    requires n >= 1 && u < Pow256(n)
    ensures -(Pow256(n) / 2) <= r < Pow256(n) / 2
    ensures r % Pow256(n) == u
  {
    var p := Pow256(n);
    HalfPow256(n);
    if u >= p / 2 then
      DivUnique(u - p, p, -1, u);
      u - p
    else
      DivUnique(u, p, 0, u);
      u
  }

  lemma HalfPow256(n: nat)
    requires n >= 1
    ensures Pow256(n) == 2 * (Pow256(n) / 2)
  {
  }

  /** Two numbers in one window of `p` consecutive integers with the
      same residue are equal. */
  lemma SameInWindow(i: int, j: int, lo: int, p: int)
    requires p > 0
    requires lo <= i < lo + p && lo <= j < lo + p
    requires i % p == j % p
    ensures i == j
  {
    var qi := i / p;
    var qj := j / p;
    assert i == p * qi + i % p;
    assert j == p * qj + j % p;
    if qi > qj {
      MulGap(p, qi, qj);
      assert false;
    } else if qi < qj {
      MulGap(p, qj, qi);
      assert false;
    }
  }

  /** Two values of one type with the same bit pattern are equal. */
  lemma SameResidue(i: int, j: int, it: IntType)
    requires it.width >= 1
    requires InRange(i, it) && InRange(j, it)
    requires i % Pow256(it.width) == j % Pow256(it.width)
    ensures i == j
  {
    var p := Pow256(it.width);
    var h := p / 2;
    HalfPow256(it.width);
    assert p == 2 * h;
    if it.signed {
      assert -h <= i < h && -h <= j < h;
      SameInWindow(i, j, -h, p);
    } else {
      assert 0 <= i < p && 0 <= j < p;
      SameInWindow(i, j, 0, p);
    }
  }

  /** `2^(8n)` is `256^n`. */
  lemma {:induction false} Pow2Bytes(n: nat)
    ensures Pow2(8 * n) == Pow256(n)
  {
    if n > 0 {
      Pow2Bytes(n - 1);
      Pow2Add(8, 8 * (n - 1));
      assert Pow2(8) == 256;
      assert 8 + 8 * (n - 1) == 8 * n;
    }
  }

  /** `parse_value(data, value_type)` of the decoder; `ParseValueReads`
      says what it gives. */
  function ParseValue(data: seq<Byte>, t: string): Value
    requires !IsFloatType(t)
  {
    match IntTypeOf(t)
    case None => VStr(ToHex(data))
    case Some(it) =>
      if |data| < it.width then VNone
      else
        var u := Unsigned(data[..it.width], it.big);
        if it.signed then VInt(ToSigned(u, it.width)) else VInt(u)
  }

  /** Integer types read the first `width` bytes and give `None` when
      fewer are present; `"bytes"` and every unknown type give the hex
      text of all of `data`. */
  lemma ParseValueReads(data: seq<Byte>, t: string)
    requires !IsFloatType(t)
    ensures var r := ParseValue(data, t);
            (IntTypeOf(t).None? ==> r == VStr(ToHex(data)) && |r.s| == 2 * |data|)
            && (IntTypeOf(t).Some? && |data| < IntTypeOf(t).value.width ==> r == VNone)
            && (IntTypeOf(t).Some? && |data| >= IntTypeOf(t).value.width ==>
                  var it := IntTypeOf(t).value;
                  r.VInt? && InRange(r.i, it)
                  && r.i % Pow256(it.width) == Unsigned(data[..it.width], it.big))
  {
    match IntTypeOf(t)
    case None =>
    case Some(it) =>
      if |data| >= it.width && !it.signed {
        var u := Unsigned(data[..it.width], it.big);
        DivUnique(u, Pow256(it.width), 0, u);
      }
  }

  /** `struct.pack` of an integer that fits: the `width` bytes of its
      two's-complement pattern in the type's byte order. */
  function PackBytes(v: nat, it: IntType): (r: seq<Byte>)
    requires v < Pow256(it.width)
    ensures |r| == it.width
    ensures Unsigned(r, it.big) == v
  {
    FromToLE(v, it.width);
    FromToBE(v, it.width);
    DivUnique(v, Pow256(it.width), 0, v);
    if it.big then ToBE(v, it.width) else ToLE(v, it.width)
  }

  /** `encode_value(value, value_type)` of the encoder.  Unsigned types
      mask `int(value)` to their width; signed types reject a value out of
      range (`struct.error`); `"bytes"` takes hex text or, for an integer
      `n`, `n` zero bytes; any other type raises. */
  function EncodeValue(v: Value, t: string): (r: Result<seq<Byte>>)
    requires !IsFloatType(t)
    ensures IntTypeOf(t).Some? ==>
              var it := IntTypeOf(t).value;
              (r.Ok? <==> IntOf(v).Ok? && (it.signed ==> InRange(IntOf(v).value, it)))
              && (r.Ok? ==> |r.value| == it.width
                            && Unsigned(r.value, it.big) == IntOf(v).value % Pow256(it.width))
    ensures t == "bytes" ==>
              (r.Ok? <==> (v.VStr? && FromHex(v.s).Some?) || (v.VInt? && v.i >= 0))
    ensures t == "bytes" && v.VStr? && r.Ok? ==> ToHex(r.value) == ToHex(FromHex(v.s).value)
    ensures t == "bytes" && v.VInt? && r.Ok? ==> |r.value| == v.i && forall k :: 0 <= k < v.i ==> r.value[k] == 0
    ensures IntTypeOf(t).None? && t != "bytes" ==> r.Err?
  {
    match IntTypeOf(t)
    case Some(it) =>
      var i :- IntOf(v);
      EncodeInt(i, it)
    case None =>
      if t == "bytes" then EncodeBytes(v) else Err("Unsupported type")
  }

  /** The integer branch of `encode_value`: `struct.pack` of the value,
      masked to the width for an unsigned type. */
  function EncodeInt(i: int, it: IntType): (r: Result<seq<Byte>>)
    requires it.width == 1 || it.width == 2 || it.width == 4
    ensures r.Ok? <==> (it.signed ==> InRange(i, it))
    ensures r.Ok? ==> |r.value| == it.width && Unsigned(r.value, it.big) == i % Pow256(it.width)
  {
    if it.signed then
      if InRange(i, it) then Ok(PackBytes(i % Pow256(it.width), it)) else Err("struct.error: argument out of range")
    else
      var bits := 8 * it.width;
      AndLowMask(i, bits);
      Pow2Bytes(it.width);
      var m := And(i, Pow2(bits) - 1);
      Ok(PackBytes(m, it))
  }

  /** The `"bytes"` branch of `encode_value`: hex text, or `n` zero bytes
      for an integer `n`. */
  function EncodeBytes(v: Value): (r: Result<seq<Byte>>)
    ensures r.Ok? <==> (v.VStr? && FromHex(v.s).Some?) || (v.VInt? && v.i >= 0)
    ensures v.VStr? && r.Ok? ==> r.value == FromHex(v.s).value
    ensures v.VInt? && r.Ok? ==> |r.value| == v.i && forall k :: 0 <= k < v.i ==> r.value[k] == 0
  {
    match v
    case VStr(s) =>
      (match FromHex(s)
       case Some(bs) => Ok(bs)
       case None => Err("non-hexadecimal number found in fromhex() arg"))
    case VInt(n) => if n >= 0 then Ok(seq(n, _ => 0)) else Err("negative count")
    case VNone => Err("cannot convert 'NoneType' object to bytes")
  }

  // ---------------------------------------------------------------------
  // Round trips between the encoder and the decoder

  /** Decoding what was encoded gives the value back: reduced modulo
      `256^width` for an unsigned type, unchanged for a signed one. */
  lemma DecodeEncodeInt(v: int, t: string)
    requires IntTypeOf(t).Some? && !IsFloatType(t)
    requires IntTypeOf(t).value.signed ==> InRange(v, IntTypeOf(t).value)
    ensures EncodeValue(VInt(v), t).Ok?
    ensures var it := IntTypeOf(t).value;
            ParseValue(EncodeValue(VInt(v), t).value, t) == VInt(if it.signed then v else v % Pow256(it.width))
  {
    var it := IntTypeOf(t).value;
    var enc := EncodeValue(VInt(v), t).value;
    assert enc[..it.width] == enc;
    var d := ParseValue(enc, t);
    ParseValueReads(enc, t);
    var want := if it.signed then v else v % Pow256(it.width);
    assert InRange(want, it);
    ModOfMod(v, Pow256(it.width));
    SameResidue(d.i, want, it);
  }

  lemma ModOfMod(v: int, p: int)
    requires p > 0
    ensures (v % p) % p == v % p
  {
    DivUnique(v % p, p, 0, v % p);
  }

  /** Encoding what was decoded writes the same bytes back. */
  lemma EncodeDecodeInt(data: seq<Byte>, t: string)
    requires IntTypeOf(t).Some? && !IsFloatType(t)
    requires |data| >= IntTypeOf(t).value.width
    ensures EncodeValue(ParseValue(data, t), t) == Ok(data[..IntTypeOf(t).value.width])
  {
    var it := IntTypeOf(t).value;
    var raw := data[..it.width];
    var enc := EncodeValue(ParseValue(data, t), t).value;
    ParseValueReads(data, t);
    UnsignedInjective(enc, raw, it.big);
  }

  /** Equal-length byte strings with equal values are equal. */
  lemma UnsignedInjective(a: seq<Byte>, b: seq<Byte>, big: bool)
    requires |a| == |b|
    requires Unsigned(a, big) == Unsigned(b, big)
    ensures a == b
  {
    if big {
      ToFromBE(a);
      ToFromBE(b);
    } else {
      ToFromLE(a);
      ToFromLE(b);
    }
  }

  /** Hex text written by `bytes.hex()` survives `"bytes"` encoding and decoding. */
  lemma DecodeEncodeBytes(bs: seq<Byte>)
    ensures EncodeValue(VStr(ToHex(bs)), "bytes") == Ok(bs)
    ensures ParseValue(EncodeValue(VStr(ToHex(bs)), "bytes").value, "bytes") == VStr(ToHex(bs))
  {
    FromHexToHex(bs);
    ParseValueReads(bs, "bytes");
  }
}
