/** Semantic decoding: decoded frame records whose payload field holds a
    hex string of packed points are turned into one row per point, by the
    first telemetry transform of a command set.  Only the integer parts of
    a point are modelled; its angle and speed are floating point. */
module Semantics {
  import opened Wrappers
  import opened PyInt
  import opened PyBytes
  import opened PyStr
  import opened Values
  import opened Seqs

  // ---------------------------------------------------------------------
  // Value coercions

  /** `_hex_to_bytes(value)`: `bytes.fromhex` of a string, `None` for
      anything else or for text that is not hex. */
  function HexToBytes(v: Value): (r: Option<seq<Byte>>)
    ensures !v.VStr? ==> r.None?
    ensures v.VStr? ==> r == FromHex(v.s)
  {
    if v.VStr? then FromHex(v.s) else None
  }

  /** A hex field written by the decoder (`bytes.hex()`) reads back as its
      bytes. */
  lemma HexFieldReadsBack(bs: seq<Byte>)
    ensures HexToBytes(VStr(ToHex(bs))) == Some(bs)
  {
    FromHexToHex(bs);
  }

  /** `_as_int(value)`: an integer as it is, a string of decimal digits
      parsed, anything else (including a missing value) `None`. */
  function AsInt(v: Value): (r: Option<int>)
    ensures v.VInt? ==> r == Some(v.i)
    ensures v.VStr? ==> (r.Some? <==> IsDecimal(v.s))
    ensures v.VStr? && IsDecimal(v.s) ==> r == Some(DecimalValue(v.s))
    ensures v.VNone? ==> r.None?
  {
    match v
    case VInt(i) => Some(i)
    case VStr(s) => if IsDecimal(s) then Some(DecimalValue(s)) else None
    case VNone => None
  }

  /** Where `_as_int` gives a value, `int()` gives the same one; the
      decimal text of a number reads back as that number. */
  lemma AsIntAgreesWithInt(v: Value, n: nat)
    ensures AsInt(v).Some? ==> IntOf(v) == Ok(AsInt(v).value)
    ensures AsInt(VStr(NatToDecimal(n))) == Some(n)
  {
    DecimalRoundTrip(n);
  }

  /** `str(x or default)` for a looked-up value. */
  function StrOr(v: Option<Value>, default: string): (r: string)
    ensures !Truthy(v) ==> r == default
    ensures Truthy(v) && v.value.VStr? ==> r == v.value.s
  {
    if Truthy(v) then Str(v.value) else default
  }

  /** `int(d.get(key, default))`: a missing key gives the default; `None`
      or text that is not a number raises. */
  function IntSetting(d: Dict, key: string, default: int): (r: Result<int>)
    ensures !Has(d, key) ==> r == Ok(default)
    ensures Get(d, key) == Some(VNone) ==> r.Err?
  {
    IntOf(Get(d, key).GetOr(VInt(default)))
  }

  // ---------------------------------------------------------------------
  // Arithmetic helpers

  lemma Pow2Values()
    ensures Pow2(1) == 2 && Pow2(2) == 4 && Pow2(6) == 64 && Pow2(8) == 256
    ensures Pow2(14) == 0x4000 && Pow2(16) == 0x1_0000
  {
    assert Pow2(2) == 4;
    assert Pow2(6) == 64;
    assert Pow2(8) == 256;
    Pow2Add(8, 6);
    Pow2Add(8, 8);
  }

  /** A value below the modulus is its own remainder. */
  lemma ModSmall(x: int, m: int)
    requires 0 <= x < m
    ensures x % m == x && x / m == 0
  {
    DivUnique(x, m, 0, x);
  }

  /** Point `i` of units of `unit` bytes fits in `len` bytes exactly when
      `i` is below `len / unit`. */
  lemma FitsIff(i: nat, unit: nat, len: nat)
    requires unit > 0
    ensures i * unit + unit <= len <==> i < len / unit
  {
    var q := len / unit;
    assert len == unit * q + len % unit;
    assert i * unit + unit == unit * (i + 1);
    if i < q {
      if i + 1 < q {
        MulGap(unit, q, i + 1);
      }
    } else {
      MulGap(unit, i + 1, q);
    }
  }

  function Min(a: int, b: int): int {
    if a <= b then a else b
  }

  function Max(a: int, b: int): int {
    if a >= b then a else b
  }

  // ---------------------------------------------------------------------
  // triplet_pointcloud_v1

  /** The masks and shifts of a triplet transform's `distance`,
      `intensity` and `hr_flag` objects. */
  datatype TripletBits = TripletBits(
    b2Shift: int, b1Shift: int, b1Mask: int, distMask: int,
    intenB1Mask: int, intenB1Shift: int, intenB0Shift: int, intenB0Mask: int,
    hrMask: int)

  /** The settings with every key missing. */
  const DefaultTripletBits := TripletBits(6, 2, 0x3F, 0x3FFF, 0x03, 6, 2, 0x3F, 0x01)

  /** The settings read from the three objects in the code's order; a
      value `int()` rejects raises. */
  function TripletBitsOf(dist: Dict, inten: Dict, hr: Dict): (r: Result<TripletBits>)
    ensures (!Has(dist, "b2_shift") && !Has(dist, "b1_shift") && !Has(dist, "b1_mask") && !Has(dist, "mask")
             && !Has(inten, "b1_mask") && !Has(inten, "b1_shift") && !Has(inten, "b0_shift") && !Has(inten, "b0_mask")
             && !Has(hr, "mask")) ==> r == Ok(DefaultTripletBits)
    ensures Get(dist, "mask") == Some(VNone) || Get(hr, "mask") == Some(VNone) ==> r.Err?
  {
    var b2Shift :- IntSetting(dist, "b2_shift", 6);
    var b1Shift :- IntSetting(dist, "b1_shift", 2);
    var b1Mask :- IntSetting(dist, "b1_mask", 0x3F);
    var distMask :- IntSetting(dist, "mask", 0x3FFF);
    var iB1Mask :- IntSetting(inten, "b1_mask", 0x03);
    var iB1Shift :- IntSetting(inten, "b1_shift", 6);
    var iB0Shift :- IntSetting(inten, "b0_shift", 2);
    var iB0Mask :- IntSetting(inten, "b0_mask", 0x3F);
    var hrMask :- IntSetting(hr, "mask", 0x01);
    Ok(TripletBits(b2Shift, b1Shift, b1Mask, distMask, iB1Mask, iB1Shift, iB0Shift, iB0Mask, hrMask))
  }

  /** Python rejects a negative shift count. */
  predicate ShiftsOk(p: TripletBits) {
    p.b2Shift >= 0 && p.b1Shift >= 0 && p.intenB1Shift >= 0 && p.intenB0Shift >= 0
  }

  /** The integer fields of one point. */
  datatype Triplet = Triplet(distance: int, intensity: int, hr: int)

  /** One three-byte point: distance from the high byte and the top of the
      middle byte, intensity from the bottom of the middle byte and the top
      of the low byte, the flag from the low byte. */
  function UnpackTriplet(b0: Byte, b1: Byte, b2: Byte, p: TripletBits): (r: Result<Triplet>)
    ensures r.Ok? <==> ShiftsOk(p)
  {
    if !ShiftsOk(p) then Err("negative shift count")
    else
      Ok(Triplet(DistanceBits(b1, b2, p), IntensityBits(b0, b1, p), And(b0, p.hrMask)))
  }

  /** `(((b2 & 0xFF) << b2_shift) | ((b1 >> b1_shift) & b1_mask)) & mask` */
  function DistanceBits(b1: Byte, b2: Byte, p: TripletBits): int
    requires ShiftsOk(p)
  {
    And(Or(Shl(And(b2, 0xFF), p.b2Shift), And(Shr(b1, p.b1Shift), p.b1Mask)), p.distMask)
  }

  /** `((b1 & b1_mask) << b1_shift) | ((b0 >> b0_shift) & b0_mask)` */
  function IntensityBits(b0: Byte, b1: Byte, p: TripletBits): int
    requires ShiftsOk(p)
  {
    Or(Shl(And(b1, p.intenB1Mask), p.intenB1Shift), And(Shr(b0, p.intenB0Shift), p.intenB0Mask))
  }

  /** The fields of a point under the default settings, in plain
      arithmetic: a 14-bit distance, an 8-bit intensity and a 1-bit flag. */
  function DefaultFields(b0: Byte, b1: Byte, b2: Byte): Triplet {
    Triplet(b2 * 64 + b1 / 4, (b1 % 4) * 64 + b0 / 4, b0 % 2)
  }

  /** With the default settings the masks and shifts compute the plain
      arithmetic fields. */
  lemma DefaultTriplet(b0: Byte, b1: Byte, b2: Byte)
    ensures UnpackTriplet(b0, b1, b2, DefaultTripletBits) == Ok(DefaultFields(b0, b1, b2))
  {
    DefaultFieldsOf(b0, b1, b2, DefaultTripletBits);
  }

  /** The same, for settings only known to equal the defaults (which keeps
      the solver from unfolding the bit operations on the constant). */
  lemma DefaultFieldsOf(b0: Byte, b1: Byte, b2: Byte, p: TripletBits)
    requires p == DefaultTripletBits
    ensures UnpackTriplet(b0, b1, b2, p) == Ok(DefaultFields(b0, b1, b2))
  {
    DefaultDistance(b1, b2, p);
    DefaultIntensity(b0, b1, p);
    DefaultFlag(b0, p);
    UnpackFields(b0, b1, b2, p, DefaultFields(b0, b1, b2));
  }

  /** An unpacked point, given the values of its three fields. */
  lemma UnpackFields(b0: Byte, b1: Byte, b2: Byte, p: TripletBits, t: Triplet)
    requires ShiftsOk(p)
    requires DistanceBits(b1, b2, p) == t.distance && IntensityBits(b0, b1, p) == t.intensity
    requires And(b0, p.hrMask) == t.hr
    ensures UnpackTriplet(b0, b1, b2, p) == Ok(t)
  {
  }

  /** The default flag is the lowest bit of the low byte. */
  lemma DefaultFlag(b0: Byte, p: TripletBits)
    requires p == DefaultTripletBits
    ensures And(b0, p.hrMask) == b0 % 2
  {
    Pow2Values();
    AndLowMask(b0, 1);
  }

  /** The default distance is `b2 * 64 + b1 / 4`. */
  lemma DefaultDistance(b1: Byte, b2: Byte, p: TripletBits)
    requires p == DefaultTripletBits
    ensures DistanceBits(b1, b2, p) == b2 * 64 + b1 / 4
  {
    Pow2Values();
    var hi := And(b2, 0xFF);
    assert hi == b2 by { AndLowMask(b2, 8); ModSmall(b2, 256); }
    var lo := And(Shr(b1, 2), 0x3F);
    assert lo == b1 / 4 by { AndLowMask(b1 / 4, 6); ModSmall(b1 / 4, 64); }
    var o := Or(Shl(hi, 6), lo);
    assert o == b2 * 64 + b1 / 4 by { OrDisjoint(b2, lo, 6); }
    assert And(o, 0x3FFF) == o by { AndLowMask(o, 14); ModSmall(o, 0x4000); }
    assert DistanceBits(b1, b2, p) == And(o, 0x3FFF);
  }

  /** The default intensity is `(b1 % 4) * 64 + b0 / 4`. */
  lemma DefaultIntensity(b0: Byte, b1: Byte, p: TripletBits)
    requires p == DefaultTripletBits
    ensures IntensityBits(b0, b1, p) == (b1 % 4) * 64 + b0 / 4
  {
    Pow2Values();
    AndLowMask(b1, 2);
    var lowI := b0 / 4;
    AndLowMask(lowI, 6);
    ModSmall(lowI, 64);
    OrDisjoint(b1 % 4, lowI, 6);
  }

  /** A point whose fields fit the default layout. */
  predicate Packable(t: Triplet) {
    0 <= t.distance < 0x4000 && 0 <= t.intensity < 256 && 0 <= t.hr < 2
  }

  /** The bytes of a point under the default settings, low byte first;
      bit 1 of the low byte carries nothing and is 0. */
  function PackTriplet(t: Triplet): (r: seq<Byte>)
    requires Packable(t)
    ensures |r| == 3
  {
    [(t.intensity % 64) * 4 + t.hr, (t.distance % 64) * 4 + t.intensity / 64, t.distance / 64]
  }

  /** The arithmetic of packing: the default fields of the packed bytes
      are the point. */
  lemma PackArith(t: Triplet)
    requires Packable(t)
    ensures var bs := PackTriplet(t);
            DefaultFields(bs[0], bs[1], bs[2]) == t
  {
    var d, i, h := t.distance, t.intensity, t.hr;
    var b0 := (i % 64) * 4 + h;
    var b1 := (d % 64) * 4 + i / 64;
    DivUnique(b1, 4, d % 64, i / 64);
    DivUnique(b0, 4, i % 64, h);
    DivUnique(b0, 2, 2 * (i % 64), h);
    DivUnique(d, 64, d / 64, d % 64);
    DivUnique(i, 64, i / 64, i % 64);
  }

  /** Unpacking a packed point with the default settings gives it back. */
  lemma UnpackPackTriplet(t: Triplet)
    requires Packable(t)
    ensures var bs := PackTriplet(t);
            UnpackTriplet(bs[0], bs[1], bs[2], DefaultTripletBits) == Ok(t)
  {
    var bs := PackTriplet(t);
    DefaultTriplet(bs[0], bs[1], bs[2]);
    PackArith(t);
  }

  /** The points of a payload from point `i` on: `range(count)` stops at
      the first point whose third byte is past the payload. */
  function TripletsFrom(payload: seq<Byte>, p: TripletBits, i: nat, count: int): (r: Result<seq<Triplet>>)
    ensures var n := Max(0, Min(count, |payload| / 3) - i);
            (r.Ok? <==> n == 0 || ShiftsOk(p))
            && (r.Ok? ==> |r.value| == n
                          && forall j :: 0 <= j < n ==>
                               UnpackTriplet(payload[3 * (i + j)], payload[3 * (i + j) + 1], payload[3 * (i + j) + 2], p)
                               == Ok(r.value[j]))
    decreases Max(0, count - i)
  {
    FitsIff(i, 3, |payload|);
    if i >= count || 3 * i + 2 >= |payload| then Ok([])
    else if !ShiftsOk(p) then Err("negative shift count")
    else
      match TripletsFrom(payload, p, i + 1, count)
      case Err(m) => Err(m)
      case Ok(rest) => Ok([UnpackTriplet(payload[3 * i], payload[3 * i + 1], payload[3 * i + 2], p).value] + rest)
  }

  /** Points packed one after another, three bytes each. */
  function PackAll(ts: seq<Triplet>): (r: seq<Byte>)
    requires forall k :: 0 <= k < |ts| ==> Packable(ts[k])
    ensures |r| == 3 * |ts|
    ensures forall k :: 0 <= k < |ts| ==>
              r[3 * k] == PackTriplet(ts[k])[0] && r[3 * k + 1] == PackTriplet(ts[k])[1]
              && r[3 * k + 2] == PackTriplet(ts[k])[2]
  {
    var r := seq(3 * |ts|, m requires 0 <= m < 3 * |ts| => PackTriplet(ts[m / 3])[m % 3]);
    forall k | 0 <= k < |ts|
      ensures r[3 * k] == PackTriplet(ts[k])[0] && r[3 * k + 1] == PackTriplet(ts[k])[1]
              && r[3 * k + 2] == PackTriplet(ts[k])[2]
    {
      DivUnique(3 * k, 3, k, 0);
      DivUnique(3 * k + 1, 3, k, 1);
      DivUnique(3 * k + 2, 3, k, 2);
    }
    r
  }

  /** One point of a packed payload reads back. */
  lemma PackedPointReadsBack(ts: seq<Triplet>, j: nat)
    requires forall k :: 0 <= k < |ts| ==> Packable(ts[k])
    requires j < |ts|
    ensures var payload := PackAll(ts);
            UnpackTriplet(payload[3 * j], payload[3 * j + 1], payload[3 * j + 2], DefaultTripletBits) == Ok(ts[j])
  {
    UnpackPackTriplet(ts[j]);
  }

  /** A payload of packed points, read with the default settings and its
      own point count, gives the points back. */
  lemma TripletsRoundTrip(ts: seq<Triplet>)
    requires forall k :: 0 <= k < |ts| ==> Packable(ts[k])
    ensures TripletsFrom(PackAll(ts), DefaultTripletBits, 0, |ts|) == Ok(ts)
  {
    var payload := PackAll(ts);
    var r := TripletsFrom(payload, DefaultTripletBits, 0, |ts|);
    DivUnique(|payload|, 3, |ts|, 0);
    assert Max(0, Min(|ts|, |payload| / 3) - 0) == |ts|;
    assert ShiftsOk(DefaultTripletBits);
    assert r.Ok? && |r.value| == |ts|;
    forall j | 0 <= j < |ts|
      ensures r.value[j] == ts[j]
    {
      PackedPointReadsBack(ts, j);
      assert 3 * (0 + j) == 3 * j;
    }
    assert r.value == ts;
    assert r == Ok(ts);
  }

  // ---------------------------------------------------------------------
  // if_dn_pointcloud_v1

  datatype Brightness = BrightNone | BrightU8 | BrightU16

  /** `brightness_mode`, of which only three are valid. */
  function BrightnessOf(mode: string): Option<Brightness> {
    if mode == "none" then Some(BrightNone)
    else if mode == "u8" then Some(BrightU8)
    else if mode == "u16_le" then Some(BrightU16)
    else None
  }

  /** `unit_bytes`: the little-endian distance, then the brightness. */
  function UnitBytes(b: Brightness): (n: nat)
    ensures 2 <= n <= 4
  {
    match b
    case BrightNone => 2
    case BrightU8 => 3
    case BrightU16 => 4
  }

  /** The integer fields of one `if_dn` point. */
  datatype DnPoint = DnPoint(distance: int, brightness: Option<nat>)

  /** Point `i` of the payload, which must hold all of its bytes. */
  function DnPointAt(payload: seq<Byte>, b: Brightness, mask: int, i: nat): (r: DnPoint)
    requires i * UnitBytes(b) + UnitBytes(b) <= |payload|
    ensures b.BrightNone? <==> r.brightness.None?
    ensures b.BrightU8? ==> r.brightness == Some(payload[i * 3 + 2])
  {
    var base := i * UnitBytes(b);
    DnPoint(And(FromLE(payload[base..base + 2]), mask),
            match b
            case BrightNone => None
            case BrightU8 => Some(payload[base + 2])
            case BrightU16 => Some(FromLE(payload[base + 2..base + 4])))
  }

  /** The points of a payload from point `i` on, as the loop cuts them:
      it stops at the first point whose last byte is past the payload,
      whichever of its reads finds that out. */
  function DnPointsFrom(payload: seq<Byte>, b: Brightness, mask: int, i: nat, count: int): (r: seq<DnPoint>)
    ensures |r| == Max(0, Min(count, |payload| / UnitBytes(b)) - i)
    ensures forall m :: i <= m < i + |r| ==>
              m * UnitBytes(b) + UnitBytes(b) <= |payload| && r[m - i] == DnPointAt(payload, b, mask, m)
    decreases Max(0, count - i)
  {
    var unit := UnitBytes(b);
    var base := i * unit;
    FitsIff(i, unit, |payload|);
    if i >= count || base + 1 >= |payload| then []
    else if b.BrightU8? && base + 2 >= |payload| then []
    else if b.BrightU16? && base + 3 >= |payload| then []
    else
      var rest := DnPointsFrom(payload, b, mask, i + 1, count);
      DnCons(payload, b, mask, i, rest);
      [DnPointAt(payload, b, mask, i)] + rest
  }

  /** The step of `DnPointsFrom`: point `i` put in front of the points
      from `i + 1` gives the points from `i`. */
  lemma DnCons(payload: seq<Byte>, b: Brightness, mask: int, i: nat, rest: seq<DnPoint>)
    requires i * UnitBytes(b) + UnitBytes(b) <= |payload|
    requires forall m :: i + 1 <= m < i + 1 + |rest| ==>
               m * UnitBytes(b) + UnitBytes(b) <= |payload| && rest[m - (i + 1)] == DnPointAt(payload, b, mask, m)
    ensures forall m :: i <= m < i + 1 + |rest| ==>
              m * UnitBytes(b) + UnitBytes(b) <= |payload|
              && ([DnPointAt(payload, b, mask, i)] + rest)[m - i] == DnPointAt(payload, b, mask, m)
  {
    forall m | i <= m < i + 1 + |rest|
      ensures m * UnitBytes(b) + UnitBytes(b) <= |payload|
              && ([DnPointAt(payload, b, mask, i)] + rest)[m - i] == DnPointAt(payload, b, mask, m)
    {
      if m > i {
        assert ([DnPointAt(payload, b, mask, i)] + rest)[m - i] == rest[m - (i + 1)];
      }
    }
  }

  /** A point the default layout can carry: a 14-bit distance and a
      brightness of the mode's width, present exactly when the mode has
      one. */
  predicate DnPackable(p: DnPoint, b: Brightness) {
    0 <= p.distance < 0x4000
    && match b
       case BrightNone => p.brightness.None?
       case BrightU8 => p.brightness.Some? && p.brightness.value < 0x100
       case BrightU16 => p.brightness.Some? && p.brightness.value < 0x1_0000
  }

  /** The bytes of one point: the distance, then the brightness, both
      little-endian. */
  function PackDn(p: DnPoint, b: Brightness): (r: seq<Byte>)
    requires DnPackable(p, b)
    ensures |r| == UnitBytes(b)
  {
    ToLE(p.distance, 2)
    + match b
      case BrightNone => []
      case BrightU8 => ToLE(p.brightness.value, 1)
      case BrightU16 => ToLE(p.brightness.value, 2)
  }

  /** Points packed one after another. */
  function PackDnAll(ps: seq<DnPoint>, b: Brightness): (r: seq<Byte>)
    requires forall k :: 0 <= k < |ps| ==> DnPackable(ps[k], b)
    ensures |r| == UnitBytes(b) * |ps|
  {
    var pieces := seq(|ps|, k requires 0 <= k < |ps| => PackDn(ps[k], b));
    FlattenUniformLength(pieces, UnitBytes(b));
    Flatten(pieces)
  }

  /** A point's bytes, wherever they sit in a payload, read back as the
      point with the default mask. */
  lemma DnUnitReadsBack(p: DnPoint, b: Brightness, payload: seq<Byte>, i: nat)
    requires DnPackable(p, b)
    requires i * UnitBytes(b) + UnitBytes(b) <= |payload|
    requires payload[i * UnitBytes(b)..i * UnitBytes(b) + UnitBytes(b)] == PackDn(p, b)
    ensures DnPointAt(payload, b, 0x3FFF, i) == p
  {
    var base := i * UnitBytes(b);
    var unit := payload[base..base + UnitBytes(b)];
    Pow256Values();
    Pow2Values();
    assert payload[base..base + 2] == unit[..2] == ToLE(p.distance, 2);
    FromToLE(p.distance, 2);
    ModSmall(p.distance, 0x1_0000);
    AndLowMask(p.distance, 14);
    ModSmall(p.distance, 0x4000);
    match b
    case BrightNone =>
    case BrightU8 =>
      assert payload[base + 2] == unit[2] == ToLE(p.brightness.value, 1)[0];
      ModSmall(p.brightness.value, 0x100);
    case BrightU16 =>
      assert payload[base + 2..base + 4] == unit[2..] == ToLE(p.brightness.value, 2);
      FromToLE(p.brightness.value, 2);
      ModSmall(p.brightness.value, 0x1_0000);
  }

  /** A payload of packed points, read with the default mask and its own
      point count, gives the points back. */
  lemma DnRoundTrip(ps: seq<DnPoint>, b: Brightness)
    requires forall k :: 0 <= k < |ps| ==> DnPackable(ps[k], b)
    ensures DnPointsFrom(PackDnAll(ps, b), b, 0x3FFF, 0, |ps|) == ps
  {
    var u := UnitBytes(b);
    var pieces := seq(|ps|, k requires 0 <= k < |ps| => PackDn(ps[k], b));
    var payload := PackDnAll(ps, b);
    assert payload == Flatten(pieces);
    var r := DnPointsFrom(payload, b, 0x3FFF, 0, |ps|);
    DivUnique(|payload|, u, |ps|, 0);
    assert |r| == |ps|;
    forall m | 0 <= m < |ps|
      ensures r[m] == ps[m]
    {
      FlattenUniformAt(pieces, u, m);
      DnUnitReadsBack(ps[m], b, payload, m);
      assert r[m - 0] == DnPointAt(payload, b, 0x3FFF, m);
    }
  }

  /** With the default mask the distance is the low 14 bits of the
      little-endian word. */
  lemma DefaultDnDistance(payload: seq<Byte>, b: Brightness, i: nat)
    requires i * UnitBytes(b) + UnitBytes(b) <= |payload|
    ensures var base := i * UnitBytes(b);
            DnPointAt(payload, b, 0x3FFF, i).distance == (payload[base] as int + 256 * payload[base + 1] as int) % 0x4000
  {
    var base := i * UnitBytes(b);
    var w := payload[base..base + 2];
    assert FromLE(w) == w[0] + 256 * FromLE(w[1..]);
    assert FromLE(w[1..]) == w[1] + 256 * FromLE(w[2..]);
    assert w[2..] == [];
    Pow2Values();
    AndLowMask(FromLE(w), 14);
  }

  // ---------------------------------------------------------------------
  // Per-frame selection

  /** A transform object's settings, each the looked-up value (`None`
      when missing); the nested objects are empty when missing, and
      `includeFields` is the `include_frame_fields` list. */
  datatype TransformCfg = TransformCfg(
    ttype: Option<Value>,
    frameName: Option<Value>,
    inputField: Option<Value>,
    countRef: Option<Value>,
    brightnessMode: Option<Value>,
    distance: Dict,
    intensity: Dict,
    hrFlag: Dict,
    angle: Dict,
    includeFields: seq<Value>)

  /** `[str(x) for x in vs if isinstance(x, (str, int, float))]` */
  function IncludeFields(vs: seq<Value>): (r: seq<string>)
    ensures |r| <= |vs|
  {
    if |vs| == 0 then []
    else (if vs[0].VNone? then [] else [Str(vs[0])]) + IncludeFields(vs[1..])
  }

  /** The values a row copies from its frame, `frame.get(k)` for each
      included field. */
  function Copied(frame: Dict, fields: seq<string>): (r: seq<Entry>)
    ensures |r| == |fields|
    ensures forall j :: 0 <= j < |fields| ==> r[j] == (fields[j], GetOrNone(frame, fields[j]))
  {
    seq(|fields|, j requires 0 <= j < |fields| => (fields[j], GetOrNone(frame, fields[j])))
  }

  /** What a frame offers a transform: its payload bytes and point count,
      or `None` when the frame is skipped — its name does not match, its
      payload is missing or not hex, its count is not positive, or a start
      or end angle field is missing. */
  function FrameInput(frame: Dict, cfg: TransformCfg, defaultCount: string, defaultStart: string,
                      defaultEnd: string): (r: Option<(seq<Byte>, nat)>)
    ensures Truthy(cfg.frameName) && GetOrNone(frame, "_frame_name") != cfg.frameName.value ==> r.None?
    ensures r.Some? ==> r.value.1 > 0
                        && Some(r.value.0) == HexToBytes(GetOrNone(frame, StrOr(cfg.inputField, "samples")))
                        && AsInt(GetOrNone(frame, StrOr(cfg.countRef, defaultCount))) == Some(r.value.1)
    ensures HexToBytes(GetOrNone(frame, StrOr(cfg.inputField, "samples"))).None? ==> r.None?
  {
    if Truthy(cfg.frameName) && GetOrNone(frame, "_frame_name") != cfg.frameName.value then None
    else
      var payload := HexToBytes(GetOrNone(frame, StrOr(cfg.inputField, "samples")));
      var count := AsInt(GetOrNone(frame, StrOr(cfg.countRef, defaultCount))).GetOr(0);
      if payload.None? || count <= 0 then None
      else
        var startField := StrOr(Get(cfg.angle, "start_field"), defaultStart);
        var endField := StrOr(Get(cfg.angle, "end_field"), defaultEnd);
        if AsInt(GetOrNone(frame, startField)).None? || AsInt(GetOrNone(frame, endField)).None? then None
        else Some((payload.value, count))
  }

  // ---------------------------------------------------------------------
  // Rows and results

  /** A row of the result: a record passed through, or one point with its
      frame's `_frame_idx`, its index in the frame and the copied fields. */
  datatype Row =
    | Raw(d: Dict)
    | TripletRow(frameIdx: Value, pointIdx: nat, t: Triplet, copied: seq<Entry>)
    | DnRow(frameIdx: Value, pointIdx: nat, p: DnPoint, copied: seq<Entry>)

  datatype SemanticResult = SemanticResult(rows: seq<Row>, applied: bool)

  /** The rows of one frame under the triplet transform, whose angles
      shift the raw start and end angle right by `shift` bits: a frame
      that reaches the angle computation raises on a negative shift. */
  function TripletRows(frame: Dict, cfg: TransformCfg, p: TripletBits, shift: int, fields: seq<string>): (r: Result<seq<Row>>)
    ensures FrameInput(frame, cfg, "lsn", "fsa", "lsa").None? ==> r == Ok([])
    ensures FrameInput(frame, cfg, "lsn", "fsa", "lsa").Some? ==>
              var (payload, count) := FrameInput(frame, cfg, "lsn", "fsa", "lsa").value;
              var n := Min(count, |payload| / 3);
              (r.Ok? <==> shift >= 0 && (n == 0 || ShiftsOk(p)))
              && (r.Ok? ==> |r.value| == n
                            && forall j :: 0 <= j < n ==>
                                 r.value[j].TripletRow? && r.value[j].pointIdx == j
                                 && r.value[j].frameIdx == GetOrNone(frame, "_frame_idx")
                                 && r.value[j].copied == Copied(frame, fields)
                                 && UnpackTriplet(payload[3 * j], payload[3 * j + 1], payload[3 * j + 2], p)
                                    == Ok(r.value[j].t))
  {
    match FrameInput(frame, cfg, "lsn", "fsa", "lsa")
    case None => Ok([])
    case Some((payload, count)) =>
      if shift < 0 then Err("negative shift count")
      else
        var ts :- TripletsFrom(payload, p, 0, count);
        var idx := GetOrNone(frame, "_frame_idx");
        var copied := Copied(frame, fields);
        Ok(seq(|ts|, j requires 0 <= j < |ts| => TripletRow(idx, j, ts[j], copied)))
  }

  /** The rows of one frame under the `if_dn` transform. */
  function DnRows(frame: Dict, cfg: TransformCfg, b: Brightness, mask: int, fields: seq<string>): (r: seq<Row>)
    ensures FrameInput(frame, cfg, "dn", "fa", "la").None? ==> r == []
    ensures FrameInput(frame, cfg, "dn", "fa", "la").Some? ==>
              var (payload, count) := FrameInput(frame, cfg, "dn", "fa", "la").value;
              |r| == Min(count, |payload| / UnitBytes(b))
              && forall j :: 0 <= j < |r| ==>
                   r[j].DnRow? && r[j].pointIdx == j
                   && r[j].frameIdx == GetOrNone(frame, "_frame_idx")
                   && r[j].copied == Copied(frame, fields)
                   && j * UnitBytes(b) + UnitBytes(b) <= |payload| && r[j].p == DnPointAt(payload, b, mask, j)
  {
    match FrameInput(frame, cfg, "dn", "fa", "la")
    case None => []
    case Some((payload, count)) =>
      var ps := DnPointsFrom(payload, b, mask, 0, count);
      var idx := GetOrNone(frame, "_frame_idx");
      var copied := Copied(frame, fields);
      seq(|ps|, j requires 0 <= j < |ps| => DnRow(idx, j, ps[j], copied))
  }

  /** Each frame's rows under the triplet transform, frame by frame. */
  function TripletRowLists(frames: seq<Dict>, cfg: TransformCfg, p: TripletBits, shift: int, fields: seq<string>)
    : (r: seq<Result<seq<Row>>>)
    ensures |r| == |frames| && forall k :: 0 <= k < |frames| ==> r[k] == TripletRows(frames[k], cfg, p, shift, fields)
  {
    Map((fr: Dict) => TripletRows(fr, cfg, p, shift, fields), frames)
  }

  /** Each frame's rows under the `if_dn` transform, frame by frame. */
  function DnRowLists(frames: seq<Dict>, cfg: TransformCfg, b: Brightness, mask: int, fields: seq<string>)
    : (r: seq<seq<Row>>)
    ensures |r| == |frames| && forall k :: 0 <= k < |frames| ==> r[k] == DnRows(frames[k], cfg, b, mask, fields)
  {
    Map((fr: Dict) => DnRows(fr, cfg, b, mask, fields), frames)
  }

  /** The rows of every frame, frame after frame; a raising frame stops
      the transform. */
  function AllTripletRows(frames: seq<Dict>, cfg: TransformCfg, p: TripletBits, shift: int, fields: seq<string>): (r: Result<seq<Row>>)
    ensures r.Ok? <==> forall k :: 0 <= k < |frames| ==> TripletRows(frames[k], cfg, p, shift, fields).Ok?
  {
    JoinAll(TripletRowLists(frames, cfg, p, shift, fields))
  }

  function AllDnRows(frames: seq<Dict>, cfg: TransformCfg, b: Brightness, mask: int, fields: seq<string>): seq<Row> {
    Flatten(DnRowLists(frames, cfg, b, mask, fields))
  }

  /** Frames are handled one at a time: the rows of a concatenation are
      the concatenated rows. */
  lemma AllDnRowsAppend(a: seq<Dict>, c: seq<Dict>, cfg: TransformCfg, b: Brightness, mask: int, fields: seq<string>)
    ensures AllDnRows(a + c, cfg, b, mask, fields) == AllDnRows(a, cfg, b, mask, fields) + AllDnRows(c, cfg, b, mask, fields)
  {
    MapAppend((fr: Dict) => DnRows(fr, cfg, b, mask, fields), a, c);
    FlattenAppend(DnRowLists(a, cfg, b, mask, fields), DnRowLists(c, cfg, b, mask, fields));
  }

  /** The same for the triplet transform, where an error in the first part
      comes first. */
  lemma AllTripletRowsAppend(a: seq<Dict>, c: seq<Dict>, cfg: TransformCfg, p: TripletBits, shift: int, fields: seq<string>)
    ensures AllTripletRows(a + c, cfg, p, shift, fields) ==
              match AllTripletRows(a, cfg, p, shift, fields)
              case Err(m) => Err(m)
              case Ok(x) =>
                (match AllTripletRows(c, cfg, p, shift, fields)
                 case Err(m) => Err(m)
                 case Ok(y) => Ok(x + y))
  {
    MapAppend((fr: Dict) => TripletRows(fr, cfg, p, shift, fields), a, c);
    JoinAllAppend(TripletRowLists(a, cfg, p, shift, fields), TripletRowLists(c, cfg, p, shift, fields));
  }

  /** A transform's result: applied exactly when it produced a row. */
  function Produced(rows: seq<Row>): (r: SemanticResult)
    ensures r.applied <==> |rows| > 0
    ensures r.applied ==> r.rows == rows
    ensures !r.applied ==> r.rows == []
  {
    if |rows| == 0 then SemanticResult([], false) else SemanticResult(rows, true)
  }

  /** `_transform_triplet_pointcloud_v1(raw_records, cfg)`: the bit
      settings and `angle.right_shift` are read before any frame, and a
      frame raises when its rows do. */
  function TransformTriplet(frames: seq<Dict>, cfg: TransformCfg): (r: Result<SemanticResult>)
    ensures TripletBitsOf(cfg.distance, cfg.intensity, cfg.hrFlag).Err? ==> r.Err?
    ensures IntSetting(cfg.angle, "right_shift", 1).Err? ==> r.Err?
    ensures TripletBitsOf(cfg.distance, cfg.intensity, cfg.hrFlag).Ok? && IntSetting(cfg.angle, "right_shift", 1).Ok? ==>
              (r.Ok? <==> forall k :: 0 <= k < |frames| ==>
                            TripletRows(frames[k], cfg, TripletBitsOf(cfg.distance, cfg.intensity, cfg.hrFlag).value,
                                        IntSetting(cfg.angle, "right_shift", 1).value,
                                        IncludeFields(cfg.includeFields)).Ok?)
    ensures r.Ok? ==> (r.value.applied <==> |r.value.rows| > 0)
  {
    var p :- TripletBitsOf(cfg.distance, cfg.intensity, cfg.hrFlag);
    var shift :- IntSetting(cfg.angle, "right_shift", 1);
    var rows :- AllTripletRows(frames, cfg, p, shift, IncludeFields(cfg.includeFields));
    Ok(Produced(rows))
  }

  /** `_transform_if_dn_pointcloud_v1(raw_records, cfg)`: an invalid
      `brightness_mode` is reported before anything else is read. */
  function TransformDn(frames: seq<Dict>, cfg: TransformCfg): (r: Result<SemanticResult>)
    ensures BrightnessOf(StrOr(cfg.brightnessMode, "none")).None? ==> r == Ok(SemanticResult([], false))
    ensures BrightnessOf(StrOr(cfg.brightnessMode, "none")).Some? ==>
              (r.Ok? <==> IntSetting(cfg.distance, "mask", 0x3FFF).Ok?)
    ensures r.Ok? ==> (r.value.applied <==> |r.value.rows| > 0)
  {
    match BrightnessOf(StrOr(cfg.brightnessMode, "none"))
    case None => Ok(SemanticResult([], false))
    case Some(b) =>
      var mask :- IntSetting(cfg.distance, "mask", 0x3FFF);
      Ok(Produced(AllDnRows(frames, cfg, b, mask, IncludeFields(cfg.includeFields))))
  }

  // ---------------------------------------------------------------------
  // apply_semantics

  datatype TransformJson = TransformNotDict | TransformDict(cfg: TransformCfg)

  /** The `telemetry` section of a command set: missing or not an object,
      or an object whose `transforms` is a list or something else. */
  datatype Telemetry = NoTelemetry | Telemetry(transforms: Option<seq<TransformJson>>)

  /** Whether the first transform names one of the two known types. */
  function FirstTransform(tel: Telemetry): Option<TransformCfg> {
    if tel.Telemetry? && tel.transforms.Some? && |tel.transforms.value| > 0
       && tel.transforms.value[0].TransformDict? && tel.transforms.value[0].cfg.ttype.Some?
    then Some(tel.transforms.value[0].cfg)
    else None
  }

  /** `apply_semantics(raw_records, commands=...)`: only the first
      transform is used; without one of the two known types the records
      come back unchanged and not applied. */
  function ApplySemantics(frames: seq<Dict>, tel: Telemetry): (r: Result<SemanticResult>)
    ensures FirstTransform(tel).None? ==> r == Ok(SemanticResult(seq(|frames|, k requires 0 <= k < |frames| => Raw(frames[k])), false))
    ensures FirstTransform(tel).Some? ==>
              var t := Str(FirstTransform(tel).value.ttype.value);
              (t == "triplet_pointcloud_v1" ==> r == TransformTriplet(frames, FirstTransform(tel).value))
              && (t == "if_dn_pointcloud_v1" ==> r == TransformDn(frames, FirstTransform(tel).value))
              && (t != "triplet_pointcloud_v1" && t != "if_dn_pointcloud_v1" ==>
                    r == Ok(SemanticResult(seq(|frames|, k requires 0 <= k < |frames| => Raw(frames[k])), false)))
    ensures r.Ok? && r.value.applied ==> |r.value.rows| > 0 && FirstTransform(tel).Some?
  {
    var passed := SemanticResult(seq(|frames|, k requires 0 <= k < |frames| => Raw(frames[k])), false);
    match FirstTransform(tel)
    case None => Ok(passed)
    case Some(cfg) =>
      var t := Str(cfg.ttype.value);
      if t == "triplet_pointcloud_v1" then TransformTriplet(frames, cfg)
      else if t == "if_dn_pointcloud_v1" then TransformDn(frames, cfg)
      else Ok(passed)
  }

  /** Transforms after the first are never read. */
  lemma OnlyFirstTransform(frames: seq<Dict>, t0: TransformJson, rest1: seq<TransformJson>, rest2: seq<TransformJson>)
    ensures ApplySemantics(frames, Telemetry(Some([t0] + rest1))) == ApplySemantics(frames, Telemetry(Some([t0] + rest2)))
  {
    assert FirstTransform(Telemetry(Some([t0] + rest1))) == FirstTransform(Telemetry(Some([t0] + rest2)));
  }
}
