/** How each script turns `frame.length` and the bytes at the front of a
    buffer into the total length of the frame that starts there.

    The copies differ: the transport session is strict about the byte count
    of the length field and requires every key, the live framer and the
    protocol detector default missing keys and guard the field position,
    and the decoder reads the field with its general `parse_value`.  A
    result of -1 means "not known yet": the prefix is too short or the
    field is unusable. */
module Lengths {
  import opened Wrappers
  import opened PyBytes
  import opened PyStr
  import opened Values
  import opened Spec
  import opened Codec

  /** The five length-field types `parse_uint` accepts. */
  predicate IsUintType(t: string) {
    t in {"uint8", "uint16_le", "uint16_be", "uint32_le", "uint32_be"}
  }

  /** The byte count a `parse_uint` type names. */
  function UintWidth(t: string): (r: nat)
    requires IsUintType(t)
    ensures r == 1 || r == 2 || r == 4
  {
    if t == "uint8" then 1 else if t == "uint16_le" || t == "uint16_be" then 2 else 4
  }

  predicate IsBigEndian(t: string) {
    t == "uint16_be" || t == "uint32_be"
  }

  /** `parse_uint` of the transport session: the byte count must match
      the type exactly. */
  function StrictParseUint(raw: seq<Byte>, t: string): (r: Result<nat>)
    ensures r.Ok? <==> IsUintType(t) && |raw| == UintWidth(t)
    ensures r.Ok? ==> r.value == Unsigned(raw, IsBigEndian(t)) && r.value < Pow256(|raw|)
  {
    if t == "uint8" then
      if |raw| != 1 then Err("uint8 requires 1 byte") else Ok(raw[0])
    else if t == "uint16_le" || t == "uint32_le" then
      if |raw| != UintWidth(t) then Err("length field requires its exact byte count") else Ok(FromLE(raw))
    else if t == "uint16_be" || t == "uint32_be" then
      if |raw| != UintWidth(t) then Err("length field requires its exact byte count") else Ok(FromBE(raw))
    else Err("Unsupported length field type")
  }

  /** `parse_uint` of the live framer and the protocol detector: no byte
      count check, so `uint8` needs one byte and the others read however
      many bytes they are given. */
  function LenientParseUint(raw: seq<Byte>, t: string): (r: Result<nat>)
    ensures r.Ok? <==> IsUintType(t) && (t == "uint8" ==> |raw| >= 1)
    ensures r.Ok? && t == "uint8" ==> r.value == raw[0]
    ensures r.Ok? && t != "uint8" ==> r.value == Unsigned(raw, IsBigEndian(t))
    ensures IsUintType(t) && |raw| == UintWidth(t) ==> r == StrictParseUint(raw, t)
  {
    if t == "uint8" then
      if |raw| == 0 then Err("index out of range") else Ok(raw[0])
    else if t == "uint16_le" || t == "uint32_le" then Ok(FromLE(raw))
    else if t == "uint16_be" || t == "uint32_be" then Ok(FromBE(raw))
    else Err("Unsupported length field type")
  }

  // ---------------------------------------------------------------------
  // Transport session: LengthSpec.from_frame / total_length

  /** The transport session's `LengthSpec`, every key present. */
  datatype StrictLength =
    | StrictFixed(value: int)
    | StrictDynamic(offset: int, flen: int, ftype: string, overhead: int)
    | StrictCounted(offset: int, flen: int, ftype: string, unit: int, overhead: int)

  /** A length field with all three keys present. */
  predicate FullField(f: Option<LengthField>) {
    f.Some? && f.value.offset.Some? && f.value.length.Some? && f.value.ftype.Some?
  }

  /** `LengthSpec.from_frame` of the transport session: `length` must be an
      object and every key its mode reads must be present. */
  function StrictFromFrame(f: FrameSpec): (r: Result<StrictLength>)
    ensures r.Ok? <==> (f.length.LenObject? &&
              var o := f.length.obj;
              (o.mode == Some("fixed") && o.value.Some?)
              || (o.mode == Some("dynamic") && FullField(o.field) && o.overhead.Some?)
              || (o.mode == Some("counted") && FullField(o.countField) && o.unit.Some? && o.overhead.Some?))
    ensures r.Ok? && f.length.obj.mode == Some("fixed") ==> r.value == StrictFixed(f.length.obj.value.value)
    ensures r.Ok? && f.length.obj.mode == Some("dynamic") ==>
              var fd := f.length.obj.field.value;
              r.value == StrictDynamic(fd.offset.value, fd.length.value, fd.ftype.value, f.length.obj.overhead.value)
    ensures r.Ok? && f.length.obj.mode == Some("counted") ==>
              var fd := f.length.obj.countField.value;
              r.value == StrictCounted(fd.offset.value, fd.length.value, fd.ftype.value,
                                       f.length.obj.unit.value, f.length.obj.overhead.value)
  {
    match f.length
    case LenObject(o) =>
      if o.mode == Some("fixed") then
        if o.value.None? then Err("KeyError: 'value'") else Ok(StrictFixed(o.value.value))
      else if o.mode == Some("dynamic") then
        if !FullField(o.field) || o.overhead.None? then Err("KeyError")
        else
          var fd := o.field.value;
          Ok(StrictDynamic(fd.offset.value, fd.length.value, fd.ftype.value, o.overhead.value))
      else if o.mode == Some("counted") then
        if !FullField(o.countField) || o.unit.None? || o.overhead.None? then Err("KeyError")
        else
          var fd := o.countField.value;
          Ok(StrictCounted(fd.offset.value, fd.length.value, fd.ftype.value, o.unit.value, o.overhead.value))
      else Err("Unsupported length.mode")
    case _ => Err("frame.length must be an object")
  }

  /** `LengthSpec.total_length(prefix)` of the transport session. */
  function StrictTotalLength(ls: StrictLength, prefix: seq<Byte>): (r: Result<int>)
    ensures ls.StrictFixed? ==> r == Ok(ls.value)
    ensures !ls.StrictFixed? && |prefix| < ls.offset + ls.flen ==> r == Ok(-1)
    ensures !ls.StrictFixed? && 0 <= ls.offset && 0 <= ls.flen && ls.offset + ls.flen <= |prefix| ==>
              (r.Ok? <==> IsUintType(ls.ftype) && ls.flen == UintWidth(ls.ftype))
              && (r.Ok? ==>
                    var v := Unsigned(prefix[ls.offset..ls.offset + ls.flen], IsBigEndian(ls.ftype));
                    r.value == if ls.StrictDynamic? then v + ls.overhead else v * ls.unit + ls.overhead)
  {
    match ls
    case StrictFixed(value) => Ok(value)
    case StrictCounted(offset, flen, ftype, unit, overhead) =>
      if |prefix| < offset + flen then Ok(-1)
      else
        var count :- StrictParseUint(PySlice(prefix, offset, offset + flen), ftype);
        Ok(count * unit + overhead)
    case StrictDynamic(offset, flen, ftype, overhead) =>
      if |prefix| < offset + flen then Ok(-1)
      else
        var payloadLen :- StrictParseUint(PySlice(prefix, offset, offset + flen), ftype);
        Ok(payloadLen + overhead)
  }

  // ---------------------------------------------------------------------
  // Live framer: LengthSpec.from_frame / total_length

  /** The live framer's `LengthSpec`: the field object is kept as given
      (`field or {}`), its keys are read with defaults later. */
  datatype LiveLength =
    | LiveFixed(value: int)
    | LiveDynamic(field: LengthField, overhead: int)
    | LiveCounted(field: LengthField, unit: int, overhead: int)

  const NoField := LengthField(None, None, None)

  /** `LengthSpec.from_frame` of the live framer. */
  function LiveFromFrame(f: FrameSpec): (r: Result<LiveLength>)
    ensures r.Ok? <==> (f.length.LenObject? &&
              var o := f.length.obj;
              (o.mode == Some("fixed") && o.value.Some?)
              || (o.mode == Some("dynamic") && o.overhead.Some?)
              || (o.mode == Some("counted") && o.unit.Some? && o.overhead.Some?))
    ensures r.Ok? && !r.value.LiveFixed? ==>
              var o := f.length.obj;
              r.value.field == (if r.value.LiveDynamic? then o.field else o.countField).GetOr(NoField)
  {
    match f.length
    case LenObject(o) =>
      if o.mode == Some("fixed") then
        if o.value.None? then Err("KeyError: 'value'") else Ok(LiveFixed(o.value.value))
      else if o.mode == Some("dynamic") then
        if o.overhead.None? then Err("KeyError: 'overhead_bytes'")
        else Ok(LiveDynamic(o.field.GetOr(NoField), o.overhead.value))
      else if o.mode == Some("counted") then
        if o.unit.None? || o.overhead.None? then Err("KeyError")
        else Ok(LiveCounted(o.countField.GetOr(NoField), o.unit.value, o.overhead.value))
      else Err("Unsupported length.mode")
    case _ => Err("frame.length must be an object")
  }

  /** The field position a lenient reader uses: absent keys read as -1,
      an absent type as the empty string. */
  function FieldOffset(fd: LengthField): int { fd.offset.GetOr(-1) }
  function FieldLen(fd: LengthField): int { fd.length.GetOr(-1) }
  function FieldType(fd: LengthField): string { fd.ftype.GetOr("") }

  /** The field can be read from `prefix`: a real position that the prefix covers. */
  predicate FieldReadable(fd: LengthField, prefix: seq<Byte>) {
    FieldOffset(fd) >= 0 && FieldLen(fd) > 0 && FieldOffset(fd) + FieldLen(fd) <= |prefix|
  }

  /** The raw bytes of a readable field. */
  function FieldBytes(fd: LengthField, prefix: seq<Byte>): (r: seq<Byte>)
    requires FieldReadable(fd, prefix)
    ensures |r| == FieldLen(fd) > 0
  {
    prefix[FieldOffset(fd)..FieldOffset(fd) + FieldLen(fd)]
  }

  /** `LengthSpec.total_length(prefix)` of the live framer. */
  function LiveTotalLength(ls: LiveLength, prefix: seq<Byte>): (r: Result<int>)
    ensures ls.LiveFixed? ==> r == Ok(ls.value)
    ensures !ls.LiveFixed? && !FieldReadable(ls.field, prefix) ==> r == Ok(-1)
    ensures !ls.LiveFixed? && FieldReadable(ls.field, prefix) ==>
              (r.Ok? <==> IsUintType(FieldType(ls.field)))
              && (r.Ok? ==>
                    var v := LenientParseUint(FieldBytes(ls.field, prefix), FieldType(ls.field)).value;
                    r.value == if ls.LiveDynamic? then v + ls.overhead else v * ls.unit + ls.overhead)
  {
    if ls.LiveFixed? then Ok(ls.value)
    else
      var off := FieldOffset(ls.field);
      var ln := FieldLen(ls.field);
      var tp := FieldType(ls.field);
      if off < 0 || ln <= 0 then Ok(-1)
      else if |prefix| < off + ln then Ok(-1)
      else
        var v :- LenientParseUint(prefix[off..off + ln], tp);
        if ls.LiveDynamic? then Ok(v + ls.overhead) else Ok(v * ls.unit + ls.overhead)
  }

  // ---------------------------------------------------------------------
  // Protocol detector: parse_length_spec and the length step of iter_frames

  /** `parse_length_spec`: an object is used as is; the legacy string
      `"fixed"` becomes a fixed length of `total_length` (default 0). */
  function ParseLengthSpec(f: FrameSpec): (r: Result<LengthObj>)
    ensures f.length.LenObject? ==> r == Ok(f.length.obj)
    ensures f.length == LenString("fixed") ==>
              r.Ok? && r.value.mode == Some("fixed") && r.value.value == Some(f.totalLength.GetOr(0))
    ensures r.Ok? <==> f.length.LenObject? || f.length == LenString("fixed")
  {
    match f.length
    case LenObject(o) => Ok(o)
    case LenString(s) =>
      if s == "fixed" then Ok(LengthObj(Some("fixed"), Some(f.totalLength.GetOr(0)), None, None, None, None))
      else Err("frame.length must be an object")
    case _ => Err("frame.length must be an object")
  }

  /** The total length `iter_frames` computes for the buffer `buf`. */
  function DetectTotalLength(o: LengthObj, buf: seq<Byte>): (r: Result<int>)
    ensures o.mode == Some("fixed") ==> r == Ok(o.value.GetOr(-1))
    ensures o.mode != Some("fixed") && o.mode != Some("dynamic") && o.mode != Some("counted") ==> r == Ok(-1)
    ensures o.mode == Some("dynamic") || o.mode == Some("counted") ==>
              var fd := (if o.mode == Some("dynamic") then o.field else o.countField).GetOr(NoField);
              (!FieldReadable(fd, buf) ==> r == Ok(-1))
              && (FieldReadable(fd, buf) ==>
                    (r.Ok? <==> IsUintType(FieldType(fd)))
                    && (r.Ok? ==>
                          var v := LenientParseUint(FieldBytes(fd, buf), FieldType(fd)).value;
                          r.value == if o.mode == Some("dynamic") then v + o.overhead.GetOr(0)
                                     else v * o.unit.GetOr(0) + o.overhead.GetOr(0)))
  {
    if o.mode == Some("fixed") then Ok(o.value.GetOr(-1))
    else if o.mode == Some("dynamic") || o.mode == Some("counted") then
      var fd := (if o.mode == Some("dynamic") then o.field else o.countField).GetOr(NoField);
      var off := FieldOffset(fd);
      var ln := FieldLen(fd);
      var overhead := o.overhead.GetOr(0);
      if off >= 0 && ln > 0 && |buf| >= off + ln then
        var v :- LenientParseUint(buf[off..off + ln], FieldType(fd));
        if o.mode == Some("dynamic") then Ok(v + overhead) else Ok(v * o.unit.GetOr(0) + overhead)
      else Ok(-1)
    else Ok(-1)
  }

  // ---------------------------------------------------------------------
  // Decoder: get_frame_length

  /** The length field the decoder reads, with its defaults
      (offset 0, length 1, type `uint8`). */
  function DecoderField(o: LengthObj): LengthField
    requires o.mode == Some("dynamic") || o.mode == Some("counted")
  {
    (if o.mode == Some("dynamic") then o.field else o.countField).GetOr(NoField)
  }

  function DecoderFieldType(o: LengthObj): string
    requires o.mode == Some("dynamic") || o.mode == Some("counted")
  {
    DecoderField(o).ftype.GetOr("uint8")
  }

  /** The decoder's `length` object: absent reads as `{}`. */
  function DecoderLengthObj(f: FrameSpec): Option<LengthObj> {
    match f.length
    case LenAbsent => Some(LengthObj(None, None, None, None, None, None))
    case LenObject(o) => Some(o)
    case _ => None
  }

  /** The length field is not a float type (whose values are not modelled). */
  predicate NoFloatLength(f: FrameSpec) {
    match DecoderLengthObj(f)
    case Some(o) =>
      var mode := o.mode.GetOr("fixed");
      (mode == "dynamic" || mode == "counted") ==> !IsFloatType(DecoderFieldType(o.(mode := Some(mode))))
    case None => true
  }

  /** `get_frame_length(frame_spec, data)` of the decoder: a fixed value is
      returned without looking at `data`; a field that is short or decodes
      to `None` gives -1; an unknown mode gives -1. */
  function DecoderFrameLength(f: FrameSpec, data: seq<Byte>): (r: Result<int>)
    requires NoFloatLength(f)
    ensures DecoderLengthObj(f).None? ==> r.Err?
    ensures f.length.LenAbsent? ==> r == Ok(0)
    ensures f.length.LenObject? && f.length.obj.mode.GetOr("fixed") == "fixed" ==>
              r == Ok(f.length.obj.value.GetOr(0))
    ensures f.length.LenObject? && f.length.obj.mode.GetOr("fixed") !in {"fixed", "dynamic", "counted"} ==>
              r == Ok(-1)
    ensures f.length.LenObject? && f.length.obj.mode.GetOr("fixed") in {"dynamic", "counted"} ==>
              r == FieldFrameLength(f.length.obj, data)
  {
    match DecoderLengthObj(f)
    case None => Err("AttributeError: 'length' has no attribute 'get'")
    case Some(o) =>
      var mode := o.mode.GetOr("fixed");
      if mode == "fixed" then Ok(o.value.GetOr(0))
      else if mode == "dynamic" || mode == "counted" then FieldFrameLength(o, data)
      else Ok(-1)
  }

  /** The `dynamic` and `counted` modes of `get_frame_length`: the length
      field is read at its offset; a short buffer or a `None` value gives
      -1; `dynamic` adds the overhead to the value, `counted` multiplies the
      count by the unit and adds the overhead. */
  function FieldFrameLength(o: LengthObj, data: seq<Byte>): (r: Result<int>)
    requires o.mode == Some("dynamic") || o.mode == Some("counted")
    requires !IsFloatType(DecoderFieldType(o))
    ensures var fd := DecoderField(o);
            var off := fd.offset.GetOr(0);
            var flen := fd.length.GetOr(1);
            var pv := ParseValue(PySlice(data, off, off + flen), DecoderFieldType(o));
            && (|data| < off + flen ==> r == Ok(-1))
            && (|data| >= off + flen && pv.VNone? ==> r == Ok(-1))
            && (|data| >= off + flen && pv.VInt? ==>
                  r == Ok(if o.mode == Some("dynamic") then pv.i + o.overhead.GetOr(0)
                          else o.overhead.GetOr(0) + pv.i * o.unit.GetOr(0)))
            && (|data| >= off + flen && o.mode == Some("dynamic") && pv.VStr? ==> r.Err?)
  {
    var fd := DecoderField(o);
    var off := fd.offset.GetOr(0);
    var flen := fd.length.GetOr(1);
    var overhead := o.overhead.GetOr(0);
    if |data| < off + flen then Ok(-1)
    else
      var pv := ParseValue(PySlice(data, off, off + flen), DecoderFieldType(o));
      if pv.VNone? then Ok(-1)
      else if o.mode == Some("dynamic") then
        if pv.VInt? then Ok(pv.i + overhead) else Err("TypeError: can only concatenate str (not \"int\") to str")
      else
        var count :- IntOf(pv);
        Ok(overhead + count * o.unit.GetOr(0))
  }

  // ---------------------------------------------------------------------
  // Properties

  /** Once the prefix covers the length field, more bytes do not change
      the transport session's total length: the framing loop may see the
      frame in pieces. */
  lemma StrictTotalLengthStable(ls: StrictLength, prefix: seq<Byte>, more: seq<Byte>)
    requires ls.StrictFixed? || (0 <= ls.offset && 0 <= ls.flen && ls.offset + ls.flen <= |prefix|)
    ensures StrictTotalLength(ls, prefix + more) == StrictTotalLength(ls, prefix)
  {
    if !ls.StrictFixed? {
      assert (prefix + more)[ls.offset..ls.offset + ls.flen] == prefix[ls.offset..ls.offset + ls.flen];
    }
  }

  /** The same for the live framer. */
  lemma LiveTotalLengthStable(ls: LiveLength, prefix: seq<Byte>, more: seq<Byte>)
    requires ls.LiveFixed? || FieldReadable(ls.field, prefix)
    ensures LiveTotalLength(ls, prefix + more) == LiveTotalLength(ls, prefix)
  {
    if !ls.LiveFixed? {
      assert FieldBytes(ls.field, prefix + more) == FieldBytes(ls.field, prefix);
    }
  }

  /** The live and transport readers agree on a well-formed field whose
      width matches its type. */
  lemma LiveAgreesWithStrict(f: FrameSpec, prefix: seq<Byte>)
    requires StrictFromFrame(f).Ok? && !StrictFromFrame(f).value.StrictFixed?
    requires var ls := StrictFromFrame(f).value;
             0 <= ls.offset && IsUintType(ls.ftype) && ls.flen == UintWidth(ls.ftype)
    ensures LiveFromFrame(f).Ok?
    ensures LiveTotalLength(LiveFromFrame(f).value, prefix) == StrictTotalLength(StrictFromFrame(f).value, prefix)
  {
    var ls := StrictFromFrame(f).value;
    var o := f.length.obj;
    var fd := (if ls.StrictDynamic? then o.field else o.countField).value;
    assert o.mode == Some("dynamic") || o.mode == Some("counted");
    var lv := LiveFromFrame(f).value;
    assert lv.field == fd;
    assert FieldOffset(fd) == ls.offset && FieldLen(fd) == ls.flen && FieldType(fd) == ls.ftype;
    if |prefix| >= ls.offset + ls.flen {
      assert FieldReadable(fd, prefix);
      var raw := prefix[ls.offset..ls.offset + ls.flen];
      assert FieldBytes(fd, prefix) == raw;
      assert LenientParseUint(raw, ls.ftype) == StrictParseUint(raw, ls.ftype);
    }
  }
}
