/** The command encoder: a command from the command set becomes a payload
    (its parameters encoded in declaration order), and a payload becomes a
    frame laid out as header, length field, message id, payload and
    checksum.

    Values are encoded with `Codec.EncodeValue`, checksums with the shared
    CRC and byte-sum of `Checksums` (the encoder's copies are the same
    code); the lemmas at the end state that the checksum verifier accepts
    the frames the encoder builds. That the decoder reads a value back as
    it was encoded is stated value by value in `Codec`; no lemma here
    relates a whole built frame to the frame decoder. */
module Encode {
  import opened Wrappers
  import opened Seqs
  import opened PyInt
  import opened PyBytes
  import opened PyStr
  import opened Values
  import opened Spec
  import opened Headers
  import opened Codec
  import opened Lengths
  import opened Checksums

  // ---------------------------------------------------------------------
  // find_command

  /** One entry of `payload` in a command: its `name` (required) and
      `type` (default `"uint8"`). */
  datatype PayloadField = PayloadField(name: Option<string>, ftype: Option<string>)

  /** One entry of `commands`; a missing `payload` reads as `[]`. */
  datatype Command = Command(name: Option<Value>, id: Option<Value>, payload: seq<PayloadField>)

  /** Whether `find_command` stops at `c` for `selector`: by name, by an
      integer id written in hex (`int(selector, 16)` may raise), or by the
      text of the id (`str(None)` for a missing one). */
  function Matches(c: Command, selector: string): (r: Result<bool>)
    ensures c.name == Some(VStr(selector)) ==> r == Ok(true)
    ensures r.Err? <==> c.name != Some(VStr(selector)) && c.id.Some? && c.id.value.VInt?
                        && HasHexPrefix(selector) && ParseHexToken(selector).Err?
    ensures c.name != Some(VStr(selector)) && c.id.Some? && c.id.value.VInt? && HasHexPrefix(selector)
              && ParseHexToken(selector).Ok? ==>
              r == Ok(c.id.value.i == ParseHexToken(selector).value)
    ensures c.name != Some(VStr(selector)) && !(c.id.Some? && c.id.value.VInt? && HasHexPrefix(selector)) ==>
              r == Ok(Str(c.id.GetOr(VNone)) == selector)
  {
    if c.name == Some(VStr(selector)) then Ok(true)
    else
      var id := c.id.GetOr(VNone);
      if id.VInt? && HasHexPrefix(selector) then
        var v :- ParseHexToken(selector);
        Ok(id.i == v)
      else Ok(Str(id) == selector)
  }

  /** `find_command(commands_data, selector)`: the first command that
      matches, `None` when none does; a raising comparison propagates. */
  function FindCommand(cmds: seq<Command>, selector: string): (r: Result<Option<Command>>)
    ensures r == Ok(None) <==> forall i :: 0 <= i < |cmds| ==> Matches(cmds[i], selector) == Ok(false)
    ensures r.Ok? && r.value.Some? ==> r.value.value in cmds && Matches(r.value.value, selector) == Ok(true)
  {
    if |cmds| == 0 then Ok(None)
    else
      assert forall i :: 1 <= i < |cmds| ==> cmds[i] == cmds[1..][i - 1];
      var m :- Matches(cmds[0], selector);
      if m then Ok(Some(cmds[0])) else FindCommand(cmds[1..], selector)
  }

  /** The search stops at the first command that matches or raises, and
      every command before it does not match. */
  lemma {:induction false} FindCommandStops(cmds: seq<Command>, selector: string) returns (j: nat)
    requires FindCommand(cmds, selector) != Ok(None)
    ensures j < |cmds|
    ensures forall i :: 0 <= i < j ==> Matches(cmds[i], selector) == Ok(false)
    ensures Matches(cmds[j], selector).Err? ==> FindCommand(cmds, selector).Err?
    ensures Matches(cmds[j], selector) == Ok(true) ==> FindCommand(cmds, selector) == Ok(Some(cmds[j]))
    ensures Matches(cmds[j], selector) != Ok(false)
  {
    var m := Matches(cmds[0], selector);
    if m.Err? || m == Ok(true) {
      j := 0;
    } else {
      var k := FindCommandStops(cmds[1..], selector);
      j := k + 1;
      assert cmds[1..][k] == cmds[j];
      forall i | 0 <= i < j
        ensures Matches(cmds[i], selector) == Ok(false)
      {
        if i > 0 {
          assert cmds[1..][i - 1] == cmds[i];
        }
      }
    }
  }

  // ---------------------------------------------------------------------
  // build_payload

  function FieldType(fd: PayloadField): string {
    fd.ftype.GetOr("uint8")
  }

  /** No payload field has a float type (whose encoding is not modelled). */
  predicate NoFloatPayload(fields: seq<PayloadField>) {
    forall i :: 0 <= i < |fields| ==> !IsFloatType(FieldType(fields[i]))
  }

  /** The bytes one payload field contributes: its parameter encoded with
      its type.  A field without a name, or whose parameter is not given,
      raises. */
  function EncodeField(fd: PayloadField, params: Dict): (r: Result<seq<Byte>>)
    requires !IsFloatType(FieldType(fd))
    ensures r.Ok? ==> fd.name.Some? && Has(params, fd.name.value)
    ensures fd.name.Some? && Has(params, fd.name.value) ==>
              r == EncodeValue(Get(params, fd.name.value).value, FieldType(fd))
  {
    if fd.name.None? then Err("KeyError: 'name'")
    else if !Has(params, fd.name.value) then Err("Missing required param")
    else EncodeValue(Get(params, fd.name.value).value, FieldType(fd))
  }

  /** Each field's bytes, in declaration order. */
  function FieldEncodings(fields: seq<PayloadField>, params: Dict): (r: seq<Result<seq<Byte>>>)
    requires NoFloatPayload(fields)
    ensures |r| == |fields|
    ensures forall i :: 0 <= i < |fields| ==> r[i] == EncodeField(fields[i], params)
  {
    seq(|fields|, i requires 0 <= i < |fields| => EncodeField(fields[i], params))
  }

  /** `build_payload(command, params)`: each declared field's parameter
      encoded with the field's type, concatenated in declaration order;
      the first field that raises stops it. */
  function BuildPayload(fields: seq<PayloadField>, params: Dict): (r: Result<seq<Byte>>)
    requires NoFloatPayload(fields)
    ensures |fields| == 0 ==> r == Ok([])
    ensures r.Ok? <==> forall i :: 0 <= i < |fields| ==> EncodeField(fields[i], params).Ok?
    ensures r.Ok? ==> forall i :: 0 <= i < |fields| ==> fields[i].name.Some? && Has(params, fields[i].name.value)
  {
    JoinAll(FieldEncodings(fields, params))
  }

  /** One field: its parameter encoded with its type. */
  lemma BuildPayloadOne(fd: PayloadField, params: Dict)
    requires !IsFloatType(FieldType(fd))
    ensures NoFloatPayload([fd])
    ensures fd.name.Some? && Has(params, fd.name.value) ==>
              BuildPayload([fd], params) == EncodeValue(Get(params, fd.name.value).value, FieldType(fd))
    ensures fd.name.None? || !Has(params, fd.name.value) ==> BuildPayload([fd], params).Err?
  {
    var rs := FieldEncodings([fd], params);
    assert rs[1..] == [];
    assert JoinAll(rs[1..]) == Ok([]);
    if rs[0].Ok? {
      assert rs[0].value + [] == rs[0].value;
    }
  }

  /** Fields are encoded one after the other: the payload of a
      concatenation is the concatenation of the payloads, and an error in
      the first part comes first. */
  lemma BuildPayloadAppend(a: seq<PayloadField>, b: seq<PayloadField>, params: Dict)
    requires NoFloatPayload(a) && NoFloatPayload(b)
    ensures NoFloatPayload(a + b)
    ensures BuildPayload(a + b, params) ==
              match BuildPayload(a, params)
              case Err(m) => Err(m)
              case Ok(x) =>
                (match BuildPayload(b, params)
                 case Err(m) => Err(m)
                 case Ok(y) => Ok(x + y))
  {
    assert forall i :: 0 <= i < |a + b| ==> (a + b)[i] == if i < |a| then a[i] else b[i - |a|];
    assert FieldEncodings(a + b, params) == FieldEncodings(a, params) + FieldEncodings(b, params);
    JoinAllAppend(FieldEncodings(a, params), FieldEncodings(b, params));
  }

  /** Parameters no field declares are ignored. */
  lemma BuildPayloadIgnoresUndeclared(fields: seq<PayloadField>, params: Dict, k: string, v: Value)
    requires NoFloatPayload(fields)
    requires forall i :: 0 <= i < |fields| ==> fields[i].name != Some(k)
    ensures BuildPayload(fields, Set(params, k, v)) == BuildPayload(fields, params)
  {
    forall i | 0 <= i < |fields|
      ensures EncodeField(fields[i], Set(params, k, v)) == EncodeField(fields[i], params)
    {
      if fields[i].name.Some? {
        assert Get(Set(params, k, v), fields[i].name.value) == Get(params, fields[i].name.value);
      }
    }
    assert FieldEncodings(fields, Set(params, k, v)) == FieldEncodings(fields, params);
  }

  // ---------------------------------------------------------------------
  // encode_checksum

  /** `encode_checksum(checksum_val, store_format)`: the value masked to
      the format's width in its byte order; only the five unsigned formats
      are accepted. */
  function EncodeChecksum(val: nat, fmt: string): (r: Result<seq<Byte>>)
    ensures r.Ok? <==> IsUintType(fmt)
    ensures r.Ok? ==> |r.value| == UintWidth(fmt)
                      && Unsigned(r.value, IsBigEndian(fmt)) == val % Pow256(UintWidth(fmt))
  {
    if IsUintType(fmt) then
      assert IntTypeOf(fmt) == Some(IntType(UintWidth(fmt), false, IsBigEndian(fmt)));
      EncodeValue(VInt(val), fmt)
    else Err("Unsupported store_format")
  }

  /** The checksum's width as `checksum_len` in `build_frame` has it. */
  function ChecksumLen(fmt: string): (n: nat)
    ensures n == 1 || n == 2 || n == 4
  {
    if fmt == "uint8" then 1 else if Contains(fmt, "16") then 2 else 4
  }

  /** For the formats the encoder accepts, `checksum_len` is the width the
      verifier reads. */
  lemma ChecksumLenWidth(fmt: string)
    requires IsUintType(fmt)
    ensures ChecksumLen(fmt) == UintWidth(fmt)
    ensures ChecksumNBytes(fmt) == Ok(UintWidth(fmt))
    ensures FormatReadable(fmt)
    ensures fmt != "uint8" ==> (EndsWith(fmt, "_le") <==> !IsBigEndian(fmt))
  {
    if fmt == "uint16_le" || fmt == "uint16_be" {
      assert OccursAt(fmt, "16", 4);
      assert StartsWith(fmt, "uint16_") by { assert fmt[..7] == "uint16_"; }
    } else if fmt == "uint32_le" || fmt == "uint32_be" {
      assert forall k :: 0 <= k <= |fmt| - 2 ==> !OccursAt(fmt, "16", k) by {
        forall k | 0 <= k <= |fmt| - 2 ensures !OccursAt(fmt, "16", k) {
          assert fmt[k..k + 2][0] == fmt[k];
        }
      }
      assert !StartsWith(fmt, "uint16_") by { assert fmt[5] != "uint16_"[5]; }
      assert StartsWith(fmt, "uint32_") by { assert fmt[..7] == "uint32_"; }
    }
    if fmt != "uint8" {
      assert EndsWith(fmt, "_le") <==> fmt[|fmt| - 3..] == "_le";
      assert fmt[|fmt| - 3..] == (if IsBigEndian(fmt) then "_be" else "_le");
    }
  }

  /** `read_expected_checksum` at `-checksum_len` reads back what
      `encode_checksum` appended: the value masked to the width. */
  lemma ChecksumReadBack(body: seq<Byte>, val: nat, fmt: string)
    requires IsUintType(fmt)
    ensures EncodeChecksum(val, fmt).Ok?
    ensures ReadExpected(body + EncodeChecksum(val, fmt).value, -(ChecksumLen(fmt) as int), fmt)
            == Ok(val % Pow256(UintWidth(fmt)))
  {
    ChecksumLenWidth(fmt);
    var enc := EncodeChecksum(val, fmt).value;
    var frame := body + enc;
    var n := UintWidth(fmt);
    var expected := Unsigned(enc, IsBigEndian(fmt));
    assert expected == val % Pow256(n);
    assert ResolveIndex(-(n as int), |frame|) == |body|;
    AppendedSlice(body, enc);
    var r := ReadExpected(frame, -(n as int), fmt);
    assert r.Ok?;
    if fmt == "uint8" {
      assert enc[1..] == [];
      assert FromLE(enc) == enc[0] + 256 * FromLE(enc[1..]);
      assert r.value == enc[0] == expected;
    } else if EndsWith(fmt, "_le") {
      assert r.value == FromLE(enc);
    } else {
      assert r.value == FromBE(enc);
    }
    assert r == Ok(expected);
  }

  // ---------------------------------------------------------------------
  // build_frame

  /** `mode` and the length field's `type` as `build_frame` reads them
      (`length` defaults to `{}`); a `length` that is not an object has no
      `.get` and raises. */
  function LengthLayout(f: FrameSpec): (r: Result<(string, string)>)
    ensures r.Ok? <==> f.length.LenAbsent? || f.length.LenObject?
    ensures f.length.LenAbsent? ==> r == Ok(("fixed", "uint8"))
  {
    match f.length
    case LenAbsent => Ok(("fixed", "uint8"))
    case LenObject(o) => Ok((o.mode.GetOr("fixed"), o.field.GetOr(NoField).ftype.GetOr("uint8")))
    case LenString(_) => Err("AttributeError: 'str' object has no attribute 'get'")
    case LenOther => Err("AttributeError: object has no attribute 'get'")
  }

  /** The length field's type is not a float type. */
  predicate EncodableLength(f: FrameSpec) {
    LengthLayout(f).Ok? && LengthLayout(f).value.0 == "dynamic" ==> !IsFloatType(LengthLayout(f).value.1)
  }

  /** The length field `build_frame` writes: `len(payload)` in the field's
      type for dynamic mode, nothing otherwise. */
  function LengthBytes(f: FrameSpec, payloadLen: nat): (r: Result<seq<Byte>>)
    requires EncodableLength(f)
    ensures LengthLayout(f).Err? ==> r.Err?
    ensures LengthLayout(f).Ok? && LengthLayout(f).value.0 != "dynamic" ==> r == Ok([])
    ensures LengthLayout(f).Ok? && LengthLayout(f).value.0 == "dynamic" ==>
              r == EncodeValue(VInt(payloadLen), LengthLayout(f).value.1)
  {
    var (mode, ftype) :- LengthLayout(f);
    if mode == "dynamic" then EncodeValue(VInt(payloadLen), ftype) else Ok([])
  }

  /** The frame before its checksum: header, length field, message id,
      payload.  Header tokens are read leniently (skipped unless they are
      `0x..` strings), and the message id is masked to one byte. */
  function FrameBody(tokens: seq<Token>, msgId: Value, payload: seq<Byte>, f: FrameSpec): (r: Result<seq<Byte>>)
    requires EncodableLength(f)
    ensures r.Ok? <==> LenientTokens(tokens).Ok? && LengthBytes(f, |payload|).Ok? && IntOf(msgId).Ok?
    ensures r.Ok? ==>
              var header := LenientTokens(tokens).value;
              var lf := LengthBytes(f, |payload|).value;
              |r.value| == |header| + |lf| + 1 + |payload|
              && r.value[..|header|] == header
              && r.value[|header|..|header| + |lf|] == lf
              && r.value[|header| + |lf|] == IntOf(msgId).value % 256
              && r.value[|header| + |lf| + 1..] == payload
  {
    var header :- LenientTokens(tokens);
    var lf :- LengthBytes(f, |payload|);
    var id :- MsgIdByte(msgId);
    FourParts(header, lf, id, payload);
    Ok(header + lf + id + payload)
  }

  /** The message id packed as `uint8`: `int(msg_id)` masked to a byte. */
  function MsgIdByte(msgId: Value): (r: Result<seq<Byte>>)
    ensures r.Ok? <==> IntOf(msgId).Ok?
    ensures r.Ok? ==> r.value == [IntOf(msgId).value % 256]
  {
    var id :- EncodeValue(msgId, "uint8");
    assert Pow256(1) == 256;
    assert |id| == 1 && id[0] == FromLE(id) by {
      assert FromLE(id) == id[0] + 256 * FromLE(id[1..]);
      assert id[1..] == [];
    }
    assert id == [id[0]];
    Ok(id)
  }

  lemma FourParts<T>(a: seq<T>, b: seq<T>, c: seq<T>, d: seq<T>)
    requires |c| == 1
    ensures var s := a + b + c + d;
            s[..|a|] == a && s[|a|..|a| + |b|] == b && s[|a| + |b|] == c[0] && s[|a| + |b| + 1..] == d
  {
  }

  function Min(a: int, b: int): int {
    if a <= b then a else b
  }

  /** The empty `params` object. */
  const NoParams := Params(None, None, None, None, None, [], [], [])

  /** The value `build_frame` computes over `[start, end]`, with the end
      clamped to the last byte of `body`: the byte sum for `sum8`, the
      CRC with missing parameters read as 0 and false for `crc16` and
      `crc32`; any other type raises. */
  function ChecksumOver(body: seq<Byte>, ctype: string, p: Params, start: int, end: int): (r: Result<nat>)
    ensures r.Ok? <==> ctype == "sum8" || IsCrcType(ctype)
    ensures ctype == "sum8" ==> r == Ok(Sum(PySlice(body, start, Min(end, |body| - 1) + 1)) % 256)
    ensures IsCrcType(ctype) ==>
              r == CrcCompute(PySlice(body, start, Min(end + 1, |body|)), CrcWidth(ctype), p.poly.GetOr(0),
                              p.init.GetOr(0), p.xorout.GetOr(0), p.refin.GetOr(false), p.refout.GetOr(false))
    ensures r.Ok? && ctype == "sum8" ==> r.value < 256
    ensures r.Ok? && ctype == "crc16" ==> r.value < 0x1_0000
    ensures r.Ok? ==> r.value < 0x1_0000_0000
  {
    CrcWidthBounds();
    if ctype == "sum8" then Ok(Sum8(body, start, Min(end, |body| - 1)))
    else if IsCrcType(ctype) then
      CrcCompute(PySlice(body, start, Min(end + 1, |body|)), CrcWidth(ctype), p.poly.GetOr(0), p.init.GetOr(0),
                 p.xorout.GetOr(0), p.refin.GetOr(false), p.refout.GetOr(false))
    else Err("Unsupported checksum type")
  }

  /** The value `build_frame` stores: `checksum.range` is resolved against
      the length the frame will have with its checksum (`checksum_len`
      bytes more than `body`), then `ChecksumOver` that range. */
  function FrameChecksumValue(body: seq<Byte>, c: ChecksumSpec): (r: Result<nat>)
    ensures c.ctype.None? || c.range.None? || c.range.value.from.None? || c.range.value.to.None? ==> r.Err?
    ensures c.ctype.Some? && c.range.Some? && c.range.value.from.Some? && c.range.value.to.Some? ==>
              var total := |body| + ChecksumLen(c.storeFormat.GetOr("uint8"));
              r == ChecksumOver(body, c.ctype.value, c.params.GetOr(NoParams),
                                ResolveIndex(c.range.value.from.value, total), ResolveIndex(c.range.value.to.value, total))
  {
    if c.ctype.None? then Err("KeyError: 'type'")
    else if c.range.None? then Err("KeyError: 'range'")
    else
      var total := |body| + ChecksumLen(c.storeFormat.GetOr("uint8"));
      var rng := c.range.value;
      if rng.from.None? || rng.to.None? then Err("KeyError")
      else
        ChecksumOver(body, c.ctype.value, c.params.GetOr(NoParams),
                     ResolveIndex(rng.from.value, total), ResolveIndex(rng.to.value, total))
  }

  /** A checksum object Python treats as true. */
  predicate HasChecksum(f: FrameSpec) {
    f.checksum.Some? && !f.checksum.value.IsEmpty()
  }

  /** `build_frame(header, msg_id, payload, frame_spec)` */
  function BuildFrame(tokens: seq<Token>, msgId: Value, payload: seq<Byte>, f: FrameSpec): (r: Result<seq<Byte>>)
    requires EncodableLength(f)
    ensures r.Ok? ==> FrameBody(tokens, msgId, payload, f).Ok?
    ensures !HasChecksum(f) ==> r == FrameBody(tokens, msgId, payload, f)
    ensures HasChecksum(f) ==>
              (r.Ok? <==> FrameBody(tokens, msgId, payload, f).Ok?
                          && FrameChecksumValue(FrameBody(tokens, msgId, payload, f).value, f.checksum.value).Ok?
                          && IsUintType(f.checksum.value.storeFormat.GetOr("uint8")))
    ensures HasChecksum(f) && r.Ok? ==>
              var body := FrameBody(tokens, msgId, payload, f).value;
              var c := f.checksum.value;
              var fmt := c.storeFormat.GetOr("uint8");
              r.value == body + EncodeChecksum(FrameChecksumValue(body, c).value, fmt).value
  {
    var body :- FrameBody(tokens, msgId, payload, f);
    if !HasChecksum(f) then Ok(body)
    else
      var c := f.checksum.value;
      var val :- FrameChecksumValue(body, c);
      var cks :- EncodeChecksum(val, c.storeFormat.GetOr("uint8"));
      Ok(body + cks)
  }

  /** Any range end at or past the last byte before the checksum gives the
      same checksum: the end is clamped there. */
  lemma ChecksumEndClamped(body: seq<Byte>, ctype: string, p: Params, start: int, end1: int, end2: int)
    requires end1 >= |body| - 1 && end2 >= |body| - 1
    ensures ChecksumOver(body, ctype, p, start, end1) == ChecksumOver(body, ctype, p, start, end2)
  {
    assert Min(end1, |body| - 1) == Min(end2, |body| - 1);
    assert Min(end1 + 1, |body|) == Min(end2 + 1, |body|);
  }

  /** Over a range that ends before the checksum, the verifier computes
      what the encoder computed. */
  lemma ComputeMatches(frame: seq<Byte>, body: seq<Byte>, c: ChecksumSpec, start: nat, end: nat)
    requires IsPrefix(body, frame) && HasFormat(c) && c.ctype.Some?
    requires |frame| == |body| + ChecksumLen(c.storeFormat.value)
    requires c.ctype.value == "sum8" || (IsCrcType(c.ctype.value) && c.params.Some? && HasCrcParams(c.params.value))
    requires ResolveRange(frame, c.range) == Ok((start, end)) && end < |body|
    ensures ComputeChecksum(frame, c) == FrameChecksumValue(body, c)
  {
    var ctype := c.ctype.value;
    var p := c.params.GetOr(NoParams);
    FrameValueIsOver(frame, body, c, start, end);
    RangeIsOver(frame, body, c, start, end);
    assert ComputeChecksum(frame, c) == RangeChecksum(frame, start, end, ctype, c);
  }

  /** The encoder resolves the range against the finished frame's length. */
  lemma FrameValueIsOver(frame: seq<Byte>, body: seq<Byte>, c: ChecksumSpec, start: nat, end: nat)
    requires HasFormat(c) && c.ctype.Some?
    requires |frame| == |body| + ChecksumLen(c.storeFormat.value)
    requires ResolveRange(frame, c.range) == Ok((start, end))
    ensures FrameChecksumValue(body, c) == ChecksumOver(body, c.ctype.value, c.params.GetOr(NoParams), start, end)
  {
  }

  /** Over a range inside the body, the frame and the body agree. */
  lemma RangeIsOver(frame: seq<Byte>, body: seq<Byte>, c: ChecksumSpec, start: nat, end: nat)
    requires IsPrefix(body, frame) && HasFormat(c) && c.ctype.Some?
    requires c.ctype.value == "sum8" || (IsCrcType(c.ctype.value) && c.params.Some? && HasCrcParams(c.params.value))
    requires start <= end < |body|
    ensures RangeChecksum(frame, start, end, c.ctype.value, c)
            == ChecksumOver(body, c.ctype.value, c.params.GetOr(NoParams), start, end)
  {
    PrefixSlice(body, frame, start, end + 1);
    assert Min(end, |body| - 1) == end && Min(end + 1, |body|) == end + 1;
    assert PySlice(body, start, end + 1) == frame[start..end + 1];
  }

  lemma AppendedSlice<T>(a: seq<T>, b: seq<T>)
    ensures (a + b)[|a|..|a| + |b|] == b
  {
  }

  lemma PrefixSlice<T>(p: seq<T>, s: seq<T>, i: nat, j: nat)
    requires IsPrefix(p, s) && i <= j <= |p|
    ensures s[i..j] == p[i..j]
  {
    forall k | 0 <= k < j - i
      ensures s[i..j][k] == p[i..j][k]
    {
      assert s[..|p|][i + k] == s[i + k];
    }
  }

  /** `verify_checksum` is true when the stored and the computed value are
      both `val`. */
  lemma VerifyAccepts(frame: seq<Byte>, c: ChecksumSpec, fmt: string, val: nat)
    requires c.ctype.Some? && StoreFormat(c, c.ctype.value) == Ok(fmt) && c.storeAt.Some?
    requires ReadExpected(frame, c.storeAt.value, fmt) == Ok(val)
    requires ComputeChecksum(frame, c) == Ok(val)
    ensures VerifyChecksum(frame, c) == Ok(true)
  {
  }

  /** The conditions under which a stored checksum verifies: the format is
      named and wide enough for the type, the checksum is stored last,
      every CRC parameter is given, and the range, resolved against the
      whole frame, ends before the checksum. */
  predicate Verifiable(c: ChecksumSpec, bodyLen: nat) {
    HasFormat(c) && IsUintType(c.storeFormat.value) && c.ctype.Some?
    && var n := ChecksumLen(c.storeFormat.value);
    c.storeAt == Some(-(n as int))
    && (c.ctype.value == "crc16" ==> n >= 2)
    && (c.ctype.value == "crc32" ==> n == 4)
    && (IsCrcType(c.ctype.value) ==> c.params.Some? && HasCrcParams(c.params.value))
    && c.range.Some? && c.range.value.from.Some? && c.range.value.to.Some?
    && 0 <= ResolveIndex(c.range.value.from.value, bodyLen + n) <= ResolveIndex(c.range.value.to.value, bodyLen + n)
    && ResolveIndex(c.range.value.to.value, bodyLen + n) < bodyLen
  }

  /** A body with its checksum appended verifies. */
  lemma ChecksummedVerifies(body: seq<Byte>, c: ChecksumSpec)
    requires Verifiable(c, |body|) && FrameChecksumValue(body, c).Ok?
    ensures EncodeChecksum(FrameChecksumValue(body, c).value, c.storeFormat.value).Ok?
    ensures VerifyChecksum(body + EncodeChecksum(FrameChecksumValue(body, c).value, c.storeFormat.value).value, c)
            == Ok(true)
  {
    var fmt := c.storeFormat.value;
    var ctype := c.ctype.value;
    ChecksumLenWidth(fmt);
    var n := UintWidth(fmt);
    var val := FrameChecksumValue(body, c).value;
    var frame := body + EncodeChecksum(val, fmt).value;
    assert |frame| == |body| + n;
    var start := ResolveIndex(c.range.value.from.value, |frame|);
    var end := ResolveIndex(c.range.value.to.value, |frame|);
    assert ResolveRange(frame, c.range) == Ok((start, end));
    assert IsPrefix(body, frame) by { assert frame[..|body|] == body; }
    ComputeMatches(frame, body, c, start, end);
    ChecksumReadBack(body, val, fmt);
    assert val < Pow256(n) by {
      Pow256Values();
    }
    DivUnique(val, Pow256(n), 0, val);
    assert StoreFormat(c, ctype) == Ok(fmt);
    VerifyAccepts(frame, c, fmt, val);
  }

  /** The checksum verifier accepts what the encoder builds when the
      checksum object is `Verifiable` for the frame's body. */
  lemma BuildFrameVerifies(tokens: seq<Token>, msgId: Value, payload: seq<Byte>, f: FrameSpec)
    requires EncodableLength(f) && BuildFrame(tokens, msgId, payload, f).Ok? && HasChecksum(f)
    requires Verifiable(f.checksum.value, |FrameBody(tokens, msgId, payload, f).value|)
    ensures VerifyChecksum(BuildFrame(tokens, msgId, payload, f).value, f.checksum.value) == Ok(true)
  {
    var body := FrameBody(tokens, msgId, payload, f).value;
    ChecksummedVerifies(body, f.checksum.value);
  }
}
