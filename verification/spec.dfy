/** The protocol description (`protocol.json`) as the engine reads it.

    Every key the scripts look up with `.get` or `[...]` is an `Option`
    here: `None` is a missing key.  Values have the JSON type the scripts
    expect (integers for offsets and lengths, strings for type names); a
    value of another JSON type is outside the model. */
module Spec {
  import opened Wrappers
  import opened Values

  /** A header token: a JSON string such as `"0xAA"`, or a number. */
  datatype Token = TokStr(s: string) | TokInt(i: int)

  datatype HeaderJson = HeaderAbsent | HeaderList(tokens: seq<Token>) | HeaderNotList

  /** `length.field` / `length.count_field` */
  datatype LengthField = LengthField(offset: Option<int>, length: Option<int>, ftype: Option<string>)

  /** The `length` object. */
  datatype LengthObj = LengthObj(
    mode: Option<string>,
    value: Option<int>,
    field: Option<LengthField>,
    countField: Option<LengthField>,
    overhead: Option<int>,
    unit: Option<int>)

  /** `frame.length`: an object, the legacy string form, or another JSON value. */
  datatype LengthJson = LenAbsent | LenObject(obj: LengthObj) | LenString(s: string) | LenOther

  /** `checksum.range` */
  datatype Range = Range(from: Option<int>, to: Option<int>)

  /** One entry of `params.data_slices` for `xor16_slices`. */
  datatype XorSlice = XorSlice(
    from: Option<int>,
    to: Option<int>,
    stride: Option<int>,
    lowRel: seq<int>,
    upRel: seq<int>)

  /** `checksum.params`: the CRC parameters and the `xor16_slices`
      parameters share one object; absent lists read as empty. */
  datatype Params = Params(
    poly: Option<int>,
    init: Option<int>,
    xorout: Option<int>,
    refin: Option<bool>,
    refout: Option<bool>,
    seedLow: seq<int>,
    seedUp: seq<int>,
    slices: seq<XorSlice>)

  /** The `checksum` object. */
  datatype ChecksumSpec = ChecksumSpec(
    ctype: Option<string>,
    storeFormat: Option<string>,
    storeAt: Option<int>,
    range: Option<Range>,
    params: Option<Params>)
  {
    /** `{}`, the one checksum object Python treats as false. */
    predicate IsEmpty() {
      ctype.None? && storeFormat.None? && storeAt.None? && range.None? && params.None?
    }
  }

  /** A field's `length`: an integer, a reference to an earlier field
      (`{ref, mul, add}`), or any other JSON value. */
  datatype FieldLength =
    | LenInt(n: int)
    | LenRef(ref: Option<string>, mul: Option<Value>, add: Option<Value>)
    | LenNotInt

  datatype FieldDef = FieldDef(name: string, offset: int, length: FieldLength, ftype: string)

  /** One entry of `frames`. */
  datatype FrameSpec = FrameSpec(
    name: Option<string>,
    header: HeaderJson,
    length: LengthJson,
    totalLength: Option<int>,
    checksum: Option<ChecksumSpec>,
    fields: seq<FieldDef>)
}
