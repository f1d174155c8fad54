/** Choosing the frame definition a transport session aligns with: a
    frame named on the command line, or the `if_bits_v1` selector, which
    reads the IF byte after the first header in the sample and maps three
    of its bits to one of six frame names. */
module Select {
  import opened Wrappers
  import opened PyInt
  import opened PyBytes
  import opened Values
  import opened Spec
  import opened Headers

  /** The six keys of an `if_bits_v1` selector's `frames` map. */
  const SixKeys: set<string> := {"no_speed_dist_only", "speed_dist_only",
                                 "no_speed_dist_brightness_u8", "speed_dist_brightness_u8",
                                 "no_speed_dist_brightness_u16", "speed_dist_brightness_u16"}

  /** The key the `elif` chain picks for the three flags. */
  function KeyOf(hasSpeed: bool, hasBright: bool, brightU16: bool): (k: string)
    ensures k in SixKeys
  {
    if !hasSpeed && !hasBright then "no_speed_dist_only"
    else if hasSpeed && !hasBright then "speed_dist_only"
    else if !hasSpeed && hasBright && !brightU16 then "no_speed_dist_brightness_u8"
    else if hasSpeed && hasBright && !brightU16 then "speed_dist_brightness_u8"
    else if !hasSpeed && hasBright && brightU16 then "no_speed_dist_brightness_u16"
    else "speed_dist_brightness_u16"
  }

  /** Two IF bytes select the same key exactly when they agree on speed
      and brightness and, with brightness present, on its width: the
      width bit is irrelevant without brightness.  The six keys have six
      different lengths. */
  lemma KeyOfInjective(s1: bool, b1: bool, u1: bool, s2: bool, b2: bool, u2: bool)
    ensures KeyOf(s1, b1, u1) == KeyOf(s2, b2, u2) <==> s1 == s2 && b1 == b2 && (b1 ==> u1 == u2)
  {
    if !(s1 == s2 && b1 == b2 && (b1 ==> u1 == u2)) {
      assert |KeyOf(s1, b1, u1)| != |KeyOf(s2, b2, u2)|;
    }
  }

  /** `bool((if_byte >> b) & 1) ^ inv`; Python rejects a negative shift
      count. */
  function FlagBit(ifByte: Byte, b: int, inv: bool): (r: Result<bool>)
    ensures r.Ok? <==> b >= 0
  {
    if b < 0 then Err("negative shift count") else Ok((Bit(ifByte, b) == 1) != inv)
  }

  /** A bit position past the byte reads as 0, leaving only the inversion. */
  lemma HighBitReadsInvert(ifByte: Byte, b: int, inv: bool)
    requires b >= 8
    ensures FlagBit(ifByte, b, inv) == Ok(inv)
  {
    Pow2Monotone(8, b);
    assert Pow2(8) == 256;
    DivUnique(ifByte, Pow2(b), 0, ifByte);
  }

  /** The three bit positions and inversions of a selector, read with
      their defaults 0, 1, 2 and false. */
  datatype Bits = Bits(bright: int, speed: int, blen: int, invBright: bool, invSpeed: bool, invBlen: bool)

  /** The key for one IF byte. */
  function IfKey(ifByte: Byte, bits: Bits): (r: Result<string>)
    ensures r.Ok? <==> bits.bright >= 0 && bits.speed >= 0 && bits.blen >= 0
    ensures r.Ok? ==> r.value in SixKeys
  {
    var hasBright :- FlagBit(ifByte, bits.bright, bits.invBright);
    var hasSpeed :- FlagBit(ifByte, bits.speed, bits.invSpeed);
    var brightU16 :- FlagBit(ifByte, bits.blen, bits.invBlen);
    Ok(KeyOf(hasSpeed, hasBright, brightU16))
  }

  /** With the brightness flag off, the width bit and its inversion do not
      change the key. */
  lemma LenBitIrrelevant(ifByte: Byte, bits: Bits, blen: nat, invBlen: bool)
    requires bits.bright >= 0 && bits.speed >= 0 && bits.blen >= 0
    requires FlagBit(ifByte, bits.bright, bits.invBright) == Ok(false)
    ensures IfKey(ifByte, bits.(blen := blen, invBlen := invBlen)) == IfKey(ifByte, bits)
  {
  }

  /** A `frame_selector` object; each field is the looked-up JSON value
      (`None` when the key is missing), and `frames` is `None` when it is
      missing or not an object, which the code reads as `{}`. */
  datatype Selector = Selector(
    stype: Option<Value>,
    ifOffset: Option<Value>,
    brightnessBit: Option<Value>,
    speedBit: Option<Value>,
    lenBit: Option<Value>,
    invBright: Option<Value>,
    invSpeed: Option<Value>,
    invLen: Option<Value>,
    frames: Option<Dict>)

  /** The bit settings of a selector, or the error `int()` raises. */
  function SelectorBits(s: Selector): (r: Result<Bits>)
    ensures r.Ok? <==> IntOf(s.brightnessBit.GetOr(VInt(0))).Ok? && IntOf(s.speedBit.GetOr(VInt(1))).Ok?
                       && IntOf(s.lenBit.GetOr(VInt(2))).Ok?
    ensures s.brightnessBit.None? && s.speedBit.None? && s.lenBit.None? ==>
              r.Ok? && r.value.bright == 0 && r.value.speed == 1 && r.value.blen == 2
    ensures r.Ok? ==> r.value.invBright == Truthy(s.invBright) && r.value.invSpeed == Truthy(s.invSpeed)
                      && r.value.invBlen == Truthy(s.invLen)
  {
    var bright :- IntOf(s.brightnessBit.GetOr(VInt(0)));
    var speed :- IntOf(s.speedBit.GetOr(VInt(1)));
    var blen :- IntOf(s.lenBit.GetOr(VInt(2)));
    Ok(Bits(bright, speed, blen, Truthy(s.invBright), Truthy(s.invSpeed), Truthy(s.invLen)))
  }

  /** `next((f for f in frames if f.get("name") == name), None)` */
  function FirstNamed(frames: seq<FrameSpec>, name: string): (r: Option<nat>)
    ensures r.Some? ==> r.value < |frames| && frames[r.value].name == Some(name)
                        && forall j :: 0 <= j < r.value ==> frames[j].name != Some(name)
    ensures r.None? ==> forall j :: 0 <= j < |frames| ==> frames[j].name != Some(name)
  {
    if |frames| == 0 then None
    else if frames[0].name == Some(name) then Some(0)
    else
      match FirstNamed(frames[1..], name)
      case Some(i) => Some(i + 1)
      case None => None
  }

  /** At most the first 65535 bytes of the input are sampled. */
  const SampleLimit := 65535

  function Sample(data: seq<Byte>): (s: seq<Byte>)
    ensures |s| <= SampleLimit && IsPrefix(s, data)
    ensures |data| <= SampleLimit ==> s == data
  {
    if |data| <= SampleLimit then data else data[..SampleLimit]
  }

  /** The IF byte: `if_offset` bytes after the first header in the sample,
      or `None` when there is no header or the offset runs past the end.
      A negative position counts from the end of the sample, as Python's
      indexing does, and raises when it reaches before the start. */
  function IfByteAt(sample: seq<Byte>, header: seq<Byte>, ifOffset: int): (r: Result<Option<Byte>>)
    ensures Find(sample, header) < 0 ==> r == Ok(None)
    ensures var idx := Find(sample, header);
            idx >= 0 && 0 <= idx + ifOffset < |sample| ==> r == Ok(Some(sample[idx + ifOffset]))
    ensures var idx := Find(sample, header);
            idx >= 0 && idx + ifOffset >= |sample| ==> r == Ok(None)
    ensures var idx := Find(sample, header);
            r.Err? <==> idx >= 0 && idx + ifOffset < -|sample|
  {
    var idx := Find(sample, header);
    if idx < 0 || idx + ifOffset >= |sample| then Ok(None)
    else
      var b :- PyIndex(sample, idx + ifOffset);
      Ok(Some(b))
  }

  /** The `if_bits_v1` branch of frame selection: the index of the frame
      it selects, or `None` when it selects nothing and the first frame is
      used. */
  function SelectByIf(frames: seq<FrameSpec>, sel: Option<Selector>, data: seq<Byte>): (r: Result<Option<nat>>)
    requires |frames| > 0
    ensures sel.None? || sel.value.stype != Some(VStr("if_bits_v1")) ==> r == Ok(None)
    ensures sel.Some? && sel.value.stype == Some(VStr("if_bits_v1")) && ExtractHeader(frames[0].header).Err? ==> r.Err?
    ensures sel.Some? && sel.value.stype == Some(VStr("if_bits_v1")) && ExtractHeader(frames[0].header).Ok? ==>
              var found := Find(Sample(data), ExtractHeader(frames[0].header).value) >= 0;
              (!found ==> r == Ok(None))
              && (found && IntOf(sel.value.ifOffset.GetOr(VInt(2))).Err? ==> r.Err?)
    ensures r.Ok? && r.value.Some? ==>
              var i := r.value.value;
              var m := sel.value.frames.GetOr([]);
              i < |frames| && frames[i].name.Some?
              && FirstNamed(frames, frames[i].name.value) == Some(i)
              && exists key :: key in SixKeys && Get(m, key) == Some(VStr(frames[i].name.value))
  {
    if sel.None? || sel.value.stype != Some(VStr("if_bits_v1")) then Ok(None)
    else
      var s := sel.value;
      var header :- ExtractHeader(frames[0].header);
      if Find(Sample(data), header) < 0 then Ok(None)
      else
        var ifOffset :- IntOf(s.ifOffset.GetOr(VInt(2)));
        var ifByte :- IfByteAt(Sample(data), header, ifOffset);
        if ifByte.None? then Ok(None)
        else
          var bits :- SelectorBits(s);
          var key :- IfKey(ifByte.value, bits);
          match Get(s.frames.GetOr([]), key)
          case Some(VStr(name)) => Ok(FirstNamed(frames, name))
          case _ => Ok(None)
  }

  /** The frame definition `cmd_align` works with, as written: a named
      frame, else the `if_bits_v1` choice, else the first frame.  A name
      that matches no frame also falls back to the first frame, so the
      "Frame not found" exit after it is never reached. */
  function ChooseFrameAsWritten(frames: seq<FrameSpec>, frameName: Option<string>, autoByIf: bool,
                                sel: Option<Selector>, data: seq<Byte>): (r: Result<nat>)
    ensures |frames| == 0 ==> r.Err?
    ensures r.Ok? ==> r.value < |frames|
  {
    if |frames| == 0 then Err("protocol.json missing frames[]")
    else if frameName.Some? then Ok(FirstNamed(frames, frameName.value).GetOr(0))
    else if autoByIf then
      var i :- SelectByIf(frames, sel, data);
      Ok(i.GetOr(0))
    else Ok(0)
  }

  /** A name that matches no frame silently selects the first frame. */
  lemma UnknownNameFallsBack(frames: seq<FrameSpec>, name: string, autoByIf: bool, sel: Option<Selector>,
                             data: seq<Byte>)
    requires |frames| > 0 && forall j :: 0 <= j < |frames| ==> frames[j].name != Some(name)
    ensures ChooseFrameAsWritten(frames, Some(name), autoByIf, sel, data) == Ok(0)
  {
  }

  /** Frame selection with the "Frame not found" exit reached for a name
      that matches no frame; otherwise as written. */
  function ChooseFrame(frames: seq<FrameSpec>, frameName: Option<string>, autoByIf: bool,
                       sel: Option<Selector>, data: seq<Byte>): (r: Result<nat>)
    ensures |frames| == 0 ==> r.Err?
    ensures r.Ok? ==> r.value < |frames|
    ensures frameName.Some? ==>
              (r.Ok? <==> |frames| > 0 && exists j :: 0 <= j < |frames| && frames[j].name == frameName)
    ensures frameName.Some? && r.Ok? ==>
              frames[r.value].name == frameName && forall j :: 0 <= j < r.value ==> frames[j].name != frameName
    ensures frameName.None? ==> r == ChooseFrameAsWritten(frames, frameName, autoByIf, sel, data)
  {
    if |frames| == 0 then Err("protocol.json missing frames[]")
    else if frameName.Some? then
      match FirstNamed(frames, frameName.value)
      case Some(i) => Ok(i)
      case None => Err("Frame not found: " + frameName.value)
    else ChooseFrameAsWritten(frames, frameName, autoByIf, sel, data)
  }
}
