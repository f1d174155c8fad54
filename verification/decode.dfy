/** Field decoding: the offline decoder's `decode_frame` and its scan over
    a capture file, and the live framer's lenient `_decode_raw_fields`.

    A field sits at `offset` (negative offsets count from the end of the
    frame) and is `length` bytes long, where the length may be computed
    from a field decoded earlier in the same frame. */
module Decode {
  import opened Wrappers
  import opened PyInt
  import opened PyBytes
  import opened PyStr
  import opened Values
  import opened Spec
  import opened Headers
  import opened Codec
  import opened Lengths
  import opened Checksums
  import opened Seqs

  /** No field has a float type (whose values are not modelled). */
  predicate NoFloatFields(fields: seq<FieldDef>) {
    forall i :: 0 <= i < |fields| ==> !IsFloatType(fields[i].ftype)
  }

  /** A length reference that applies: a non-empty name already in the record. */
  predicate RefPresent(ref: Option<string>, record: Dict) {
    ref.Some? && ref.value != "" && Has(record, ref.value)
  }

  /** The decoder's multiplier: `int(mul)`, or 1 when that raises. */
  function MulOrOne(mul: Option<Value>): int {
    match IntOf(mul.GetOr(VInt(1)))
    case Ok(m) => m
    case Err(_) => 1
  }

  /** `resolve_field_length(length_spec, record, frame_len)`: an integer as
      is; a present reference scaled by `mul` (1 when not a number) plus
      `add`; anything else 0.  A referenced value or `add` that is not a
      number raises. */
  function ResolveFieldLength(len: FieldLength, record: Dict): (r: Result<int>)
    ensures len.LenInt? ==> r == Ok(len.n)
    ensures len.LenNotInt? ==> r == Ok(0)
    ensures len.LenRef? && !RefPresent(len.ref, record) ==> r == Ok(0)
    ensures len.LenRef? && RefPresent(len.ref, record) ==>
              var base := IntOf(GetOrNone(record, len.ref.value));
              var add := IntOf(len.add.GetOr(VInt(0)));
              (r.Ok? <==> base.Ok? && add.Ok?)
              && (r.Ok? ==> r.value == base.value * MulOrOne(len.mul) + add.value)
  {
    match len
    case LenInt(n) => Ok(n)
    case LenNotInt => Ok(0)
    case LenRef(ref, mul, add) =>
      if RefPresent(ref, record) then
        var base :- IntOf(GetOrNone(record, ref.value));
        var a :- IntOf(add.GetOr(VInt(0)));
        Ok(base * MulOrOne(mul) + a)
      else Ok(0)
  }

  /** A field of `length` bytes at `offset` lies inside a frame of
      `frameLen` bytes once a negative offset is taken from the end. */
  predicate Fits(frameLen: nat, offset: int, length: int) {
    var start := ResolveIndex(offset, frameLen);
    0 <= start && start + length <= frameLen
  }

  /** The bytes of a field that fits: `frame[offset:offset + length]`.  A
      negative length passes the bounds check, and the slice then counts
      its end from the back of the frame. */
  function FieldRaw(frame: seq<Byte>, offset: int, length: int): (r: seq<Byte>)
    requires Fits(|frame|, offset, length)
    ensures var start := ResolveIndex(offset, |frame|);
            length >= 0 ==> r == frame[start..start + length]
  {
    var start := ResolveIndex(offset, |frame|);
    PySlice(frame, start, start + length)
  }

  lemma NoFloatTail(fields: seq<FieldDef>)
    requires NoFloatFields(fields) && |fields| > 0
    ensures NoFloatFields(fields[1..])
  {
    forall i | 0 <= i < |fields| - 1 ensures !IsFloatType(fields[1..][i].ftype) {
      assert fields[1..][i] == fields[i + 1];
    }
  }

  /** The outcome of `decode_frame`: its return value and the record as
      the call leaves it. */
  datatype Decoded = Decoded(ok: bool, record: Dict)

  /** No field is named `k`. */
  predicate Untouched(fields: seq<FieldDef>, k: string) {
    forall i :: 0 <= i < |fields| ==> fields[i].name != k
  }

  /** How a field's bytes become a value, given its type. */
  type Parser = (seq<Byte>, string) -> Value

  /** The decoder's `parse_value`.  Float types, whose values are not
      modelled, read as `None`; `DecodeFrame` excludes them. */
  const FieldParser: Parser :=
    (raw: seq<Byte>, t: string) => if IsFloatType(t) then VNone else ParseValue(raw, t)

  /** The loop of `decode_frame` with field values read by `parse`:
      fields in declaration order, each stored under its name; the first
      field that does not fit stops decoding with `False`, keeping what was
      stored so far. */
  function DecodeWith(frame: seq<Byte>, fields: seq<FieldDef>, record: Dict, parse: Parser): (r: Result<Decoded>)
    ensures |fields| == 0 ==> r == Ok(Decoded(true, record))
    ensures r.Ok? && !r.value.ok ==> |fields| > 0
    decreases |fields|
  {
    if |fields| == 0 then Ok(Decoded(true, record))
    else
      var fd := fields[0];
      var length :- ResolveFieldLength(fd.length, record);
      if !Fits(|frame|, fd.offset, length) then Ok(Decoded(false, record))
      else DecodeWith(frame, fields[1..], Set(record, fd.name, parse(FieldRaw(frame, fd.offset, length), fd.ftype)), parse)
  }

  /** `decode_frame(frame, frame_spec, record)`: keys are only added, a
      key no field names keeps its value, and a `True` return means every
      field is in the record. */
  function DecodeFrame(frame: seq<Byte>, fields: seq<FieldDef>, record: Dict): (r: Result<Decoded>)
    requires NoFloatFields(fields)
    ensures r.Ok? ==> forall k :: Has(record, k) ==> Has(r.value.record, k)
    ensures r.Ok? ==> forall k :: Untouched(fields, k) ==> Get(r.value.record, k) == Get(record, k)
    ensures r.Ok? && r.value.ok ==> forall i :: 0 <= i < |fields| ==> Has(r.value.record, fields[i].name)
  {
    DecodeFrameAdds(frame, fields, record, FieldParser);
    DecodeFrameLeaves(frame, fields, record, FieldParser);
    DecodeFrameFills(frame, fields, record, FieldParser);
    DecodeWith(frame, fields, record, FieldParser)
  }

  /** What the first field does to the record: the value of its bytes
      stored under its name, nothing else changed, and the remaining
      fields decoded on the result. */
  lemma DecodeFirstField(frame: seq<Byte>, fields: seq<FieldDef>, record: Dict, parse: Parser)
    requires |fields| > 0
    requires ResolveFieldLength(fields[0].length, record).Ok?
    requires Fits(|frame|, fields[0].offset, ResolveFieldLength(fields[0].length, record).value)
    ensures var fd := fields[0];
            var length := ResolveFieldLength(fd.length, record).value;
            var value := parse(FieldRaw(frame, fd.offset, length), fd.ftype);
            var next := Set(record, fd.name, value);
            Get(next, fd.name) == Some(value)
            && (forall k :: k != fd.name ==> Get(next, k) == Get(record, k))
            && DecodeWith(frame, fields, record, parse) == DecodeWith(frame, fields[1..], next, parse)
  {
    var fd := fields[0];
    var length := ResolveFieldLength(fd.length, record).value;
    var next := Set(record, fd.name, parse(FieldRaw(frame, fd.offset, length), fd.ftype));
    assert DecodeWith(frame, fields, record, parse) == DecodeWith(frame, fields[1..], next, parse);
  }

  /** `decode_frame` only adds keys to the record. */
  lemma {:induction false} DecodeFrameAdds(frame: seq<Byte>, fields: seq<FieldDef>, record: Dict, parse: Parser)
    ensures var r := DecodeWith(frame, fields, record, parse);
            r.Ok? ==> forall k :: Has(record, k) ==> Has(r.value.record, k)
    decreases |fields|
  {
    if |fields| > 0 {
      var fd := fields[0];
      var len := ResolveFieldLength(fd.length, record);
      if len.Ok? && Fits(|frame|, fd.offset, len.value) {
        var value := parse(FieldRaw(frame, fd.offset, len.value), fd.ftype);
        DecodeFirstField(frame, fields, record, parse);
        SetKeys(record, fd.name, value);
        DecodeFrameAdds(frame, fields[1..], Set(record, fd.name, value), parse);
      }
    }
  }

  /** `decode_frame` leaves every key no field is named after as it was. */
  lemma {:induction false} DecodeFrameLeaves(frame: seq<Byte>, fields: seq<FieldDef>, record: Dict, parse: Parser)
    ensures var r := DecodeWith(frame, fields, record, parse);
            r.Ok? ==> forall k :: Untouched(fields, k) ==> Get(r.value.record, k) == Get(record, k)
    decreases |fields|
  {
    if |fields| > 0 {
      var fd := fields[0];
      var len := ResolveFieldLength(fd.length, record);
      if len.Ok? && Fits(|frame|, fd.offset, len.value) {
        var value := parse(FieldRaw(frame, fd.offset, len.value), fd.ftype);
        DecodeFirstField(frame, fields, record, parse);
        DecodeFrameLeaves(frame, fields[1..], Set(record, fd.name, value), parse);
        forall k | Untouched(fields, k) ensures Untouched(fields[1..], k) && k != fd.name {
          assert fields[0].name != k;
          forall i | 0 <= i < |fields| - 1 ensures fields[1..][i].name != k {
            assert fields[1..][i] == fields[i + 1];
          }
        }
      }
    }
  }

  /** When `decode_frame` returns `True`, every field is in the record. */
  lemma {:induction false} DecodeFrameFills(frame: seq<Byte>, fields: seq<FieldDef>, record: Dict, parse: Parser)
    ensures var r := DecodeWith(frame, fields, record, parse);
            r.Ok? && r.value.ok ==> forall i :: 0 <= i < |fields| ==> Has(r.value.record, fields[i].name)
    decreases |fields|
  {
    if |fields| > 0 {
      var fd := fields[0];
      var len := ResolveFieldLength(fd.length, record);
      if len.Ok? && Fits(|frame|, fd.offset, len.value) {
        var value := parse(FieldRaw(frame, fd.offset, len.value), fd.ftype);
        var next := Set(record, fd.name, value);
        DecodeFirstField(frame, fields, record, parse);
        DecodeFrameFills(frame, fields[1..], next, parse);
        DecodeFrameAdds(frame, fields[1..], next, parse);
        assert Has(next, fd.name);
        assert forall i :: 1 <= i < |fields| ==> fields[i] == fields[1..][i - 1];
      }
    }
  }

  /** `decode_frame` returns `False` only at a field that does not fit, and
      the record then holds exactly what the fields before it stored. */
  lemma {:induction false} DecodeFrameStopsAtFirstMisfit(frame: seq<Byte>, fields: seq<FieldDef>, record: Dict, parse: Parser)
    returns (j: nat)
    requires DecodeWith(frame, fields, record, parse).Ok? && !DecodeWith(frame, fields, record, parse).value.ok
    ensures j < |fields|
    ensures var out := DecodeWith(frame, fields, record, parse).value.record;
            DecodeWith(frame, fields[..j], record, parse) == Ok(Decoded(true, out))
            && ResolveFieldLength(fields[j].length, out).Ok?
            && !Fits(|frame|, fields[j].offset, ResolveFieldLength(fields[j].length, out).value)
    decreases |fields|
  {
    var fd := fields[0];
    var length := ResolveFieldLength(fd.length, record).value;
    if !Fits(|frame|, fd.offset, length) {
      j := 0;
      assert fields[..0] == [];
    } else {
      var next := Set(record, fd.name, parse(FieldRaw(frame, fd.offset, length), fd.ftype));
      DecodeFirstField(frame, fields, record, parse);
      var k := DecodeFrameStopsAtFirstMisfit(frame, fields[1..], next, parse);
      j := k + 1;
      assert fields[1..][k] == fields[j];
      PrefixTail(fields, j);
      DecodeFirstField(frame, fields[..j], record, parse);
    }
  }

  /** Decoding a concatenation of field lists is decoding the first list
      and, when it succeeds, the second on the record it left. */
  lemma {:induction false} DecodeFrameAppend(frame: seq<Byte>, a: seq<FieldDef>, b: seq<FieldDef>, record: Dict, parse: Parser)
    ensures DecodeWith(frame, a + b, record, parse) ==
              match DecodeWith(frame, a, record, parse)
              case Err(m) => Err(m)
              case Ok(d) => if d.ok then DecodeWith(frame, b, d.record, parse) else Ok(d)
    decreases |a|
  {
    if |a| == 0 {
      assert a + b == b;
    } else {
      var fd := a[0];
      assert (a + b)[0] == fd && (a + b)[1..] == a[1..] + b;
      match ResolveFieldLength(fd.length, record)
      case Err(_) =>
      case Ok(length) =>
        if Fits(|frame|, fd.offset, length) {
          var next := Set(record, fd.name, parse(FieldRaw(frame, fd.offset, length), fd.ftype));
          DecodeFrameAppend(frame, a[1..], b, next, parse);
        }
    }
  }

  // ---------------------------------------------------------------------
  // The scan of decode_frames_file

  /** One move of the scan from `pos`: stop, skip one byte past a header
      whose length is unusable, or cut the frame that starts there. */
  datatype Move = Stop | Skip(next: nat) | Cut(start: nat, next: nat)

  function ScanStep(data: seq<Byte>, header: seq<Byte>, f: FrameSpec, pos: nat): (r: Result<Move>)
    requires NoFloatLength(f)
    requires pos < |data|
    ensures FindFrom(data, header, pos) < 0 ==> r == Ok(Stop)
    ensures r.Ok? && r.value.Skip? ==> r.value.next == FindFrom(data, header, pos) + 1 > pos
    ensures r.Ok? && r.value.Cut? ==>
              r.value.start == FindFrom(data, header, pos) && pos <= r.value.start < r.value.next <= |data|
              && OccursAt(data, header, r.value.start)
              && DecoderFrameLength(f, data[r.value.start..]) == Ok(r.value.next - r.value.start)
  {
    var idx := FindFrom(data, header, pos);
    if idx < 0 then Ok(Stop) else MoveAt(idx, DecoderFrameLength(f, data[idx..]), |data|)
  }

  /** The move at a header found at `idx`, given the frame length computed
      there, in data of `n` bytes. */
  function MoveAt(idx: nat, len: Result<int>, n: nat): (r: Result<Move>)
    ensures r.Err? <==> len.Err?
    ensures r.Ok? ==> !r.value.Stop?
    ensures r.Ok? && r.value.Skip? ==> r.value.next == idx + 1
    ensures r.Ok? && r.value.Cut? ==> r.value.start == idx < r.value.next <= n && len == Ok(r.value.next - idx)
  {
    if len.Err? then Err(len.msg)
    else if len.value <= 0 || idx + len.value > n then Ok(Skip(idx + 1))
    else Ok(Cut(idx, idx + len.value))
  }

  /** The slice `data[start:next]` of one counted candidate. */
  datatype Span = Span(start: nat, next: nat)

  /** `DecodeStats` without the field names, the records kept so far with
      the `_frame_idx` each was numbered with, and the slices of the
      candidates counted (which the source does not return). */
  datatype Scan = Scan(records: seq<Dict>, indices: seq<nat>, spans: seq<Span>, total: nat, ok: nat, errors: nat)

  /** Nothing read yet. */
  const NoScan := Scan([], [], [], 0, 0, 0)

  /** The record a candidate frame starts from. */
  function Fresh(addIndex: bool, addTimestamp: bool, frameIdx: nat): (r: Dict)
    ensures addIndex ==> Get(r, "_frame_idx") == Some(VInt(frameIdx))
    ensures addTimestamp ==> Get(r, "_timestamp") == Some(VNone)
    ensures forall k :: k != "_frame_idx" && k != "_timestamp" ==> !Has(r, k)
  {
    var r0: Dict := if addTimestamp then Set([], "_timestamp", VNone) else [];
    if addIndex then Set(r0, "_frame_idx", VInt(frameIdx)) else r0
  }

  /** The counters agree: every candidate is either kept or counted as an
      error, and kept records carry increasing frame numbers below the
      candidate count. */
  predicate ScanOk(s: Scan) {
    s.total == s.ok + s.errors && |s.records| == s.ok && |s.indices| == s.ok && |s.spans| == s.total
    && (forall k :: 0 <= k < |s.indices| ==> s.indices[k] < s.total)
    && (forall k, l :: 0 <= k < l < |s.indices| ==> s.indices[k] < s.indices[l])
  }

  /** Kept records hold their frame number under `_frame_idx`, when it is
      added and no field overwrites it. */
  predicate Numbered(s: Scan, addIndex: bool, fields: seq<FieldDef>) {
    |s.indices| == |s.records|
    && (addIndex && Untouched(fields, "_frame_idx") ==>
          forall k :: 0 <= k < |s.records| ==> Get(s.records[k], "_frame_idx") == Some(VInt(s.indices[k])))
  }

  /** Kept records hold every field, since a record is kept only when
      `decode_frame` returned `True`. */
  predicate Filled(s: Scan, fields: seq<FieldDef>) {
    forall k, i :: 0 <= k < |s.records| && 0 <= i < |fields| ==> Has(s.records[k], fields[i].name)
  }

  /** The three facts about the counters and records. */
  predicate ScanInv(s: Scan, addIndex: bool, fields: seq<FieldDef>) {
    ScanOk(s) && Numbered(s, addIndex, fields) && Filled(s, fields)
  }

  /** Counting candidate `c`: kept with its number when decoded, an error
      otherwise. */
  function Account(s: Scan, d: Decoded, c: Span): (r: Scan)
    ensures ScanOk(s) ==> ScanOk(r)
    ensures r.total == s.total + 1 && r.spans == s.spans + [c]
    ensures d.ok ==> r.records == s.records + [d.record] && r.indices == s.indices + [s.total]
    ensures !d.ok ==> r.records == s.records && r.indices == s.indices && r.errors == s.errors + 1
  {
    if d.ok then Scan(s.records + [d.record], s.indices + [s.total], s.spans + [c], s.total + 1, s.ok + 1, s.errors)
    else s.(spans := s.spans + [c], total := s.total + 1, errors := s.errors + 1)
  }

  /** The loop of `decode_frames_file` from `pos` with `s` counted so far,
      where `dec` decodes a numbered candidate: the reference the method's
      loop is proved to follow. */
  function Walk(data: seq<Byte>, header: seq<Byte>, f: FrameSpec, dec: (nat, Span) -> Result<Decoded>,
                pos: nat, s: Scan): Result<Scan>
    requires NoFloatLength(f)
    decreases |data| - pos
  {
    if pos >= |data| then Ok(s)
    else
      var m :- ScanStep(data, header, f, pos);
      match m
      case Stop => Ok(s)
      case Skip(next) => Walk(data, header, f, dec, next, s)
      case Cut(start, next) =>
        var d :- dec(s.total, Span(start, next));
        Walk(data, header, f, dec, next, Account(s, d, Span(start, next)))
  }

  /** What `decode_frame` makes of the candidate numbered `i` and cut at
      `c` from `data`, starting from a fresh record. */
  function Decoder(data: seq<Byte>, fields: seq<FieldDef>, addIndex: bool, addTimestamp: bool): (nat, Span) -> Result<Decoded> {
    (i: nat, c: Span) =>
      if NoFloatFields(fields) && c.start <= c.next <= |data|
      then DecodeFrame(data[c.start..c.next], fields, Fresh(addIndex, addTimestamp, i))
      else Err("slice outside the data")
  }

  /** The counted candidates each decoded without raising; a candidate is
      kept exactly when `decode_frame` returned `True`, and the kept record
      is the one it filled. */
  predicate Explains(dec: (nat, Span) -> Result<Decoded>, s: Scan) {
    (forall i :: 0 <= i < |s.spans| ==>
       dec(i, s.spans[i]).Ok? && (dec(i, s.spans[i]).value.ok <==> i in s.indices))
    && (forall k :: 0 <= k < |s.indices| && k < |s.records| && s.indices[k] < |s.spans| ==>
          dec(s.indices[k], s.spans[s.indices[k]]) == Ok(Decoded(true, s.records[k])))
  }

  /** `get_frame_length(frame_spec, ·)` of the decoder as a function of
      the bytes from a header on. */
  function FrameLength(f: FrameSpec): seq<Byte> -> Result<int> {
    (d: seq<Byte>) => if NoFloatLength(f) then DecoderFrameLength(f, d) else Err("float length field")
  }

  /** Each slice starts at an occurrence of the header and is as long as
      `lenOf` says; the slices follow each other without overlapping. */
  predicate Located(data: seq<Byte>, header: seq<Byte>, lenOf: seq<Byte> -> Result<int>, spans: seq<Span>) {
    (forall i :: 0 <= i < |spans| ==>
       spans[i].start < spans[i].next <= |data| && OccursAt(data, header, spans[i].start)
       && lenOf(data[spans[i].start..]) == Ok(spans[i].next - spans[i].start))
    && (forall i, j :: 0 <= i < j < |spans| ==> spans[i].next <= spans[j].start)
  }

  /** No slice reaches past `pos`. */
  predicate Before(spans: seq<Span>, pos: nat) {
    forall i :: 0 <= i < |spans| ==> spans[i].next <= pos
  }

  /** Counting candidate `c` with the outcome of decoding it keeps every
      earlier outcome and adds this one. */
  lemma AccountExplains(dec: (nat, Span) -> Result<Decoded>, s: Scan, c: Span, d: Decoded)
    requires ScanOk(s) && Explains(dec, s)
    requires dec(s.total, c) == Ok(d)
    ensures Explains(dec, Account(s, d, c))
  {
    var r := Account(s, d, c);
    forall i | 0 <= i < |r.spans|
      ensures dec(i, r.spans[i]).Ok? && (dec(i, r.spans[i]).value.ok <==> i in r.indices)
    {
      if i < |s.spans| {
        assert r.spans[i] == s.spans[i];
        assert i in r.indices <==> i in s.indices;
      } else {
        assert r.spans[i] == c;
        assert s.total !in s.indices;
      }
    }
    forall k | 0 <= k < |r.indices| && k < |r.records| && r.indices[k] < |r.spans|
      ensures dec(r.indices[k], r.spans[r.indices[k]]) == Ok(Decoded(true, r.records[k]))
    {
      if k < |s.indices| {
        var i := s.indices[k];
        assert r.indices[k] == i && r.records[k] == s.records[k] && r.spans[i] == s.spans[i];
      } else {
        assert r.indices[k] == s.total && r.records[k] == d.record && r.spans[s.total] == c;
      }
    }
  }

  /** A cut found at or after every earlier slice extends the located
      slices. */
  lemma AccountLocated(data: seq<Byte>, header: seq<Byte>, lenOf: seq<Byte> -> Result<int>, spans: seq<Span>, c: Span)
    requires Located(data, header, lenOf, spans) && Before(spans, c.start)
    requires c.start < c.next <= |data| && OccursAt(data, header, c.start)
    requires lenOf(data[c.start..]) == Ok(c.next - c.start)
    ensures Located(data, header, lenOf, spans + [c]) && Before(spans + [c], c.next)
  {
    var r := spans + [c];
    assert forall i :: 0 <= i < |spans| ==> r[i] == spans[i];
    assert r[|spans|] == c;
  }

  /** The walk keeps the counters, the outcomes and the slices right. */
  lemma {:induction false} WalkKeeps(data: seq<Byte>, header: seq<Byte>, f: FrameSpec,
                                     dec: (nat, Span) -> Result<Decoded>, pos: nat, s: Scan)
    requires NoFloatLength(f)
    requires ScanOk(s) && Explains(dec, s) && Located(data, header, FrameLength(f), s.spans) && Before(s.spans, pos)
    ensures var r := Walk(data, header, f, dec, pos, s);
            r.Ok? ==> ScanOk(r.value) && Explains(dec, r.value) && Located(data, header, FrameLength(f), r.value.spans)
    decreases |data| - pos
  {
    if pos < |data| {
      var m := ScanStep(data, header, f, pos);
      if m.Ok? {
        match m.value
        case Stop =>
        case Skip(next) =>
          WalkKeeps(data, header, f, dec, next, s);
        case Cut(start, next) =>
          var c := Span(start, next);
          var dr := dec(s.total, c);
          if dr.Ok? {
            AccountExplains(dec, s, c, dr.value);
            assert FrameLength(f)(data[start..]) == DecoderFrameLength(f, data[start..]);
            AccountLocated(data, header, FrameLength(f), s.spans, c);
            WalkKeeps(data, header, f, dec, next, Account(s, dr.value, c));
          }
      }
    }
  }

  /** The walk from the start of the data, where nothing is counted yet. */
  lemma WalkFromStart(data: seq<Byte>, header: seq<Byte>, f: FrameSpec, dec: (nat, Span) -> Result<Decoded>, s: Scan)
    requires NoFloatLength(f) && s.spans == [] && s.indices == [] && s.records == [] && s.total == 0 && s.ok == 0 && s.errors == 0
    ensures var r := Walk(data, header, f, dec, 0, s);
            r.Ok? ==> ScanOk(r.value) && Explains(dec, r.value) && Located(data, header, FrameLength(f), r.value.spans)
  {
    WalkKeeps(data, header, f, dec, 0, s);
  }

  /** Kept records decoded from a fresh record carry their number and
      every field. */
  lemma KeptFilled(data: seq<Byte>, fields: seq<FieldDef>, addIndex: bool, addTimestamp: bool, s: Scan)
    requires NoFloatFields(fields) && ScanOk(s) && Explains(Decoder(data, fields, addIndex, addTimestamp), s)
    ensures ScanInv(s, addIndex, fields)
  {
    var dec := Decoder(data, fields, addIndex, addTimestamp);
    forall k | 0 <= k < |s.records|
      ensures (addIndex && Untouched(fields, "_frame_idx") ==> Get(s.records[k], "_frame_idx") == Some(VInt(s.indices[k])))
      ensures forall i :: 0 <= i < |fields| ==> Has(s.records[k], fields[i].name)
    {
      var i := s.indices[k];
      var c := s.spans[i];
      assert dec(i, c) == Ok(Decoded(true, s.records[k]));
      assert c.start <= c.next <= |data|;
      assert DecodeFrame(data[c.start..c.next], fields, Fresh(addIndex, addTimestamp, i)) == Ok(Decoded(true, s.records[k]));
      DecodeFrameLeaves(data[c.start..c.next], fields, Fresh(addIndex, addTimestamp, i), FieldParser);
      DecodeFrameFills(data[c.start..c.next], fields, Fresh(addIndex, addTimestamp, i), FieldParser);
    }
  }

  /** `decode_frames_file` on the bytes `data` read from the file, with
      the decoder's lenient header: the scan follows `Walk` from the start
      of the data, so every counted candidate is a header-led slice of
      `get_frame_length` bytes after the previous one, it is kept exactly
      when `decode_frame` returns `True` on it, and an error while
      resolving a length or decoding a field propagates. */
  method DecodeFramesFile(data: seq<Byte>, f: FrameSpec, addIndex: bool, addTimestamp: bool)
    returns (r: Result<Scan>)
    requires NoFloatLength(f) && NoFloatFields(f.fields)
    ensures LenientHeader(f.header).Err? ==> r == Err(LenientHeader(f.header).msg)
    ensures LenientHeader(f.header).Ok? ==>
              r == Walk(data, LenientHeader(f.header).value, f, Decoder(data, f.fields, addIndex, addTimestamp), 0, NoScan)
    ensures r.Ok? ==> ScanInv(r.value, addIndex, f.fields) && Explains(Decoder(data, f.fields, addIndex, addTimestamp), r.value)
                      && Located(data, LenientHeader(f.header).value, FrameLength(f), r.value.spans)
  {
    var hdr := LenientHeader(f.header);
    if hdr.Err? {
      return Err(hdr.msg);
    }
    var header := hdr.value;
    var dec := Decoder(data, f.fields, addIndex, addTimestamp);
    var s0 := NoScan;
    var s := s0;
    var pos := 0;
    while pos < |data|
      invariant Walk(data, header, f, dec, pos, s) == Walk(data, header, f, dec, 0, s0)
      decreases |data| - pos
    {
      var m := ScanStep(data, header, f, pos);
      if m.Err? {
        return Err(m.msg);
      }
      match m.value
      case Stop =>
        break;
      case Skip(next) =>
        pos := next;
      case Cut(start, next) =>
        var d := DecodeFrame(data[start..next], f.fields, Fresh(addIndex, addTimestamp, s.total));
        assert dec(s.total, Span(start, next)) == d;
        if d.Err? {
          return Err(d.msg);
        }
        s := Account(s, d.value, Span(start, next));
        pos := next;
    }
    WalkFromStart(data, header, f, dec, s0);
    KeptFilled(data, f.fields, addIndex, addTimestamp, s);
    return Ok(s);
  }

  // ---------------------------------------------------------------------
  // _decode_raw_fields (live)

  /** The live decoder's `parse_value`: the unsigned integer types, and the
      hex text of the bytes for every other type. */
  function LiveParseValue(data: seq<Byte>, t: string): (r: Value)
    ensures IsUintType(t) ==> r == ParseValue(data, t)
    ensures !IsUintType(t) ==> r == VStr(ToHex(data))
  {
    if IsUintType(t) then
      var w := UintWidth(t);
      if |data| < w then VNone
      else
        var u := Unsigned(data[..w], IsBigEndian(t));
        DivUnique(u, Pow256(w), 0, u);
        VInt(u)
    else VStr(ToHex(data))
  }

  /** The live decoder's `resolve_len`: `mul` and `add` are converted with
      `int()` first (raising when they are not numbers), then a present
      reference scales; anything else is 0. */
  function LiveResolveLength(len: FieldLength, record: Dict): (r: Result<int>)
    ensures len.LenInt? ==> r == Ok(len.n)
    ensures len.LenNotInt? ==> r == Ok(0)
    ensures len.LenRef? ==>
              var mul := IntOf(len.mul.GetOr(VInt(1)));
              var add := IntOf(len.add.GetOr(VInt(0)));
              (mul.Err? || add.Err? ==> r.Err?)
              && (mul.Ok? && add.Ok? && !RefPresent(len.ref, record) ==> r == Ok(0))
  {
    match len
    case LenInt(n) => Ok(n)
    case LenNotInt => Ok(0)
    case LenRef(ref, mul, add) =>
      var m :- IntOf(mul.GetOr(VInt(1)));
      var a :- IntOf(add.GetOr(VInt(0)));
      if RefPresent(ref, record) then
        var base :- IntOf(GetOrNone(record, ref.value));
        Ok(base * m + a)
      else Ok(0)
  }

  /** The loop of `_decode_raw_fields`: a field that does not fit is
      skipped and the fields after it are still decoded. */
  function LiveDecodeFrom(frame: seq<Byte>, fields: seq<FieldDef>, record: Dict): (r: Result<Dict>)
    ensures r.Ok? ==> forall k :: Has(record, k) ==> Has(r.value, k)
    ensures r.Ok? ==> forall k :: Untouched(fields, k) ==> Get(r.value, k) == Get(record, k)
    decreases |fields|
  {
    if |fields| == 0 then Ok(record)
    else
      var fd := fields[0];
      var length :- LiveResolveLength(fd.length, record);
      assert forall i :: 1 <= i < |fields| ==> fields[i] == fields[1..][i - 1];
      if !Fits(|frame|, fd.offset, length) then LiveDecodeFrom(frame, fields[1..], record)
      else
        var value := LiveParseValue(FieldRaw(frame, fd.offset, length), fd.ftype);
        SetKeys(record, fd.name, value);
        LiveDecodeFrom(frame, fields[1..], Set(record, fd.name, value))
  }

  /** `_decode_raw_fields(frame, frame_spec)` */
  function DecodeRawFields(frame: seq<Byte>, fields: seq<FieldDef>): (r: Result<Dict>)
    ensures r.Ok? ==> forall k :: Untouched(fields, k) ==> !Has(r.value, k)
  {
    LiveDecodeFrom(frame, fields, [])
  }

  /** A field that does not fit leaves the live record as it was, where
      the offline decoder stops with `False`. */
  lemma LiveSkipsMisfit(frame: seq<Byte>, fields: seq<FieldDef>, record: Dict)
    requires |fields| > 0 && NoFloatFields(fields)
    requires LiveResolveLength(fields[0].length, record).Ok?
    requires ResolveFieldLength(fields[0].length, record) == LiveResolveLength(fields[0].length, record)
    requires !Fits(|frame|, fields[0].offset, LiveResolveLength(fields[0].length, record).value)
    ensures LiveDecodeFrom(frame, fields, record) == LiveDecodeFrom(frame, fields[1..], record)
    ensures DecodeFrame(frame, fields, record) == Ok(Decoded(false, record))
  {
  }

  /** Field types on which both decoders produce the same value: the
      unsigned integers, and the types neither reads as a number. */
  predicate SharedType(t: string) {
    IsUintType(t) || (IntTypeOf(t).None? && !IsFloatType(t))
  }

  /** Both decoders compute the same length when `mul` and `add` are
      numbers or absent. */
  predicate PlainLength(len: FieldLength) {
    len.LenRef? ==> IntOf(len.mul.GetOr(VInt(1))).Ok? && IntOf(len.add.GetOr(VInt(0))).Ok?
  }

  lemma LengthsAgree(len: FieldLength, record: Dict)
    requires PlainLength(len)
    ensures ResolveFieldLength(len, record) == LiveResolveLength(len, record)
  {
  }

  lemma ValuesAgree(raw: seq<Byte>, t: string)
    requires SharedType(t)
    ensures LiveParseValue(raw, t) == ParseValue(raw, t)
  {
  }

  /** On frames where every field fits, the live decoder stores what the
      offline decoder stores. */
  lemma {:induction false} LiveAgreesWithDecodeFrame(frame: seq<Byte>, fields: seq<FieldDef>, record: Dict)
    requires NoFloatFields(fields)
    requires forall i :: 0 <= i < |fields| ==> SharedType(fields[i].ftype) && PlainLength(fields[i].length)
    requires DecodeFrame(frame, fields, record).Ok? && DecodeFrame(frame, fields, record).value.ok
    ensures LiveDecodeFrom(frame, fields, record) == Ok(DecodeFrame(frame, fields, record).value.record)
    decreases |fields|
  {
    if |fields| > 0 {
      var fd := fields[0];
      LengthsAgree(fd.length, record);
      var length := ResolveFieldLength(fd.length, record).value;
      assert Fits(|frame|, fd.offset, length);
      var raw := FieldRaw(frame, fd.offset, length);
      ValuesAgree(raw, fd.ftype);
      assert FieldParser(raw, fd.ftype) == ParseValue(raw, fd.ftype);
      var next := Set(record, fd.name, ParseValue(raw, fd.ftype));
      DecodeFirstField(frame, fields, record, FieldParser);
      NoFloatTail(fields);
      assert LiveDecodeFrom(frame, fields, record) == LiveDecodeFrom(frame, fields[1..], next);
      var rest := fields[1..];
      assert forall i :: 0 <= i < |rest| ==> rest[i] == fields[i + 1];
      LiveAgreesWithDecodeFrame(frame, rest, next);
    }
  }
}
