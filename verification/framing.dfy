/** The buffer loop that cuts frames out of a byte stream.

    Three scripts carry the same loop: the transport session's
    `frame_stream` (chunked, with statistics), the live framer's
    `_iter_framed_bytes` (chunked, frames only) and the protocol detector's
    `iter_frames` (one buffer, counts only).  Each pass finds the header,
    drops the bytes before it, asks for the total length, and either waits
    for more bytes or cuts the frame and checks it; a frame that fails the
    check is consumed whole.

    The loop is modelled once, parameterised by the script's length reader,
    its acceptance test and whether a total length of 0 stops the pass.
    `frame_stream` and `_iter_framed_bytes` only stop on a negative length;
    with a length of 0 they cut empty frames forever.  That behaviour is
    kept in the `...AsWritten` members and shown by the lemmas at the end;
    the rest of the model uses the loop with the zero guard that
    `iter_frames` has. */
module Framing {
  import opened Wrappers
  import opened PyBytes
  import opened Spec
  import opened Headers
  import opened Lengths
  import opened Checksums

  /** A suffix of a sequence without the header has no header either. */
  lemma NotInSuffix(buf: seq<Byte>, t: seq<Byte>, header: seq<Byte>)
    requires IsSuffix(t, buf) && Find(buf, header) < 0
    ensures Find(t, header) < 0
  {
    var d := |buf| - |t|;
    if Find(t, header) >= 0 {
      var k := Find(t, header);
      assert buf[d + k..d + k + |header|] == t[k..k + |header|];
      assert OccursAt(buf, header, d + k);
      assert false;
    }
  }

  /** An empty header is found at the front of any buffer. */
  lemma EmptyHeaderFound(buf: seq<Byte>, header: seq<Byte>)
    ensures |header| == 0 ==> Find(buf, header) == 0
  {
    if |header| == 0 {
      assert OccursAt(buf, header, 0);
    }
  }

  /** The loop state: the buffer, the frames written or yielded, and the
      counters of `FramingStats`. */
  datatype Framer = Framer(buf: seq<Byte>, frames: seq<seq<Byte>>, totalBytes: nat, ok: nat, bad: nat, resyncs: nat)

  const Start := Framer([], [], 0, 0, 0, 0)

  /** One pass of the inner `while True` loop. */
  datatype StepResult = Break(st: Framer) | Next(st: Framer) | Raise(msg: string)

  /** How a loop ends: normally, with an exception, or never (the state
      is the one the loop keeps repeating). */
  datatype Outcome = Finished(st: Framer) | Raised(msg: string) | Hangs(st: Framer)

  /** A script's `total_length` for the buffer that starts with the header. */
  type LengthOf = seq<Byte> -> Result<int>

  /** Whether a cut candidate counts as a good frame. */
  type Accept = seq<Byte> -> bool

  /** A frame agrees with the header on their common length: it starts with
      the header, or is cut shorter than the header. */
  predicate HeaderAgrees(header: seq<Byte>, f: seq<Byte>) {
    IsPrefix(header, f) || IsPrefix(f, header)
  }

  /** `f` is the front of a buffer `b` that starts with the header and whose
      total length is `|f|`. */
  predicate CutFrom(header: seq<Byte>, lenOf: LengthOf, f: seq<Byte>, b: seq<Byte>) {
    IsPrefix(header, b) && IsPrefix(f, b) && lenOf(b) == Ok(|f|)
  }

  /** Everything the loops promise about one emitted frame. */
  ghost predicate GoodFrame(header: seq<Byte>, lenOf: LengthOf, accept: Accept, guardZero: bool, f: seq<Byte>) {
    accept(f) && HeaderAgrees(header, f) && (guardZero ==> |f| > 0)
    && exists b :: CutFrom(header, lenOf, f, b)
  }

  /** `del buf[:-len(header)]` when the buffer is longer than the header. */
  function TrimNoise(buf: seq<Byte>, h: nat): (r: seq<Byte>)
    ensures IsSuffix(r, buf)
    ensures h > 0 ==> |r| == if |buf| < h then |buf| else h
  {
    if |buf| > h then PySlice(buf, -(h as int), |buf|) else buf
  }

  /** Where a pass left the buffer when it stopped without an error: no
      header anywhere and at most `|header|` bytes kept, or a header at the
      front whose frame is not complete (or has an unusable length). */
  predicate Waiting(header: seq<Byte>, lenOf: LengthOf, guardZero: bool, buf: seq<Byte>) {
    (|buf| <= |header| && Find(buf, header) < 0)
    || (OccursAt(buf, header, 0) && lenOf(buf).Ok?
        && (lenOf(buf).value < 0 || |buf| < lenOf(buf).value || (guardZero && lenOf(buf).value == 0)))
  }

  function Step(header: seq<Byte>, lenOf: LengthOf, accept: Accept, guardZero: bool, s: Framer): (r: StepResult)
    // no header: the buffer is trimmed, nothing else changes
    ensures Find(s.buf, header) < 0 ==>
              r.Break? && r.st == s.(buf := r.st.buf) && IsSuffix(r.st.buf, s.buf)
              && Waiting(header, lenOf, guardZero, r.st.buf)
              && (|header| > 0 ==> |r.st.buf| == if |s.buf| < |header| then |s.buf| else |header|)
    ensures Find(s.buf, header) >= 0 ==>
              var idx := Find(s.buf, header);
              var cut := s.buf[idx..];
              OccursAt(cut, header, 0)
              && (r.Raise? <==> lenOf(cut).Err?)
              // a resync is counted exactly when bytes before the header are dropped
              && (!r.Raise? ==> r.st.resyncs == s.resyncs + (if idx > 0 then 1 else 0)
                                && r.st.totalBytes == s.totalBytes)
              && (r.Break? ==> r.st == s.(buf := cut, resyncs := r.st.resyncs)
                               && Waiting(header, lenOf, guardZero, cut))
              // a cut consumes exactly `total` bytes, good or bad
              && (r.Next? ==>
                    var total := lenOf(cut).value;
                    0 <= total <= |cut| && (guardZero ==> total > 0)
                    && r.st.buf == cut[total..]
                    && (accept(cut[..total]) ==>
                          r.st.frames == s.frames + [cut[..total]] && r.st.ok == s.ok + 1 && r.st.bad == s.bad)
                    && (!accept(cut[..total]) ==>
                          r.st.frames == s.frames && r.st.ok == s.ok && r.st.bad == s.bad + 1))
  {
    EmptyHeaderFound(s.buf, header);
    var idx := Find(s.buf, header);
    if idx < 0 then
      var kept := TrimNoise(s.buf, |header|);
      NotInSuffix(s.buf, kept, header);
      Break(s.(buf := kept))
    else
      var cut := s.buf[idx..];
      assert cut[..|header|] == s.buf[idx..idx + |header|];
      var s1 := s.(buf := cut, resyncs := s.resyncs + (if idx > 0 then 1 else 0));
      match lenOf(cut)
      case Err(m) => Raise(m)
      case Ok(total) =>
        if total < 0 || (guardZero && total == 0) || |cut| < total then Break(s1)
        else
          var f := cut[..total];
          if accept(f) then Next(s1.(buf := cut[total..], frames := s1.frames + [f], ok := s1.ok + 1))
          else Next(s1.(buf := cut[total..], bad := s1.bad + 1))
  }

  /** A cut frame satisfies `GoodFrame` when accepted. */
  lemma StepFrame(header: seq<Byte>, lenOf: LengthOf, accept: Accept, guardZero: bool, s: Framer)
    requires Step(header, lenOf, accept, guardZero, s).Next?
    requires |Step(header, lenOf, accept, guardZero, s).st.frames| > |s.frames|
    ensures var t := Step(header, lenOf, accept, guardZero, s).st;
            |t.frames| == |s.frames| + 1 && t.frames[..|s.frames|] == s.frames
            && GoodFrame(header, lenOf, accept, guardZero, t.frames[|s.frames|])
  {
    var idx := Find(s.buf, header);
    var cut := s.buf[idx..];
    var total := lenOf(cut).value;
    var f := cut[..total];
    assert CutFrom(header, lenOf, f, cut);
    if total >= |header| {
      assert f[..|header|] == cut[..|header|];
    } else {
      assert header[..|f|] == cut[..|f|];
    }
  }

  /** Frames added between two states are all good, and the counter of
      good frames follows them. */
  ghost predicate Grows(header: seq<Byte>, lenOf: LengthOf, accept: Accept, guardZero: bool, s: Framer, t: Framer) {
    |s.frames| <= |t.frames| && t.frames[..|s.frames|] == s.frames
    && t.ok - s.ok == |t.frames| - |s.frames| && t.bad >= s.bad && t.resyncs >= s.resyncs
    && (forall k :: |s.frames| <= k < |t.frames| ==> GoodFrame(header, lenOf, accept, guardZero, t.frames[k]))
  }

  lemma GrowsTrans(header: seq<Byte>, lenOf: LengthOf, accept: Accept, guardZero: bool, s: Framer, t: Framer, u: Framer)
    requires Grows(header, lenOf, accept, guardZero, s, t) && Grows(header, lenOf, accept, guardZero, t, u)
    ensures Grows(header, lenOf, accept, guardZero, s, u)
  {
    assert u.frames[..|s.frames|] == u.frames[..|t.frames|][..|s.frames|];
    forall k | |s.frames| <= k < |u.frames|
      ensures GoodFrame(header, lenOf, accept, guardZero, u.frames[k])
    {
      if k < |t.frames| {
        assert u.frames[k] == t.frames[k];
      }
    }
  }

  lemma StepGrows(header: seq<Byte>, lenOf: LengthOf, accept: Accept, guardZero: bool, s: Framer)
    requires !Step(header, lenOf, accept, guardZero, s).Raise?
    ensures Grows(header, lenOf, accept, guardZero, s, Step(header, lenOf, accept, guardZero, s).st)
  {
    var r := Step(header, lenOf, accept, guardZero, s);
    if r.Next? && |r.st.frames| > |s.frames| {
      StepFrame(header, lenOf, accept, guardZero, s);
    }
  }

  /** The inner loop: passes until one stops, raises, or makes no progress. */
  function Drain(header: seq<Byte>, lenOf: LengthOf, accept: Accept, guardZero: bool, s: Framer): (r: Outcome)
    ensures guardZero ==> !r.Hangs?
    ensures !r.Raised? ==> Grows(header, lenOf, accept, guardZero, s, r.st) && r.st.totalBytes == s.totalBytes
    ensures r.Finished? ==> Waiting(header, lenOf, guardZero, r.st.buf)
    ensures r.Hangs? ==> OccursAt(r.st.buf, header, 0) && lenOf(r.st.buf) == Ok(0)
    ensures (forall f :: accept(f)) && !r.Raised? ==> r.st.bad == s.bad
    decreases |s.buf|
  {
    match Step(header, lenOf, accept, guardZero, s)
    case Raise(m) => Raised(m)
    case Break(t) =>
      StepGrows(header, lenOf, accept, guardZero, s);
      Finished(t)
    case Next(t) =>
      StepGrows(header, lenOf, accept, guardZero, s);
      if |t.buf| < |s.buf| then
        var r := Drain(header, lenOf, accept, guardZero, t);
        if r.Raised? then r
        else
          GrowsTrans(header, lenOf, accept, guardZero, s, t, r.st);
          r
      else
        Hangs(t)
  }

  /** Total length of the chunks `stream.read` hands out before the first
      empty one. */
  function BytesRead(chunks: seq<seq<Byte>>): nat {
    if |chunks| == 0 || |chunks[0]| == 0 then 0 else |chunks[0]| + BytesRead(chunks[1..])
  }

  /** The outer loop over chunks.  `frame_stream` stops at the first empty
      chunk (end of stream); `_iter_framed_bytes` skips empty chunks. */
  function Feed(header: seq<Byte>, lenOf: LengthOf, accept: Accept, guardZero: bool, stopOnEmpty: bool,
                chunks: seq<seq<Byte>>, s: Framer): (r: Outcome)
    ensures guardZero ==> !r.Hangs?
    ensures !r.Raised? ==> Grows(header, lenOf, accept, guardZero, s, r.st)
    ensures r.Finished? && stopOnEmpty ==> r.st.totalBytes == s.totalBytes + BytesRead(chunks)
    ensures r.Finished? && |chunks| > 0 ==> Waiting(header, lenOf, guardZero, r.st.buf) || r.st == s
    ensures (forall f :: accept(f)) && !r.Raised? ==> r.st.bad == s.bad
    decreases |chunks|
  {
    if |chunks| == 0 then Finished(s)
    else if |chunks[0]| == 0 then
      if stopOnEmpty then Finished(s) else Feed(header, lenOf, accept, guardZero, stopOnEmpty, chunks[1..], s)
    else
      var s1 := s.(buf := s.buf + chunks[0], totalBytes := s.totalBytes + |chunks[0]|);
      assert Grows(header, lenOf, accept, guardZero, s, s1);
      match Drain(header, lenOf, accept, guardZero, s1)
      case Finished(t) =>
        GrowsTrans(header, lenOf, accept, guardZero, s, s1, t);
        var r := Feed(header, lenOf, accept, guardZero, stopOnEmpty, chunks[1..], t);
        if r.Raised? then r
        else
          GrowsTrans(header, lenOf, accept, guardZero, s, t, r.st);
          r
      case Raised(m) => Raised(m)
      case Hangs(t) =>
        GrowsTrans(header, lenOf, accept, guardZero, s, s1, t);
        Hangs(t)
  }

  /** Without the guard on a total length of 0, a pass either hangs or
      does exactly what the guarded pass does: the first such length it
      meets is cut into an empty frame, and the pass after that spins. */
  lemma {:induction false} DrainGuardIrrelevant(header: seq<Byte>, lenOf: LengthOf, accept: Accept, s: Framer)
    ensures var r := Drain(header, lenOf, accept, false, s);
            r.Hangs? || r == Drain(header, lenOf, accept, true, s)
    decreases |s.buf|
  {
    var idx := Find(s.buf, header);
    if idx >= 0 && lenOf(s.buf[idx..]) == Ok(0) {
      var t := Step(header, lenOf, accept, false, s).st;
      assert s.buf[idx..][0..] == s.buf[idx..];
      if |t.buf| < |s.buf| {
        assert Find(t.buf, header) == 0;
        assert t.buf[0..] == t.buf;
      }
    } else {
      match Step(header, lenOf, accept, false, s)
      case Next(t) =>
        if |t.buf| < |s.buf| {
          DrainGuardIrrelevant(header, lenOf, accept, t);
        }
      case _ =>
    }
  }

  /** The same for the whole loop over chunks. */
  lemma {:induction false} FeedGuardIrrelevant(header: seq<Byte>, lenOf: LengthOf, accept: Accept, stopOnEmpty: bool,
                                               chunks: seq<seq<Byte>>, s: Framer)
    ensures var r := Feed(header, lenOf, accept, false, stopOnEmpty, chunks, s);
            r.Hangs? || r == Feed(header, lenOf, accept, true, stopOnEmpty, chunks, s)
    decreases |chunks|
  {
    if |chunks| > 0 {
      if |chunks[0]| == 0 {
        FeedGuardIrrelevant(header, lenOf, accept, stopOnEmpty, chunks[1..], s);
      } else {
        var s1 := s.(buf := s.buf + chunks[0], totalBytes := s.totalBytes + |chunks[0]|);
        DrainGuardIrrelevant(header, lenOf, accept, s1);
        FeedStep(header, lenOf, accept, false, stopOnEmpty, chunks, s);
        FeedStep(header, lenOf, accept, true, stopOnEmpty, chunks, s);
        match Drain(header, lenOf, accept, false, s1)
        case Finished(t) => FeedGuardIrrelevant(header, lenOf, accept, stopOnEmpty, chunks[1..], t);
        case _ =>
      }
    }
  }

  /** One chunk of the outer loop: a pass over the grown buffer, then the
      rest of the chunks when the pass finishes. */
  lemma FeedStep(header: seq<Byte>, lenOf: LengthOf, accept: Accept, guardZero: bool, stopOnEmpty: bool,
                 chunks: seq<seq<Byte>>, s: Framer)
    requires |chunks| > 0 && |chunks[0]| > 0
    ensures var d := Drain(header, lenOf, accept, guardZero,
                           s.(buf := s.buf + chunks[0], totalBytes := s.totalBytes + |chunks[0]|));
            Feed(header, lenOf, accept, guardZero, stopOnEmpty, chunks, s) ==
              if d.Finished? then Feed(header, lenOf, accept, guardZero, stopOnEmpty, chunks[1..], d.st) else d
  {
  }

  // ---------------------------------------------------------------------
  // frame_stream (transport session)

  /** The transport session checks every candidate when checksums are on
      and `checksum` is an object (even an empty one, whose check raises);
      a raising check counts as a failure. */
  function TransportAccept(checksum: Option<ChecksumSpec>, enable: bool): Accept {
    f => !(enable && checksum.Some?) || VerifyChecksum(f, checksum.value) == Ok(true)
  }

  function TransportLength(ls: StrictLength): LengthOf {
    b => StrictTotalLength(ls, b)
  }

  /** `frame_stream` as written: a total length of 0 is not stopped. */
  function FrameStreamAsWritten(chunks: seq<seq<Byte>>, f: FrameSpec, enable: bool): (r: Outcome)
    ensures r.Hangs? || r == FrameStream(chunks, f, enable)
  {
    match ExtractHeader(f.header)
    case Err(m) => Raised(m)
    case Ok(header) =>
      match StrictFromFrame(f)
      case Err(m) => Raised(m)
      case Ok(ls) =>
        FeedGuardIrrelevant(header, TransportLength(ls), TransportAccept(f.checksum, enable), true, chunks, Start);
        Feed(header, TransportLength(ls), TransportAccept(f.checksum, enable), false, true, chunks, Start)
  }

  /** `frame_stream` with the pass stopping on a total length of 0, as
      `iter_frames` does.  `total_bytes` counts every byte read, every
      written frame starts with (or is a prefix of) the header, was cut at
      its total length and passed the checksum when checking is on, and
      `frames_ok` counts the written frames. */
  function FrameStream(chunks: seq<seq<Byte>>, f: FrameSpec, enable: bool): (r: Outcome)
    ensures ExtractHeader(f.header).Err? || StrictFromFrame(f).Err? ==> r.Raised?
    ensures !r.Hangs?
    ensures r.Finished? ==>
              var st := r.st;
              var header := ExtractHeader(f.header).value;
              var ls := StrictFromFrame(f).value;
              st.totalBytes == BytesRead(chunks)
              && st.ok == |st.frames|
              && (!enable || f.checksum.None? ==> st.bad == 0)
              && forall k :: 0 <= k < |st.frames| ==>
                   var fr := st.frames[k];
                   |fr| > 0 && HeaderAgrees(header, fr)
                   && (enable && f.checksum.Some? ==> VerifyChecksum(fr, f.checksum.value) == Ok(true))
                   && exists b :: CutFrom(header, TransportLength(ls), fr, b)
  {
    match ExtractHeader(f.header)
    case Err(m) => Raised(m)
    case Ok(header) =>
      match StrictFromFrame(f)
      case Err(m) => Raised(m)
      case Ok(ls) =>
        var r := Feed(header, TransportLength(ls), TransportAccept(f.checksum, enable), true, true, chunks, Start);
        FedFrames(header, ls, f, enable, chunks, r);
        r
  }

  /** What `Feed`'s contract says about a transport session, in its terms. */
  lemma FedFrames(header: seq<Byte>, ls: StrictLength, f: FrameSpec, enable: bool, chunks: seq<seq<Byte>>, r: Outcome)
    requires r == Feed(header, TransportLength(ls), TransportAccept(f.checksum, enable), true, true, chunks, Start)
    ensures !r.Hangs?
    ensures r.Finished? ==>
              var st := r.st;
              st.totalBytes == BytesRead(chunks)
              && st.ok == |st.frames|
              && (!enable || f.checksum.None? ==> st.bad == 0)
              && forall k :: 0 <= k < |st.frames| ==>
                   var fr := st.frames[k];
                   |fr| > 0 && HeaderAgrees(header, fr)
                   && (enable && f.checksum.Some? ==> VerifyChecksum(fr, f.checksum.value) == Ok(true))
                   && exists b :: CutFrom(header, TransportLength(ls), fr, b)
  {
    var accept := TransportAccept(f.checksum, enable);
    assert (!enable || f.checksum.None?) ==> forall fr :: accept(fr);
    if r.Finished? {
      var st := r.st;
      GrownFromStart(header, TransportLength(ls), accept, true, Start, st);
      forall k | 0 <= k < |st.frames|
        ensures var fr := st.frames[k];
                |fr| > 0 && HeaderAgrees(header, fr)
                && (enable && f.checksum.Some? ==> VerifyChecksum(fr, f.checksum.value) == Ok(true))
                && exists b :: CutFrom(header, TransportLength(ls), fr, b)
      {
        TransportFrame(header, ls, f, enable, st.frames[k]);
      }
    }
  }

  /** One good frame of a transport session, in the session's terms. */
  lemma TransportFrame(header: seq<Byte>, ls: StrictLength, f: FrameSpec, enable: bool, fr: seq<Byte>)
    requires GoodFrame(header, TransportLength(ls), TransportAccept(f.checksum, enable), true, fr)
    ensures |fr| > 0 && HeaderAgrees(header, fr)
    ensures enable && f.checksum.Some? ==> VerifyChecksum(fr, f.checksum.value) == Ok(true)
    ensures exists b :: CutFrom(header, TransportLength(ls), fr, b)
  {
    var accept := TransportAccept(f.checksum, enable);
    assert accept(fr);
  }

  /** Every frame a loop started without frames keeps is good, and they
      are the frames it counts as good. */
  lemma GrownFromStart(header: seq<Byte>, lenOf: LengthOf, accept: Accept, guardZero: bool, s: Framer, t: Framer)
    requires s.frames == [] && s.ok == 0 && Grows(header, lenOf, accept, guardZero, s, t)
    ensures t.ok == |t.frames|
    ensures forall k :: 0 <= k < |t.frames| ==> GoodFrame(header, lenOf, accept, guardZero, t.frames[k])
  {
  }

  // ---------------------------------------------------------------------
  // _iter_framed_bytes (live framing)

  /** The live framer and the protocol detector check only a non-empty
      checksum object; a candidate whose check fails or raises is bad. */
  function TruthyAccept(checksum: Option<ChecksumSpec>): Accept {
    f => !(checksum.Some? && !checksum.value.IsEmpty()) || VerifyChecksum(f, checksum.value) == Ok(true)
  }

  function LiveLengthOf(ls: LiveLength): LengthOf {
    b => LiveTotalLength(ls, b)
  }

  /** `_iter_framed_bytes` as written, over the chunks read so far: empty
      reads are skipped and a total length of 0 is not stopped. */
  function LiveFramesAsWritten(chunks: seq<seq<Byte>>, header: seq<Byte>, ls: LiveLength,
                               checksum: Option<ChecksumSpec>): (r: Outcome)
    ensures r.Hangs? || r == LiveFrames(chunks, header, ls, checksum)
  {
    FeedGuardIrrelevant(header, LiveLengthOf(ls), TruthyAccept(checksum), false, chunks, Start);
    Feed(header, LiveLengthOf(ls), TruthyAccept(checksum), false, false, chunks, Start)
  }

  /** `_iter_framed_bytes` with the pass stopping on a total length of 0.
      Every yielded frame is non-empty, agrees with the header, was cut at
      its total length, and passed a non-empty checksum object. */
  function LiveFrames(chunks: seq<seq<Byte>>, header: seq<Byte>, ls: LiveLength,
                      checksum: Option<ChecksumSpec>): (r: Outcome)
    ensures !r.Hangs?
    ensures r.Finished? ==>
              forall k :: 0 <= k < |r.st.frames| ==>
                var fr := r.st.frames[k];
                |fr| > 0 && HeaderAgrees(header, fr)
                && (checksum.Some? && !checksum.value.IsEmpty() ==> VerifyChecksum(fr, checksum.value) == Ok(true))
                && exists b :: CutFrom(header, LiveLengthOf(ls), fr, b)
  {
    var r := Feed(header, LiveLengthOf(ls), TruthyAccept(checksum), true, false, chunks, Start);
    LiveFed(chunks, header, ls, checksum, r);
    r
  }

  /** What `Feed`'s contract says about the live loop, in its terms. */
  lemma LiveFed(chunks: seq<seq<Byte>>, header: seq<Byte>, ls: LiveLength,
                checksum: Option<ChecksumSpec>, r: Outcome)
    requires r == Feed(header, LiveLengthOf(ls), TruthyAccept(checksum), true, false, chunks, Start)
    ensures !r.Hangs?
    ensures r.Finished? ==>
              forall k :: 0 <= k < |r.st.frames| ==>
                var fr := r.st.frames[k];
                |fr| > 0 && HeaderAgrees(header, fr)
                && (checksum.Some? && !checksum.value.IsEmpty() ==> VerifyChecksum(fr, checksum.value) == Ok(true))
                && exists b :: CutFrom(header, LiveLengthOf(ls), fr, b)
  {
    if r.Finished? {
      var st := r.st;
      GrownFromStart(header, LiveLengthOf(ls), TruthyAccept(checksum), true, Start, st);
      forall k | 0 <= k < |st.frames|
        ensures var fr := st.frames[k];
                |fr| > 0 && HeaderAgrees(header, fr)
                && (checksum.Some? && !checksum.value.IsEmpty() ==> VerifyChecksum(fr, checksum.value) == Ok(true))
                && exists b :: CutFrom(header, LiveLengthOf(ls), fr, b)
      {
        LiveFrame(header, ls, checksum, st.frames[k]);
      }
    }
  }

  /** One good frame of the live loop, in the loop's terms. */
  lemma LiveFrame(header: seq<Byte>, ls: LiveLength, checksum: Option<ChecksumSpec>, fr: seq<Byte>)
    requires GoodFrame(header, LiveLengthOf(ls), TruthyAccept(checksum), true, fr)
    ensures |fr| > 0 && HeaderAgrees(header, fr)
    ensures checksum.Some? && !checksum.value.IsEmpty() ==> VerifyChecksum(fr, checksum.value) == Ok(true)
    ensures exists b :: CutFrom(header, LiveLengthOf(ls), fr, b)
  {
    var accept := TruthyAccept(checksum);
    assert accept(fr);
  }

  /** An empty read changes nothing in the live loop. */
  lemma EmptyChunkIgnored(chunks: seq<seq<Byte>>, header: seq<Byte>, ls: LiveLength, checksum: Option<ChecksumSpec>)
    ensures LiveFrames([[]] + chunks, header, ls, checksum) == LiveFrames(chunks, header, ls, checksum)
  {
    assert ([[]] + chunks)[1..] == chunks;
  }

  // ---------------------------------------------------------------------
  // A total length of 0 without the guard

  /** `n` passes of the inner loop, as long as each cuts a frame. */
  function Passes(header: seq<Byte>, lenOf: LengthOf, accept: Accept, guardZero: bool, s: Framer, n: nat): StepResult
    decreases n
  {
    if n == 0 then Next(s)
    else
      match Step(header, lenOf, accept, guardZero, s)
      case Next(t) => Passes(header, lenOf, accept, guardZero, t, n - 1)
      case other => other
  }

  /** A buffer starting with the header whose total length is 0 is cut
      into an empty frame and left as it was, pass after pass: every pass
      counts one more frame and none ever ends the loop. */
  lemma {:induction false} ZeroLengthSpins(header: seq<Byte>, lenOf: LengthOf, accept: Accept, s: Framer, n: nat)
    requires OccursAt(s.buf, header, 0) && lenOf(s.buf) == Ok(0)
    ensures Passes(header, lenOf, accept, false, s, n).Next?
    ensures var t := Passes(header, lenOf, accept, false, s, n).st;
            t.buf == s.buf && t.ok + t.bad == s.ok + s.bad + n
    decreases n
  {
    if n > 0 {
      assert Find(s.buf, header) == 0;
      var t := Step(header, lenOf, accept, false, s).st;
      assert s.buf[0..] == s.buf;
      assert t.buf == s.buf;
      ZeroLengthSpins(header, lenOf, accept, t, n - 1);
    }
  }

  /** When the unguarded loop reports `Hangs`, it really never ends. */
  lemma HangsForever(header: seq<Byte>, lenOf: LengthOf, accept: Accept, s: Framer, n: nat)
    requires Drain(header, lenOf, accept, false, s).Hangs?
    ensures var t := Drain(header, lenOf, accept, false, s).st;
            Passes(header, lenOf, accept, false, t, n).Next? && Passes(header, lenOf, accept, false, t, n).st.buf == t.buf
  {
    var t := Drain(header, lenOf, accept, false, s).st;
    ZeroLengthSpins(header, lenOf, accept, t, n);
  }

  /** A one-byte header with a fixed length of 0. */
  const ZeroFrame := FrameSpec(None, HeaderList([TokStr(ByteToken(0xAA))]),
                               LenObject(LengthObj(Some("fixed"), Some(0), None, None, None, None)),
                               None, None, [])

  /** `ZeroFrame`'s header is the byte `AA` and its length is fixed at 0. */
  lemma ZeroFrameParts()
    ensures ExtractHeader(ZeroFrame.header) == Ok([0xAA])
    ensures StrictFromFrame(ZeroFrame) == Ok(StrictFixed(0))
  {
    HeaderRoundTrip([0xAA]);
    assert seq(1, i requires 0 <= i < 1 => TokStr(ByteToken([0xAA as Byte][i]))) == [TokStr(ByteToken(0xAA))];
  }

  /** On a buffer holding only the header `AA`, with a total length of 0,
      one pass cuts an empty frame without the guard and stops with it. */
  lemma ZeroPass(lenOf: LengthOf, accept: Accept)
    requires lenOf([0xAA]) == Ok(0)
    ensures var s1 := Start.(buf := [0xAA], totalBytes := 1);
            Step([0xAA], lenOf, accept, false, s1).Next?
            && Step([0xAA], lenOf, accept, true, s1) == Break(s1)
  {
    var s1 := Start.(buf := [0xAA], totalBytes := 1);
    assert OccursAt(s1.buf, [0xAA], 0);
    assert Find(s1.buf, [0xAA]) == 0;
    assert s1.buf[0..] == s1.buf;
  }

  /** Reading the single byte `AA` hangs `frame_stream` as written; with
      the guard it ends, keeping the byte for a later read. */
  lemma ZeroLengthExample()
    ensures FrameStreamAsWritten([[0xAA]], ZeroFrame, false).Hangs?
    ensures FrameStream([[0xAA]], ZeroFrame, false) == Finished(Framer([0xAA], [], 1, 0, 0, 0))
  {
    ZeroFrameParts();
    OneByteFeed(TransportLength(StrictFixed(0)), TransportAccept(None, false), true);
  }

  /** The same byte hangs the live loop as written, but not the guarded one. */
  lemma LiveZeroLengthExample()
    ensures LiveFramesAsWritten([[0xAA]], [0xAA], LiveFixed(0), None).Hangs?
    ensures LiveFrames([[0xAA]], [0xAA], LiveFixed(0), None) == Finished(Framer([0xAA], [], 1, 0, 0, 0))
  {
    OneByteFeed(LiveLengthOf(LiveFixed(0)), TruthyAccept(None), false);
  }

  /** Feeding the single chunk `AA` with a total length of 0: the
      unguarded loop hangs, the guarded one finishes holding the byte. */
  lemma OneByteFeed(lenOf: LengthOf, accept: Accept, stopOnEmpty: bool)
    requires lenOf([0xAA]) == Ok(0)
    ensures Feed([0xAA], lenOf, accept, false, stopOnEmpty, [[0xAA]], Start).Hangs?
    ensures Feed([0xAA], lenOf, accept, true, stopOnEmpty, [[0xAA]], Start) == Finished(Framer([0xAA], [], 1, 0, 0, 0))
  {
    ZeroPass(lenOf, accept);
    var s1 := Start.(buf := [0xAA], totalBytes := 1);
    assert Start.buf + [0xAA] == [0xAA];
    assert Drain([0xAA], lenOf, accept, false, s1).Hangs?;
    assert Drain([0xAA], lenOf, accept, true, s1) == Finished(s1);
    assert [[0xAA as Byte]][1..] == [];
    FeedStep([0xAA], lenOf, accept, false, stopOnEmpty, [[0xAA]], Start);
    FeedStep([0xAA], lenOf, accept, true, stopOnEmpty, [[0xAA]], Start);
  }
}
