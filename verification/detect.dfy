/** Protocol detection by sniffing: each candidate protocol's frames are
    cut out of a captured sample, candidates are scored by how many frames
    check out, and the best one is picked unless the runner-up is close. */
module Detect {
  import opened Wrappers
  import opened PyBytes
  import opened PyStr
  import opened Values
  import opened Spec
  import opened Headers
  import opened Checksums
  import opened Lengths
  import opened Framing
  import opened Ranking
  import opened Seqs

  function DetectLength(o: LengthObj): LengthOf {
    b => DetectTotalLength(o, b)
  }

  /** Whether `iter_frames` verifies candidates: checking is on and the
      frame's checksum object is not empty. */
  predicate Checking(f: FrameSpec, enable: bool) {
    enable && f.checksum.Some? && !f.checksum.value.IsEmpty()
  }

  /** The loop of `iter_frames` over the whole sample, with the frames it
      counts as good.  A total length of 0 or less stops it, so it always
      ends; every good frame is non-empty, agrees with the header, was cut
      at its total length and passed the checksum when one is checked. */
  function DetectRun(sample: seq<Byte>, f: FrameSpec, enable: bool): (r: Outcome)
    ensures DetectHeader(f.header).Err? || ParseLengthSpec(f).Err? ==> r.Raised?
    ensures !r.Hangs?
    ensures r.Finished? ==>
              var header := DetectHeader(f.header).value;
              var o := ParseLengthSpec(f).value;
              r.st.ok == |r.st.frames|
              && (!Checking(f, enable) ==> r.st.bad == 0)
              && forall k :: 0 <= k < |r.st.frames| ==>
                   var fr := r.st.frames[k];
                   |fr| > 0 && HeaderAgrees(header, fr)
                   && (Checking(f, enable) ==> VerifyChecksum(fr, f.checksum.value) == Ok(true))
                   && exists b :: CutFrom(header, DetectLength(o), fr, b)
  {
    match DetectHeader(f.header)
    case Err(m) => Raised(m)
    case Ok(header) =>
      match ParseLengthSpec(f)
      case Err(m) => Raised(m)
      case Ok(o) =>
        var r := Drain(header, DetectLength(o), TruthyAccept(if enable then f.checksum else None), true, Start.(buf := sample));
        DrainedFrames(header, o, f, enable, sample, r);
        r
  }

  /** What `Drain`'s contract says about a detection run, in its terms. */
  lemma DrainedFrames(header: seq<Byte>, o: LengthObj, f: FrameSpec, enable: bool, sample: seq<Byte>, r: Outcome)
    requires r == Drain(header, DetectLength(o), TruthyAccept(if enable then f.checksum else None), true, Start.(buf := sample))
    ensures !r.Hangs?
    ensures r.Finished? ==>
              r.st.ok == |r.st.frames|
              && (!Checking(f, enable) ==> r.st.bad == 0)
              && forall k :: 0 <= k < |r.st.frames| ==>
                   var fr := r.st.frames[k];
                   |fr| > 0 && HeaderAgrees(header, fr)
                   && (Checking(f, enable) ==> VerifyChecksum(fr, f.checksum.value) == Ok(true))
                   && exists b :: CutFrom(header, DetectLength(o), fr, b)
  {
    var accept := TruthyAccept(if enable then f.checksum else None);
    assert !Checking(f, enable) ==> forall fr :: accept(fr);
    if r.Finished? {
      var st := r.st;
      GrownFromStart(header, DetectLength(o), accept, true, Start.(buf := sample), st);
      forall k | 0 <= k < |st.frames|
        ensures var fr := st.frames[k];
                |fr| > 0 && HeaderAgrees(header, fr)
                && (Checking(f, enable) ==> VerifyChecksum(fr, f.checksum.value) == Ok(true))
                && exists b :: CutFrom(header, DetectLength(o), fr, b)
      {
        DetectFrame(header, o, f, enable, st.frames[k]);
      }
    }
  }

  /** One good frame of a detection run, in the run's terms. */
  lemma DetectFrame(header: seq<Byte>, o: LengthObj, f: FrameSpec, enable: bool, fr: seq<Byte>)
    requires GoodFrame(header, DetectLength(o), TruthyAccept(if enable then f.checksum else None), true, fr)
    ensures |fr| > 0 && HeaderAgrees(header, fr)
    ensures Checking(f, enable) ==> VerifyChecksum(fr, f.checksum.value) == Ok(true)
    ensures exists b :: CutFrom(header, DetectLength(o), fr, b)
  {
    var accept := TruthyAccept(if enable then f.checksum else None);
    assert accept(fr);
  }

  /** `iter_frames(sample, frame_spec, enable_checksum)`: the counts of
      the loop, or the error it raised. */
  function IterFrames(sample: seq<Byte>, f: FrameSpec, enable: bool): (r: Result<Counts>)
    ensures r.Ok? <==> !DetectRun(sample, f, enable).Raised?
    ensures r.Ok? ==> r.value.ok == |DetectRun(sample, f, enable).st.frames|
    ensures r.Ok? && !Checking(f, enable) ==> r.value.bad == 0
  {
    var d := DetectRun(sample, f, enable);
    if d.Raised? then Err(d.msg) else Ok(Counts(d.st.ok, d.st.bad, d.st.resyncs))
  }

  /** The result of `iter_frames` for each frame definition. */
  function FrameCounts(frames: seq<FrameSpec>, sample: seq<Byte>): (r: seq<Result<Counts>>)
    ensures |r| == |frames|
    ensures forall i :: 0 <= i < |frames| ==> r[i] == IterFrames(sample, frames[i], true)
  {
    Map((f: FrameSpec) => IterFrames(sample, f, true), frames)
  }

  /** `sniff_score_protocol` for a protocol's frame list: the counts of
      every frame definition, with checksums on, added up; an error in any
      of them propagates. */
  function SniffScore(frames: seq<FrameSpec>, sample: seq<Byte>): (r: Result<Counts>)
    ensures |frames| == 0 ==> r == Ok(Counts(0, 0, 0))
    ensures r.Ok? <==> forall i :: 0 <= i < |frames| ==> IterFrames(sample, frames[i], true).Ok?
  {
    SumCounts(FrameCounts(frames, sample))
  }

  /** Scores add up over the frame list. */
  lemma SniffScoreAppend(a: seq<FrameSpec>, b: seq<FrameSpec>, sample: seq<Byte>)
    requires SniffScore(a + b, sample).Ok?
    ensures SniffScore(a, sample).Ok? && SniffScore(b, sample).Ok?
    ensures SniffScore(a + b, sample).value == AddCounts(SniffScore(a, sample).value, SniffScore(b, sample).value)
  {
    MapAppend((f: FrameSpec) => IterFrames(sample, f, true), a, b);
    SumCountsAppend(FrameCounts(a, sample), FrameCounts(b, sample));
  }

  // ---------------------------------------------------------------------
  // pick_by_sniff

  /** A candidate protocol with the frame list its `protocol.json` holds. */
  datatype Candidate = Candidate(pid: string, ver: string, frames: seq<FrameSpec>)

  /** The `scored` entry of one candidate: its summed counts and score. */
  function ScoreOne(c: Candidate, sample: seq<Byte>): (r: Result<Scored>)
    ensures r.Ok? <==> SniffScore(c.frames, sample).Ok?
    ensures r.Ok? ==> var k := SniffScore(c.frames, sample).value;
                      r.value == Scored(c.pid, c.ver, k.ok, k.bad, k.resyncs, ScoreOf(k))
  {
    var k :- SniffScore(c.frames, sample);
    Ok(Scored(c.pid, c.ver, k.ok, k.bad, k.resyncs, ScoreOf(k)))
  }

  /** The `scored` list before sorting, in candidate order; the first
      candidate whose scoring raises ends it. */
  function ScoreAll(cands: seq<Candidate>, sample: seq<Byte>): (r: Result<seq<Scored>>)
    ensures r.Ok? <==> forall i :: 0 <= i < |cands| ==> ScoreOne(cands[i], sample).Ok?
    ensures r.Ok? ==> |r.value| == |cands|
    ensures r.Ok? ==> forall i :: 0 <= i < |cands| ==> r.value[i] == ScoreOne(cands[i], sample).value
  {
    MapAll((c: Candidate) => ScoreOne(c, sample), cands)
  }

  /** `pick_by_sniff(candidates, sample)`: score every candidate, then
      sort and decide; an error while scoring propagates. */
  function PickBySniff(cands: seq<Candidate>, sample: seq<Byte>): (r: Result<Pick>)
    ensures r.Ok? <==> forall i :: 0 <= i < |cands| ==> ScoreOne(cands[i], sample).Ok?
    ensures r.Ok? ==> r.value == PickTop(ScoreAll(cands, sample).value)
  {
    var all :- ScoreAll(cands, sample);
    Ok(PickTop(all))
  }

  /** The detection names the earliest candidate with the highest score. */
  lemma PickIsFirstCandidate(cands: seq<Candidate>, sample: seq<Byte>) returns (j: nat)
    requires PickBySniff(cands, sample).Ok? && PickBySniff(cands, sample).value.result.Some?
    ensures var all := ScoreAll(cands, sample).value;
            var d := PickBySniff(cands, sample).value.result.value;
            j < |cands| && d.pid == cands[j].pid && d.ver == cands[j].ver
            && (forall i :: 0 <= i < |cands| ==> all[i].score <= all[j].score)
            && (forall i :: 0 <= i < j ==> all[i].score < all[j].score)
  {
    var all := ScoreAll(cands, sample).value;
    j := PickIsFirstBest(all);
  }

  // ---------------------------------------------------------------------
  // protocol_refs_for_model

  /** One entry of `protocol_bundles`: a dict with its two keys, or
      anything else. */
  datatype Bundle = NotDict | BundleDict(pid: Option<Value>, expectedVer: Option<Value>)

  datatype BundlesJson = BundlesAbsent | BundlesList(items: seq<Bundle>) | BundlesNotList

  type Ref = (string, Option<string>)

  /** The reference one bundle contributes, if any. */
  function RefOf(b: Bundle): Option<Ref> {
    if b.BundleDict? && Truthy(b.pid) then
      Some((Str(b.pid.value), if Truthy(b.expectedVer) then Some(Str(b.expectedVer.value)) else None))
    else None
  }

  /** The references of the bundles, in order. */
  function RefsOf(items: seq<Bundle>): (r: seq<Ref>)
    ensures |r| <= |items|
  {
    FlatMapShort(RefSeq, items);
    FlatMap(RefSeq, items)
  }

  /** The references one bundle contributes, as a sequence. */
  function RefSeq(b: Bundle): (r: seq<Ref>)
    ensures |r| <= 1 && (r == [] <==> RefOf(b).None?)
  {
    if RefOf(b).Some? then [RefOf(b).value] else []
  }

  /** `protocol_refs_for_model(model_doc)`: a missing or non-list
      `protocol_bundles` gives no references. */
  function ProtocolRefsForModel(doc: BundlesJson): (r: seq<Ref>)
    ensures !doc.BundlesList? ==> r == []
    ensures doc.BundlesList? ==> |r| <= |doc.items|
  {
    if doc.BundlesList? then RefsOf(doc.items) else []
  }

  /** Bundles are handled one at a time, in order: the references of a
      concatenation are the concatenated references. */
  lemma RefsOfAppend(a: seq<Bundle>, b: seq<Bundle>)
    ensures RefsOf(a + b) == RefsOf(a) + RefsOf(b)
  {
    FlatMapAppend(RefSeq, a, b);
  }

  /** A list in which no bundle names a protocol gives no references. */
  lemma NoRefs(items: seq<Bundle>)
    requires forall i :: 0 <= i < |items| ==> RefOf(items[i]).None?
    ensures RefsOf(items) == []
  {
    FlatMapEmpty(RefSeq, items);
  }

  /** A single bundle: skipped unless it is a dict with a truthy
      `protocol_id`; the version is kept only when truthy. */
  lemma RefsOfOne(b: Bundle)
    ensures RefsOf([b]) == if b.BundleDict? && Truthy(b.pid) then
                             [(Str(b.pid.value), if Truthy(b.expectedVer) then Some(Str(b.expectedVer.value)) else None)]
                           else []
  {
    FlatMapCons(RefSeq, b, []);
    assert [b] + [] == [b];
  }
}
