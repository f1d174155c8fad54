/** The integer side of protocol scoring: adding up frame counts,
    scoring, the stable descending sort of the `scored` list and the choice
    of the best entry with its ambiguity flag. */
module Ranking {
  import opened Wrappers

  /** `(frames_ok, frames_bad_checksum, resyncs)` */
  datatype Counts = Counts(ok: nat, bad: nat, resyncs: nat)

  function AddCounts(a: Counts, b: Counts): Counts {
    Counts(a.ok + b.ok, a.bad + b.bad, a.resyncs + b.resyncs)
  }

  /** The counts of several frame definitions added up in order; the
      first error propagates. */
  function SumCounts(rs: seq<Result<Counts>>): (r: Result<Counts>)
    ensures |rs| == 0 ==> r == Ok(Counts(0, 0, 0))
    ensures r.Ok? <==> forall i :: 0 <= i < |rs| ==> rs[i].Ok?
  {
    if |rs| == 0 then Ok(Counts(0, 0, 0))
    else
      var c :- rs[0];
      var rest := SumCounts(rs[1..]);
      assert forall i :: 1 <= i < |rs| ==> rs[1..][i - 1] == rs[i];
      if rest.Err? then rest else Ok(AddCounts(c, rest.value))
  }

  /** Counts add up over a concatenation. */
  lemma {:induction false} SumCountsAppend(a: seq<Result<Counts>>, b: seq<Result<Counts>>)
    requires SumCounts(a + b).Ok?
    ensures SumCounts(a).Ok? && SumCounts(b).Ok?
    ensures SumCounts(a + b).value == AddCounts(SumCounts(a).value, SumCounts(b).value)
  {
    if |a| == 0 {
      assert a + b == b;
    } else {
      var ab := a + b;
      assert ab[1..] == a[1..] + b;
      assert ab[0] == a[0];
      SumCountsAppend(a[1..], b);
    }
  }

  /** One entry of the `scored` list. */
  datatype Scored = Scored(pid: string, ver: string, ok: nat, bad: nat, resyncs: nat, score: int)

  function ScoreOf(c: Counts): int {
    c.ok * 100 - c.bad * 50 - c.resyncs
  }

  predicate SortedDesc(s: seq<Scored>) {
    forall i, j :: 0 <= i < j < |s| ==> s[i].score >= s[j].score
  }

  /** The entries with score `v`, in order. */
  function WithScore(s: seq<Scored>, v: int): seq<Scored> {
    if |s| == 0 then []
    else (if s[0].score == v then [s[0]] else []) + WithScore(s[1..], v)
  }

  lemma {:induction false} WithScoreAppend(a: seq<Scored>, b: seq<Scored>, v: int)
    ensures WithScore(a + b, v) == WithScore(a, v) + WithScore(b, v)
  {
    if |a| > 0 {
      assert (a + b)[1..] == a[1..] + b;
      assert (a + b)[0] == a[0];
      WithScoreAppend(a[1..], b, v);
    } else {
      assert a + b == b;
    }
  }

  /** An entry that scores at least as much as every entry of a
      descending list can go in front of it. */
  lemma ConsSorted(h: Scored, rest: seq<Scored>)
    requires SortedDesc(rest)
    requires forall y :: y in multiset(rest) ==> y.score <= h.score
    ensures SortedDesc([h] + rest)
  {
    var r := [h] + rest;
    forall i, j | 0 <= i < j < |r|
      ensures r[i].score >= r[j].score
    {
      assert r[j] == rest[j - 1];
      if i == 0 {
        assert rest[j - 1] in multiset(rest);
      } else {
        assert r[i] == rest[i - 1];
      }
    }
  }

  /** Two entries with different scores can trade places without changing
      any score's sub-list. */
  lemma SwapStable(x: Scored, y: Scored, t: seq<Scored>, v: int)
    requires x.score != y.score
    ensures WithScore([y] + ([x] + t), v) == WithScore([x] + ([y] + t), v)
  {
    var a := [y] + ([x] + t);
    var b := [x] + ([y] + t);
    assert a[0] == y && a[1..] == [x] + t;
    assert b[0] == x && b[1..] == [y] + t;
    assert ([x] + t)[0] == x && ([x] + t)[1..] == t;
    assert ([y] + t)[0] == y && ([y] + t)[1..] == t;
  }

  /** Inserting `x` into a descending list in front of the first entry
      that does not score higher. */
  function InsertDesc(x: Scored, t: seq<Scored>): (r: seq<Scored>)
    requires SortedDesc(t)
    ensures SortedDesc(r)
    ensures multiset(r) == multiset([x] + t)
  {
    if |t| == 0 || x.score >= t[0].score then [x] + t
    else
      var rest := InsertDesc(x, t[1..]);
      InsertStep(x, t, rest);
      [t[0]] + rest
  }

  /** The step of `InsertDesc` past a head that scores higher than `x`. */
  lemma InsertStep(x: Scored, t: seq<Scored>, rest: seq<Scored>)
    requires |t| > 0 && x.score < t[0].score && SortedDesc(t)
    requires SortedDesc(rest) && multiset(rest) == multiset([x] + t[1..])
    ensures SortedDesc([t[0]] + rest)
    ensures multiset([t[0]] + rest) == multiset([x] + t)
  {
    var h := t[0];
    var tail := t[1..];
    assert t == [h] + tail;
    forall y | y in multiset(rest)
      ensures y.score <= h.score
    {
      assert y in multiset([x] + tail);
      assert y == x || y in tail;
    }
    ConsSorted(h, rest);
  }

  /** Insertion keeps the entries of each score in their order, `x` first. */
  lemma {:induction false} InsertStable(x: Scored, t: seq<Scored>, v: int)
    requires SortedDesc(t)
    ensures WithScore(InsertDesc(x, t), v) == WithScore([x] + t, v)
  {
    if |t| > 0 && x.score < t[0].score {
      var h := t[0];
      var tail := t[1..];
      assert t == [h] + tail;
      InsertStable(x, tail, v);
      var rest := InsertDesc(x, tail);
      assert InsertDesc(x, t) == [h] + rest;
      WithScoreAppend([h], rest, v);
      WithScoreAppend([h], [x] + tail, v);
      SwapStable(x, h, tail, v);
    }
  }

  /** `scored.sort(key=score, reverse=True)`: descending and stable, so
      entries with equal scores keep their order. */
  function SortDesc(s: seq<Scored>): (r: seq<Scored>)
    ensures SortedDesc(r)
    ensures multiset(r) == multiset(s)
    ensures forall v :: WithScore(r, v) == WithScore(s, v)
  {
    if |s| == 0 then []
    else
      var rest := SortDesc(s[1..]);
      var r := InsertDesc(s[0], rest);
      assert s == [s[0]] + s[1..];
      assert forall v :: WithScore(r, v) == WithScore(s, v) by {
        forall v
          ensures WithScore(r, v) == WithScore(s, v)
        {
          InsertStable(s[0], rest, v);
          WithScoreAppend([s[0]], rest, v);
          WithScoreAppend([s[0]], s[1..], v);
        }
      }
      r
  }

  /** The `DetectionResult` fields that do not involve floating point. */
  datatype Detection = Detection(pid: string, ver: string, ruleId: string)

  /** `(result, scored, ambiguous)` */
  datatype Pick = Pick(result: Option<Detection>, scored: seq<Scored>, ambiguous: bool)

  /** The decision of `pick_by_sniff` on the scored list.  No result when
      the list is empty or its best entry cut no good frame; the result is
      ambiguous exactly when the runner-up also cut a good frame and scores
      less than 50 below the best. */
  function PickTop(all: seq<Scored>): (r: Pick)
    ensures var sc := r.scored;
            SortedDesc(sc) && multiset(sc) == multiset(all)
            && (forall v :: WithScore(sc, v) == WithScore(all, v))
            && (r.result.None? <==> |sc| == 0 || sc[0].ok == 0)
            && (r.result.None? ==> !r.ambiguous)
            && (r.result.Some? ==>
                  r.result.value.pid == sc[0].pid && r.result.value.ver == sc[0].ver
                  && (r.ambiguous <==> |sc| > 1 && sc[1].ok > 0 && sc[0].score - sc[1].score < 50)
                  && r.result.value.ruleId == "sniff_protocol_assets" + (if r.ambiguous then ":ambiguous" else ""))
  {
    var sc := SortDesc(all);
    if |sc| == 0 || sc[0].ok <= 0 then Pick(None, sc, false)
    else
      var ambiguous := |sc| > 1 && sc[1].ok > 0 && sc[0].score - sc[1].score < 50;
      var rule := "sniff_protocol_assets" + (if ambiguous then ":ambiguous" else "");
      Pick(Some(Detection(sc[0].pid, sc[0].ver, rule)), sc, ambiguous)
  }

  /** The first entry of a stable descending sort is the earliest entry of
      the input with the highest score. */
  lemma SortedHeadIsFirstBest(s: seq<Scored>) returns (j: nat)
    requires |s| > 0
    ensures j < |s| && s[j] == SortDesc(s)[0]
    ensures forall i :: 0 <= i < |s| ==> s[i].score <= s[j].score
    ensures forall i :: 0 <= i < j ==> s[i].score < s[j].score
  {
    var sc := SortDesc(s);
    var h := sc[0];
    HeadIsMax(sc, s);
    HeadOccurs(sc, s);
    j := FirstWithScore(s, h.score);
    WithScoreHead(s, h.score, j);
    WithScoreHead(sc, h.score, 0);
    assert WithScore(sc, h.score) == WithScore(s, h.score);
  }

  /** The head of a permutation of `s` occurs in `s`. */
  lemma HeadOccurs(sc: seq<Scored>, s: seq<Scored>)
    requires |sc| > 0 && multiset(sc) == multiset(s)
    ensures exists i :: 0 <= i < |s| && s[i].score == sc[0].score
  {
    assert sc[0] in multiset(sc);
    var i :| 0 <= i < |s| && s[i] == sc[0];
  }

  /** The head of a descending list scores at least as much as every
      entry of any permutation of it. */
  lemma HeadIsMax(sc: seq<Scored>, s: seq<Scored>)
    requires |sc| > 0 && SortedDesc(sc) && multiset(sc) == multiset(s)
    ensures forall i :: 0 <= i < |s| ==> s[i].score <= sc[0].score
  {
    forall i | 0 <= i < |s|
      ensures s[i].score <= sc[0].score
    {
      assert s[i] in multiset(s);
      assert s[i] in multiset(sc);
      var k :| 0 <= k < |sc| && sc[k] == s[i];
      assert k == 0 || sc[0].score >= sc[k].score;
    }
  }

  /** The position of the first entry scoring `v`. */
  function FirstWithScore(s: seq<Scored>, v: int): (j: nat)
    requires exists i :: 0 <= i < |s| && s[i].score == v
    ensures j < |s| && s[j].score == v
    ensures forall i :: 0 <= i < j ==> s[i].score != v
  {
    if s[0].score == v then 0
    else
      assert exists i :: 0 <= i < |s[1..]| && s[1..][i].score == v by {
        var i :| 0 <= i < |s| && s[i].score == v;
        assert s[1..][i - 1] == s[i];
      }
      var k := FirstWithScore(s[1..], v);
      assert forall i :: 1 <= i < k + 1 ==> s[i] == s[1..][i - 1];
      k + 1
  }

  /** The entries scoring `v` start with the first such entry. */
  lemma {:induction false} WithScoreHead(s: seq<Scored>, v: int, j: nat)
    requires j < |s| && s[j].score == v
    requires forall i :: 0 <= i < j ==> s[i].score != v
    ensures |WithScore(s, v)| > 0 && WithScore(s, v)[0] == s[j]
  {
    if j > 0 {
      assert forall i :: 0 <= i < j - 1 ==> s[1..][i] == s[i + 1];
      WithScoreHead(s[1..], v, j - 1);
    }
  }

  /** The pick names the earliest entry of the unsorted list with the
      highest score. */
  lemma PickIsFirstBest(all: seq<Scored>) returns (j: nat)
    requires PickTop(all).result.Some?
    ensures j < |all| && PickTop(all).result.value.pid == all[j].pid && PickTop(all).result.value.ver == all[j].ver
    ensures forall i :: 0 <= i < |all| ==> all[i].score <= all[j].score
    ensures forall i :: 0 <= i < j ==> all[i].score < all[j].score
  {
    assert PickTop(all).scored == SortDesc(all);
    j := SortedHeadIsFirstBest(all);
  }
}
