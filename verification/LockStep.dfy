/**
  What the loops of atstest/EBPSegmentAnalysisThread.c should leave behind, stream by stream and round by round.
*/
module LockStep {
  import opened Options
  import opened Segments
  import opened Words

  /** A queue holds the posted segments and then one NULL, which says that the producer is done. */
  type Element = Option<Segment>

  function Elements(ss: seq<Segment>): (es: seq<Element>)
    ensures |es| == |ss| + 1
  {
    if ss == [] then [None] else [Some(ss[0])] + Elements(ss[1..])
  }

  /** A stream's queue and verdict, and what became of the segments popped from the queue. */
  datatype Stream = Stream(
    fifo: seq<Element>, pops: nat, passFail: bool, lastPts: map<nat, nat>,
    discarded: seq<Segment>, compared: seq<Segment>)

  // ---------------------------------------------------------------- synchronization

  /** The stream after the sync, which discards what is before `start` and retires a queue that runs out. */
  function Synced(v: Stream, ss: seq<Segment>, start: int): Stream {
    var t := DropBelow(ss, start);
    DropBelowIsMaximal(ss, start);
    v.(fifo := if t == [] then [] else Elements(t),
       pops := v.pops + |ss| - |t| + if t == [] then 1 else 0,
       discarded := v.discarded + ss[..|ss| - |t|])
  }

  // ---------------------------------------------------------------- rounds

  /** The lowest of the first `n` streams that still has a segment for round `k`, or `n`. */
  function Leader(ts: seq<seq<Segment>>, k: nat, n: nat): (j: nat)
    requires n <= |ts|
    ensures j <= n && (j < n ==> |ts[j]| > k)
  {
    if n == 0 then 0
    else
      var l := Leader(ts, k, n - 1);
      if l == n - 1 && |ts[n - 1]| <= k then n else l
  }

  lemma {:induction false} LeaderIsLowest(ts: seq<seq<Segment>>, k: nat, n: nat, i: nat)
    requires n <= |ts| && i < Leader(ts, k, n)
    ensures |ts[i]| <= k
    decreases n
  {
    if i < n - 1 {
      LeaderIsLowest(ts, k, n - 1, i);
    }
  }

  /** Once there is a leader, later streams do not change it. */
  lemma {:induction false} LeaderStays(ts: seq<seq<Segment>>, k: nat, i: nat, n: nat)
    requires i <= n <= |ts| && Leader(ts, k, i) < i
    ensures Leader(ts, k, n) == Leader(ts, k, i)
    decreases n
  {
    if i < n {
      LeaderStays(ts, k, i, n - 1);
    }
  }

  /** Stream `j` agrees in round `k` with the lowest stream still active in that round. */
  predicate InStep(fraction: nat -> real, ts: seq<seq<Segment>>, j: nat, k: nat)
    requires j < |ts| && k < |ts[j]|
  {
    var l := Leader(ts, k, |ts|);
    l < |ts| && MarkOf(fraction, ts[l][k]) == MarkOf(fraction, ts[j][k])
  }

  predicate HasTime(s: Segment) {
    s.ebp.Some? && s.ebp.value.timeFlag
  }

  /**
    Stream `j` is in step with the lowest active stream `l` exactly when their segments have the same PTS and partition,
    and both have an acquisition time or neither has, of the same seconds and fraction.
  */
  lemma InStepIff(fraction: nat -> real, ts: seq<seq<Segment>>, j: nat, k: nat, l: nat)
    requires j < |ts| && k < |ts[j]|
    requires l < |ts| && k < |ts[l]| && forall i :: 0 <= i < l ==> |ts[i]| <= k
    ensures var s, first := ts[j][k], ts[l][k];
            InStep(fraction, ts, j, k) <==>
            && s.pts == first.pts && s.partitionId == first.partitionId && HasTime(s) == HasTime(first)
            && (HasTime(s) ==>
                  var a, b := s.ebp.value.acquisitionTime, first.ebp.value.acquisitionTime;
                  a / TWO_32 == b / TWO_32 && fraction(a % TWO_32) == fraction(b % TWO_32))
  {
    if Leader(ts, k, |ts|) > l {
      LeaderIsLowest(ts, k, |ts|, l);
    }
  }

  /** Every check of the segment of stream `j` in round `k`; `last` is what is remembered from before round 0. */
  predicate RoundOk(cfg: Config, ts: seq<seq<Segment>>, last: map<nat, nat>, j: nat, k: nat)
    requires j < |ts| && k < |ts[j]|
  {
    && InStep(cfg.fraction, ts, j, k)
    && SapOk(ts[j][k])
    && DistanceOk(cfg, Present(cfg, j, last, ts[j], k), ts[j][k])
  }

  /** The verdict on stream `j` before round `k`, from the verdict and what is remembered before round 0. */
  predicate Verdict(cfg: Config, ts: seq<seq<Segment>>, passFail: bool, last: map<nat, nat>, j: nat, k: nat)
    requires j < |ts| && k <= |ts[j]|
  {
    if k == 0 then passFail
    else Given(cfg.others(j, k - 1), Verdict(cfg, ts, passFail, last, j, k - 1)) && RoundOk(cfg, ts, last, j, k - 1)
  }

  /** The last of the first `k` rounds before whose segment another thread set the verdict. */
  function LastGiven(cfg: Config, j: nat, k: nat): (w: Option<nat>)
    ensures match w
            case None => forall m :: 0 <= m < k ==> cfg.others(j, m).verdict.None?
            case Some(w) => w < k && cfg.others(j, w).verdict.Some? &&
                            forall m :: w < m < k ==> cfg.others(j, m).verdict.None?
  {
    if k == 0 then None
    else if cfg.others(j, k - 1).verdict.Some? then Some(k - 1)
    else LastGiven(cfg, j, k - 1)
  }

  /** Where no other thread sets the verdict all rounds count; where one does, those from the last time on. */
  ghost predicate Passes(cfg: Config, ts: seq<seq<Segment>>, passFail: bool, last: map<nat, nat>, j: nat, k: nat)
    requires j < |ts| && k <= |ts[j]|
  {
    match LastGiven(cfg, j, k)
    case None => passFail && forall m :: 0 <= m < k ==> RoundOk(cfg, ts, last, j, m)
    case Some(w) => cfg.others(j, w).verdict.value && forall m :: w <= m < k ==> RoundOk(cfg, ts, last, j, m)
  }

  lemma {:induction false} VerdictIff(
    cfg: Config, ts: seq<seq<Segment>>, passFail: bool, last: map<nat, nat>, j: nat, k: nat)
    requires j < |ts| && k <= |ts[j]|
    ensures Verdict(cfg, ts, passFail, last, j, k) <==> Passes(cfg, ts, passFail, last, j, k)
    decreases k
  {
    if k > 0 {
      VerdictIff(cfg, ts, passFail, last, j, k - 1);
    }
  }

  function Min(a: nat, b: nat): nat {
    if a < b then a else b
  }

  predicate Active(t: seq<Segment>, k: nat) {
    t != [] && k <= |t|
  }

  /** Stream `j` before round `k`, where `v` is the synced stream and `ts[j]` what the sync left in its queue. */
  function Before(cfg: Config, ts: seq<seq<Segment>>, v: Stream, j: nat, k: nat): Stream
    requires j < |ts|
  {
    var t := ts[j];
    var m := Min(k, |t|);
    v.(fifo := if Active(t, k) then Elements(t[k..]) else [],
       pops := v.pops + if t == [] then 0 else Min(k, |t| + 1),
       passFail := Verdict(cfg, ts, v.passFail, v.lastPts, j, m),
       lastPts := Stored(cfg, j, v.lastPts, t, m),
       compared := v.compared + t[..m])
  }

  lemma ElementsFrom(t: seq<Segment>, k: nat)
    requires k < |t|
    ensures Elements(t[k..]) == [Some(t[k])] + Elements(t[k + 1..])
  {
    assert t[k..][1..] == t[k + 1..];
  }

  lemma TakeOneMore(compared: seq<Segment>, t: seq<Segment>, k: nat)
    requires k < |t|
    ensures compared + t[..k + 1] == compared + t[..k] + [t[k]]
  {
  }

  /** A round takes one segment from a stream that has one and checks it. */
  lemma RoundTakesSegment(cfg: Config, ts: seq<seq<Segment>>, v: Stream, j: nat, k: nat)
    requires j < |ts| && k < |ts[j]|
    ensures Active(ts[j], k) && Active(ts[j], k + 1)
    ensures var b, s := Before(cfg, ts, v, j, k), ts[j][k];
            && b.fifo != [] && b.fifo[0] == Some(s)
            && Before(cfg, ts, v, j, k + 1) ==
               Stream(b.fifo[1..], b.pops + 1, Given(cfg.others(j, k), b.passFail) && RoundOk(cfg, ts, v.lastPts, j, k),
                      Remember(Forget(b.lastPts, cfg.others(j, k).forgotten), s), b.discarded, b.compared + [s])
            && b.lastPts == Stored(cfg, j, v.lastPts, ts[j], k)
  {
    ElementsFrom(ts[j], k);
    TakeOneMore(v.compared, ts[j], k);
  }

  /** It takes the NULL from a stream that is at its end, which is then out of the game. */
  lemma RoundTakesNull(cfg: Config, ts: seq<seq<Segment>>, v: Stream, j: nat, k: nat)
    requires j < |ts| && ts[j] != [] && k == |ts[j]|
    ensures Active(ts[j], k) && !Active(ts[j], k + 1)
    ensures var b := Before(cfg, ts, v, j, k);
            && b.fifo == [None]
            && Before(cfg, ts, v, j, k + 1) == b.(fifo := [], pops := b.pops + 1)
  {
    assert ts[j][k..] == [];
  }

  /** And it leaves the others alone. */
  lemma RoundSkips(cfg: Config, ts: seq<seq<Segment>>, v: Stream, j: nat, k: nat)
    requires j < |ts| && !Active(ts[j], k)
    ensures !Active(ts[j], k + 1) && Before(cfg, ts, v, j, k + 1) == Before(cfg, ts, v, j, k)
  {
  }

  // ---------------------------------------------------------------- the end of the analysis

  /**
    The stream `v`, whose producer posted `ss` and then NULL, when the analysis is over: everything was popped,
    each segment was used once, before the start for nothing and from there on in one round, and the stream passes
    exactly when it passed before and no check of any round failed, or, where other threads set the verdict meanwhile,
    when they set it to pass the last time and no check has failed since.
  */
  ghost predicate Analysed(cfg: Config, ts: seq<seq<Segment>>, v: Stream, ss: seq<Segment>, j: nat, r: Stream)
    requires j < |ts|
  {
    && r.fifo == [] && r.pops == v.pops + |ss| + 1
    && |ts[j]| <= |ss|
    && r.discarded == v.discarded + ss[..|ss| - |ts[j]|]
    && r.compared == v.compared + ss[|ss| - |ts[j]|..]
    && (r.passFail <==> Passes(cfg, ts, v.passFail, v.lastPts, j, |ts[j]|))
  }

  lemma BeforeAtEnd(cfg: Config, ts: seq<seq<Segment>>, v: Stream, j: nat, k: nat)
    requires j < |ts| && k > |ts[j]|
    ensures var t := ts[j];
            Before(cfg, ts, v, j, k) ==
            Stream([], v.pops + if t == [] then 0 else |t| + 1,
                   Verdict(cfg, ts, v.passFail, v.lastPts, j, |t|),
                   Stored(cfg, j, v.lastPts, t, |t|), v.discarded, v.compared + t)
  {
    assert ts[j][..|ts[j]|] == ts[j];
  }

  /** The verdict as it is accumulated is the one that the analysis is meant to give. */
  lemma AnalysedIfVerdict(cfg: Config, ts: seq<seq<Segment>>, v: Stream, ss: seq<Segment>, j: nat, r: Stream)
    requires j < |ts| && |ts[j]| <= |ss| && ts[j] == ss[|ss| - |ts[j]|..]
    requires r.fifo == [] && r.pops == v.pops + |ss| + 1
    requires r.discarded == v.discarded + ss[..|ss| - |ts[j]|] && r.compared == v.compared + ts[j]
    requires r.passFail == Verdict(cfg, ts, v.passFail, v.lastPts, j, |ts[j]|)
    ensures Analysed(cfg, ts, v, ss, j, r)
  {
    VerdictIff(cfg, ts, v.passFail, v.lastPts, j, |ts[j]|);
  }

  lemma AnalysedAtEnd(
    cfg: Config, ts: seq<seq<Segment>>, v: Stream, ss: seq<Segment>, start: int, j: nat, k: nat)
    requires j < |ts| && ts[j] == DropBelow(ss, start) && k > |ts[j]|
    ensures Analysed(cfg, ts, v, ss, j, Before(cfg, ts, Synced(v, ss, start), j, k))
  {
    DropBelowIsMaximal(ss, start);
    BeforeAtEnd(cfg, ts, Synced(v, ss, start), j, k);
    AnalysedIfVerdict(cfg, ts, v, ss, j, Before(cfg, ts, Synced(v, ss, start), j, k));
  }

  /**
    The parts of the verdict. What the other threads do enters into the comparison within a round and into the SAP
    types in no way: it decides from where on rounds count, and which PTS is found for the distance.
  */
  lemma VerdictParts(cfg: Config, ts: seq<seq<Segment>>, v: Stream, ss: seq<Segment>, j: nat, r: Stream)
    requires j < |ts| && Analysed(cfg, ts, v, ss, j, r)
    ensures var n := |ts[j]|;
            var last := LastGiven(cfg, j, n);
            var w := if last.Some? then last.value else 0;
            r.passFail <==>
            && (if last.Some? then cfg.others(j, w).verdict.value else v.passFail)
            && (forall k :: w <= k < n ==> InStep(cfg.fraction, ts, j, k) && SapOk(ts[j][k]))
            && (forall k :: w <= k < n ==> DistanceOk(cfg, Present(cfg, j, v.lastPts, ts[j], k), ts[j][k]))
  {
    forall k | 0 <= k < |ts[j]|
      ensures RoundOk(cfg, ts, v.lastPts, j, k) <==>
              && InStep(cfg.fraction, ts, j, k) && SapOk(ts[j][k])
              && DistanceOk(cfg, Present(cfg, j, v.lastPts, ts[j], k), ts[j][k])
    {
    }
  }

  /** The operator's clearing of the verdicts hides every failure from before it. */
  lemma ClearHidesFailures(
    cfg: Config, ts: seq<seq<Segment>>, v: Stream, ss: seq<Segment>, j: nat, r: Stream, w: nat)
    requires j < |ts| && Analysed(cfg, ts, v, ss, j, r)
    requires w < |ts[j]| && cfg.others(j, w).verdict == Some(true)
    requires forall k :: w < k < |ts[j]| ==> cfg.others(j, k).verdict.None?
    ensures r.passFail <==> forall k :: w <= k < |ts[j]| ==> RoundOk(cfg, ts, v.lastPts, j, k)
  {
    assert LastGiven(cfg, j, |ts[j]|) == Some(w);
  }

  // ---------------------------------------------------------------- no way back into step

  /** While the first stream has segments it leads. */
  lemma FirstLeads(ts: seq<seq<Segment>>, k: nat)
    requires ts != [] && k < |ts[0]|
    ensures Leader(ts, k, |ts|) == 0
  {
    LeaderStays(ts, k, 1, |ts|);
  }

  /**
    A stream that misses one segment of the first stream, and is the same otherwise, is in step before it and, as
    the PTS increase, out of step in every round from there on: the thread never pairs the segments up again.
  */
  lemma LostSegment(fraction: nat -> real, ts: seq<seq<Segment>>, j: nat, m: nat, k: nat)
    requires j < |ts| && Increasing(ts[0]) && m < |ts[0]|
    requires ts[j] == ts[0][..m] + ts[0][m + 1..] && k < |ts[j]|
    ensures InStep(fraction, ts, j, k) <==> k < m
  {
    FirstLeads(ts, k);
    if k >= m {
      assert ts[j][k] == ts[0][k + 1];
      assert ts[0][k].pts < ts[0][k + 1].pts;
    }
  }

  /** Streams that were posted the same segments from the start on are in step in every round. */
  lemma SameSegmentsInStep(fraction: nat -> real, ts: seq<seq<Segment>>, j: nat, k: nat)
    requires j < |ts| && k < |ts[j]|
    requires forall i :: 0 <= i < |ts| ==> ts[i] <= ts[j] || ts[j] <= ts[i]
    ensures InStep(fraction, ts, j, k)
  {
    if Leader(ts, k, |ts|) == |ts| {
      LeaderIsLowest(ts, k, |ts|, j);
    }
  }
}
