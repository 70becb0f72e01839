/**
  The segments that the ingest threads post to the queues of atstest/EBPSegmentAnalysisThread.c, and what the
  analysis thread asks of a segment on its own and of two segments in the same round.
*/
module Segments {
  import opened Options
  import opened Words

  const SAP_STREAM_TYPE_NOT_SUPPORTED: nat := 99
  const SAP_STREAM_TYPE_ERROR: nat := 100

  datatype Ebp = Ebp(sapFlag: bool, sapType: nat, timeFlag: bool, acquisitionTime: nat)

  datatype Partition = Partition(id: nat, distance: nat, sapTypeMax: nat)

  /** The source divides by the scale, so it must not be 0. */
  type TimeScale = n: nat | n > 0 witness 1

  datatype Descriptor = Descriptor(ticksPerSecond: TimeScale, partitions: seq<Partition>)

  datatype Segment = Segment(
    pts: int, sapType: nat, partitionId: nat, ebp: Option<Ebp>, latestDescriptor: Option<Descriptor>)

  /**
    Other threads share the streams with the analysis. The ingest threads forget the last PTS of a partition after a
    SCTE-35 match, and they may fail the stream for reasons of their own; the operator may clear the verdicts, which
    passes it. `verdict` is what they have last set the stream's verdict to, if they have set it.
  */
  datatype Interference = Interference(forgotten: set<nat>, verdict: Option<bool>)

  function Given(x: Interference, passFail: bool): bool {
    if x.verdict.Some? then x.verdict.value else passFail
  }

  /**
    What the analysis does not decide. First the floating point of the source: the fraction of a second of an NTP
    time, the PTS expected so many seconds after a PTS, and the comparison of a PTS difference with the allowed
    jitter. Then what the other threads do to stream `j` before its segment of round `k` is checked.
  */
  datatype Config = Config(fraction: nat -> real, expectedPts: (nat, nat) -> nat, tooFar: nat -> bool,
                           others: (nat, nat) -> Interference)

  /** int64_t to uint64_t */
  function Unsigned(n: int): nat {
    n % TWO_64
  }

  // ---------------------------------------------------------------- descriptors

  function FirstPartition(ps: seq<Partition>, id: nat): Option<Partition> {
    if ps == [] then None else if ps[0].id == id then Some(ps[0]) else FirstPartition(ps[1..], id)
  }

  /** `q` is the first place at which a partition with the id stands. */
  predicate IsFirst(ps: seq<Partition>, id: nat, q: nat) {
    q < |ps| && ps[q].id == id && forall i :: 0 <= i < q ==> ps[i].id != id
  }

  lemma {:induction false} FirstPartitionIs(ps: seq<Partition>, id: nat)
    ensures match FirstPartition(ps, id)
            case None => forall i :: 0 <= i < |ps| ==> ps[i].id != id
            case Some(p) => exists q: nat :: IsFirst(ps, id, q) && ps[q] == p
  {
    if ps != [] && ps[0].id != id {
      var rest := ps[1..];
      FirstPartitionIs(rest, id);
      if FirstPartition(rest, id).Some? {
        var q: nat :| IsFirst(rest, id, q) && rest[q] == FirstPartition(rest, id).value;
        assert forall i :: 0 < i < q + 1 ==> ps[i] == rest[i - 1];
        assert IsFirst(ps, id, q + 1);
      } else {
        assert forall i :: 0 < i < |ps| ==> ps[i] == rest[i - 1];
      }
    } else if ps != [] {
      assert IsFirst(ps, id, 0);
    }
  }

  lemma FirstIsPartition(ps: seq<Partition>, id: nat, q: nat)
    requires IsFirst(ps, id, q)
    ensures FirstPartition(ps, id) == Some(ps[q])
  {
    FirstPartitionIs(ps, id);
  }

  /** get_partition */
  method GetPartition(d: Descriptor, id: nat) returns (p: Option<Partition>)
    ensures p == FirstPartition(d.partitions, id)
    ensures p.None? ==> forall i :: 0 <= i < |d.partitions| ==> d.partitions[i].id != id
    ensures p.Some? ==> exists q: nat :: IsFirst(d.partitions, id, q) && d.partitions[q] == p.value
  {
    FirstPartitionIs(d.partitions, id);
    for i := 0 to |d.partitions|
      invariant FirstPartition(d.partitions, id) == FirstPartition(d.partitions[i..], id)
    {
      if d.partitions[i].id == id {
        return Some(d.partitions[i]);
      }
    }
    return None;
  }

  /** What the segment's descriptor says about its partition, if anything. */
  function PartitionOf(s: Segment): Option<Partition> {
    if s.latestDescriptor.None? then None else FirstPartition(s.latestDescriptor.value.partitions, s.partitionId)
  }

  // ---------------------------------------------------------------- two segments in one round

  datatype NtpTime = NtpTime(seconds: nat, fraction: real)

  /** The parsed acquisition time, where the segment has one. */
  function TimeOf(fraction: nat -> real, s: Segment): Option<NtpTime> {
    if s.ebp.None? || !s.ebp.value.timeFlag then None
    else Some(NtpTime(s.ebp.value.acquisitionTime / TWO_32, fraction(s.ebp.value.acquisitionTime % TWO_32)))
  }

  /** What the segments of one round must have in common. */
  datatype Mark = Mark(pts: int, partitionId: nat, time: Option<NtpTime>)

  function MarkOf(fraction: nat -> real, s: Segment): Mark {
    Mark(s.pts, s.partitionId, TimeOf(fraction, s))
  }

  // ---------------------------------------------------------------- one segment

  predicate SapOk(s: Segment) {
    && s.sapType != SAP_STREAM_TYPE_ERROR
    && (s.sapType != SAP_STREAM_TYPE_NOT_SUPPORTED && s.ebp.Some? ==>
          if s.ebp.value.sapFlag then
            && s.ebp.value.sapType == s.sapType
            && (PartitionOf(s).Some? ==> s.sapType <= PartitionOf(s).value.sapTypeMax)
          else s.sapType == 1 || s.sapType == 2)
  }

  /** The SAP type exceeds what the descriptor allows in the segment's partition. */
  ghost predicate SapTooLarge(s: Segment) {
    s.latestDescriptor.Some? &&
    exists q: nat :: IsFirst(s.latestDescriptor.value.partitions, s.partitionId, q) &&
                     s.sapType > s.latestDescriptor.value.partitions[q].sapTypeMax
  }

  /**
    A SAP type fails exactly when it is the error, or, of those that are supported and come with an EBP, when it is not
    that of an EBP that has one or is too large, or when the EBP has none and it is neither 1 nor 2.
  */
  lemma SapFailsIff(s: Segment)
    ensures !SapOk(s) <==>
            || s.sapType == 100
            || (s.sapType != 99 && s.ebp.Some? && s.ebp.value.sapFlag && s.sapType != s.ebp.value.sapType)
            || (s.sapType != 99 && s.ebp.Some? && s.ebp.value.sapFlag && SapTooLarge(s))
            || (s.sapType != 99 && s.ebp.Some? && !s.ebp.value.sapFlag && s.sapType !in {1, 2})
  {
    if s.latestDescriptor.Some? {
      var ps := s.latestDescriptor.value.partitions;
      FirstPartitionIs(ps, s.partitionId);
      if q: nat :| IsFirst(ps, s.partitionId, q) && s.sapType > ps[q].sapTypeMax {
        FirstIsPartition(ps, s.partitionId, q);
      }
    }
  }

  /** The PTS last seen in a partition; 0 where none was. */
  function LastIn(last: map<nat, nat>, partition: nat): nat {
    if partition in last then last[partition] else 0
  }

  function Distance(a: nat, b: nat): nat {
    if a > b then a - b else b - a
  }

  /** The segment comes when the descriptor says it should, after the last one of its partition. */
  predicate DistanceOk(cfg: Config, last: map<nat, nat>, s: Segment) {
    PartitionOf(s).Some? ==>
      var before := LastIn(last, s.partitionId);
      var seconds := PartitionOf(s).value.distance / s.latestDescriptor.value.ticksPerSecond;
      before != 0 ==> !cfg.tooFar(Distance(cfg.expectedPts(before, seconds), Unsigned(s.pts)))
  }

  /** Only a segment whose partition is described is remembered. */
  function Remember(last: map<nat, nat>, s: Segment): map<nat, nat> {
    if PartitionOf(s).None? then last else last[s.partitionId := Unsigned(s.pts)]
  }

  function Forget(last: map<nat, nat>, partitions: set<nat>): map<nat, nat> {
    last - partitions
  }

  /** What is remembered of stream `j` after the first `k` segments of `t`. */
  function Stored(cfg: Config, j: nat, last: map<nat, nat>, t: seq<Segment>, k: nat): map<nat, nat>
    requires k <= |t|
  {
    if k == 0 then last
    else Remember(Forget(Stored(cfg, j, last, t, k - 1), cfg.others(j, k - 1).forgotten), t[k - 1])
  }

  /** What the check of the next segment finds. */
  function Present(cfg: Config, j: nat, last: map<nat, nat>, t: seq<Segment>, k: nat): map<nat, nat>
    requires k <= |t|
  {
    Forget(Stored(cfg, j, last, t, k), cfg.others(j, k).forgotten)
  }

  /** The partition has been forgotten in one of the rounds from `i` up to and including `k`. */
  ghost predicate ForgottenSince(cfg: Config, j: nat, partition: nat, i: nat, k: nat) {
    exists r :: i <= r <= k && partition in cfg.others(j, r).forgotten
  }

  /**
    A segment is checked against the last earlier one of its partition that was described, if there is one and the
    other threads have not had it forgotten since.
  */
  lemma {:induction false} PresentIs(
    cfg: Config, j: nat, last: map<nat, nat>, t: seq<Segment>, k: nat, i: nat, partition: nat)
    requires i < k <= |t| && t[i].partitionId == partition && PartitionOf(t[i]).Some?
    requires forall m :: i < m < k ==> t[m].partitionId != partition || PartitionOf(t[m]).None?
    ensures LastIn(Present(cfg, j, last, t, k), partition) ==
            if ForgottenSince(cfg, j, partition, i + 1, k) then 0 else Unsigned(t[i].pts)
    decreases k
  {
    if i < k - 1 {
      PresentIs(cfg, j, last, t, k - 1, i, partition);
      assert t[k - 1].partitionId != partition || PartitionOf(t[k - 1]).None?;
      if ForgottenSince(cfg, j, partition, i + 1, k) {
        var r :| i + 1 <= r <= k && partition in cfg.others(j, r).forgotten;
        assert r < k ==> ForgottenSince(cfg, j, partition, i + 1, k - 1);
      } else {
        assert !ForgottenSince(cfg, j, partition, i + 1, k - 1) by {
          assert forall r :: i + 1 <= r <= k - 1 ==> partition !in cfg.others(j, r).forgotten;
        }
      }
    }
  }

  /** A segment that no described one of its partition comes before is checked against what was there at first. */
  lemma {:induction false} PresentAtFirst(
    cfg: Config, j: nat, last: map<nat, nat>, t: seq<Segment>, k: nat, partition: nat)
    requires k <= |t|
    requires forall m :: 0 <= m < k ==> t[m].partitionId != partition || PartitionOf(t[m]).None?
    ensures LastIn(Present(cfg, j, last, t, k), partition) ==
            if ForgottenSince(cfg, j, partition, 0, k) then 0 else LastIn(last, partition)
    decreases k
  {
    if k > 0 {
      PresentAtFirst(cfg, j, last, t, k - 1, partition);
      assert t[k - 1].partitionId != partition || PartitionOf(t[k - 1]).None?;
      if ForgottenSince(cfg, j, partition, 0, k) {
        var r :| 0 <= r <= k && partition in cfg.others(j, r).forgotten;
        assert r < k ==> ForgottenSince(cfg, j, partition, 0, k - 1);
      } else {
        assert !ForgottenSince(cfg, j, partition, 0, k - 1) by {
          assert forall r :: 0 <= r <= k - 1 ==> partition !in cfg.others(j, r).forgotten;
        }
      }
    }
  }

  /** The distance of a PTS from the one that a descriptor expects so long after the one before it. */
  ghost predicate FarFromExpected(cfg: Config, before: nat, pts: int, d: Descriptor, q: nat)
    requires q < |d.partitions| && -0x8000_0000_0000_0000 <= pts < 0x8000_0000_0000_0000
  {
    var expected := cfg.expectedPts(before, d.partitions[q].distance / d.ticksPerSecond);
    var found := if pts < 0 then pts + TWO_64 else pts;
    cfg.tooFar(if expected <= found then found - expected else expected - found)
  }

  /** A 64-bit PTS is judged by the first partition with its id, once there is a PTS to start from. */
  lemma DistanceFailsIff(cfg: Config, last: map<nat, nat>, s: Segment, q: nat)
    requires s.latestDescriptor.Some? && IsFirst(s.latestDescriptor.value.partitions, s.partitionId, q)
    requires -0x8000_0000_0000_0000 <= s.pts < 0x8000_0000_0000_0000
    ensures !DistanceOk(cfg, last, s) <==>
            LastIn(last, s.partitionId) != 0 &&
            FarFromExpected(cfg, LastIn(last, s.partitionId), s.pts, s.latestDescriptor.value, q)
  {
    FirstIsPartition(s.latestDescriptor.value.partitions, s.partitionId, q);
  }

  /** Nothing is asked of a segment whose partition is not described. */
  lemma UndescribedPasses(cfg: Config, last: map<nat, nat>, s: Segment)
    requires s.latestDescriptor.None? ||
             forall i :: 0 <= i < |s.latestDescriptor.value.partitions| ==>
               s.latestDescriptor.value.partitions[i].id != s.partitionId
    ensures DistanceOk(cfg, last, s)
  {
    if s.latestDescriptor.Some? {
      FirstPartitionIs(s.latestDescriptor.value.partitions, s.partitionId);
    }
  }

  /**
    In a run a described segment fails for its distance exactly when it is too far from where the last described one
    of its partition, at a PTS other than 0, lets it be expected, and that one has not been forgotten.
  */
  lemma DistanceInRun(cfg: Config, j: nat, last: map<nat, nat>, t: seq<Segment>, k: nat, i: nat, q: nat)
    requires i < k < |t| && t[i].partitionId == t[k].partitionId && PartitionOf(t[i]).Some?
    requires forall m :: i < m < k ==> t[m].partitionId != t[k].partitionId || PartitionOf(t[m]).None?
    requires t[k].latestDescriptor.Some? && IsFirst(t[k].latestDescriptor.value.partitions, t[k].partitionId, q)
    requires 0 < t[i].pts < 0x8000_0000_0000_0000
    requires -0x8000_0000_0000_0000 <= t[k].pts < 0x8000_0000_0000_0000
    ensures !DistanceOk(cfg, Present(cfg, j, last, t, k), t[k]) <==>
            !ForgottenSince(cfg, j, t[k].partitionId, i + 1, k) &&
            FarFromExpected(cfg, t[i].pts, t[k].pts, t[k].latestDescriptor.value, q)
  {
    PresentIs(cfg, j, last, t, k, i, t[k].partitionId);
    DistanceFailsIff(cfg, Present(cfg, j, last, t, k), t[k], q);
  }

  /** After such a reset the next segment of the partition passes at any distance. */
  lemma ResetHidesDistance(cfg: Config, j: nat, last: map<nat, nat>, t: seq<Segment>, k: nat)
    requires k < |t| && t[k].partitionId in cfg.others(j, k).forgotten
    ensures DistanceOk(cfg, Present(cfg, j, last, t, k), t[k])
  {
  }

  // ---------------------------------------------------------------- start of the analysis

  /** The segments from the first one on that is not before `start`. */
  function DropBelow(ss: seq<Segment>, start: int): seq<Segment> {
    if ss != [] && ss[0].pts < start then DropBelow(ss[1..], start) else ss
  }

  /** startPTS after the first `n` queues have been peeked at. */
  function StartPts(heads: seq<seq<Segment>>, n: nat): int
    requires n <= |heads|
  {
    if n == 0 then 0
    else
      var before := StartPts(heads, n - 1);
      if heads[n - 1] != [] && heads[n - 1][0].pts > before then heads[n - 1][0].pts else before
  }

  /** The start is the latest PTS at the head of any queue, or 0 if that is later. */
  lemma {:induction false} StartPtsIsLatest(heads: seq<seq<Segment>>, n: nat)
    requires n <= |heads|
    ensures StartPts(heads, n) >= 0
    ensures forall i :: 0 <= i < n && heads[i] != [] ==> heads[i][0].pts <= StartPts(heads, n)
    ensures StartPts(heads, n) == 0 || exists i :: 0 <= i < n && heads[i] != [] && heads[i][0].pts == StartPts(heads, n)
  {
    if n > 0 {
      StartPtsIsLatest(heads, n - 1);
    }
  }

  /** What is dropped is exactly the longest prefix before the start. */
  lemma {:induction false} DropBelowIsMaximal(ss: seq<Segment>, start: int)
    ensures |DropBelow(ss, start)| <= |ss|
    ensures DropBelow(ss, start) == ss[|ss| - |DropBelow(ss, start)|..]
    ensures forall i :: 0 <= i < |ss| - |DropBelow(ss, start)| ==> ss[i].pts < start
    ensures DropBelow(ss, start) != [] ==> DropBelow(ss, start)[0].pts >= start
  {
    if ss != [] && ss[0].pts < start {
      DropBelowIsMaximal(ss[1..], start);
    }
  }

  /** A queue whose head has the latest PTS loses nothing. */
  lemma LatestLosesNothing(heads: seq<seq<Segment>>, i: nat)
    requires i < |heads| && heads[i] != [] && heads[i][0].pts == StartPts(heads, |heads|)
    ensures DropBelow(heads[i], StartPts(heads, |heads|)) == heads[i]
  {
  }

  predicate Increasing(ss: seq<Segment>) {
    forall i, j :: 0 <= i < j < |ss| ==> ss[i].pts < ss[j].pts
  }

  predicate Contains(ss: seq<Segment>, pts: int) {
    exists i :: 0 <= i < |ss| && ss[i].pts == pts
  }

  /** With increasing PTS a queue is left with the start at its head exactly when it contains the start. */
  lemma StartAtHeadIff(ss: seq<Segment>, start: int)
    requires Increasing(ss)
    ensures (DropBelow(ss, start) != [] && DropBelow(ss, start)[0].pts == start) <==> Contains(ss, start)
  {
    DropBelowIsMaximal(ss, start);
    var t := DropBelow(ss, start);
    var d := |ss| - |t|;
    if Contains(ss, start) {
      var i :| 0 <= i < |ss| && ss[i].pts == start;
      assert i >= d;
      assert ss[d] == t[0];
    }
  }

  /** So all queues start together exactly when all of them contain the start. */
  lemma AllStartTogetherIff(heads: seq<seq<Segment>>, start: int)
    requires forall i :: 0 <= i < |heads| ==> Increasing(heads[i])
    ensures (forall i :: 0 <= i < |heads| ==> Contains(heads[i], start)) <==>
            forall i :: 0 <= i < |heads| ==>
              DropBelow(heads[i], start) != [] && DropBelow(heads[i], start)[0].pts == start
  {
    forall i | 0 <= i < |heads|
      ensures (DropBelow(heads[i], start) != [] && DropBelow(heads[i], start)[0].pts == start)
              <==> Contains(heads[i], start)
    {
      StartAtHeadIff(heads[i], start);
    }
  }
}
