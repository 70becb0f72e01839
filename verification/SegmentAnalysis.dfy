/**
  The analysis thread of atstest/EBPSegmentAnalysisThread.c. It is the one consumer of all its queues and waits on
  an empty one, so a queue is modelled as everything that its producer will have posted to it.
*/
module SegmentAnalysis {
  import opened Options
  import opened Segments
  import opened LockStep

  class StreamInfo {
    var fifo: seq<Element>
    var pops: nat
    var streamPassFail: bool
    var lastPts: map<nat, nat>
    ghost var discarded: seq<Segment>
    ghost var compared: seq<Segment>

    ghost function Abs(): Stream
      reads this
    {
      Stream(fifo, pops, streamPassFail, lastPts, discarded, compared)
    }

    /** fifo_pop */
    method FifoPop() returns (element: Element)
      requires fifo != []
      modifies this`fifo, this`pops
      ensures element == old(fifo)[0] && fifo == old(fifo)[1..] && pops == old(pops) + 1
    {
      element := fifo[0];
      fifo, pops := fifo[1..], pops + 1;
    }

    /** fifo_peek */
    method FifoPeek() returns (element: Element)
      requires fifo != []
      ensures element == fifo[0]
    {
      return fifo[0];
    }

    /** checkDistanceFromLastPTS */
    method CheckDistanceFromLastPts(cfg: Config, s: Segment)
      modifies this`streamPassFail, this`lastPts
      ensures streamPassFail == (old(streamPassFail) && DistanceOk(cfg, old(lastPts), s))
      ensures lastPts == Remember(old(lastPts), s)
    {
      if s.latestDescriptor.None? {
        return;
      }
      var partition := GetPartition(s.latestDescriptor.value, s.partitionId);
      if partition.None? {
        return;
      }
      var numSecsGap := partition.value.distance / s.latestDescriptor.value.ticksPerSecond;
      var last := if s.partitionId in lastPts then lastPts[s.partitionId] else 0;
      var expectedPts := cfg.expectedPts(last, numSecsGap);
      var deltaPts;
      if expectedPts > Unsigned(s.pts) {
        deltaPts := expectedPts - Unsigned(s.pts);
      } else {
        deltaPts := Unsigned(s.pts) - expectedPts;
      }
      if last != 0 && cfg.tooFar(deltaPts) {
        streamPassFail := false;
      }
      lastPts := lastPts[s.partitionId := Unsigned(s.pts)];
    }

    /** The checks of the SAP type. */
    method CheckSapType(s: Segment)
      modifies this`streamPassFail
      ensures streamPassFail == (old(streamPassFail) && SapOk(s))
    {
      if s.sapType == SAP_STREAM_TYPE_ERROR {
        streamPassFail := false;
      }
      if s.sapType != SAP_STREAM_TYPE_NOT_SUPPORTED && s.sapType != SAP_STREAM_TYPE_ERROR && s.ebp.Some? {
        var ebp := s.ebp.value;
        if ebp.sapFlag {
          if ebp.sapType != s.sapType {
            streamPassFail := false;
          }
          if s.latestDescriptor.Some? {
            var partition := GetPartition(s.latestDescriptor.value, s.partitionId);
            if partition.Some? && ebp.sapType > partition.value.sapTypeMax {
              streamPassFail := false;
            }
          }
        } else if s.sapType != 1 && s.sapType != 2 {
          streamPassFail := false;
        }
      }
    }

    /** The comparison with the first segment of the round, which a stream that comes first sets instead. */
    method Compare(cfg: Config, s: Segment, next: Option<Mark>) returns (mark: Mark)
      modifies this`streamPassFail
      ensures streamPassFail == (old(streamPassFail) && (next.Some? ==> next.value == MarkOf(cfg.fraction, s)))
      ensures mark == if next.Some? then next.value else MarkOf(cfg.fraction, s)
      ensures next.None? ==> mark.pts == s.pts && mark.partitionId == s.partitionId
      ensures next.Some? && (next.value.pts != s.pts || next.value.partitionId != s.partitionId) ==> !streamPassFail
    {
      var time := TimeOf(cfg.fraction, s);
      if next.None? {
        return Mark(s.pts, s.partitionId, time);
      }
      mark := next.value;
      if s.pts != mark.pts {
        streamPassFail := false;
      }
      if s.partitionId != mark.partitionId {
        streamPassFail := false;
      }
      if time.Some? != mark.time.Some? {
        streamPassFail := false;
      } else if time.Some? {
        if time.value.seconds != mark.time.value.seconds || time.value.fraction != mark.time.value.fraction {
          streamPassFail := false;
        }
      }
    }

    /** What other threads do meanwhile: they reset the last PTS of some partitions and may set the verdict. */
    method Interfere(x: Interference)
      modifies this`streamPassFail, this`lastPts
      ensures streamPassFail == Given(x, old(streamPassFail)) && lastPts == Forget(old(lastPts), x.forgotten)
    {
      if x.verdict.Some? {
        streamPassFail := x.verdict.value;
      }
      lastPts := lastPts - x.forgotten;
    }

    /** What the thread does with a segment it has popped for a round. */
    method Process(cfg: Config, s: Segment, next: Option<Mark>) returns (mark: Mark)
      modifies this`streamPassFail, this`lastPts, this`compared
      ensures streamPassFail ==
              (old(streamPassFail) && (next.Some? ==> next.value == MarkOf(cfg.fraction, s)) &&
               SapOk(s) && DistanceOk(cfg, old(lastPts), s))
      ensures lastPts == Remember(old(lastPts), s) && compared == old(compared) + [s]
      ensures mark == if next.Some? then next.value else MarkOf(cfg.fraction, s)
    {
      mark := Compare(cfg, s, next);
      CheckDistanceFromLastPts(cfg, s);
      CheckSapType(s);
      compared := compared + [s];
    }

    /** The second loop of syncIncomingStreams for one queue: drops the `d` segments before `startPts`. */
    method Drop(startPts: int, ghost ss: seq<Segment>, ghost d: nat) returns (notActive: bool)
      requires fifo == Elements(ss) && d <= |ss| && Splits(ss, startPts, d)
      modifies this`fifo, this`pops, this`discarded
      ensures notActive <==> d == |ss|
      ensures fifo == if notActive then [] else Elements(ss[d..])
      ensures pops == old(pops) + d + if notActive then 1 else 0
      ensures discarded == old(discarded) + ss[..d]
    {
      ghost var n := 0;
      assert ss[0..] == ss && ss[..0] == [];
      while true
        invariant n <= d && fifo == Elements(ss[n..])
        invariant pops == old(pops) + n && discarded == old(discarded) + ss[..n]
        decreases d - n
      {
        var element := FifoPeek();
        if element.None? {
          element := FifoPop();
          return true;
        }
        ElementsFrom(ss, n);
        if element.value.pts >= startPts {
          return false;
        }
        element := FifoPop();
        discarded := discarded + [ss[n]];
        assert ss[..n + 1] == ss[..n] + [ss[n]];
        n := n + 1;
      }
    }

    /** The queue is left as the sync wants it. */
    method Trim(startPts: int, ghost ss: seq<Segment>) returns (notActive: bool)
      requires fifo == Elements(ss) && ss != []
      modifies this`fifo, this`pops, this`discarded
      ensures Abs() == Synced(old(Abs()), ss, startPts)
      ensures notActive <==> DropBelow(ss, startPts) == []
    {
      DropBelowIsMaximal(ss, startPts);
      notActive := Drop(startPts, ss, |ss| - |DropBelow(ss, startPts)|);
    }
  }

  /** Exactly the first `d` segments come before `start`, of those before the first one that does not. */
  ghost predicate Splits(ss: seq<Segment>, start: int, d: nat)
    requires d <= |ss|
  {
    (forall i :: 0 <= i < d ==> ss[i].pts < start) && (d < |ss| ==> ss[d].pts >= start)
  }

  // ---------------------------------------------------------------- all streams

  /** A stream with the negation of its entry in fifoNotActive. */
  datatype Slot = Slot(v: Stream, active: bool)

  /** No stream occurs twice. */
  ghost predicate Distinct(infos: seq<StreamInfo?>) {
    forall i, j :: 0 <= i < j < |infos| && infos[i] != null ==> infos[i] != infos[j]
  }

  ghost predicate StandsAt(infos: seq<StreamInfo?>, fifoNotActive: array<bool>, i: nat, slot: Slot)
    requires i < |infos| == fifoNotActive.Length
    reads infos, fifoNotActive
  {
    infos[i] != null ==> infos[i].Abs() == slot.v && fifoNotActive[i] == !slot.active
  }

  ghost predicate Stands(infos: seq<StreamInfo?>, fifoNotActive: array<bool>, slots: seq<Slot>)
    reads infos, fifoNotActive
  {
    && |slots| == |infos| == fifoNotActive.Length
    && forall i :: 0 <= i < |infos| ==> StandsAt(infos, fifoNotActive, i, slots[i])
  }

  lemma OneSlot(infos: seq<StreamInfo?>, fifoNotActive: array<bool>, slots: seq<Slot>, i: nat, slot: Slot)
    requires |slots| == |infos| == fifoNotActive.Length && i < |infos|
    requires forall j :: 0 <= j < |infos| && j != i ==> StandsAt(infos, fifoNotActive, j, slots[j])
    requires StandsAt(infos, fifoNotActive, i, slot)
    ensures Stands(infos, fifoNotActive, slots[i := slot])
  {
  }

  // ---------------------------------------------------------------- synchronization

  /** The slot of a stream with the posted segments `ss` after its head has been peeked at. */
  function Peeked(v: Stream, ss: seq<Segment>): Slot {
    if ss == [] then Slot(v.(fifo := [], pops := v.pops + 1), false) else Slot(v, true)
  }

  /** One turn of the first loop of syncIncomingStreams. */
  method PeekOne(infos: seq<StreamInfo?>, fifoNotActive: array<bool>, i: nat, startPts: int,
                 ghost slots: seq<Slot>, ghost ss: seq<Segment>)
    returns (r: int)
    requires Distinct(infos) && i < |infos| && Stands(infos, fifoNotActive, slots)
    requires slots[i].active && slots[i].v.fifo == Elements(ss) && (infos[i] == null ==> ss == [])
    modifies infos, fifoNotActive
    ensures Stands(infos, fifoNotActive, slots[i := Peeked(slots[i].v, ss)])
    ensures r == if ss != [] && ss[0].pts > startPts then ss[0].pts else startPts
  {
    r := startPts;
    var info := infos[i];
    if info != null && !fifoNotActive[i] {
      var element := info.FifoPeek();
      if element.None? {
        element := info.FifoPop();
        fifoNotActive[i] := true;
      } else if element.value.pts > startPts {
        r := element.value.pts;
      }
    }
    OneSlot(infos, fifoNotActive, slots, i, Peeked(slots[i].v, ss));
  }

  /** Before the sync every queue is active and holds its posted segments and the NULL; no stream, no segments. */
  ghost predicate Posted(infos: seq<StreamInfo?>, slots: seq<Slot>, lists: seq<seq<Segment>>) {
    && |infos| == |slots| == |lists|
    && forall i :: 0 <= i < |infos| ==>
         slots[i].active && slots[i].v.fifo == Elements(lists[i]) && (infos[i] == null ==> lists[i] == [])
  }

  /** The first loop of syncIncomingStreams: the latest PTS at the head of a queue. */
  method PeekAll(infos: seq<StreamInfo?>, fifoNotActive: array<bool>,
                 ghost slots0: seq<Slot>, ghost lists: seq<seq<Segment>>)
    returns (startPts: int, ghost slots: seq<Slot>)
    requires Distinct(infos) && Stands(infos, fifoNotActive, slots0) && Posted(infos, slots0, lists)
    modifies infos, fifoNotActive
    ensures startPts == StartPts(lists, |lists|)
    ensures Stands(infos, fifoNotActive, slots)
    ensures forall j :: 0 <= j < |infos| ==> slots[j] == Peeked(slots0[j].v, lists[j])
  {
    startPts, slots := 0, slots0;
    for i := 0 to |infos|
      invariant startPts == StartPts(lists, i)
      invariant Stands(infos, fifoNotActive, slots)
      invariant forall j :: 0 <= j < i ==> slots[j] == Peeked(slots0[j].v, lists[j])
      invariant forall j :: i <= j < |infos| ==> slots[j] == slots0[j]
    {
      startPts := PeekOne(infos, fifoNotActive, i, startPts, slots, lists[i]);
      slots := slots[i := Peeked(slots[i].v, lists[i])];
    }
  }

  function SyncedSlot(v: Stream, ss: seq<Segment>, start: int): Slot {
    Slot(Synced(v, ss, start), DropBelow(ss, start) != [])
  }

  /** One turn of the second loop of syncIncomingStreams. */
  method TrimOne(infos: seq<StreamInfo?>, fifoNotActive: array<bool>, i: nat, startPts: int,
                 ghost slots: seq<Slot>, ghost v: Stream, ghost ss: seq<Segment>)
    requires Distinct(infos) && i < |infos| && Stands(infos, fifoNotActive, slots)
    requires slots[i] == Peeked(v, ss) && v.fifo == Elements(ss)
    modifies infos, fifoNotActive
    ensures Stands(infos, fifoNotActive, slots[i := SyncedSlot(v, ss, startPts)])
  {
    var info := infos[i];
    assert StandsAt(infos, fifoNotActive, i, slots[i]);
    if info != null && !fifoNotActive[i] {
      var ended := info.Trim(startPts, ss);
      if ended {
        fifoNotActive[i] := true;
      }
    }
    OneSlot(infos, fifoNotActive, slots, i, SyncedSlot(v, ss, startPts));
  }

  /** syncIncomingStreams */
  method SyncIncomingStreams(infos: seq<StreamInfo?>, fifoNotActive: array<bool>,
                             ghost slots0: seq<Slot>, ghost lists: seq<seq<Segment>>)
    returns (ghost slots: seq<Slot>)
    requires Distinct(infos) && Stands(infos, fifoNotActive, slots0) && Posted(infos, slots0, lists)
    modifies infos, fifoNotActive
    ensures Stands(infos, fifoNotActive, slots)
    ensures forall j :: 0 <= j < |infos| ==>
              slots[j] == SyncedSlot(slots0[j].v, lists[j], StartPts(lists, |lists|))
  {
    var startPts;
    startPts, slots := PeekAll(infos, fifoNotActive, slots0, lists);
    for i := 0 to |infos|
      invariant Stands(infos, fifoNotActive, slots)
      invariant forall j :: 0 <= j < i ==> slots[j] == SyncedSlot(slots0[j].v, lists[j], startPts)
      invariant forall j :: i <= j < |infos| ==> slots[j] == Peeked(slots0[j].v, lists[j])
    {
      TrimOne(infos, fifoNotActive, i, startPts, slots, slots0[i].v, lists[i]);
      slots := slots[i := SyncedSlot(slots0[i].v, lists[i], startPts)];
    }
  }

  // ---------------------------------------------------------------- the main loop

  function SlotBefore(cfg: Config, ts: seq<seq<Segment>>, v: Stream, j: nat, k: nat): Slot
    requires j < |ts|
  {
    Slot(Before(cfg, ts, v, j, k), Active(ts[j], k))
  }

  /** What the first `i` streams have set for the rest of round `k` to compare with. */
  function NextMark(cfg: Config, ts: seq<seq<Segment>>, k: nat, i: nat): Option<Mark>
    requires i <= |ts|
  {
    var l := Leader(ts, k, i);
    if l < i then Some(MarkOf(cfg.fraction, ts[l][k])) else None
  }

  /** A stream with a segment agrees with what is set before it exactly when it is in step, and sets it if it leads. */
  lemma NextMarkStep(cfg: Config, ts: seq<seq<Segment>>, k: nat, i: nat)
    requires i < |ts|
    ensures |ts[i]| <= k ==> NextMark(cfg, ts, k, i + 1) == NextMark(cfg, ts, k, i)
    ensures |ts[i]| > k ==>
              var next, mark := NextMark(cfg, ts, k, i), MarkOf(cfg.fraction, ts[i][k]);
              && NextMark(cfg, ts, k, i + 1) == Some(if next.Some? then next.value else mark)
              && (InStep(cfg.fraction, ts, i, k) <==> (next.Some? ==> next.value == mark))
  {
    if |ts[i]| > k {
      LeaderStays(ts, k, i + 1, |ts|);
    }
  }

  /** One turn of the for loop over the streams. */
  method RoundOne(cfg: Config, infos: seq<StreamInfo?>, fifoNotActive: array<bool>, i: nat, next: Option<Mark>,
                  k: nat, ghost slots: seq<Slot>, ghost ts: seq<seq<Segment>>, ghost v: Stream)
    returns (r: Option<Mark>, found: bool)
    requires Distinct(infos) && |infos| == |ts| && i < |infos| && Stands(infos, fifoNotActive, slots)
    requires slots[i] == SlotBefore(cfg, ts, v, i, k) && (infos[i] == null ==> ts[i] == [])
    requires next == NextMark(cfg, ts, k, i)
    modifies infos, fifoNotActive
    ensures Stands(infos, fifoNotActive, slots[i := SlotBefore(cfg, ts, v, i, k + 1)])
    ensures r == NextMark(cfg, ts, k, i + 1) && found == (|ts[i]| > k)
  {
    r, found := next, false;
    NextMarkStep(cfg, ts, k, i);
    assert StandsAt(infos, fifoNotActive, i, slots[i]);
    if infos[i] != null && !fifoNotActive[i] {
      r, found := PlayRound(cfg, infos[i], fifoNotActive, i, next, k, ts, v);
    } else {
      RoundSkips(cfg, ts, v, i, k);
    }
    OneSlot(infos, fifoNotActive, slots, i, SlotBefore(cfg, ts, v, i, k + 1));
  }

  /** What it does for a stream that is still active. */
  method PlayRound(cfg: Config, info: StreamInfo, fifoNotActive: array<bool>, i: nat, next: Option<Mark>,
                   k: nat, ghost ts: seq<seq<Segment>>, ghost v: Stream)
    returns (r: Option<Mark>, found: bool)
    requires i < |ts| == fifoNotActive.Length && Active(ts[i], k) && !fifoNotActive[i]
    requires info.Abs() == Before(cfg, ts, v, i, k) && next == NextMark(cfg, ts, k, i)
    modifies info, fifoNotActive
    ensures info.Abs() == Before(cfg, ts, v, i, k + 1) && fifoNotActive[i] == !Active(ts[i], k + 1)
    ensures forall j :: 0 <= j < |ts| && j != i ==> fifoNotActive[j] == old(fifoNotActive[j])
    ensures r == NextMark(cfg, ts, k, i + 1) && found == (|ts[i]| > k)
  {
    r, found := next, false;
    NextMarkStep(cfg, ts, k, i);
    if |ts[i]| > k {
      RoundTakesSegment(cfg, ts, v, i, k);
    } else {
      RoundTakesNull(cfg, ts, v, i, k);
    }
    var element := info.FifoPop();
    if element.None? {
      fifoNotActive[i] := true;
    } else {
      info.Interfere(cfg.others(i, k));
      var mark := info.Process(cfg, element.value, next);
      r, found := Some(mark), true;
    }
  }

  /** What the sync leaves of the lists. */
  function Trimmed(lists: seq<seq<Segment>>, start: int): (ts: seq<seq<Segment>>)
    ensures |ts| == |lists|
  {
    if lists == [] then []
    else Trimmed(lists[..|lists| - 1], start) + [DropBelow(lists[|lists| - 1], start)]
  }

  lemma {:induction false} TrimmedAt(lists: seq<seq<Segment>>, start: int, j: nat)
    requires j < |lists|
    ensures Trimmed(lists, start)[j] == DropBelow(lists[j], start)
  {
    if j < |lists| - 1 {
      TrimmedAt(lists[..|lists| - 1], start, j);
    }
  }

  /** The rounds of an analysis: what the sync has left to compare, and the slots before round 0. */
  datatype Rounds = Rounds(cfg: Config, ts: seq<seq<Segment>>, first: seq<Slot>) {

    /** Slot `j` in round `k`, when the first `i` streams have had their turn. */
    ghost predicate SlotAt(slots: seq<Slot>, k: nat, i: nat, j: nat)
      requires j < |ts| == |first| == |slots|
    {
      slots[j] == SlotBefore(cfg, ts, first[j].v, j, if j < i then k + 1 else k)
    }

    ghost predicate InRound(slots: seq<Slot>, k: nat, i: nat) {
      && |ts| == |first| == |slots|
      && forall j :: 0 <= j < |slots| ==> SlotAt(slots, k, i, j)
    }

    lemma TurnDone(slots: seq<Slot>, k: nat, i: nat, slot: Slot)
      requires InRound(slots, k, i) && i < |slots| && slot == SlotBefore(cfg, ts, first[i].v, i, k + 1)
      ensures InRound(slots[i := slot], k, i + 1)
    {
      var changed, next := slots[i := slot], i + 1;
      forall j | 0 <= j < |slots|
        ensures SlotAt(changed, k, next, j)
      {
        assert SlotAt(slots, k, i, j);
      }
    }

    lemma RoundDone(slots: seq<Slot>, k: nat)
      requires InRound(slots, k, |slots|)
      ensures InRound(slots, k + 1, 0)
    {
      var next := k + 1;
      forall j | 0 <= j < |slots|
        ensures SlotAt(slots, next, 0, j)
      {
        assert SlotAt(slots, k, |slots|, j);
      }
    }

    /** The synced streams are ready for round 0. */
    /** The rounds begin with the streams `vs` as the sync leaves them. */
    ghost predicate BeginWith(vs: seq<Stream>, lists: seq<seq<Segment>>, start: int) {
      && |ts| == |first| == |vs| == |lists| && ts == Trimmed(lists, start)
      && forall j :: 0 <= j < |vs| ==> first[j] == SyncedSlot(vs[j], lists[j], start)
    }

    lemma Begin(vs: seq<Stream>, lists: seq<seq<Segment>>, start: int)
      requires BeginWith(vs, lists, start)
      ensures InRound(first, 0, 0)
    {
      forall j | 0 <= j < |first|
        ensures SlotAt(first, 0, 0, j)
      {
        TrimmedAt(lists, start, j);
        SyncedIsBeforeRounds(cfg, ts, vs[j], lists[j], start, j);
      }
    }

    /** When no list has a segment left a stream has been analysed. */
    lemma End(slots: seq<Slot>, k: nat, j: nat, vs: seq<Stream>, lists: seq<seq<Segment>>, start: int)
      requires InRound(slots, k, 0) && j < |slots| && UsedUp(ts, k - 1, |ts|) && BeginWith(vs, lists, start)
      ensures Analysed(cfg, ts, vs[j], lists[j], j, slots[j].v)
    {
      assert SlotAt(slots, k, 0, j);
      UsedUpIff(ts, k - 1, |ts|);
      TrimmedAt(lists, start, j);
      AnalysedAtEnd(cfg, ts, vs[j], lists[j], start, j, k);
    }
  }

  /** The slots of the synced streams are those before round 0. */
  lemma SyncedIsBeforeRounds(cfg: Config, ts: seq<seq<Segment>>, v: Stream, ss: seq<Segment>, start: int, j: nat)
    requires j < |ts| && ts[j] == DropBelow(ss, start)
    ensures SyncedSlot(v, ss, start) == SlotBefore(cfg, ts, Synced(v, ss, start), j, 0)
  {
    assert ts[j][0..] == ts[j] && ts[j][..0] == [];
    DropBelowIsMaximal(ss, start);
  }

  /** No list has a segment after the first `k`, among the first `n`. */
  predicate UsedUp(ts: seq<seq<Segment>>, k: int, n: nat)
    requires n <= |ts|
  {
    n == 0 || (UsedUp(ts, k, n - 1) && |ts[n - 1]| <= k)
  }

  lemma {:induction false} UsedUpIff(ts: seq<seq<Segment>>, k: int, n: nat)
    requires n <= |ts|
    ensures UsedUp(ts, k, n) <==> forall j :: 0 <= j < n ==> |ts[j]| <= k
  {
    if n > 0 {
      UsedUpIff(ts, k, n - 1);
    }
  }

  function Longest(ts: seq<seq<Segment>>, n: nat): nat
    requires n <= |ts|
  {
    if n == 0 then 0
    else if |ts[n - 1]| > Longest(ts, n - 1) then |ts[n - 1]| else Longest(ts, n - 1)
  }

  lemma {:induction false} LongestUsesUp(ts: seq<seq<Segment>>, k: int, n: nat)
    requires n <= |ts| && Longest(ts, n) <= k
    ensures UsedUp(ts, k, n)
  {
    if n > 0 {
      LongestUsesUp(ts, k, n - 1);
    }
  }

  /** Where there is no stream there are no segments. */
  ghost predicate Matching(infos: seq<StreamInfo?>, rounds: Rounds) {
    && Distinct(infos) && |infos| == |rounds.ts| == |rounds.first|
    && forall j :: 0 <= j < |infos| && infos[j] == null ==> rounds.ts[j] == []
  }

  lemma MissingHaveNone(infos: seq<StreamInfo?>, rounds: Rounds, lists: seq<seq<Segment>>, start: int)
    requires Distinct(infos) && |infos| == |rounds.ts| == |rounds.first| == |lists|
    requires rounds.ts == Trimmed(lists, start)
    requires forall j :: 0 <= j < |infos| && infos[j] == null ==> lists[j] == []
    ensures Matching(infos, rounds)
  {
    forall j | 0 <= j < |infos| && infos[j] == null ensures rounds.ts[j] == [] {
      TrimmedAt(lists, start, j);
    }
  }

  /** The body of the while loop. */
  method Round(infos: seq<StreamInfo?>, fifoNotActive: array<bool>, cfg: Config, k: nat,
               ghost rounds: Rounds, ghost slots0: seq<Slot>)
    returns (exitThread: bool, ghost slots: seq<Slot>)
    requires Matching(infos, rounds) && rounds.cfg == cfg
    requires Stands(infos, fifoNotActive, slots0) && rounds.InRound(slots0, k, 0)
    modifies infos, fifoNotActive
    ensures Stands(infos, fifoNotActive, slots) && rounds.InRound(slots, k + 1, 0)
    ensures exitThread <==> UsedUp(rounds.ts, k, |infos|)
  {
    exitThread, slots := true, slots0;
    var next := None;
    for i := 0 to |infos|
      invariant next == NextMark(cfg, rounds.ts, k, i)
      invariant Stands(infos, fifoNotActive, slots) && rounds.InRound(slots, k, i)
      invariant exitThread <==> UsedUp(rounds.ts, k, i)
    {
      assert rounds.SlotAt(slots, k, i, i);
      ghost var slot := SlotBefore(cfg, rounds.ts, rounds.first[i].v, i, k + 1);
      var found;
      next, found := RoundOne(cfg, infos, fifoNotActive, i, next, k, slots, rounds.ts, rounds.first[i].v);
      rounds.TurnDone(slots, k, i, slot);
      slots := slots[i := slot];
      if found {
        exitThread := false;
      }
    }
    rounds.RoundDone(slots, k);
  }

  /** The while loop, which ends because every round but the last uses up a segment of the longest list. */
  method RunRounds(infos: seq<StreamInfo?>, fifoNotActive: array<bool>, cfg: Config,
                   ghost rounds: Rounds, ghost bound: nat)
    returns (k: nat, ghost slots: seq<Slot>)
    requires Matching(infos, rounds) && rounds.cfg == cfg
    requires Stands(infos, fifoNotActive, rounds.first) && rounds.InRound(rounds.first, 0, 0)
    requires UsedUp(rounds.ts, bound, |infos|)
    modifies infos, fifoNotActive
    ensures Stands(infos, fifoNotActive, slots) && rounds.InRound(slots, k, 0)
    ensures UsedUp(rounds.ts, k - 1, |infos|)
  {
    var exitThread := false;
    k, slots := 0, rounds.first;
    while !exitThread
      invariant Stands(infos, fifoNotActive, slots) && rounds.InRound(slots, k, 0)
      invariant if exitThread then UsedUp(rounds.ts, k - 1, |infos|) else k <= bound
      decreases !exitThread, bound - k
    {
      exitThread, slots := Round(infos, fifoNotActive, cfg, k, rounds, slots);
      assert k == bound ==> exitThread;
      k := k + 1;
    }
  }

  ghost function ActiveSlots(vs: seq<Stream>): (slots: seq<Slot>)
    ensures |slots| == |vs|
    ensures forall i :: 0 <= i < |vs| ==> slots[i] == Slot(vs[i], true)
  {
    if vs == [] then [] else [Slot(vs[0], true)] + ActiveSlots(vs[1..])
  }

  /** The streams as they stand, with one that is over for a missing one. */
  ghost function Views(infos: seq<StreamInfo?>): (vs: seq<Stream>)
    reads infos
    ensures |vs| == |infos|
    ensures forall i :: 0 <= i < |infos| && infos[i] != null ==> vs[i] == infos[i].Abs()
    ensures forall i :: 0 <= i < |infos| && infos[i] == null ==> vs[i].fifo == Elements([])
  {
    if infos == [] then []
    else [if infos[0] == null then Stream(Elements([]), 0, true, map[], [], []) else infos[0].Abs()] + Views(infos[1..])
  }

  /** What follows the sync, for streams that were `vs` before it. */
  method AnalyseSynced(cfg: Config, infos: seq<StreamInfo?>, fifoNotActive: array<bool>, ghost rounds: Rounds,
                       ghost vs: seq<Stream>, ghost lists: seq<seq<Segment>>, ghost start: int)
    requires Matching(infos, rounds) && rounds.cfg == cfg && Stands(infos, fifoNotActive, rounds.first)
    requires rounds.BeginWith(vs, lists, start)
    modifies infos, fifoNotActive
    ensures forall i :: 0 <= i < |infos| && infos[i] != null ==>
              Analysed(cfg, rounds.ts, vs[i], lists[i], i, infos[i].Abs())
  {
    rounds.Begin(vs, lists, start);
    LongestUsesUp(rounds.ts, Longest(rounds.ts, |infos|), |infos|);
    ghost var slots;
    var k;
    k, slots := RunRounds(infos, fifoNotActive, cfg, rounds, Longest(rounds.ts, |infos|));
    forall i | 0 <= i < |infos| && infos[i] != null
      ensures Analysed(cfg, rounds.ts, vs[i], lists[i], i, infos[i].Abs())
    {
      rounds.End(slots, k, i, vs, lists, start);
      assert StandsAt(infos, fifoNotActive, i, slots[i]);
    }
  }

  /**
    EBPSegmentAnalysisThreadProc, whatever other threads do to the streams meanwhile, for streams whose
    producers post the segments in `lists`, each followed by NULL.
  */
  method Analyse(cfg: Config, infos: seq<StreamInfo?>, ghost lists: seq<seq<Segment>>)
    requires Distinct(infos) && |infos| == |lists|
    requires forall i :: 0 <= i < |infos| ==>
               if infos[i] == null then lists[i] == [] else infos[i].fifo == Elements(lists[i])
    modifies infos
    ensures var ts := Trimmed(lists, StartPts(lists, |lists|));
            forall i :: 0 <= i < |infos| && infos[i] != null ==>
              Analysed(cfg, ts, old(infos[i].Abs()), lists[i], i, infos[i].Abs())
  {
    ghost var start, vs := StartPts(lists, |lists|), Views(infos);
    var fifoNotActive := new bool[|infos|](_ => false);
    ghost var first := SyncIncomingStreams(infos, fifoNotActive, ActiveSlots(vs), lists);
    ghost var rounds := Rounds(cfg, Trimmed(lists, start), first);
    MissingHaveNone(infos, rounds, lists, start);
    AnalyseSynced(cfg, infos, fifoNotActive, rounds, vs, lists, start);
  }
}
