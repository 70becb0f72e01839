/**
  The functions of atstest/EBPIngestThreadCommon.c that edit a list of SCTE-35 sections and the table of retired
  events in place, while they walk over them.
*/
module SpliceEvents {
  import opened Memory
  import opened VArray
  import opened HashTable
  import opened SpliceSections
  import opened SpliceList
  import opened SpliceDispatch
  import opened SpliceLifecycle

  /** The turn of the walk of addSCTE35Point at entry `i`: whether it ends there, with the list edited. */
  method Visit(list: VArray<Section>, s: Section, c: Section, i: nat) returns (insertComplete: bool)
    requires list.Valid() && i < list.length && !Unspecified(s)
    modifies list, list.items
    ensures list.Valid() && (list.items == old(list.items) || fresh(list.items))
    ensures insertComplete == StopsAt(old(list.Contents())[i], s)
    ensures var was := old(list.Contents());
            list.Contents() == if insertComplete then was[..i] + Instead(was[i], s, c) + was[i + 1..] else was
    ensures !insertComplete ==> list.items == old(list.items)
  {
    ghost var was := list.Contents();
    var temp := list.Get(i);
    var command := temp.value.command;
    EditsAt(was, i, c);
    if s.command.SpliceInsert? && command.SpliceInsert? {
      if s.command.eventId == command.eventId {
        if s.command.cancel {
          list.Remove(i);
        } else {
          list.Set(i, c);
        }
        return true;
      }
    } else if s.command.TimeSignal? && command.TimeSignal? {
      var ptsTemp := command.time.ptsTime + s.ptsAdjustment;
      if s.command.time.ptsTime == ptsTemp {
        return true;
      }
      if s.command.time.ptsTime < ptsTemp {
        list.Insert(i, c);
        return true;
      }
    }
    return false;
  }

  lemma EditsAt(was: seq<Section>, i: nat, s: Section)
    requires i < |was|
    ensures RemoveAt(was, i) == was[..i] + [] + was[i + 1..]
    ensures was[i := s] == was[..i] + [s] + was[i + 1..]
    ensures InsertAt(was, i, s) == was[..i] + [s, was[i]] + was[i + 1..]
    ensures was == was[..i] + [was[i]] + was[i + 1..]
  {
  }

  /** The walk goes on past an entry that it does not stop at. */
  lemma StopPast(was: seq<Section>, i: nat, s: Section)
    requires i < |was| && Stop(was, s) == i + Stop(was[i..], s)
    ensures StopsAt(was[i], s) ==> Stop(was, s) == i
    ensures !StopsAt(was[i], s) ==> Stop(was, s) == i + 1 + Stop(was[i + 1..], s)
  {
    assert was[i..][1..] == was[i + 1..];
  }

  /** addSCTE35Point; what it stores is `c`, the copy made of the section. */
  method AddScte35Point(list: VArray<Section>, s: Section, c: Section)
    requires list.Valid()
    modifies list, list.items
    ensures list.Valid() && (list.items == old(list.items) || fresh(list.items))
    ensures list.Contents() == Added(old(list.Contents()), s, c)
  {
    if s.command.TimeSignal? && !s.command.time.timeSpecified {
      return;
    }
    ghost var was := list.Contents();
    var i := 0;
    while i < list.length
      invariant list.Valid() && list.Contents() == was && list.items == old(list.items)
      invariant i <= |was| && Stop(was, s) == i + Stop(was[i..], s)
    {
      StopPast(was, i, s);
      var insertComplete := Visit(list, s, c, i);
      if insertComplete {
        return;
      }
      i := i + 1;
    }
    list.Add(c);
  }

  /** What validate_ts_packet does with a section for one list of the stream `pid`. */
  method AddArrived(list: VArray<Section>, s: Section, copy: nat -> Section, pid: nat)
    requires list.Valid()
    modifies list, list.items
    ensures list.Valid() && (list.items == old(list.items) || fresh(list.items))
    ensures list.Contents() == AddedTimes(old(list.Contents()), s, copy, Admissions(s, pid))
  {
    var n := CountAdmissions(s, pid);
    for i := 0 to n
      invariant list.Valid() && (list.items == old(list.items) || fresh(list.items))
      invariant list.Contents() == AddedTimes(old(list.Contents()), s, copy, i)
    {
      AddScte35Point(list, s, copy(i));
    }
  }

  /** The part that both checks share: an event that leaves goes into the table of retired events. */
  method RememberRetired(retired: HashTable<nat, nat>, s: Section)
    requires retired.Valid()
    modifies retired.Repr
    ensures retired.Valid() && fresh(retired.Repr - old(retired.Repr))
    ensures retired.M() == Retire(old(retired.M()), s)
  {
    if s.command.SpliceInsert? {
      var value := retired.Search(s.command.eventId);
      if value.None? {
        var pts := GetLatestPts(s);
        retired.Insert(s.command.eventId, pts);
      }
    }
  }

  /** The turn of checkPTSAgainstSCTE35Points at entry `i`. */
  method ExpireOne(
    list: VArray<Section>, i: nat, pts: Uint64, delta: Uint64, pid: nat, retired: HashTable<nat, nat>)
    returns (expired: bool)
    requires list.Valid() && retired.Valid() && list !in retired.Repr && list.items !in retired.Repr
    requires i < list.length
    modifies list, list.items, retired.Repr
    ensures list.Valid() && retired.Valid() && list.items == old(list.items)
    ensures fresh(retired.Repr - old(retired.Repr))
    ensures expired == Expired(old(list.Contents())[i], pts, delta, pid)
    ensures list.length == if expired then old(list.length) - 1 else old(list.length)
    ensures list.Contents() == if expired then RemoveAt(old(list.Contents()), i) else old(list.Contents())
    ensures retired.M() ==
            if expired then Retire(old(retired.M()), old(list.Contents())[i]) else old(retired.M())
  {
    var s := list.Get(i);
    var sectionPts := GetScte35Pts(s.value, pid);
    expired := pts > Add64(sectionPts, delta);
    if expired {
      RememberRetired(retired, s.value);
      list.Remove(i);
    }
  }

  /** A walk over a list from which sections are removed on the way. */
  datatype Walk = Walk(list: seq<Section>, retired: map<nat, nat>, i: nat)

  function Turn(w: Walk, pts: Uint64, delta: Uint64, pid: nat): Walk {
    if w.i >= |w.list| then w
    else if Expired(w.list[w.i], pts, delta, pid) then
      // the next section is now at the same place
      Walk(RemoveAt(w.list, w.i), Retire(w.retired, w.list[w.i]), w.i)
    else w.(i := w.i + 1)
  }

  /** The walk when it has come to the end of the list. */
  function Finish(w: Walk, pts: Uint64, delta: Uint64, pid: nat): Walk
    decreases |w.list| - w.i
  {
    if w.i >= |w.list| then w else Finish(Turn(w, pts, delta, pid), pts, delta, pid)
  }

  lemma TurnFilters(
    kept: seq<Section>, s: Section, rest: seq<Section>, m: map<nat, nat>, pts: Uint64, delta: Uint64, pid: nat)
    ensures var still := if Expired(s, pts, delta, pid) then kept + [] else kept + [s];
            Turn(Walk(kept + [s] + rest, m, |kept|), pts, delta, pid) ==
            Walk(still + rest, if Expired(s, pts, delta, pid) then Retire(m, s) else m, |still|)
  {
    assert kept + [] == kept;
    RemoveBetween(kept + [s] + rest, kept, s, rest);
  }

  /** After `n` turns the first `n` sections have been filtered, and the others are still to come. */
  lemma {:induction false} TurnsFilter(
    was: seq<Section>, m: map<nat, nat>, n: nat, pts: Uint64, delta: Uint64, pid: nat)
    requires n <= |was|
    ensures var kept := Unexpired(was[..n], pts, delta, pid);
            Finish(Walk(was, m, 0), pts, delta, pid) ==
            Finish(Walk(kept + was[n..], RetireExpired(m, was[..n], pts, delta, pid), |kept|), pts, delta, pid)
  {
    if n == 0 {
      assert was[..0] == [] && was[0..] == was;
    } else {
      TurnsFilter(was, m, n - 1, pts, delta, pid);
      var kept := Unexpired(was[..n - 1], pts, delta, pid);
      assert was[..n][..n - 1] == was[..n - 1];
      assert was[n - 1..] == [was[n - 1]] + was[n..];
      assert kept + was[n - 1..] == kept + [was[n - 1]] + was[n..];
      TurnFilters(kept, was[n - 1], was[n..], RetireExpired(m, was[..n - 1], pts, delta, pid), pts, delta, pid);
    }
  }

  /** Removing expired sections on the way filters the list. */
  lemma WalkFilters(was: seq<Section>, m: map<nat, nat>, pts: Uint64, delta: Uint64, pid: nat)
    ensures Finish(Walk(was, m, 0), pts, delta, pid).list == Unexpired(was, pts, delta, pid)
    ensures Finish(Walk(was, m, 0), pts, delta, pid).retired == RetireExpired(m, was, pts, delta, pid)
  {
    TurnsFilter(was, m, |was|, pts, delta, pid);
    assert was[..|was|] == was;
    assert Unexpired(was, pts, delta, pid) + was[|was|..] == Unexpired(was, pts, delta, pid);
  }

  /** checkPTSAgainstSCTE35Points: 0, or -1 if a section had expired. */
  method CheckPtsAgainstScte35Points(
    list: VArray<Section>, pts: Uint64, delta: Uint64, pid: nat, retired: HashTable<nat, nat>)
    returns (returnCode: int)
    requires list.Valid() && retired.Valid() && list !in retired.Repr && list.items !in retired.Repr
    modifies list, list.items, retired.Repr
    ensures list.Valid() && retired.Valid() && list.items == old(list.items)
    ensures fresh(retired.Repr - old(retired.Repr))
    ensures list.Contents() == Unexpired(old(list.Contents()), pts, delta, pid)
    ensures retired.M() == RetireExpired(old(retired.M()), old(list.Contents()), pts, delta, pid)
    ensures returnCode == if |list.Contents()| < |old(list.Contents())| then -1 else 0
  {
    returnCode := 0;
    ghost var was, m := list.Contents(), retired.M();
    ghost var w := Walk(was, m, 0);
    WalkFilters(was, m, pts, delta, pid);
    ghost var goal := Finish(w, pts, delta, pid);
    var i := 0;
    while i < list.length
      invariant list.Valid() && retired.Valid() && list.items == old(list.items)
      invariant fresh(retired.Repr - old(retired.Repr)) && list !in retired.Repr && list.items !in retired.Repr
      invariant w == Walk(list.Contents(), retired.M(), i) && Finish(w, pts, delta, pid) == goal
      invariant i <= list.length
      invariant if returnCode == 0 then list.length == |was| else returnCode == -1 && list.length < |was|
      decreases list.length - i
    {
      var expired := ExpireOne(list, i, pts, delta, pid, retired);
      if expired {
        // the next section is now at the same place
        returnCode := -1;
      } else {
        i := i + 1;
      }
      w := Turn(w, pts, delta, pid);
    }
  }

  /** The walk goes on past a section that does not match. */
  lemma MatchPast(was: seq<Section>, i: nat, pts: Uint64, delta: Uint64, pid: nat)
    requires i < |was| && FirstMatch(was, pts, delta, pid) == i + FirstMatch(was[i..], pts, delta, pid)
    ensures Matches(was[i], pts, delta, pid) ==> FirstMatch(was, pts, delta, pid) == i
    ensures !Matches(was[i], pts, delta, pid) ==>
              FirstMatch(was, pts, delta, pid) == i + 1 + FirstMatch(was[i + 1..], pts, delta, pid)
  {
    assert was[i..][1..] == was[i + 1..];
  }

  /** The turn of checkEBPAgainstSCTE35Points at entry `i`. */
  method MatchOne(
    list: VArray<Section>, i: nat, pts: Uint64, delta: Uint64, pid: nat, retired: HashTable<nat, nat>)
    returns (matched: bool)
    requires list.Valid() && retired.Valid() && list !in retired.Repr && list.items !in retired.Repr
    requires i < list.length
    modifies list, list.items, retired.Repr
    ensures list.Valid() && retired.Valid() && list.items == old(list.items)
    ensures fresh(retired.Repr - old(retired.Repr)) && (!matched ==> retired.Repr == old(retired.Repr))
    ensures matched == Matches(old(list.Contents())[i], pts, delta, pid)
    ensures list.Contents() == if matched then RemoveAt(old(list.Contents()), i) else old(list.Contents())
    ensures retired.M() ==
            if matched then Retire(old(retired.M()), old(list.Contents())[i]) else old(retired.M())
  {
    var s := list.Get(i);
    var sectionPts := GetScte35Pts(s.value, pid);
    matched := pts >= Sub64(sectionPts, delta) && pts <= Add64(sectionPts, delta);
    if matched {
      RememberRetired(retired, s.value);
      list.Remove(i);
    }
  }

  /** checkEBPAgainstSCTE35Points: 1 if a section matched, and 0 otherwise. */
  method CheckEbpAgainstScte35Points(
    list: VArray<Section>, pts: Uint64, delta: Uint64, pid: nat, retired: HashTable<nat, nat>)
    returns (returnCode: int)
    requires list.Valid() && retired.Valid() && list !in retired.Repr && list.items !in retired.Repr
    modifies list, list.items, retired.Repr
    ensures list.Valid() && retired.Valid() && list.items == old(list.items)
    ensures fresh(retired.Repr - old(retired.Repr))
    ensures var was := old(list.Contents());
            var i := FirstMatch(was, pts, delta, pid);
            if i < |was| then
              returnCode == 1 && list.Contents() == RemoveAt(was, i) && retired.M() == Retire(old(retired.M()), was[i])
            else
              returnCode == 0 && list.Contents() == was && retired.M() == old(retired.M())
  {
    ghost var was := list.Contents();
    var i := 0;
    while i < list.length
      invariant list.Valid() && retired.Valid() && list.items == old(list.items)
      invariant list.Contents() == was && retired.M() == old(retired.M()) && retired.Repr == old(retired.Repr)
      invariant i <= |was| && FirstMatch(was, pts, delta, pid) == i + FirstMatch(was[i..], pts, delta, pid)
    {
      MatchPast(was, i, pts, delta, pid);
      var matched := MatchOne(list, i, pts, delta, pid, retired);
      if matched {
        // the others are left for later boundaries
        return 1;
      }
      i := i + 1;
    }
    return 0;
  }

  /** The table after the first `n` keys have been looked at. */
  function PrunedKeys(m: map<nat, nat>, keys: seq<nat>, currentPts: nat, timeToLive: nat): map<nat, nat> {
    map id | id in m && (id in keys ==> currentPts <= m[id] + timeToLive) :: m[id]
  }

  /** The keys of the table, each once. */
  ghost predicate NoRepeats(keys: seq<nat>, m: map<nat, nat>) {
    && (forall i, j :: 0 <= i < j < |keys| ==> keys[i] != keys[j])
    && (forall id :: id in keys <==> id in m)
  }

  lemma PruneStep(m: map<nat, nat>, keys: seq<nat>, n: nat, currentPts: nat, timeToLive: nat)
    requires n < |keys| && NoRepeats(keys, m)
    ensures keys[n] in PrunedKeys(m, keys[..n], currentPts, timeToLive)
    ensures var before := PrunedKeys(m, keys[..n], currentPts, timeToLive);
            PrunedKeys(m, keys[..n + 1], currentPts, timeToLive) ==
            if currentPts > m[keys[n]] + timeToLive then before - {keys[n]} else before
  {
    assert keys[..n + 1] == keys[..n] + [keys[n]];
    assert keys[n] in keys;
  }

  /** The turn of pruneOldSCTE35Map at a key. */
  method PruneOne(retired: HashTable<nat, nat>, key: nat, currentPts: nat, timeToLive: nat)
    requires retired.Valid() && key in retired.M()
    modifies retired.Repr
    ensures retired.Valid() && fresh(retired.Repr - old(retired.Repr))
    ensures retired.M() ==
            if currentPts > old(retired.M())[key] + timeToLive then old(retired.M()) - {key} else old(retired.M())
  {
    var value := retired.Search(key);
    if currentPts > value.value + timeToLive {
      var _ := retired.Remove(key);
    }
  }

  lemma PrunedAll(m: map<nat, nat>, keys: seq<nat>, currentPts: nat, timeToLive: nat)
    requires NoRepeats(keys, m)
    ensures PrunedKeys(m, keys[..|keys|], currentPts, timeToLive) == Pruned(m, currentPts, timeToLive)
  {
    assert keys[..|keys|] == keys;
  }

  /** The loop of pruneOldSCTE35Map over the keys of the table. */
  method PruneKeys(retired: HashTable<nat, nat>, keys: array<nat>, currentPts: nat, timeToLive: nat)
    requires retired.Valid() && keys !in retired.Repr && NoRepeats(keys[..], retired.M())
    modifies retired.Repr
    ensures retired.Valid() && fresh(retired.Repr - old(retired.Repr))
    ensures retired.M() == Pruned(old(retired.M()), currentPts, timeToLive)
  {
    ghost var m, ks := retired.M(), keys[..];
    for i := 0 to keys.Length
      invariant retired.Valid() && fresh(retired.Repr - old(retired.Repr)) && keys !in retired.Repr
      invariant retired.M() == PrunedKeys(m, ks[..i], currentPts, timeToLive)
    {
      PruneStep(m, ks, i, currentPts, timeToLive);
      PruneOne(retired, keys[i], currentPts, timeToLive);
    }
    PrunedAll(m, ks, currentPts, timeToLive);
  }

  /** pruneOldSCTE35Map */
  method PruneOldScte35Map(retired: HashTable<nat, nat>, currentPts: nat, timeToLive: nat)
    requires retired.Valid()
    modifies retired.Repr
    ensures retired.Valid() && fresh(retired.Repr - old(retired.Repr))
    ensures retired.M() == Pruned(old(retired.M()), currentPts, timeToLive)
  {
    var keys := retired.GetKeyArray(0);
    PruneKeys(retired, keys, currentPts, timeToLive);
  }
}
