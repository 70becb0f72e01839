/**
  The life of a splice event in atstest/EBPIngestThreadCommon.c: it enters the lists of the partitions, leaves a
  list when a boundary matches it or its time has passed, and is then remembered among the retired events until it
  is too old. One table of retired events serves all lists of a thread.
*/
module SpliceLifecycle {
  import opened Options
  import opened Memory
  import opened Words
  import opened SpliceSections
  import opened SpliceList
  import opened SpliceDispatch

  // ---------------------------------------------------------------- leaving a list

  /** Too late: the time of the section, and the tolerance after it, have passed. */
  predicate Expired(s: Section, pts: Uint64, delta: Uint64, pid: nat) {
    pts > Add64(SectionPts(s, pid), delta)
  }

  /** The comparison of a boundary at `pts` with a section; both bounds are computed without regard to overflow. */
  predicate Matches(s: Section, pts: Uint64, delta: Uint64, pid: nat) {
    pts >= Sub64(SectionPts(s, pid), delta) && pts <= Add64(SectionPts(s, pid), delta)
  }

  /**
    For times of any realistic size a boundary matches a section exactly when the two are at most `delta` apart and
    the section is not earlier than `delta`: a section that early is never matched, however near the boundary is.
  */
  lemma MatchesIff(s: Section, pts: Uint64, delta: Uint64, pid: nat)
    requires pts < TWO_64 / 2 && delta < TWO_64 / 2
    ensures var t := SectionPts(s, pid);
            Matches(s, pts, delta, pid) <==> delta <= t && t - delta <= pts <= t + delta
  {
    SectionPtsIsSmall(s, pid);
  }

  /** A section has expired exactly when the boundary is more than `delta` after it. */
  lemma ExpiredIff(s: Section, pts: Uint64, delta: Uint64, pid: nat)
    requires pts < TWO_64 / 2 && delta < TWO_64 / 2
    ensures Expired(s, pts, delta, pid) <==> pts > SectionPts(s, pid) + delta
    ensures Matches(s, pts, delta, pid) ==> !Expired(s, pts, delta, pid)
  {
    SectionPtsIsSmall(s, pid);
  }

  /** A boundary comes too early for a section that is not earlier than the tolerance, matches it or comes too late. */
  lemma OneOfThree(s: Section, pts: Uint64, delta: Uint64, pid: nat)
    requires pts < TWO_64 / 2 && delta < TWO_64 / 2 && delta <= SectionPts(s, pid)
    ensures var early, late := pts < SectionPts(s, pid) - delta, Expired(s, pts, delta, pid);
            && (early || Matches(s, pts, delta, pid) || late)
            && !(early && Matches(s, pts, delta, pid)) && !(Matches(s, pts, delta, pid) && late) && !(early && late)
  {
    SectionPtsIsSmall(s, pid);
  }

  /** With a tolerance of 10 a section at 5 does not match a boundary at the very same time. */
  lemma EarlySectionMissed()
    ensures var s := Section(0, TimeSignal(SpliceTime(true, 5)));
            SectionPts(s, 0) == 5 && !Matches(s, 5, 10, 0)
  {
  }

  /** An event that leaves is remembered with its latest time, unless it is remembered already. */
  function Retire(m: map<nat, nat>, s: Section): map<nat, nat> {
    if s.command.SpliceInsert? && s.command.eventId !in m then m[s.command.eventId := LatestPts(s)] else m
  }

  /** checkPTSAgainstSCTE35Points: what is left of the list. */
  function Unexpired(list: seq<Section>, pts: Uint64, delta: Uint64, pid: nat): seq<Section> {
    if list == [] then []
    else
      var s := list[|list| - 1];
      Unexpired(list[..|list| - 1], pts, delta, pid) + if Expired(s, pts, delta, pid) then [] else [s]
  }

  /** And what is remembered. */
  function RetireExpired(m: map<nat, nat>, list: seq<Section>, pts: Uint64, delta: Uint64, pid: nat): map<nat, nat> {
    if list == [] then m
    else
      var s := list[|list| - 1];
      var before := RetireExpired(m, list[..|list| - 1], pts, delta, pid);
      if Expired(s, pts, delta, pid) then Retire(before, s) else before
  }

  /** checkEBPAgainstSCTE35Points: the first section that the boundary matches. */
  function FirstMatch(list: seq<Section>, pts: Uint64, delta: Uint64, pid: nat): (i: nat)
    ensures i <= |list|
    ensures i < |list| ==> Matches(list[i], pts, delta, pid)
    ensures forall j :: 0 <= j < i ==> !Matches(list[j], pts, delta, pid)
  {
    if list == [] || Matches(list[0], pts, delta, pid) then 0 else 1 + FirstMatch(list[1..], pts, delta, pid)
  }

  /** pruneOldSCTE35Map */
  function Pruned(m: map<nat, nat>, currentPts: nat, timeToLive: nat): map<nat, nat> {
    map id | id in m && currentPts <= m[id] + timeToLive :: m[id]
  }

  lemma {:induction false} UnexpiredAre(list: seq<Section>, pts: Uint64, delta: Uint64, pid: nat)
    ensures forall s :: s in Unexpired(list, pts, delta, pid) <==> s in list && !Expired(s, pts, delta, pid)
    ensures |Unexpired(list, pts, delta, pid)| == |list| <==> forall s :: s in list ==> !Expired(s, pts, delta, pid)
    ensures |Unexpired(list, pts, delta, pid)| <= |list|
  {
    if list != [] {
      var before, s := list[..|list| - 1], list[|list| - 1];
      UnexpiredAre(before, pts, delta, pid);
      assert list == before + [s];
    }
  }

  // ---------------------------------------------------------------- what leaves is remembered

  lemma {:induction false} RetiredStays(
    m: map<nat, nat>, list: seq<Section>, pts: Uint64, delta: Uint64, pid: nat, id: nat)
    requires id in m
    ensures id in RetireExpired(m, list, pts, delta, pid) && RetireExpired(m, list, pts, delta, pid)[id] == m[id]
  {
    if list != [] {
      RetiredStays(m, list[..|list| - 1], pts, delta, pid, id);
    }
  }

  /** An event with fewer entries after the check than before is among the retired. */
  lemma {:induction false} ExpiredIsRetired(
    m: map<nat, nat>, list: seq<Section>, pts: Uint64, delta: Uint64, pid: nat, id: nat)
    ensures Entries(Unexpired(list, pts, delta, pid), id) <= Entries(list, id)
    ensures Entries(Unexpired(list, pts, delta, pid), id) < Entries(list, id) ==>
              id in RetireExpired(m, list, pts, delta, pid)
  {
    if list != [] {
      var before, s := list[..|list| - 1], list[|list| - 1];
      ExpiredIsRetired(m, before, pts, delta, pid, id);
      assert list == before + [s];
      EntriesOfSum(before, [s], id);
      if Expired(s, pts, delta, pid) {
        EntriesOfSum(Unexpired(before, pts, delta, pid), [], id);
      } else {
        EntriesOfSum(Unexpired(before, pts, delta, pid), [s], id);
      }
    }
  }

  // ---------------------------------------------------------------- runs

  /** The lists of a thread, each with the stream it belongs to, and the retired events. */
  datatype State = State(lists: seq<seq<Section>>, pids: seq<nat>, retired: map<nat, nat>)

  /** Of a section that arrives every list stores copies of its own. */
  datatype Event =
    | Arrive(s: Section, copy: nat -> nat -> Section)
    | Expire(l: nat, pts: Uint64, delta: Uint64)
    | Match(l: nat, pts: Uint64, delta: Uint64)
    | Prune(currentPts: nat)

  /** A section that arrives comes from the parser; the other events concern a list that there is. */
  ghost predicate Applies(st: State, e: Event) {
    && |st.lists| == |st.pids|
    && match e
       case Arrive(s, copy) => Parsed(s) && forall l :: AreCopies(copy(l), s)
       case Expire(l, _, _) => l < |st.lists|
       case Match(l, _, _) => l < |st.lists|
       case Prune(_) => true
  }

  ghost function Step(st: State, e: Event, timeToLive: nat): (r: State)
    requires Applies(st, e)
    ensures |r.lists| == |st.lists| && r.pids == st.pids
  {
    match e
    case Arrive(s, copy) => st.(lists := Dispatched(st.lists, st.pids, s, copy))
    case Expire(l, pts, delta) =>
      st.(lists := st.lists[l := Unexpired(st.lists[l], pts, delta, st.pids[l])],
          retired := RetireExpired(st.retired, st.lists[l], pts, delta, st.pids[l]))
    case Match(l, pts, delta) =>
      var i := FirstMatch(st.lists[l], pts, delta, st.pids[l]);
      if i == |st.lists[l]| then st
      else st.(lists := st.lists[l := RemoveAt(st.lists[l], i)], retired := Retire(st.retired, st.lists[l][i]))
    case Prune(currentPts) => st.(retired := Pruned(st.retired, currentPts, timeToLive))
  }

  ghost predicate AllApply(st: State, es: seq<Event>) {
    |st.lists| == |st.pids| && forall i :: 0 <= i < |es| ==> Applies(st, es[i])
  }

  ghost function Run(st: State, es: seq<Event>, timeToLive: nat): (r: State)
    requires AllApply(st, es)
    ensures |r.lists| == |st.lists| && r.pids == st.pids
    decreases |es|
  {
    if es == [] then st else Run(Step(st, es[0], timeToLive), es[1..], timeToLive)
  }

  // ---------------------------------------------------------------- one entry per event, in every run

  ghost predicate AllOnce(st: State) {
    forall l :: 0 <= l < |st.lists| ==> OncePerEvent(st.lists[l])
  }

  /** No step gives an event a second entry in a list, and what leaves a list is retired. */
  lemma StepEntries(st: State, e: Event, timeToLive: nat, l: nat, id: nat)
    requires Applies(st, e) && l < |st.lists|
    ensures var before, after := Entries(st.lists[l], id), Entries(Step(st, e, timeToLive).lists[l], id);
            && (after <= before || after == 1)
            && (after < before ==> id in Step(st, e, timeToLive).retired)
  {
    match e
    case Arrive(s, copy) =>
      DispatchedAt(st.lists, st.pids, s, copy, l);
      AddedTimesEntries(st.lists[l], s, copy(l), Admissions(s, st.pids[l]), id);
      if s.command.SpliceInsert? && s.command.cancel {
        CancellationNotAdmitted(s, st.pids[l]);
      }
    case Expire(m, pts, delta) =>
      if m == l {
        ExpiredIsRetired(st.retired, st.lists[l], pts, delta, st.pids[l], id);
      }
    case Match(m, pts, delta) =>
      var i := FirstMatch(st.lists[m], pts, delta, st.pids[m]);
      if m == l && i < |st.lists[l]| {
        RemovedEntry(st.lists[l], i, id);
      }
    case Prune(_) =>
  }

  lemma RemovedEntry(list: seq<Section>, i: nat, id: nat)
    requires i < |list|
    ensures Entries(RemoveAt(list, i), id) == Entries(list, id) - if IsEvent(list[i], id) then 1 else 0
  {
    EntriesSplit(list, i, [], id);
    assert RemoveAt(list, i) == list[..i] + [] + list[i + 1..];
  }

  /** Arrivals, matches, expiries and prunes in any order: an event has at most one entry in a list. */
  lemma {:induction false} RunsKeepOnce(st: State, es: seq<Event>, timeToLive: nat)
    requires AllApply(st, es) && AllOnce(st)
    ensures AllOnce(Run(st, es, timeToLive))
    decreases |es|
  {
    if es != [] {
      var next := Step(st, es[0], timeToLive);
      forall l | 0 <= l < |next.lists|
        ensures OncePerEvent(next.lists[l])
      {
        forall id
          ensures Entries(next.lists[l], id) <= 1
        {
          assert OncePerEvent(st.lists[l]);
          StepEntries(st, es[0], timeToLive, l, id);
        }
      }
      RunsKeepOnce(next, es[1..], timeToLive);
    }
  }

  // ---------------------------------------------------------------- the time that an event is retired with

  /** A match takes the first section in the window from its list and no other, and retires its event. */
  lemma MatchTakesFirst(st: State, l: nat, pts: Uint64, delta: Uint64, timeToLive: nat, i: nat)
    requires Applies(st, Match(l, pts, delta)) && i < |st.lists[l]| && Matches(st.lists[l][i], pts, delta, st.pids[l])
    requires forall k :: 0 <= k < i ==> !Matches(st.lists[l][k], pts, delta, st.pids[l])
    ensures var s, next := st.lists[l][i], Step(st, Match(l, pts, delta), timeToLive);
            && next.lists == st.lists[l := st.lists[l][..i] + st.lists[l][i + 1..]]
            && (!s.command.SpliceInsert? || s.command.eventId in st.retired ==> next.retired == st.retired)
            && (s.command.SpliceInsert? && s.command.eventId !in st.retired ==>
                  exists t: nat :: IsLatest(s, t) && next.retired == st.retired[s.command.eventId := t])
  {
    var s := st.lists[l][i];
    assert FirstMatch(st.lists[l], pts, delta, st.pids[l]) == i;
    if s.command.SpliceInsert? {
      LatestPtsIs(s);
    }
  }

  /** A splice of the whole program is retired with its adjusted time. */
  lemma MatchRetiresProgram(st: State, l: nat, pts: Uint64, delta: Uint64, timeToLive: nat, i: nat, t: Time33)
    requires Applies(st, Match(l, pts, delta)) && i < |st.lists[l]| && Matches(st.lists[l][i], pts, delta, st.pids[l])
    requires forall k :: 0 <= k < i ==> !Matches(st.lists[l][k], pts, delta, st.pids[l])
    requires st.lists[l][i].command.SpliceInsert? && st.lists[l][i].command.programSplice
    requires st.lists[l][i].command.spliceTime == Some(SpliceTime(true, t))
    requires st.lists[l][i].command.eventId !in st.retired
    ensures Step(st, Match(l, pts, delta), timeToLive).retired ==
            st.retired[st.lists[l][i].command.eventId := t + st.lists[l][i].ptsAdjustment]
  {
    MatchTakesFirst(st, l, pts, delta, timeToLive, i);
  }

  /** The first of the expired entries of an event decides its time. */
  lemma {:induction false} RetiredWith(
    m: map<nat, nat>, list: seq<Section>, pts: Uint64, delta: Uint64, pid: nat, id: nat, i: nat)
    requires id !in m && i < |list| && IsEvent(list[i], id) && Expired(list[i], pts, delta, pid)
    requires forall k :: 0 <= k < i ==> !(IsEvent(list[k], id) && Expired(list[k], pts, delta, pid))
    ensures id in RetireExpired(m, list, pts, delta, pid)
    ensures IsLatest(list[i], RetireExpired(m, list, pts, delta, pid)[id])
  {
    var n := |list| - 1;
    if i < n {
      RetiredWith(m, list[..n], pts, delta, pid, id, i);
    } else {
      NotRetired(m, list[..n], pts, delta, pid, id);
      LatestPtsIs(list[i]);
    }
  }

  lemma {:induction false} NotRetired(
    m: map<nat, nat>, list: seq<Section>, pts: Uint64, delta: Uint64, pid: nat, id: nat)
    requires id !in m
    requires forall k :: 0 <= k < |list| ==> !(IsEvent(list[k], id) && Expired(list[k], pts, delta, pid))
    ensures id !in RetireExpired(m, list, pts, delta, pid)
  {
    if list != [] {
      NotRetired(m, list[..|list| - 1], pts, delta, pid, id);
    }
  }

  /** An event that expires is retired with the time of its first expired entry; no other event is retired. */
  lemma ExpireRetires(st: State, l: nat, pts: Uint64, delta: Uint64, timeToLive: nat, id: nat, i: nat)
    requires Applies(st, Expire(l, pts, delta)) && id !in st.retired
    ensures var list, pid, next := st.lists[l], st.pids[l], Step(st, Expire(l, pts, delta), timeToLive);
            && (i < |list| && IsEvent(list[i], id) && Expired(list[i], pts, delta, pid) &&
                (forall k :: 0 <= k < i ==> !(IsEvent(list[k], id) && Expired(list[k], pts, delta, pid))) ==>
                  id in next.retired && IsLatest(list[i], next.retired[id]))
            && ((forall k :: 0 <= k < |list| ==> !(IsEvent(list[k], id) && Expired(list[k], pts, delta, pid))) ==>
                  id !in next.retired)
  {
    var list, pid := st.lists[l], st.pids[l];
    if i < |list| && IsEvent(list[i], id) && Expired(list[i], pts, delta, pid) &&
       (forall k :: 0 <= k < i ==> !(IsEvent(list[k], id) && Expired(list[k], pts, delta, pid))) {
      RetiredWith(st.retired, list, pts, delta, pid, id, i);
    }
    if forall k :: 0 <= k < |list| ==> !(IsEvent(list[k], id) && Expired(list[k], pts, delta, pid)) {
      NotRetired(st.retired, list, pts, delta, pid, id);
    }
  }

  // ---------------------------------------------------------------- how long an event is remembered

  /** The step is a prune after the event's time to live. */
  ghost predicate Forgets(st: State, e: Event, timeToLive: nat, id: nat) {
    e.Prune? && id in st.retired && e.currentPts > st.retired[id] + timeToLive
  }

  ghost predicate NeverForgets(st: State, es: seq<Event>, timeToLive: nat, id: nat)
    requires AllApply(st, es)
    decreases |es|
  {
    es == [] || (!Forgets(st, es[0], timeToLive, id) &&
                 NeverForgets(Step(st, es[0], timeToLive), es[1..], timeToLive, id))
  }

  /** A retired event is gone after a step exactly when the step is such a prune; otherwise its time stays. */
  lemma StepRemembersIff(st: State, e: Event, timeToLive: nat, id: nat)
    requires Applies(st, e) && id in st.retired
    ensures id in Step(st, e, timeToLive).retired <==> !Forgets(st, e, timeToLive, id)
    ensures id in Step(st, e, timeToLive).retired ==> Step(st, e, timeToLive).retired[id] == st.retired[id]
  {
    if e.Expire? {
      RetiredStays(st.retired, st.lists[e.l], e.pts, e.delta, st.pids[e.l], id);
    }
  }

  /** Until a prune beyond its time to live a retired event stays retired, with the time it was retired with. */
  lemma {:induction false} RetiredUntilPruned(st: State, es: seq<Event>, timeToLive: nat, id: nat)
    requires AllApply(st, es) && id in st.retired
    requires forall i :: 0 <= i < |es| && es[i].Prune? ==> es[i].currentPts <= st.retired[id] + timeToLive
    ensures id in Run(st, es, timeToLive).retired && Run(st, es, timeToLive).retired[id] == st.retired[id]
    decreases |es|
  {
    if es != [] {
      StepRemembersIff(st, es[0], timeToLive, id);
      RetiredUntilPruned(Step(st, es[0], timeToLive), es[1..], timeToLive, id);
    }
  }

  /**
    So an event that a match takes from a list is remembered, with the time that belongs to its splice, until a prune
    that comes later than its time to live after that time.
  */
  lemma MatchedUntilPruned(
    st: State, l: nat, pts: Uint64, delta: Uint64, es: seq<Event>, timeToLive: nat, i: nat, t: nat)
    requires Applies(st, Match(l, pts, delta)) && i < |st.lists[l]| && Matches(st.lists[l][i], pts, delta, st.pids[l])
    requires forall k :: 0 <= k < i ==> !Matches(st.lists[l][k], pts, delta, st.pids[l])
    requires st.lists[l][i].command.SpliceInsert? && IsLatest(st.lists[l][i], t)
    requires st.lists[l][i].command.eventId !in st.retired
    requires AllApply(Step(st, Match(l, pts, delta), timeToLive), es)
    requires forall k :: 0 <= k < |es| && es[k].Prune? ==> es[k].currentPts <= t + timeToLive
    ensures var id := st.lists[l][i].command.eventId;
            var last := Run(Step(st, Match(l, pts, delta), timeToLive), es, timeToLive);
            id in last.retired && last.retired[id] == t
  {
    var s := st.lists[l][i];
    MatchTakesFirst(st, l, pts, delta, timeToLive, i);
    LatestPtsIs(s);
    RetiredUntilPruned(Step(st, Match(l, pts, delta), timeToLive), es, timeToLive, s.command.eventId);
  }

  /** And so is one that expires. */
  lemma ExpiredUntilPruned(
    st: State, l: nat, pts: Uint64, delta: Uint64, es: seq<Event>, timeToLive: nat, id: nat, i: nat, t: nat)
    requires Applies(st, Expire(l, pts, delta)) && id !in st.retired
    requires i < |st.lists[l]| && IsEvent(st.lists[l][i], id) && Expired(st.lists[l][i], pts, delta, st.pids[l])
    requires forall k :: 0 <= k < i ==>
               !(IsEvent(st.lists[l][k], id) && Expired(st.lists[l][k], pts, delta, st.pids[l]))
    requires IsLatest(st.lists[l][i], t) && AllApply(Step(st, Expire(l, pts, delta), timeToLive), es)
    requires forall k :: 0 <= k < |es| && es[k].Prune? ==> es[k].currentPts <= t + timeToLive
    ensures var last := Run(Step(st, Expire(l, pts, delta), timeToLive), es, timeToLive);
            id in last.retired && last.retired[id] == t
  {
    ExpireRetires(st, l, pts, delta, timeToLive, id, i);
    LatestPtsIs(st.lists[l][i]);
    RetiredUntilPruned(Step(st, Expire(l, pts, delta), timeToLive), es, timeToLive, id);
  }

  /** An event leaves a list only into the table of retired events; no cancellation takes it out. */
  lemma StepLeaves(st: State, e: Event, timeToLive: nat, l: nat, id: nat)
    requires Applies(st, e) && l < |st.lists| && Entries(st.lists[l], id) > 0
    ensures Entries(Step(st, e, timeToLive).lists[l], id) > 0 || id in Step(st, e, timeToLive).retired
  {
    StepEntries(st, e, timeToLive, l, id);
  }

  /**
    In every run an event that was in a list, and was not forgotten by a late prune, is at the end still in the list
    or among the retired: none disappears silently, and none by being cancelled.
  */
  lemma {:induction false} NoneDisappears(st: State, es: seq<Event>, timeToLive: nat, l: nat, id: nat)
    requires AllApply(st, es) && l < |st.lists| && (Entries(st.lists[l], id) > 0 || id in st.retired)
    requires NeverForgets(st, es, timeToLive, id)
    ensures Entries(Run(st, es, timeToLive).lists[l], id) > 0 || id in Run(st, es, timeToLive).retired
    decreases |es|
  {
    if es != [] {
      var next := Step(st, es[0], timeToLive);
      if id in st.retired {
        StepRemembersIff(st, es[0], timeToLive, id);
      } else {
        StepLeaves(st, es[0], timeToLive, l, id);
      }
      NoneDisappears(next, es[1..], timeToLive, l, id);
    }
  }

  /** So an event whose cancellation arrives is waited for as before it. */
  lemma CancelledIsWaitedFor(st: State, s: Section, copy: nat -> nat -> Section, timeToLive: nat)
    requires Applies(st, Arrive(s, copy)) && s.command.SpliceInsert? && s.command.cancel
    ensures Step(st, Arrive(s, copy), timeToLive) == st
  {
    CancellationIgnored(st.lists, st.pids, s, copy);
  }

  ghost predicate NoneCancelled(st: State) {
    forall l :: 0 <= l < |st.lists| ==> NoCancellation(st.lists[l])
  }

  lemma StepKeepsNoneCancelled(st: State, e: Event, timeToLive: nat, l: nat)
    requires Applies(st, e) && l < |st.lists| && NoCancellation(st.lists[l])
    ensures NoCancellation(Step(st, e, timeToLive).lists[l])
  {
    match e
    case Arrive(s, copy) =>
      DispatchedAt(st.lists, st.pids, s, copy, l);
      if IsCancellation(s) {
        CancellationNotAdmitted(s, st.pids[l]);
      }
      NoCancellationAdded(st.lists[l], s, copy(l), Admissions(s, st.pids[l]));
    case Expire(m, pts, delta) =>
      UnexpiredAre(st.lists[m], pts, delta, st.pids[m]);
    case Match(m, pts, delta) =>
    case Prune(_) =>
  }

  /** In no run does a list come to hold a cancellation. */
  lemma {:induction false} RunsKeepNoneCancelled(st: State, es: seq<Event>, timeToLive: nat)
    requires AllApply(st, es) && NoneCancelled(st)
    ensures NoneCancelled(Run(st, es, timeToLive))
    decreases |es|
  {
    if es != [] {
      var next := Step(st, es[0], timeToLive);
      forall l | 0 <= l < |next.lists| ensures NoCancellation(next.lists[l]) {
        assert NoCancellation(st.lists[l]);
        StepKeepsNoneCancelled(st, es[0], timeToLive, l);
      }
      RunsKeepNoneCancelled(next, es[1..], timeToLive);
    }
  }
}
