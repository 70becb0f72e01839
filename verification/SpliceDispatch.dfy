/**
  Which sections validate_ts_packet of atstest/EBPIngestThreadCommon.c passes on to the lists of an elementary stream.
*/
module SpliceDispatch {
  import opened SpliceSections
  import opened SpliceList

  /** A component that has a time and names the stream passes the whole section on. */
  predicate PassesOn(c: Component, pid: nat) {
    c.spliceTime.Some? && c.spliceTime.value.ptsTime != 0 && c.tag == pid
  }

  function PassingOn(cs: seq<Component>, pid: nat): nat {
    if cs == [] then 0 else PassingOn(cs[..|cs| - 1], pid) + if PassesOn(cs[|cs| - 1], pid) then 1 else 0
  }

  /** How often a section is added to each list of the stream `pid`. */
  function Admissions(s: Section, pid: nat): nat {
    match s.command
    case SpliceInsert(_, _, programSplice, _, components) =>
      if programSplice then (if ProgramPts(s) != 0 then 1 else 0)
      else if components.None? then 0
      else PassingOn(components.value, pid)
    case TimeSignal(time) => if time.timeSpecified && time.ptsTime + s.ptsAdjustment != 0 then 1 else 0
    case Other => 0
  }

  /** The places of the components that have a time and name the stream. */
  ghost function Naming(cs: seq<Component>, pid: nat): set<nat> {
    set i: nat | i < |cs| && Timed(cs[i]) && cs[i].tag == pid
  }

  lemma NamingLast(cs: seq<Component>, pid: nat)
    requires cs != []
    ensures var n := |cs| - 1;
            Naming(cs, pid) == Naming(cs[..n], pid) + if Timed(cs[n]) && cs[n].tag == pid then {n} else {}
  {
    var n := |cs| - 1;
    forall i: nat | i < n ensures i in Naming(cs, pid) <==> i in Naming(cs[..n], pid) {
      assert cs[..n][i] == cs[i];
    }
  }

  lemma {:induction false} PassingOnCounts(cs: seq<Component>, pid: nat)
    ensures PassingOn(cs, pid) == |Naming(cs, pid)|
  {
    if cs != [] {
      var n := |cs| - 1;
      PassingOnCounts(cs[..n], pid);
      NamingLast(cs, pid);
      assert n !in Naming(cs[..n], pid);
    }
  }

  /**
    How often a section is added, in terms of its fields: a splice of the whole program and a time signal once if their
    adjusted time is not 0, any other splice once for each component that names the stream and has a time.
  */
  lemma AdmissionsAre(s: Section, pid: nat)
    ensures Admissions(s, pid) ==
            match s.command
            case SpliceInsert(_, _, true, Some(SpliceTime(true, t)), _) => if t + s.ptsAdjustment != 0 then 1 else 0
            case SpliceInsert(_, _, true, _, _) => 0
            case SpliceInsert(_, _, false, _, None) => 0
            case SpliceInsert(_, _, false, _, Some(cs)) => |Naming(cs, pid)|
            case TimeSignal(SpliceTime(true, t)) => if t + s.ptsAdjustment != 0 then 1 else 0
            case TimeSignal(_) => 0
            case Other => 0
  {
    if s.command.SpliceInsert? && s.command.components.Some? {
      PassingOnCounts(s.command.components.value, pid);
    }
  }

  /** The tests and the loop of validate_ts_packet. */
  method CountAdmissions(s: Section, pid: nat) returns (n: nat)
    ensures n == Admissions(s, pid)
  {
    n := 0;
    if s.command.SpliceInsert? {
      if s.command.programSplice {
        if ProgramPts(s) != 0 {
          n := 1;
        }
      } else if s.command.components.Some? {
        var cs := s.command.components.value;
        for i := 0 to |cs|
          invariant n == PassingOn(cs[..i], pid)
        {
          assert cs[..i + 1][..i] == cs[..i];
          var c := cs[i];
          if c.spliceTime.Some? && c.spliceTime.value.ptsTime != 0 {
            if pid == c.tag {
              n := n + 1;
            }
          }
        }
        assert cs[..|cs|] == cs;
      }
    }
    if s.command.TimeSignal? && s.command.time.timeSpecified {
      if s.command.time.ptsTime + s.ptsAdjustment != 0 {
        n := 1;
      }
    }
  }

  lemma {:induction false} PassingOnIff(cs: seq<Component>, pid: nat)
    requires forall i :: 0 <= i < |cs| ==> ComponentParsed(cs[i])
    ensures PassingOn(cs, pid) > 0 <==> exists c :: c in cs && PassesOn(c, pid)
  {
    if cs != [] {
      PassingOnIff(cs[..|cs| - 1], pid);
      assert cs == cs[..|cs| - 1] + [cs[|cs| - 1]];
    }
  }

  lemma {:induction false} ComponentPtsIff(cs: seq<Component>, pid: nat)
    requires forall i :: 0 <= i < |cs| ==> ComponentParsed(cs[i])
    ensures ComponentPts(cs, pid) != 0 <==> exists c :: c in cs && PassesOn(c, pid)
  {
    if cs != [] {
      assert ComponentParsed(cs[0]);
      assert Names(cs[0], pid) == PassesOn(cs[0], pid);
      forall i | 0 <= i < |cs[1..]| ensures ComponentParsed(cs[1..][i]) {
        assert ComponentParsed(cs[i + 1]);
      }
      ComponentPtsIff(cs[1..], pid);
      assert cs == [cs[0]] + cs[1..];
    }
  }

  /**
    A parsed section is admitted to a list exactly when it has a time there other than 0, but for a time signal at 0
    that its adjustment moves away from it: that one is admitted, and waited for at 0.
  */
  lemma AdmittedIff(s: Section, pid: nat)
    requires Parsed(s)
    ensures Admissions(s, pid) > 0 <==>
            SectionPts(s, pid) != 0 ||
            (s.command.TimeSignal? && s.command.time == SpliceTime(true, 0) && s.ptsAdjustment != 0)
  {
    if s.command.SpliceInsert? && s.command.components.Some? {
      PassingOnIff(s.command.components.value, pid);
      ComponentPtsIff(s.command.components.value, pid);
    }
  }

  /** Nothing that is admitted is a cancellation: of a cancellation the parser has no time to go by. */
  lemma CancellationNotAdmitted(s: Section, pid: nat)
    requires Parsed(s) && s.command.SpliceInsert? && s.command.cancel
    ensures Admissions(s, pid) == 0
  {
  }

  /** The list of a stream after `n` admissions of a section, each with its own copy. */
  function AddedTimes(list: seq<Section>, s: Section, copy: nat -> Section, n: nat): seq<Section> {
    if n == 0 then list else Added(AddedTimes(list, s, copy, n - 1), s, copy(n - 1))
  }

  /** However often a section is admitted, its event has at most one entry if that was so before. */
  lemma {:induction false} AddedTimesEntries(list: seq<Section>, s: Section, copy: nat -> Section, n: nat, id: nat)
    requires AreCopies(copy, s)
    ensures var before, after := Entries(list, id), Entries(AddedTimes(list, s, copy, n), id);
            && (after <= before || after == 1)
            && (!(IsEvent(s, id) && s.command.cancel) ==> after >= before)
  {
    if n > 0 {
      AddedTimesEntries(list, s, copy, n - 1, id);
      EntriesOfAdded(AddedTimes(list, s, copy, n - 1), s, copy(n - 1), id);
    }
  }

  /** Of two copies stored for an event the second stands in place of the first. */
  lemma AddedTwice(list: seq<Section>, s: Section, c: Section, d: Section)
    requires s.command.SpliceInsert? && !s.command.cancel && IsCopy(c, s)
    ensures Added(Added(list, s, c), s, d) == Added(list, s, d)
  {
    var id := s.command.eventId;
    if exists k :: 0 <= k < |list| && IsEvent(list[k], id) {
      var i := FirstEntryIs(list, id);
      ListedEventAdded(list, s, c, i);
      ListedEventAdded(list, s, d, i);
      ListedEventAdded(list[i := c], s, d, i);
      assert list[i := c][i := d] == list[i := d];
    } else {
      OtherwiseAddedLast(list, s, c);
      OtherwiseAddedLast(list, s, d);
      ListedEventAdded(list + [c], s, d, |list|);
      assert (list + [c])[|list| := d] == list + [d];
    }
  }

  /** So several admissions come to the same as the last of them alone. */
  lemma {:induction false} RepeatedIsLast(list: seq<Section>, s: Section, copy: nat -> Section, n: nat)
    requires s.command.SpliceInsert? && !s.command.cancel && AreCopies(copy, s) && n > 0
    ensures AddedTimes(list, s, copy, n) == Added(list, s, copy(n - 1))
  {
    if n > 1 {
      RepeatedIsLast(list, s, copy, n - 1);
      assert IsCopy(copy(n - 2), s);
      AddedTwice(list, s, copy(n - 2), copy(n - 1));
    }
  }

  ghost predicate IsCancellation(s: Section) {
    s.command.SpliceInsert? && s.command.cancel
  }

  ghost predicate NoCancellation(list: seq<Section>) {
    forall s :: s in list ==> !IsCancellation(s)
  }

  lemma AddedMembers(list: seq<Section>, s: Section, c: Section, t: Section)
    requires t in Added(list, s, c)
    ensures t in list || t == c
  {
    var i := Stop(list, s);
    if !Unspecified(s) && i < |list| {
      assert t in list[..i] || t in Instead(list[i], s, c) || t in list[i + 1..];
    }
  }

  /** Nothing that the dispatch does puts a cancellation into a list. */
  lemma {:induction false} NoCancellationAdded(list: seq<Section>, s: Section, copy: nat -> Section, n: nat)
    requires AreCopies(copy, s) && NoCancellation(list) && (IsCancellation(s) ==> n == 0)
    ensures NoCancellation(AddedTimes(list, s, copy, n))
  {
    if n > 0 {
      NoCancellationAdded(list, s, copy, n - 1);
      forall t | t in AddedTimes(list, s, copy, n) ensures !IsCancellation(t) {
        AddedMembers(AddedTimes(list, s, copy, n - 1), s, copy(n - 1), t);
        assert IsCopy(copy(n - 1), s);
      }
    }
  }

  /** What the lists become when a section arrives; list `l` belongs to the stream `pids[l]`. */
  function Dispatched(lists: seq<seq<Section>>, pids: seq<nat>, s: Section, copy: nat -> nat -> Section)
    : (r: seq<seq<Section>>)
    requires |lists| == |pids|
    ensures |r| == |lists|
  {
    if lists == [] then []
    else
      var n := |lists| - 1;
      Dispatched(lists[..n], pids[..n], s, copy) + [AddedTimes(lists[n], s, copy(n), Admissions(s, pids[n]))]
  }

  lemma {:induction false} DispatchedAt(
    lists: seq<seq<Section>>, pids: seq<nat>, s: Section, copy: nat -> nat -> Section, l: nat)
    requires |lists| == |pids| && l < |lists|
    ensures Dispatched(lists, pids, s, copy)[l] == AddedTimes(lists[l], s, copy(l), Admissions(s, pids[l]))
  {
    var n := |lists| - 1;
    if l < n {
      DispatchedAt(lists[..n], pids[..n], s, copy, l);
    }
  }

  /** The arrival of a parsed section adds it once to every list that it is admitted to, and leaves the others alone. */
  lemma ArrivalAddsOnce(lists: seq<seq<Section>>, pids: seq<nat>, s: Section, copy: nat -> nat -> Section, l: nat)
    requires |lists| == |pids| && l < |lists| && Parsed(s) && AreCopies(copy(l), s)
    ensures var n := Admissions(s, pids[l]);
            Dispatched(lists, pids, s, copy)[l] == if n == 0 then lists[l] else Added(lists[l], s, copy(l)(n - 1))
  {
    DispatchedAt(lists, pids, s, copy, l);
    var n := Admissions(s, pids[l]);
    if s.command.SpliceInsert? && n > 0 {
      RepeatedIsLast(lists[l], s, copy(l), n);
    } else if n > 0 {
      assert n == 1;
      assert AddedTimes(lists[l], s, copy(l), 0) == lists[l];
    }
  }

  /** A parsed cancellation changes no list: the event it cancels is still waited for. */
  lemma CancellationIgnored(lists: seq<seq<Section>>, pids: seq<nat>, s: Section, copy: nat -> nat -> Section)
    requires |lists| == |pids| && Parsed(s) && s.command.SpliceInsert? && s.command.cancel
    ensures Dispatched(lists, pids, s, copy) == lists
  {
    forall l | 0 <= l < |lists| ensures Dispatched(lists, pids, s, copy)[l] == lists[l] {
      DispatchedAt(lists, pids, s, copy, l);
      CancellationNotAdmitted(s, pids[l]);
    }
  }
}
