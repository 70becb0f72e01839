/**
  The SCTE-35 splice information sections of atstest/scte35.h, as far as the event lists use them, and the PTS that
  atstest/EBPIngestThreadCommon.c and atstest/scte35.c take from them.
*/
module SpliceSections {
  import opened Options
  import opened Words

  /** The times of a section are parsed from 33 bits, and kept in 64. */
  type Time33 = n: nat | n < TWO_33
  type Uint64 = n: nat | n < TWO_64

  function Add64(a: Uint64, b: Uint64): Uint64 {
    (a + b) % TWO_64
  }

  function Sub64(a: Uint64, b: Uint64): Uint64 {
    (a - b) % TWO_64
  }

  datatype SpliceTime = SpliceTime(timeSpecified: bool, ptsTime: Time33)

  datatype Component = Component(tag: nat, spliceTime: Option<SpliceTime>)

  datatype Command =
    | Other
    | TimeSignal(time: SpliceTime)
    | SpliceInsert(eventId: nat, cancel: bool, programSplice: bool, spliceTime: Option<SpliceTime>,
                   components: Option<seq<Component>>)

  datatype Section = Section(ptsAdjustment: Time33, command: Command)

  // ---------------------------------------------------------------- the shape of what is parsed

  /** A time that is not specified has been left at 0. */
  predicate Cleared(t: SpliceTime) {
    !t.timeSpecified ==> t.ptsTime == 0
  }

  predicate ComponentParsed(c: Component) {
    c.spliceTime.Some? ==> Cleared(c.spliceTime.value)
  }

  /**
    What the parser can hand on. Of a cancellation it reads no more than that it is one; a splice of the whole program
    has a time and no components, and any other has components and no time of its own.
  */
  predicate Parsed(s: Section) {
    match s.command
    case SpliceInsert(_, cancel, programSplice, spliceTime, components) =>
      && (cancel ==> !programSplice && components.None?)
      && (programSplice ==> components.None?)
      && (!programSplice ==> spliceTime.None?)
      && (spliceTime.Some? ==> Cleared(spliceTime.value))
      && (components.Some? ==> forall i :: 0 <= i < |components.value| ==> ComponentParsed(components.value[i]))
    case TimeSignal(time) => Cleared(time)
    case Other => true
  }

  // ---------------------------------------------------------------- the copy of a section

  predicate SameTags(a: Option<seq<Component>>, b: Option<seq<Component>>) {
    && a.Some? == b.Some?
    && (a.Some? ==> |a.value| == |b.value| && forall i :: 0 <= i < |a.value| ==> a.value[i].tag == b.value[i].tag)
  }

  /**
    What scte35_splice_info_section_copy can make of a section. It copies the components through a struct of another
    layout, so that their times can be anything in the copy; the rest is kept.
  */
  predicate IsCopy(c: Section, s: Section) {
    && c.ptsAdjustment == s.ptsAdjustment
    && match s.command
       case SpliceInsert(eventId, cancel, programSplice, spliceTime, components) =>
         && c.command.SpliceInsert? && c.command.eventId == eventId && c.command.cancel == cancel
         && c.command.programSplice == programSplice && c.command.spliceTime == spliceTime
         && SameTags(c.command.components, components)
       case _ => c.command == s.command
  }

  /** The `k`-th copy that is made of a section. */
  ghost predicate AreCopies(copy: nat -> Section, s: Section) {
    forall k :: IsCopy(copy(k), s)
  }

  // ---------------------------------------------------------------- the times of a section

  /** get_splice_insert_PTS: the adjusted time of a program splice, or 0. */
  function ProgramPts(s: Section): Uint64 {
    if s.command.SpliceInsert? && s.command.spliceTime.Some? && s.command.spliceTime.value.timeSpecified then
      s.command.spliceTime.value.ptsTime + s.ptsAdjustment
    else 0
  }

  predicate Names(c: Component, pid: nat) {
    c.spliceTime.Some? && c.spliceTime.value.timeSpecified && c.spliceTime.value.ptsTime != 0 && c.tag == pid
  }

  /** The time of the first component that names the elementary stream `pid`, or 0. */
  function ComponentPts(cs: seq<Component>, pid: nat): Uint64 {
    if cs == [] then 0
    else if Names(cs[0], pid) then cs[0].spliceTime.value.ptsTime
    else ComponentPts(cs[1..], pid)
  }

  /** The time of a section for an elementary stream; only a program splice is adjusted. */
  function SectionPts(s: Section, pid: nat): Uint64 {
    match s.command
    case SpliceInsert(_, _, programSplice, _, components) =>
      if programSplice then ProgramPts(s) else if components.None? then 0 else ComponentPts(components.value, pid)
    case TimeSignal(time) => if time.timeSpecified then time.ptsTime else 0
    case Other => 0
  }

  /** There is a time in the section for an elementary stream. */
  ghost predicate HasTime(s: Section, pid: nat) {
    match s.command
    case SpliceInsert(_, _, programSplice, spliceTime, components) =>
      if programSplice then spliceTime.Some? && spliceTime.value.timeSpecified
      else components.Some? && exists c :: c in components.value && Names(c, pid)
    case TimeSignal(time) => time.timeSpecified
    case Other => false
  }

  /** The time that is meant: whatever the command, pts_adjustment moves it, as SCTE 35 has it. */
  ghost function MeantPts(s: Section, pid: nat): nat {
    if !HasTime(s, pid) then 0
    else
      s.ptsAdjustment +
      match s.command
      case SpliceInsert(_, _, programSplice, spliceTime, components) =>
        if programSplice then spliceTime.value.ptsTime else ComponentPts(components.value, pid)
      case TimeSignal(time) => time.ptsTime
      case Other => 0
  }

  lemma {:induction false} ComponentPtsNamed(cs: seq<Component>, pid: nat)
    ensures ComponentPts(cs, pid) != 0 <==> exists c :: c in cs && Names(c, pid)
  {
    if cs != [] {
      ComponentPtsNamed(cs[1..], pid);
      assert cs == [cs[0]] + cs[1..];
    }
  }

  /**
    The time that a section is waited for is the one that is meant exactly when nothing is adjusted, the splice is for
    the whole program, or there is no time.
  */
  lemma SectionPtsIsMeantIff(s: Section, pid: nat)
    ensures SectionPts(s, pid) == MeantPts(s, pid) <==>
            s.ptsAdjustment == 0 || (s.command.SpliceInsert? && s.command.programSplice) || !HasTime(s, pid)
  {
    if s.command.SpliceInsert? && s.command.components.Some? {
      ComponentPtsNamed(s.command.components.value, pid);
    }
  }

  /** The component at `i` is the first that has a specified time other than 0 for the stream. */
  predicate FirstTimed(cs: seq<Component>, pid: nat, i: nat) {
    && i < |cs|
    && cs[i].tag == pid && cs[i].spliceTime.Some? && cs[i].spliceTime.value.timeSpecified
    && cs[i].spliceTime.value.ptsTime != 0
    && forall k :: 0 <= k < i ==>
         cs[k].tag == pid && cs[k].spliceTime.Some? && cs[k].spliceTime.value.timeSpecified ==>
           cs[k].spliceTime.value.ptsTime == 0
  }

  lemma {:induction false} ComponentPtsIs(cs: seq<Component>, pid: nat, i: nat)
    requires FirstTimed(cs, pid, i)
    ensures ComponentPts(cs, pid) == cs[i].spliceTime.value.ptsTime
  {
    if i > 0 {
      forall k | 0 <= k < i - 1
        ensures cs[1..][k].tag == pid && cs[1..][k].spliceTime.Some? && cs[1..][k].spliceTime.value.timeSpecified ==>
                  cs[1..][k].spliceTime.value.ptsTime == 0
      {
        assert cs[1..][k] == cs[k + 1];
      }
      ComponentPtsIs(cs[1..], pid, i - 1);
    }
  }

  /** The time a section is waited for, in terms of its fields. */
  lemma SectionPtsIs(s: Section, pid: nat, i: nat)
    ensures match s.command
            case SpliceInsert(_, _, true, Some(SpliceTime(true, t)), _) => SectionPts(s, pid) == t + s.ptsAdjustment
            case SpliceInsert(_, _, true, _, _) => SectionPts(s, pid) == 0
            case SpliceInsert(_, _, false, _, Some(cs)) =>
              && (FirstTimed(cs, pid, i) ==> SectionPts(s, pid) == cs[i].spliceTime.value.ptsTime)
              && ((forall k :: 0 <= k < |cs| ==> !FirstTimed(cs, pid, k)) ==> SectionPts(s, pid) == 0)
            case SpliceInsert(_, _, false, _, None) => SectionPts(s, pid) == 0
            case TimeSignal(SpliceTime(true, t)) => SectionPts(s, pid) == t
            case TimeSignal(_) => SectionPts(s, pid) == 0
            case Other => SectionPts(s, pid) == 0
  {
    if s.command.SpliceInsert? && !s.command.programSplice && s.command.components.Some? {
      var cs := s.command.components.value;
      if FirstTimed(cs, pid, i) {
        ComponentPtsIs(cs, pid, i);
      }
      if SectionPts(s, pid) != 0 {
        var k := FirstTimedIs(cs, pid);
      }
    }
  }

  lemma {:induction false} FirstTimedIs(cs: seq<Component>, pid: nat) returns (i: nat)
    requires ComponentPts(cs, pid) != 0
    ensures FirstTimed(cs, pid, i)
  {
    if Names(cs[0], pid) {
      return 0;
    }
    var rest := cs[1..];
    var k := FirstTimedIs(rest, pid);
    i := k + 1;
    assert forall m :: 0 < m < i ==> cs[m] == rest[m - 1];
  }

  lemma {:induction false} ComponentPtsIsSmall(cs: seq<Component>, pid: nat)
    ensures ComponentPts(cs, pid) < TWO_33
  {
    if cs != [] {
      ComponentPtsIsSmall(cs[1..], pid);
    }
  }

  /** No sum of two times of a section overflows 64 bits. */
  lemma SectionPtsIsSmall(s: Section, pid: nat)
    ensures SectionPts(s, pid) < 2 * TWO_33
  {
    if s.command.SpliceInsert? && s.command.components.Some? {
      ComponentPtsIsSmall(s.command.components.value, pid);
    }
  }

  /** getSCTE35PTS */
  method GetScte35Pts(s: Section, pid: nat) returns (pts: Uint64)
    ensures pts == SectionPts(s, pid)
  {
    pts := 0;
    if s.command.SpliceInsert? {
      if s.command.programSplice {
        pts := ProgramPts(s);
      } else if s.command.components.Some? {
        var cs := s.command.components.value;
        for i := 0 to |cs|
          invariant pts == 0 && ComponentPts(cs, pid) == ComponentPts(cs[i..], pid)
        {
          var c := cs[i];
          if c.spliceTime.Some? && c.spliceTime.value.timeSpecified && c.spliceTime.value.ptsTime != 0 && pid == c.tag {
            pts := c.spliceTime.value.ptsTime;
            break;
          }
        }
      }
    } else if s.command.TimeSignal? {
      if s.command.time.timeSpecified {
        pts := s.command.time.ptsTime;
      }
    }
  }

  /** A component counts for the latest time whether or not its time is specified. */
  function AdjustedPts(s: Section, c: Component): Uint64 {
    if c.spliceTime.Some? && c.spliceTime.value.ptsTime != 0 then c.spliceTime.value.ptsTime + s.ptsAdjustment else 0
  }

  /** The latest time of an event in any of its components. */
  function LatestPts(s: Section): Uint64
    requires s.command.SpliceInsert?
  {
    if s.command.programSplice then ProgramPts(s)
    else if s.command.components.None? then 0
    else LatestOf(s, s.command.components.value)
  }

  function LatestOf(s: Section, cs: seq<Component>): Uint64 {
    if cs == [] then 0
    else
      var before := LatestOf(s, cs[..|cs| - 1]);
      if AdjustedPts(s, cs[|cs| - 1]) > before then AdjustedPts(s, cs[|cs| - 1]) else before
  }

  lemma {:induction false} LatestOfIsMaximum(s: Section, cs: seq<Component>)
    ensures forall c :: c in cs ==> AdjustedPts(s, c) <= LatestOf(s, cs)
    ensures LatestOf(s, cs) == 0 || exists c :: c in cs && AdjustedPts(s, c) == LatestOf(s, cs)
  {
    if cs != [] {
      LatestOfIsMaximum(s, cs[..|cs| - 1]);
      assert cs == cs[..|cs| - 1] + [cs[|cs| - 1]];
    }
  }

  /** A component has a time other than 0, specified or not. */
  predicate Timed(c: Component) {
    c.spliceTime.Some? && c.spliceTime.value.ptsTime != 0
  }

  /**
    The time that belongs to a splice when it is retired: the adjusted one of a splice of the whole program, or else
    the latest adjusted one of its components; 0 where there is none.
  */
  ghost predicate IsLatest(s: Section, pts: nat)
    requires s.command.SpliceInsert?
  {
    match s.command
    case SpliceInsert(_, _, true, Some(SpliceTime(true, t)), _) => pts == t + s.ptsAdjustment
    case SpliceInsert(_, _, true, _, _) => pts == 0
    case SpliceInsert(_, _, false, _, None) => pts == 0
    case SpliceInsert(_, _, false, _, Some(cs)) =>
      && (forall c :: c in cs && Timed(c) ==> c.spliceTime.value.ptsTime + s.ptsAdjustment <= pts)
      && (if exists c :: c in cs && Timed(c) then
            exists c :: c in cs && Timed(c) && c.spliceTime.value.ptsTime + s.ptsAdjustment == pts
          else pts == 0)
  }

  lemma LatestPtsIs(s: Section)
    requires s.command.SpliceInsert?
    ensures IsLatest(s, LatestPts(s))
    ensures forall pts: nat :: IsLatest(s, pts) ==> pts == LatestPts(s)
  {
    if !s.command.programSplice && s.command.components.Some? {
      var cs := s.command.components.value;
      LatestOfIsMaximum(s, cs);
      forall c | c in cs && Timed(c) ensures AdjustedPts(s, c) == c.spliceTime.value.ptsTime + s.ptsAdjustment > 0 {
      }
    }
  }

  /** scte35_get_latest_PTS */
  method GetLatestPts(s: Section) returns (newest: Uint64)
    requires s.command.SpliceInsert?
    ensures newest == LatestPts(s)
  {
    newest := 0;
    if s.command.programSplice {
      var pts := ProgramPts(s);
      if pts > newest {
        newest := pts;
      }
    } else if s.command.components.Some? {
      var cs := s.command.components.value;
      for i := 0 to |cs|
        invariant newest == LatestOf(s, cs[..i])
      {
        assert cs[..i + 1][..i] == cs[..i];
        var c := cs[i];
        if c.spliceTime.Some? && c.spliceTime.value.ptsTime != 0 {
          var pts := c.spliceTime.value.ptsTime + s.ptsAdjustment;
          if pts > newest {
            newest := pts;
          }
        }
      }
      assert cs[..|cs|] == cs;
    }
  }
}
