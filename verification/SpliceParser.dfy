/**
  The part of the SCTE-35 parser of atstest/scte35.c that reads a splice_insert, as far as the lists use it. Reserved
  bits are read and dropped.
*/
module SpliceParser {
  import opened Options
  import opened Bits
  import opened Words
  import opened BitStream
  import opened SpliceSections

  // ---------------------------------------------------------------- what is read, and where reading stops

  lemma NumberFits33(s: Stream)
    ensures s.Number(33) < TWO_33
  {
    Pow2Of32();
    NumberBound(s, 33);
  }

  lemma BitFits(s: Stream)
    ensures s.Number(1) <= 1 && Low32(s.Number(1)) == s.Number(1)
  {
    NumberBound(s, 1);
    NumberFits32(s, 1);
  }

  function TimeAt(s: Stream): (SpliceTime, Stream) {
    var t := s.Advance(1);
    if s.Number(1) == 0 then (SpliceTime(false, 0), t.Advance(7))
    else
      NumberFits33(t.Advance(6));
      (SpliceTime(true, t.Advance(6).Number(33)), t.Advance(6).Advance(33))
  }

  /** `timed` says whether the component has a time. */
  function ComponentAt(s: Stream, timed: bool): (Component, Stream) {
    var tag, t := s.Number(8), s.Advance(8);
    if timed then (Component(tag, Some(TimeAt(t).0)), TimeAt(t).1) else (Component(tag, None), t)
  }

  function ComponentsAt(s: Stream, n: nat, timed: bool): (seq<Component>, Stream) {
    if n == 0 then ([], s)
    else
      var (before, t) := ComponentsAt(s, n - 1, timed);
      var (c, u) := ComponentAt(t, timed);
      (before + [c], u)
  }

  /** A list of no components is not made. */
  function ComponentListAt(s: Stream, timed: bool): Option<seq<Component>> {
    if s.Number(8) == 0 then None else Some(ComponentsAt(s.Advance(8), s.Number(8), timed).0)
  }

  /** The flags of a splice_insert that the lists depend on, and what follows all of its flags. */
  datatype Flags = Flags(programSplice: bool, immediate: bool, rest: Stream)

  function FlagsAt(s: Stream): Flags {
    var t := s.Advance(1);
    var u := t.Advance(1).Advance(1);
    Flags(t.Number(1) != 0, u.Number(1) != 0, u.Advance(1).Advance(4))
  }

  /** In the components a time is read when the splice is immediate. */
  function SpliceInsertAt(s: Stream): Command {
    var eventId, t := s.Number(32), s.Advance(32);
    if t.Number(1) != 0 then SpliceInsert(eventId, true, false, None, None)
    else
      var f := FlagsAt(t.Advance(1).Advance(7));
      if f.programSplice then
        SpliceInsert(eventId, false, true, if f.immediate then None else Some(TimeAt(f.rest).0), None)
      else
        SpliceInsert(eventId, false, false, None, ComponentListAt(f.rest, f.immediate))
  }

  lemma {:induction false} ComponentsAtParsed(s: Stream, n: nat, timed: bool)
    ensures var cs := ComponentsAt(s, n, timed).0;
            |cs| == n && forall i :: 0 <= i < n ==> ComponentParsed(cs[i]) && cs[i].spliceTime.Some? == timed
  {
    if n > 0 {
      ComponentsAtParsed(s, n - 1, timed);
    }
  }

  /** Whatever the bits are, the section has the shape that the lists rely on. */
  lemma SpliceInsertAtParsed(s: Stream, ptsAdjustment: Time33)
    ensures Parsed(Section(ptsAdjustment, SpliceInsertAt(s)))
  {
    var f := FlagsAt(s.Advance(32).Advance(1).Advance(7));
    ComponentsAtParsed(f.rest.Advance(8), f.rest.Number(8), f.immediate);
  }

  // ---------------------------------------------------------------- the parser

  /** scte35_parse_splice_time */
  method ParseSpliceTime(b: BitStream) returns (t: SpliceTime)
    requires b.Valid()
    modifies b`p, b`bitsLeft
    ensures b.Valid() && (t, b.Abs()) == TimeAt(old(b.Abs()))
  {
    BitFits(b.Abs());
    var timeSpecified := b.ReadU(1);
    if timeSpecified != 0 {
      var _ := b.ReadU(6);
      NumberFits33(b.Abs());
      var ptsTime := b.ReadUll(33);
      return SpliceTime(true, ptsTime);
    } else {
      var _ := b.ReadU(7);
      return SpliceTime(false, 0);
    }
  }

  /** scte35_parse_splice_insert_component */
  method ParseComponent(b: BitStream, spliceImmediate: bool) returns (c: Component)
    requires b.Valid()
    modifies b`p, b`bitsLeft
    ensures b.Valid() && (c, b.Abs()) == ComponentAt(old(b.Abs()), spliceImmediate)
  {
    NumberFits32(b.Abs(), 8);
    var tag := b.ReadU(8);
    if spliceImmediate {
      var t := ParseSpliceTime(b);
      return Component(tag, Some(t));
    }
    return Component(tag, None);
  }

  /** The turn of the loop of scte35_parse_splice_insert after `n` components. */
  method ParseNext(b: BitStream, spliceImmediate: bool, ghost s: Stream, ghost n: nat, cs: seq<Component>)
    returns (r: seq<Component>)
    requires b.Valid() && (cs, b.Abs()) == ComponentsAt(s, n, spliceImmediate)
    modifies b`p, b`bitsLeft
    ensures b.Valid() && (r, b.Abs()) == ComponentsAt(s, n + 1, spliceImmediate)
  {
    var c := ParseComponent(b, spliceImmediate);
    r := cs + [c];
  }

  /** The components of scte35_parse_splice_insert. */
  method ParseComponents(b: BitStream, spliceImmediate: bool) returns (r: Option<seq<Component>>)
    requires b.Valid()
    modifies b`p, b`bitsLeft
    ensures b.Valid() && r == ComponentListAt(old(b.Abs()), spliceImmediate)
  {
    var componentCount := b.ReadU8();
    if componentCount == 0 {
      return None;
    }
    ghost var s := b.Abs();
    var cs: seq<Component> := [];
    for i := 0 to componentCount
      invariant b.Valid() && (cs, b.Abs()) == ComponentsAt(s, i, spliceImmediate)
    {
      cs := ParseNext(b, spliceImmediate, s, i, cs);
    }
    return Some(cs);
  }

  /** The flags of scte35_parse_splice_insert. */
  method ParseFlags(b: BitStream) returns (programSplice: nat, spliceImmediate: nat)
    requires b.Valid()
    modifies b`p, b`bitsLeft
    ensures b.Valid() && programSplice <= 1
    ensures Flags(programSplice != 0, spliceImmediate != 0, b.Abs()) == FlagsAt(old(b.Abs()))
  {
    var _ := b.ReadU(1);
    BitFits(b.Abs());
    programSplice := b.ReadU(1);
    var _ := b.ReadU(1);
    BitFits(b.Abs());
    spliceImmediate := b.ReadU(1);
    var _ := b.ReadU(4);
  }

  /** scte35_parse_splice_insert, as far as the lists use it. */
  method ParseSpliceInsert(b: BitStream, ptsAdjustment: Time33) returns (s: Section)
    requires b.Valid()
    modifies b`p, b`bitsLeft
    ensures b.Valid() && s == Section(ptsAdjustment, SpliceInsertAt(old(b.Abs()))) && Parsed(s)
  {
    SpliceInsertAtParsed(b.Abs(), ptsAdjustment);
    var eventId := b.ReadUN(4);
    BitFits(b.Abs());
    var cancel := b.ReadU(1);
    var _ := b.ReadU(7);
    if cancel != 0 {
      return Section(ptsAdjustment, SpliceInsert(eventId, true, false, None, None));
    }
    var programSplice, spliceImmediate := ParseFlags(b);
    var spliceTime, components := None, None;
    if programSplice == 1 && spliceImmediate == 0 {
      var t := ParseSpliceTime(b);
      spliceTime := Some(t);
    }
    if programSplice == 0 {
      components := ParseComponents(b, spliceImmediate != 0);
    }
    return Section(ptsAdjustment, SpliceInsert(eventId, false, programSplice != 0, spliceTime, components));
  }
}
