/**
  The bits of a splice_insert in the syntax of SCTE 35, written down independently of the parser, and what the parser
  of atstest/scte35.c makes of them.
*/
module SpliceSyntax {
  import opened Bits
  import opened Words
  import opened SpliceSections
  import opened SpliceParser

  // ---------------------------------------------------------------- words

  /**
    A splice_insert with what the model drops: two flags, and the reserved bits, which are everywhere the low bits of
    `reserved`. `timed` says whether the components have times; in the standard they have them when the splice is not
    immediate.
  */
  datatype Insert = Insert(
    command: Command, immediate: bool, timed: bool, outOfNetwork: Bit, duration: Bit, reserved: nat)

  function BitOf(b: bool): Bit {
    if b then 1 else 0
  }

  function TimeWord(t: SpliceTime, reserved: nat): seq<Bit> {
    if t.timeSpecified then BitsOf(1, 1) + (BitsOf(reserved, 6) + BitsOf(t.ptsTime, 33))
    else BitsOf(0, 1) + BitsOf(reserved, 7)
  }

  function ComponentWord(c: Component, reserved: nat): seq<Bit> {
    BitsOf(c.tag, 8) + if c.spliceTime.Some? then TimeWord(c.spliceTime.value, reserved) else []
  }

  function ComponentsWord(cs: seq<Component>, reserved: nat): seq<Bit> {
    if cs == [] then []
    else ComponentsWord(cs[..|cs| - 1], reserved) + ComponentWord(cs[|cs| - 1], reserved)
  }

  function FlagsWord(x: Insert, programSplice: bool): seq<Bit> {
    BitsOf(x.outOfNetwork, 1) + (BitsOf(BitOf(programSplice), 1) +
    (BitsOf(x.duration, 1) + (BitsOf(BitOf(x.immediate), 1) + BitsOf(x.reserved, 4))))
  }

  function BodyWord(x: Insert): seq<Bit>
    requires x.command.SpliceInsert?
  {
    match x.command
    case SpliceInsert(_, cancel, programSplice, spliceTime, components) =>
      if spliceTime.Some? then TimeWord(spliceTime.value, x.reserved)
      else if components.Some? then BitsOf(|components.value|, 8) + ComponentsWord(components.value, x.reserved)
      else if cancel || programSplice then []
      else BitsOf(0, 8)
  }

  function Word(x: Insert): seq<Bit>
    requires x.command.SpliceInsert?
  {
    BitsOf(x.command.eventId, 32) + (BitsOf(BitOf(x.command.cancel), 1) + (BitsOf(x.reserved, 7) +
    (if x.command.cancel then [] else FlagsWord(x, x.command.programSplice) + BodyWord(x))))
  }

  predicate ComponentFits(c: Component, timed: bool) {
    c.tag < 256 && ComponentParsed(c) && c.spliceTime.Some? == timed
  }

  /** What the syntax can express. */
  predicate Expressible(x: Insert) {
    && x.command.SpliceInsert? && x.command.eventId < TWO_32 && Parsed(Section(0, x.command))
    && (x.command.spliceTime.Some? <==> x.command.programSplice && !x.immediate)
    && (x.command.components.Some? ==>
          var cs := x.command.components.value;
          0 < |cs| < 256 && forall i :: 0 <= i < |cs| ==> ComponentFits(cs[i], x.timed))
  }

  // ---------------------------------------------------------------- reading words

  lemma Skipped(s: Stream, w: seq<Bit>, rest: seq<Bit>)
    requires s.StartsWith(w + rest)
    ensures s.Advance(|w|).StartsWith(rest)
  {
    StartsWithSplit(s, w, rest);
  }

  /** A number is read back from its bits, and reading goes on behind them. */
  lemma NumberRead(s: Stream, v: nat, n: nat, rest: seq<Bit>)
    requires v < Pow2(n) && s.StartsWith(BitsOf(v, n) + rest)
    ensures s.Number(n) == v && s.Advance(n).StartsWith(rest)
  {
    StartsWithSplit(s, BitsOf(v, n), rest);
    NumberOfPrefix(s, BitsOf(v, n));
    ValueBitsOfSmall(v, n);
  }

  lemma Pow2Of33()
    ensures Pow2(33) == TWO_33
  {
    Pow2Of32();
  }

  lemma Regroup(x: seq<Bit>, y: seq<Bit>, z: seq<Bit>)
    ensures (x + y) + z == x + (y + z)
  {
  }

  lemma SpecifiedTimeRead(s: Stream, pts: Time33, reserved: nat, rest: seq<Bit>)
    requires s.StartsWith(BitsOf(1, 1) + (BitsOf(reserved, 6) + (BitsOf(pts, 33) + rest)))
    ensures TimeAt(s).0 == SpliceTime(true, pts) && TimeAt(s).1.StartsWith(rest)
  {
    NumberRead(s, 1, 1, BitsOf(reserved, 6) + (BitsOf(pts, 33) + rest));
    Skipped(s.Advance(1), BitsOf(reserved, 6), BitsOf(pts, 33) + rest);
    Pow2Of33();
    NumberRead(s.Advance(1).Advance(6), pts, 33, rest);
  }

  lemma UnspecifiedTimeRead(s: Stream, reserved: nat, rest: seq<Bit>)
    requires s.StartsWith(BitsOf(0, 1) + (BitsOf(reserved, 7) + rest))
    ensures TimeAt(s).0 == SpliceTime(false, 0) && TimeAt(s).1.StartsWith(rest)
  {
    NumberRead(s, 0, 1, BitsOf(reserved, 7) + rest);
    Skipped(s.Advance(1), BitsOf(reserved, 7), rest);
  }

  lemma TimeRead(s: Stream, t: SpliceTime, reserved: nat, rest: seq<Bit>)
    requires Cleared(t) && s.StartsWith(TimeWord(t, reserved) + rest)
    ensures TimeAt(s).0 == t && TimeAt(s).1.StartsWith(rest)
  {
    if t.timeSpecified {
      Regroup(BitsOf(1, 1), BitsOf(reserved, 6) + BitsOf(t.ptsTime, 33), rest);
      Regroup(BitsOf(reserved, 6), BitsOf(t.ptsTime, 33), rest);
      SpecifiedTimeRead(s, t.ptsTime, reserved, rest);
    } else {
      Regroup(BitsOf(0, 1), BitsOf(reserved, 7), rest);
      UnspecifiedTimeRead(s, reserved, rest);
    }
  }

  lemma ComponentRead(s: Stream, c: Component, timed: bool, reserved: nat, rest: seq<Bit>)
    requires ComponentFits(c, timed) && s.StartsWith(ComponentWord(c, reserved) + rest)
    ensures ComponentAt(s, timed).0 == c && ComponentAt(s, timed).1.StartsWith(rest)
  {
    Pow2Of32();
    if timed {
      var time := TimeWord(c.spliceTime.value, reserved);
      Regroup(BitsOf(c.tag, 8), time, rest);
      NumberRead(s, c.tag, 8, time + rest);
      TimeRead(s.Advance(8), c.spliceTime.value, reserved, rest);
    } else {
      assert ComponentWord(c, reserved) == BitsOf(c.tag, 8);
      NumberRead(s, c.tag, 8, rest);
    }
  }

  lemma {:induction false} ComponentsRead(
    s: Stream, cs: seq<Component>, timed: bool, reserved: nat, rest: seq<Bit>)
    requires forall i :: 0 <= i < |cs| ==> ComponentFits(cs[i], timed)
    requires s.StartsWith(ComponentsWord(cs, reserved) + rest)
    ensures ComponentsAt(s, |cs|, timed).0 == cs && ComponentsAt(s, |cs|, timed).1.StartsWith(rest)
  {
    if cs == [] {
      assert ComponentsWord(cs, reserved) + rest == rest;
    } else {
      var n := |cs| - 1;
      var last := ComponentWord(cs[n], reserved);
      assert ComponentsWord(cs, reserved) + rest == ComponentsWord(cs[..n], reserved) + (last + rest);
      ComponentsRead(s, cs[..n], timed, reserved, last + rest);
      ComponentRead(ComponentsAt(s, n, timed).1, cs[n], timed, reserved, rest);
      assert cs == cs[..n] + [cs[n]];
    }
  }

  lemma FlagsRead(s: Stream, x: Insert, programSplice: bool, rest: seq<Bit>)
    requires s.StartsWith(FlagsWord(x, programSplice) + rest)
    ensures FlagsAt(s).programSplice == programSplice && FlagsAt(s).immediate == x.immediate
    ensures FlagsAt(s).rest.StartsWith(rest)
  {
    var r4 := BitsOf(x.reserved, 4) + rest;
    var r3 := BitsOf(BitOf(x.immediate), 1) + r4;
    var r2 := BitsOf(x.duration, 1) + r3;
    var r1 := BitsOf(BitOf(programSplice), 1) + r2;
    assert FlagsWord(x, programSplice) + rest == BitsOf(x.outOfNetwork, 1) + r1;
    Skipped(s, BitsOf(x.outOfNetwork, 1), r1);
    NumberRead(s.Advance(1), BitOf(programSplice), 1, r2);
    Skipped(s.Advance(1).Advance(1), BitsOf(x.duration, 1), r3);
    NumberRead(s.Advance(1).Advance(1).Advance(1), BitOf(x.immediate), 1, r4);
    Skipped(s.Advance(1).Advance(1).Advance(1).Advance(1), BitsOf(x.reserved, 4), rest);
  }

  /** The list of components comes back exactly when the parser looks for their times where they have them. */
  lemma ComponentListReadIff(s: Stream, x: Insert)
    requires Expressible(x) && !x.command.cancel && !x.command.programSplice && s.StartsWith(BodyWord(x))
    ensures ComponentListAt(s, x.immediate) == x.command.components <==>
            x.command.components.None? || x.timed == x.immediate
  {
    Pow2Of32();
    if x.command.components.None? {
      assert BodyWord(x) == BitsOf(0, 8) + [];
      NumberRead(s, 0, 8, []);
    } else {
      var cs := x.command.components.value;
      NumberRead(s, |cs|, 8, ComponentsWord(cs, x.reserved));
      if x.timed == x.immediate {
        assert ComponentsWord(cs, x.reserved) == ComponentsWord(cs, x.reserved) + [];
        ComponentsRead(s.Advance(8), cs, x.timed, x.reserved, []);
      } else {
        ComponentsAtParsed(s.Advance(8), |cs|, x.immediate);
        assert ComponentFits(cs[0], x.timed);
      }
    }
  }

  lemma HeaderRead(s: Stream, x: Insert, rest: seq<Bit>)
    requires x.command.SpliceInsert? && x.command.eventId < TWO_32
    requires s.StartsWith(BitsOf(x.command.eventId, 32) +
                          (BitsOf(BitOf(x.command.cancel), 1) + (BitsOf(x.reserved, 7) + rest)))
    ensures s.Number(32) == x.command.eventId && s.Advance(32).Number(1) == BitOf(x.command.cancel)
    ensures s.Advance(32).Advance(1).Advance(7).StartsWith(rest)
  {
    Pow2Of32();
    NumberRead(s, x.command.eventId, 32, BitsOf(BitOf(x.command.cancel), 1) + (BitsOf(x.reserved, 7) + rest));
    NumberRead(s.Advance(32), BitOf(x.command.cancel), 1, BitsOf(x.reserved, 7) + rest);
    Skipped(s.Advance(32).Advance(1), BitsOf(x.reserved, 7), rest);
  }

  /**
    The parser reads a splice_insert back exactly when it has no components, or they have their times when the splice
    is immediate.
  */
  lemma ParsedBackIff(s: Stream, x: Insert)
    requires Expressible(x) && s.StartsWith(Word(x))
    ensures SpliceInsertAt(s) == x.command <==> x.command.components.None? || x.timed == x.immediate
  {
    if x.command.cancel {
      HeaderRead(s, x, []);
    } else {
      var body := BodyWord(x);
      HeaderRead(s, x, FlagsWord(x, x.command.programSplice) + body);
      var t := s.Advance(32).Advance(1).Advance(7);
      FlagsRead(t, x, x.command.programSplice, body);
      if x.command.spliceTime.Some? {
        assert body == body + [];
        TimeRead(FlagsAt(t).rest, x.command.spliceTime.value, x.reserved, []);
      } else if !x.command.programSplice {
        ComponentListReadIff(FlagsAt(t).rest, x);
      }
    }
  }

  /** In the standard components have times when the splice is not immediate, so no component splice is read back. */
  lemma ComponentsMisread(s: Stream, x: Insert)
    requires Expressible(x) && s.StartsWith(Word(x)) && x.timed == !x.immediate
    ensures SpliceInsertAt(s) == x.command <==> x.command.components.None?
  {
    ParsedBackIff(s, x);
  }
}
