/**
  Emulation prevention of H.264 NAL units (h264bitstream/h264_nal.c, section 7.3.1 of ITU-T H.264).

  `Escape` and `Unescape` say what the two conversion loops compute, as functions of the bytes still to be
  converted and of the number of zero bytes just copied; `RbspToNal` and `NalToRbsp` are the loops themselves.
*/
module EmulationPrevention {

  import opened Options
  import opened Words

  /** The zero-run counter after `b` has been copied while the counter was `count`. */
  function NextCount(count: nat, b: Byte): nat {
    if b == 0 then count + 1 else 0
  }

  /** `b` needs an emulation prevention byte before it; `b < 4` is the source's `!(b & 0xFC)`. */
  predicate NeedsEscape(count: nat, b: Byte) {
    count == 2 && b < 4
  }

  /** What the encoder writes for one byte. */
  function Escaped(count: nat, b: Byte): seq<Byte> {
    if NeedsEscape(count, b) then [3, b] else [b]
  }

  /** The bytes written for `x` when the previous `count` bytes written were zero. */
  function Escape(x: seq<Byte>, count: nat): seq<Byte> {
    if x == [] then []
    else if NeedsEscape(count, x[0]) then [3, x[0]] + Escape(x[1..], NextCount(0, x[0]))
    else [x[0]] + Escape(x[1..], NextCount(count, x[0]))
  }

  /** The zero-run counter once all of `x` has been escaped. */
  function CountAfter(x: seq<Byte>, count: nat): nat {
    if x == [] then count
    else CountAfter(x[1..], NextCount(if NeedsEscape(count, x[0]) then 0 else count, x[0]))
  }

  /** The bytes recovered from `n`, or `None` where the decoder refuses `n`. */
  function Unescape(n: seq<Byte>, count: nat): Option<seq<Byte>> {
    if n == [] then Some([])
    else if count == 2 && n[0] < 3 then None
    else if count == 2 && n[0] == 3 then
      if |n| == 1 then Some([])
      else if n[1] > 3 then None
      else PrependTo([n[1]], Unescape(n[2..], NextCount(0, n[1])))
    else PrependTo([n[0]], Unescape(n[1..], NextCount(count, n[0])))
  }

  function PrependTo(p: seq<Byte>, r: Option<seq<Byte>>): Option<seq<Byte>> {
    if r.None? then None else Some(p + r.value)
  }

  /** A run of `count` zero bytes. */
  function Zeros(count: nat): seq<Byte> {
    seq(count, _ => 0)
  }

  /** A unit ending in 00 00 03, which cabac_zero_words may produce; the decoder drops that 03. */
  predicate EndsWith000003(n: seq<Byte>) {
    |n| >= 3 && n[|n| - 3] == 0 && n[|n| - 2] == 0 && n[|n| - 1] == 3
  }

  /**
    What section 7.4.1 of ITU-T H.264 asks of a NAL unit's bytes, said by position: after two zero bytes
    comes no byte below 03, and a 03 there is followed by a byte of at most 03 or ends the unit.
  */
  ghost predicate Conformant(n: seq<Byte>) {
    forall i :: 0 <= i && i + 2 < |n| ==> WindowOk(n, i)
  }

  ghost predicate WindowOk(n: seq<Byte>, i: nat)
    requires i + 2 < |n|
  {
    n[i] == 0 && n[i + 1] == 0 ==> n[i + 2] >= 3 && (n[i + 2] == 3 && i + 3 < |n| ==> n[i + 3] <= 3)
  }

  // ---------------------------------------------------------------- one byte at a time

  lemma EscapePlain(b: Byte, t: seq<Byte>, count: nat)
    requires !NeedsEscape(count, b)
    ensures Escape([b] + t, count) == [b] + Escape(t, NextCount(count, b))
    ensures CountAfter([b] + t, count) == CountAfter(t, NextCount(count, b))
  {
    assert ([b] + t)[1..] == t;
  }

  lemma UnescapePlain(b: Byte, t: seq<Byte>, count: nat)
    requires !(count == 2 && b <= 3)
    ensures Unescape([b] + t, count) == PrependTo([b], Unescape(t, NextCount(count, b)))
  {
    assert ([b] + t)[1..] == t;
  }

  lemma {:induction false} EscapeSnoc(x: seq<Byte>, b: Byte, count: nat)
    ensures var c := CountAfter(x, count);
            && Escape(x + [b], count) == Escape(x, count) + Escaped(c, b)
            && CountAfter(x + [b], count) == NextCount(if NeedsEscape(c, b) then 0 else c, b)
  {
    if x == [] {
      assert x + [b] == [b] && [b][1..] == [];
    } else {
      assert (x + [b])[1..] == x[1..] + [b];
      EscapeSnoc(x[1..], b, NextCount(if NeedsEscape(count, x[0]) then 0 else count, x[0]));
    }
  }

  lemma {:induction false} CountStaysSmall(x: seq<Byte>, count: nat)
    requires count <= 2
    ensures CountAfter(x, count) <= 2
  {
    if x != [] {
      CountStaysSmall(x[1..], NextCount(if NeedsEscape(count, x[0]) then 0 else count, x[0]));
    }
  }

  // ---------------------------------------------------------------- round trips

  /** Decoding undoes encoding, for every byte string. */
  lemma {:induction false} UnescapeEscape(x: seq<Byte>, count: nat)
    requires count <= 2
    ensures Unescape(Escape(x, count), count) == Some(x)
  {
    if x != [] {
      var e := Escape(x, count);
      assert x == [x[0]] + x[1..];
      if NeedsEscape(count, x[0]) {
        UnescapeEscape(x[1..], NextCount(0, x[0]));
        assert e[0] == 3 && e[1] == x[0] && e[2..] == Escape(x[1..], NextCount(0, x[0]));
      } else {
        UnescapeEscape(x[1..], NextCount(count, x[0]));
        assert e[0] == x[0] && e[1..] == Escape(x[1..], NextCount(count, x[0]));
      }
    }
  }

  /** What the decoder accepts is the encoding of its result, up to the final 03 it may drop. */
  ghost predicate Reencodes(n: seq<Byte>, count: nat) {
    match Unescape(n, count)
    case None => true
    case Some(x) => n == Escape(x, count) || (n == Escape(x, count) + [3] && CountAfter(x, count) == 2)
  }

  lemma {:induction false} EscapeUnescapeFrom(n: seq<Byte>, count: nat)
    requires count <= 2
    ensures Reencodes(n, count)
  {
    if n == [] || (count == 2 && (n[0] < 3 || n == [3])) {
    } else if count == 2 && n[0] == 3 {
      EscapeUnescapeFrom(n[2..], NextCount(0, n[1]));
      ReencodesEscaped(n[1], n[2..]);
      assert n == [3, n[1]] + n[2..];
    } else {
      EscapeUnescapeFrom(n[1..], NextCount(count, n[0]));
      ReencodesPlain(n[0], n[1..], count);
      assert n == [n[0]] + n[1..];
    }
  }

  lemma ReencodesPlain(b: Byte, t: seq<Byte>, count: nat)
    requires !(count == 2 && b <= 3)
    requires Reencodes(t, NextCount(count, b))
    ensures Reencodes([b] + t, count)
  {
    UnescapePlain(b, t, count);
    var r := Unescape(t, NextCount(count, b));
    if r.Some? {
      EscapePlain(b, r.value, count);
      var e := Escape(r.value, NextCount(count, b));
      assert [b] + (e + [3]) == ([b] + e) + [3];
    }
  }

  lemma ReencodesEscaped(b: Byte, t: seq<Byte>)
    requires Reencodes(t, NextCount(0, b))
    ensures Reencodes([3, b] + t, 2)
  {
    var r := Unescape(t, NextCount(0, b));
    assert ([3, b] + t)[2..] == t;
    if r.Some? && b <= 3 {
      EscapeEscaped(b, r.value);
      var e := Escape(r.value, NextCount(0, b));
      assert [3, b] + (e + [3]) == ([3, b] + e) + [3];
    }
  }

  lemma EscapeEscaped(b: Byte, t: seq<Byte>)
    requires b < 4
    ensures Escape([b] + t, 2) == [3, b] + Escape(t, NextCount(0, b))
    ensures CountAfter([b] + t, 2) == CountAfter(t, NextCount(0, b))
  {
    assert ([b] + t)[1..] == t;
  }

  /** The counter is the number of zeros an encoding ends in, and no encoding ends in 00 00 03. */
  lemma {:induction false} EscapeTail(x: seq<Byte>)
    ensures var e, c := Escape(x, 0), CountAfter(x, 0);
            && (c > 0 <==> |e| >= 1 && e[|e| - 1] == 0)
            && (c == 2 <==> |e| >= 2 && e[|e| - 1] == 0 && e[|e| - 2] == 0)
            && !EndsWith000003(e)
  {
    if x != [] {
      var p, b := x[..|x| - 1], x[|x| - 1];
      EscapeTail(p);
      EscapeSnoc(p, b, 0);
      CountStaysSmall(p, 0);
      assert x == p + [b];
    }
  }

  /**
    Re-encoding a decoded unit gives the unit back exactly when it does not end in 00 00 03;
    when it does, only the dropped 03 is missing.
  */
  lemma EscapeUnescape(n: seq<Byte>)
    requires Unescape(n, 0).Some?
    ensures Escape(Unescape(n, 0).value, 0) == n <==> !EndsWith000003(n)
    ensures EndsWith000003(n) ==> Escape(Unescape(n, 0).value, 0) + [3] == n
  {
    EscapeUnescapeFrom(n, 0);
    EscapeTail(Unescape(n, 0).value);
  }

  // ---------------------------------------------------------------- what the decoder accepts

  /** A nonzero byte at `k` splits the windows that matter into those ending at `k` and those after it. */
  lemma ConformantSplit(n: seq<Byte>, k: nat)
    requires k < |n| && n[k] != 0 && k <= 2
    ensures Conformant(n) <==> (k == 2 ==> WindowOk(n, 0)) && Conformant(n[k + 1..])
  {
    var t := n[k + 1..];
    forall i: nat | i + 2 < |t| ensures WindowOk(t, i) <==> WindowOk(n, i + k + 1) {
    }
    if Conformant(n) {
      forall i: nat | i + 2 < |t| ensures WindowOk(t, i) { assert WindowOk(n, i + k + 1); }
    }
    if (k == 2 ==> WindowOk(n, 0)) && Conformant(t) {
      forall i: nat | i + 2 < |n| ensures WindowOk(n, i) {
        if i > k { assert WindowOk(t, i - k - 1); }
      }
    }
  }

  ghost predicate AcceptsIff(n: seq<Byte>, count: nat) {
    Unescape(n, count).Some? <==> Conformant(Zeros(count) + n)
  }

  lemma {:induction false} UnescapeAcceptsFrom(n: seq<Byte>, count: nat)
    requires count <= 2
    ensures AcceptsIff(n, count)
  {
    if n == [] {
    } else if count == 2 && n[0] < 3 {
      assert !WindowOk(Zeros(2) + n, 0);
    } else if count == 2 && n[0] == 3 {
      if |n| > 1 { UnescapeAcceptsFrom(n[2..], NextCount(0, n[1])); }
      AcceptsEscaped(n);
    } else {
      UnescapeAcceptsFrom(n[1..], NextCount(count, n[0]));
      AcceptsPlain(n[0], n[1..], count);
      assert n == [n[0]] + n[1..];
    }
  }

  lemma AcceptsPlain(b: Byte, t: seq<Byte>, count: nat)
    requires count <= 2 && !(count == 2 && b <= 3)
    requires AcceptsIff(t, NextCount(count, b))
    ensures AcceptsIff([b] + t, count)
  {
    UnescapePlain(b, t, count);
    var s := Zeros(count) + ([b] + t);
    if b == 0 {
      assert s == Zeros(count + 1) + t;
    } else {
      ConformantSplit(s, count);
      assert s[count + 1..] == Zeros(0) + t;
    }
  }

  lemma AcceptsEscaped(n: seq<Byte>)
    requires n != [] && n[0] == 3
    requires |n| > 1 ==> AcceptsIff(n[2..], NextCount(0, n[1]))
    ensures AcceptsIff(n, 2)
  {
    var s := Zeros(2) + n;
    ConformantSplit(s, 2);
    assert s[3..] == n[1..];
    if |n| > 1 {
      assert s[3] == n[1];
      if n[1] == 0 {
        assert n[1..] == Zeros(1) + n[2..];
      } else {
        ConformantSplit(n[1..], 0);
        assert n[1..][1..] == Zeros(0) + n[2..];
      }
    }
  }

  /** The decoder accepts exactly the byte strings that section 7.4.1 of ITU-T H.264 allows. */
  lemma UnescapeAcceptsConformant(n: seq<Byte>)
    ensures Unescape(n, 0).Some? <==> Conformant(n)
  {
    UnescapeAcceptsFrom(n, 0);
    assert Zeros(0) + n == n;
  }

  /** So no encoding contains 00 00 00, 00 00 01 or 00 00 02, and each 00 00 03 in it guards a byte. */
  lemma EscapeIsConformant(x: seq<Byte>)
    ensures Conformant(Escape(x, 0)) && !EndsWith000003(Escape(x, 0))
  {
    UnescapeEscape(x, 0);
    UnescapeAcceptsConformant(Escape(x, 0));
    EscapeTail(x);
  }

  // ---------------------------------------------------------------- the leading zero byte

  /** `x` begins with a 00 and a byte of at most 03, which the encoder's own leading 00 turns into a pattern. */
  predicate ClashesWithLeadingZero(x: seq<Byte>) {
    |x| >= 2 && x[0] == 0 && x[1] <= 3
  }

  lemma LeadingZeroHarmless(x: seq<Byte>)
    requires !ClashesWithLeadingZero(x)
    ensures Unescape([0] + Escape(x, 0), 0) == Some([0] + x)
  {
    UnescapePlain(0, Escape(x, 0), 0);
    if x != [] {
      var b, t := x[0], x[1..];
      assert x == [b] + t;
      EscapePlain(b, t, 0);
      UnescapePlain(b, Escape(t, NextCount(0, b)), 1);
      if b != 0 {
        UnescapeEscape(t, 0);
      } else if t != [] {
        var d, u := t[0], t[1..];
        assert t == [d] + u;
        EscapePlain(d, u, 1);
        UnescapePlain(d, Escape(u, 0), 2);
        UnescapeEscape(u, 0);
      }
    }
  }

  /** After the two zeros the decoder meets `x[1]` with its counter at 2. */
  lemma LeadingZeroUnfold(d: Byte, u: seq<Byte>)
    ensures Unescape([0] + Escape([0, d] + u, 0), 0) ==
            PrependTo([0], PrependTo([0], Unescape([d] + Escape(u, NextCount(1, d)), 2)))
  {
    var e := [d] + Escape(u, NextCount(1, d));
    assert [0, d] + u == [0] + ([d] + u);
    EscapePlain(0, [d] + u, 0);
    EscapePlain(d, u, 1);
    UnescapePlain(0, [0] + e, 0);
    UnescapePlain(0, e, 1);
  }

  /** A literal 03 there is taken for a prevention byte and lost. */
  lemma LostByte(u: seq<Byte>)
    ensures Unescape([3] + Escape(u, 0), 2) == if u != [] && u[0] > 3 then None else Some(u)
  {
    var e := [3] + Escape(u, 0);
    if u != [] && u[0] <= 3 {
      assert u == [u[0]] + u[1..];
      EscapePlain(u[0], u[1..], 0);
      assert e[2..] == Escape(u[1..], NextCount(0, u[0]));
      UnescapeEscape(u[1..], NextCount(0, u[0]));
    }
  }

  lemma LeadingZeroClash(x: seq<Byte>)
    requires ClashesWithLeadingZero(x)
    ensures Unescape([0] + Escape(x, 0), 0) != Some([0] + x)
    ensures Unescape([0] + Escape(x, 0), 0).None? <==> x[1] < 3 || (|x| > 2 && x[2] > 3)
  {
    assert x == [0, x[1]] + x[2..];
    LeadingZeroUnfold(x[1], x[2..]);
    if x[1] == 3 { LostByte(x[2..]); }
    assert |[0] + ([0] + x[2..])| < |[0] + x|;
  }

  /**
    rbsp_to_nal puts a 00 before its output without counting it as a zero. The whole output still decodes
    to 00 followed by `x` exactly when `x` does not begin with a 00 and a byte of at most 03.
  */
  lemma WholeOutputRoundTrip(x: seq<Byte>)
    ensures Unescape([0] + Escape(x, 0), 0) == Some([0] + x) <==> !ClashesWithLeadingZero(x)
  {
    if ClashesWithLeadingZero(x) { LeadingZeroClash(x); } else { LeadingZeroHarmless(x); }
  }

  /**
    The whole output, leading 00 included, is free of forbidden patterns exactly when the input does not
    begin 00 b with b < 03, nor 00 03 b with b > 03; in particular whenever it begins with a nonzero byte,
    and then it does not end in 00 00 03 either.
  */
  lemma WholeOutputConformant(x: seq<Byte>)
    ensures Conformant([0] + Escape(x, 0)) <==>
            !(ClashesWithLeadingZero(x) && (x[1] < 3 || (|x| > 2 && x[2] > 3)))
    ensures x != [] && x[0] != 0 ==> !EndsWith000003([0] + Escape(x, 0))
  {
    UnescapeAcceptsConformant([0] + Escape(x, 0));
    if ClashesWithLeadingZero(x) { LeadingZeroClash(x); } else { LeadingZeroHarmless(x); }
    if x != [] && x[0] != 0 {
      var w := [0] + Escape(x, 0);
      assert x == [x[0]] + x[1..];
      EscapePlain(x[0], x[1..], 0);
      EscapePlain(x[0], x[1..], 1);
      EscapePlain(0, x, 0);
      EscapeUnescape(w);
    }
  }

  // ---------------------------------------------------------------- length

  lemma {:induction false} EscapeLengthFrom(x: seq<Byte>, count: nat)
    requires x != [] && count <= 2
    ensures |Escape(x, count)| <= |x| + (|x| + count - 1) / 2
  {
    if |x| > 1 {
      EscapeLengthFrom(x[1..], NextCount(if NeedsEscape(count, x[0]) then 0 else count, x[0]));
    } else {
      assert Escape(x[1..], NextCount(count, x[0])) == [];
      assert Escape(x[1..], NextCount(0, x[0])) == [];
    }
  }

  lemma {:induction false} EscapeLengthOfZeros(n: nat, count: nat)
    requires n > 0 && count <= 2
    ensures |Escape(Zeros(n), count)| == n + (n + count - 1) / 2
  {
    assert Zeros(n)[1..] == Zeros(n - 1);
    if n > 1 {
      EscapeLengthOfZeros(n - 1, if count == 2 then 1 else count + 1);
    } else {
      assert forall c: nat :: Escape(Zeros(0), c) == [];
    }
  }

  /** One byte in at most two gains a prevention byte, and a run of zeros attains the bound. */
  lemma EscapeLength(x: seq<Byte>)
    requires x != []
    ensures |x| <= |Escape(x, 0)| <= |x| + (|x| - 1) / 2
    ensures x == Zeros(|x|) ==> |Escape(x, 0)| == |x| + (|x| - 1) / 2
  {
    EscapeLengthFrom(x, 0);
    EscapeGrows(x, 0);
    EscapeLengthOfZeros(|x|, 0);
  }

  lemma {:induction false} EscapeGrows(x: seq<Byte>, count: nat)
    ensures |x| <= |Escape(x, count)|
  {
    if x != [] {
      EscapeGrows(x[1..], NextCount(if NeedsEscape(count, x[0]) then 0 else count, x[0]));
    }
  }

  // ---------------------------------------------------------------- the encoder loop

  /** The bytes of the output buffer that are in use once `x` has been converted. */
  function Used(x: seq<Byte>): nat {
    1 + |Escape(x, 0)|
  }

  /** How many bytes of `x` the encoder converts before it stops: it looks for space once per input byte. */
  function Converted(x: seq<Byte>, nalSize: int): (k: nat)
    ensures k <= |x|
    ensures k < |x| ==> nalSize <= Used(x[..k])
    ensures forall i: nat :: i < k ==> Used(x[..i]) < nalSize
  {
    ConvertedFrom(x, nalSize, 0)
  }

  function ConvertedFrom(x: seq<Byte>, nalSize: int, k: nat): (r: nat)
    requires k <= |x|
    ensures k <= r <= |x|
    ensures r < |x| ==> nalSize <= Used(x[..r])
    ensures forall i: nat :: k <= i < r ==> Used(x[..i]) < nalSize
    decreases |x| - k
  {
    if k == |x| || nalSize <= Used(x[..k]) then k else ConvertedFrom(x, nalSize, k + 1)
  }

  lemma {:induction false} UsedMonotone(x: seq<Byte>, i: nat, j: nat)
    requires i < j <= |x|
    ensures Used(x[..i]) < Used(x[..j])
    decreases j
  {
    EscapeSnoc(x[..j - 1], x[j - 1], 0);
    assert x[..j] == x[..j - 1] + [x[j - 1]];
    if i < j - 1 { UsedMonotone(x, i, j - 1); }
  }

  /** The encoder fails exactly when no slot is left at its last input byte. */
  lemma EncoderFailsIff(x: seq<Byte>, nalSize: int)
    ensures Converted(x, nalSize) < |x| <==> x != [] && nalSize <= Used(x[..|x| - 1])
  {
    var k := Converted(x, nalSize);
    if k < |x| && k < |x| - 1 { UsedMonotone(x, k, |x| - 1); }
  }

  /** With room for 1 + n + (n - 1) / 2 bytes the encoder never fails and stays inside the room given. */
  lemma EncoderCapacity(x: seq<Byte>, nalSize: int)
    requires x != [] && 1 + |x| + (|x| - 1) / 2 <= nalSize
    ensures Converted(x, nalSize) == |x| && Used(x) <= nalSize
  {
    var m := |x| - 1;
    EncoderFailsIff(x, nalSize);
    EscapeLength(x);
    EscapeSnoc(x[..m], x[m], 0);
    assert x == x[..m] + [x[m]];
  }

  /** Somewhere in `x` the encoder has one slot left of its room for a byte that needs two. */
  ghost predicate Overruns(x: seq<Byte>, nalSize: int) {
    exists k: nat :: k < |x| && Used(x[..k]) == nalSize - 1 && NeedsEscape(CountAfter(x[..k], 0), x[k])
  }

  /** The slots in use after one more byte. */
  lemma UsedNext(x: seq<Byte>, k: nat)
    requires k < |x|
    ensures Used(x[..k + 1]) == Used(x[..k]) + if NeedsEscape(CountAfter(x[..k], 0), x[k]) then 2 else 1
  {
    EscapeSnoc(x[..k], x[k], 0);
    assert x[..k + 1] == x[..k] + [x[k]];
  }

  /**
    Whether it succeeds or not, the encoder writes beyond the room it was given exactly when it comes to such a byte,
    and then by one byte.
  */
  lemma EncoderOverrunsIff(x: seq<Byte>, nalSize: int)
    requires nalSize > 0
    ensures Used(x[..Converted(x, nalSize)]) > nalSize <==> Overruns(x, nalSize)
    ensures Used(x[..Converted(x, nalSize)]) <= nalSize + 1
  {
    var n := Converted(x, nalSize);
    if n > 0 {
      UsedNext(x, n - 1);
    }
    if Overruns(x, nalSize) {
      var k: nat :| k < |x| && Used(x[..k]) == nalSize - 1 && NeedsEscape(CountAfter(x[..k], 0), x[k]);
      UsedNext(x, k);
      if n < k {
        UsedMonotone(x, n, k);
      }
    }
  }

  /** So it does for a run that fails as well: with room for four bytes, 00 00 00 ff makes it write a fifth. */
  lemma FailingRunOverruns()
    ensures var x: seq<Byte> := [0, 0, 0, 255]; Converted(x, 4) < |x| && Used(x[..Converted(x, 4)]) == 5
  {
    var x: seq<Byte> := [0, 0, 0, 255];
    assert x[..0] == [];
    UsedNext(x, 0);
    assert x[..1] == [0];
    UsedNext(x, 1);
    assert x[..2] == [0, 0];
    assert CountAfter([0, 0], 0) == CountAfter([0], 1) == 2 by {
      assert ([0, 0])[1..] == [0];
    }
    UsedNext(x, 2);
    EncoderFailsIff(x, 4);
    EncoderOverrunsIff(x, 4);
  }

  // ---------------------------------------------------------------- the documented capacity

  /** Four thirds of `n`, rounded up. */
  function FourThirds(n: nat): nat {
    (4 * n + 2) / 3
  }

  lemma ZerosConverted(n: nat, nalSize: int)
    requires n > 1
    ensures Converted(Zeros(n), nalSize) == n <==> nalSize > n + (n - 2) / 2
  {
    EncoderFailsIff(Zeros(n), nalSize);
    assert Zeros(n)[..n - 1] == Zeros(n - 1);
    EscapeLengthOfZeros(n - 1, 0);
  }

  /** The source's own comment promises that this is enough; six zero bytes do not fit in eight. */
  lemma DocumentedCapacityTooSmall()
    ensures FourThirds(6) == 8 && Converted(Zeros(6), 8) < 6
  {
    ZerosConverted(6, 8);
  }

  /** What 4/3 of the input is enough for: an encoder that never fails up to five bytes, and for seven, and no more. */
  lemma DocumentedCapacityIff(n: nat)
    requires n > 0
    ensures (forall x: seq<Byte> :: |x| == n ==> Converted(x, FourThirds(n)) == n) <==> n <= 5 || n == 7
  {
    if n <= 5 || n == 7 {
      forall x: seq<Byte> | |x| == n ensures Converted(x, FourThirds(n)) == n {
        EncoderFailsIff(x, FourThirds(n));
        if n > 1 { EscapeLength(x[..n - 1]); }
      }
    } else {
      ZerosConverted(n, FourThirds(n));
      assert |Zeros(n)| == n;
    }
  }

  /** And its whole output fits into that room for inputs of one, two and four bytes only. */
  lemma DocumentedCapacityFitsIff(n: nat)
    requires n > 0
    ensures (forall x: seq<Byte> :: |x| == n ==> Used(x) <= FourThirds(n)) <==> n == 1 || n == 2 || n == 4
  {
    if n == 1 || n == 2 || n == 4 {
      forall x: seq<Byte> | |x| == n ensures Used(x) <= FourThirds(n) {
        EscapeLength(x);
      }
    } else {
      EscapeLengthOfZeros(n, 0);
      assert |Zeros(n)| == n;
      assert Used(Zeros(n)) > FourThirds(n);
    }
  }

  /** A buffer that held `was` after `p` has been written at its start. */
  ghost function Overwrite(was: seq<Byte>, p: seq<Byte>): seq<Byte>
    requires |p| <= |was|
  {
    p + was[|p|..]
  }

  /** The loop's `buf[j] = b; j++` together with the zero-run count. */
  method StoreByte(buf: array<Byte>, j: nat, b: Byte, count: nat) returns (newCount: nat)
    requires j < buf.Length
    modifies buf
    ensures buf[..] == old(buf[..])[j := b]
    ensures newCount == NextCount(count, b)
  {
    buf[j] := b;
    if b == 0 {
      newCount := count + 1;
    } else {
      newCount := 0;
    }
  }

  lemma OverwriteByte(was: seq<Byte>, p: seq<Byte>, b: Byte)
    requires |p| < |was|
    ensures Overwrite(was, p)[|p| := b] == Overwrite(was, p + [b])
  {
  }

  /** The body of the encoder's loop after its space check, when `p` has been written into what held `was`. */
  method StoreEscaped(nal: array<Byte>, j: nat, b: Byte, count: nat, ghost was: seq<Byte>, ghost p: seq<Byte>)
    returns (newJ: nat, newCount: nat)
    requires |was| == nal.Length && j == |p| && j + |Escaped(count, b)| <= nal.Length
    requires nal[..] == Overwrite(was, p)
    modifies nal
    ensures newJ == j + |Escaped(count, b)|
    ensures newCount == NextCount(if NeedsEscape(count, b) then 0 else count, b)
    ensures nal[..] == Overwrite(was, p + Escaped(count, b))
  {
    newJ, newCount := j, count;
    ghost var q := p;
    if count == 2 && b < 4 {
      OverwriteByte(was, q, 3);
      newCount := StoreByte(nal, newJ, 3, newCount);
      newJ := newJ + 1;
      q := q + [3];
    }
    OverwriteByte(was, q, b);
    newCount := StoreByte(nal, newJ, b, newCount);
    newJ := newJ + 1;
    assert q + [b] == p + Escaped(count, b);
  }

  /** The encoder has turned the first `i` bytes of `x` into `p` and its zero-run counter is `count`. */
  ghost predicate Encoded(x: seq<Byte>, i: nat, count: nat, p: seq<Byte>)
    requires i <= |x|
  {
    p == [0] + Escape(x[..i], 0) && count == CountAfter(x[..i], 0) <= 2
  }

  lemma EncodeStep(x: seq<Byte>, i: nat, count: nat, p: seq<Byte>)
    requires i < |x| && Encoded(x, i, count, p)
    ensures Encoded(x, i + 1, NextCount(if NeedsEscape(count, x[i]) then 0 else count, x[i]), p + Escaped(count, x[i]))
  {
    EscapeSnoc(x[..i], x[i], 0);
    CountStaysSmall(x[..i + 1], 0);
    assert x[..i + 1] == x[..i] + [x[i]];
  }

  /**
    The buffer behind `nal` holds the `nalSize` bytes that the caller speaks of, and one more where the encoder
    would overrun them, because it checks for space once per input byte although it may write two.
  */
  ghost predicate BufferHolds(x: seq<Byte>, nalSize: int, length: nat) {
    nalSize <= length && (nalSize == length > 0 ==> !Overruns(x, nalSize))
  }

  /** That is exactly when no write goes past the end of the buffer. */
  lemma BufferHoldsIff(x: seq<Byte>, nalSize: int, length: nat)
    requires nalSize <= length
    ensures BufferHolds(x, nalSize, length) <==> (nalSize > 0 ==> Used(x[..Converted(x, nalSize)]) <= length)
  {
    if nalSize > 0 {
      EncoderOverrunsIff(x, nalSize);
    }
  }

  /** rbsp_to_nal */
  method RbspToNal(rbsp: array<Byte>, nal: array<Byte>, nalSize: int) returns (ret: int, newNalSize: int)
    requires rbsp != nal
    requires BufferHolds(rbsp[..], nalSize, nal.Length)
    modifies nal
    ensures var k := Converted(rbsp[..], nalSize);
            && (if k < rbsp.Length then ret == -1 && newNalSize == nalSize else ret == newNalSize == Used(rbsp[..]))
            && (nalSize > 0 ==> Used(rbsp[..k]) <= nal.Length)
            && (nalSize > 0 ==> nal[..] == Overwrite(old(nal[..]), [0] + Escape(rbsp[..k], 0)))
            && (nalSize <= 0 ==> nal[..] == old(nal[..]))
  {
    ghost var x, was, p := rbsp[..], nal[..], [0];
    BufferHoldsIff(x, nalSize, nal.Length);
    var i, j, count := 0, 1, 0;
    assert x[..0] == [];
    if nalSize > 0 {
      nal[0] := 0;
      assert nal[..] == Overwrite(was, p);
    }
    while i < rbsp.Length
      invariant 0 <= i <= rbsp.Length && rbsp[..] == x
      invariant Encoded(x, i, count, p) && j == |p|
      invariant ConvertedFrom(x, nalSize, i) == Converted(x, nalSize)
      invariant if nalSize > 0 then j <= nal.Length && nal[..] == Overwrite(was, p) else i == 0 && nal[..] == was
    {
      if j >= nalSize {
        return -1, nalSize;
      }
      EncodeStep(x, i, count, p);
      if i + 1 < Converted(x, nalSize) { UsedMonotone(x, i + 1, Converted(x, nalSize)); }
      ghost var w := Escaped(count, x[i]);
      j, count := StoreEscaped(nal, j, rbsp[i], count, was, p);
      p := p + w;
      i := i + 1;
    }
    assert x[..i] == x;
    return j, j;
  }

  // ---------------------------------------------------------------- the decoder loop

  lemma PrependMore(p: seq<Byte>, b: Byte, r: Option<seq<Byte>>)
    ensures PrependTo([], r) == r
    ensures PrependTo(p, PrependTo([b], r)) == PrependTo(p + [b], r)
  {
    if r.Some? {
      assert [] + r.value == r.value;
      assert p + ([b] + r.value) == p + [b] + r.value;
    }
  }

  /** The decoder has turned the first `i` bytes of `n` into `x` and its zero-run counter is `count`. */
  ghost predicate Decoded(n: seq<Byte>, i: nat, count: nat, x: seq<Byte>)
    requires i <= |n|
  {
    && count <= 2
    && Unescape(n, 0) == PrependTo(x, Unescape(n[i..], count))
    && n[..i] == Escape(x, 0)
    && count == CountAfter(x, 0)
  }

  lemma DecodePlain(n: seq<Byte>, i: nat, count: nat, x: seq<Byte>)
    requires i < |n| && Decoded(n, i, count, x)
    requires !(count == 2 && n[i] <= 3)
    ensures Decoded(n, i + 1, NextCount(count, n[i]), x + [n[i]])
  {
    UnescapePlain(n[i], n[i + 1..], count);
    assert n[i..] == [n[i]] + n[i + 1..];
    PrependMore(x, n[i], Unescape(n[i + 1..], NextCount(count, n[i])));
    EscapeSnoc(x, n[i], 0);
    assert n[..i + 1] == n[..i] + [n[i]];
  }

  lemma DecodeEscaped(n: seq<Byte>, i: nat, count: nat, x: seq<Byte>)
    requires i + 1 < |n| && Decoded(n, i, count, x)
    requires count == 2 && n[i] == 3 && n[i + 1] <= 3
    ensures Decoded(n, i + 2, NextCount(0, n[i + 1]), x + [n[i + 1]])
  {
    assert n[i..][2..] == n[i + 2..];
    PrependMore(x, n[i + 1], Unescape(n[i + 2..], NextCount(0, n[i + 1])));
    EscapeSnoc(x, n[i + 1], 0);
    assert n[..i + 2] == n[..i] + [3, n[i + 1]];
  }

  lemma DecodeEnd(n: seq<Byte>, i: nat, count: nat, x: seq<Byte>)
    requires i <= |n| && Decoded(n, i, count, x)
    requires i == |n| || (i == |n| - 1 && count == 2 && n[i] == 3)
    ensures Unescape(n, 0) == Some(x)
    ensures EndsWith000003(n) <==> i < |n|
  {
    assert x + [] == x;
    assert n == n[..i] + n[i..];
    EscapeUnescape(n);
  }

  lemma DecodeRefused(n: seq<Byte>, i: nat, count: nat, x: seq<Byte>)
    requires i < |n| && Decoded(n, i, count, x) && count == 2
    requires n[i] < 3 || (n[i] == 3 && i + 1 < |n| && n[i + 1] > 3)
    ensures Unescape(n, 0) == None
  {
  }

  /** nal_to_rbsp: the decoded bytes when the unit is accepted and its content fits, and -1 otherwise. */
  method NalToRbsp(nal: array<Byte>, rbsp: array<Byte>, rbspSize: int)
    returns (ret: int, newNalSize: int, newRbspSize: int)
    requires rbsp != nal
    requires rbspSize <= rbsp.Length
    modifies rbsp
    ensures match Unescape(nal[..], 0)
            case None => ret == -1
            case Some(x) => ret == if |x| <= rbspSize || x == [] then |x| else -1
    ensures ret == -1 ==> newNalSize == nal.Length && newRbspSize == rbspSize
    ensures ret != -1 ==>
              && newRbspSize == ret
              && newNalSize == (if EndsWith000003(nal[..]) then nal.Length - 1 else nal.Length)
              && |Unescape(nal[..], 0).value| <= rbsp.Length
              && rbsp[..] == Overwrite(old(rbsp[..]), Unescape(nal[..], 0).value)
  {
    ghost var n, was := nal[..], rbsp[..];
    ghost var x: seq<Byte> := [];
    var i, j, count := 0, 0, 0;
    assert n[0..] == n && n[..0] == [];
    PrependMore([], 0, Unescape(n, 0));
    while i < nal.Length
      invariant 0 <= i <= nal.Length && nal[..] == n
      invariant j == |x| && j <= rbsp.Length && (j <= rbspSize || j == 0)
      invariant rbsp[..] == Overwrite(was, x)
      invariant Decoded(n, i, count, x)
    {
      if count == 2 && nal[i] < 3 {
        DecodeRefused(n, i, count, x);
        return -1, nal.Length, rbspSize;
      }
      ghost var start, c := i, count;
      if count == 2 && nal[i] == 3 {
        if i < nal.Length - 1 && nal[i + 1] > 3 {
          DecodeRefused(n, i, count, x);
          return -1, nal.Length, rbspSize;
        }
        if i == nal.Length - 1 {
          break;
        }
        i := i + 1;
        count := 0;
        DecodeEscaped(n, start, c, x);
      } else {
        DecodePlain(n, start, c, x);
      }
      if j >= rbspSize {
        return -1, nal.Length, rbspSize;
      }
      OverwriteByte(was, x, n[i]);
      count := StoreByte(rbsp, j, nal[i], count);
      x := x + [n[i]];
      j := j + 1;
      i := i + 1;
    }
    DecodeEnd(n, i, count, x);
    return j, i, j;
  }
}
