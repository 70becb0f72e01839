/**
  Bit strings, most significant bit first: what the cursor of h264bitstream/bs.h reads and writes.

  `Stream` is the abstract value of a `bs_t`: the bits of its buffer and the position of the cursor.
*/
module Bits {
  import opened Words

  type Bit = x: int | 0 <= x <= 1

  function Pow2(n: nat): (r: nat)
    ensures r > 0
  {
    if n == 0 then 1 else 2 * Pow2(n - 1)
  }

  /** `v << k`, as `k` doublings. */
  function ShiftLeft(v: nat, k: nat): nat {
    if k == 0 then v else 2 * ShiftLeft(v, k - 1)
  }

  /** `v >> k`, as `k` halvings. */
  function ShiftRight(v: nat, k: nat): nat {
    if k == 0 then v else ShiftRight(v / 2, k - 1)
  }

  /** The low 32 bits of `v`, as an unsigned number. */
  function Low32(v: int): (r: nat)
    ensures r < TWO_32
    ensures 0 <= v < TWO_32 ==> r == v
  {
    v % TWO_32
  }

  /** The number a bit string denotes. */
  function Value(s: seq<Bit>): nat {
    if s == [] then 0 else 2 * Value(s[..|s| - 1]) + s[|s| - 1]
  }

  /** The `n` low bits of `v`. */
  function BitsOf(v: nat, n: nat): (s: seq<Bit>)
    ensures |s| == n
  {
    if n == 0 then [] else BitsOf(v / 2, n - 1) + [v % 2]
  }

  // ---------------------------------------------------------------- streams

  datatype Stream = Stream(bits: seq<Bit>, pos: nat) {
    predicate Valid() {
      pos <= |bits|
    }

    predicate Eof() {
      pos >= |bits|
    }

    /** Past the end of the buffer every bit reads as zero. */
    function At(k: nat): Bit {
      if k < |bits| then bits[k] else 0
    }

    /** The cursor moves by `n` bits but never past the end. */
    function Advance(n: nat): Stream {
      Stream(bits, if pos + n <= |bits| then pos + n else if pos <= |bits| then |bits| else pos)
    }

    /** The number in the next `n` bits. */
    function Number(n: nat): nat {
      if n == 0 then 0 else 2 * Number(n - 1) + At(pos + n - 1)
    }

    /** Overwrites the bit at the cursor; at the end of the buffer nothing is written. */
    function PutBit(b: Bit): Stream {
      if Eof() then this else Stream(bits[pos := b], pos + 1)
    }

    /** Writes the `n` low bits of `v`. */
    function PutNumber(v: nat, n: nat): Stream
      decreases n
    {
      if n == 0 then this else PutNumber(v / 2, n - 1).PutBit(v % 2)
    }

    /** The next bits are those of `w`. */
    predicate StartsWith(w: seq<Bit>) {
      pos + |w| <= |bits| && bits[pos..pos + |w|] == w
    }
  }

  // ---------------------------------------------------------------- arithmetic

  lemma ModTwice(v: nat, a: nat)
    requires a > 0
    ensures v % (2 * a) == 2 * ((v / 2) % a) + v % 2
  {
    var h, t := v / 2, v % 2;
    var q, r := h / a, 2 * (h % a) + t;
    assert h == q * a + h % a;
    assert v == q * (2 * a) + r;
    RemainderUnique(v, 2 * a, q, r);
  }

  lemma RemainderUnique(v: int, d: int, q: int, r: int)
    requires 0 <= r < d && v == q * d + r
    ensures v % d == r
  {
    var e := v / d - q;
    assert (v / d) * d + v % d == v;
    assert e * d == (v / d) * d - q * d;
    assert e > 0 ==> (e - 1) * d >= 0;
    assert e < 0 ==> (-e - 1) * d >= 0;
  }

  lemma {:induction false} ShiftLeftSum(v: nat, w: nat, k: nat)
    ensures ShiftLeft(v + w, k) == ShiftLeft(v, k) + ShiftLeft(w, k)
  {
    if k > 0 { ShiftLeftSum(v, w, k - 1); }
  }

  lemma {:induction false} ShiftLeftAdd(v: nat, m: nat, k: nat)
    ensures ShiftLeft(v, m + k) == ShiftLeft(ShiftLeft(v, m), k)
  {
    if k > 0 { ShiftLeftAdd(v, m, k - 1); }
  }

  lemma {:induction false} ShiftLeftBound(v: nat, m: nat, k: nat)
    requires v < Pow2(m)
    ensures ShiftLeft(v, k) < Pow2(m + k)
  {
    if k > 0 { ShiftLeftBound(v, m, k - 1); }
  }

  lemma {:induction false} ShiftLeftZero(k: nat)
    ensures ShiftLeft(0, k) == 0
  {
    if k > 0 { ShiftLeftZero(k - 1); }
  }

  lemma {:induction false} ShiftRightOnce(v: nat, m: nat)
    ensures ShiftRight(v, m + 1) == ShiftRight(v, m) / 2
  {
    if m > 0 { ShiftRightOnce(v / 2, m - 1); }
  }

  lemma {:induction false} ShiftRightAdd(v: nat, m: nat, n: nat)
    ensures ShiftRight(ShiftRight(v, m), n) == ShiftRight(v, m + n)
  {
    if m > 0 { ShiftRightAdd(v / 2, m - 1, n); }
  }

  lemma {:induction false} Pow2Monotone(m: nat, n: nat)
    requires m <= n
    ensures Pow2(m) <= Pow2(n)
  {
    if m < n { Pow2Monotone(m, n - 1); }
  }

  lemma Pow2Of32()
    ensures Pow2(8) == 256
    ensures Pow2(32) == TWO_32
  {
    assert Pow2(4) == 16;
    assert Pow2(8) == 256;
    assert Pow2(12) == 4096;
    assert Pow2(16) == 65536;
    assert Pow2(20) == 0x10_0000;
    assert Pow2(24) == 0x100_0000;
    assert Pow2(28) == 0x1000_0000;
  }

  // ---------------------------------------------------------------- reading

  lemma {:induction false} NumberBound(s: Stream, n: nat)
    ensures s.Number(n) < Pow2(n)
  {
    if n > 0 { NumberBound(s, n - 1); }
  }

  lemma {:induction false} NumberAtEof(s: Stream, n: nat)
    requires s.Valid() && s.Eof()
    ensures s.Number(n) == 0
    ensures s.Advance(n) == s
  {
    if n > 0 { NumberAtEof(s, n - 1); }
  }

  lemma {:induction false} NumberSplit(s: Stream, m: nat, n: nat)
    requires s.Valid()
    ensures s.Number(m + n) == ShiftLeft(s.Number(m), n) + s.Advance(m).Number(n)
  {
    if n > 0 { NumberSplit(s, m, n - 1); }
  }

  lemma StartsWithPrefix(s: Stream, w: seq<Bit>, n: nat)
    requires s.StartsWith(w) && n < |w|
    ensures s.StartsWith(w[..n]) && s.bits[s.pos + n] == w[n]
  {
    var t := s.bits[s.pos..s.pos + |w|];
    assert t[..n] == s.bits[s.pos..s.pos + n];
    assert t[n] == s.bits[s.pos + n];
  }

  lemma {:induction false} NumberOfPrefix(s: Stream, w: seq<Bit>)
    requires s.StartsWith(w)
    ensures s.Number(|w|) == Value(w)
  {
    if w != [] {
      StartsWithPrefix(s, w, |w| - 1);
      NumberOfPrefix(s, w[..|w| - 1]);
    }
  }

  /** Numbers depend on the bits they cover only. */
  lemma {:induction false} NumberFrame(s: Stream, t: Stream, n: nat)
    requires s.pos == t.pos && s.pos + n <= |s.bits| && s.pos + n <= |t.bits|
    requires s.bits[..s.pos + n] == t.bits[..s.pos + n]
    ensures s.Number(n) == t.Number(n)
  {
    if n > 0 {
      var k := s.pos + n - 1;
      assert s.bits[..k] == s.bits[..k + 1][..k] == t.bits[..k];
      assert s.bits[k] == s.bits[..k + 1][k] == t.bits[k];
      NumberFrame(s, t, n - 1);
    }
  }

  // ---------------------------------------------------------------- writing

  lemma {:induction false} PutAtEof(s: Stream, v: nat, n: nat)
    requires s.Eof()
    ensures s.PutNumber(v, n) == s
    decreases n
  {
    if n > 0 { PutAtEof(s, v / 2, n - 1); }
  }

  /** A number that fits replaces exactly the bits under it. */
  lemma {:induction false} PutNumberBits(s: Stream, v: nat, n: nat)
    requires s.pos + n <= |s.bits|
    ensures s.PutNumber(v, n) == Stream(s.bits[..s.pos] + BitsOf(v, n) + s.bits[s.pos + n..], s.pos + n)
    decreases n
  {
    if n == 0 {
      assert s.bits == s.bits[..s.pos] + [] + s.bits[s.pos..];
    } else {
      var x, w, y := s.bits[..s.pos], BitsOf(v / 2, n - 1), s.bits[s.pos + n - 1..];
      PutNumberBits(s, v / 2, n - 1);
      ReplaceNext(x + w, y, v % 2);
      assert y[1..] == s.bits[s.pos + n..];
      assert x + w + [v % 2] == x + BitsOf(v, n);
    }
  }

  lemma ReplaceNext(x: seq<Bit>, y: seq<Bit>, b: Bit)
    requires y != []
    ensures (x + y)[|x| := b] == x + [b] + y[1..]
  {
  }

  /** So the bits before it and those behind it stay. */
  lemma PutNumberFrame(s: Stream, v: nat, n: nat)
    requires s.pos + n <= |s.bits|
    ensures var u := s.PutNumber(v, n);
            && |u.bits| == |s.bits| && u.pos == s.pos + n
            && u.bits[..s.pos] == s.bits[..s.pos] && u.bits[u.pos..] == s.bits[u.pos..]
  {
    PutNumberBits(s, v, n);
    AroundMiddle(s.bits[..s.pos], BitsOf(v, n), s.bits[s.pos + n..]);
  }

  lemma AroundMiddle(x: seq<Bit>, y: seq<Bit>, z: seq<Bit>)
    ensures (x + y + z)[..|x|] == x && (x + y + z)[|x| + |y|..] == z
  {
  }

  /** What agrees up to `q`, or from `p` on, agrees up to `p`, or from `q` on. */
  lemma AgreeLess(t: seq<Bit>, u: seq<Bit>, p: nat, q: nat)
    requires p <= q <= |t| == |u|
    ensures t[..q] == u[..q] ==> t[..p] == u[..p]
    ensures t[p..] == u[p..] ==> t[q..] == u[q..]
  {
    assert t[..p] == t[..q][..p] && u[..p] == u[..q][..p];
    assert t[q..] == t[p..][q - p..] && u[q..] == u[p..][q - p..];
  }

  /** A number that does not fit fills the buffer with its top bits, and the others are lost. */
  lemma {:induction false} PutNumberClips(s: Stream, v: nat, n: nat)
    requires s.Valid() && s.pos + n > |s.bits|
    ensures s.PutNumber(v, n) == Stream(s.bits[..s.pos] + BitsOf(v, n)[..|s.bits| - s.pos], |s.bits|)
    decreases n
  {
    var m := |s.bits| - s.pos;
    assert BitsOf(v, n)[..m] == BitsOf(v / 2, n - 1)[..m];
    if m < n - 1 {
      PutNumberClips(s, v / 2, n - 1);
    } else {
      PutNumberBits(s, v / 2, n - 1);
      assert BitsOf(v / 2, n - 1)[..m] == BitsOf(v / 2, n - 1);
      assert s.bits[|s.bits|..] == [];
    }
  }

  /** A field of `n` bits that fits reads back as its value modulo 2^n. */
  lemma {:induction false} NumberOfPut(s: Stream, v: nat, n: nat)
    requires s.pos + n <= |s.bits|
    ensures Stream(s.PutNumber(v, n).bits, s.pos).Number(n) == v % Pow2(n)
    decreases n
  {
    if n > 0 {
      var u, t := s.PutNumber(v / 2, n - 1), s.PutNumber(v, n);
      NumberOfPut(s, v / 2, n - 1);
      PutNumberBits(s, v / 2, n - 1);
      ModTwice(v, Pow2(n - 1));
      NumberFrame(Stream(t.bits, s.pos), Stream(u.bits, s.pos), n - 1);
    }
  }

  // ---------------------------------------------------------------- fields

  /** bs_read_u returns 32 bits, and bs_write_u takes them from 32. */
  type Width = n: nat | n <= 32

  /** One call of bs_write_u: `width` bits of `value`. */
  datatype Field = Field(width: Width, value: nat)

  /** What bs_write_u has written bs_read_u returns, modulo 2^n. */
  lemma FieldReadsBack(s: Stream, v: nat, n: Width)
    requires s.pos + n <= |s.bits|
    ensures Low32(Stream(s.PutNumber(v, n).bits, s.pos).Number(n)) == v % Pow2(n)
  {
    NumberOfPut(s, v, n);
    NumberFits32(Stream(s.PutNumber(v, n).bits, s.pos), n);
  }

  /** A number of at most 32 bits is not cut. */
  lemma NumberFits32(s: Stream, n: Width)
    ensures Low32(s.Number(n)) == s.Number(n)
  {
    NumberBound(s, n);
    Pow2Monotone(n, 32);
    Pow2Of32();
  }

  function TotalWidth(fs: seq<Field>): nat {
    if fs == [] then 0 else fs[0].width + TotalWidth(fs[1..])
  }

  /** The fields written one after the other. */
  function PutFields(s: Stream, fs: seq<Field>): Stream
    decreases fs
  {
    if fs == [] then s else PutFields(s.PutNumber(fs[0].value, fs[0].width), fs[1..])
  }

  /** The values that calls of bs_read_u for the given widths, one after the other, return. */
  function GetFields(s: Stream, widths: seq<Width>): seq<nat>
    decreases widths
  {
    if widths == [] then []
    else [Low32(s.Number(widths[0]))] + GetFields(s.Advance(widths[0]), widths[1..])
  }

  function Widths(fs: seq<Field>): seq<Width> {
    if fs == [] then [] else [fs[0].width] + Widths(fs[1..])
  }

  function Masked(fs: seq<Field>): seq<nat> {
    if fs == [] then [] else [fs[0].value % Pow2(fs[0].width)] + Masked(fs[1..])
  }

  /** Writing fields changes no bit outside the written range and moves the cursor by their total width. */
  lemma {:induction false} PutFieldsFrame(s: Stream, fs: seq<Field>)
    requires s.pos + TotalWidth(fs) <= |s.bits|
    ensures var t := PutFields(s, fs);
            && |t.bits| == |s.bits|
            && t.pos == s.pos + TotalWidth(fs)
            && t.bits[..s.pos] == s.bits[..s.pos]
            && t.bits[t.pos..] == s.bits[t.pos..]
    decreases fs
  {
    if fs != [] {
      var u, t := s.PutNumber(fs[0].value, fs[0].width), PutFields(s, fs);
      PutNumberFrame(s, fs[0].value, fs[0].width);
      PutFieldsFrame(u, fs[1..]);
      AgreeLess(t.bits, u.bits, s.pos, u.pos);
      AgreeLess(u.bits, s.bits, u.pos, t.pos);
    }
  }

  /** Reading back any list of fields that fits returns each value modulo 2^width. */
  lemma {:induction false} FieldsRoundTrip(s: Stream, fs: seq<Field>)
    requires s.pos + TotalWidth(fs) <= |s.bits|
    ensures GetFields(Stream(PutFields(s, fs).bits, s.pos), Widths(fs)) == Masked(fs)
    decreases fs
  {
    if fs != [] {
      var n := fs[0].width;
      var u, t := s.PutNumber(fs[0].value, n), PutFields(s, fs);
      PutNumberBits(s, fs[0].value, n);
      PutFieldsFrame(u, fs[1..]);
      FieldsRoundTrip(u, fs[1..]);
      FieldReadsBack(s, fs[0].value, n);
      NumberFrame(Stream(t.bits, s.pos), Stream(u.bits, s.pos), n);
      assert Widths(fs) == [n] + Widths(fs[1..]);
    }
  }

  // ---------------------------------------------------------------- Exp-Golomb codes

  /** The exponent of the largest power of two that is at most `n`. */
  function Log2(n: nat): (k: nat)
    requires n > 0
    ensures Pow2(k) <= n < Pow2(k + 1)
  {
    if n == 1 then 0 else 1 + Log2(n / 2)
  }

  function Zeroes(k: nat): (s: seq<Bit>)
    ensures |s| == k
  {
    if k == 0 then [] else [0] + Zeroes(k - 1)
  }

  /** Section 9.1 of ITU-T H.264: k zeros, then codeNum + 1 in k + 1 bits. */
  function ExpGolomb(codeNum: nat): seq<Bit> {
    var k := Log2(codeNum + 1);
    Zeroes(k) + BitsOf(codeNum + 1, k + 1)
  }

  /** Section 9.1.1 of ITU-T H.264: 0, 1, -1, 2, -2, ... */
  function SignedOf(codeNum: nat): int {
    if codeNum % 2 == 1 then (codeNum + 1) / 2 else -(codeNum / 2)
  }

  /** The zeros that the loop of bs_read_ue counts from `i` on, and the stream after the bit that ends it. */
  function ScanZeros(s: Stream, i: nat): (nat, Stream)
    decreases |s.bits|, 33 - i
  {
    var t := s.Advance(1);
    if s.At(s.pos) == 0 && i < 32 && !t.Eof() then ScanZeros(t, i + 1) else (i, t)
  }

  /** bs_read_ue: the value returned, in 32 bits, and the stream left behind. */
  function ReadUeSpec(s: Stream): (nat, Stream) {
    var (i, t) := ScanZeros(s, 0);
    (Low32(t.Number(i) + Pow2(i) - 1), t.Advance(i))
  }

  /** The 32 bits of `v` as a signed number. */
  function ToInt32(v: nat): int
    requires v < TWO_32
  {
    if v < 0x8000_0000 then v else v - TWO_32
  }

  /** Two's complement wrap-around to 32 bits. */
  function Wrap32(v: int): int {
    ToInt32(Low32(v))
  }

  /** bs_read_se on what bs_read_ue returned; `/ 2` rounds down, as the source's `>> 1` does. */
  function SeOfUe(ue: nat): int
    requires ue < TWO_32
  {
    var result := ToInt32(ue);
    if result % 2 == 1 then Wrap32(result + 1) / 2 else -(result / 2)
  }

  lemma {:induction false} ValueBitsOfSmall(v: nat, n: nat)
    requires v < Pow2(n)
    ensures Value(BitsOf(v, n)) == v
  {
    if n > 0 {
      ValueBitsOfSmall(v / 2, n - 1);
      assert BitsOf(v, n)[..n - 1] == BitsOf(v / 2, n - 1);
    }
  }

  lemma {:induction false} BitsOfLeadingOne(v: nat, k: nat)
    requires v < Pow2(k)
    ensures BitsOf(Pow2(k) + v, k + 1) == [1] + BitsOf(v, k)
  {
    if k == 0 {
      assert BitsOf(1, 1) == BitsOf(0, 0) + [1];
    } else {
      BitsOfLeadingOne(v / 2, k - 1);
      assert (Pow2(k) + v) / 2 == Pow2(k - 1) + v / 2;
      assert BitsOf(Pow2(k) + v, k + 1) == BitsOf(Pow2(k - 1) + v / 2, k) + [v % 2];
    }
  }

  lemma CodeWordTail(codeNum: nat) returns (tail: seq<Bit>)
    ensures |tail| == Log2(codeNum + 1)
    ensures ExpGolomb(codeNum) == (Zeroes(|tail|) + [1]) + tail
    ensures Value(tail) + Pow2(|tail|) - 1 == codeNum
  {
    var k := Log2(codeNum + 1);
    var v := codeNum + 1 - Pow2(k);
    BitsOfLeadingOne(v, k);
    ValueBitsOfSmall(v, k);
    tail := BitsOf(v, k);
  }

  lemma LogBound(codeNum: nat)
    requires codeNum < 0xFFFF_FFFF
    ensures Log2(codeNum + 1) <= 31
  {
    Pow2Of32();
    if Log2(codeNum + 1) >= 32 { Pow2Monotone(32, Log2(codeNum + 1)); }
  }

  lemma StartsWithSplit(s: Stream, v: seq<Bit>, w: seq<Bit>)
    requires s.StartsWith(v + w)
    ensures s.StartsWith(v) && Stream(s.bits, s.pos + |v|).StartsWith(w)
  {
    var p, q := s.pos, s.pos + |v|;
    assert s.bits[p..q] == s.bits[p..p + |v + w|][..|v|];
    assert s.bits[q..q + |w|] == s.bits[p..p + |v + w|][|v|..];
  }

  lemma FirstBit(s: Stream, w: seq<Bit>)
    requires w != [] && s.StartsWith(w)
    ensures s.At(s.pos) == w[0]
  {
    assert s.bits[s.pos] == s.bits[s.pos..s.pos + |w|][0];
  }

  lemma {:induction false} ScanZerosFinds(s: Stream, i: nat, k: nat)
    requires i + k <= 32 && s.StartsWith(Zeroes(k) + [1])
    ensures ScanZeros(s, i) == (i + k, Stream(s.bits, s.pos + k + 1))
    decreases k
  {
    FirstBit(s, Zeroes(k) + [1]);
    if k > 0 {
      assert Zeroes(k) + [1] == [0] + (Zeroes(k - 1) + [1]);
      StartsWithSplit(s, [0], Zeroes(k - 1) + [1]);
      ScanZerosFinds(s.Advance(1), i + 1, k - 1);
    }
  }

  /** The loop of bs_read_ue ends at the first one, after 32 zeros, or at the end of the buffer. */
  lemma {:induction false} ScanZerosEnds(s: Stream, i: nat)
    requires s.Valid() && i <= 32
    ensures var (k, t) := ScanZeros(s, i);
            && i <= k <= 32 && t == s.Advance(k - i + 1)
            && (forall p :: s.pos <= p < s.pos + (k - i) ==> s.At(p) == 0)
            && (s.At(s.pos + (k - i)) == 1 || k == 32 || s.pos + (k - i) + 1 >= |s.bits|)
    decreases 32 - i
  {
    var t := s.Advance(1);
    if s.At(s.pos) == 0 && i < 32 && !t.Eof() {
      ScanZerosEnds(t, i + 1);
      var k := ScanZeros(s, i).0;
      forall p | s.pos <= p < s.pos + (k - i) ensures s.At(p) == 0 {
        if p > s.pos {
          assert t.At(p) == 0;
        }
      }
    }
  }

  lemma ScanZerosFromStart(s: Stream, k: nat)
    requires k <= 31 && s.StartsWith(Zeroes(k) + [1])
    ensures ScanZeros(s, 0) == (k, Stream(s.bits, s.pos + k + 1))
  {
    ScanZerosFinds(s, 0, k);
  }

  lemma ScanCodeWord(s: Stream, codeNum: nat) returns (tail: seq<Bit>, t: Stream)
    requires codeNum < 0xFFFF_FFFF && s.StartsWith(ExpGolomb(codeNum))
    ensures ScanZeros(s, 0) == (|tail|, t) && t.StartsWith(tail)
    ensures Value(tail) + Pow2(|tail|) - 1 == codeNum
    ensures t.bits == s.bits && t.pos + |tail| == s.pos + |ExpGolomb(codeNum)|
  {
    LogBound(codeNum);
    tail := CodeWordTail(codeNum);
    t := Stream(s.bits, s.pos + |tail| + 1);
    ScanWord(s, |tail|, tail);
  }

  lemma ScanWord(s: Stream, k: nat, tail: seq<Bit>)
    requires k <= 31 && s.StartsWith((Zeroes(k) + [1]) + tail)
    ensures ScanZeros(s, 0) == (k, Stream(s.bits, s.pos + k + 1))
    ensures Stream(s.bits, s.pos + k + 1).StartsWith(tail)
  {
    var zeros: seq<Bit> := Zeroes(k) + [1];
    assert |zeros| == k + 1;
    StartsWithSplit(s, zeros, tail);
    ScanZerosFromStart(s, k);
  }

  lemma ReadUeAfterScan(s: Stream, t: Stream, tail: seq<Bit>)
    requires ScanZeros(s, 0) == (|tail|, t) && t.StartsWith(tail)
    ensures ReadUeSpec(s).0 == Low32(Value(tail) + Pow2(|tail|) - 1)
    ensures ReadUeSpec(s).1 == Stream(t.bits, t.pos + |tail|)
  {
    NumberOfPrefix(t, tail);
  }

  /**
    bs_read_ue returns the codeNum of section 9.1 of ITU-T H.264, over the whole range of that section, and
    consumes exactly its code word.
  */
  lemma ReadUeDecodes(s: Stream, codeNum: nat)
    requires codeNum < 0xFFFF_FFFF && s.StartsWith(ExpGolomb(codeNum))
    ensures ReadUeSpec(s) == (codeNum, Stream(s.bits, s.pos + |ExpGolomb(codeNum)|))
  {
    var tail, t := ScanCodeWord(s, codeNum);
    ReadUeAfterScan(s, t, tail);
  }

  /** A code word with k leading zeros has 2k + 1 bits. */
  lemma CodeWordLength(codeNum: nat)
    ensures |ExpGolomb(codeNum)| == 2 * Log2(codeNum + 1) + 1
    ensures ExpGolomb(codeNum)[..Log2(codeNum + 1)] == Zeroes(Log2(codeNum + 1))
    ensures ExpGolomb(codeNum)[Log2(codeNum + 1)] == 1
  {
    var tail := CodeWordTail(codeNum);
    assert |(Zeroes(|tail|) + [1])| == |tail| + 1;
  }

  /** Code words laid end to end, as a list of ue(v) syntax elements is. */
  function ExpGolombAll(codes: seq<nat>): seq<Bit> {
    if codes == [] then [] else ExpGolomb(codes[0]) + ExpGolombAll(codes[1..])
  }

  /** `n` calls of bs_read_ue. */
  function ReadUeAll(s: Stream, n: nat): (seq<nat>, Stream)
    decreases n
  {
    if n == 0 then ([], s)
    else
      var (c, t) := ReadUeSpec(s);
      var (cs, u) := ReadUeAll(t, n - 1);
      ([c] + cs, u)
  }

  lemma ReadUeAllStep(s: Stream, n: nat)
    ensures ReadUeAll(s, n + 1).0 == [ReadUeSpec(s).0] + ReadUeAll(ReadUeSpec(s).1, n).0
    ensures ReadUeAll(s, n + 1).1 == ReadUeAll(ReadUeSpec(s).1, n).1
  {
  }

  /** A list of code words is read back as the list, whatever follows it, and nothing more is consumed. */
  lemma {:induction false} ReadUeAllDecodes(s: Stream, codes: seq<nat>)
    requires forall i :: 0 <= i < |codes| ==> codes[i] < 0xFFFF_FFFF
    requires s.StartsWith(ExpGolombAll(codes))
    ensures ReadUeAll(s, |codes|).0 == codes
    ensures ReadUeAll(s, |codes|).1 == Stream(s.bits, s.pos + |ExpGolombAll(codes)|)
    decreases codes
  {
    if codes != [] {
      var c, cs := codes[0], codes[1..];
      assert codes == [c] + cs;
      StartsWithSplit(s, ExpGolomb(c), ExpGolombAll(cs));
      ReadUeDecodes(s, c);
      ReadUeAllDecodes(ReadUeSpec(s).1, cs);
      ReadUeAllStep(s, |cs|);
    }
  }

  /**
    bs_read_se applies the signed mapping exactly up to codeNum 2^31 - 2, the last one with at most
    30 leading zeros; above that its 32-bit signed arithmetic gives another number.
  */
  lemma ReadSeDecodesIff(codeNum: nat)
    requires codeNum < 0xFFFF_FFFF
    ensures SeOfUe(codeNum) == SignedOf(codeNum) <==> codeNum <= 0x7FFF_FFFE
  {
  }

  /** The first value that is wrong: codeNum 2^31 - 1 stands for 2^30 and is read as its negation. */
  lemma ReadSeWrong()
    ensures SignedOf(0x7FFF_FFFF) == 0x4000_0000 && SeOfUe(0x7FFF_FFFF) == -0x4000_0000
  {
  }
}
