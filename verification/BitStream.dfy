/**
  The bit reader and writer of h264bitstream/bs.h, working in place on a byte buffer.

  `Abs()` is the stream of bits and the cursor position that the fields stand for; every method is specified
  by what it does to that stream.
*/
module BitStream {
  import opened Bits
  import opened Words

  // ---------------------------------------------------------------- bytes

  function Shr(b: bv8, k: nat): bv8
    requires k < 8
  {
    match k
    case 0 => b
    case 1 => b >> 1
    case 2 => b >> 2
    case 3 => b >> 3
    case 4 => b >> 4
    case 5 => b >> 5
    case 6 => b >> 6
    case _ => b >> 7
  }

  function Shl(b: bv8, k: nat): bv8
    requires k < 8
  {
    match k
    case 0 => b
    case 1 => b << 1
    case 2 => b << 2
    case 3 => b << 3
    case 4 => b << 4
    case 5 => b << 5
    case 6 => b << 6
    case _ => b << 7
  }

  function BitOf(b: bv8, k: nat): Bit
    requires k < 8
  {
    if Shr(b, k) & 1 == 1 then 1 else 0
  }

  /** Clearing bit `k` and then or-ing `v << k` sets that bit. */
  lemma SetBit(b: bv8, k: nat, v: bv8)
    requires k < 8 && v <= 1
    ensures BitOf((b & !Shl(1, k)) | Shl(v, k), k) == if v == 1 then 1 else 0
  {
  }

  /** ... and leaves the other bits alone. */
  lemma SetBitFrame(b: bv8, k: nat, v: bv8, j: nat)
    requires k < 8 && j < 8 && j != k && v <= 1
    ensures BitOf((b & !Shl(1, k)) | Shl(v, k), j) == BitOf(b, j)
  {
  }

  function ByteBits(b: bv8): (s: seq<Bit>)
    ensures |s| == 8
  {
    seq<Bit>(8, i requires 0 <= i < 8 => BitOf(b, 7 - i))
  }

  lemma ByteSum(b: bv8)
    ensures b as nat == 128 * BitOf(b, 7) + 64 * BitOf(b, 6) + 32 * BitOf(b, 5) + 16 * BitOf(b, 4)
                        + 8 * BitOf(b, 3) + 4 * BitOf(b, 2) + 2 * BitOf(b, 1) + BitOf(b, 0)
  {
  }

  lemma BitAt(b: bv8, j: nat)
    requires j < 8
    ensures ByteBits(b)[7 - j] == BitOf(b, j)
  {
  }

  /** The two assignments of bs_write_u1: clear the bit, then or the new one in. */
  function WithBit(b: bv8, k: nat, v: bv8): bv8
    requires k < 8
  {
    (b & !Shl(1, k)) | Shl(v, k)
  }

  function LowBit(v: nat): (b: bv8)
    ensures b <= 1
    ensures b as int == v % 2
  {
    if v % 2 == 1 then 1 else 0
  }

  lemma Doubled(x: bv8, b: bv8)
    requires x < 128 && b <= 1
    ensures (x + x + b) as int == 2 * (x as int) + b as int
  {
  }

  /** A number of `k` bits as a byte, put together bit by bit. */
  function ByteOf(m: nat, k: nat): (b: bv8)
    requires k <= 8 && m < Pow2(k)
    ensures b as int == m
    decreases k
  {
    if k == 0 then 0
    else
      var h, l := ByteOf(m / 2, k - 1), LowBit(m);
      Pow2Monotone(k, 8);
      Pow2Of32();
      Doubled(h, l);
      h + h + l
  }

  function LowByte(v: nat): (b: bv8)
    ensures b as nat == v % 256
  {
    Pow2Of32();
    ByteOf(v % 256, 8)
  }

  lemma WithBitAt(b: bv8, k: nat, v: bv8, i: nat)
    requires k < 8 && i < 8 && v <= 1
    ensures BitOf(WithBit(b, k, v), i) == if i == k then v as int else BitOf(b, i)
  {
    if i == k { SetBit(b, k, v); } else { SetBitFrame(b, k, v, i); }
  }

  /** Writing bit `k` of a byte replaces that element of its bit string. */
  lemma WithBitBits(b: bv8, k: nat, v: bv8)
    requires k < 8 && v <= 1
    ensures ByteBits(WithBit(b, k, v)) == ByteBits(b)[7 - k := v as int]
  {
    var c := WithBit(b, k, v);
    var s := ByteBits(b)[7 - k := v as int];
    forall i | 0 <= i < 8 ensures ByteBits(c)[i] == s[i] {
      BitAt(b, 7 - i);
      BitAt(c, 7 - i);
      WithBitAt(b, k, v, 7 - i);
    }
  }

  // ---------------------------------------------------------------- buffers

  /** The bits of a buffer, byte by byte. */
  function BufferBits(b: seq<bv8>): (s: seq<Bit>)
    ensures |s| == 8 * |b|
  {
    if b == [] then [] else ByteBits(b[0]) + BufferBits(b[1..])
  }

  lemma {:induction false} BufferBitsSplit(b: seq<bv8>, p: nat)
    requires p < |b|
    ensures BufferBits(b) == BufferBits(b[..p]) + ByteBits(b[p]) + BufferBits(b[p + 1..])
  {
    if p == 0 {
      assert b[..0] == [];
    } else {
      var t := b[1..];
      BufferBitsSplit(t, p - 1);
      assert t[..p - 1] == b[..p][1..] && t[p..] == b[p + 1..];
      Regroup(ByteBits(b[0]), BufferBits(t[..p - 1]), ByteBits(b[p]), BufferBits(t[p..]));
    }
  }

  lemma Regroup(w: seq<Bit>, x: seq<Bit>, y: seq<Bit>, z: seq<Bit>)
    ensures w + (x + y + z) == (w + x) + y + z
  {
  }

  /** The bit strings of a buffer before, in and after the byte at `p`. */
  lemma BufferBitsAt(b: seq<bv8>, p: nat, k: nat)
    requires p < |b| && k < 8
    ensures BufferBits(b)[8 * p + 7 - k] == BitOf(b[p], k)
  {
    BufferBitsSplit(b, p);
    InMiddle(BufferBits(b[..p]), ByteBits(b[p]), BufferBits(b[p + 1..]), 7 - k);
    BitAt(b[p], k);
  }

  lemma InMiddle(x: seq<Bit>, y: seq<Bit>, z: seq<Bit>, i: nat)
    requires i < |y|
    ensures (x + y + z)[|x| + i] == y[i]
  {
  }

  lemma BufferBitsPut(b: seq<bv8>, p: nat, k: nat, v: bv8)
    requires p < |b| && k < 8 && v <= 1
    ensures BufferBits(b[p := WithBit(b[p], k, v)]) == BufferBits(b)[8 * p + 7 - k := v as int]
  {
    var c := b[p := WithBit(b[p], k, v)];
    BufferBitsSplit(b, p);
    BufferBitsSplit(c, p);
    assert c[..p] == b[..p] && c[p + 1..] == b[p + 1..];
    WithBitBits(b[p], k, v);
    UpdateMiddle(BufferBits(b[..p]), ByteBits(b[p]), BufferBits(b[p + 1..]), 7 - k, v as int);
  }

  lemma UpdateMiddle(x: seq<Bit>, y: seq<Bit>, z: seq<Bit>, i: nat, v: Bit)
    requires i < |y|
    ensures (x + y + z)[|x| + i := v] == x + y[i := v] + z
  {
  }

  /** A whole byte read on a byte boundary is the number in its eight bits. */
  lemma NumberOfByte(b: seq<bv8>, p: nat)
    requires p < |b|
    ensures Stream(BufferBits(b), 8 * p).Number(8) == b[p] as nat
  {
    BufferBitsSplit(b, p);
    NumberInMiddle(BufferBits(b[..p]), b[p], BufferBits(b[p + 1..]));
  }

  lemma NumberInMiddle(x: seq<Bit>, c: bv8, z: seq<Bit>)
    ensures Stream(x + ByteBits(c) + z, |x|).Number(8) == c as nat
  {
    var s := Stream(x + ByteBits(c) + z, |x|);
    AtInMiddle(x, c, z, 7);
    AtInMiddle(x, c, z, 6);
    AtInMiddle(x, c, z, 5);
    AtInMiddle(x, c, z, 4);
    AtInMiddle(x, c, z, 3);
    AtInMiddle(x, c, z, 2);
    AtInMiddle(x, c, z, 1);
    AtInMiddle(x, c, z, 0);
    SumOfByte(s, c);
  }

  lemma AtInMiddle(x: seq<Bit>, c: bv8, z: seq<Bit>, k: nat)
    requires k < 8
    ensures Stream(x + ByteBits(c) + z, |x|).At(|x| + 7 - k) == BitOf(c, k)
  {
    InMiddle(x, ByteBits(c), z, 7 - k);
    BitAt(c, k);
  }

  lemma SumOfByte(s: Stream, b: bv8)
    requires s.At(s.pos) == BitOf(b, 7) && s.At(s.pos + 1) == BitOf(b, 6) && s.At(s.pos + 2) == BitOf(b, 5)
    requires s.At(s.pos + 3) == BitOf(b, 4) && s.At(s.pos + 4) == BitOf(b, 3) && s.At(s.pos + 5) == BitOf(b, 2)
    requires s.At(s.pos + 6) == BitOf(b, 1) && s.At(s.pos + 7) == BitOf(b, 0)
    ensures s.Number(8) == b as nat
  {
    ByteSum(b);
    Number8(s);
  }

  lemma Number8(s: Stream)
    ensures s.Number(8) == 128 * s.At(s.pos) + 64 * s.At(s.pos + 1) + 32 * s.At(s.pos + 2) + 16 * s.At(s.pos + 3)
                           + 8 * s.At(s.pos + 4) + 4 * s.At(s.pos + 5) + 2 * s.At(s.pos + 6) + s.At(s.pos + 7)
  {
    assert s.Number(1) == s.At(s.pos);
    assert s.Number(2) == 2 * s.Number(1) + s.At(s.pos + 1);
    assert s.Number(3) == 2 * s.Number(2) + s.At(s.pos + 2);
    assert s.Number(4) == 2 * s.Number(3) + s.At(s.pos + 3);
    assert s.Number(5) == 2 * s.Number(4) + s.At(s.pos + 4);
    assert s.Number(6) == 2 * s.Number(5) + s.At(s.pos + 5);
    assert s.Number(7) == 2 * s.Number(6) + s.At(s.pos + 6);
  }

  /** Storing a whole byte on a byte boundary writes the number in its eight bits. */
  lemma BufferBitsPutByte(b: seq<bv8>, p: nat, v: nat, c: bv8)
    requires p < |b| && c as nat == v % 256
    ensures Stream(BufferBits(b[p := c]), 8 * p + 8) == Stream(BufferBits(b), 8 * p).PutNumber(v, 8)
  {
    var s := Stream(BufferBits(b), 8 * p);
    var x, z := BufferBits(b[..p]), BufferBits(b[p + 1..]);
    BufferBitsSplit(b, p);
    BufferBitsSplit(b[p := c], p);
    assert b[p := c][..p] == b[..p] && b[p := c][p + 1..] == b[p + 1..];
    PutNumberBits(s, v, 8);
    assert s.bits[..s.pos] == x && s.bits[s.pos + 8..] == z;
    ByteBitsOf(c, v);
  }

  lemma ByteBitsOf(c: bv8, v: nat)
    requires c as nat == v % 256
    ensures ByteBits(c) == BitsOf(v, 8)
  {
    ValueOfByte(c);
    ValueBitsOf(v, 8);
    Pow2Of32();
    BitsOfValue(ByteBits(c));
    BitsOfValue(BitsOf(v, 8));
  }

  lemma ValueOfByte(c: bv8)
    ensures Value(ByteBits(c)) == c as nat
  {
    var s := Stream(ByteBits(c), 0);
    assert s.bits[0..8] == s.bits;
    BitAt(c, 7);
    BitAt(c, 6);
    BitAt(c, 5);
    BitAt(c, 4);
    BitAt(c, 3);
    BitAt(c, 2);
    BitAt(c, 1);
    BitAt(c, 0);
    SumOfByte(s, c);
    NumberOfPrefix(s, ByteBits(c));
  }

  lemma {:induction false} ValueBitsOf(v: nat, n: nat)
    ensures Value(BitsOf(v, n)) == v % Pow2(n)
  {
    if n > 0 {
      ValueBitsOf(v / 2, n - 1);
      ModTwice(v, Pow2(n - 1));
      assert BitsOf(v, n)[..n - 1] == BitsOf(v / 2, n - 1);
    }
  }

  lemma {:induction false} BitsOfValue(s: seq<Bit>)
    ensures BitsOf(Value(s), |s|) == s
  {
    if s != [] {
      BitsOfValue(s[..|s| - 1]);
      assert s == s[..|s| - 1] + [s[|s| - 1]];
    }
  }

  // ---------------------------------------------------------------- steps of the loops

  /** One turn of the loop of bs_read_u: `result = (result << 1) | bit` in 32 bits. */
  lemma ReadStep(s: Stream, n: nat, result: nat)
    requires s.Valid() && result == Low32(s.Number(n))
    ensures 2 * result % TWO_32 + s.Advance(n).At(s.Advance(n).pos) == Low32(s.Number(n + 1))
    ensures s.Advance(n + 1) == s.Advance(n).Advance(1)
  {
    Low32Twice(s.Number(n), s.At(s.pos + n));
  }

  lemma Low32Twice(v: nat, b: Bit)
    ensures Low32(2 * v + b) == 2 * Low32(v) % TWO_32 + b
  {
    var q, r := v / TWO_32, v % TWO_32;
    if r < 0x8000_0000 {
      RemainderUnique(2 * v + b, TWO_32, 2 * q, 2 * r + b);
    } else {
      RemainderUnique(2 * v + b, TWO_32, 2 * q + 1, 2 * r + b - TWO_32);
      RemainderUnique(2 * r, TWO_32, 1, 2 * r - TWO_32);
    }
  }

  /** One turn of the loop of bs_read_ull: `r |= bit << i`. */
  lemma ReadUllStep(s: Stream, n: nat, r: nat, i: nat)
    requires s.Valid() && r == ShiftLeft(s.Number(n), i + 1)
    ensures r + ShiftLeft(s.Advance(n).At(s.Advance(n).pos), i) == ShiftLeft(s.Number(n + 1), i)
    ensures s.Advance(n + 1) == s.Advance(n).Advance(1)
  {
    ShiftLeftAdd(s.Number(n), 1, i);
    assert ShiftLeft(s.Number(n), 1) == 2 * s.Number(n);
    ShiftLeftSum(2 * s.Number(n), s.At(s.pos + n), i);
  }

  /** One turn of the loop of bs_read_uN: `r += byte << k`. */
  lemma ReadBytesStep(s: Stream, n: nat, r: nat, k: nat)
    requires s.Valid() && r == ShiftLeft(s.Number(n), k + 8)
    ensures r + ShiftLeft(s.Advance(n).Number(8), k) == ShiftLeft(s.Number(n + 8), k)
    ensures s.Advance(n + 8) == s.Advance(n).Advance(8)
  {
    NumberSplit(s, n, 8);
    ShiftLeftAdd(s.Number(n), 8, k);
    ShiftLeftSum(ShiftLeft(s.Number(n), 8), s.Advance(n).Number(8), k);
  }

  /** A byte shifted to its place, in 64 bits or in 32, where it fits. */
  function ShiftByte(b: nat, k: nat, wide: bool): (r: nat)
    requires b < 256 && (wide || k <= 24)
    ensures r == ShiftLeft(b, k)
  {
    if wide then ShiftLeft(b, k) else (FitsIn32(b, k); ShiftLeft(b, k) % TWO_32)
  }

  lemma FitsIn32(b: nat, k: nat)
    requires b < 256 && k <= 24
    ensures ShiftLeft(b, k) < TWO_32
  {
    Pow2Of32();
    ShiftLeftBound(b, 8, k);
    Pow2Monotone(8 + k, 32);
  }

  /** One turn of the loop of bs_write_u: bit `i` of `v`. */
  lemma PutStep(s: Stream, v: nat, n: nat, i: nat)
    requires i < n
    ensures s.PutNumber(ShiftRight(v, i + 1), n - (i + 1)).PutBit(ShiftRight(v, i) % 2 % 2) ==
            s.PutNumber(ShiftRight(v, i), n - i)
  {
    ShiftRightOnce(v, i);
  }

  /** One turn of the loop of bs_write_uN, for the `n` bits of `v` above the `i` lowest, behind `m` bits above them. */
  lemma PutPieceStep(s: Stream, v: nat, i: nat, m: nat, n: nat, above: nat, all: nat)
    requires above == i + n && all == m + n
    ensures s.PutNumber(ShiftRight(v, above), m).PutNumber(ShiftRight(v, i), n) == s.PutNumber(ShiftRight(v, i), all)
  {
    ShiftRightAdd(v, i, n);
    PutSplit(s, ShiftRight(v, i), m, n);
  }

  lemma {:induction false} PutSplit(s: Stream, v: nat, m: nat, n: nat)
    ensures s.PutNumber(v, m + n) == s.PutNumber(ShiftRight(v, n), m).PutNumber(v, n)
    decreases n
  {
    if n > 0 { PutSplit(s, v / 2, m, n - 1); }
  }

  lemma ScanZerosStep(s: Stream, i: nat)
    requires i <= 32
    ensures s.At(s.pos) == 0 && i < 32 && !s.Advance(1).Eof() ==> ScanZeros(s, i) == ScanZeros(s.Advance(1), i + 1)
    ensures !(s.At(s.pos) == 0 && i < 32 && !s.Advance(1).Eof()) ==> ScanZeros(s, i) == (i, s.Advance(1))
  {
  }

  lemma ReadUeFinish(s: Stream, i: nat, t: Stream)
    requires ScanZeros(s, 0) == (i, t)
    ensures ReadUeSpec(s) == (Low32(t.Number(i) + Pow2(i) - 1), t.Advance(i))
  {
  }

  lemma Low32Sum(x: nat, y: int)
    ensures Low32(Low32(x) + y) == Low32(x + y)
  {
    var q, r := x / TWO_32, (x % TWO_32 + y) % TWO_32;
    RemainderUnique(x + y, TWO_32, q + (x % TWO_32 + y) / TWO_32, r);
  }

  // ---------------------------------------------------------------- the cursor

  class BitStream {
    var buf: array<bv8>
    var p: nat
    var bitsLeft: nat

    ghost predicate Valid()
      reads this
    {
      p <= buf.Length && 1 <= bitsLeft <= 8 && (p == buf.Length ==> bitsLeft == 8)
    }

    ghost function Abs(): (s: Stream)
      requires Valid()
      reads this, buf
      ensures s.Valid()
      ensures |s.bits| == 8 * buf.Length
      ensures s.Eof() <==> p == buf.Length
    {
      Stream(BufferBits(buf[..]), 8 * p + 8 - bitsLeft)
    }

    /** bs_init: the cursor stands before the first bit. */
    constructor (b: array<bv8>)
      ensures Valid() && buf == b && Abs() == Stream(BufferBits(b[..]), 0)
    {
      buf, p, bitsLeft := b, 0, 8;
    }

    /** bs_eof */
    method Eof() returns (e: bool)
      requires Valid()
      ensures e == Abs().Eof()
    {
      e := p >= buf.Length;
    }

    /** bs_read_u1 */
    method ReadU1() returns (bit: Bit)
      requires Valid()
      modifies this`p, this`bitsLeft
      ensures Valid() && Abs() == old(Abs()).Advance(1)
      ensures bit == old(Abs()).At(old(Abs()).pos)
    {
      if p >= buf.Length { return 0; }
      BufferBitsAt(buf[..], p, bitsLeft - 1);
      bitsLeft := bitsLeft - 1;
      bit := if Shr(buf[p], bitsLeft) & 1 == 1 then 1 else 0;
      if bitsLeft == 0 {
        p, bitsLeft := p + 1, 8;
      }
    }

    /** bs_read_u */
    method ReadU(n: nat) returns (result: nat)
      requires Valid()
      modifies this`p, this`bitsLeft
      ensures Valid() && Abs() == old(Abs()).Advance(n)
      ensures result == Low32(old(Abs()).Number(n))
    {
      ghost var s := Abs();
      result := 0;
      if p >= buf.Length {
        NumberAtEof(s, n);
        return;
      }
      var i: nat := n;
      while i > 0
        invariant i <= n && Valid()
        invariant Abs() == s.Advance(n - i)
        invariant result == Low32(s.Number(n - i))
      {
        result := ShiftInBit(result, s, n - i);
        i := i - 1;
      }
    }

    /** The body of the loop of bs_read_u, after `n` bits of `s` have been read. */
    method ShiftInBit(result: nat, ghost s: Stream, ghost n: nat) returns (r: nat)
      requires Valid() && s.Valid() && Abs() == s.Advance(n) && result == Low32(s.Number(n))
      modifies this`p, this`bitsLeft
      ensures Valid() && Abs() == s.Advance(n + 1) && r == Low32(s.Number(n + 1))
    {
      ReadStep(s, n, result);
      r := 2 * result % TWO_32;
      var bit := ReadU1();
      r := r + bit;
    }

    /** bs_read_ull; a shift by 64 or more is not defined for the source. */
    method ReadUll(n: int) returns (r: nat)
      requires Valid() && n <= 64
      modifies this`p, this`bitsLeft
      ensures Valid()
      ensures n >= 1 ==> Abs() == old(Abs()).Advance(n) && r == old(Abs()).Number(n)
      ensures n < 1 ==> Abs() == old(Abs()) && r == 0
    {
      ghost var s := Abs();
      if p >= buf.Length || n < 1 {
        if n >= 1 { NumberAtEof(s, n); }
        return 0;
      }
      r := 0;
      ShiftLeftZero(n);
      var i: nat := n;
      while i > 0
        invariant i <= n && Valid()
        invariant Abs() == s.Advance(n - i)
        invariant r == ShiftLeft(s.Number(n - i), i)
      {
        i := i - 1;
        ReadUllStep(s, n - i - 1, r, i);
        var bit := ReadU1();
        r := r + ShiftLeft(bit, i);
      }
    }

    /** bs_read_u8: on a byte boundary the byte is fetched whole. */
    method ReadU8() returns (result: nat)
      requires Valid()
      modifies this`p, this`bitsLeft
      ensures Valid() && Abs() == old(Abs()).Advance(8)
      ensures result == old(Abs()).Number(8) < 256
    {
      ghost var s := Abs();
      Pow2Of32();
      NumberBound(s, 8);
      if p >= buf.Length {
        NumberAtEof(s, 8);
        return 0;
      }
      if bitsLeft == 8 {
        NumberOfByte(buf[..], p);
        result := buf[p] as nat;
        p := p + 1;
      } else {
        result := ReadU(8);
      }
    }

    /** bs_read_uN: bytes, most significant first; up to four of them are summed in 32 bits, more in 64. */
    method ReadUN(n: int) returns (r: nat)
      requires Valid() && n <= 8
      modifies this`p, this`bitsLeft
      ensures Valid()
      ensures n >= 0 ==> Abs() == old(Abs()).Advance(8 * n) && r == old(Abs()).Number(8 * n)
      ensures n < 0 ==> Abs() == old(Abs()) && r == 0
    {
      ghost var s := Abs();
      r := 0;
      if n <= 0 {
        return;
      }
      if p >= buf.Length {
        NumberAtEof(s, 8 * n);
        return;
      }
      ShiftLeftZero(8 * n);
      var i := 1;
      while i <= n
        invariant 1 <= i <= n + 1 && Valid()
        invariant Abs() == s.Advance(8 * (i - 1))
        invariant r == ShiftLeft(s.Number(8 * (i - 1)), 8 * (n - i + 1))
      {
        assert 8 * (i - 1) + 8 == 8 * (i + 1 - 1) && 8 * (n - i) + 8 == 8 * (n - i + 1);
        r := AddByte(r, 8 * (n - i), n > 4, s, 8 * (i - 1));
        i := i + 1;
      }
    }

    /** The body of the loop of bs_read_uN, after `n` bits of `s` have been read; the next byte is moved up by `k`. */
    method AddByte(r: nat, k: nat, wide: bool, ghost s: Stream, ghost n: nat) returns (t: nat)
      requires Valid() && s.Valid() && (wide || k <= 24)
      requires Abs() == s.Advance(n) && r == ShiftLeft(s.Number(n), k + 8)
      modifies this`p, this`bitsLeft
      ensures Valid() && Abs() == s.Advance(n + 8) && t == ShiftLeft(s.Number(n + 8), k)
    {
      ReadBytesStep(s, n, r, k);
      var b := ReadU8();
      t := r + ShiftByte(b, k, wide);
    }

    /** The loop of bs_read_ue that counts leading zeros. */
    method CountZeros() returns (i: nat)
      requires Valid()
      modifies this`p, this`bitsLeft
      ensures Valid() && (i, Abs()) == ScanZeros(old(Abs()), 0)
    {
      ghost var s := Abs();
      i := 0;
      var bit := ReadU1();
      ghost var before := s;
      while bit == 0 && i < 32 && p < buf.Length
        invariant Valid() && i <= 32
        invariant ScanZeros(s, 0) == ScanZeros(before, i)
        invariant Abs() == before.Advance(1) && bit == before.At(before.pos)
        decreases 32 - i
      {
        ScanZerosStep(before, i);
        before := Abs();
        i := i + 1;
        bit := ReadU1();
      }
      ScanZerosStep(before, i);
    }

    /** bs_read_ue */
    method ReadUe() returns (result: nat)
      requires Valid()
      modifies this`p, this`bitsLeft
      ensures Valid() && result == ReadUeSpec(old(Abs())).0
      ensures Abs() == ReadUeSpec(old(Abs())).1
    {
      ghost var s := Abs();
      var i := CountZeros();
      ReadUeFinish(s, i, Abs());
      result := ReadSuffix(i);
    }

    /** The end of bs_read_ue, after a prefix of `i` zeros. */
    method ReadSuffix(i: nat) returns (result: nat)
      requires Valid()
      modifies this`p, this`bitsLeft
      ensures Valid() && Abs() == old(Abs()).Advance(i)
      ensures result == Low32(old(Abs()).Number(i) + Pow2(i) - 1)
    {
      Low32Sum(Abs().Number(i), Pow2(i) - 1);
      result := ReadU(i);
      result := Low32(result + Pow2(i) - 1);
    }

    /** bs_read_se */
    method ReadSe() returns (result: int)
      requires Valid()
      modifies this`p, this`bitsLeft
      ensures Valid() && Abs() == ReadUeSpec(old(Abs())).1
      ensures result == SeOfUe(ReadUeSpec(old(Abs())).0)
    {
      var ue := ReadUe();
      result := ToInt32(ue);
      if result % 2 == 1 {
        result := Wrap32(result + 1) / 2;
      } else {
        result := -(result / 2);
      }
    }

    /** bs_write_u1 */
    method WriteU1(v: nat)
      requires Valid()
      modifies this`p, this`bitsLeft, buf
      ensures Valid() && Abs() == old(Abs()).PutBit(v % 2)
    {
      if p >= buf.Length { return; }
      var bit := LowBit(v);
      BufferBitsPut(buf[..], p, bitsLeft - 1, bit);
      bitsLeft := bitsLeft - 1;
      StoreBit(bitsLeft, bit);
      if bitsLeft == 0 {
        p, bitsLeft := p + 1, 8;
      }
    }

    /** Clears bit `k` of the byte at the cursor and sets it to `bit`. */
    method StoreBit(k: nat, bit: bv8)
      requires p < buf.Length && k < 8
      modifies buf
      ensures buf[..] == old(buf[..])[p := WithBit(old(buf[p]), k, bit)]
    {
      buf[p] := buf[p] & !Shl(1, k);
      buf[p] := buf[p] | Shl(bit, k);
    }

    /** bs_write_u; a shift by 32 or more is not defined for the source. */
    method WriteU(n: nat, v: nat)
      requires Valid() && n <= 32
      modifies this`p, this`bitsLeft, buf
      ensures Valid() && Abs() == old(Abs()).PutNumber(v, n)
    {
      ghost var s := Abs();
      if p >= buf.Length {
        PutAtEof(s, v, n);
        return;
      }
      var i: nat := n;
      while i > 0
        invariant i <= n && Valid()
        invariant Abs() == s.PutNumber(ShiftRight(v, i), n - i)
      {
        i := i - 1;
        PutBitOf(v, i, s, n);
      }
    }

    /** The body of the loop of bs_write_u for bit `i` of `v`. */
    method PutBitOf(v: nat, i: nat, ghost s: Stream, ghost n: nat)
      requires Valid() && i < n <= 32 && Abs() == s.PutNumber(ShiftRight(v, i + 1), n - (i + 1))
      modifies this`p, this`bitsLeft, buf
      ensures Valid() && Abs() == s.PutNumber(ShiftRight(v, i), n - i)
    {
      PutStep(s, v, n, i);
      WriteU1(ShiftRight(v, i) % 2);
    }

    /** bs_write_u8: on a byte boundary the byte is stored whole. */
    method WriteU8(v: nat)
      requires Valid()
      modifies this`p, this`bitsLeft, buf
      ensures Valid() && Abs() == old(Abs()).PutNumber(v, 8)
    {
      ghost var b := buf[..];
      if p >= buf.Length {
        PutAtEof(Abs(), v, 8);
        return;
      }
      if bitsLeft == 8 {
        var c := LowByte(v);
        BufferBitsPutByte(b, p, v, c);
        buf[p] := c;
        assert buf[..] == b[p := c];
        p := p + 1;
      } else {
        WriteU(8, v);
      }
    }

    /** bs_write_uN */
    method WriteUN(n: nat, v: nat)
      requires Valid() && n <= 8
      modifies this`p, this`bitsLeft, buf
      ensures Valid() && Abs() == old(Abs()).PutNumber(v, 8 * n)
    {
      ghost var s := Abs();
      if p >= buf.Length {
        PutAtEof(s, v, 8 * n);
        return;
      }
      var i: nat := n;
      while i > 0
        invariant i <= n && Valid()
        invariant Abs() == s.PutNumber(ShiftRight(v, 8 * i), 8 * (n - i))
      {
        i := i - 1;
        PutPieceStep(s, v, 8 * i, 8 * (n - (i + 1)), 8, 8 * (i + 1), 8 * (n - i));
        WriteU8(ShiftRight(v, 8 * i));
      }
    }

    // -------------------------------------------------------------- lists of fields

    /** Calls of bs_write_u, one for each field. */
    method WriteFields(fs: seq<Field>)
      requires Valid()
      modifies this`p, this`bitsLeft, buf
      ensures Valid() && Abs() == PutFields(old(Abs()), fs)
    {
      var rest := fs;
      while rest != []
        invariant Valid() && PutFields(Abs(), rest) == PutFields(old(Abs()), fs)
        decreases |rest|
      {
        WriteU(rest[0].width, rest[0].value);
        rest := rest[1..];
      }
    }

    /** Calls of bs_read_u, one for each width. */
    method ReadFields(widths: seq<Width>) returns (values: seq<nat>)
      requires Valid()
      modifies this`p, this`bitsLeft
      ensures Valid() && values == GetFields(old(Abs()), widths)
    {
      values := [];
      var rest := widths;
      ghost var goal := GetFields(Abs(), widths);
      while rest != []
        invariant Valid() && values + GetFields(Abs(), rest) == goal
        decreases |rest|
      {
        var value := ReadU(rest[0]);
        values, rest := values + [value], rest[1..];
      }
    }

    /** Fields that fit are written, and read back by a second cursor on the same buffer from where they begin. */
    method WriteAndReadBack(fs: seq<Field>, reader: BitStream) returns (values: seq<nat>)
      requires Valid() && reader != this && reader.Valid() && reader.buf == buf && reader.Abs() == Abs()
      requires Abs().pos + TotalWidth(fs) <= |Abs().bits|
      modifies this`p, this`bitsLeft, buf, reader`p, reader`bitsLeft
      ensures Valid() && reader.Valid() && values == Masked(fs)
    {
      FieldsRoundTrip(Abs(), fs);
      ghost var s := Abs();
      WriteFields(fs);
      PutFieldsFrame(s, fs);
      assert reader.Abs() == Stream(PutFields(s, fs).bits, s.pos);
      values := reader.ReadFields(Widths(fs));
    }
  }
}
