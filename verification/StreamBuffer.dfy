/**
  The ring buffer of atstest/EBPStreamBuffer.c: one write cursor, a read cursor and a peek cursor over a shared
  buffer, each with a count of how often it has wrapped round. `log` is the byte log the buffer stands for.
*/
module StreamBuffer {
  import opened ByteLog
  import opened Words

  type Uint32 = n: nat | n < TWO_32

  /** Subtraction and increment of an unsigned int. */
  function Sub32(a: Uint32, b: Uint32): Uint32 {
    if a >= b then a - b else a + TWO_32 - b
  }

  function Inc32(a: Uint32): Uint32 {
    if a + 1 == TWO_32 then 0 else a + 1
  }

  /** The difference of two wrapping counters survives their wrapping. */
  lemma LeaderWraps(a: Uint32, b: Uint32)
    requires Sub32(a, b) + 1 < TWO_32
    ensures Sub32(Inc32(a), b) == Sub32(a, b) + 1
  {
  }

  lemma FollowerWraps(a: Uint32, b: Uint32)
    requires Sub32(a, b) >= 1
    ensures Sub32(a, Inc32(b)) == Sub32(a, b) - 1
  {
  }

  // ---------------------------------------------------------------- the ring

  /** The position behind `c`, one byte on and further on, in a ring of `size` bytes. */
  function Next(size: nat, c: nat): nat {
    if c + 1 == size then 0 else c + 1
  }

  function Wrapped(size: nat, c: nat): nat {
    if c >= size then c - size else c
  }

  /** The `n` bytes from position `c` on, round the ring. */
  function Ahead(b: seq<Byte>, c: nat, n: nat): (s: seq<Byte>)
    requires c < |b|
    ensures |s| == n
    decreases n
  {
    if n == 0 then [] else [b[c]] + Ahead(b, Next(|b|, c), n - 1)
  }

  /** The ring after the bytes of `d` have been stored one by one from `w` on. */
  function Stored(b: seq<Byte>, w: nat, d: seq<Byte>): (e: seq<Byte>)
    requires w < |b|
    ensures |e| == |b|
    decreases |d|
  {
    if d == [] then b else Stored(b[w := d[0]], Next(|b|, w), d[1..])
  }

  lemma {:induction false} AheadSum(b: seq<Byte>, c: nat, m: nat, n: nat)
    requires c < |b| && m <= |b|
    ensures Ahead(b, c, m + n) == Ahead(b, c, m) + Ahead(b, Wrapped(|b|, c + m), n)
    decreases m
  {
    if m == 0 {
      assert Ahead(b, c, 0) + Ahead(b, c, n) == Ahead(b, c, n);
    } else {
      var x, y := Ahead(b, Next(|b|, c), m - 1), Ahead(b, Wrapped(|b|, c + m), n);
      AheadSum(b, Next(|b|, c), m - 1, n);
      assert [b[c]] + (x + y) == ([b[c]] + x) + y;
    }
  }

  /** A byte further on than `n` is not among the next `n`. */
  lemma {:induction false} AheadFrame(b: seq<Byte>, c: nat, n: nat, k: nat, x: Byte)
    requires c < |b| && n <= k < |b|
    ensures Ahead(b[Wrapped(|b|, c + k) := x], c, n) == Ahead(b, c, n)
    decreases n
  {
    if n > 0 {
      AheadFrame(b, Next(|b|, c), n - 1, k - 1, x);
    }
  }

  lemma StoreOne(b: seq<Byte>, c: nat, k: nat, x: Byte)
    requires c < |b| && k < |b|
    ensures Ahead(b[Wrapped(|b|, c + k) := x], c, k + 1) == Ahead(b, c, k) + [x]
  {
    var w := Wrapped(|b|, c + k);
    var e := b[w := x];
    AheadSum(e, c, k, 1);
    AheadFrame(b, c, k, k, x);
    assert Ahead(e, Next(|e|, w), 0) == [];
    assert Ahead(e, w, 1) == [x];
  }

  /** Bytes that fit come behind the `k` that a cursor at `c` has still to see, and change none of those. */
  lemma {:induction false} WriteExtends(b: seq<Byte>, c: nat, k: nat, d: seq<Byte>)
    requires c < |b| && k + |d| <= |b|
    ensures Ahead(Stored(b, Wrapped(|b|, c + k), d), c, k + |d|) == Ahead(b, c, k) + d
    decreases |d|
  {
    if d == [] {
      assert Ahead(b, c, k) + d == Ahead(b, c, k);
    } else {
      var e := b[Wrapped(|b|, c + k) := d[0]];
      StoreOne(b, c, k, d[0]);
      if |d| == 1 {
        assert d == [d[0]];
      } else {
        WriteExtends(e, c, k + 1, d[1..]);
        assert Ahead(b, c, k) + d == (Ahead(b, c, k) + [d[0]]) + d[1..];
      }
    }
  }

  /** A cursor at `c` that the write cursor at `w` has overtaken `laps` times. */
  predicate InRing(size: nat, c: nat, w: nat, laps: nat) {
    c < size && w < size && ((laps == 0 && c <= w) || (laps == 1 && w <= c))
  }

  /** How many bytes it has still to see. */
  function Pending(size: nat, c: nat, w: nat, laps: nat): (n: nat)
    requires InRing(size, c, w, laps)
    ensures n <= size && Wrapped(size, c + n) == w
  {
    if laps == 0 then w - c else size + w - c
  }

  // ---------------------------------------------------------------- a cursor with its wrapping counter

  function Counted(size: nat, c: nat, t: Uint32): Uint32 {
    if c >= size then Inc32(t) else t
  }

  /** The same with the wrapping counters of the two; `n` is the number of bytes to be seen. */
  predicate Cursors(size: nat, c: nat, w: nat, wt: Uint32, t: Uint32, n: nat) {
    InRing(size, c, w, Sub32(wt, t)) && n == Pending(size, c, w, Sub32(wt, t))
  }

  /** `tail` is what the cursor at `c`, which has wrapped `t` times, has still to see. */
  predicate Window(b: seq<Byte>, c: nat, w: nat, wt: Uint32, t: Uint32, tail: seq<Byte>) {
    Cursors(|b|, c, w, wt, t, |tail|) && tail == Ahead(b, c, |tail|)
  }

  lemma WriterMoves(size: nat, c: nat, w: nat, wt: Uint32, t: Uint32, n: nat, k: nat)
    requires Cursors(size, c, w, wt, t, n) && n + k <= size
    ensures Cursors(size, c, Wrapped(size, w + k), Counted(size, w + k, wt), t, n + k)
  {
    if w + k >= size {
      LeaderWraps(wt, t);
    }
  }

  lemma ReaderMoves(size: nat, c: nat, w: nat, wt: Uint32, t: Uint32, n: nat, k: nat)
    requires Cursors(size, c, w, wt, t, n) && k <= n
    ensures Cursors(size, Wrapped(size, c + k), w, wt, Counted(size, c + k, t), n - k)
  {
    if c + k >= size {
      FollowerWraps(wt, t);
    }
  }

  /** The same with the numbers of bytes that the sequences have. */
  lemma AheadWrite(b: seq<Byte>, c: nat, w: nat, tail: seq<Byte>, d: seq<Byte>)
    requires c < |b| && w < |b| && w == Wrapped(|b|, c + |tail|) && |d| + |tail| <= |b| && tail == Ahead(b, c, |tail|)
    ensures Ahead(Stored(b, w, d), c, |tail + d|) == tail + d
  {
    WriteExtends(b, c, |tail|, d);
  }

  lemma WindowWrite(b: seq<Byte>, c: nat, w: nat, wt: Uint32, t: Uint32, tail: seq<Byte>, d: seq<Byte>)
    requires Window(b, c, w, wt, t, tail) && |d| + |tail| <= |b|
    ensures Window(Stored(b, w, d), c, Wrapped(|b|, w + |d|), Counted(|b|, w + |d|, wt), t, tail + d)
  {
    WriterMoves(|b|, c, w, wt, t, |tail|, |d|);
    AheadWrite(b, c, w, tail, d);
  }

  /** The first bytes that a cursor has still to see, and the rest, which remain. */
  lemma ReadShrinks(b: seq<Byte>, c: nat, w: nat, wt: Uint32, t: Uint32, tail: seq<Byte>, n: nat)
    requires Window(b, c, w, wt, t, tail) && n <= |tail|
    ensures Ahead(b, c, n) == tail[..n]
    ensures Window(b, Wrapped(|b|, c + n), w, wt, Counted(|b|, c + n, t), tail[n..])
  {
    ReaderMoves(|b|, c, w, wt, t, |tail|, n);
    AheadSum(b, c, n, |tail| - n);
  }

  /** However the counters have wrapped, the size formula with its unsigned product counts the bytes to be seen. */
  lemma WindowSize(b: seq<Byte>, c: nat, w: nat, wt: Uint32, t: Uint32, tail: seq<Byte>)
    requires Window(b, c, w, wt, t, tail) && |b| < TWO_32
    ensures |b| * Sub32(wt, t) % TWO_32 + w - c == |tail|
  {
    assert Sub32(wt, t) == 0 || Sub32(wt, t) == 1;
  }

  // ---------------------------------------------------------------- memcpy

  /** What memcpy leaves in its target: `d` at `to`, byte by byte. */
  function Copied(was: seq<Byte>, to: nat, d: seq<Byte>): (r: seq<Byte>)
    requires to + |d| <= |was|
    ensures |r| == |was|
    decreases |d|
  {
    if d == [] then was else Copied(was[to := d[0]], to + 1, d[1..])
  }

  lemma {:induction false} CopiedAt(was: seq<Byte>, to: nat, d: seq<Byte>, i: nat)
    requires to + |d| <= |was| && i < |was|
    ensures Copied(was, to, d)[i] == if to <= i < to + |d| then d[i - to] else was[i]
    decreases |d|
  {
    if d != [] {
      CopiedAt(was[to := d[0]], to + 1, d[1..], i);
    }
  }

  lemma CopiedIs(was: seq<Byte>, to: nat, d: seq<Byte>, r: seq<Byte>)
    requires to + |d| <= |was| == |r|
    requires forall i :: 0 <= i < |was| ==> r[i] == if to <= i < to + |d| then d[i - to] else was[i]
    ensures r == Copied(was, to, d)
  {
    forall i | 0 <= i < |was| ensures r[i] == Copied(was, to, d)[i] {
      CopiedAt(was, to, d, i);
    }
  }

  method MemCpy(dst: array<Byte>, to: nat, src: array<Byte>, from: nat, n: nat)
    requires dst != src && to + n <= dst.Length && from + n <= src.Length
    modifies dst
    ensures dst[..] == Copied(old(dst[..]), to, src[from..from + n])
  {
    ghost var was, d := dst[..], src[from..from + n];
    forall k | 0 <= k < n { dst[to + k] := src[from + k]; }
    assert d == src[from..from + n];
    CopiedIs(was, to, d, dst[..]);
  }

  lemma {:induction false} CopiedSum(was: seq<Byte>, to: nat, x: seq<Byte>, y: seq<Byte>)
    requires to + |x| + |y| <= |was|
    ensures Copied(was, to, x + y) == Copied(Copied(was, to, x), to + |x|, y)
    decreases |x|
  {
    if x == [] {
      assert x + y == y;
    } else {
      CopiedSum(was[to := x[0]], to + 1, x[1..], y);
      assert (x + y)[1..] == x[1..] + y;
    }
  }

  /** Copying over the front. */
  lemma CopiedFront(was: seq<Byte>, d: seq<Byte>)
    requires |d| <= |was|
    ensures Copied(was, 0, d)[..|d|] == d && Copied(was, 0, d)[|d|..] == was[|d|..]
  {
    forall i | 0 <= i < |was| ensures Copied(was, 0, d)[i] == if i < |d| then d[i] else was[i] {
      CopiedAt(was, 0, d, i);
    }
  }

  /** Short of the end, memcpy stores as into the ring. */
  lemma {:induction false} CopiedStores(b: seq<Byte>, w: nat, d: seq<Byte>)
    requires w < |b| && w + |d| <= |b|
    ensures Copied(b, w, d) == Stored(b, w, d)
    decreases |d|
  {
    if |d| > 1 {
      CopiedStores(b[w := d[0]], w + 1, d[1..]);
    } else if |d| == 1 {
      assert d[1..] == [];
    }
  }

  lemma {:induction false} StoredSum(b: seq<Byte>, w: nat, x: seq<Byte>, y: seq<Byte>)
    requires w < |b| && |x| <= |b|
    ensures Stored(b, w, x + y) == Stored(Stored(b, w, x), Wrapped(|b|, w + |x|), y)
    decreases |x|
  {
    if x == [] {
      assert x + y == y;
    } else {
      StoredSum(b[w := x[0]], Next(|b|, w), x[1..], y);
      assert (x + y)[1..] == x[1..] + y;
    }
  }

  /** The two copies of cb_write, up to the end first and the rest at the front, store the bytes round the ring. */
  lemma TwoStores(b: seq<Byte>, w: nat, d: seq<Byte>, s: nat)
    requires w < |b| && |d| <= |b|
    requires s == if |b| - w > |d| then |d| else |b| - w
    ensures Copied(Copied(b, w, d[..s]), Wrapped(|b|, w + s), d[s..]) == Stored(b, w, d)
  {
    CopiedStores(b, w, d[..s]);
    CopiedStores(Stored(b, w, d[..s]), Wrapped(|b|, w + s), d[s..]);
    StoredSum(b, w, d[..s], d[s..]);
    assert d == d[..s] + d[s..];
  }

  lemma {:induction false} AheadSlice(b: seq<Byte>, c: nat, n: nat)
    requires c < |b| && c + n <= |b|
    ensures Ahead(b, c, n) == b[c..c + n]
    decreases n
  {
    if n == 1 {
      assert Ahead(b, Next(|b|, c), 0) == [];
    } else if n > 1 {
      AheadSlice(b, c + 1, n - 1);
    }
  }

  /** The two copies of cb_read_or_peek fetch the bytes round the ring. */
  lemma TwoFetches(was: seq<Byte>, b: seq<Byte>, c: nat, n: nat, s: nat)
    requires c < |b| && n <= |b| && n <= |was|
    requires s == if |b| - c > n then n else |b| - c
    ensures var v := Wrapped(|b|, c + s);
            Copied(Copied(was, 0, b[c..c + s]), s, b[v..v + (n - s)]) == Copied(was, 0, Ahead(b, c, n))
  {
    var v := Wrapped(|b|, c + s);
    AheadSum(b, c, s, n - s);
    AheadSlice(b, c, s);
    AheadSlice(b, v, n - s);
    CopiedSum(was, 0, Ahead(b, c, s), Ahead(b, v, n - s));
  }

  // ---------------------------------------------------------------- the log beside the ring

  /** Appending to the log appends to every tail of it. */
  lemma AppendSlices(s: seq<Byte>, d: seq<Byte>, i: nat)
    requires i <= |s|
    ensures (s + d)[i..] == s[i..] + d
  {
  }

  lemma SliceOfTail(s: seq<Byte>, c: nat, k: nat)
    requires c + k <= |s|
    ensures s[c..][..k] == s[c..c + k] && s[c..][k..] == s[c + k..]
    ensures c + k == |s| ==> s[c..][..k] == s[c..]
  {
  }

  /** The log's answer to a read or peek, in terms of what its cursor has still to see. */
  lemma TakeIsPrefix(s: Log, n: nat, isPeek: bool, k: nat)
    requires s.Valid() && k == if |s.bytes| - s.Cursor(isPeek) > n then n else |s.bytes| - s.Cursor(isPeek)
    ensures s.bytes[s.Cursor(isPeek) + k..] == s.bytes[s.Cursor(isPeek)..][k..]
    ensures Step(s, Resume(n, isPeek)) == (Moved(s, isPeek, k), Returned(k, s.bytes[s.Cursor(isPeek)..][..k]))
  {
    SliceOfTail(s.bytes, s.Cursor(isPeek), k);
  }

  /** A cursor moves on by `k` bytes; a read takes the peek cursor along. */
  function Moved(s: Log, isPeek: bool, k: nat): Log {
    if isPeek then s.(peek := s.peek + k) else s.(read := s.read + k, peek := s.read + k)
  }

  class CircularBuffer {
    var buf: array<Byte>
    var bufSz: nat
    var writePtr: nat
    var readPtr: nat
    var peekPtr: nat
    var writeBufferTraversals: Uint32
    var readBufferTraversals: Uint32
    var peekBufferTraversals: Uint32
    var disabled: bool
    ghost var log: Log

    /** A cursor sees in the ring exactly the part of the log from its position on. */
    ghost predicate Sees(c: nat, traversals: Uint32, pos: nat)
      reads this, buf
    {
      pos <= |log.bytes| && Window(buf[..], c, writePtr, writeBufferTraversals, traversals, log.bytes[pos..])
    }

    ghost predicate Valid()
      reads this, buf
    {
      && 0 < bufSz == buf.Length < 0x8000_0000
      && log.Valid() && log.capacity == bufSz && log.disabled == disabled
      && Sees(readPtr, readBufferTraversals, log.read)
      && Sees(peekPtr, peekBufferTraversals, log.peek)
    }

    /** cb_init on a zeroed struct */
    constructor (bufferSz: nat)
      requires 0 < bufferSz < 0x8000_0000
      ensures Valid() && fresh(buf)
      ensures log == Log([], 0, 0, bufferSz, false)
    {
      buf := new Byte[bufferSz];
      bufSz := bufferSz;
      writePtr, readPtr, peekPtr := 0, 0, 0;
      writeBufferTraversals, readBufferTraversals, peekBufferTraversals := 0, 0, 0;
      disabled := false;
      log := Log([], 0, 0, bufferSz, false);
    }

    /** cb_empty: an empty log, and still disabled if it was. */
    method Empty()
      requires Valid()
      modifies this
      ensures Valid() && buf == old(buf)
      ensures log == Log([], 0, 0, old(log).capacity, old(log).disabled)
    {
      writePtr, readPtr, peekPtr := 0, 0, 0;
      writeBufferTraversals, readBufferTraversals, peekBufferTraversals := 0, 0, 0;
      log := Log([], 0, 0, log.capacity, log.disabled);
    }

    /** cb_disable */
    method Disable() returns (ret: int)
      requires Valid()
      modifies this`disabled, this`log
      ensures Valid() && (log, Returned(ret, [])) == Step(old(log), Event.Disable)
    {
      disabled := true;
      log := log.(disabled := true);
      return 0;
    }

    /** cb_read_size_internal and cb_peek_size_internal */
    method SizeInternal(isPeek: bool) returns (size: int)
      requires Valid()
      ensures size == |log.bytes| - log.Cursor(isPeek)
    {
      if isPeek {
        WindowSize(buf[..], peekPtr, writePtr, writeBufferTraversals, peekBufferTraversals, log.bytes[log.peek..]);
        return bufSz * Sub32(writeBufferTraversals, peekBufferTraversals) % TWO_32 + writePtr - peekPtr;
      } else {
        WindowSize(buf[..], readPtr, writePtr, writeBufferTraversals, readBufferTraversals, log.bytes[log.read..]);
        return bufSz * Sub32(writeBufferTraversals, readBufferTraversals) % TWO_32 + writePtr - readPtr;
      }
    }

    /** cb_available_write_size */
    method AvailableWriteSize() returns (size: int)
      requires Valid()
      ensures size == log.Space()
    {
      var used := SizeInternal(false);
      size := bufSz - used;
    }

    /** The two memcpy calls of cb_write. */
    method Store(bytes: array<Byte>, bytesSz: nat)
      requires bytes != buf && bytesSz <= bytes.Length && bufSz == buf.Length
      requires writePtr < bufSz && bytesSz <= bufSz
      modifies this`writePtr, this`writeBufferTraversals, buf
      ensures buf[..] == Stored(old(buf[..]), old(writePtr), bytes[..bytesSz])
      ensures writePtr == Wrapped(bufSz, old(writePtr) + bytesSz)
      ensures writeBufferTraversals == Counted(bufSz, old(writePtr) + bytesSz, old(writeBufferTraversals))
    {
      ghost var b, w, d := buf[..], writePtr, bytes[..bytesSz];
      var sz1 := bufSz - writePtr;
      if sz1 > bytesSz {
        sz1 := bytesSz;
      }
      var sz2 := bytesSz - sz1;
      assert bytes[0..0 + sz1] == d[..sz1] && bytes[sz1..sz1 + sz2] == d[sz1..];
      TwoStores(b, w, d, sz1);
      MemCpy(buf, writePtr, bytes, 0, sz1);
      writePtr := writePtr + sz1;
      if writePtr >= bufSz {
        writePtr := 0;
        writeBufferTraversals := Inc32(writeBufferTraversals);
      }
      assert writePtr == Wrapped(bufSz, w + sz1);
      MemCpy(buf, writePtr, bytes, sz1, sz2);
      assert buf[..] == Stored(b, w, d);
      writePtr := writePtr + sz2;
    }

    /** The stored bytes come behind all that either cursor has still to see. */
    method Append(bytes: array<Byte>, bytesSz: nat, ghost unread: seq<Byte>, ghost unpeeked: seq<Byte>)
      requires bytes != buf && bytesSz <= bytes.Length && bufSz == buf.Length
      requires Window(buf[..], readPtr, writePtr, writeBufferTraversals, readBufferTraversals, unread)
      requires Window(buf[..], peekPtr, writePtr, writeBufferTraversals, peekBufferTraversals, unpeeked)
      requires bytesSz + |unread| <= bufSz && bytesSz + |unpeeked| <= bufSz
      modifies this`writePtr, this`writeBufferTraversals, buf
      ensures var d := bytes[..bytesSz];
              && Window(buf[..], readPtr, writePtr, writeBufferTraversals, readBufferTraversals, unread + d)
              && Window(buf[..], peekPtr, writePtr, writeBufferTraversals, peekBufferTraversals, unpeeked + d)
    {
      ghost var b, w, wt, d := buf[..], writePtr, writeBufferTraversals, bytes[..bytesSz];
      WindowWrite(b, readPtr, w, wt, readBufferTraversals, unread, d);
      WindowWrite(b, peekPtr, w, wt, peekBufferTraversals, unpeeked, d);
      Store(bytes, bytesSz);
    }

    /** cb_write */
    method Write(bytes: array<Byte>, bytesSz: nat) returns (ret: int)
      requires Valid() && bytes != buf && bytesSz <= bytes.Length
      modifies this`writePtr, this`writeBufferTraversals, this`log, buf
      ensures Valid() && (log, Returned(ret, [])) == Step(old(log), Event.Write(bytes[..bytesSz]))
    {
      if disabled {
        return DISABLED;
      }
      var used := SizeInternal(false);
      var availableSz := bufSz - used;
      if bytesSz > availableSz {
        return NO_SPACE;
      }
      ghost var d := bytes[..bytesSz];
      AppendSlices(log.bytes, d, log.read);
      AppendSlices(log.bytes, d, log.peek);
      Append(bytes, bytesSz, log.bytes[log.read..], log.bytes[log.peek..]);
      log := log.(bytes := log.bytes + d);
      return 0;
    }

    /** The two memcpy calls of cb_read_or_peek, for the cursor at `start`. */
    method Fetch(bytes: array<Byte>, start: nat, sizeToCopy: nat) returns (c: nat, wrapped: bool)
      requires bytes != buf && sizeToCopy <= bytes.Length && bufSz == buf.Length
      requires start < bufSz && sizeToCopy <= bufSz
      modifies bytes
      ensures bytes[..] == Copied(old(bytes[..]), 0, Ahead(buf[..], start, sizeToCopy))
      ensures c == Wrapped(bufSz, start + sizeToCopy) && wrapped == (start + sizeToCopy >= bufSz)
    {
      ghost var was, b := bytes[..], buf[..];
      c, wrapped := start, false;
      var sz1 := bufSz - c;
      if sz1 > sizeToCopy {
        sz1 := sizeToCopy;
      }
      var sz2 := sizeToCopy - sz1;
      TwoFetches(was, b, start, sizeToCopy, sz1);
      MemCpy(bytes, 0, buf, c, sz1);
      c := c + sz1;
      if c >= bufSz {
        c, wrapped := 0, true;
      }
      assert c == Wrapped(bufSz, start + sz1);
      MemCpy(bytes, sz1, buf, c, sz2);
      c := c + sz2;
    }

    /** They take the first bytes that the cursor has still to see. */
    method FetchTail(bytes: array<Byte>, start: nat, traversals: Uint32, n: nat, ghost tail: seq<Byte>)
      returns (c: nat, t: Uint32)
      requires bytes != buf && bufSz == buf.Length && n <= |tail| && n <= bytes.Length
      requires Window(buf[..], start, writePtr, writeBufferTraversals, traversals, tail)
      modifies bytes
      ensures bytes[..n] == tail[..n] && bytes[n..] == old(bytes[n..])
      ensures Window(buf[..], c, writePtr, writeBufferTraversals, t, tail[n..])
    {
      ReadShrinks(buf[..], start, writePtr, writeBufferTraversals, traversals, tail, n);
      CopiedFront(bytes[..], tail[..n]);
      ghost var was := bytes[..];
      assert was[n..] == bytes[n..];
      var wrapped;
      c, wrapped := Fetch(bytes, start, n);
      t := if wrapped then Inc32(traversals) else traversals;
      assert bytes[..n] == bytes[..][..n] && bytes[n..] == bytes[..][n..];
    }

    /** The part of cb_read_or_peek after the bytes in use have been counted. */
    method CopyOut(bytes: array<Byte>, bytesSz: nat, isPeek: bool) returns (ret: int)
      requires Valid() && bytes != buf && bytesSz <= bytes.Length
      modifies this, bytes
      ensures Valid() && buf == old(buf)
      ensures 0 <= ret <= bytes.Length
      ensures (log, Returned(ret, bytes[..ret])) == Step(old(log), Resume(bytesSz, isPeek))
      ensures bytes[ret..] == old(bytes[ret..])
    {
      var usedSz := SizeInternal(isPeek);
      var sizeToCopy := usedSz;
      if usedSz > bytesSz {
        sizeToCopy := bytesSz;
      }
      var start := if isPeek then peekPtr else readPtr;
      var t := if isPeek then peekBufferTraversals else readBufferTraversals;
      TakeIsPrefix(log, bytesSz, isPeek, sizeToCopy);
      start, t := FetchTail(bytes, start, t, sizeToCopy, log.bytes[log.Cursor(isPeek)..]);
      MoveCursor(isPeek, start, t, sizeToCopy);
      return sizeToCopy;
    }

    /** The end of cb_read_or_peek: a read takes the peek cursor along. */
    method MoveCursor(isPeek: bool, c: nat, t: Uint32, ghost k: nat)
      requires Valid() && Sees(c, t, log.Cursor(isPeek) + k)
      modifies this`readPtr, this`peekPtr, this`readBufferTraversals, this`peekBufferTraversals, this`log
      ensures Valid() && log == Moved(old(log), isPeek, k)
    {
      if isPeek {
        peekPtr, peekBufferTraversals := c, t;
      } else {
        readPtr, readBufferTraversals := c, t;
        peekPtr, peekBufferTraversals := c, t;
      }
      log := Moved(log, isPeek, k);
    }

    /**
      cb_read and cb_peek up to the point where the calling thread either has its answer or goes to sleep with
      the mutex released; a sleeper that is woken continues with CopyOut.
    */
    method ReadOrPeek(bytes: array<Byte>, bytesSz: nat, isPeek: bool) returns (ret: int, waits: bool)
      requires Valid() && bytes != buf && bytesSz <= bytes.Length
      modifies this, bytes
      ensures Valid() && buf == old(buf)
      ensures ret <= bytes.Length
      ensures (log, if waits then Waits else Returned(ret, if ret >= 0 then bytes[..ret] else []))
              == Step(old(log), Get(bytesSz, isPeek))
      ensures waits || ret < 0 ==> bytes[..] == old(bytes[..])
      ensures !waits && ret == DISABLED <==> old(log).disabled && old(log).Cursor(isPeek) == |old(log).bytes|
    {
      var usedSz := SizeInternal(isPeek);
      if usedSz == 0 {
        if disabled { return DISABLED, false; }
        return 0, true;
      }
      ret := CopyOut(bytes, bytesSz, isPeek);
      waits := false;
    }
  }
}
