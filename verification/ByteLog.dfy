/**
  What the ring buffer of atstest/EBPStreamBuffer.c stands for: an unbounded log of the bytes written, with a
  read and a peek position in it. Each locked section of the source is one event.
*/
module ByteLog {

  import opened Words

  const DISABLED: int := -99
  const NO_SPACE: int := -1
  const PACKET: nat := 188

  datatype Log = Log(bytes: seq<Byte>, read: nat, peek: nat, capacity: nat, disabled: bool) {
    predicate Valid() {
      read <= peek <= |bytes| <= read + capacity
    }

    /** cb_available_write_size */
    function Space(): int {
      capacity - (|bytes| - read)
    }

    function Cursor(isPeek: bool): nat {
      if isPeek then peek else read
    }

    /** cb_write */
    function Write(data: seq<Byte>): (Log, int) {
      if disabled then (this, DISABLED)
      else if |data| > Space() then (this, NO_SPACE)
      else (this.(bytes := bytes + data), 0)
    }

    /** The bytes that a read or peek of at most `n` bytes takes. */
    function Taken(n: nat, isPeek: bool): seq<Byte>
      requires Valid()
    {
      var c := Cursor(isPeek);
      if |bytes| - c <= n then bytes[c..] else bytes[c..c + n]
    }

    /** The cursor moves over what was taken; a read takes the peek cursor along. */
    function Take(n: nat, isPeek: bool): Log
      requires Valid()
    {
      var c := Cursor(isPeek) + |Taken(n, isPeek)|;
      if isPeek then this.(peek := c) else this.(read := c, peek := c)
    }
  }

  /**
    A read or peek that finds nothing waits; when it is woken it goes on as a `Resume`, which takes whatever is
    there by then.
  */
  datatype Event =
    | Write(data: seq<Byte>)
    | Get(n: nat, isPeek: bool)
    | Resume(n: nat, isPeek: bool)
    | Disable

  datatype Outcome = Returned(code: int, data: seq<Byte>) | Waits

  function Step(s: Log, e: Event): (Log, Outcome)
    requires s.Valid()
  {
    match e
    case Write(data) =>
      var (t, code) := s.Write(data);
      (t, Returned(code, []))
    case Get(n, isPeek) =>
      if s.Cursor(isPeek) == |s.bytes| then (s, if s.disabled then Returned(DISABLED, []) else Waits)
      else (s.Take(n, isPeek), Returned(|s.Taken(n, isPeek)|, s.Taken(n, isPeek)))
    case Resume(n, isPeek) =>
      (s.Take(n, isPeek), Returned(|s.Taken(n, isPeek)|, s.Taken(n, isPeek)))
    case Disable =>
      (s.(disabled := true), Returned(0, []))
  }

  /** Every event keeps the cursors in order and the unread bytes within the capacity. */
  lemma StepValid(s: Log, e: Event)
    requires s.Valid()
    ensures Step(s, e).0.Valid()
    ensures Step(s, e).0.capacity == s.capacity && s.bytes <= Step(s, e).0.bytes && s.read <= Step(s, e).0.read
    ensures s.disabled ==> Step(s, e).0.disabled && Step(s, e).0.bytes == s.bytes
  {
  }

  /** How many bytes a read or peek of at most `n` finds. */
  function Found(s: Log, n: nat, isPeek: bool): (m: nat)
    requires s.Valid()
  {
    var left := |s.bytes| - if isPeek then s.peek else s.read;
    if n < left then n else left
  }

  /**
    A read or peek answers -99 exactly when the buffer is disabled and nothing is left for it, and waits exactly when
    nothing is left and it is not. Otherwise it gets as many bytes as it asks for, or all that are left.
  */
  lemma GetAnswers(s: Log, n: nat, isPeek: bool)
    requires s.Valid()
    ensures var c := if isPeek then s.peek else s.read;
            var o := Step(s, Get(n, isPeek)).1;
            && (o == Returned(-99, []) <==> s.disabled && c == |s.bytes|)
            && (o == Waits <==> !s.disabled && c == |s.bytes|)
            && (c < |s.bytes| ==> o == Returned(Found(s, n, isPeek), s.bytes[c..c + Found(s, n, isPeek)]))
  {
    assert s.bytes[s.Cursor(isPeek)..] == s.bytes[s.Cursor(isPeek)..|s.bytes|];
  }

  /** One that goes on after its wait gets what is there, if anything. */
  lemma ResumeAnswers(s: Log, n: nat, isPeek: bool)
    requires s.Valid()
    ensures var c := if isPeek then s.peek else s.read;
            Step(s, Resume(n, isPeek)).1 == Returned(Found(s, n, isPeek), s.bytes[c..c + Found(s, n, isPeek)])
  {
    assert s.bytes[s.Cursor(isPeek)..] == s.bytes[s.Cursor(isPeek)..|s.bytes|];
  }

  /** A peek moves the peek cursor alone; a read moves the read cursor and takes the peek cursor to the same place. */
  lemma TakeMoves(s: Log, n: nat, isPeek: bool)
    requires s.Valid()
    ensures var t := Step(s, Resume(n, isPeek)).0;
            && (s.bytes, s.capacity, s.disabled) == (t.bytes, t.capacity, t.disabled)
            && (isPeek ==> t.read == s.read && t.peek == s.peek + Found(s, n, true))
            && (!isPeek ==> t.read == t.peek == s.read + Found(s, n, false))
    ensures Step(s, Get(n, isPeek)).0 == Step(s, Resume(n, isPeek)).0
  {
  }

  /** A write is refused exactly when the buffer is disabled or the unread bytes leave no room; else it is appended. */
  lemma WriteAnswers(s: Log, data: seq<Byte>)
    requires s.Valid()
    ensures var (t, o) := Step(s, Write(data));
            && (o == Returned(-99, []) <==> s.disabled)
            && (o == Returned(-1, []) <==> !s.disabled && |s.bytes| - s.read + |data| > s.capacity)
            && (o == Returned(0, []) <==> !s.disabled && |s.bytes| - s.read + |data| <= s.capacity)
            && t == if o.code == 0 then s.(bytes := s.bytes + data) else s
  {
  }

  /** The log after a run, whatever the order in which the threads took their turns. */
  function Run(s: Log, es: seq<Event>): (t: Log)
    requires s.Valid()
    ensures t.Valid()
    ensures t.capacity == s.capacity && s.bytes <= t.bytes && s.read <= t.read
    ensures s.disabled ==> t.disabled && t.bytes == s.bytes
    decreases |es|
  {
    if es == [] then s else (StepValid(s, es[0]); Run(Step(s, es[0]).0, es[1..]))
  }

  function Outcomes(s: Log, es: seq<Event>): (os: seq<Outcome>)
    requires s.Valid()
    ensures |os| == |es|
    decreases |es|
  {
    if es == [] then []
    else (StepValid(s, es[0]); [Step(s, es[0]).1] + Outcomes(Step(s, es[0]).0, es[1..]))
  }

  // ---------------------------------------------------------------- what the reads deliver

  predicate IsTake(e: Event, isPeek: bool) {
    (e.Get? || e.Resume?) && e.isPeek == isPeek
  }

  function Data(o: Outcome): seq<Byte> {
    if o.Waits? then [] else o.data
  }

  /** All bytes that the reads of a run (or its peeks) return, in order. */
  function Delivered(s: Log, es: seq<Event>, isPeek: bool): seq<Byte>
    requires s.Valid()
    decreases |es|
  {
    if es == [] then []
    else
      StepValid(s, es[0]);
      (if IsTake(es[0], isPeek) then Data(Step(s, es[0]).1) else []) + Delivered(Step(s, es[0]).0, es[1..], isPeek)
  }

  /** All bytes of the writes that succeed. */
  function Accepted(s: Log, es: seq<Event>): seq<Byte>
    requires s.Valid()
    decreases |es|
  {
    if es == [] then []
    else
      StepValid(s, es[0]);
      (if es[0].Write? && Step(s, es[0]).1.code == 0 then es[0].data else []) + Accepted(Step(s, es[0]).0, es[1..])
  }

  /** What is taken is the stretch that the cursor moves over. */
  lemma TakeIsStretch(s: Log, n: nat, isPeek: bool)
    requires s.Valid()
    ensures var t := s.Take(n, isPeek);
            && s.Cursor(isPeek) <= t.Cursor(isPeek) <= |s.bytes| == |t.bytes| && t.bytes == s.bytes
            && s.Taken(n, isPeek) == s.bytes[s.Cursor(isPeek)..t.Cursor(isPeek)]
  {
    var c := s.Cursor(isPeek);
    assert s.bytes[c..] == s.bytes[c..|s.bytes|];
  }

  /** An empty stretch. */
  lemma NothingTaken(b: seq<Byte>, c: nat)
    requires c <= |b|
    ensures b[c..c] == []
  {
  }

  lemma StepReads(s: Log, e: Event)
    requires s.Valid() && IsTake(e, false)
    ensures var t := Step(s, e).0;
            s.read <= t.read <= |t.bytes| && Data(Step(s, e).1) == t.bytes[s.read..t.read]
  {
    TakeIsStretch(s, e.n, false);
    NothingTaken(s.bytes, s.read);
  }

  lemma StepPeeks(s: Log, e: Event)
    requires s.Valid() && IsTake(e, true)
    ensures var t := Step(s, e).0;
            t.read == s.read && s.peek <= t.peek <= |t.bytes| && Data(Step(s, e).1) == t.bytes[s.peek..t.peek]
  {
    TakeIsStretch(s, e.n, true);
    NothingTaken(s.bytes, s.peek);
  }

  /** What one event delivers is the stretch of the log its cursor moves over. */
  lemma StepDelivers(s: Log, e: Event)
    requires s.Valid()
    ensures var t := Step(s, e).0;
            && s.read <= t.read <= |t.bytes| && t.peek <= |t.bytes|
            && (if IsTake(e, false) then Data(Step(s, e).1) else []) == t.bytes[s.read..t.read]
            && (!IsTake(e, false) ==> s.peek <= t.peek)
            && (!IsTake(e, false) ==> (if IsTake(e, true) then Data(Step(s, e).1) else []) == t.bytes[s.peek..t.peek])
  {
    StepValid(s, e);
    var t := Step(s, e).0;
    if IsTake(e, false) {
      StepReads(s, e);
    } else {
      NothingTaken(t.bytes, s.read);
      if IsTake(e, true) {
        StepPeeks(s, e);
      } else {
        NothingTaken(t.bytes, s.peek);
      }
    }
  }

  /** The bytes delivered first and those delivered later are adjacent in the final log. */
  lemma Adjacent(b: seq<Byte>, c: seq<Byte>, i: nat, j: nat, k: nat)
    requires b <= c && i <= j <= |b| && j <= k <= |c|
    ensures b[i..j] + c[j..k] == c[i..k]
  {
    assert b[i..j] == c[i..j];
  }

  /** In every run the reads return exactly the logged bytes, in order, without loss or repetition. */
  lemma {:induction false} ReadsFollowLog(s: Log, es: seq<Event>)
    requires s.Valid()
    ensures Delivered(s, es, false) == Run(s, es).bytes[s.read..Run(s, es).read]
    decreases |es|
  {
    if es != [] {
      var t := Step(s, es[0]).0;
      StepValid(s, es[0]);
      ReadsFollowLog(t, es[1..]);
      StepDelivers(s, es[0]);
      Adjacent(t.bytes, Run(s, es).bytes, s.read, t.read, Run(s, es).read);
    }
  }

  /** The log grows by exactly the bytes of the writes that succeed. */
  lemma {:induction false} LogIsWrites(s: Log, es: seq<Event>)
    requires s.Valid()
    ensures Run(s, es).bytes == s.bytes + Accepted(s, es)
    decreases |es|
  {
    if es != [] {
      StepValid(s, es[0]);
      LogIsWrites(Step(s, es[0]).0, es[1..]);
    }
  }

  /** Between two reads the peeks return consecutive bytes from the peek cursor on. */
  lemma {:induction false} PeeksFollowLog(s: Log, es: seq<Event>)
    requires s.Valid() && forall i :: 0 <= i < |es| ==> !IsTake(es[i], false)
    ensures s.peek <= Run(s, es).peek
    ensures Delivered(s, es, true) == Run(s, es).bytes[s.peek..Run(s, es).peek]
    decreases |es|
  {
    if es != [] {
      var t := Step(s, es[0]).0;
      StepValid(s, es[0]);
      PeeksFollowLog(t, es[1..]);
      assert !IsTake(es[0], false);
      StepDelivers(s, es[0]);
      Adjacent(t.bytes, Run(s, es).bytes, s.peek, t.peek, Run(s, es).peek);
    }
  }

  lemma {:induction false} ReadStays(s: Log, es: seq<Event>)
    requires s.Valid() && forall i :: 0 <= i < |es| ==> !IsTake(es[i], false)
    ensures Run(s, es).read == s.read
    decreases |es|
  {
    if es != [] {
      StepValid(s, es[0]);
      assert !IsTake(es[0], false);
      ReadStays(Step(s, es[0]).0, es[1..]);
    }
  }

  /** What has been peeked since a read is what the next read that asks for as much begins with. */
  lemma PeeksForetellRead(s: Log, es: seq<Event>, n: nat)
    requires s.Valid() && s.peek == s.read && forall i :: 0 <= i < |es| ==> !IsTake(es[i], false)
    requires 0 < |Delivered(s, es, true)| <= n
    ensures var o := Step(Run(s, es), Get(n, false)).1;
            o.Returned? && Delivered(s, es, true) <= o.data
  {
    PeeksFollowLog(s, es);
    ReadStays(s, es);
    GetAnswers(Run(s, es), n, false);
  }

  // ---------------------------------------------------------------- peeks are invisible

  /** The run without its peeks. */
  function WithoutPeeks(es: seq<Event>): seq<Event> {
    if es == [] then []
    else (if IsTake(es[0], true) then [] else [es[0]]) + WithoutPeeks(es[1..])
  }

  /** The outcomes of everything but the peeks. */
  function OutcomesButPeeks(s: Log, es: seq<Event>): seq<Outcome>
    requires s.Valid()
    decreases |es|
  {
    if es == [] then []
    else
      StepValid(s, es[0]);
      (if IsTake(es[0], true) then [] else [Step(s, es[0]).1]) + OutcomesButPeeks(Step(s, es[0]).0, es[1..])
  }

  /** Logs that differ in the peek cursor at most. */
  predicate SameButPeek(s: Log, t: Log) {
    s.(peek := 0) == t.(peek := 0)
  }

  lemma StepIgnoresPeek(s: Log, t: Log, e: Event)
    requires s.Valid() && t.Valid() && SameButPeek(s, t)
    ensures IsTake(e, true) ==> SameButPeek(Step(s, e).0, t)
    ensures !IsTake(e, true) ==> SameButPeek(Step(s, e).0, Step(t, e).0) && Step(s, e).1 == Step(t, e).1
  {
  }

  /** Peeks, wherever they come in a run, never change what the writes and reads of the run do or return. */
  lemma {:induction false} PeeksInvisible(s: Log, t: Log, es: seq<Event>)
    requires s.Valid() && t.Valid() && SameButPeek(s, t)
    ensures SameButPeek(Run(s, es), Run(t, WithoutPeeks(es)))
    ensures OutcomesButPeeks(s, es) == Outcomes(t, WithoutPeeks(es))
    decreases |es|
  {
    if es != [] {
      var e, rest := es[0], es[1..];
      StepValid(s, e);
      StepValid(t, e);
      StepIgnoresPeek(s, t, e);
      if IsTake(e, true) {
        PeeksInvisible(Step(s, e).0, t, rest);
        assert WithoutPeeks(es) == WithoutPeeks(rest);
      } else {
        PeeksInvisible(Step(s, e).0, Step(t, e).0, rest);
        assert WithoutPeeks(es) == [e] + WithoutPeeks(rest);
        assert WithoutPeeks(es)[1..] == WithoutPeeks(rest);
      }
    }
  }

  // ---------------------------------------------------------------- one writer

  /**
    Space that the only writer has seen is still there at its next write, whatever the readers and peekers did
    meanwhile: the write does not fail for lack of space.
  */
  lemma {:induction false} SpaceStays(s: Log, es: seq<Event>, data: seq<Byte>)
    requires s.Valid() && forall i :: 0 <= i < |es| ==> !es[i].Write?
    requires |data| <= s.Space()
    ensures Run(s, es).Space() >= s.Space()
    ensures Run(s, es).Write(data).1 == if Run(s, es).disabled then DISABLED else 0
    decreases |es|
  {
    if es != [] {
      StepValid(s, es[0]);
      assert Step(s, es[0]).0.bytes == s.bytes;
      SpaceStays(Step(s, es[0]).0, es[1..], data);
    }
  }

  // ---------------------------------------------------------------- whole packets

  predicate WholePackets(s: Log) {
    |s.bytes| % PACKET == 0 && s.read % PACKET == 0 && s.peek % PACKET == 0
  }

  predicate AsksWholePackets(e: Event) {
    match e
    case Write(data) => |data| % PACKET == 0
    case Get(n, _) => n % PACKET == 0
    case Resume(n, _) => n % PACKET == 0
    case Disable => true
  }

  /** When all writes and requests are for whole transport packets, so is every result. */
  lemma {:induction false} PacketsStayWhole(s: Log, es: seq<Event>)
    requires s.Valid() && WholePackets(s) && forall i :: 0 <= i < |es| ==> AsksWholePackets(es[i])
    ensures WholePackets(Run(s, es))
    ensures forall i :: 0 <= i < |es| ==> |Data(Outcomes(s, es)[i])| % PACKET == 0
    decreases |es|
  {
    if es != [] {
      StepValid(s, es[0]);
      assert AsksWholePackets(es[0]);
      PacketStep(s, es[0]);
      PacketsStayWhole(Step(s, es[0]).0, es[1..]);
    }
  }

  lemma PacketStep(s: Log, e: Event)
    requires s.Valid() && WholePackets(s) && AsksWholePackets(e)
    ensures WholePackets(Step(s, e).0) && |Data(Step(s, e).1)| % PACKET == 0
  {
    match e
    case Write(data) =>
      PacketSum(|s.bytes|, |data|);
    case Get(n, isPeek) =>
      PacketTake(s, n, isPeek);
    case Resume(n, isPeek) =>
      PacketTake(s, n, isPeek);
    case Disable =>
  }

  lemma PacketTake(s: Log, n: nat, isPeek: bool)
    requires s.Valid() && WholePackets(s) && n % PACKET == 0
    ensures |s.Taken(n, isPeek)| % PACKET == 0 && WholePackets(s.Take(n, isPeek))
  {
    var c := s.Cursor(isPeek);
    PacketSum(|s.bytes|, c);
    PacketSum(c, |s.Taken(n, isPeek)|);
  }

  lemma PacketSum(a: nat, b: nat)
    requires a % PACKET == 0 && b % PACKET == 0
    ensures (a + b) % PACKET == 0 && (a - b) % PACKET == 0
  {
    var m, n := a / PACKET, b / PACKET;
    PacketMultiple(a + b, m + n);
    PacketMultiple(a - b, m - n);
  }

  lemma PacketMultiple(a: int, q: int)
    requires a == PACKET * q
    ensures a % PACKET == 0
  {
    assert a / PACKET == q;
  }

  // ---------------------------------------------------------------- disabling

  /**
    Once the buffer is disabled, a run of reads that ends in the answer -99 has delivered exactly the bytes that
    were left; and a read answers -99 exactly when nothing is left.
  */
  lemma DrainAfterDisable(s: Log, es: seq<Event>, n: nat)
    requires s.Valid() && s.disabled
    ensures Step(Run(s, es), Get(n, false)).1 == Returned(DISABLED, []) <==>
            Delivered(s, es, false) == s.bytes[s.read..]
  {
    ReadsFollowLog(s, es);
    var t := Run(s, es);
    assert |t.bytes[s.read..t.read]| == t.read - s.read;
  }

  /** The same of the peeks, as long as nothing is read. */
  lemma PeeksDrainAfterDisable(s: Log, es: seq<Event>, n: nat)
    requires s.Valid() && s.disabled && forall i :: 0 <= i < |es| ==> !IsTake(es[i], false)
    ensures Step(Run(s, es), Get(n, true)).1 == Returned(DISABLED, []) <==>
            Delivered(s, es, true) == s.bytes[s.peek..]
  {
    PeeksFollowLog(s, es);
    var t := Run(s, es);
    assert |t.bytes[s.peek..t.peek]| == t.peek - s.peek;
  }
}
