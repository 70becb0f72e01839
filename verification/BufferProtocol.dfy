/**
  Sleeping and waking on the ring buffer of atstest/EBPStreamBuffer.c. Any number of threads call its functions,
  whose locked sections are the events of ByteLog; a read or peek that finds nothing sleeps, and cb_write and
  cb_disable wake one sleeper if there is one.
*/
module BufferProtocol {
  import opened ByteLog
  import opened Words

  datatype Status = Running | Asleep(n: nat, isPeek: bool) | Woken(n: nat, isPeek: bool)

  datatype State = State(log: Log, threads: seq<Status>)

  /** A thread that runs enters a function and may wake `woken`; one that has been woken goes on. */
  datatype Action = Call(t: nat, e: Event, woken: nat) | GoOn(t: nat)

  ghost predicate SomeoneSleeps(s: State) {
    exists w :: 0 <= w < |s.threads| && s.threads[w].Asleep?
  }

  /** The section ends in pthread_cond_signal. */
  predicate Signals(s: State, e: Event)
    requires s.log.Valid()
  {
    e.Disable? || (e.Write? && Step(s.log, e).1 == Returned(0, []))
  }

  ghost predicate Enabled(s: State, a: Action, readers: set<nat>) {
    && s.log.Valid() && a.t < |s.threads|
    && match a
       case Call(t, e, w) =>
         && s.threads[t].Running? && !e.Resume? && (e.Get? ==> t in readers)
         && (Signals(s, e) && SomeoneSleeps(s) ==> w < |s.threads| && s.threads[w].Asleep?)
       case GoOn(t) => s.threads[t].Woken?
  }

  ghost function Apply(s: State, a: Action, readers: set<nat>): (r: State)
    requires Enabled(s, a, readers)
    ensures |r.threads| == |s.threads| && r.log.Valid()
  {
    match a
    case Call(t, e, w) =>
      StepValid(s.log, e);
      var (log, outcome) := Step(s.log, e);
      if outcome.Waits? then State(log, s.threads[t := Asleep(e.n, e.isPeek)])
      else if Signals(s, e) && SomeoneSleeps(s) then
        State(log, s.threads[w := Woken(s.threads[w].n, s.threads[w].isPeek)])
      else State(log, s.threads)
    case GoOn(t) =>
      var e := Resume(s.threads[t].n, s.threads[t].isPeek);
      StepValid(s.log, e);
      State(Step(s.log, e).0, s.threads[t := Running])
  }

  /** The thread that acts sleeps afterwards exactly when it finds nothing on a buffer that is not disabled. */
  lemma ActorReturnsOrSleeps(s: State, a: Action, readers: set<nat>)
    requires Enabled(s, a, readers)
    ensures var after := Apply(s, a, readers).threads[a.t];
            && (after.Running? || after.Asleep?)
            && (after.Asleep? <==>
                  a.Call? && a.e.Get? && !s.log.disabled &&
                  |s.log.bytes| == if a.e.isPeek then s.log.peek else s.log.read)
            && (after.Asleep? ==> after == Asleep(a.e.n, a.e.isPeek))
  {
  }

  /** Of the other threads one at most is affected: one that sleeps is woken exactly by cb_disable and by a write. */
  lemma OneIsWoken(s: State, a: Action, readers: set<nat>, t: nat)
    requires Enabled(s, a, readers) && t < |s.threads| && t != a.t
    ensures var wakes := a.Call? && (a.e.Disable? || (a.e.Write? && Step(s.log, a.e).1.code == 0));
            Apply(s, a, readers).threads[t] ==
            if wakes && s.threads[t].Asleep? && a.woken == t then Woken(s.threads[t].n, s.threads[t].isPeek)
            else s.threads[t]
  {
    if s.threads[t].Asleep? {
      assert SomeoneSleeps(s);
    }
  }

  ghost predicate Initial(s: State) {
    && s.log.Valid() && s.log.bytes == [] && s.log.capacity > 0 && !s.log.disabled
    && forall t :: 0 <= t < |s.threads| ==> s.threads[t].Running?
  }

  /** `s` is the state after some run in which only `readers` read and peek. */
  ghost predicate Runs(s0: State, actions: seq<Action>, s: State, readers: set<nat>)
    decreases |actions|
  {
    if actions == [] then s == s0
    else Enabled(s0, actions[0], readers) && Runs(Apply(s0, actions[0], readers), actions[1..], s, readers)
  }

  // ---------------------------------------------------------------- one reader

  /** Whoever sleeps has nothing to take, and the buffer is not disabled. */
  ghost predicate Attended(s: State) {
    forall t :: 0 <= t < |s.threads| && s.threads[t].Asleep? ==>
      s.log.Cursor(s.threads[t].isPeek) == |s.log.bytes| && !s.log.disabled
  }

  ghost predicate OnlyReaderSleeps(s: State, reader: nat) {
    forall t :: 0 <= t < |s.threads| && !s.threads[t].Running? ==> t == reader
  }

  lemma StepAttends(s: State, a: Action, readers: set<nat>, reader: nat)
    requires Enabled(s, a, readers) && Attended(s) && OnlyReaderSleeps(s, reader)
    requires forall t :: t in readers && t < |s.threads| ==> t == reader
    ensures Attended(Apply(s, a, readers)) && OnlyReaderSleeps(Apply(s, a, readers), reader)
  {
    if reader < |s.threads| && s.threads[reader].Asleep? {
      assert SomeoneSleeps(s);
    }
  }

  lemma {:induction false} OneReaderAttended(
    s0: State, actions: seq<Action>, s: State, readers: set<nat>, reader: nat)
    requires Runs(s0, actions, s, readers) && Attended(s0) && OnlyReaderSleeps(s0, reader)
    requires forall t :: t in readers && t < |s0.threads| ==> t == reader
    ensures Attended(s)
    decreases |actions|
  {
    if actions != [] {
      StepAttends(s0, actions[0], readers, reader);
      OneReaderAttended(Apply(s0, actions[0], readers), actions[1..], s, readers, reader);
    }
  }

  // ---------------------------------------------------------------- what the woken reader finds

  /** Whoever has been woken finds something to take, or the buffer disabled. */
  ghost predicate Served(s: State) {
    forall t :: 0 <= t < |s.threads| && s.threads[t].Woken? ==>
      s.log.Cursor(s.threads[t].isPeek) < |s.log.bytes| || s.log.disabled
  }

  /** Nobody calls cb_write for no bytes, nor cb_read or cb_peek for none. */
  ghost predicate Asks(a: Action) {
    a.Call? ==> (a.e.Write? ==> a.e.data != []) && (a.e.Get? ==> a.e.n > 0)
  }

  lemma StepServes(s: State, a: Action, readers: set<nat>, reader: nat)
    requires Enabled(s, a, readers) && Asks(a) && Attended(s) && Served(s) && OnlyReaderSleeps(s, reader)
    requires forall t :: t in readers && t < |s.threads| ==> t == reader
    ensures Served(Apply(s, a, readers))
  {
    if reader < |s.threads| && s.threads[reader].Asleep? {
      assert SomeoneSleeps(s);
    }
  }

  ghost predicate AllAsk(actions: seq<Action>) {
    forall i :: 0 <= i < |actions| ==> Asks(actions[i])
  }

  /** The requests of those who have gone to sleep are for some bytes. */
  ghost predicate AskedFor(s: State) {
    forall t :: 0 <= t < |s.threads| && !s.threads[t].Running? ==> s.threads[t].n > 0
  }

  lemma {:induction false} OneReaderServed(
    s0: State, actions: seq<Action>, s: State, readers: set<nat>, reader: nat)
    requires Runs(s0, actions, s, readers) && AllAsk(actions)
    requires Attended(s0) && Served(s0) && AskedFor(s0) && OnlyReaderSleeps(s0, reader)
    requires forall t :: t in readers && t < |s0.threads| ==> t == reader
    ensures Served(s) && AskedFor(s)
    decreases |actions|
  {
    if actions != [] {
      assert Asks(actions[0]);
      StepServes(s0, actions[0], readers, reader);
      StepAttends(s0, actions[0], readers, reader);
      OneReaderServed(Apply(s0, actions[0], readers), actions[1..], s, readers, reader);
    }
  }

  /** What a thread returns that goes on after its wait. */
  ghost function Answer(s: State, t: nat): Outcome
    requires s.log.Valid() && t < |s.threads| && s.threads[t].Woken?
  {
    Step(s.log, Resume(s.threads[t].n, s.threads[t].isPeek)).1
  }

  /**
    With one reader and no empty calls a wait ends in the answer 0 exactly when there is nothing to take, and that
    can be only after the buffer has been disabled.
  */
  lemma ZeroOnlyAfterDisable(s0: State, actions: seq<Action>, s: State, readers: set<nat>, t: nat)
    requires Initial(s0) && Runs(s0, actions, s, readers) && AllAsk(actions)
    requires forall c, d :: c in readers && d in readers && c < |s0.threads| && d < |s0.threads| ==> c == d
    requires s.log.Valid() && t < |s.threads| && s.threads[t].Woken?
    ensures Answer(s, t) == Returned(0, []) <==> s.log.Cursor(s.threads[t].isPeek) == |s.log.bytes|
    ensures Answer(s, t) == Returned(0, []) ==> s.log.disabled
  {
    var c := if r :| r in readers && r < |s0.threads| then r else 0;
    OneReaderServed(s0, actions, s, readers, c);
  }

  // ---------------------------------------------------------------- two readers

  lemma {:induction false} RunsOn(s0: State, actions: seq<Action>, s: State, a: Action, readers: set<nat>)
    requires Runs(s0, actions, s, readers) && Enabled(s, a, readers)
    ensures Runs(s0, actions + [a], Apply(s, a, readers), readers)
    decreases |actions|
  {
    if actions == [] {
      assert Runs(Apply(s, a, readers), [], Apply(s, a, readers), readers);
      assert ([a])[1..] == [];
    } else {
      RunsOn(Apply(s0, actions[0], readers), actions[1..], s, a, readers);
      assert (actions + [a])[1..] == actions[1..] + [a];
    }
  }

  /** A write of no bytes wakes a sleeper like any other, which then answers 0 although the buffer is not disabled. */
  lemma EmptyWriteAnswersZero(s0: State, readers: set<nat>, c: nat, d: nat, n: nat, isPeek: bool)
    returns (actions: seq<Action>, s: State)
    requires Initial(s0) && c != d && c in readers && c < |s0.threads| && d < |s0.threads|
    ensures Runs(s0, actions, s, readers) && s.log == s0.log && !s.log.disabled
    ensures c < |s.threads| && s.threads[c].Woken? && Answer(s, c) == Returned(0, [])
  {
    var a, b := Call(c, Get(n, isPeek), c), Call(d, Event.Write([]), c);
    assert Runs(s0, [], s0, readers);
    RunsOn(s0, [], s0, a, readers);
    var r := Apply(s0, a, readers);
    assert r.threads[c].Asleep? && r.log == s0.log;
    RunsOn(s0, [] + [a], r, b, readers);
    actions, s := [] + [a] + [b], Apply(r, b, readers);
    ResumeAnswers(s.log, n, isPeek);
  }

  /** One reader has peeked at all of `data` and sleeps on its next peek. */
  lemma SleepsOnPeek(s0: State, readers: set<nat>, c: nat, d: nat, data: seq<Byte>)
    returns (actions: seq<Action>, s: State)
    requires Initial(s0) && c != d && c in readers && c < |s0.threads| && d < |s0.threads|
    requires 0 < |data| <= s0.log.capacity
    ensures Runs(s0, actions, s, readers) && AllAsk(actions)
    ensures s == State(s0.log.(bytes := data, peek := |data|), s0.threads[c := Asleep(|data|, true)])
  {
    var a, b := Call(d, Event.Write(data), c), Call(c, Get(|data|, true), c);
    assert Runs(s0, [], s0, readers);
    RunsOn(s0, [], s0, a, readers);
    var r1 := Apply(s0, a, readers);
    assert r1.log.bytes == data && data[0..] == data;
    RunsOn(s0, [] + [a], r1, b, readers);
    var r2 := Apply(r1, b, readers);
    RunsOn(s0, [] + [a] + [b], r2, b, readers);
    actions, s := [] + [a] + [b] + [b], Apply(r2, b, readers);
  }

  ghost predicate NoneWoken(s: State) {
    forall t :: 0 <= t < |s.threads| ==> !s.threads[t].Woken?
  }

  /**
    Any second reader can leave a sleeper beside bytes that it could take: its read of some of them takes the peek
    cursor back, and no signal has come or follows. That needs room for two bytes; with less it takes a read of none.
  */
  lemma SecondReaderForgets(s0: State, readers: set<nat>, c: nat, d: nat) returns (actions: seq<Action>, s: State)
    requires Initial(s0) && c != d && c in readers && d in readers && c < |s0.threads| && d < |s0.threads|
    ensures Runs(s0, actions, s, readers) && !Attended(s) && NoneWoken(s) && !s.log.disabled
    ensures s0.log.capacity >= 2 ==> AllAsk(actions)
  {
    var many := s0.log.capacity >= 2;
    actions, s := SleepsOnPeek(s0, readers, c, d, if many then [0, 0] else [0]);
    var a := Call(d, Get(if many then 1 else 0, false), c);
    RunsOn(s0, actions, s, a, readers);
    actions, s := actions + [a], Apply(s, a, readers);
    assert s.threads[c].Asleep?;
  }

  ghost predicate AlwaysAttended(s0: State, readers: set<nat>) {
    forall actions, s :: Runs(s0, actions, s, readers) ==> Attended(s)
  }

  /** No sleeper is ever forgotten exactly when at most one of the threads reads or peeks. */
  lemma AttendedIffOneReader(s0: State, readers: set<nat>)
    requires Initial(s0)
    ensures AlwaysAttended(s0, readers) <==>
            forall c, d :: c in readers && d in readers && c < |s0.threads| && d < |s0.threads| ==> c == d
  {
    if c, d :| c in readers && d in readers && c < |s0.threads| && d < |s0.threads| && c != d {
      var actions, s := SecondReaderForgets(s0, readers, c, d);
    } else {
      var c := if t :| t in readers && t < |s0.threads| then t else 0;
      forall actions, s | Runs(s0, actions, s, readers) ensures Attended(s) {
        OneReaderAttended(s0, actions, s, readers, c);
      }
    }
  }

  ghost predicate AskingAttended(s0: State, readers: set<nat>) {
    forall actions, s :: Runs(s0, actions, s, readers) && AllAsk(actions) ==> Attended(s)
  }

  /** Nor is it better when nobody calls for no bytes, if there is room for two. */
  lemma AskingAttendedIffOneReader(s0: State, readers: set<nat>)
    requires Initial(s0) && s0.log.capacity >= 2
    ensures AskingAttended(s0, readers) <==>
            forall c, d :: c in readers && d in readers && c < |s0.threads| && d < |s0.threads| ==> c == d
  {
    if c, d :| c in readers && d in readers && c < |s0.threads| && d < |s0.threads| && c != d {
      var actions, s := SecondReaderForgets(s0, readers, c, d);
    } else {
      AttendedIffOneReader(s0, readers);
    }
  }

  // ---------------------------------------------------------------- two sleepers when the buffer is disabled

  ghost predicate NoDisable(actions: seq<Action>) {
    forall i :: 0 <= i < |actions| ==> !(actions[i].Call? && actions[i].e.Disable?)
  }

  /** Once the buffer is disabled only another cb_disable signals. */
  lemma {:induction false} SleepsOn(s0: State, actions: seq<Action>, s: State, readers: set<nat>, t: nat)
    requires Runs(s0, actions, s, readers) && NoDisable(actions)
    requires s0.log.disabled && t < |s0.threads| && s0.threads[t].Asleep?
    ensures t < |s.threads| && s.threads[t].Asleep?
    decreases |actions|
  {
    if actions != [] {
      assert !(actions[0].Call? && actions[0].e.Disable?);
      SleepsOn(Apply(s0, actions[0], readers), actions[1..], s, readers, t);
    }
  }

  /**
    Whenever two threads sleep, one call of cb_disable leaves one of them asleep, and it sleeps on in every
    continuation without another such call.
  */
  lemma DisableForgetsSleeper(s: State, a: Action, readers: set<nat>, b: nat, c: nat) returns (t: nat)
    requires Enabled(s, a, readers) && a.Call? && a.e.Disable?
    requires b != c && b < |s.threads| && c < |s.threads| && s.threads[b].Asleep? && s.threads[c].Asleep?
    ensures t < |s.threads| && Apply(s, a, readers).threads[t].Asleep?
    ensures forall actions, r :: Runs(Apply(s, a, readers), actions, r, readers) && NoDisable(actions) ==>
              t < |r.threads| && r.threads[t].Asleep?
  {
    t := if a.woken == b then c else b;
    var next := Apply(s, a, readers);
    forall actions, r | Runs(next, actions, r, readers) && NoDisable(actions)
      ensures t < |r.threads| && r.threads[t].Asleep?
    {
      SleepsOn(next, actions, r, readers, t);
    }
  }
}
