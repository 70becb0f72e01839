/**
  The blocking queue of atstest/ThreadSafeFIFO.c as a protocol: any number of threads, each going through
  fifo_push or fifo_pop_peek one step at a time, in every interleaving. A lock is taken only when it is free, a
  wait releases it in the same step, and a signal wakes one waiting thread if there is one; nobody wakes up
  without a signal.
*/
module FifoProtocol {
  import opened Options

  // ---------------------------------------------------------------- what the locked sections do

  /** varray_pop or varray_peek: the oldest element, or NULL when there is none. */
  function Oldest<T>(q: seq<T>): Option<T> {
    if q == [] then None else Some(q[0])
  }

  function Left<T>(q: seq<T>, isPop: bool): seq<T> {
    if isPop && q != [] then q[1..] else q
  }

  // ---------------------------------------------------------------- the state machine

  /** Where a thread is; those from `Entered` to `Answered` hold the mutex, except while `Waiting` or `Woken`. */
  datatype Pc<T> =
    | Outside
    | Pushing(e: T)
    | Pushed
    | Signalled
    | Checking(isPop: bool)
    | Waiting(isPop: bool)
    | Woken(isPop: bool)
    | Taking(isPop: bool)
    | Answered
  {
    predicate Holds() {
      !Outside? && !Waiting? && !Woken?
    }

    predicate Takes() {
      Checking? || Waiting? || Woken? || Taking? || Answered?
    }
  }

  datatype Answer<T> = Answer(isPop: bool, element: Option<T>)

  /** The queue with its counters and threads, and the histories of what was pushed and what was answered. */
  datatype State<T> = State(
    queue: seq<T>, pushCounter: int, popCounter: int, mutex: Option<nat>, threads: seq<Pc<T>>,
    pushed: seq<T>, answers: seq<Answer<T>>)

  datatype Action<T> =
    | LockToPush(t: nat, e: T)
    | Push(t: nat)
    | Signal(t: nat, woken: nat)
    | UnlockPush(t: nat)
    | LockToTake(t: nat, isPop: bool)
    | Check(t: nat)
    | Relock(t: nat)
    | Take(t: nat)
    | UnlockTake(t: nat)

  ghost predicate SomeoneWaits<T>(s: State<T>) {
    exists w :: 0 <= w < |s.threads| && s.threads[w].Waiting?
  }

  ghost predicate Enabled<T>(s: State<T>, a: Action<T>, consumers: set<nat>) {
    && a.t < |s.threads|
    && var pc := s.threads[a.t];
       match a
       case LockToPush(_, _) => pc.Outside? && s.mutex.None?
       case Push(_) => pc.Pushing?
       case Signal(_, w) => pc.Pushed? && (SomeoneWaits(s) ==> w < |s.threads| && s.threads[w].Waiting?)
       case UnlockPush(_) => pc.Signalled?
       case LockToTake(t, _) => pc.Outside? && s.mutex.None? && t in consumers
       case Check(_) => pc.Checking?
       case Relock(_) => pc.Woken? && s.mutex.None?
       case Take(_) => pc.Taking?
       case UnlockTake(_) => pc.Answered?
  }

  ghost function Move<T>(s: State<T>, t: nat, pc: Pc<T>): State<T>
    requires t < |s.threads|
  {
    s.(threads := s.threads[t := pc])
  }

  ghost function Apply<T>(s: State<T>, a: Action<T>, consumers: set<nat>): (r: State<T>)
    requires Enabled(s, a, consumers)
    ensures |r.threads| == |s.threads|
  {
    var t := a.t;
    match a
    case LockToPush(_, e) => Move(s, t, Pushing(e)).(mutex := Some(t))
    case Push(_) =>
      var e := s.threads[t].e;
      Move(s, t, Pushed).(queue := s.queue + [e], pushCounter := s.pushCounter + 1, pushed := s.pushed + [e])
    case Signal(_, w) =>
      var r := Move(s, t, Signalled);
      if SomeoneWaits(s) then Move(r, w, Woken(s.threads[w].isPop)) else r
    case UnlockPush(_) => Move(s, t, Outside).(mutex := None)
    case LockToTake(_, isPop) => Move(s, t, Checking(isPop)).(mutex := Some(t))
    case Check(_) =>
      var isPop := s.threads[t].isPop;
      if s.queue != [] then Move(s, t, Taking(isPop)) else Move(s, t, Waiting(isPop)).(mutex := None)
    case Relock(_) => Move(s, t, Taking(s.threads[t].isPop)).(mutex := Some(t))
    case Take(_) =>
      var isPop := s.threads[t].isPop;
      Move(s, t, Answered).(
        queue := Left(s.queue, isPop),
        popCounter := if isPop then s.popCounter + 1 else s.popCounter,
        answers := s.answers + [Answer(isPop, Oldest(s.queue))])
    case UnlockTake(_) => Move(s, t, Outside).(mutex := None)
  }

  /** fifo_create, with all threads elsewhere */
  ghost predicate Initial<T>(s: State<T>) {
    && s.queue == s.pushed == [] && s.answers == [] && s.pushCounter == s.popCounter == 0 && s.mutex.None?
    && forall t :: 0 <= t < |s.threads| ==> s.threads[t].Outside?
  }

  /** `s` is the state after some run from an initial state, in which only `consumers` pop and peek. */
  ghost predicate Runs<T(!new)>(s0: State<T>, actions: seq<Action<T>>, s: State<T>, consumers: set<nat>)
    decreases |actions|
  {
    if actions == [] then s == s0
    else Enabled(s0, actions[0], consumers) && Runs(Apply(s0, actions[0], consumers), actions[1..], s, consumers)
  }

  // ---------------------------------------------------------------- histories

  /** How many of the answers are pops that got an element. */
  function Gone<T>(answers: seq<Answer<T>>): nat {
    if answers == [] then 0
    else
      var a := answers[|answers| - 1];
      Gone(answers[..|answers| - 1]) + if a.isPop && a.element.Some? then 1 else 0
  }

  /** How many are pops that got NULL. */
  function Vain<T>(answers: seq<Answer<T>>): nat {
    if answers == [] then 0
    else
      var a := answers[|answers| - 1];
      Vain(answers[..|answers| - 1]) + if a.isPop && a.element.None? then 1 else 0
  }

  /** Every element that was handed out, by a pop or a peek, is the oldest that was not popped before. */
  predicate InOrder<T(==)>(answers: seq<Answer<T>>, pushed: seq<T>) {
    answers == [] ||
    var before, a := answers[..|answers| - 1], answers[|answers| - 1];
    && InOrder(before, pushed)
    && (a.element.Some? ==> Gone(before) < |pushed| && a.element.value == pushed[Gone(before)])
  }

  ghost predicate HistoryOk<T>(s: State<T>) {
    && Gone(s.answers) <= |s.pushed| && s.queue == s.pushed[Gone(s.answers)..]
    && InOrder(s.answers, s.pushed)
    && s.pushCounter == |s.pushed| && s.popCounter == Gone(s.answers) + Vain(s.answers)
  }

  lemma {:induction false} LaterPushesKeepOrder<T>(answers: seq<Answer<T>>, pushed: seq<T>, e: T)
    requires InOrder(answers, pushed)
    ensures InOrder(answers, pushed + [e])
  {
    if answers != [] {
      LaterPushesKeepOrder(answers[..|answers| - 1], pushed, e);
    }
  }

  lemma PushKeepsHistory<T>(s: State<T>, e: T)
    requires HistoryOk(s)
    ensures HistoryOk(s.(queue := s.queue + [e], pushCounter := s.pushCounter + 1, pushed := s.pushed + [e]))
  {
    LaterPushesKeepOrder(s.answers, s.pushed, e);
  }

  lemma TakeKeepsHistory<T>(s: State<T>, isPop: bool)
    requires HistoryOk(s)
    ensures HistoryOk(s.(
              queue := Left(s.queue, isPop),
              popCounter := if isPop then s.popCounter + 1 else s.popCounter,
              answers := s.answers + [Answer(isPop, Oldest(s.queue))]))
  {
    var answers := s.answers + [Answer(isPop, Oldest(s.queue))];
    assert answers[..|answers| - 1] == s.answers;
  }

  lemma StepKeepsHistory<T>(s: State<T>, a: Action<T>, consumers: set<nat>)
    requires HistoryOk(s) && Enabled(s, a, consumers)
    ensures HistoryOk(Apply(s, a, consumers))
  {
    match a
    case Push(t) => PushKeepsHistory(s, s.threads[t].e);
    case Take(t) => TakeKeepsHistory(s, s.threads[t].isPop);
    case _ =>
  }

  /**
    Whatever the number of producers and consumers: elements are handed out in the order they were pushed, none
    is lost or handed to two pops, and the counters differ by the queue length less the pops that got NULL.
  */
  lemma {:induction false} FirstInFirstOut<T(!new)>(
    s0: State<T>, actions: seq<Action<T>>, s: State<T>, consumers: set<nat>)
    requires HistoryOk(s0) && Runs(s0, actions, s, consumers)
    ensures HistoryOk(s)
    ensures s.pushCounter - s.popCounter == |s.queue| - Vain(s.answers)
    decreases |actions|
  {
    if actions != [] {
      StepKeepsHistory(s0, actions[0], consumers);
      FirstInFirstOut(Apply(s0, actions[0], consumers), actions[1..], s, consumers);
    }
  }

  // ---------------------------------------------------------------- one consumer

  /** The mutex excludes, and only the consumer takes. */
  ghost predicate LocksOk<T>(s: State<T>, consumer: nat) {
    forall t :: 0 <= t < |s.threads| ==>
      (s.threads[t].Holds() <==> s.mutex == Some(t)) && (s.threads[t].Takes() ==> t == consumer)
  }

  /** A signal is on its way: the mutex is held by a thread that has pushed and not yet signalled. */
  ghost predicate SignalPending<T>(s: State<T>) {
    s.mutex.Some? && s.mutex.value < |s.threads| && s.threads[s.mutex.value].Pushed?
  }

  /** A push is signalled, and the consumer past its wait is served, before the queue can run empty. */
  ghost predicate WakeUpsOk<T>(s: State<T>, consumer: nat)
  {
    && (SignalPending(s) ==> s.queue != [])
    && (consumer < |s.threads| ==>
      && (s.threads[consumer].Woken? || s.threads[consumer].Taking? ==> s.queue != [])
      && (s.threads[consumer].Waiting? && s.queue != [] ==> SignalPending(s)))
  }

  ghost predicate NoneInVain<T>(answers: seq<Answer<T>>) {
    forall i :: 0 <= i < |answers| ==> answers[i].element.Some?
  }

  ghost predicate Inv<T>(s: State<T>, consumer: nat) {
    HistoryOk(s) && LocksOk(s, consumer) && WakeUpsOk(s, consumer) && NoneInVain(s.answers)
  }

  lemma StepKeepsLocks<T>(s: State<T>, a: Action<T>, consumer: nat)
    requires LocksOk(s, consumer) && Enabled(s, a, {consumer})
    ensures LocksOk(Apply(s, a, {consumer}), consumer)
  {
  }

  lemma StepKeepsWakeUps<T>(s: State<T>, a: Action<T>, consumer: nat)
    requires LocksOk(s, consumer) && WakeUpsOk(s, consumer) && Enabled(s, a, {consumer})
    ensures WakeUpsOk(Apply(s, a, {consumer}), consumer)
  {
    if consumer < |s.threads| && s.threads[consumer].Waiting? {
      assert SomeoneWaits(s);
    }
  }

  /** Every step keeps the invariant. */
  lemma StepKeepsInv<T>(s: State<T>, a: Action<T>, consumer: nat)
    requires Inv(s, consumer) && Enabled(s, a, {consumer})
    ensures Inv(Apply(s, a, {consumer}), consumer)
  {
    StepKeepsHistory(s, a, {consumer});
    StepKeepsLocks(s, a, consumer);
    StepKeepsWakeUps(s, a, consumer);
  }

  lemma {:induction false} RunKeepsInv<T(!new)>(s0: State<T>, actions: seq<Action<T>>, s: State<T>, consumer: nat)
    requires Inv(s0, consumer) && Runs(s0, actions, s, {consumer})
    ensures Inv(s, consumer)
    decreases |actions|
  {
    if actions != [] {
      StepKeepsInv(s0, actions[0], consumer);
      RunKeepsInv(Apply(s0, actions[0], {consumer}), actions[1..], s, consumer);
    }
  }

  lemma {:induction false} NoneVain<T>(answers: seq<Answer<T>>)
    requires NoneInVain(answers)
    ensures Vain(answers) == 0
  {
    if answers != [] {
      NoneVain(answers[..|answers| - 1]);
    }
  }

  /** The elements that the pops returned, in order. */
  function Popped<T>(answers: seq<Answer<T>>): seq<T> {
    if answers == [] then []
    else
      var a := answers[|answers| - 1];
      Popped(answers[..|answers| - 1]) + if a.isPop && a.element.Some? then [a.element.value] else []
  }

  lemma {:induction false} PoppedIsPrefix<T>(answers: seq<Answer<T>>, pushed: seq<T>)
    requires InOrder(answers, pushed) && Gone(answers) <= |pushed|
    ensures Popped(answers) == pushed[..Gone(answers)]
  {
    if answers != [] {
      PoppedIsPrefix(answers[..|answers| - 1], pushed);
    }
  }

  /** What the invariant says of the histories and the counters. */
  lemma InvServes<T>(s: State<T>, consumer: nat)
    requires Inv(s, consumer)
    ensures s.pushed == Popped(s.answers) + s.queue
    ensures s.pushCounter - s.popCounter == |s.queue|
    ensures NoneInVain(s.answers)
  {
    PoppedIsPrefix(s.answers, s.pushed);
    NoneVain(s.answers);
  }

  /** And of a sleeper. */
  lemma InvWakes<T>(s: State<T>, consumer: nat)
    requires Inv(s, consumer) && consumer < |s.threads| && s.threads[consumer].Waiting? && s.queue != []
    ensures SignalPending(s)
  {
  }

  /**
    In every run with one consumer: what was popped and what is queued make up what was pushed, the counters
    differ by the queue length, nobody ever gets NULL from an empty queue, and the consumer does not sleep beside
    a nonempty queue unless the signal that wakes it is still to come.
  */
  lemma OneConsumer<T(!new)>(s0: State<T>, actions: seq<Action<T>>, s: State<T>, consumer: nat)
    requires Initial(s0) && Runs(s0, actions, s, {consumer})
    ensures s.pushed == Popped(s.answers) + s.queue
    ensures s.pushCounter - s.popCounter == |s.queue|
    ensures NoneInVain(s.answers)
    ensures consumer < |s.threads| && s.threads[consumer].Waiting? && s.queue != [] ==> SignalPending(s)
  {
    RunKeepsInv(s0, actions, s, consumer);
    InvServes(s, consumer);
    if consumer < |s.threads| && s.threads[consumer].Waiting? && s.queue != [] {
      InvWakes(s, consumer);
    }
  }

  /** The pending signal is the only thing its thread can do, and it wakes the consumer. */
  lemma PendingSignalWakes<T>(s: State<T>, a: Action<T>, consumer: nat)
    requires Inv(s, consumer) && consumer < |s.threads| && s.threads[consumer].Waiting? && s.queue != []
    requires Enabled(s, a, {consumer})
    ensures Apply(s, a, {consumer}).threads[consumer].Woken?
  {
    assert SignalPending(s);
    assert SomeoneWaits(s);
  }

  /** The i-th answer is the element with as many pops before it. */
  lemma {:induction false} AnswerAt<T>(answers: seq<Answer<T>>, pushed: seq<T>, i: nat)
    requires InOrder(answers, pushed) && i < |answers| && answers[i].element.Some?
    ensures Gone(answers[..i]) < |pushed| && answers[i].element.value == pushed[Gone(answers[..i])]
    decreases |answers|
  {
    var before := answers[..|answers| - 1];
    if i < |before| {
      AnswerAt(before, pushed, i);
      assert before[..i] == answers[..i];
    }
  }

  lemma {:induction false} GoneWithoutPops<T>(answers: seq<Answer<T>>, i: nat, j: nat)
    requires i <= j <= |answers| && forall k :: i <= k < j ==> !answers[k].isPop
    ensures Gone(answers[..i]) == Gone(answers[..j])
    decreases j
  {
    if i < j {
      assert answers[..j][..j - 1] == answers[..j - 1];
      GoneWithoutPops(answers, i, j - 1);
    }
  }

  lemma SameOldest<T>(answers: seq<Answer<T>>, pushed: seq<T>, i: nat, j: nat)
    requires InOrder(answers, pushed) && NoneInVain(answers)
    requires i < j < |answers| && forall k :: i <= k < j ==> !answers[k].isPop
    ensures answers[i].element == answers[j].element
  {
    GoneWithoutPops(answers, i, j);
    AnswerAt(answers, pushed, i);
    AnswerAt(answers, pushed, j);
  }

  /** A peek returns what the next pop returns. */
  lemma PeekForetells<T(!new)>(
    s0: State<T>, actions: seq<Action<T>>, s: State<T>, consumer: nat, i: nat, j: nat)
    requires Initial(s0) && Runs(s0, actions, s, {consumer})
    requires i < j < |s.answers| && forall k :: i <= k < j ==> !s.answers[k].isPop
    ensures s.answers[i].element == s.answers[j].element
  {
    RunKeepsInv(s0, actions, s, consumer);
    SameOldest(s.answers, s.pushed, i, j);
  }

  // ---------------------------------------------------------------- two consumers

  lemma {:induction false} RunsOn<T(!new)>(
    s0: State<T>, actions: seq<Action<T>>, s: State<T>, a: Action<T>, consumers: set<nat>)
    requires Runs(s0, actions, s, consumers) && Enabled(s, a, consumers)
    ensures Runs(s0, actions + [a], Apply(s, a, consumers), consumers)
    decreases |actions|
  {
    if actions == [] {
      assert Runs(Apply(s, a, consumers), [], Apply(s, a, consumers), consumers);
      assert ([a])[1..] == [];
    } else {
      RunsOn(Apply(s0, actions[0], consumers), actions[1..], s, a, consumers);
      assert (actions + [a])[1..] == actions[1..] + [a];
    }
  }

  /** A consumer finds the queue empty and goes to sleep. */
  lemma Sleeps<T(!new)>(s0: State<T>, consumers: set<nat>, c: nat) returns (actions: seq<Action<T>>, s: State<T>)
    requires Initial(s0) && c in consumers && c < |s0.threads|
    ensures Runs(s0, actions, s, consumers)
    ensures s == s0.(threads := s0.threads[c := Waiting(true)])
  {
    var a, b := LockToTake(c, true), Check(c);
    assert Runs(s0, [], s0, consumers);
    RunsOn(s0, [], s0, a, consumers);
    var r := Apply(s0, a, consumers);
    RunsOn(s0, [] + [a], r, b, consumers);
    actions, s := [] + [a] + [b], Apply(r, b, consumers);
  }

  /** Thread `d` pushes an element and wakes the sleeper `c`. */
  lemma PushWakes<T(!new)>(
    s0: State<T>, actions0: seq<Action<T>>, s1: State<T>, e: T, consumers: set<nat>, c: nat, d: nat)
    returns (actions: seq<Action<T>>, s: State<T>)
    requires Runs(s0, actions0, s1, consumers) && c != d && c < |s1.threads| && d < |s1.threads|
    requires s1.mutex.None? && s1.threads[c] == Waiting(true) && s1.threads[d].Outside?
    ensures Runs(s0, actions, s, consumers)
    ensures s == s1.(threads := s1.threads[c := Woken(true)], queue := s1.queue + [e],
                     pushCounter := s1.pushCounter + 1, pushed := s1.pushed + [e])
  {
    var a1, a2, a3, a4 := LockToPush(d, e), Push(d), Signal(d, c), UnlockPush(d);
    RunsOn(s0, actions0, s1, a1, consumers);
    var r2 := Apply(s1, a1, consumers);
    RunsOn(s0, actions0 + [a1], r2, a2, consumers);
    var r3 := Apply(r2, a2, consumers);
    assert r3.threads[c].Waiting?;
    RunsOn(s0, actions0 + [a1] + [a2], r3, a3, consumers);
    var r4 := Apply(r3, a3, consumers);
    RunsOn(s0, actions0 + [a1] + [a2] + [a3], r4, a4, consumers);
    actions, s := actions0 + [a1] + [a2] + [a3] + [a4], Apply(r4, a4, consumers);
    assert s.threads == s1.threads[c := Woken(true)];
  }

  /** So the sleeper `c` is woken beside its element. */
  lemma WokenBesideElement<T(!new)>(s0: State<T>, e: T, consumers: set<nat>, c: nat, d: nat)
    returns (actions: seq<Action<T>>, s: State<T>)
    requires Initial(s0) && c != d && c in consumers && c < |s0.threads| && d < |s0.threads|
    ensures Runs(s0, actions, s, consumers)
    ensures |s.threads| == |s0.threads| && s.mutex.None? && s.threads[c] == Woken(true) && s.threads[d].Outside?
    ensures s.queue == [e] && s.answers == [] && s.pushCounter == 1 && s.popCounter == 0
  {
    actions, s := Sleeps(s0, consumers, c);
    actions, s := PushWakes(s0, actions, s, e, consumers, c, d);
  }

  /** Consumer `d` takes the element before the woken one has the mutex again. */
  lemma OvertakesWoken<T(!new)>(
    s0: State<T>, actions0: seq<Action<T>>, s1: State<T>, e: T, consumers: set<nat>, d: nat)
    returns (actions: seq<Action<T>>, s: State<T>)
    requires Runs(s0, actions0, s1, consumers) && d in consumers && d < |s1.threads|
    requires s1.mutex.None? && s1.threads[d].Outside? && s1.queue == [e]
    ensures Runs(s0, actions, s, consumers)
    ensures s == s1.(queue := [], popCounter := s1.popCounter + 1, answers := s1.answers + [Answer(true, Some(e))])
  {
    var a1, a2, a3, a4 := LockToTake(d, true), Check(d), Take(d), UnlockTake(d);
    RunsOn(s0, actions0, s1, a1, consumers);
    var r2 := Apply(s1, a1, consumers);
    RunsOn(s0, actions0 + [a1], r2, a2, consumers);
    var r3 := Apply(r2, a2, consumers);
    RunsOn(s0, actions0 + [a1] + [a2], r3, a3, consumers);
    var r4 := Apply(r3, a3, consumers);
    RunsOn(s0, actions0 + [a1] + [a2] + [a3], r4, a4, consumers);
    actions, s := actions0 + [a1] + [a2] + [a3] + [a4], Apply(r4, a4, consumers);
    assert s.threads == s1.threads;
  }

  /** The woken one has the mutex again, and nothing is left for it. */
  lemma WokenPopsNull<T(!new)>(
    s0: State<T>, actions0: seq<Action<T>>, s1: State<T>, consumers: set<nat>, c: nat)
    returns (actions: seq<Action<T>>, s: State<T>)
    requires Runs(s0, actions0, s1, consumers) && c < |s1.threads|
    requires s1.mutex.None? && s1.threads[c] == Woken(true) && s1.queue == []
    ensures Runs(s0, actions, s, consumers)
    ensures s.queue == [] && s.pushCounter == s1.pushCounter && s.popCounter == s1.popCounter + 1
    ensures s.answers == s1.answers + [Answer(true, None)]
  {
    RunsOn(s0, actions0, s1, Relock(c), consumers);
    var r := Apply(s1, Relock(c), consumers);
    RunsOn(s0, actions0 + [Relock(c)], r, Take(c), consumers);
    actions, s := actions0 + [Relock(c)] + [Take(c)], Apply(r, Take(c), consumers);
  }

  /**
    With any second consumer the guarantees are lost: it can empty the queue between the signal and the moment the
    woken thread has the mutex again, which then pops NULL and counts a pop that took nothing.
  */
  lemma TwoConsumersPopNull<T(!new)>(s0: State<T>, e: T, consumers: set<nat>, c: nat, d: nat)
    returns (actions: seq<Action<T>>, s: State<T>)
    requires Initial(s0) && c != d && c in consumers && d in consumers && c < |s0.threads| && d < |s0.threads|
    ensures Runs(s0, actions, s, consumers)
    ensures s.answers == [Answer(true, Some(e)), Answer(true, None)]
    ensures s.queue == [] && s.pushCounter == 1 && s.popCounter == 2
  {
    actions, s := WokenBesideElement(s0, e, consumers, c, d);
    actions, s := OvertakesWoken(s0, actions, s, e, consumers, d);
    actions, s := WokenPopsNull(s0, actions, s, consumers, c);
  }

  /** A run in which at most `c` of the threads consumes is a run with the one consumer `c`. */
  lemma {:induction false} RunsAsOne<T(!new)>(
    s0: State<T>, actions: seq<Action<T>>, s: State<T>, consumers: set<nat>, c: nat)
    requires Runs(s0, actions, s, consumers)
    requires forall t :: t in consumers && t < |s0.threads| ==> t == c
    ensures Runs(s0, actions, s, {c})
    decreases |actions|
  {
    if actions != [] {
      assert Apply(s0, actions[0], consumers) == Apply(s0, actions[0], {c});
      RunsAsOne(Apply(s0, actions[0], consumers), actions[1..], s, consumers, c);
    }
  }

  /** No pop or peek gets NULL from an empty queue, and the counters give the queue length. */
  ghost predicate Served<T>(s: State<T>) {
    NoneInVain(s.answers) && s.pushCounter - s.popCounter == |s.queue|
  }

  ghost predicate AlwaysServed<T(!new)>(s0: State<T>, consumers: set<nat>) {
    forall actions, s :: Runs(s0, actions, s, consumers) ==> Served(s)
  }

  /** The queue keeps its promises in every run exactly when at most one of the threads is a consumer. */
  lemma ServedIffOneConsumer<T(!new)>(s0: State<T>, consumers: set<nat>, e: T)
    requires Initial(s0)
    ensures AlwaysServed(s0, consumers) <==>
            forall c, d :: c in consumers && d in consumers && c < |s0.threads| && d < |s0.threads| ==> c == d
  {
    if c, d :| c in consumers && d in consumers && c < |s0.threads| && d < |s0.threads| && c != d {
      var actions, s := TwoConsumersPopNull(s0, e, consumers, c, d);
      assert !Served(s);
    } else {
      var c := if t :| t in consumers && t < |s0.threads| then t else 0;
      forall actions, s | Runs(s0, actions, s, consumers) ensures Served(s) {
        RunsAsOne(s0, actions, s, consumers, c);
        OneConsumer(s0, actions, s, c);
      }
    }
  }
}
