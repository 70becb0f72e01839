/**
  The list of SCTE-35 sections that a partition still waits for: what addSCTE35Point does to it, and what every
  list that it builds has in common.
*/
module SpliceList {
  import opened Memory
  import opened SpliceSections

  // ---------------------------------------------------------------- adding a section

  predicate IsEvent(s: Section, id: nat) {
    s.command.SpliceInsert? && s.command.eventId == id
  }

  predicate IsSignal(s: Section) {
    s.command.TimeSignal?
  }

  /** Where the walk over the list stops for a new section, or the length of the list. */
  predicate StopsAt(t: Section, s: Section) {
    match s.command
    case SpliceInsert(id, _, _, _, _) => IsEvent(t, id)
    case TimeSignal(time) => IsSignal(t) && time.ptsTime <= t.command.time.ptsTime + s.ptsAdjustment
    case Other => false
  }

  function Stop(list: seq<Section>, s: Section): (i: nat)
    ensures i <= |list|
    ensures i < |list| ==> StopsAt(list[i], s)
  {
    if list == [] || StopsAt(list[0], s) then 0 else 1 + Stop(list[1..], s)
  }

  lemma {:induction false} StopIsFirst(list: seq<Section>, s: Section, i: nat)
    requires i < Stop(list, s)
    ensures !StopsAt(list[i], s)
  {
    if i > 0 {
      StopIsFirst(list[1..], s, i - 1);
    }
  }

  /** What then stands in place of the entry it has stopped at, if `c` is the copy that is made of the section. */
  function Instead(t: Section, s: Section, c: Section): seq<Section>
    requires StopsAt(t, s)
  {
    match s.command
    case SpliceInsert(_, cancel, _, _, _) => if cancel then [] else [c]
    case TimeSignal(time) => if time.ptsTime == t.command.time.ptsTime + s.ptsAdjustment then [t] else [c, t]
    case Other => [t]
  }

  predicate Unspecified(s: Section) {
    s.command.TimeSignal? && !s.command.time.timeSpecified
  }

  /** addSCTE35Point: what is compared is the section, and what is stored its copy. */
  function Added(list: seq<Section>, s: Section, c: Section): seq<Section> {
    var i := Stop(list, s);
    if Unspecified(s) then list
    else if i == |list| then list + [c]
    else list[..i] + Instead(list[i], s, c) + list[i + 1..]
  }

  /** Sections that are added one after the other, each with the copy that is made of it. */
  datatype Addition = Addition(s: Section, c: Section)

  function AddedAll(list: seq<Section>, additions: seq<Addition>): seq<Section> {
    if additions == [] then list
    else
      var last := additions[|additions| - 1];
      Added(AddedAll(list, additions[..|additions| - 1]), last.s, last.c)
  }

  ghost predicate AllCopies(additions: seq<Addition>) {
    forall a :: a in additions ==> IsCopy(a.c, a.s)
  }

  // ---------------------------------------------------------------- what an addition does to the list

  /** The first entry of an event, if `i` is its place. */
  predicate FirstEntry(list: seq<Section>, id: nat, i: nat) {
    i < |list| && IsEvent(list[i], id) && forall k :: 0 <= k < i ==> !IsEvent(list[k], id)
  }

  lemma {:induction false} StopIs(list: seq<Section>, s: Section, i: nat)
    requires i <= |list| && (forall k :: 0 <= k < i ==> !StopsAt(list[k], s)) && (i < |list| ==> StopsAt(list[i], s))
    ensures Stop(list, s) == i
  {
    if i > 0 {
      assert forall k :: 0 <= k < |list| - 1 ==> list[1..][k] == list[k + 1];
      StopIs(list[1..], s, i - 1);
    }
  }

  /** An event takes the place of its first entry, which a cancellation takes out. */
  lemma ListedEventAdded(list: seq<Section>, s: Section, c: Section, i: nat)
    requires s.command.SpliceInsert? && FirstEntry(list, s.command.eventId, i)
    ensures Added(list, s, c) == if s.command.cancel then list[..i] + list[i + 1..] else list[i := c]
  {
    StopIs(list, s, i);
    assert list[i := c] == list[..i] + [c] + list[i + 1..];
    assert list[..i] + [] + list[i + 1..] == list[..i] + list[i + 1..];
  }

  /** An event without an entry comes last, be it cancelled or not, and so does any other command. */
  lemma OtherwiseAddedLast(list: seq<Section>, s: Section, c: Section)
    requires !s.command.TimeSignal?
    requires s.command.SpliceInsert? ==> forall k :: 0 <= k < |list| ==> !IsEvent(list[k], s.command.eventId)
    ensures Added(list, s, c) == list + [c]
  {
    StopIs(list, s, |list|);
  }

  /** The time signal `t` is not before one at `p`, when `a` is added to its time. */
  predicate NotBefore(t: Section, p: nat, a: nat) {
    t.command.TimeSignal? && p <= t.command.time.ptsTime + a
  }

  /**
    A time signal goes before the first one that is not before it, unless the two agree, and last if there is none; one
    without a time goes nowhere.
  */
  lemma SignalAdded(list: seq<Section>, s: Section, c: Section, i: nat)
    requires s.command.TimeSignal? && i <= |list|
    requires forall k :: 0 <= k < i ==> !NotBefore(list[k], s.command.time.ptsTime, s.ptsAdjustment)
    requires i < |list| ==> NotBefore(list[i], s.command.time.ptsTime, s.ptsAdjustment)
    ensures Added(list, s, c) ==
            if !s.command.time.timeSpecified then list
            else if i < |list| && s.command.time.ptsTime == list[i].command.time.ptsTime + s.ptsAdjustment then list
            else list[..i] + [c] + list[i..]
  {
    StopIs(list, s, i);
    if i < |list| {
      assert list[i..] == [list[i]] + list[i + 1..];
      assert list == list[..i] + [list[i]] + list[i + 1..];
    }
  }

  /** Only the entry of the event that is named can leave. */
  lemma AddedKeeps(list: seq<Section>, s: Section, c: Section, t: Section)
    requires t in list && !(s.command.SpliceInsert? && IsEvent(t, s.command.eventId))
    ensures t in Added(list, s, c)
  {
    var i := Stop(list, s);
    if i < |list| {
      assert list == list[..i] + [list[i]] + list[i + 1..];
    }
  }

  // ---------------------------------------------------------------- one entry per event

  /** How many entries an event has. */
  function Entries(list: seq<Section>, id: nat): nat {
    if list == [] then 0 else (if IsEvent(list[0], id) then 1 else 0) + Entries(list[1..], id)
  }

  ghost predicate OncePerEvent(list: seq<Section>) {
    forall id :: Entries(list, id) <= 1
  }

  lemma {:induction false} EntriesOfSum(a: seq<Section>, b: seq<Section>, id: nat)
    ensures Entries(a + b, id) == Entries(a, id) + Entries(b, id)
  {
    if a == [] {
      assert a + b == b;
    } else {
      EntriesOfSum(a[1..], b, id);
      assert (a + b)[1..] == a[1..] + b;
    }
  }

  /** The entries in the three parts that an element splits a list into. */
  lemma EntriesSplit(list: seq<Section>, i: nat, x: seq<Section>, id: nat)
    requires i < |list|
    ensures Entries(list, id) == Entries(list[..i], id) + Entries([list[i]], id) + Entries(list[i + 1..], id)
    ensures Entries(list[..i] + x + list[i + 1..], id)
            == Entries(list[..i], id) + Entries(x, id) + Entries(list[i + 1..], id)
  {
    EntriesOfSum(list[..i] + [list[i]], list[i + 1..], id);
    EntriesOfSum(list[..i], [list[i]], id);
    EntriesOfSum(list[..i] + x, list[i + 1..], id);
    EntriesOfSum(list[..i], x, id);
    assert list == list[..i] + [list[i]] + list[i + 1..];
  }

  lemma {:induction false} NoStopNoEntry(list: seq<Section>, s: Section)
    requires s.command.SpliceInsert? && Stop(list, s) == |list|
    ensures Entries(list, s.command.eventId) == 0
  {
    if list != [] {
      NoStopNoEntry(list[1..], s);
    }
  }

  /** How the number of entries of any event changes when a section is added. */
  lemma EntriesOfAdded(list: seq<Section>, s: Section, c: Section, id: nat)
    requires IsCopy(c, s)
    ensures Entries(Added(list, s, c), id) ==
            if !IsEvent(s, id) then Entries(list, id)
            else if Entries(list, id) == 0 then 1
            else if s.command.cancel then Entries(list, id) - 1
            else Entries(list, id)
  {
    var i := Stop(list, s);
    if i == |list| {
      EntriesOfSum(list, [c], id);
      if IsEvent(s, id) {
        NoStopNoEntry(list, s);
      }
    } else {
      EntriesSplit(list, i, Instead(list[i], s, c), id);
      EntriesOfSum([c], [list[i]], id);
      assert [c] + [list[i]] == [c, list[i]];
    }
  }

  /** Whatever sections are added, in whatever order: an event has at most one entry. */
  lemma {:induction false} EventsOnce(list: seq<Section>, additions: seq<Addition>)
    requires OncePerEvent(list) && AllCopies(additions)
    ensures OncePerEvent(AddedAll(list, additions))
  {
    if additions != [] {
      var before, last := additions[..|additions| - 1], additions[|additions| - 1];
      EventsOnce(list, before);
      forall id
        ensures Entries(AddedAll(list, additions), id) <= 1
      {
        EntriesOfAdded(AddedAll(list, before), last.s, last.c, id);
      }
    }
  }

  lemma {:induction false} OnlyEntry(list: seq<Section>, id: nat, i: nat, k: nat)
    requires Entries(list, id) <= 1 && i < |list| && k < |list| && IsEvent(list[i], id) && IsEvent(list[k], id)
    ensures i == k
  {
    if i > 0 && k > 0 {
      OnlyEntry(list[1..], id, i - 1, k - 1);
    } else if i > 0 {
      EntryPositive(list[1..], id, i - 1);
    } else if k > 0 {
      EntryPositive(list[1..], id, k - 1);
    }
  }

  lemma {:induction false} FirstEntryIs(list: seq<Section>, id: nat) returns (i: nat)
    requires exists k :: 0 <= k < |list| && IsEvent(list[k], id)
    ensures FirstEntry(list, id, i)
  {
    i := 0;
    if !IsEvent(list[0], id) {
      var k :| 0 <= k < |list| && IsEvent(list[k], id);
      assert list[1..][k - 1] == list[k];
      i := FirstEntryIs(list[1..], id);
      assert forall k :: 0 <= k < |list| - 1 ==> list[1..][k] == list[k + 1];
      i := i + 1;
    }
  }

  /** The copy of a section that names an event and does not cancel it is in the list. */
  lemma CopyIsIn(list: seq<Section>, s: Section, c: Section)
    requires s.command.SpliceInsert? && !s.command.cancel
    ensures c in Added(list, s, c)
  {
    if exists k :: 0 <= k < |list| && IsEvent(list[k], s.command.eventId) {
      var i := FirstEntryIs(list, s.command.eventId);
      ListedEventAdded(list, s, c, i);
      assert list[i := c][i] == c;
    } else {
      OtherwiseAddedLast(list, s, c);
    }
  }

  lemma {:induction false} LastCopyIsIn(list: seq<Section>, additions: seq<Addition>, m: nat, id: nat)
    requires AllCopies(additions) && m < |additions| && IsEvent(additions[m].s, id) && !additions[m].s.command.cancel
    requires forall k :: m < k < |additions| ==> !IsEvent(additions[k].s, id)
    ensures additions[m].c in AddedAll(list, additions)
  {
    var n := |additions| - 1;
    var before, last := additions[..n], additions[n];
    if m == n {
      CopyIsIn(AddedAll(list, before), last.s, last.c);
    } else {
      LastCopyIsIn(list, before, m, id);
      assert IsCopy(additions[m].c, additions[m].s);
      AddedKeeps(AddedAll(list, before), last.s, last.c, additions[m].c);
    }
  }

  /** After any additions an event's entry is the copy of the last section that named it, if that did not cancel it. */
  lemma LastCopyStands(list: seq<Section>, additions: seq<Addition>, m: nat, id: nat)
    requires OncePerEvent(list) && AllCopies(additions)
    requires m < |additions| && IsEvent(additions[m].s, id) && !additions[m].s.command.cancel
    requires forall k :: m < k < |additions| ==> !IsEvent(additions[k].s, id)
    ensures additions[m].c in AddedAll(list, additions)
    ensures forall t :: t in AddedAll(list, additions) && IsEvent(t, id) ==> t == additions[m].c
  {
    var r := AddedAll(list, additions);
    LastCopyIsIn(list, additions, m, id);
    EventsOnce(list, additions);
    assert IsCopy(additions[m].c, additions[m].s);
    var i :| 0 <= i < |r| && r[i] == additions[m].c;
    forall t | t in r && IsEvent(t, id) ensures t == additions[m].c {
      var k :| 0 <= k < |r| && r[k] == t;
      OnlyEntry(r, id, i, k);
    }
  }

  // ---------------------------------------------------------------- cancelling

  lemma {:induction false} EntryIsWhereItStops(list: seq<Section>, s: Section, i: nat)
    requires s.command.SpliceInsert? && i < |list| && IsEvent(list[i], s.command.eventId)
    requires Entries(list, s.command.eventId) <= 1
    ensures Stop(list, s) == i
  {
    if i > 0 {
      EntryPositive(list[1..], s.command.eventId, i - 1);
      EntryIsWhereItStops(list[1..], s, i - 1);
    }
  }

  lemma {:induction false} EntryPositive(list: seq<Section>, id: nat, i: nat)
    requires i < |list| && IsEvent(list[i], id)
    ensures Entries(list, id) > 0
  {
    if i > 0 {
      EntryPositive(list[1..], id, i - 1);
    }
  }

  /** A cancellation of an event in the list takes out its entry, and that alone. */
  lemma CancelRemovesEntry(list: seq<Section>, s: Section, c: Section, i: nat)
    requires IsCopy(c, s) && OncePerEvent(list) && s.command.SpliceInsert? && s.command.cancel
    requires i < |list| && IsEvent(list[i], s.command.eventId)
    ensures Added(list, s, c) == list[..i] + list[i + 1..]
    ensures Entries(Added(list, s, c), s.command.eventId) == 0
  {
    EntryIsWhereItStops(list, s, i);
    EntryPositive(list, s.command.eventId, i);
    EntriesOfAdded(list, s, c, s.command.eventId);
  }

  // ---------------------------------------------------------------- the order of the time signals

  /** The times of the time signals in the list, without the events between them. */
  function Signals(list: seq<Section>): seq<int> {
    if list == [] then []
    else if IsSignal(list[0]) then [list[0].command.time.ptsTime] + Signals(list[1..])
    else Signals(list[1..])
  }

  predicate Ascending(ts: seq<int>) {
    forall i, j :: 0 <= i < j < |ts| ==> ts[i] < ts[j]
  }

  /** The first of the times that is not below `p` when `a` is added to it. */
  function Place(ts: seq<int>, p: nat, a: nat): (i: nat)
    ensures i <= |ts|
    ensures i < |ts| ==> p <= ts[i] + a
    ensures forall k :: 0 <= k < i ==> p > ts[k] + a
  {
    if ts == [] || p <= ts[0] + a then 0 else 1 + Place(ts[1..], p, a)
  }

  /** What a new time signal at `p` with adjustment `a` does to the times. */
  function Placed(ts: seq<int>, p: nat, a: nat): seq<int> {
    var i := Place(ts, p, a);
    if i < |ts| && p == ts[i] + a then ts else InsertAt(ts, i, p)
  }

  lemma {:induction false} SignalsOfSum(a: seq<Section>, b: seq<Section>)
    ensures Signals(a + b) == Signals(a) + Signals(b)
  {
    if a == [] {
      assert a + b == b;
    } else {
      SignalsOfSum(a[1..], b);
      assert (a + b)[1..] == a[1..] + b;
      if IsSignal(a[0]) {
        SumAssociates([a[0].command.time.ptsTime], Signals(a[1..]), Signals(b));
      }
    }
  }

  lemma SumAssociates(x: seq<int>, y: seq<int>, z: seq<int>)
    ensures x + (y + z) == (x + y) + z
  {
  }

  lemma PlaceBehind(t: nat, ts: seq<int>, p: nat, a: nat)
    requires p > t + a
    ensures Place([t] + ts, p, a) == 1 + Place(ts, p, a)
  {
    assert ([t] + ts)[1..] == ts;
  }

  lemma SignalsOfOne(s: Section)
    ensures Signals([s]) == if IsSignal(s) then [s.command.time.ptsTime] else []
  {
    assert [s][1..] == [];
  }

  /** The walk stops at a time signal exactly where its time stops among the times. */
  lemma {:induction false} StopIsPlace(list: seq<Section>, s: Section)
    requires s.command.TimeSignal?
    ensures |Signals(list[..Stop(list, s)])| == Place(Signals(list), s.command.time.ptsTime, s.ptsAdjustment)
  {
    if list != [] && !StopsAt(list[0], s) {
      var rest := list[1..];
      StopIsPlace(rest, s);
      assert list[..Stop(list, s)] == [list[0]] + rest[..Stop(rest, s)];
      SignalsOfSum([list[0]], rest[..Stop(rest, s)]);
      SignalsOfOne(list[0]);
      if IsSignal(list[0]) {
        PlaceBehind(list[0].command.time.ptsTime, Signals(rest), s.command.time.ptsTime, s.ptsAdjustment);
      }
    } else {
      assert list[..Stop(list, s)] == [];
    }
  }

  lemma SignalsSplit(list: seq<Section>, i: nat, x: seq<Section>)
    requires i < |list|
    ensures Signals(list) == Signals(list[..i]) + Signals([list[i]]) + Signals(list[i + 1..])
    ensures Signals(list[..i] + x + list[i + 1..]) == Signals(list[..i]) + Signals(x) + Signals(list[i + 1..])
  {
    SignalsOfSum(list[..i] + [list[i]], list[i + 1..]);
    SignalsOfSum(list[..i], [list[i]]);
    SignalsOfSum(list[..i] + x, list[i + 1..]);
    SignalsOfSum(list[..i], x);
    assert list == list[..i] + [list[i]] + list[i + 1..];
  }

  /** The times around the one that a walk stops at. */
  lemma PlacedSplit(x: seq<int>, t: nat, y: seq<int>, p: nat, a: nat)
    requires Place(x + [t] + y, p, a) == |x|
    ensures Placed(x + [t] + y, p, a) == x + (if p == t + a then [t] else [p, t]) + y
  {
    InsertBetween(x + [t] + y, x, [t] + y, p);
    assert x + [p] + ([t] + y) == x + [p, t] + y;
  }

  /** A walk that stops nowhere adds the time behind the others. */
  lemma SignalsOfLast(list: seq<Section>, s: Section)
    requires s.command.TimeSignal? && Stop(list, s) == |list|
    ensures Signals(list + [s]) == Placed(Signals(list), s.command.time.ptsTime, s.ptsAdjustment)
  {
    StopIsPlace(list, s);
    SignalsOfSum(list, [s]);
    SignalsOfOne(s);
    assert list[..|list|] == list;
    assert InsertAt(Signals(list), |Signals(list)|, s.command.time.ptsTime) ==
           Signals(list) + [s.command.time.ptsTime as int];
  }

  /** The times of what stands in place of the time signal `t`. */
  lemma SignalsOfInstead(t: Section, s: Section)
    requires s.command.TimeSignal? && StopsAt(t, s)
    ensures var u, p: int := t.command.time.ptsTime, s.command.time.ptsTime;
            Signals(Instead(t, s, s)) == if p == u + s.ptsAdjustment then [u] else [p, u]
  {
    SignalsOfSum([s], [t]);
    SignalsOfOne(s);
    SignalsOfOne(t);
    assert [s] + [t] == [s, t];
  }

  /** Whatever events stand between them, the times change as if they were alone in the list. */
  lemma SignalsOfAdded(list: seq<Section>, s: Section, c: Section)
    requires IsCopy(c, s) && s.command.TimeSignal? && s.command.time.timeSpecified
    ensures Signals(Added(list, s, c)) == Placed(Signals(list), s.command.time.ptsTime, s.ptsAdjustment)
  {
    var i := Stop(list, s);
    assert c == s;
    if i == |list| {
      SignalsOfLast(list, s);
    } else {
      var t := list[i];
      StopIsPlace(list, s);
      SignalsSplit(list, i, Instead(t, s, s));
      SignalsOfInstead(t, s);
      SignalsOfOne(t);
      PlacedSplit(Signals(list[..i]), t.command.time.ptsTime, Signals(list[i + 1..]),
                  s.command.time.ptsTime, s.ptsAdjustment);
    }
  }

  /** Other sections leave the times alone. */
  lemma OthersKeepSignals(list: seq<Section>, s: Section, c: Section)
    requires IsCopy(c, s) && !s.command.TimeSignal?
    ensures Signals(Added(list, s, c)) == Signals(list)
  {
    var i := Stop(list, s);
    if i == |list| {
      SignalsOfSum(list, [c]);
    } else {
      SignalsSplit(list, i, Instead(list[i], s, c));
    }
  }

  /** The new time goes before one that is not later, because the adjustment was added to the wrong one. */
  predicate Misplaced(ts: seq<int>, p: nat, a: nat) {
    var i := Place(ts, p, a);
    i < |ts| && ts[i] <= p < ts[i] + a
  }

  lemma PlacedAscendsIff(ts: seq<int>, p: nat, a: nat)
    requires Ascending(ts)
    ensures Ascending(Placed(ts, p, a)) <==> !Misplaced(ts, p, a)
  {
    var i := Place(ts, p, a);
    var us := Placed(ts, p, a);
    if Misplaced(ts, p, a) {
      assert us[i] == p && us[i + 1] == ts[i];
    } else if us != ts {
      assert forall k :: 0 <= k < i ==> ts[k] < p;
      assert forall k :: i <= k < |ts| ==> p < ts[k] by {
        if i < |ts| {
          assert p < ts[i];
        }
      }
    }
  }

  /**
    A new section keeps the time signals strictly ascending exactly when it is not a time signal whose adjustment
    misplaces it. Without adjustment there is no such signal.
  */
  lemma SignalsStayAscendingIff(list: seq<Section>, s: Section, c: Section)
    requires IsCopy(c, s) && Ascending(Signals(list))
    ensures Ascending(Signals(Added(list, s, c))) <==>
            !(s.command.TimeSignal? && s.command.time.timeSpecified &&
              Misplaced(Signals(list), s.command.time.ptsTime, s.ptsAdjustment))
    ensures s.ptsAdjustment == 0 ==> Ascending(Signals(Added(list, s, c)))
  {
    if !s.command.TimeSignal? {
      OthersKeepSignals(list, s, c);
    } else if s.command.time.timeSpecified {
      SignalsOfAdded(list, s, c);
      PlacedAscendsIff(Signals(list), s.command.time.ptsTime, s.ptsAdjustment);
    }
  }

  lemma {:induction false} UnadjustedSignalsAscend(list: seq<Section>, additions: seq<Addition>)
    requires Ascending(Signals(list)) && AllCopies(additions) && forall a :: a in additions ==> a.s.ptsAdjustment == 0
    ensures Ascending(Signals(AddedAll(list, additions)))
  {
    if additions != [] {
      var before, last := additions[..|additions| - 1], additions[|additions| - 1];
      UnadjustedSignalsAscend(list, before);
      SignalsStayAscendingIff(AddedAll(list, before), last.s, last.c);
    }
  }

  /** An adjustment of 10 puts a time signal at 15 before one at 10. */
  lemma AdjustedSignalMisplaced()
    ensures var early := Section(0, TimeSignal(SpliceTime(true, 10)));
            var late := Section(10, TimeSignal(SpliceTime(true, 15)));
            Signals(Added([early], late, late)) == [15, 10]
  {
    var early, late := Section(0, TimeSignal(SpliceTime(true, 10))), Section(10, TimeSignal(SpliceTime(true, 15)));
    var list := [early];
    assert Stop(list, late) == 0;
    assert Instead(list[0], late, late) == [late, early];
    assert list[..0] + [late, early] + list[1..] == [late, early];
    assert Added(list, late, late) == [late, early];
    assert ([late, early])[1..] == [early];
    SignalsOfOne(early);
    assert Signals([late, early]) == [15] + Signals([early]);
  }
}
