/**
  The chained hash table of libstructures/hashtable.c. A key stands for what hashtable_eqfn distinguishes,
  so equal keys hash equally.
*/
module HashTable {
  import opened Options
  import opened Memory
  import opened Chains

  const PRIMES: seq<nat> := [
    53, 97, 193, 389, 769, 1543, 3079, 6151, 12289, 24593, 49157, 98317, 196613, 393241, 786433, 1572869,
    3145739, 6291469, 12582917, 25165843, 50331653, 100663319, 201326611, 402653189, 805306457, 1610612741
  ]

  /** A tenth of the size, rounded up. */
  function LoadLimit(size: nat): nat {
    (size + 9) / 10
  }

  /** Sizes that are in use one after the other: each allows more entries than the one before. */
  ghost predicate Ladder(sizes: seq<nat>) {
    forall i :: 0 <= i < |sizes| ==> StepsUp(sizes, i)
  }

  predicate StepsUp(sizes: seq<nat>, i: nat)
    requires i < |sizes|
  {
    sizes[i] > 0 && (i + 1 < |sizes| ==> LoadLimit(sizes[i]) < LoadLimit(sizes[i + 1]))
  }

  lemma SmallPrimesStepUp()
    ensures forall i :: 0 <= i < 13 ==> StepsUp(PRIMES, i)
  {
    assert StepsUp(PRIMES, 0) && StepsUp(PRIMES, 1) && StepsUp(PRIMES, 2) && StepsUp(PRIMES, 3) && StepsUp(PRIMES, 4);
    assert StepsUp(PRIMES, 5) && StepsUp(PRIMES, 6) && StepsUp(PRIMES, 7) && StepsUp(PRIMES, 8) && StepsUp(PRIMES, 9);
    assert StepsUp(PRIMES, 10) && StepsUp(PRIMES, 11) && StepsUp(PRIMES, 12);
  }

  lemma LargePrimesStepUp()
    ensures forall i :: 13 <= i < 26 ==> StepsUp(PRIMES, i)
  {
    assert StepsUp(PRIMES, 13) && StepsUp(PRIMES, 14) && StepsUp(PRIMES, 15) && StepsUp(PRIMES, 16);
    assert StepsUp(PRIMES, 17) && StepsUp(PRIMES, 18) && StepsUp(PRIMES, 19) && StepsUp(PRIMES, 20);
    assert StepsUp(PRIMES, 21) && StepsUp(PRIMES, 22) && StepsUp(PRIMES, 23) && StepsUp(PRIMES, 24);
    assert StepsUp(PRIMES, 25);
  }

  lemma PrimesAreLadder()
    ensures Ladder(PRIMES)
  {
    SmallPrimesStepUp();
    LargePrimesStepUp();
  }

  /** Every entry is in its bucket and every key occurs once. */
  ghost predicate Sound<K, V>(cs: seq<seq<Entry<K, V>>>, hash: K -> nat) {
    cs != [] && WellPlaced(cs, hash) && DistinctKeys(Flat(cs))
  }

  /** Inserting an absent key at the head of its bucket extends the map. */
  lemma SoundInsert<K, V>(cs: seq<seq<Entry<K, V>>>, hash: K -> nat, e: Entry<K, V>, b: nat)
    requires Sound(cs, hash) && e.k !in MapOf(Flat(cs))
    requires e.h == hash(e.k) && b == e.h % |cs|
    ensures var ds := cs[b := [e] + cs[b]];
            && Sound(ds, hash)
            && MapOf(Flat(ds)) == MapOf(Flat(cs))[e.k := e.v]
            && |Flat(ds)| == |Flat(cs)| + 1
            && Entries(ds) <= Entries(cs) + {e}
  {
    var x := Flat(cs[..b]);
    FlatSplit(cs, b);
    FlatUpdate(cs, b, [e] + cs[b]);
    InsertMiddle(x, cs[b], Flat(cs[b + 1..]), e);
    MapOfInsert(Flat(cs), |x|, e);
    PlacedInsert(cs, hash, e, b);
    EntriesPush(cs, b, e);
  }

  lemma PlacedInsert<K, V>(cs: seq<seq<Entry<K, V>>>, hash: K -> nat, e: Entry<K, V>, b: nat)
    requires cs != [] && WellPlaced(cs, hash) && e.h == hash(e.k) && b == e.h % |cs|
    ensures WellPlaced(cs[b := [e] + cs[b]], hash)
  {
    var ds := cs[b := [e] + cs[b]];
    forall i, f: Entry<K, V> | 0 <= i < |ds| && f in ds[i] ensures f.h == hash(f.k) && f.h % |ds| == i {
      if f != e || i != b { assert f in cs[i]; }
    }
  }

  lemma PlacedRemove<K, V>(cs: seq<seq<Entry<K, V>>>, hash: K -> nat, b: nat, j: nat)
    requires WellPlaced(cs, hash) && b < |cs| && j < |cs[b]|
    ensures WellPlaced(cs[b := RemoveAt(cs[b], j)], hash)
    ensures Entries(cs[b := RemoveAt(cs[b], j)]) <= Entries(cs)
  {
    var ds := cs[b := RemoveAt(cs[b], j)];
    forall i, f | 0 <= i < |ds| && f in ds[i] ensures f in cs[i] {
      if i == b { RemoveSubset(cs[b], j, f); }
    }
    EntriesSubset(ds, cs);
  }

  lemma RemoveSubset<T>(s: seq<T>, i: nat, x: T)
    requires i < |s| && x in RemoveAt(s, i)
    ensures x in s
  {
  }

  lemma EntriesSubset<K, V>(ds: seq<seq<Entry<K, V>>>, cs: seq<seq<Entry<K, V>>>)
    requires |ds| == |cs| && forall i, f :: 0 <= i < |ds| && f in ds[i] ==> f in cs[i]
    ensures Entries(ds) <= Entries(cs)
  {
    forall f | f in Entries(ds) ensures f in Entries(cs) {
      var i :| 0 <= i < |ds| && f in ds[i];
      assert f in cs[i];
    }
  }

  lemma InsertMiddle<T>(x: seq<T>, c: seq<T>, z: seq<T>, e: T)
    ensures x + ([e] + c) + z == InsertAt(x + c + z, |x|, e)
  {
  }

  lemma RemoveMiddle<T>(x: seq<T>, c: seq<T>, z: seq<T>, j: nat)
    requires j < |c|
    ensures x + RemoveAt(c, j) + z == RemoveAt(x + c + z, |x| + j)
  {
  }

  /** Where the entry at `j` of bucket `b` stands among all entries. */
  ghost function Place<K, V>(cs: seq<seq<Entry<K, V>>>, b: nat, j: nat): (p: nat)
    requires b < |cs| && j < |cs[b]|
    ensures p < |Flat(cs)| && Flat(cs)[p] == cs[b][j]
  {
    FlatSplit(cs, b);
    |Flat(cs[..b])| + j
  }

  /** Taking an entry out of its bucket takes its key out of the map. */
  lemma SoundRemove<K, V>(cs: seq<seq<Entry<K, V>>>, hash: K -> nat, b: nat, j: nat)
    requires Sound(cs, hash) && b < |cs| && j < |cs[b]|
    ensures var ds := cs[b := RemoveAt(cs[b], j)];
            && Sound(ds, hash)
            && Flat(ds) == RemoveAt(Flat(cs), Place(cs, b, j))
            && MapOf(Flat(ds)) == MapOf(Flat(cs)) - {cs[b][j].k}
            && Entries(ds) <= Entries(cs)
  {
    FlatSplit(cs, b);
    FlatUpdate(cs, b, RemoveAt(cs[b], j));
    RemoveMiddle(Flat(cs[..b]), cs[b], Flat(cs[b + 1..]), j);
    MapOfRemove(Flat(cs), Place(cs, b, j));
    PlacedRemove(cs, hash, b, j);
  }

  /** A predecessor is in its own bucket only, and there only once. */
  lemma PredecessorOnce<K, V>(cs: seq<seq<Entry<K, V>>>, hash: K -> nat, b: nat, j: nat)
    requires Sound(cs, hash) && b < |cs| && j < |cs[b]|
    ensures forall i :: 0 <= i < |cs| && cs[b][j] in cs[i] ==> i == b
    ensures forall i :: 0 <= i < |cs[b]| && i != j ==> cs[b][i] != cs[b][j]
  {
    DistinctInBucket(cs, b);
    forall i | 0 <= i < |cs| && i != b ensures cs[b][j] !in cs[i] { OneBucket(cs, hash, b, i, cs[b][j]); }
  }

  // ---------------------------------------------------------------- rehashing

  /** Of the entries of `cs`, `oc` holds those still to be moved and `nc` those already in their new buckets. */
  ghost predicate Moving<K, V>(cs: seq<seq<Entry<K, V>>>, oc: seq<seq<Entry<K, V>>>, nc: seq<seq<Entry<K, V>>>,
                               hash: K -> nat) {
    && DistinctKeys(Flat(cs))
    && multiset(Flat(oc)) + multiset(Flat(nc)) == multiset(Flat(cs))
    && (forall i, e :: 0 <= i < |oc| && e in oc[i] ==> e.h == hash(e.k))
    && nc != [] && WellPlaced(nc, hash)
    && Entries(oc) <= Entries(cs) && Entries(nc) <= Entries(cs)
  }

  lemma MovingStart<K, V>(cs: seq<seq<Entry<K, V>>>, nc: seq<seq<Entry<K, V>>>, hash: K -> nat)
    requires Sound(cs, hash) && nc != [] && forall i :: 0 <= i < |nc| ==> nc[i] == []
    ensures Moving(cs, cs, nc, hash)
  {
    FlatOfEmpty(nc);
  }

  /** The entry about to be moved is in neither table otherwise. */
  lemma MovingAbsent<K, V>(cs: seq<seq<Entry<K, V>>>, oc: seq<seq<Entry<K, V>>>, nc: seq<seq<Entry<K, V>>>,
                           hash: K -> nat, i: nat)
    requires Moving(cs, oc, nc, hash) && i < |oc| && oc[i] != []
    ensures Absent(oc[i][0], nc)
    ensures Absent(oc[i][0], oc[i := oc[i][1..]])
  {
    var e, od := oc[i][0], oc[i := oc[i][1..]];
    FlatPop(oc, i);
    DistinctCount(Flat(cs), e);
    assert multiset(Flat(cs))[e] == multiset(Flat(od))[e] + 1 + multiset(Flat(nc))[e];
    NotInFlat(od, e);
    NotInFlat(nc, e);
  }

  lemma NotInFlat<K, V>(cs: seq<seq<Entry<K, V>>>, e: Entry<K, V>)
    requires multiset(Flat(cs))[e] == 0
    ensures Absent(e, cs)
  {
    InFlat(cs, e);
  }

  lemma FlatPop<K, V>(cs: seq<seq<Entry<K, V>>>, i: nat)
    requires i < |cs| && cs[i] != []
    ensures multiset(Flat(cs)) == multiset(Flat(cs[i := cs[i][1..]])) + multiset{cs[i][0]}
  {
    FlatSplit(cs, i);
    FlatUpdate(cs, i, cs[i][1..]);
    assert cs[i] == [cs[i][0]] + cs[i][1..];
  }

  lemma FlatPush<K, V>(cs: seq<seq<Entry<K, V>>>, i: nat, e: Entry<K, V>)
    requires i < |cs|
    ensures multiset(Flat(cs[i := [e] + cs[i]])) == multiset(Flat(cs)) + multiset{e}
  {
    FlatSplit(cs, i);
    FlatUpdate(cs, i, [e] + cs[i]);
  }

  lemma MovingStep<K, V>(cs: seq<seq<Entry<K, V>>>, oc: seq<seq<Entry<K, V>>>, nc: seq<seq<Entry<K, V>>>,
                         hash: K -> nat, i: nat, b: nat)
    requires Moving(cs, oc, nc, hash) && i < |oc| && oc[i] != [] && b == oc[i][0].h % |nc|
    ensures Moving(cs, oc[i := oc[i][1..]], nc[b := [oc[i][0]] + nc[b]], hash)
  {
    var e := oc[i][0];
    assert e in oc[i];
    MovingStepCounts(oc, nc, i, b);
    MovingStepEntries(cs, oc, nc, i, b);
    MovingStepPlaced(oc, oc[i := oc[i][1..]], hash, i);
    PlacedInsert(nc, hash, e, b);
  }

  /** No entry is lost or doubled. */
  lemma MovingStepCounts<K, V>(oc: seq<seq<Entry<K, V>>>, nc: seq<seq<Entry<K, V>>>, i: nat, b: nat)
    requires i < |oc| && oc[i] != [] && b < |nc|
    ensures multiset(Flat(oc[i := oc[i][1..]])) + multiset(Flat(nc[b := [oc[i][0]] + nc[b]])) ==
            multiset(Flat(oc)) + multiset(Flat(nc))
  {
    FlatPop(oc, i);
    FlatPush(nc, b, oc[i][0]);
  }

  /** The entries still to be moved store their hashes. */
  lemma MovingStepPlaced<K, V>(
    oc: seq<seq<Entry<K, V>>>, od: seq<seq<Entry<K, V>>>, hash: K -> nat, i: nat)
    requires i < |oc| && oc[i] != [] && od == oc[i := oc[i][1..]]
    requires forall j, e :: 0 <= j < |oc| && e in oc[j] ==> e.h == hash(e.k)
    ensures forall j, e :: 0 <= j < |od| && e in od[j] ==> e.h == hash(e.k)
  {
    forall j, e | 0 <= j < |od| && e in od[j] ensures e.h == hash(e.k) {
      assert e in oc[j];
    }
  }

  lemma MovingStepEntries<K, V>(cs: seq<seq<Entry<K, V>>>, oc: seq<seq<Entry<K, V>>>, nc: seq<seq<Entry<K, V>>>,
                                i: nat, b: nat)
    requires Entries(oc) <= Entries(cs) && Entries(nc) <= Entries(cs)
    requires i < |oc| && oc[i] != [] && b < |nc|
    ensures Entries(oc[i := oc[i][1..]]) <= Entries(cs)
    ensures Entries(nc[b := [oc[i][0]] + nc[b]]) <= Entries(cs)
  {
    InEntries(oc, i, oc[i][0]);
    EntriesPop(oc, i);
    EntriesPush(nc, b, oc[i][0]);
  }

  lemma InEntries<K, V>(cs: seq<seq<Entry<K, V>>>, i: nat, e: Entry<K, V>)
    requires i < |cs| && e in cs[i]
    ensures e in Entries(cs)
  {
  }

  lemma EntriesPop<K, V>(cs: seq<seq<Entry<K, V>>>, i: nat)
    requires i < |cs| && cs[i] != []
    ensures Entries(cs[i := cs[i][1..]]) <= Entries(cs)
    ensures forall j, e :: 0 <= j < |cs| && e in cs[i := cs[i][1..]][j] ==> e in cs[j]
  {
    forall j, e | 0 <= j < |cs| && e in cs[i := cs[i][1..]][j] ensures e in cs[j] {
      if j == i { assert e in cs[i][1..]; }
    }
    EntriesSubset(cs[i := cs[i][1..]], cs);
  }

  lemma EntriesPush<K, V>(cs: seq<seq<Entry<K, V>>>, i: nat, e: Entry<K, V>)
    requires i < |cs|
    ensures Entries(cs[i := [e] + cs[i]]) <= Entries(cs) + {e}
  {
    var ds := cs[i := [e] + cs[i]];
    forall f | f in Entries(ds) ensures f == e || f in Entries(cs) {
      var j :| 0 <= j < |ds| && f in ds[j];
      if f != e {
        assert f in cs[j];
        InEntries(cs, j, f);
      }
    }
  }

  lemma {:induction false} FlatOfEmpty<K, V>(cs: seq<seq<Entry<K, V>>>)
    requires forall i :: 0 <= i < |cs| ==> cs[i] == []
    ensures Flat(cs) == []
  {
    if cs != [] { FlatOfEmpty(cs[1..]); }
  }

  /** Once the old table is empty the new one stands for the same map. */
  lemma MovingDone<K, V>(
    cs: seq<seq<Entry<K, V>>>, oc: seq<seq<Entry<K, V>>>, nc: seq<seq<Entry<K, V>>>, hash: K -> nat)
    requires Moving(cs, oc, nc, hash) && forall i :: 0 <= i < |oc| ==> oc[i] == []
    ensures Sound(nc, hash) && MapOf(Flat(nc)) == MapOf(Flat(cs)) && |Flat(nc)| == |Flat(cs)|
    ensures Entries(nc) <= Entries(cs)
  {
    FlatOfEmpty(oc);
    DistinctPermuted(Flat(cs), Flat(nc));
    MapOfPermuted(Flat(cs), Flat(nc));
    assert |multiset(Flat(nc))| == |multiset(Flat(cs))|;
  }

  /** The inner loop's body: the first entry of slot `i` goes to the head of its slot in the new table. */
  method MoveOne<K, V>(t: array<Entry?<K, V>>, nt: array<Entry?<K, V>>, i: nat, ghost cs: seq<seq<Entry<K, V>>>,
                       ghost oc: seq<seq<Entry<K, V>>>, ghost nc: seq<seq<Entry<K, V>>>, ghost hash: K -> nat)
    returns (ghost od: seq<seq<Entry<K, V>>>, ghost nd: seq<seq<Entry<K, V>>>)
    requires t != nt && Heads(t, oc) && Heads(nt, nc)
    requires Moving(cs, oc, nc, hash) && i < |oc| && oc[i] != []
    modifies t, nt, Entries(cs)
    ensures od == oc[i := oc[i][1..]] && |nd| == |nc|
    ensures Heads(t, od) && Heads(nt, nd) && Moving(cs, od, nd, hash)
  {
    MovingAbsent(cs, oc, nc, hash, i);
    od := oc[i := oc[i][1..]];
    var e := PopFront(t, oc, i);
    var index := e.h % nt.Length;
    MovingStep(cs, oc, nc, hash, i, index);
    assert e in oc[i];
    InEntries(oc, i, e);
    nd := nc[index := [e] + nc[index]];
    PushFront(nt, nc, index, e);
  }

  /** The inner loop. */
  method MoveBucket<K, V>(t: array<Entry?<K, V>>, nt: array<Entry?<K, V>>, i: nat, ghost cs: seq<seq<Entry<K, V>>>,
                          ghost oc0: seq<seq<Entry<K, V>>>, ghost nc0: seq<seq<Entry<K, V>>>, ghost hash: K -> nat)
    returns (ghost oc: seq<seq<Entry<K, V>>>, ghost nc: seq<seq<Entry<K, V>>>)
    requires t != nt && Heads(t, oc0) && Heads(nt, nc0)
    requires Moving(cs, oc0, nc0, hash) && i < |oc0|
    modifies t, nt, Entries(cs)
    ensures oc == oc0[i := []] && |nc| == |nc0|
    ensures Heads(t, oc) && Heads(nt, nc) && Moving(cs, oc, nc, hash)
  {
    oc, nc := oc0, nc0;
    while t[i] != null
      invariant |oc| == t.Length && |nc| == nt.Length
      invariant oc == oc0[i := oc[i]]
      invariant Heads(t, oc) && Heads(nt, nc) && Moving(cs, oc, nc, hash)
      decreases |oc[i]|
    {
      oc, nc := MoveOne(t, nt, i, cs, oc, nc, hash);
    }
  }

  /** The loops that move every entry of `t` to its slot in the empty table `nt`. */
  method MoveAll<K, V>(t: array<Entry?<K, V>>, nt: array<Entry?<K, V>>, ghost cs: seq<seq<Entry<K, V>>>,
                       ghost hash: K -> nat) returns (ghost nc: seq<seq<Entry<K, V>>>)
    requires t != nt && Heads(t, cs) && Sound(cs, hash)
    requires nt.Length > 0 && forall i :: 0 <= i < nt.Length ==> nt[i] == null
    modifies t, nt, Entries(cs)
    ensures Heads(nt, nc) && Sound(nc, hash)
    ensures MapOf(Flat(nc)) == MapOf(Flat(cs)) && |Flat(nc)| == |Flat(cs)|
    ensures Entries(nc) <= Entries(cs)
  {
    ghost var oc := cs;
    nc := seq(nt.Length, _ => []);
    MovingStart(cs, nc, hash);
    var i := 0;
    while i < t.Length
      invariant 0 <= i <= t.Length == |oc| && |nc| == nt.Length
      invariant forall j :: 0 <= j < i ==> oc[j] == []
      invariant Heads(t, oc) && Heads(nt, nc) && Moving(cs, oc, nc, hash)
    {
      oc, nc := MoveBucket(t, nt, i, cs, oc, nc, hash);
      i := i + 1;
    }
    MovingDone(cs, oc, nc, hash);
  }

  /** Unlinking changes the chain of slot `b` only. */
  method UnlinkSound<K, V>(t: array<Entry?<K, V>>, ghost cs: seq<seq<Entry<K, V>>>, ghost hash: K -> nat, b: nat,
                           ghost j: nat, parent: Entry?<K, V>, e: Entry<K, V>)
    requires Heads(t, cs) && Sound(cs, hash) && b < |cs| && j < |cs[b]| && e == cs[b][j]
    requires parent == if j == 0 then null else cs[b][j - 1]
    modifies t, Entries(cs)
    ensures Heads(t, cs[b := RemoveAt(cs[b], j)])
    ensures e.next == HeadOf(cs[b][j + 1..])
  {
    if j > 0 {
      PredecessorOnce(cs, hash, b, j - 1);
      InEntries(cs, b, cs[b][j - 1]);
    }
    Unlink(t, cs, b, j, parent, e);
  }

  lemma NotMember<K, V>(cs: seq<seq<Entry<K, V>>>, r: set<object>, e: Entry<K, V>)
    requires Entries(cs) <= r && e !in r
    ensures Absent(e, cs)
  {
    forall i, f | 0 <= i < |cs| && f in cs[i] ensures f in r { InEntries(cs, i, f); }
  }

  class HashTable<K(==), V> {
    const hash: K -> nat
    const primes: seq<nat>
    var table: array<Entry?<K, V>>
    var tablelength: nat
    var entrycount: nat
    var loadlimit: nat
    var primeindex: nat
    ghost var chains: seq<seq<Entry<K, V>>>
    ghost var Repr: set<object>

    /** Everything but the count: a prime number of slots, each heading a chain of entries that belong there. */
    ghost predicate Shape()
      reads this, Repr
    {
      && this in Repr && table in Repr
      && Ladder(primes)
      && primeindex < |primes| && tablelength == primes[primeindex] == |chains|
      && loadlimit == LoadLimit(tablelength)
      && Sound(chains, hash)
      && Entries(chains) <= Repr
      && Heads(table, chains)
    }

    ghost predicate Valid()
      reads this, Repr
      ensures Valid() ==> this in Repr
    {
      Shape() && entrycount == |Flat(chains)| && WithinLoad()
    }

    /** There are no more entries than the size allows, unless there is no larger one. */
    ghost predicate WithinLoad()
      reads this
    {
      entrycount <= LoadLimit(tablelength) || primeindex == |primes| - 1
    }

    /** The finite map the table stands for. */
    ghost function M(): map<K, V>
      reads this
    {
      MapOf(Flat(chains))
    }

    /** hashtable_new; `hash` is the user's hash function followed by the mixing of hash(). */
    constructor (hash: K -> nat)
      ensures Valid() && fresh(Repr)
      ensures this.hash == hash && M() == map[]
    {
      this.hash, primes := hash, PRIMES;
      table := new Entry?<K, V>[53](_ => null);
      tablelength, entrycount, loadlimit, primeindex := 53, 0, LoadLimit(53), 0;
      chains := seq(53, _ => []);
      new;
      Repr := {this, table};
      FlatOfEmpty(chains);
      PrimesAreLadder();
    }

    /** hashtable_count: the number of keys. */
    method Count() returns (n: nat)
      requires Valid()
      ensures n == |M()|
    {
      MapOfSize(Flat(chains));
      n := entrycount;
    }

    /** hashtable_expand: the next prime size, unless the last is in use. */
    method Expand()
      requires Shape()
      modifies Repr
      ensures Shape() && fresh(Repr - old(Repr))
      ensures M() == old(M()) && entrycount == old(entrycount) && |Flat(chains)| == old(|Flat(chains)|)
      ensures primeindex == if old(primeindex) + 1 < |primes| then old(primeindex) + 1 else old(primeindex)
    {
      if primeindex == |primes| - 1 { return; }
      var newsize := primes[primeindex + 1];
      assert StepsUp(primes, primeindex + 1);
      ghost var nc;
      var nt;
      nt, nc := Rehash(newsize);
      Adopt(nt, newsize, nc);
    }

    /** All entries in a table of the new size; the old one is left empty. */
    method Rehash(newsize: nat) returns (nt: array<Entry?<K, V>>, ghost nc: seq<seq<Entry<K, V>>>)
      requires Shape() && newsize > 0
      modifies Repr - {this}
      ensures fresh(nt) && nt.Length == newsize && Heads(nt, nc) && Sound(nc, hash) && Entries(nc) <= Repr
      ensures MapOf(Flat(nc)) == M() && |Flat(nc)| == |Flat(chains)|
    {
      nt := new Entry?<K, V>[newsize](_ => null);
      nc := MoveAll(table, nt, chains, hash);
    }

    /** The new table replaces the old one. */
    method Adopt(nt: array<Entry?<K, V>>, newsize: nat, ghost nc: seq<seq<Entry<K, V>>>)
      requires this in Repr && Ladder(primes)
      requires primeindex + 1 < |primes| && newsize == primes[primeindex + 1] == nt.Length
      requires Heads(nt, nc) && Sound(nc, hash) && Entries(nc) <= Repr
      modifies this
      ensures Shape() && Repr == old(Repr) + {nt} && chains == nc && entrycount == old(entrycount)
      ensures primeindex == old(primeindex) + 1
    {
      table := nt;
      primeindex := primeindex + 1;
      tablelength := newsize;
      loadlimit := LoadLimit(newsize);
      chains := nc;
      Repr := Repr + {nt};
    }

    /** A new entry at the head of its bucket. */
    method Link(index: nat, e: Entry<K, V>)
      requires Shape() && e.k !in M() && e !in Repr && e.h == hash(e.k) && index == e.h % tablelength
      modifies this, table, e
      ensures Shape() && Repr == old(Repr) + {e} && entrycount == old(entrycount) && primeindex == old(primeindex)
      ensures M() == old(M())[e.k := e.v] && |Flat(chains)| == old(|Flat(chains)|) + 1
    {
      SoundInsert(chains, hash, e, index);
      NotMember(chains, Repr, e);
      PushFront(table, chains, index, e);
      chains := chains[index := [e] + chains[index]];
      Repr := Repr + {e};
    }

    /** Counts one more entry, which may be one too many for the present size. */
    method Reserve()
      requires Valid()
      modifies Repr
      ensures Shape() && fresh(Repr - old(Repr)) && M() == old(M()) && entrycount == |Flat(chains)| + 1
      ensures WithinLoad()
    {
      entrycount := entrycount + 1;
      assert Shape();
      assert StepsUp(primes, primeindex);
      if entrycount > loadlimit {
        Expand();
      }
    }

    /** hashtable_insert of an absent key. */
    method Insert(k: K, v: V)
      requires Valid() && k !in M()
      modifies Repr
      ensures Valid() && fresh(Repr - old(Repr))
      ensures M() == old(M())[k := v] && WithinLoad()
    {
      Reserve();
      var index := hash(k) % tablelength;
      var e := new Entry(k, v, hash(k), null);
      Link(index, e);
    }

    /** hashtable_search */
    method Search(k: K) returns (r: Option<V>)
      requires Valid()
      ensures r == if k in M() then Some(M()[k]) else None
    {
      var hashvalue := hash(k);
      var index := hashvalue % tablelength;
      var e := table[index];
      ghost var c, j := chains[index], 0;
      while e != null
        invariant 0 <= j <= |c| && e == HeadOf(c[j..])
        invariant forall i :: 0 <= i < j ==> c[i].k != k
        decreases |c| - j
      {
        if hashvalue == e.h && k == e.k {
          MapOfInBucket(chains, index, j);
          return Some(e.v);
        }
        e := e.next;
        j := j + 1;
      }
      MapOfBucket(chains, hash, k);
      return None;
    }

    /** Taking the entry at `j` out of bucket `index`. */
    method UnlinkEntry(index: nat, parent: Entry?<K, V>, e: Entry<K, V>, ghost j: nat)
      requires Valid() && index < |chains| && j < |chains[index]| && e == chains[index][j]
      requires parent == if j == 0 then null else chains[index][j - 1]
      modifies Repr
      ensures Valid() && Repr == old(Repr)
      ensures chains == old(chains)[index := RemoveAt(old(chains[index]), j)]
      ensures Flat(chains) == RemoveAt(old(Flat(chains)), old(Place(chains, index, j)))
      ensures M() == old(M()) - {e.k}
      ensures e.next == HeadOf(old(chains)[index][j + 1..])
    {
      SoundRemove(chains, hash, index, j);
      Bypass(index, parent, e, j);
      entrycount := entrycount - 1;
    }

    /** Links past the entry at `j` of bucket `index`. */
    method Bypass(index: nat, parent: Entry?<K, V>, e: Entry<K, V>, ghost j: nat)
      requires Shape() && index < |chains| && j < |chains[index]| && e == chains[index][j]
      requires parent == if j == 0 then null else chains[index][j - 1]
      requires var cs := chains[index := RemoveAt(chains[index], j)]; Sound(cs, hash) && Entries(cs) <= Entries(chains)
      modifies Repr
      ensures Shape() && Repr == old(Repr) && entrycount == old(entrycount) && primeindex == old(primeindex)
      ensures chains == old(chains)[index := RemoveAt(old(chains[index]), j)]
      ensures e.next == HeadOf(old(chains)[index][j + 1..])
    {
      ghost var cs := chains[index := RemoveAt(chains[index], j)];
      UnlinkSound(table, chains, hash, index, j, parent, e);
      chains := cs;
    }

    /** The loop of hashtable_remove: where the key is in its bucket, with the entry before it. */
    method Locate(k: K) returns (parent: Entry?<K, V>, e: Entry?<K, V>, ghost j: nat)
      requires Valid()
      ensures var c := chains[hash(k) % |chains|];
              && j <= |c| && parent == (if j == 0 then null else c[j - 1])
              && (forall i :: 0 <= i < j ==> c[i].k != k)
              && if e == null then j == |c| else j < |c| && e == c[j] && e.k == k
    {
      var hashvalue := hash(k);
      var index := hashvalue % tablelength;
      parent, e, j := null, table[index], 0;
      ghost var c := chains[index];
      while e != null && !(hashvalue == e.h && k == e.k)
        invariant 0 <= j <= |c| && e == HeadOf(c[j..])
        invariant parent == if j == 0 then null else c[j - 1]
        invariant forall i :: 0 <= i < j ==> c[i].k != k
        decreases |c| - j
      {
        parent := e;
        e := e.next;
        j := j + 1;
      }
    }

    /** hashtable_remove */
    method Remove(k: K) returns (r: Option<V>)
      requires Valid()
      modifies Repr
      ensures Valid() && fresh(Repr - old(Repr))
      ensures r == if k in old(M()) then Some(old(M())[k]) else None
      ensures M() == old(M()) - {k}
    {
      var index := hash(k) % tablelength;
      var parent, e, j := Locate(k);
      if e == null {
        MapOfBucket(chains, hash, k);
        return None;
      }
      MapOfInBucket(chains, index, j);
      UnlinkEntry(index, parent, e, j);
      return Some(e.v);
    }

    static method StoreKey(keys: array<K>, m: nat, k: K)
      requires m < keys.Length
      modifies keys
      ensures keys[..m + 1] == old(keys[..m]) + [k]
    {
      keys[m] := k;
    }

    /** The inner loop of hashtable_get_key_array: the keys of one chain. */
    method CopyKeys(keys: array<K>, n: nat, i: nat) returns (m: nat)
      requires Valid() && i < |chains| && n <= keys.Length == |Flat(chains)| && keys !in Repr
      requires keys[..n] == KeysOf(Flat(chains[..i]))
      modifies keys
      ensures m <= keys.Length && keys[..m] == KeysOf(Flat(chains[..i + 1]))
    {
      m := n;
      var e := table[i];
      ghost var cs := chains;
      ghost var c, j := cs[i], 0;
      KeysPrefix(cs, i, 0);
      while e != null
        invariant 0 <= j <= |c| && e == HeadOf(c[j..])
        invariant m <= keys.Length == |Flat(cs)|
        invariant keys[..m] == KeysOf(Flat(cs[..i]) + c[..j])
        decreases |c| - j
      {
        KeysPrefix(cs, i, j);
        StoreKey(keys, m, e.k);
        m := m + 1;
        e := e.next;
        j := j + 1;
      }
      KeysBucket(cs, i);
      assert c[..j] == c;
    }

    /**
      hashtable_get_key_array: walks the buckets into an array with room for as many keys as the count says;
      `nil` is what calloc leaves there.
    */
    method GetKeyArray(nil: K) returns (keys: array<K>)
      requires Valid()
      ensures fresh(keys) && keys[..] == KeysOf(Flat(chains))
      ensures keys.Length == |M()| && forall k :: k in keys[..] <==> k in M()
      ensures forall i, j :: 0 <= i < j < keys.Length ==> keys[i] != keys[j]
    {
      keys := new K[entrycount](_ => nil);
      var n: nat, i: nat := 0, 0;
      ghost var cs := chains;
      assert cs[..0] == [];
      while i < tablelength
        invariant 0 <= i <= tablelength == |cs| && n <= keys.Length == |Flat(cs)|
        invariant Valid() && chains == cs && keys !in Repr && keys[..n] == KeysOf(Flat(cs[..i]))
      {
        n := CopyKeys(keys, n, i);
        i := i + 1;
      }
      assert cs[..i] == cs;
      KeysOnce(Flat(cs));
      assert keys[..] == KeysOf(Flat(cs));
    }
  }

  ghost function KeysOf<K, V>(s: seq<Entry<K, V>>): (ks: seq<K>)
    ensures |ks| == |s|
  {
    seq(|s|, i requires 0 <= i < |s| => s[i].k)
  }

  lemma KeysPrefix<K, V>(cs: seq<seq<Entry<K, V>>>, i: nat, j: nat)
    requires i < |cs| && j <= |cs[i]|
    ensures |Flat(cs[..i]) + cs[i][..j]| <= |Flat(cs)|
    ensures Flat(cs[..i]) + cs[i][..0] == Flat(cs[..i])
    ensures j < |cs[i]| ==>
              && |Flat(cs[..i]) + cs[i][..j]| < |Flat(cs)|
              && KeysOf(Flat(cs[..i]) + cs[i][..j + 1]) == KeysOf(Flat(cs[..i]) + cs[i][..j]) + [cs[i][j].k]
  {
    FlatSplit(cs, i);
  }

  lemma KeysBucket<K, V>(cs: seq<seq<Entry<K, V>>>, i: nat)
    requires i < |cs|
    ensures Flat(cs[..i + 1]) == Flat(cs[..i]) + cs[i]
  {
    FlatSplit(cs[..i + 1], i);
    assert cs[..i + 1][..i] == cs[..i] && cs[..i + 1][i + 1..] == [];
  }

  /** The key array of a table lists each key of the map exactly once. */
  lemma KeysOnce<K, V>(s: seq<Entry<K, V>>)
    requires DistinctKeys(s)
    ensures |KeysOf(s)| == |MapOf(s)|
    ensures forall i, j :: 0 <= i < j < |s| ==> KeysOf(s)[i] != KeysOf(s)[j]
    ensures forall k :: k in KeysOf(s) <==> k in MapOf(s)
  {
    MapOfSize(s);
    forall k | k in KeysOf(s) ensures k in MapOf(s) {
      var i :| 0 <= i < |s| && KeysOf(s)[i] == k;
      MapOfHas(s, i);
    }
    forall k | k in MapOf(s) ensures k in KeysOf(s) {
      MapOfOnly(s, k);
      var i :| 0 <= i < |s| && s[i].k == k;
      assert KeysOf(s)[i] == k;
    }
  }
}
