/**
  The bucket chains of libstructures/hashtable.c seen as sequences of entries. Only the links between entries
  live on the heap; the key, the value and the stored hash of an entry never change.
*/
module Chains {
  import opened Memory

  class Entry<K, V> {
    const k: K
    const v: V
    const h: nat
    var next: Entry?<K, V>

    constructor (k: K, v: V, h: nat, next: Entry?<K, V>)
      ensures this.k == k && this.v == v && this.h == h && this.next == next
    {
      this.k, this.v, this.h, this.next := k, v, h, next;
    }
  }

  /** Following `next` from `head` visits exactly the entries of `c`. */
  ghost predicate Linked<K, V>(head: Entry?<K, V>, c: seq<Entry<K, V>>)
    reads c
  {
    && head == HeadOf(c)
    && forall j :: 0 <= j < |c| ==> c[j].next == HeadOf(c[j + 1..])
  }

  function HeadOf<K, V>(c: seq<Entry<K, V>>): Entry?<K, V> {
    if c == [] then null else c[0]
  }

  /** All entries, bucket by bucket. */
  ghost function Flat<K, V>(cs: seq<seq<Entry<K, V>>>): seq<Entry<K, V>> {
    if cs == [] then [] else cs[0] + Flat(cs[1..])
  }

  ghost predicate DistinctKeys<K, V>(s: seq<Entry<K, V>>) {
    forall i, j :: 0 <= i < j < |s| ==> s[i].k != s[j].k
  }

  /** Every entry stores the hash of its key and sits in the bucket that hash selects. */
  ghost predicate WellPlaced<K, V>(cs: seq<seq<Entry<K, V>>>, hash: K -> nat) {
    forall i, e :: 0 <= i < |cs| && e in cs[i] ==> e.h == hash(e.k) && e.h % |cs| == i
  }

  /** The finite map the entries stand for. */
  ghost function MapOf<K, V>(s: seq<Entry<K, V>>): map<K, V> {
    if s == [] then map[] else MapOf(s[1..])[s[0].k := s[0].v]
  }

  // ---------------------------------------------------------------- flattening

  lemma {:induction false} FlatSplit<K, V>(cs: seq<seq<Entry<K, V>>>, i: nat)
    requires i < |cs|
    ensures Flat(cs) == Flat(cs[..i]) + cs[i] + Flat(cs[i + 1..])
  {
    if i == 0 {
      assert cs[..0] == [];
    } else {
      var t := cs[1..];
      FlatSplit(t, i - 1);
      assert t[..i - 1] == cs[..i][1..] && t[i..] == cs[i + 1..];
      assert cs[0] + (Flat(t[..i - 1]) + cs[i] + Flat(t[i..])) == (cs[0] + Flat(t[..i - 1])) + cs[i] + Flat(t[i..]);
    }
  }

  /** Changing one bucket changes that part of the whole only. */
  lemma FlatUpdate<K, V>(cs: seq<seq<Entry<K, V>>>, i: nat, c: seq<Entry<K, V>>)
    requires i < |cs|
    ensures Flat(cs[i := c]) == Flat(cs[..i]) + c + Flat(cs[i + 1..])
  {
    FlatSplit(cs[i := c], i);
    assert cs[i := c][..i] == cs[..i] && cs[i := c][i + 1..] == cs[i + 1..];
  }

  lemma {:induction false} InFlat<K, V>(cs: seq<seq<Entry<K, V>>>, e: Entry<K, V>)
    ensures e in Flat(cs) <==> exists i :: 0 <= i < |cs| && e in cs[i]
  {
    if cs != [] {
      InFlat(cs[1..], e);
      if e in Flat(cs[1..]) {
        var i :| 0 <= i < |cs[1..]| && e in cs[1..][i];
        assert e in cs[i + 1];
      }
      if i :| 0 < i < |cs| && e in cs[i] {
        assert e in cs[1..][i - 1];
      }
    }
  }

  // ---------------------------------------------------------------- the map

  lemma {:induction false} MapOfHas<K, V>(s: seq<Entry<K, V>>, i: nat)
    requires i < |s| && DistinctKeys(s)
    ensures s[i].k in MapOf(s) && MapOf(s)[s[i].k] == s[i].v
  {
    if i > 0 { MapOfHas(s[1..], i - 1); }
  }

  lemma {:induction false} MapOfOnly<K, V>(s: seq<Entry<K, V>>, k: K)
    requires k in MapOf(s)
    ensures exists i :: 0 <= i < |s| && s[i].k == k
  {
    if s[0].k != k {
      MapOfOnly(s[1..], k);
      var i :| 0 <= i < |s[1..]| && s[1..][i].k == k;
      assert s[i + 1].k == k;
    }
  }

  /** With distinct keys there is one entry for each key of the map. */
  lemma {:induction false} MapOfSize<K, V>(s: seq<Entry<K, V>>)
    requires DistinctKeys(s)
    ensures |MapOf(s)| == |s|
  {
    if s != [] {
      MapOfSize(s[1..]);
      if s[0].k in MapOf(s[1..]) { MapOfOnly(s[1..], s[0].k); }
    }
  }

  /** The order of the entries does not matter. */
  lemma MapOfPermuted<K, V>(s: seq<Entry<K, V>>, t: seq<Entry<K, V>>)
    requires DistinctKeys(s) && DistinctKeys(t) && multiset(s) == multiset(t)
    ensures MapOf(s) == MapOf(t)
  {
    forall k | k in MapOf(s) ensures k in MapOf(t) && MapOf(t)[k] == MapOf(s)[k] { MapOfPermutedAt(s, t, k); }
    forall k | k in MapOf(t) ensures k in MapOf(s) { MapOfPermutedAt(t, s, k); }
  }

  lemma MapOfPermutedAt<K, V>(s: seq<Entry<K, V>>, t: seq<Entry<K, V>>, k: K)
    requires DistinctKeys(s) && DistinctKeys(t) && multiset(s) == multiset(t) && k in MapOf(s)
    ensures k in MapOf(t) && MapOf(t)[k] == MapOf(s)[k]
  {
    MapOfOnly(s, k);
    var i :| 0 <= i < |s| && s[i].k == k;
    MapOfHas(s, i);
    assert s[i] in multiset(t);
    var j :| 0 <= j < |t| && t[j] == s[i];
    MapOfHas(t, j);
  }

  lemma MapOfInsert<K, V>(s: seq<Entry<K, V>>, i: nat, e: Entry<K, V>)
    requires i <= |s| && DistinctKeys(s) && e.k !in MapOf(s)
    ensures DistinctKeys(InsertAt(s, i, e))
    ensures MapOf(InsertAt(s, i, e)) == MapOf(s)[e.k := e.v]
  {
    var t := InsertAt(s, i, e);
    forall j | 0 <= j < |s| ensures s[j].k != e.k { MapOfHas(s, j); }
    assert s == s[..i] + s[i..];
    var u := [e] + s;
    assert u[1..] == s;
    assert multiset(t) == multiset(u);
    InsertDistinct(s, i, e);
    InsertDistinct(s, 0, e);
    assert u == InsertAt(s, 0, e);
    MapOfPermuted(t, u);
  }

  lemma InsertDistinct<K, V>(s: seq<Entry<K, V>>, i: nat, e: Entry<K, V>)
    requires i <= |s| && DistinctKeys(s) && forall j :: 0 <= j < |s| ==> s[j].k != e.k
    ensures DistinctKeys(InsertAt(s, i, e))
  {
    var t := InsertAt(s, i, e);
    forall p, q | 0 <= p < q < |t| ensures t[p].k != t[q].k {
      assert t[p] == if p < i then s[p] else if p == i then e else s[p - 1];
      assert t[q] == if q < i then s[q] else if q == i then e else s[q - 1];
    }
  }

  lemma MapOfRemove<K, V>(s: seq<Entry<K, V>>, i: nat)
    requires i < |s| && DistinctKeys(s)
    ensures DistinctKeys(RemoveAt(s, i))
    ensures s[i].k !in MapOf(RemoveAt(s, i))
    ensures MapOf(RemoveAt(s, i)) == MapOf(s) - {s[i].k}
  {
    var t, e := RemoveAt(s, i), s[i];
    RemoveDistinct(s, i);
    if e.k in MapOf(t) { MapOfOnly(t, e.k); }
    MapOfInsert(t, i, e);
    InsertRemoved(s, i);
  }

  lemma RemoveDistinct<K, V>(s: seq<Entry<K, V>>, i: nat)
    requires i < |s| && DistinctKeys(s)
    ensures DistinctKeys(RemoveAt(s, i))
    ensures forall p :: 0 <= p < |s| - 1 ==> RemoveAt(s, i)[p].k != s[i].k
  {
    var t := RemoveAt(s, i);
    forall p | 0 <= p < |t| ensures t[p] == if p < i then s[p] else s[p + 1] {
    }
  }

  lemma InsertRemoved<T>(s: seq<T>, i: nat)
    requires i < |s|
    ensures InsertAt(RemoveAt(s, i), i, s[i]) == s
  {
  }

  /** A key of the map is found in the bucket its hash selects, and nowhere else. */
  lemma MapOfBucket<K, V>(cs: seq<seq<Entry<K, V>>>, hash: K -> nat, k: K)
    requires cs != [] && WellPlaced(cs, hash) && DistinctKeys(Flat(cs))
    ensures k in MapOf(Flat(cs)) <==> exists j :: 0 <= j < |cs[hash(k) % |cs|]| && cs[hash(k) % |cs|][j].k == k
  {
    var b := hash(k) % |cs|;
    if k in MapOf(Flat(cs)) {
      MapOfOnly(Flat(cs), k);
      var i :| 0 <= i < |Flat(cs)| && Flat(cs)[i].k == k;
      InFlat(cs, Flat(cs)[i]);
      assert Flat(cs)[i] in cs[b];
    }
    if j :| 0 <= j < |cs[b]| && cs[b][j].k == k {
      MapOfInBucket(cs, b, j);
    }
  }

  lemma MapOfInBucket<K, V>(cs: seq<seq<Entry<K, V>>>, b: nat, j: nat)
    requires b < |cs| && j < |cs[b]| && DistinctKeys(Flat(cs))
    ensures cs[b][j].k in MapOf(Flat(cs)) && MapOf(Flat(cs))[cs[b][j].k] == cs[b][j].v
  {
    FlatSplit(cs, b);
    MapOfHas(Flat(cs), |Flat(cs[..b])| + j);
  }

  /** Entries in different places are different entries. */
  lemma OneBucket<K, V>(cs: seq<seq<Entry<K, V>>>, hash: K -> nat, i: nat, j: nat, e: Entry<K, V>)
    requires WellPlaced(cs, hash) && i < |cs| && j < |cs| && i != j && e in cs[i]
    ensures e !in cs[j]
  {
    assert e.h % |cs| == i;
  }

  lemma DistinctInBucket<K, V>(cs: seq<seq<Entry<K, V>>>, b: nat)
    requires b < |cs| && DistinctKeys(Flat(cs))
    ensures DistinctKeys(cs[b])
  {
    FlatSplit(cs, b);
    DistinctMiddle(Flat(cs[..b]), cs[b], Flat(cs[b + 1..]));
  }

  lemma DistinctMiddle<K, V>(x: seq<Entry<K, V>>, y: seq<Entry<K, V>>, z: seq<Entry<K, V>>)
    requires DistinctKeys(x + y + z)
    ensures DistinctKeys(y)
  {
    forall i, j | 0 <= i < j < |y| ensures y[i].k != y[j].k {
      assert (x + y + z)[|x| + i] == y[i] && (x + y + z)[|x| + j] == y[j];
    }
  }

  lemma {:induction false} DistinctCount<K, V>(s: seq<Entry<K, V>>, e: Entry<K, V>)
    requires DistinctKeys(s)
    ensures multiset(s)[e] <= 1
  {
    if s != [] {
      assert s == [s[0]] + s[1..];
      DistinctCount(s[1..], e);
    }
  }

  lemma CountTwice<T>(t: seq<T>, i: nat, j: nat)
    requires i < j < |t| && t[i] == t[j]
    ensures multiset(t)[t[i]] >= 2
  {
    assert t == t[..i] + [t[i]] + t[i + 1..j] + [t[j]] + t[j + 1..];
  }

  /** Distinctness of the keys does not depend on the order either. */
  lemma DistinctPermuted<K, V>(s: seq<Entry<K, V>>, t: seq<Entry<K, V>>)
    requires DistinctKeys(s) && multiset(s) == multiset(t)
    ensures DistinctKeys(t)
  {
    forall i, j | 0 <= i < j < |t| ensures t[i].k != t[j].k {
      assert t[i] in multiset(s) && t[j] in multiset(s);
      var p :| 0 <= p < |s| && s[p] == t[i];
      var q :| 0 <= q < |s| && s[q] == t[j];
      if t[i] == t[j] {
        CountTwice(t, i, j);
        DistinctCount(s, t[i]);
      }
    }
  }

  // ---------------------------------------------------------------- links

  ghost function Entries<K, V>(cs: seq<seq<Entry<K, V>>>): set<Entry<K, V>> {
    set i, e | 0 <= i < |cs| && e in cs[i] :: e
  }

  /** A bucket array whose slots head the chains of `cs`. */
  ghost predicate Heads<K, V>(t: array<Entry?<K, V>>, cs: seq<seq<Entry<K, V>>>)
    reads t, Entries(cs)
  {
    && t.Length == |cs|
    && forall i :: 0 <= i < |cs| ==> (assert forall e :: e in cs[i] ==> e in Entries(cs); Linked(t[i], cs[i]))
  }

  /** `e` is in no chain of `cs`. */
  ghost predicate Absent<K, V>(e: Entry<K, V>, cs: seq<seq<Entry<K, V>>>) {
    forall i :: 0 <= i < |cs| ==> e !in cs[i]
  }

  /** Puts `e` at the head of the chain of slot `b`. */
  method PushFront<K, V>(t: array<Entry?<K, V>>, ghost cs: seq<seq<Entry<K, V>>>, b: nat, e: Entry<K, V>)
    requires Heads(t, cs) && b < |cs| && Absent(e, cs)
    modifies t, e`next
    ensures Heads(t, cs[b := [e] + cs[b]])
  {
    e.next := t[b];
    t[b] := e;
    LinkedCons(e, cs[b]);
  }

  /** Takes the first entry off the chain of slot `b`. */
  method PopFront<K, V>(t: array<Entry?<K, V>>, ghost cs: seq<seq<Entry<K, V>>>, b: nat) returns (e: Entry<K, V>)
    requires Heads(t, cs) && b < |cs| && cs[b] != []
    modifies t
    ensures e == cs[b][0]
    ensures Heads(t, cs[b := cs[b][1..]])
  {
    e := t[b];
    LinkedTail(t[b], cs[b]);
    t[b] := e.next;
  }

  /** Takes the entry at `j` out of the chain of slot `b`; `parent` is its predecessor there, if it has one. */
  method Unlink<K, V>(t: array<Entry?<K, V>>, ghost cs: seq<seq<Entry<K, V>>>, b: nat, ghost j: nat,
                      parent: Entry?<K, V>, e: Entry<K, V>)
    requires Heads(t, cs) && b < |cs| && j < |cs[b]| && e == cs[b][j]
    requires parent == (if j == 0 then null else cs[b][j - 1])
    requires parent != null ==> forall i :: 0 <= i < |cs| && parent in cs[i] ==> i == b
    requires forall i :: 0 <= i < |cs[b]| && i != j - 1 ==> cs[b][i] != parent
    modifies t, if parent == null then {} else {parent}
    ensures Heads(t, cs[b := RemoveAt(cs[b], j)])
    ensures e.next == HeadOf(cs[b][j + 1..])
  {
    ghost var c, d := cs[b], RemoveAt(cs[b], j);
    assert e.next == HeadOf(c[j + 1..]);
    if parent == null {
      t[b] := e.next;
    } else {
      parent.next := e.next;
    }
    forall i | 0 <= i < |d| ensures d[i].next == HeadOf(d[i + 1..]) {
      if i < j { assert d[i] == c[i]; } else { assert d[i] == c[i + 1]; }
      if i + 1 < |d| { assert d[i + 1] == if i + 1 < j then c[i + 1] else c[i + 2]; }
    }
  }

  /** The chain without its entry at `j`, once the link to that entry goes to its successor. */
  lemma LinkedTail<K, V>(head: Entry?<K, V>, c: seq<Entry<K, V>>)
    requires Linked(head, c) && c != []
    ensures Linked(c[0].next, c[1..])
  {
    forall j | 0 <= j < |c[1..]| ensures c[1..][j].next == HeadOf(c[1..][j + 1..]) {
      assert c[1..][j + 1..] == c[j + 2..];
    }
    assert c[1..] == c[0 + 1..];
  }

  lemma LinkedCons<K, V>(e: Entry<K, V>, c: seq<Entry<K, V>>)
    requires Linked(e.next, c)
    ensures Linked(e, [e] + c)
  {
    var d := [e] + c;
    forall j | 0 <= j < |d| ensures d[j].next == HeadOf(d[j + 1..]) {
      if j == 0 {
        assert d[1..] == c;
      } else {
        assert d[j + 1..] == c[j..];
      }
    }
  }
}
