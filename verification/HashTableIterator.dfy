/**
  The iterator of libstructures/hashtable_itr.c, which can remove the entry it stands on.

  `At()` is the iterator's place among all entries of the table, taken bucket by bucket.
*/
module HashTableIterator {
  import opened Options
  import opened Memory
  import opened Chains
  import opened HashTable

  /** The place of position `j` of bucket `b`, or behind that bucket when it has no such position. */
  ghost function PlaceAt<K, V>(cs: seq<seq<Entry<K, V>>>, b: nat, j: nat): (p: nat)
    requires b < |cs| && j <= |cs[b]|
    ensures p <= |Flat(cs)|
  {
    FlatSplit(cs, b);
    |Flat(cs[..b])| + j
  }

  lemma PlaceAtIs<K, V>(cs: seq<seq<Entry<K, V>>>, b: nat, j: nat)
    requires b < |cs| && j < |cs[b]|
    ensures PlaceAt(cs, b, j) == Place(cs, b, j) < |Flat(cs)|
    ensures PlaceAt(cs, b, j + 1) == PlaceAt(cs, b, j) + 1
  {
  }

  /** Skipping an exhausted bucket does not skip an entry. */
  lemma NextBucket<K, V>(cs: seq<seq<Entry<K, V>>>, b: nat)
    requires b < |cs|
    ensures b + 1 < |cs| ==> PlaceAt(cs, b, |cs[b]|) == PlaceAt(cs, b + 1, 0)
    ensures b + 1 == |cs| ==> PlaceAt(cs, b, |cs[b]|) == |Flat(cs)|
  {
    KeysBucket(cs, b);
    FlatSplit(cs, b);
    if b + 1 == |cs| { assert cs[b + 1..] == []; }
  }

  lemma WholePrefix<T>(s: seq<T>)
    ensures s[..|s|] == s
  {
  }

  /** Positions up to the removed one keep their places. */
  lemma PlaceAfterRemove<K, V>(cs: seq<seq<Entry<K, V>>>, b: nat, j: nat)
    requires b < |cs| && j < |cs[b]|
    ensures PlaceAt(cs[b := RemoveAt(cs[b], j)], b, j) == PlaceAt(cs, b, j)
  {
    assert cs[b := RemoveAt(cs[b], j)][..b] == cs[..b];
  }

  class HashTableIterator<K(==), V> {
    const table: HashTable<K, V>
    var e: Entry?<K, V>
    var parent: Entry?<K, V>
    var index: nat
    ghost var pos: nat

    /** The iterator stands on an entry and knows its predecessor in the chain, or it is at the end. */
    ghost predicate Valid()
      reads this, table, table.Repr
    {
      && table.Valid()
      && this !in table.Repr
      && if e == null then index == |table.chains|
         else
           && index < |table.chains|
           && pos < |table.chains[index]|
           && e == table.chains[index][pos]
           && parent == (if pos == 0 then null else table.chains[index][pos - 1])
    }

    ghost function At(): (p: nat)
      requires Valid()
      reads this, table, table.Repr
      ensures p <= |Flat(table.chains)|
      ensures e == null <==> p == |Flat(table.chains)|
      ensures e != null ==> Flat(table.chains)[p] == e
    {
      if e == null then |Flat(table.chains)| else Place(table.chains, index, pos)
    }

    /** hashtable_iterator_new: on the first entry of the first bucket that has one. */
    constructor (t: HashTable<K, V>)
      requires t.Valid()
      ensures Valid() && table == t && At() == 0
    {
      table, e, parent, index, pos := t, null, null, t.tablelength, 0;
      new;
      if t.entrycount == 0 { return; }
      ghost var cs := t.chains;
      assert cs[..0] == [];
      var i := 0;
      while i < t.tablelength
        invariant 0 <= i <= |cs| == t.tablelength && cs == t.chains
        invariant Flat(cs[..i]) == []
        invariant e == null && parent == null && index == t.tablelength && pos == 0 && t.Valid()
      {
        if t.table[i] != null {
          e := t.table[i];
          index := i;
          FlatSplit(cs, i);
          return;
        }
        KeysBucket(cs, i);
        i := i + 1;
      }
      WholePrefix(cs);
    }

    /** hashtable_iterator_key */
    method Key() returns (k: Option<K>)
      requires Valid()
      ensures k == if At() == |Flat(table.chains)| then None else Some(Flat(table.chains)[At()].k)
    {
      if e == null { return None; }
      return Some(e.k);
    }

    /**
      The body of hashtable_iterator_advance, which hashtable_iterator_remove also runs while `e` is already
      out of its chain: `next` is where the successor of `e` stands in the chain it was linked into.
    */
    method Step(ghost next: nat) returns (ret: int)
      requires table.Valid() && this !in table.Repr && e != null
      requires index < |table.chains| && next <= |table.chains[index]|
      requires e.next == HeadOf(table.chains[index][next..])
      modifies this
      ensures ret == if e == null then 0 else -1
      ensures if next < |old(table.chains[index])| then
                e == old(table.chains[index])[next] && parent == old(e) && index == old(index) && pos == next
              else Valid() && parent == null
      ensures next == |old(table.chains[index])| ==> At() == PlaceAt(table.chains, old(index), next)
    {
      ghost var cs := table.chains;
      var n := e.next;
      if n != null {
        parent := e;
        e := n;
        pos := next;
        return -1;
      }
      parent := null;
      NextBucket(cs, index);
      index := index + 1;
      ret := SkipEmpty();
    }

    /** Goes on from bucket `index` to the first entry of the first bucket that has one. */
    method SkipEmpty() returns (ret: int)
      requires table.Valid() && this !in table.Repr && index <= |table.chains| && parent == null
      modifies this
      ensures Valid() && parent == null && ret == if e == null then 0 else -1
      ensures At() == if old(index) < |table.chains| then PlaceAt(table.chains, old(index), 0)
                      else |Flat(table.chains)|
    {
      ghost var cs := table.chains;
      var j := index;
      while j < table.tablelength && table.table[j] == null
        invariant parent == null && index == old(index) <= j <= |cs|
        invariant index < |cs| ==> PlaceAt(cs, index, 0) == if j < |cs| then PlaceAt(cs, j, 0) else |Flat(cs)|
        decreases |cs| - j
      {
        NextBucket(cs, j);
        j := j + 1;
      }
      index := j;
      if j >= table.tablelength {
        e := null;
        return 0;
      }
      e := table.table[j];
      pos := 0;
      PlaceAtIs(cs, j, 0);
      return -1;
    }

    /** hashtable_iterator_advance */
    method Advance() returns (ret: int)
      requires Valid()
      modifies this
      ensures Valid() && ret == if e == null then 0 else -1
      ensures At() == if old(e) == null then old(At()) else old(At()) + 1
    {
      if e == null { return 0; }
      PlaceAtIs(table.chains, index, pos);
      ret := Step(pos + 1);
    }

    /** hashtable_iterator_remove: the entry goes, and the iterator stands on the one that followed it. */
    method Remove() returns (ret: int)
      requires Valid() && e != null
      modifies this, table.Repr
      ensures Valid() && table.Repr == old(table.Repr)
      ensures ret == if e == null then 0 else -1
      ensures Flat(table.chains) == RemoveAt(old(Flat(table.chains)), old(At()))
      ensures At() == old(At())
      ensures table.M() == old(table.M()) - {old(e).k}
    {
      var rememberE, rememberParent := e, parent;
      PlaceAfterRemove(table.chains, index, pos);
      table.UnlinkEntry(index, parent, e, pos);
      ret := Step(pos);
      if parent == rememberE {
        parent := rememberParent;
      }
    }
  }

  // ---------------------------------------------------------------- whole walks

  /**
    A walk over the entries `s` from place `at` on that removes or advances as `removes` says: what it visits
    and what it leaves. The two cases are what Remove and Advance promise about the entries and the place.
  */
  ghost function Walk<T>(s: seq<T>, at: nat, removes: seq<bool>): (seq<T>, seq<T>)
    decreases removes
  {
    if removes == [] || at >= |s| then ([], s)
    else
      var (visited, left) :=
        if removes[0] then Walk(RemoveAt(s, at), at, removes[1..]) else Walk(s, at + 1, removes[1..]);
      ([s[at]] + visited, left)
  }

  ghost function Kept<T>(s: seq<T>, removes: seq<bool>): seq<T>
    requires |s| == |removes|
  {
    if s == [] then [] else (if removes[0] then [] else [s[0]]) + Kept(s[1..], removes[1..])
  }

  /** What is kept are exactly the elements that are not chosen for removal. */
  lemma {:induction false} KeptAre<T>(s: seq<T>, removes: seq<bool>, x: T)
    requires |s| == |removes|
    ensures x in Kept(s, removes) <==> exists i :: 0 <= i < |s| && s[i] == x && !removes[i]
  {
    if s != [] {
      KeptAre(s[1..], removes[1..], x);
      if x in Kept(s[1..], removes[1..]) {
        var i :| 0 <= i < |s[1..]| && s[1..][i] == x && !removes[1..][i];
        assert s[i + 1] == x && !removes[i + 1];
      }
      if i :| 0 <= i < |s| && s[i] == x && !removes[i] {
        assert i > 0 ==> s[1..][i - 1] == x && !removes[1..][i - 1];
      }
    }
  }

  lemma {:induction false} WalkFrom<T>(s: seq<T>, at: nat, removes: seq<bool>)
    requires at + |removes| == |s|
    ensures Walk(s, at, removes).0 == s[at..]
    ensures Walk(s, at, removes).1 == s[..at] + Kept(s[at..], removes)
    decreases removes
  {
    if removes != [] {
      var rest := removes[1..];
      assert s[at..][1..] == s[at + 1..];
      if removes[0] {
        var t := RemoveAt(s, at);
        WalkFrom(t, at, rest);
        assert t[at..] == s[at + 1..] && t[..at] == s[..at];
      } else {
        WalkFrom(s, at + 1, rest);
        assert s[..at + 1] == s[..at] + [s[at]];
      }
      assert s[at..] == [s[at]] + s[at + 1..];
    } else {
      assert s[at..] == [] && s[..at] == s;
    }
  }

  /**
    Whatever is chosen at each entry, a full walk visits every entry that was there once and in order, and
    leaves exactly the entries that were not chosen for removal.
  */
  lemma WalkVisitsAll<T>(s: seq<T>, removes: seq<bool>)
    requires |removes| == |s|
    ensures Walk(s, 0, removes).0 == s
    ensures Walk(s, 0, removes).1 == Kept(s, removes)
  {
    WalkFrom(s, 0, removes);
    var t := s[0..];
    assert t == s;
    assert s[..0] + Kept(t, removes) == Kept(t, removes);
  }

  /** From place `at` on the walk will visit and leave what is missing from `goal`. */
  ghost predicate OnTrack<T>(visited: seq<T>, s: seq<T>, at: nat, rest: seq<bool>, goal: (seq<T>, seq<T>)) {
    at + |rest| == |s| && (visited + Walk(s, at, rest).0, Walk(s, at, rest).1) == goal
  }

  ghost function Without<T>(s: seq<T>, at: nat, remove: bool): seq<T>
    requires at < |s|
  {
    if remove then RemoveAt(s, at) else s
  }

  lemma WalkStep<T>(visited: seq<T>, s: seq<T>, at: nat, rest: seq<bool>, goal: (seq<T>, seq<T>))
    requires rest != [] && OnTrack(visited, s, at, rest, goal)
    ensures OnTrack(visited + [s[at]], Without(s, at, rest[0]), if rest[0] then at else at + 1, rest[1..], goal)
  {
    var next := if rest[0] then Walk(RemoveAt(s, at), at, rest[1..]) else Walk(s, at + 1, rest[1..]);
    assert visited + [s[at]] + next.0 == visited + ([s[at]] + next.0);
  }

  lemma WalkEnds<T>(visited: seq<T>, s: seq<T>, at: nat, rest: seq<bool>, goal: (seq<T>, seq<T>))
    requires at == |s| && OnTrack(visited, s, at, rest, goal)
    ensures goal == (visited, s)
  {
    assert visited + [] == visited;
  }

  lemma WalkStarts<T>(s: seq<T>, removes: seq<bool>)
    requires |removes| == |s|
    ensures OnTrack([], s, 0, removes, (s, Kept(s, removes)))
  {
    WalkVisitsAll(s, removes);
    assert [] + Walk(s, 0, removes).0 == s;
  }

  /** One step of a walk: the entry the iterator stands on is removed or passed over. */
  method WalkOne<K(==), V>(it: HashTableIterator<K, V>, remove: bool) returns (entry: Entry<K, V>)
    requires it.Valid() && it.e != null
    modifies it, it.table.Repr
    ensures it.Valid() && it.table.Repr == old(it.table.Repr)
    ensures old(it.At()) < |old(Flat(it.table.chains))| && entry == old(Flat(it.table.chains)[it.At()])
    ensures Flat(it.table.chains) ==
            Without(old(Flat(it.table.chains)), old(it.At()), remove)
    ensures it.At() == if remove then old(it.At()) else old(it.At()) + 1
  {
    entry := it.e;
    if remove {
      var _ := it.Remove();
    } else {
      var _ := it.Advance();
    }
  }

  /**
    A walk of an iterator that stands on the first entry: each entry it comes to is removed or passed over. It
    visits all entries of the table, once each, and leaves those that were to be kept.
  */
  method WalkTable<K(==), V>(it: HashTableIterator<K, V>, removes: seq<bool>) returns (visited: seq<Entry<K, V>>)
    requires it.Valid() && it.At() == 0 && |removes| == |Flat(it.table.chains)|
    modifies it, it.table.Repr
    ensures it.Valid() && it.e == null
    ensures visited == old(Flat(it.table.chains))
    ensures Flat(it.table.chains) == Kept(old(Flat(it.table.chains)), removes)
  {
    ghost var s, at := Flat(it.table.chains), 0;
    ghost var goal := (s, Kept(s, removes));
    WalkStarts(s, removes);
    visited := [];
    var rest := removes;
    while it.e != null
      invariant it.Valid() && it.table.Repr == old(it.table.Repr)
      invariant Flat(it.table.chains) == s && it.At() == at
      invariant OnTrack(visited, s, at, rest, goal)
      decreases |rest|
    {
      WalkStep(visited, s, at, rest, goal);
      var entry := WalkOne(it, rest[0]);
      visited := visited + [entry];
      s, at := Without(s, at, rest[0]), if rest[0] then at else at + 1;
      rest := rest[1..];
    }
    WalkEnds(visited, s, at, rest, goal);
  }
}
