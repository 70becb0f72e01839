/**
  The binary search of libstructures/varray.c and libstructures/vqarray.c, and insertion into a sorted sequence.
*/
module SortedSearch {
  import opened HeapSort
  import opened Memory

  /** What the search returns: the place of `e`, or -1 when `e` comes before every element. */
  ghost predicate IsPlace<T>(s: seq<T>, e: T, r: int, cmp: (T, T) -> int) {
    && -1 <= r < |s|
    && (r == -1 <==> s == [] || cmp(e, s[0]) < 0)
    && (r >= 0 ==> cmp(s[r], e) <= 0)
    && (r >= 0 && cmp(s[r], e) != 0 && r + 1 < |s| ==> cmp(s[r + 1], e) > 0)
  }

  /** The search halves the range between an element that is at most `e` and one that is above it. */
  method Search<T(!new)>(a: array<T>, off: nat, len: nat, e: T, cmp: (T, T) -> int) returns (r: int)
    requires TotalPreorder(cmp) && off + len <= a.Length
    requires Sorted(a[off..off + len], cmp)
    ensures IsPlace(a[off..off + len], e, r, cmp)
  {
    ghost var s := a[off..off + len];
    if len == 0 { return -1; }
    var lo, hi := 0, len - 1;
    Flip(cmp, e, s[lo]);
    Flip(cmp, e, s[hi]);
    if cmp(e, a[off + lo]) < 0 { return -1; }
    if cmp(e, a[off + hi]) >= 0 { return hi; }
    while true
      invariant 0 <= lo < hi < len
      invariant cmp(s[lo], e) <= 0 && cmp(s[hi], e) > 0
      decreases hi - lo
    {
      var ndx := (hi - lo) / 2 + lo;
      var res := cmp(a[off + ndx], e);
      assert a[off + ndx] == s[ndx];
      if res == 0 {
        return ndx;
      } else if res < 0 {
        lo := ndx;
      } else {
        hi := ndx;
      }
      if hi - lo <= 1 { return lo; }
    }
  }

  /** Inserting behind the place found keeps the sequence sorted. */
  lemma InsertKeepsSorted<T(!new)>(s: seq<T>, e: T, r: int, cmp: (T, T) -> int)
    requires TotalPreorder(cmp) && Sorted(s, cmp) && IsPlace(s, e, r, cmp)
    ensures Sorted(InsertAt(s, r + 1, e), cmp)
    ensures multiset(InsertAt(s, r + 1, e)) == multiset(s) + multiset{e}
  {
    forall k | 0 <= k <= r ensures cmp(s[k], e) <= 0 { BeforePlace(s, e, r, k, cmp); }
    forall k | r < k < |s| ensures cmp(e, s[k]) <= 0 { AfterPlace(s, e, r, k, cmp); }
    SortedAround(s, r + 1, e, cmp);
    InsertMultiset(s, r + 1, e);
  }

  lemma InsertMultiset<T>(s: seq<T>, i: nat, e: T)
    requires i <= |s|
    ensures multiset(InsertAt(s, i, e)) == multiset(s) + multiset{e}
  {
    assert s == s[..i] + s[i..];
  }

  lemma SortedAround<T(!new)>(s: seq<T>, p: nat, e: T, cmp: (T, T) -> int)
    requires Sorted(s, cmp) && p <= |s|
    requires forall k :: 0 <= k < p ==> cmp(s[k], e) <= 0
    requires forall k :: p <= k < |s| ==> cmp(e, s[k]) <= 0
    ensures Sorted(InsertAt(s, p, e), cmp)
  {
    var t := InsertAt(s, p, e);
    forall i, j | 0 <= i < j < |t| ensures cmp(t[i], t[j]) <= 0 {
      assert t[i] == if i < p then s[i] else if i == p then e else s[i - 1];
      assert t[j] == if j < p then s[j] else if j == p then e else s[j - 1];
    }
  }

  lemma BeforePlace<T(!new)>(s: seq<T>, e: T, r: int, k: int, cmp: (T, T) -> int)
    requires TotalPreorder(cmp) && Sorted(s, cmp) && IsPlace(s, e, r, cmp) && 0 <= k <= r
    ensures cmp(s[k], e) <= 0
  {
    if k < r { Transitive(cmp, s[k], s[r], e); }
  }

  lemma AfterPlace<T(!new)>(s: seq<T>, e: T, r: int, k: int, cmp: (T, T) -> int)
    requires TotalPreorder(cmp) && Sorted(s, cmp) && IsPlace(s, e, r, cmp) && r < k < |s|
    ensures cmp(e, s[k]) <= 0
  {
    if r == -1 {
      if k > 0 { Transitive(cmp, e, s[0], s[k]); }
    } else if cmp(s[r], e) == 0 {
      Flip(cmp, s[r], e);
      Flip(cmp, e, s[r]);
      Transitive(cmp, e, s[r], s[k]);
    } else {
      Flip(cmp, s[r + 1], e);
      if k > r + 1 { Transitive(cmp, e, s[r + 1], s[k]); }
    }
  }
}
