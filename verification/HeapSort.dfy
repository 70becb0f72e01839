/**
  The in-place heapsort that varray_sort (libstructures/varray.c) and vqarray_sort (libstructures/vqarray.c)
  both run, over the slots `off .. off + len` of an array.
*/
module HeapSort {

  predicate Leq<T>(cmp: (T, T) -> int, a: T, b: T) {
    cmp(a, b) <= 0
  }

  /** What a cmp_func has to be: the sign of a comparison of two elements under some total preorder. */
  ghost predicate TotalPreorder<T(!new)>(cmp: (T, T) -> int) {
    && (forall a, b {:trigger Leq(cmp, a, b)} :: cmp(a, b) > 0 <==> cmp(b, a) < 0)
    && (forall a, b, c {:trigger Leq(cmp, a, b), Leq(cmp, b, c)} :: Leq(cmp, a, b) && Leq(cmp, b, c) ==> cmp(a, c) <= 0)
  }

  lemma Transitive<T(!new)>(cmp: (T, T) -> int, a: T, b: T, c: T)
    requires TotalPreorder(cmp) && cmp(a, b) <= 0 && cmp(b, c) <= 0
    ensures cmp(a, c) <= 0
  {
    assert Leq(cmp, a, b) && Leq(cmp, b, c);
  }

  lemma Flip<T(!new)>(cmp: (T, T) -> int, a: T, b: T)
    requires TotalPreorder(cmp)
    ensures cmp(a, b) > 0 <==> cmp(b, a) < 0
    ensures cmp(b, a) > 0 <==> cmp(a, b) < 0
    ensures cmp(a, a) == 0
  {
    assert Leq(cmp, a, b) || !Leq(cmp, a, b);
    assert Leq(cmp, b, a) || !Leq(cmp, b, a);
    assert Leq(cmp, a, a) || !Leq(cmp, a, a);
  }

  ghost predicate Sorted<T>(s: seq<T>, cmp: (T, T) -> int) {
    forall i, j :: 0 <= i < j < |s| ==> cmp(s[i], s[j]) <= 0
  }

  function Parent(j: nat): nat
    requires j > 0
  {
    (j - 1) / 2
  }

  /** No node of the tree at or below `i` has a larger child. */
  ghost predicate HeapFrom<T>(s: seq<T>, i: nat, cmp: (T, T) -> int) {
    forall j :: 0 < j < |s| && i <= Parent(j) ==> cmp(s[j], s[Parent(j)]) <= 0
  }

  /** The heap property except between the hole at `p` and its children, which the node above `p` dominates. */
  ghost predicate HeapExcept<T>(s: seq<T>, i: nat, p: nat, cmp: (T, T) -> int) {
    && (forall j :: 0 < j < |s| && i <= Parent(j) && Parent(j) != p ==> cmp(s[j], s[Parent(j)]) <= 0)
    && (i < p ==> forall j :: 0 < j < |s| && Parent(j) == p && i <= Parent(p) ==> cmp(s[j], s[Parent(p)]) <= 0)
  }

  /** `c` is the child of `p` that no other child of `p` exceeds. */
  ghost predicate LargestChild<T>(s: seq<T>, p: nat, c: nat, cmp: (T, T) -> int) {
    0 < c < |s| && Parent(c) == p && forall j :: 0 < j < |s| && Parent(j) == p ==> cmp(s[j], s[c]) <= 0
  }

  function Swap<T>(s: seq<T>, i: nat, j: nat): seq<T>
    requires i < |s| && j < |s|
  {
    s[i := s[j]][j := s[i]]
  }

  lemma SwapMultiset<T>(s: seq<T>, i: nat, j: nat)
    requires i < |s| && j < |s|
    ensures multiset(Swap(s, i, j)) == multiset(s)
  {
  }

  lemma ParentBelow(j: nat)
    requires j > 0
    ensures Parent(j) < j
    ensures j == 2 * Parent(j) + 1 || j == 2 * Parent(j) + 2
  {
  }

  /** Moving the largest child into the hole keeps the heap property outside the new hole. */
  lemma SiftStep<T(!new)>(s: seq<T>, i: nat, p: nat, c: nat, cmp: (T, T) -> int)
    requires TotalPreorder(cmp) && i <= p < |s|
    requires HeapExcept(s, i, p, cmp) && LargestChild(s, p, c, cmp) && cmp(s[c], s[p]) > 0
    ensures HeapExcept(Swap(s, p, c), i, c, cmp)
  {
    var t := Swap(s, p, c);
    ParentBelow(c);
    Flip(cmp, s[c], s[p]);
    forall j | 0 < j < |t| && i <= Parent(j) && Parent(j) != c ensures cmp(t[j], t[Parent(j)]) <= 0 {
      ParentBelow(j);
    }
    forall j | 0 < j < |t| && Parent(j) == c ensures cmp(t[j], t[Parent(c)]) <= 0 {
      ParentBelow(j);
      assert cmp(s[j], s[Parent(j)]) <= 0;
    }
  }

  lemma SiftStop<T(!new)>(s: seq<T>, i: nat, p: nat, c: nat, cmp: (T, T) -> int)
    requires TotalPreorder(cmp) && p < |s| && HeapExcept(s, i, p, cmp)
    requires LargestChild(s, p, c, cmp) && cmp(s[c], s[p]) <= 0
    ensures HeapFrom(s, i, cmp)
  {
    forall j | 0 < j < |s| && i <= Parent(j) ensures cmp(s[j], s[Parent(j)]) <= 0 {
      if Parent(j) == p { Transitive(cmp, s[j], s[c], s[p]); }
    }
  }

  /** The root of a heap is its largest element. */
  lemma {:induction false} HeapRoot<T(!new)>(s: seq<T>, j: nat, cmp: (T, T) -> int)
    requires TotalPreorder(cmp) && HeapFrom(s, 0, cmp) && j < |s|
    ensures cmp(s[j], s[0]) <= 0
  {
    if j > 0 {
      ParentBelow(j);
      HeapRoot(s, Parent(j), cmp);
      Transitive(cmp, s[j], s[Parent(j)], s[0]);
    } else {
      Flip(cmp, s[0], s[0]);
    }
  }

  /** An array whose slots from `|pre|` on hold `w`. */
  ghost predicate Holds<T>(s: seq<T>, pre: seq<T>, w: seq<T>, post: seq<T>) {
    s == pre + w + post
  }

  lemma HoldsGet<T>(s: seq<T>, pre: seq<T>, w: seq<T>, post: seq<T>, k: nat)
    requires Holds(s, pre, w, post) && k < |w|
    ensures |pre| + k < |s| && s[|pre| + k] == w[k]
  {
  }

  lemma HoldsSet<T>(s: seq<T>, pre: seq<T>, w: seq<T>, post: seq<T>, k: nat, x: T)
    requires Holds(s, pre, w, post) && k < |w|
    ensures |pre| + k < |s| && Holds(s[|pre| + k := x], pre, w[k := x], post)
  {
  }

  method Get<T>(a: array<T>, k: nat, ghost pre: seq<T>, ghost w: seq<T>, ghost post: seq<T>) returns (x: T)
    requires Holds(a[..], pre, w, post) && |pre| <= k < |pre| + |w|
    ensures x == w[k - |pre|]
  {
    HoldsGet(a[..], pre, w, post, k - |pre|);
    x := a[k];
  }

  method Set<T>(a: array<T>, k: nat, x: T, ghost pre: seq<T>, ghost w: seq<T>, ghost post: seq<T>)
    requires Holds(a[..], pre, w, post) && |pre| <= k < |pre| + |w|
    modifies a
    ensures Holds(a[..], pre, w[k - |pre| := x], post)
  {
    HoldsSet(a[..], pre, w, post, k - |pre|, x);
    a[k] := x;
  }

  /** The larger of the children of `parent`, found by the two comparisons of the source. */
  method PickChild<T(!new)>(a: array<T>, parent: nat, cmp: (T, T) -> int, ghost pre: seq<T>, ghost w: seq<T>,
                            ghost post: seq<T>, n: nat, off: nat) returns (child: nat)
    requires Holds(a[..], pre, w, post) && off == |pre| && n == |w|
    requires TotalPreorder(cmp) && 2 * parent + 1 < n
    ensures LargestChild(w, parent, child, cmp)
  {
    child := 2 * parent + 1;
    var x := Get(a, off + child, pre, w, post);
    Flip(cmp, x, x);
    if child + 1 < n {
      var y := Get(a, off + child + 1, pre, w, post);
      Flip(cmp, y, x);
      Flip(cmp, y, y);
      if cmp(y, x) > 0 {
        child := child + 1;
      }
    }
    forall j | 0 < j < |w| && Parent(j) == parent ensures cmp(w[j], w[child]) <= 0 {
      ParentBelow(j);
    }
  }

  /** The children of a hole do not depend on what stands in it. */
  lemma LargestChildOfHole<T>(w: seq<T>, p: nat, c: nat, x: T, cmp: (T, T) -> int)
    requires p < |w| && LargestChild(w, p, c, cmp)
    ensures p < c && LargestChild(w[p := x], p, c, cmp)
  {
    ParentBelow(c);
    forall j | 0 < j < |w| && Parent(j) == p ensures cmp(w[p := x][j], w[p := x][c]) <= 0 {
      ParentBelow(j);
    }
  }

  /** While `tmp` sinks: the slots hold `u`, and `t`, which is `u` with `tmp` in the hole at `p`, rearranges `v`. */
  ghost predicate Sinking<T>(u: seq<T>, t: seq<T>, v: seq<T>, i: nat, p: nat, tmp: T, cmp: (T, T) -> int) {
    && |u| == |v|
    && i <= p < |u|
    && t == u[p := tmp]
    && HeapExcept(t, i, p, cmp)
    && multiset(t) == multiset(v)
  }

  lemma SinkStep<T(!new)>(u: seq<T>, t: seq<T>, v: seq<T>, i: nat, p: nat, c: nat, tmp: T, cmp: (T, T) -> int)
    requires TotalPreorder(cmp) && Sinking(u, t, v, i, p, tmp, cmp)
    requires LargestChild(u, p, c, cmp) && cmp(u[c], tmp) > 0
    ensures Sinking(u[p := u[c]], Swap(t, p, c), v, i, c, tmp, cmp)
  {
    LargestChildOfHole(u, p, c, tmp, cmp);
    SiftStep(t, i, p, c, cmp);
    SwapMultiset(t, p, c);
    assert Swap(t, p, c) == u[p := u[c]][c := tmp];
  }

  lemma SinkStop<T(!new)>(u: seq<T>, t: seq<T>, v: seq<T>, i: nat, p: nat, c: nat, tmp: T, cmp: (T, T) -> int)
    requires TotalPreorder(cmp) && Sinking(u, t, v, i, p, tmp, cmp)
    requires LargestChild(u, p, c, cmp) && cmp(u[c], tmp) <= 0
    ensures HeapFrom(t, i, cmp)
  {
    LargestChildOfHole(u, p, c, tmp, cmp);
    SiftStop(t, i, p, c, cmp);
  }

  /** One turn of the inner loop: the larger child moves up into the hole unless `tmp` may stay there. */
  method SinkOne<T(!new)>(a: array<T>, i: nat, parent: nat, tmp: T, cmp: (T, T) -> int, ghost pre: seq<T>,
                          ghost u: seq<T>, ghost t: seq<T>, ghost v: seq<T>, ghost post: seq<T>, n: nat, off: nat)
    returns (child: nat, moved: bool, ghost u': seq<T>, ghost t': seq<T>)
    requires Holds(a[..], pre, u, post) && off == |pre| && n == |u| && 2 * parent + 1 < n
    requires TotalPreorder(cmp) && Sinking(u, t, v, i, parent, tmp, cmp)
    modifies a
    ensures |u'| == n && Holds(a[..], pre, u', post)
    ensures moved ==> parent < child && Sinking(u', t', v, i, child, tmp, cmp)
    ensures !moved ==> u' == u && t' == t && HeapFrom(t, i, cmp)
  {
    child := PickChild(a, parent, cmp, pre, u, post, n, off);
    ParentBelow(child);
    var x := Get(a, off + child, pre, u, post);
    moved := cmp(x, tmp) > 0;
    if moved {
      SinkStep(u, t, v, i, parent, child, tmp, cmp);
      Set(a, off + parent, x, pre, u, post);
      u', t' := u[parent := x], Swap(t, parent, child);
    } else {
      SinkStop(u, t, v, i, parent, child, tmp, cmp);
      u', t' := u, t;
    }
  }

  /**
    The inner loop: sinks `tmp` from the hole at `i`. The slots behave as if `tmp` already stood in the hole:
    their elements are kept, and the heap property gains the node `i`.
  */
  method Sift<T(!new)>(a: array<T>, i: nat, tmp: T, cmp: (T, T) -> int, ghost pre: seq<T>, ghost w: seq<T>,
                       ghost post: seq<T>, n: nat, off: nat) returns (ghost t: seq<T>)
    requires Holds(a[..], pre, w, post) && off == |pre| && n == |w|
    requires TotalPreorder(cmp) && i < n && HeapFrom(w, i + 1, cmp)
    modifies a
    ensures Holds(a[..], pre, t, post) && HeapFrom(t, i, cmp)
    ensures |t| == n && multiset(t) == multiset(w[i := tmp])
  {
    var parent, child := i, 2 * i + 1;
    ghost var u, v := w, w[i := tmp];
    t := v;
    SiftStart(w, i, tmp, cmp);
    while child < n
      invariant child == 2 * parent + 1 && |u| == n
      invariant Holds(a[..], pre, u, post)
      invariant Sinking(u, t, v, i, parent, tmp, cmp)
      decreases n - parent
    {
      var moved;
      child, moved, u, t := SinkOne(a, i, parent, tmp, cmp, pre, u, t, v, post, n, off);
      if !moved {
        Set(a, off + parent, tmp, pre, u, post);
        return;
      }
      parent := child;
      child := 2 * parent + 1;
    }
    NoChildren(t, i, parent, cmp);
    Set(a, off + parent, tmp, pre, u, post);
  }

  lemma SiftStart<T(!new)>(w: seq<T>, i: nat, tmp: T, cmp: (T, T) -> int)
    requires i < |w| && HeapFrom(w, i + 1, cmp)
    ensures HeapExcept(w[i := tmp], i, i, cmp)
  {
    forall j | 0 < j < |w| && i < Parent(j) ensures cmp(w[i := tmp][j], w[i := tmp][Parent(j)]) <= 0 {
      ParentBelow(j);
    }
  }

  lemma NoChildren<T(!new)>(s: seq<T>, i: nat, p: nat, cmp: (T, T) -> int)
    requires TotalPreorder(cmp) && p < |s| <= 2 * p + 1 && HeapExcept(s, i, p, cmp)
    ensures HeapFrom(s, i, cmp)
  {
    forall j | 0 < j < |s| && i <= Parent(j) ensures cmp(s[j], s[Parent(j)]) <= 0 {
      ParentBelow(j);
    }
  }

  /** The first `n` elements come before the sorted rest. */
  ghost predicate SortedFrom<T>(s: seq<T>, n: nat, cmp: (T, T) -> int) {
    forall i, j :: 0 <= i < j < |s| && n <= j ==> cmp(s[i], s[j]) <= 0
  }

  /** The elements of `t`, rearranged from those of `u`, stay below every bound of `u`. */
  lemma BoundKept<T(!new)>(t: seq<T>, u: seq<T>, b: T, cmp: (T, T) -> int)
    requires multiset(t) == multiset(u)
    requires forall k :: 0 <= k < |u| ==> cmp(u[k], b) <= 0
    ensures forall k :: 0 <= k < |t| ==> cmp(t[k], b) <= 0
  {
    forall k | 0 <= k < |t| ensures cmp(t[k], b) <= 0 {
      assert t[k] in multiset(u);
    }
  }

  /** The root of the heap `w` goes to the end of its slots, before the rest `z`; `t` are the others. */
  lemma ExtractStep<T(!new)>(w: seq<T>, z: seq<T>, t: seq<T>, cmp: (T, T) -> int)
    requires TotalPreorder(cmp) && 0 < |t| && |w| == |t| + 1
    requires HeapFrom(w, 0, cmp) && SortedFrom(w + z, |w|, cmp)
    requires multiset(t) == multiset(w[..|t|][0 := w[|t|]])
    ensures SortedFrom(t + ([w[0]] + z), |t|, cmp)
    ensures multiset(t + ([w[0]] + z)) == multiset(w + z)
  {
    var n := |t|;
    var u, s := w[..n][0 := w[n]], t + ([w[0]] + z);
    RootMoved(w, n);
    forall i, j | 0 <= i < j < |s| && n <= j ensures cmp(s[i], s[j]) <= 0 {
      var b := s[j];
      assert b == if j == n then w[0] else (w + z)[j];
      forall k | 0 <= k < |w| ensures cmp(w[k], b) <= 0 {
        if j == n {
          HeapRoot(w, k, cmp);
        } else {
          assert w[k] == (w + z)[k];
        }
      }
      BoundKept(t, u, b, cmp);
      if i > n { assert s[i] == (w + z)[i]; }
    }
  }

  lemma RootMoved<T>(w: seq<T>, n: nat)
    requires |w| == n + 1 && n > 0
    ensures multiset(w[..n][0 := w[n]]) + multiset([w[0]]) == multiset(w)
  {
    var u := w[..n][0 := w[n]];
    assert u + [w[0]] == Swap(w, 0, n);
    SwapMultiset(w, 0, n);
  }

  /** Between turns of the outer loop: `w` is a heap from `i` on, and `z` is the sorted rest. */
  ghost predicate Sorting<T>(w: seq<T>, z: seq<T>, was: seq<T>, i: nat, cmp: (T, T) -> int) {
    && HeapFrom(w, i, cmp)
    && SortedFrom(w + z, |w|, cmp)
    && multiset(w + z) == multiset(was)
  }

  lemma BuildStep<T(!new)>(w: seq<T>, t: seq<T>, was: seq<T>, i: nat, cmp: (T, T) -> int)
    requires Sorting(w, [], was, i + 1, cmp)
    requires HeapFrom(t, i, cmp) && |t| == |w| && multiset(t) == multiset(w)
    ensures Sorting(t, [], was, i, cmp)
  {
    assert w + [] == w && t + [] == t;
  }

  /** The build phase starts from the last node with a child. */
  method BuildOne<T(!new)>(a: array<T>, i: nat, cmp: (T, T) -> int, ghost pre: seq<T>, ghost w: seq<T>,
                           ghost post: seq<T>, ghost was: seq<T>, n: nat, off: nat) returns (ghost t: seq<T>)
    requires Holds(a[..], pre, w, post) && off == |pre| && n == |w|
    requires TotalPreorder(cmp) && i < n && Sorting(w, [], was, i + 1, cmp)
    modifies a
    ensures Holds(a[..], pre, t, post) && |t| == n && Sorting(t, [], was, i, cmp)
  {
    var tmp := Get(a, off + i, pre, w, post);
    assert w[i := tmp] == w;
    t := Sift(a, i, tmp, cmp, pre, w, post, n, off);
    BuildStep(w, t, was, i, cmp);
  }

  /** The extract phase: the root goes to the last slot of the heap and that slot's element sinks from the root. */
  method ExtractOne<T(!new)>(a: array<T>, cmp: (T, T) -> int, ghost pre: seq<T>, ghost w: seq<T>, ghost z: seq<T>,
                             ghost post: seq<T>, ghost was: seq<T>, n: nat, off: nat)
    returns (ghost t: seq<T>, ghost y: seq<T>)
    requires Holds(a[..], pre, w, z + post) && off == |pre| && n + 1 == |w|
    requires TotalPreorder(cmp) && 0 < n && Sorting(w, z, was, 0, cmp)
    modifies a
    ensures Holds(a[..], pre, t, y + post) && |t| == n && |y| == |z| + 1 && Sorting(t, y, was, 0, cmp)
  {
    var tmp := Get(a, off + n, pre, w, z + post);
    var root := Get(a, off, pre, w, z + post);
    Set(a, off + n, root, pre, w, z + post);
    HoldsSplit(a[..], pre, w, z, post, n);
    Smaller(w, w[..n], cmp);
    y := [root] + z;
    t := Sift(a, 0, tmp, cmp, pre, w[..n], y + post, n, off);
    ExtractStep(w, z, t, cmp);
  }

  /**
    The sort. The source reads the slot before the first one when there is nothing to sort, so `len` is at
    least 1.
  */
  method Sort<T(!new)>(a: array<T>, off: nat, len: nat, cmp: (T, T) -> int)
    requires TotalPreorder(cmp) && 0 < len && off + len <= a.Length
    modifies a
    ensures Sorted(a[off..off + len], cmp)
    ensures multiset(a[off..off + len]) == multiset(old(a[off..off + len]))
    ensures a[..off] == old(a[..off]) && a[off + len..] == old(a[off + len..])
  {
    ghost var pre, was, post := a[..off], a[off..off + len], a[off + len..];
    var n: nat := len;
    var i: nat := n / 2;
    ghost var w, z := was, [];  // the slots still in the heap and those already sorted
    SortStart(a[..], pre, was, post, i, cmp);
    while true
      invariant |w| == n && 0 < n <= len && i <= len / 2 && (i > 0 ==> z == []) && n + |z| == len
      invariant Holds(a[..], pre, w, z + post)
      invariant Sorting(w, z, was, i, cmp)
      decreases i, n
    {
      if i > 0 {
        i := i - 1;
        w := BuildOne(a, i, cmp, pre, w, z + post, was, n, off);
      } else {
        n := n - 1;
        if n == 0 { break; }
        w, z := ExtractOne(a, cmp, pre, w, z, post, was, n, off);
      }
    }
    HoldsAll(a[..], pre, w + z, post, w, z);
    SortedWhenOne(w + z, cmp);
  }

  lemma SortStart<T(!new)>(s: seq<T>, pre: seq<T>, w: seq<T>, post: seq<T>, i: nat, cmp: (T, T) -> int)
    requires s == pre + w + post && i == |w| / 2
    ensures Holds(s, pre, w, [] + post) && Sorting(w, [], w, i, cmp)
  {
    NothingBelow(w, i, cmp);
    assert w + [] == w && [] + post == post;
  }

  lemma HoldsSplit<T>(s: seq<T>, pre: seq<T>, w: seq<T>, z: seq<T>, post: seq<T>, n: nat)
    requires |w| == n + 1 && Holds(s, pre, w[n := w[0]], z + post)
    ensures Holds(s, pre, w[..n], ([w[0]] + z) + post)
  {
    assert w[n := w[0]] == w[..n] + [w[0]];
  }

  lemma HoldsAll<T>(s: seq<T>, pre: seq<T>, v: seq<T>, post: seq<T>, w: seq<T>, z: seq<T>)
    requires Holds(s, pre, w, z + post) && v == w + z
    ensures |s| == |pre| + |v| + |post|
    ensures s[..|pre|] == pre && s[|pre|..|pre| + |v|] == v && s[|pre| + |v|..] == post
  {
    assert s == pre + v + post;
  }

  lemma SortedWhenOne<T>(s: seq<T>, cmp: (T, T) -> int)
    requires SortedFrom(s, 1, cmp)
    ensures Sorted(s, cmp)
  {
  }

  lemma NothingBelow<T(!new)>(s: seq<T>, i: nat, cmp: (T, T) -> int)
    requires i == |s| / 2
    ensures HeapFrom(s, i, cmp)
  {
    forall j | 0 < j < |s| ensures Parent(j) < i {
      ParentBelow(j);
    }
  }

  lemma Smaller<T(!new)>(s: seq<T>, t: seq<T>, cmp: (T, T) -> int)
    requires HeapFrom(s, 0, cmp) && |t| < |s| && t == s[..|t|]
    ensures HeapFrom(t, 1, cmp)
  {
  }
}
