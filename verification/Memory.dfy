/** memmove on the slots of an array, and what inserting and deleting by memmove do to the slots in use. */
module Memory {

  /** How many slots the growable arrays begin with, and by how many they grow once they are large. */
  const START_LENGTH: nat := 16
  const BLOCK_LENGTH: nat := 1024

  function InsertAt<T>(s: seq<T>, i: nat, e: T): (r: seq<T>)
    requires i <= |s|
    ensures |r| == |s| + 1
  {
    s[..i] + [e] + s[i..]
  }

  function RemoveAt<T>(s: seq<T>, i: nat): (r: seq<T>)
    requires i < |s|
    ensures |r| == |s| - 1
  {
    s[..i] + s[i + 1..]
  }

  /** The slots after `n` of them have been copied from `from` to `to`, which may overlap. */
  function Moved<T>(b: seq<T>, to: nat, from: nat, n: nat): (r: seq<T>)
    requires to + n <= |b| && from + n <= |b|
    ensures |r| == |b|
  {
    b[..to] + b[from..from + n] + b[to + n..]
  }

  method MemMove<T>(a: array<T>, to: nat, from: nat, n: nat)
    requires to + n <= a.Length && from + n <= a.Length
    modifies a
    ensures a[..] == Moved(old(a[..]), to, from, n)
  {
    forall k | 0 <= k < n { a[to + k] := a[from + k]; }
  }

  lemma SliceMiddle<T>(s: seq<T>, x: seq<T>, y: seq<T>, z: seq<T>, lo: nat, hi: nat)
    requires s == x + y + z && lo == |x| && hi == |x| + |y|
    ensures hi <= |s| && s[lo..hi] == y
  {
  }

  lemma SetBetween<T>(x: seq<T>, y: seq<T>, c: T, z: seq<T>, e: T)
    ensures (x + y + ([c] + z))[|x| + |y| := e] == x + (y + [e]) + z
  {
  }

  lemma InsertBetween<T>(s: seq<T>, y: seq<T>, z: seq<T>, e: T)
    requires s == y + z
    ensures InsertAt(s, |y|, e) == y + [e] + z
  {
  }

  lemma RemoveBetween<T>(s: seq<T>, y: seq<T>, c: T, z: seq<T>)
    requires s == y + [c] + z
    ensures RemoveAt(s, |y|) == y + z
  {
  }

  /** The first `i` of the `n` elements at `f` have moved down by one slot and `e` stands behind them. */
  lemma InsertMovingDown<T>(b: seq<T>, f: nat, n: nat, i: nat, e: T)
    requires 0 < f && f + n <= |b| && i <= n
    ensures Moved(b, f - 1, f, i)[f - 1 + i := e][f - 1..f + n] == InsertAt(b[f..f + n], i, e)
  {
    var x, y, c, z, w := b[..f - 1], b[f..f + i], b[f - 1 + i], b[f + i..f + n], b[f + n..];
    assert b[f - 1 + i..] == [c] + (z + w);
    SetBetween(x, y, c, z + w, e);
    var s := Moved(b, f - 1, f, i)[f - 1 + i := e];
    assert s == x + (y + [e] + z) + w;
    SliceMiddle(s, x, y + [e] + z, w, f - 1, f + n);
    InsertBetween(b[f..f + n], y, z, e);
  }

  /** The elements from `i` on have moved up by one slot. */
  lemma InsertMovingUp<T>(b: seq<T>, f: nat, n: nat, i: nat, e: T)
    requires f + n < |b| && i <= n
    ensures Moved(b, f + i + 1, f + i, n - i)[f + i := e][f..f + n + 1] == InsertAt(b[f..f + n], i, e)
  {
    var x, y, c, z, w := b[..f], b[f..f + i], b[f + i], b[f + i..f + n], b[f + n + 1..];
    assert b[..f + i + 1] == x + y + [c];
    assert Moved(b, f + i + 1, f + i, n - i) == x + y + ([c] + (z + w));
    SetBetween(x, y, c, z + w, e);
    var s := Moved(b, f + i + 1, f + i, n - i)[f + i := e];
    assert s == x + (y + [e] + z) + w;
    SliceMiddle(s, x, y + [e] + z, w, f, f + n + 1);
    InsertBetween(b[f..f + n], y, z, e);
  }

  lemma RemoveMovingUp<T>(b: seq<T>, f: nat, n: nat, i: nat)
    requires f + n <= |b| && i < n
    ensures Moved(b, f + 1, f, i)[f + 1..f + n] == RemoveAt(b[f..f + n], i)
  {
    var x, y, c, z, w := b[..f + 1], b[f..f + i], b[f + i], b[f + i + 1..f + n], b[f + n..];
    assert b[f + 1 + i..] == z + w;
    assert Moved(b, f + 1, f, i) == x + (y + z) + w;
    SliceMiddle(Moved(b, f + 1, f, i), x, y + z, w, f + 1, f + n);
    RemoveBetween(b[f..f + n], y, c, z);
  }

  lemma RemoveMovingDown<T>(b: seq<T>, f: nat, n: nat, i: nat)
    requires f + n <= |b| && i < n
    ensures Moved(b, f + i, f + i + 1, n - (i + 1))[f..f + n - 1] == RemoveAt(b[f..f + n], i)
  {
    var x, y, c, z, w := b[..f], b[f..f + i], b[f + i], b[f + i + 1..f + n], b[f + n - 1..];
    assert b[..f + i] == x + y;
    assert Moved(b, f + i, f + i + 1, n - (i + 1)) == x + (y + z) + w;
    SliceMiddle(Moved(b, f + i, f + i + 1, n - (i + 1)), x, y + z, w, f, f + n - 1);
    RemoveBetween(b[f..f + n], y, c, z);
  }

  lemma MovedNothing<T>(b: seq<T>, to: nat, from: nat)
    requires to <= |b| && from <= |b|
    ensures Moved(b, to, from, 0) == b
  {
  }

  /** Opens a slot for `e` at index `i` of the `n` elements at `f` by moving those before it down. */
  method InsertDown<T>(a: array<T>, f: nat, n: nat, i: nat, e: T)
    requires 0 < f && f + n <= a.Length && i <= n
    modifies a
    ensures a[f - 1..f + n] == InsertAt(old(a[f..f + n]), i, e)
  {
    ghost var b := a[..];
    assert a[f..f + n] == b[f..f + n];
    if i > 0 {
      MemMove(a, f - 1, f, i);
    } else {
      MovedNothing(b, f - 1, f);
    }
    ghost var c := a[..];
    a[f - 1 + i] := e;
    assert a[..] == c[f - 1 + i := e];
    InsertMovingDown(b, f, n, i, e);
    assert a[f - 1..f + n] == a[..][f - 1..f + n];
  }

  /** The same by moving those from `i` on up. */
  method InsertUp<T>(a: array<T>, f: nat, n: nat, i: nat, e: T)
    requires f + n < a.Length && i <= n
    modifies a
    ensures a[f..f + n + 1] == InsertAt(old(a[f..f + n]), i, e)
  {
    ghost var b := a[..];
    assert a[f..f + n] == b[f..f + n];
    if i < n {
      MemMove(a, f + i + 1, f + i, n - i);
    } else {
      MovedNothing(b, f + i + 1, f + i);
    }
    ghost var c := a[..];
    assert c == Moved(b, f + i + 1, f + i, n - i);
    a[f + i] := e;
    assert a[..] == c[f + i := e];
    InsertMovingUp(b, f, n, i, e);
    assert a[f..f + n + 1] == a[..][f..f + n + 1];
  }

  /** Closes the slot at index `i` of the `n` elements at `f` by moving those before it up. */
  method RemoveUp<T>(a: array<T>, f: nat, n: nat, i: nat)
    requires f + n <= a.Length && i < n
    modifies a
    ensures a[f + 1..f + n] == RemoveAt(old(a[f..f + n]), i)
  {
    ghost var b := a[..];
    assert a[f..f + n] == b[f..f + n];
    if i > 0 {
      MemMove(a, f + 1, f, i);
    } else {
      MovedNothing(b, f + 1, f);
    }
    RemoveMovingUp(b, f, n, i);
    assert a[f + 1..f + n] == a[..][f + 1..f + n];
  }

  /** The same by moving those after it down. */
  method RemoveDown<T>(a: array<T>, f: nat, n: nat, i: nat)
    requires f + n <= a.Length && i < n
    modifies a
    ensures a[f..f + n - 1] == RemoveAt(old(a[f..f + n]), i)
  {
    ghost var b := a[..];
    assert a[f..f + n] == b[f..f + n];
    MemMove(a, f + i, f + i + 1, n - (i + 1));
    RemoveMovingDown(b, f, n, i);
    assert a[f..f + n - 1] == a[..][f..f + n - 1];
  }

  /** Stores `e` beyond the `n` elements at `f`. */
  method StoreBeyond<T>(a: array<T>, f: nat, n: nat, i: nat, e: T)
    requires n <= i && f + i < a.Length
    modifies a
    ensures a[f..f + n] == old(a[f..f + n]) && a[f..f + i + 1][i] == e && a[f..f + i + 1][..n] == old(a[f..f + n])
  {
    a[f + i] := e;
    assert a[f..f + i + 1][..n] == a[f..f + n];
  }

  /** Stores `e` over one of the `n` elements at `f`. */
  method StoreWithin<T>(a: array<T>, f: nat, n: nat, i: nat, e: T)
    requires i < n && f + n <= a.Length
    modifies a
    ensures a[f..f + n] == old(a[f..f + n])[i := e]
  {
    a[f + i] := e;
  }
}
