/**
  The deque of libstructures/vqarray.c and libstructures/vqarray.h: a growable array whose elements start
  behind a gap, so that the shorter end is the one that moves.
*/
module VQArray {
  import opened Options
  import opened HeapSort
  import opened Memory
  import opened SortedSearch

  class VQArray<T(0, !new)> {
    var items: array<T>
    var start: nat
    var length: nat
    var memlength: nat

    ghost predicate Valid()
      reads this
    {
      start + length <= memlength == items.Length
    }

    ghost function Contents(): seq<T>
      requires Valid()
      reads this, items
    {
      items[start..start + length]
    }

    /** vqarray_new */
    constructor ()
      ensures Valid() && fresh(items)
      ensures Contents() == []
    {
      items, start, length, memlength := new T[0], 0, 0, 0;
      new;
      ExpandToLength(START_LENGTH);
    }

    /** The memmove of the contents to begin at `to`. */
    method MoveContents(to: nat)
      requires Valid() && to + length <= memlength
      modifies this`start, items
      ensures Valid() && start == to
      ensures Contents() == old(Contents())
    {
      MemMove(items, to, start, length);
      start := to;
    }

    /** realloc to `m` slots. */
    method Reallocate(m: nat)
      requires Valid() && start + length <= m
      modifies this`items, this`memlength
      ensures Valid() && memlength == m && fresh(items)
      ensures Contents() == old(Contents())
    {
      var a := new T[m];
      forall k | 0 <= k < m && k < memlength { a[k] := items[k]; }
      items, memlength := a, m;
    }

    /**
      _vqarray_expand_to_length: room for `len` elements from `start` on. When it grows the buffer it leaves a
      gap of a whole block before the elements.
    */
    method ExpandToLength(len: nat)
      requires Valid()
      modifies this, items
      ensures Valid() && start + len <= memlength && length == old(length)
      ensures if old(start + len <= memlength) then items == old(items) && start == old(start)
              else fresh(items) && start == BLOCK_LENGTH
      ensures Contents() == old(Contents())
    {
      if memlength >= len + start { return; }
      if start > BLOCK_LENGTH {
        MoveContents(BLOCK_LENGTH);
      }
      Reallocate(BLOCK_LENGTH * (2 + (len + start + 1) / BLOCK_LENGTH));
      if start < BLOCK_LENGTH {
        MoveContents(BLOCK_LENGTH);
      }
    }

    /** vqarray_get */
    method Get(i: int) returns (e: Option<T>)
      requires Valid()
      ensures e == if 0 <= i < length then Some(Contents()[i]) else None
    {
      if i < 0 || i >= length { return None; }
      return Some(items[i + start]);
    }

    /** vqarray_set: slots skipped by growing hold no particular value. */
    method Set(i: int, e: T)
      requires Valid()
      modifies this, items
      ensures Valid() && (items == old(items) || fresh(items))
      ensures i < 0 ==> Contents() == old(Contents())
      ensures 0 <= i < old(length) ==> Contents() == old(Contents())[i := e]
      ensures old(length) <= i ==>
                |Contents()| == i + 1 && Contents()[..old(length)] == old(Contents()) && Contents()[i] == e
    {
      if i < 0 { return; }
      ExpandToLength(i + 1);
      if i < length {
        StoreWithin(items, start, length, i, e);
      } else {
        Extend(i, e);
      }
    }

    /** Stores an element behind the others and lengthens the deque up to it. */
    method Extend(i: nat, e: T)
      requires Valid() && length <= i && start + i < memlength
      modifies this, items
      ensures Valid() && items == old(items)
      ensures |Contents()| == i + 1 && Contents()[..old(length)] == old(Contents()) && Contents()[i] == e
    {
      StoreBeyond(items, start, length, i, e);
      length := i + 1;
    }

    /** vqarray_insert into the first half, which moves into the gap. */
    method InsertFront(i: nat, e: T)
      requires Valid() && i <= length && start > 0
      modifies this, items
      ensures Valid() && items == old(items)
      ensures Contents() == InsertAt(old(Contents()), i, e)
    {
      InsertDown(items, start, length, i, e);
      start, length := start - 1, length + 1;
    }

    /** vqarray_insert into the second half, which moves up. */
    method InsertBack(i: nat, e: T)
      requires Valid() && i <= length && start + length < memlength
      modifies this, items
      ensures Valid() && items == old(items)
      ensures Contents() == InsertAt(old(Contents()), i, e)
    {
      InsertUp(items, start, length, i, e);
      length := length + 1;
    }

    /** vqarray_insert when there is room behind the elements. */
    method InsertWithin(i: nat, e: T)
      requires Valid() && i <= length && start + length < memlength
      modifies this, items
      ensures Valid() && items == old(items)
      ensures Contents() == InsertAt(old(Contents()), i, e)
    {
      if start > 0 && i < length / 2 {
        InsertFront(i, e);
      } else {
        InsertBack(i, e);
      }
    }

    /** vqarray_insert */
    method Insert(i: int, e: T)
      requires Valid()
      modifies this, items
      ensures Valid() && (items == old(items) || fresh(items))
      ensures i < 0 ==> Contents() == old(Contents())
      ensures 0 <= i <= old(length) ==> Contents() == InsertAt(old(Contents()), i, e)
      ensures old(length) < i ==>
                |Contents()| == i + 1 && Contents()[..old(length)] == old(Contents()) && Contents()[i] == e
    {
      if i < 0 { return; }
      ExpandToLength(if length + 1 > i + 1 then length + 1 else i + 1);
      if i <= length {
        InsertWithin(i, e);
      } else {
        Extend(i, e);
      }
    }

    /** vqarray_remove from the first half, over which the gap grows. */
    method RemoveFront(i: nat)
      requires Valid() && i < length
      modifies this, items
      ensures Valid() && items == old(items)
      ensures Contents() == RemoveAt(old(Contents()), i)
    {
      RemoveUp(items, start, length, i);
      start, length := start + 1, length - 1;
    }

    /** vqarray_remove from the second half, which moves down. */
    method RemoveBack(i: nat)
      requires Valid() && i < length
      modifies this, items
      ensures Valid() && items == old(items)
      ensures Contents() == RemoveAt(old(Contents()), i)
    {
      RemoveDown(items, start, length, i);
      length := length - 1;
    }

    /** vqarray_remove */
    method Remove(i: int)
      requires Valid()
      modifies this, items
      ensures Valid() && items == old(items)
      ensures Contents() == if 0 <= i < old(length) then RemoveAt(old(Contents()), i) else old(Contents())
    {
      if i < 0 || i >= length { return; }
      if i < length / 2 {
        RemoveFront(i);
      } else {
        RemoveBack(i);
      }
    }

    /** vqarray_add */
    method Add(e: T)
      requires Valid()
      modifies this, items
      ensures Valid() && (items == old(items) || fresh(items))
      ensures Contents() == old(Contents()) + [e]
    {
      Set(length, e);
      assert Contents() == Contents()[..old(length)] + [e];
    }

    /** vqarray_unshift */
    method Unshift(e: T)
      requires Valid()
      modifies this, items
      ensures Valid() && (items == old(items) || fresh(items))
      ensures Contents() == [e] + old(Contents())
    {
      Insert(0, e);
    }

    /** vqarray_pop */
    method Pop() returns (e: Option<T>)
      requires Valid()
      modifies this, items
      ensures Valid() && items == old(items)
      ensures e == if old(length) > 0 then Some(old(Contents())[old(length) - 1]) else None
      ensures Contents() == if old(length) > 0 then old(Contents())[..old(length) - 1] else []
    {
      e := Get(length - 1);
      Remove(length - 1);
    }

    /** vqarray_shift */
    method Shift() returns (e: Option<T>)
      requires Valid()
      modifies this, items
      ensures Valid() && items == old(items)
      ensures e == if old(length) > 0 then Some(old(Contents())[0]) else None
      ensures Contents() == if old(length) > 0 then old(Contents())[1..] else []
    {
      e := Get(0);
      Remove(0);
    }

    /** vqarray_binary_search */
    method BinarySearch(e: T, cmp: (T, T) -> int) returns (r: int)
      requires Valid() && TotalPreorder(cmp) && Sorted(Contents(), cmp)
      ensures IsPlace(Contents(), e, r, cmp)
    {
      r := Search(items, start, length, e, cmp);
    }

    /** vqarray_insert_sorted: the element is added and the order kept. */
    method InsertSorted(e: T, cmp: (T, T) -> int) returns (idx: int)
      requires Valid() && TotalPreorder(cmp) && Sorted(Contents(), cmp)
      modifies this, items
      ensures Valid() && (items == old(items) || fresh(items))
      ensures 0 <= idx <= old(length) && Contents() == InsertAt(old(Contents()), idx, e)
      ensures Sorted(Contents(), cmp)
      ensures multiset(Contents()) == multiset(old(Contents())) + multiset{e}
    {
      var r := BinarySearch(e, cmp);
      InsertKeepsSorted(Contents(), e, r, cmp);
      idx := r + 1;
      InsertPlace(idx, e, cmp);
    }

    /** vqarray_insert at a place that suits the order. */
    method InsertPlace(i: nat, e: T, ghost cmp: (T, T) -> int)
      requires Valid() && i <= length && Sorted(InsertAt(Contents(), i, e), cmp)
      modifies this, items
      ensures Valid() && (items == old(items) || fresh(items))
      ensures Contents() == InsertAt(old(Contents()), i, e) && Sorted(Contents(), cmp)
    {
      Insert(i, e);
    }

    /** vqarray_sort; the source reads before the elements when there are none. */
    method Sort(cmp: (T, T) -> int)
      requires Valid() && TotalPreorder(cmp) && length > 0
      modifies items
      ensures Valid() && Sorted(Contents(), cmp)
      ensures multiset(Contents()) == multiset(old(Contents()))
    {
      HeapSort.Sort(items, start, length, cmp);
    }
  }
}
