/**
  The growable array of libstructures/varray.c. The operations with a bounds check return None where the
  source returns NULL.
*/
module VArray {
  import opened Options
  import opened HeapSort
  import opened Memory
  import opened SortedSearch

  class VArray<T(0, !new)> {
    var items: array<T>
    var length: nat
    var memlength: nat

    ghost predicate Valid()
      reads this
    {
      length <= memlength == items.Length
    }

    ghost function Contents(): seq<T>
      requires Valid()
      reads this, items
    {
      items[..length]
    }

    /** varray_new */
    constructor ()
      ensures Valid() && fresh(items)
      ensures Contents() == []
    {
      items, length, memlength := new T[START_LENGTH], 0, START_LENGTH;
    }

    /** _varray_expand_to_length: room for `len` elements, keeping those there are. */
    method ExpandToLength(len: nat)
      requires Valid()
      modifies this
      ensures Valid() && len <= memlength && length == old(length)
      ensures items == old(items) || fresh(items)
      ensures Contents() == old(Contents())
    {
      if memlength >= len { return; }
      var m;
      if len <= START_LENGTH {
        m := START_LENGTH;
      } else if len < BLOCK_LENGTH && len < memlength * 2 {
        m := memlength * 2;
      } else {
        m := BLOCK_LENGTH * (1 + (len + 1) / BLOCK_LENGTH);
      }
      var a := new T[m];
      forall k | 0 <= k < memlength { a[k] := items[k]; }
      items, memlength := a, m;
    }

    /** varray_get */
    method Get(i: int) returns (e: Option<T>)
      requires Valid()
      ensures e == if 0 <= i < length then Some(Contents()[i]) else None
    {
      if i < 0 || i >= length { return None; }
      return Some(items[i]);
    }

    /** varray_set: slots skipped by growing hold no particular value. */
    method Set(i: int, e: T)
      requires Valid()
      modifies this, items
      ensures Valid() && (items == old(items) || fresh(items))
      ensures i < 0 ==> Contents() == old(Contents())
      ensures 0 <= i < old(length) ==> Contents() == old(Contents())[i := e]
      ensures old(length) <= i ==>
                |Contents()| == i + 1 && Contents()[..old(length)] == old(Contents()) && Contents()[i] == e
    {
      if i < 0 { return; }
      ExpandToLength(i + 1);
      assert items[0..0 + length] == Contents();
      if i < length {
        StoreWithin(items, 0, length, i, e);
        assert items[0..0 + length] == Contents();
      } else {
        StoreBeyond(items, 0, length, i, e);
        length := i + 1;
        assert items[0..0 + i + 1] == Contents();
      }
    }

    /** varray_insert */
    method Insert(i: int, e: T)
      requires Valid()
      modifies this, items
      ensures Valid() && (items == old(items) || fresh(items))
      ensures i < 0 ==> Contents() == old(Contents())
      ensures 0 <= i <= old(length) ==> Contents() == InsertAt(old(Contents()), i, e)
      ensures old(length) < i ==>
                |Contents()| == i + 1 && Contents()[..old(length)] == old(Contents()) && Contents()[i] == e
    {
      if i < 0 { return; }
      ExpandToLength(if length + 1 > i + 1 then length + 1 else i + 1);
      if i <= length {
        assert items[0..0 + length] == Contents();
        InsertUp(items, 0, length, i, e);
        length := length + 1;
        assert items[0..length] == Contents();
      } else {
        assert items[0..0 + length] == Contents();
        StoreBeyond(items, 0, length, i, e);
        length := i + 1;
        assert items[0..0 + i + 1] == Contents();
      }
    }

    /** varray_remove */
    method Remove(i: int)
      requires Valid()
      modifies this, items
      ensures Valid() && items == old(items)
      ensures Contents() == if 0 <= i < old(length) then RemoveAt(old(Contents()), i) else old(Contents())
    {
      if i < 0 || i >= length { return; }
      assert items[0..0 + length] == Contents();
      RemoveDown(items, 0, length, i);
      length := length - 1;
      assert items[0..0 + length + 1 - 1] == Contents();
    }

    /** varray_add */
    method Add(e: T)
      requires Valid()
      modifies this, items
      ensures Valid() && (items == old(items) || fresh(items))
      ensures Contents() == old(Contents()) + [e]
    {
      Set(length, e);
      assert Contents() == Contents()[..old(length)] + [e];
    }

    /** varray_peek */
    method Peek() returns (e: Option<T>)
      requires Valid()
      ensures e == if length > 0 then Some(Contents()[length - 1]) else None
    {
      e := Get(length - 1);
    }

    /** varray_pop */
    method Pop() returns (e: Option<T>)
      requires Valid()
      modifies this, items
      ensures Valid() && items == old(items)
      ensures e == if old(length) > 0 then Some(old(Contents())[old(length) - 1]) else None
      ensures Contents() == if old(length) > 0 then old(Contents())[..old(length) - 1] else []
    {
      e := Get(length - 1);
      Remove(length - 1);
    }

    /** varray_sort; the source reads before the buffer when the array is empty. */
    method Sort(cmp: (T, T) -> int)
      requires Valid() && TotalPreorder(cmp) && length > 0
      modifies items
      ensures Valid() && Sorted(Contents(), cmp)
      ensures multiset(Contents()) == multiset(old(Contents()))
    {
      assert items[0..0 + length] == items[..length];
      HeapSort.Sort(items, 0, length, cmp);
      assert items[0..0 + length] == items[..length];
    }

    /** varray_binary_search */
    method BinarySearch(e: T, cmp: (T, T) -> int) returns (r: int)
      requires Valid() && TotalPreorder(cmp) && Sorted(Contents(), cmp)
      ensures IsPlace(Contents(), e, r, cmp)
    {
      assert items[0..0 + length] == items[..length];
      r := Search(items, 0, length, e, cmp);
    }
  }
}
