/** The ordered array of lib/util/oarray.c: a fixed buffer kept sorted by a key that the
    comparison function reads off each item. */
module OrderedArray {
  import opened SortedSeq

  /** oarray_t.  `items` is the buffer handed to oarray_place; its length is max_size. */
  class OArray {
    const items: array<int>
    var size: nat

    ghost predicate Valid() reads this { size <= items.Length }

    ghost function Contents(): seq<int>
      reads this, items
      requires Valid()
    {
      items[..size]
    }

    /** oarray_place */
    constructor (maxSize: nat)
      ensures Valid() && Contents() == [] && fresh(items) && items.Length == maxSize
    {
      items := new int[maxSize];
      size := 0;
    }

    /** oarray_add */
    method Add(key: int -> int, item: int) returns (ok: bool)
      requires Valid()
      modifies this, items
      ensures Valid()
      ensures ok == (old(size) < items.Length)
      ensures Contents() == if ok then Insert(old(Contents()), key, item) else old(Contents())
    {
      if size >= items.Length { return false; }
      ghost var s := Contents();
      var i := 0;
      while i < size && key(items[i]) <= key(item)
        invariant i <= size
        invariant forall k | 0 <= k < i :: key(s[k]) <= key(item)
      {
        i := i + 1;
      }
      hide Position, Insert;
      if i == size {
        items[size] := item;
        size := size + 1;
        InsertIs(s, key, item, i, items[..size]);
        return true;
      }
      ShiftUp(i);
      items[i] := item;
      InsertIs(s, key, item, i, items[..size]);
      return true;
    }

    /** The shifting loop of oarray_add, lines 59-62. */
    method ShiftUp(i: nat)
      requires i < size < items.Length
      modifies this, items
      ensures size == old(size) + 1
      ensures forall k | 0 <= k < i :: items[k] == old(items[k])
      ensures forall k | i < k < size :: items[k] == old(items[k - 1])
    {
      var j := size;
      size := size + 1;
      while j > i
        invariant i <= j < size == old(size) + 1
        invariant forall k | 0 <= k < j :: items[k] == old(items[k])
        invariant forall k | j < k < size :: items[k] == old(items[k - 1])
      {
        items[j] := items[j - 1];
        j := j - 1;
      }
    }

    /** oarray_find_value */
    method FindValue(val: int) returns (index: int)
      requires Valid()
      ensures index == Find(Contents(), val)
    {
      var i := 0;
      while i < size
        invariant i <= size
        invariant forall k | 0 <= k < i :: items[k] != val
      {
        if items[i] == val {
          FirstIsFound(Contents(), val, i);
          return i;
        }
        i := i + 1;
      }
      return -1;
    }

    /** oarray_del */
    method Del(index: nat)
      requires Valid() && index < size
      modifies this, items
      ensures Valid() && Contents() == RemoveAt(old(Contents()), index)
    {
      ghost var s := Contents();
      if index == size - 1 {
        size := size - 1;
        return;
      }
      var j := index;
      while j < size - 1
        invariant index <= j <= size - 1 && size == |s|
        invariant forall k | 0 <= k < index :: items[k] == s[k]
        invariant forall k | index <= k < j :: items[k] == s[k + 1]
        invariant forall k | j <= k < size :: items[k] == s[k]
      {
        items[j] := items[j + 1];
        j := j + 1;
      }
      size := size - 1;
    }

    /** oarray_del_value */
    method DelValue(val: int) returns (found: bool)
      requires Valid()
      modifies this, items
      ensures Valid() && Contents() == Remove(old(Contents()), val)
      ensures found == (val in old(Contents()))
    {
      var index := FindValue(val);
      if index >= 0 {
        Del(index);
        return true;
      }
      return false;
    }
  }
}
