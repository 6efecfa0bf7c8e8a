/** Sequences kept sorted by a key, as the ordered arrays and ordered lists of the kernel keep them.
    DEFINE_CMP_MEMBER compares items by a member times a direction; that product is the key. */
module SortedSeq {

  /** Where oarray_add and olist_add put an item: after every item whose key is no greater. */
  function Position<T>(s: seq<T>, key: T -> int, x: T): (p: nat)
    ensures p <= |s|
    ensures forall i | 0 <= i < p :: key(s[i]) <= key(x)
    ensures p < |s| ==> key(s[p]) > key(x)
  {
    if s == [] || key(s[0]) > key(x) then 0 else 1 + Position(s[1..], key, x)
  }

  function Insert<T>(s: seq<T>, key: T -> int, x: T): seq<T> {
    var p := Position(s, key, x);
    s[..p] + [x] + s[p..]
  }

  function RemoveAt<T>(s: seq<T>, i: nat): seq<T>
    requires i < |s|
  {
    s[..i] + s[i + 1..]
  }

  /** First index of x in s, or -1. */
  function Find<T(==)>(s: seq<T>, x: T): (i: int)
    ensures -1 <= i < |s|
    ensures i >= 0 ==> s[i] == x && forall k | 0 <= k < i :: s[k] != x
    ensures i < 0 <==> x !in s
  {
    if s == [] then -1
    else if s[0] == x then 0
    else var i := Find(s[1..], x); if i < 0 then -1 else i + 1
  }

  function Remove<T(==)>(s: seq<T>, x: T): seq<T> {
    var i := Find(s, x);
    if i < 0 then s else RemoveAt(s, i)
  }

  ghost predicate Sorted<T>(s: seq<T>, key: T -> int) {
    forall i, j | 0 <= i < j < |s| :: key(s[i]) <= key(s[j])
  }

  ghost predicate Distinct<T>(s: seq<T>) {
    forall i, j | 0 <= i < j < |s| :: s[i] != s[j]
  }

  /** The insertion point is the only one that leaves no greater key before it and none as small after it. */
  lemma PositionIs<T>(s: seq<T>, key: T -> int, x: T, p: nat)
    requires p <= |s|
    requires forall i | 0 <= i < p :: key(s[i]) <= key(x)
    requires p < |s| ==> key(s[p]) > key(x)
    ensures Position(s, key, x) == p
  {}

  lemma InsertIs<T>(s: seq<T>, key: T -> int, x: T, p: nat, r: seq<T>)
    requires p <= |s| && |r| == |s| + 1 && r[p] == x
    requires forall i | 0 <= i < p :: key(s[i]) <= key(x) && r[i] == s[i]
    requires p < |s| ==> key(s[p]) > key(x)
    requires forall i | p < i < |r| :: r[i] == s[i - 1]
    ensures r == Insert(s, key, x)
  {
    PositionIs(s, key, x, p);
    assert r == s[..p] + [x] + s[p..];
  }

  lemma InsertMembers<T>(s: seq<T>, key: T -> int, x: T)
    ensures multiset(Insert(s, key, x)) == multiset(s) + multiset{x}
    ensures forall y :: y in Insert(s, key, x) <==> y in s || y == x
    ensures |Insert(s, key, x)| == |s| + 1
  {
    var p := Position(s, key, x);
    assert s == s[..p] + s[p..];
    assert forall y :: y in Insert(s, key, x) <==> y in multiset(Insert(s, key, x));
  }

  /** Sorted stays sorted; ties go behind their equals, so insertion is stable. */
  lemma InsertSorted<T>(s: seq<T>, key: T -> int, x: T)
    requires Sorted(s, key)
    ensures Sorted(Insert(s, key, x), key)
  {
    var p := Position(s, key, x);
    var r := Insert(s, key, x);
    assert forall i | p <= i < |s| :: key(x) < key(s[i]);
    forall i, j | 0 <= i < j < |r| ensures key(r[i]) <= key(r[j]) {
      assert r[i] == if i < p then s[i] else if i == p then x else s[i - 1];
      assert r[j] == if j < p then s[j] else if j == p then x else s[j - 1];
    }
  }

  lemma InsertDistinct<T>(s: seq<T>, key: T -> int, x: T)
    requires Distinct(s) && x !in s
    ensures Distinct(Insert(s, key, x))
  {
    var p := Position(s, key, x);
    var r := Insert(s, key, x);
    forall i, j | 0 <= i < j < |r| ensures r[i] != r[j] {
      assert r[i] == if i < p then s[i] else if i == p then x else s[i - 1];
      assert r[j] == if j < p then s[j] else if j == p then x else s[j - 1];
    }
  }

  lemma RemoveAtMembers<T>(s: seq<T>, i: nat)
    requires i < |s| && Distinct(s)
    ensures Distinct(RemoveAt(s, i))
    ensures forall y :: y in RemoveAt(s, i) <==> y in s && y != s[i]
  {
    var r := RemoveAt(s, i);
    assert forall k | 0 <= k < |r| :: r[k] == s[if k < i then k else k + 1];
    forall y | y in s && y != s[i] ensures y in r {
      var k :| 0 <= k < |s| && s[k] == y;
      assert r[if k < i then k else k - 1] == y;
    }
  }

  lemma RemoveAtSorted<T>(s: seq<T>, key: T -> int, i: nat)
    requires i < |s| && Sorted(s, key)
    ensures Sorted(RemoveAt(s, i), key)
  {
    var r := RemoveAt(s, i);
    assert forall k | 0 <= k < |r| :: r[k] == s[if k < i then k else k + 1];
  }

  lemma RemoveKeeps<T>(s: seq<T>, key: T -> int, x: T)
    requires Distinct(s) && Sorted(s, key)
    ensures Distinct(Remove(s, x)) && Sorted(Remove(s, x), key)
    ensures forall y :: y in Remove(s, x) <==> y in s && y != x
  {
    if x in s {
      RemoveAtMembers(s, Find(s, x));
      RemoveAtSorted(s, key, Find(s, x));
    }
  }

  /** Only the keys of the items involved matter. */
  lemma InsertSameKeys<T>(s: seq<T>, k1: T -> int, k2: T -> int, x: T)
    requires k1(x) == k2(x)
    requires forall i | 0 <= i < |s| :: k1(s[i]) == k2(s[i])
    ensures Insert(s, k1, x) == Insert(s, k2, x)
  {
    PositionIs(s, k2, x, Position(s, k1, x));
  }

  lemma OnlyOne<T>(key: T -> int, x: T)
    ensures Insert([], key, x) == [x]
  {}

  lemma FirstIsFound<T>(s: seq<T>, x: T, i: nat)
    requires i < |s| && s[i] == x && forall k | 0 <= k < i :: s[k] != x
    ensures Find(s, x) == i
  {}
}
