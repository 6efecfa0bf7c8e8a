/** The doubly linked lists of lib/util/list.c, plain and ordered. */
module LinkedList {
  import opened Options
  import opened SortedSeq

  class Node<T> {
    var value: T
    var next: Node?<T>
    var prev: Node?<T>
    /** The list that made the node, which is the only one it is ever in. */
    ghost const owner: object

    constructor (value: T, ghost owner: object)
      ensures this.value == value && next == null && prev == null && this.owner == owner
    {
      this.value := value;
      this.owner := owner;
      next, prev := null, null;
    }
  }

  /** list_head_t; an olist_head_t is the same with a comparison function behind it. */
  class List<T> {
    var first: Node?<T>
    var last: Node?<T>
    var size: nat
    ghost var nodes: seq<Node<T>>

    ghost function Nodes(): set<Node<T>>
      reads this
    {
      set n | n in nodes
    }

    /** The links in both directions spell out `nodes`. */
    ghost predicate Linked()
      reads this, Nodes()
    {
      && size == |nodes|
      && (forall i | 0 <= i < size :: nodes[i].owner == this)
      && (forall i, j | 0 <= i < j < size :: nodes[i] != nodes[j])
      && first == (if size == 0 then null else nodes[0])
      && (forall i {:trigger nodes[i].next} | 0 <= i < size ::
        nodes[i].next == if i + 1 < size then nodes[i + 1] else null)
      && (forall i {:trigger nodes[i].prev} | 0 <= i < size :: nodes[i].prev == if i > 0 then nodes[i - 1] else null)
    }

    /** `last` is right.  In an empty list it is not looked at. */
    ghost predicate LastRight()
      reads this
      requires size == |nodes|
    {
      size > 0 ==> last == nodes[size - 1]
    }

    ghost predicate Valid()
      reads this, Nodes()
    {
      Linked() && LastRight()
    }

    ghost function Contents(): (s: seq<T>)
      reads this, Nodes()
      ensures |s| == |nodes| && forall i | 0 <= i < |s| :: s[i] == nodes[i].value
    {
      seq(|nodes|, i requires 0 <= i < |nodes| reads this, Nodes() => nodes[i].value)
    }

    /** Stores to objects that are neither this list nor its nodes leave it as it was. */
    twostate lemma Untouched()
      requires old(Valid()) && unchanged(this) && forall n | n in old(Nodes()) :: unchanged(n)
      ensures Valid() && Contents() == old(Contents()) && nodes == old(nodes)
    {}

    /** So do those to another list and its nodes. */
    lemma Owned()
      requires Valid()
      ensures forall n | n in Nodes() :: n.owner == this
    {}

    lemma FirstIsHead()
      requires Valid()
      ensures first == null <==> Contents() == []
      ensures first != null ==> first.value == Contents()[0]
    {}

    /** list_new, olist_new */
    constructor ()
      ensures Valid() && Contents() == [] && nodes == []
    {
      first, last, size := null, null, 0;
      nodes := [];
    }

    /** list_add */
    method Add(item: T)
      requires Valid()
      modifies this, Nodes()
      ensures Valid() && Contents() == old(Contents()) + [item]
      ensures fresh(Nodes() - old(Nodes()))
    {
      var node := new Node(item, this);
      if size == 0 {
        first := node;
        node.prev := null;
      } else {
        last.next := node;
        node.prev := last;
      }
      node.next := null;
      last := node;
      size := size + 1;
      nodes := nodes + [node];
    }

    /** The walk `for(i = 0; i < index; i++) node = node->next`. */
    method NodeAt(index: nat) returns (node: Node<T>)
      requires Linked() && index < size
      ensures node == nodes[index]
    {
      node := first;
      var i := 0;
      while i < index
        invariant i <= index && node == nodes[i]
      {
        node := node.next;
        i := i + 1;
      }
    }

    /** list_set */
    method Set(index: nat, value: T) returns (ok: bool)
      requires Valid()
      modifies Nodes()
      ensures Valid() && ok == (index < size)
      ensures Contents() == if ok then old(Contents())[index := value] else old(Contents())
    {
      if index >= size { return false; }
      var node := NodeAt(index);
      node.value := value;
      return true;
    }

    /** list_del, as written: `last` is never updated, so it stays right exactly when the deleted
        node was not the last of several. */
    method Del(index: nat) returns (r: Option<T>)
      requires Valid()
      modifies this, Nodes()
      ensures Linked()
      ensures LastRight() <==> !(0 < index && index + 1 == old(size))
      ensures index < old(size) ==> r == Some(old(Contents())[index]) && nodes == RemoveAt(old(nodes), index)
      ensures index < old(size) ==> Contents() == RemoveAt(old(Contents()), index)
      ensures index >= old(size) ==> r == None && Contents() == old(Contents()) && nodes == old(nodes)
    {
      if index >= size { return None; }
      if index == 0 {
        r := Some(first.value);
        UnlinkFirst();
      } else {
        var node := NodeAt(index);
        r := Some(node.value);
        Unlink(node, index);
      }
      assert Contents() == RemoveAt(old(Contents()), index);
    }

    /** list_del, lines 78-83.  The store to the prev field of a new first node that is NULL falls
        outside every list. */
    method UnlinkFirst()
      requires Valid() && size > 0
      modifies this, Nodes()
      ensures Valid() && nodes == RemoveAt(old(nodes), 0)
      ensures forall n | n in old(nodes) :: n.value == old(n.value)
    {
      var newFirst := first.next;
      first := newFirst;
      if first != null { first.prev := null; }
      size := size - 1;
      ghost var was := nodes;
      nodes := RemoveAt(was, 0);
      assert forall i {:trigger nodes[i]} | 0 <= i < size :: nodes[i] == was[i + 1];
      hide RemoveAt;
    }

    /** list_del, lines 93-101. */
    method Unlink(node: Node<T>, ghost index: nat)
      requires Valid() && 0 < index < size && nodes[index] == node
      modifies this, Nodes()
      ensures Linked() && nodes == RemoveAt(old(nodes), index)
      ensures LastRight() <==> index < size
      ensures forall n | n in old(nodes) :: n.value == old(n.value)
    {
      ghost var was := nodes;
      var prev, next := node.prev, node.next;
      prev.next := next;
      if next != null { next.prev := prev; }
      size := size - 1;
      nodes := RemoveAt(was, index);
      assert forall i {:trigger nodes[i]} | 0 <= i < size :: nodes[i] == was[if i < index then i else i + 1];
      hide RemoveAt;
    }

    /** list_del of index 0, the only one the scheduler deletes: `last` stays right. */
    method DelFirst() returns (r: Option<T>)
      requires Valid()
      modifies this, Nodes()
      ensures Valid() && Nodes() <= old(Nodes())
      ensures if old(Contents()) == [] then r == None && Contents() == []
              else r == Some(old(Contents())[0]) && Contents() == old(Contents())[1..]
    {
      r := Del(0);
    }

    /** list_get, as written on a uint32_t index: 0xFFFFFFFF passes the bound check, whose sum wraps,
        and gives the last element; no other out-of-range index gives anything. */
    method Get(index: nat) returns (r: Option<T>)
      requires Valid() && size < 0x1_0000_0000 && index < 0x1_0000_0000
      requires size == 0 ==> index != 0xFFFF_FFFF
      ensures r == if index < size then Some(Contents()[index])
                   else if index == 0xFFFF_FFFF then Some(Contents()[size - 1]) else None
    {
      if (index + 1) % 0x1_0000_0000 > size { return None; }
      if index <= (size - 1) / 2 {
        var near := NodeAt(index);
        return Some(near.value);
      }
      var j := size - 1;
      var node := last;
      while j > index
        invariant 0 <= j < size && node == nodes[j] && (j >= index || j == size - 1)
      {
        node := node.prev;
        j := j - 1;
      }
      return Some(node.value);
    }

    /** olist_add: before the first node whose key is greater. */
    method OAdd(key: T -> int, item: T)
      requires Valid()
      modifies this, Nodes()
      ensures Valid() && Contents() == Insert(old(Contents()), key, item)
      ensures fresh(Nodes() - old(Nodes()))
    {
      hide Insert, Linked;
      ghost var s := Contents();
      var node, i := Place(key, item);
      var newNode := new Node(item, this);
      Untouched();
      if size == 0 {
        LinkOnly(newNode);
      } else {
        Link(newNode, node, i);
      }
      assert Contents() == s[..i] + [item] + s[i..];
      InsertIs(s, key, item, i, Contents());
    }

    /** olist_add, lines 202-208: the first node of a list. */
    method LinkOnly(newNode: Node<T>)
      requires Valid() && size == 0 && newNode.owner == this
      modifies this, newNode
      ensures Valid() && nodes == [newNode] && Contents() == [old(newNode.value)]
    {
      first, last := newNode, newNode;
      newNode.next, newNode.prev := null, null;
      size := 1;
      nodes := [newNode];
    }

    /** The search loop of olist_add: the first node whose key is greater, NULL if there is none. */
    method Place(key: T -> int, item: T) returns (node: Node?<T>, ghost i: nat)
      requires Valid()
      ensures i <= size == |nodes| && node == if i < size then nodes[i] else null
      ensures forall k | 0 <= k < i :: key(Contents()[k]) <= key(item)
      ensures i < size ==> key(Contents()[i]) > key(item)
    {
      node := first;
      i := 0;
      while node != null && key(node.value) <= key(item)
        invariant i <= size && node == if i < size then nodes[i] else null
        invariant forall k | 0 <= k < i :: key(Contents()[k]) <= key(item)
        decreases size - i
      {
        node := node.next;
        i := i + 1;
      }
    }

    /** olist_add, lines 216-234. */
    method Link(newNode: Node<T>, node: Node?<T>, ghost i: nat)
      requires Valid() && 0 < size && i <= size && node == (if i < size then nodes[i] else null) && newNode !in nodes
        && newNode.owner == this
      modifies this, Nodes(), newNode
      ensures Valid() && nodes == old(nodes)[..i] + [newNode] + old(nodes)[i..]
      ensures Contents() == old(Contents())[..i] + [old(newNode.value)] + old(Contents())[i..]
    {
      hide Linked, Contents;
      SizeIsLength();
      if node == null { LinkLast(newNode); } else { LinkBefore(newNode, node, i); }
    }

    lemma SizeIsLength()
      requires Valid()
      ensures size == |nodes|
    {}

    /** olist_add, lines 217-220: link a new node behind all others. */
    method LinkLast(newNode: Node<T>)
      requires Valid() && 0 < size && newNode !in nodes && newNode.owner == this
      modifies this, Nodes(), newNode
      ensures Valid() && nodes == old(nodes) + [newNode]
      ensures newNode.value == old(newNode.value) && forall n | n in old(nodes) :: n.value == old(n.value)
    {
      newNode.prev := last;
      newNode.next := null;
      last.next := newNode;
      last := newNode;
      size := size + 1;
      nodes := nodes + [newNode];
    }

    /** olist_add, lines 223-231: link a new node in front of another. */
    method LinkBefore(newNode: Node<T>, node: Node<T>, ghost i: nat)
      requires Valid() && i < size && node == nodes[i] && newNode !in nodes && newNode.owner == this
      modifies this, Nodes(), newNode
      ensures Valid() && nodes == old(nodes)[..i] + [newNode] + old(nodes)[i..]
      ensures newNode.value == old(newNode.value) && forall n | n in old(nodes) :: n.value == old(n.value)
    {
      ghost var was := nodes;
      newNode.prev := node.prev;
      newNode.next := node;
      if node.prev == null {
        first := newNode;
      } else {
        node.prev.next := newNode;
      }
      node.prev := newNode;
      size := size + 1;
      nodes := was[..i] + [newNode] + was[i..];
      assert forall k {:trigger nodes[k]} | 0 <= k < i :: nodes[k] == was[k];
      assert nodes[i] == newNode;
      assert forall k {:trigger nodes[k]} | i < k < size :: nodes[k] == was[k - 1];
    }
  }
}
