/** The singly-linked coordinate list: nodes holding an item (a direction)
    and the coordinates of a chip, linked through next, each knowing the
    list it belongs to. A node whose list reference is null is invalid, and
    every list operation on it fails. The list is checked against a ghost
    sequence of its nodes and of their entries. */
module SLists {

  /** An operation's outcome: its value, or the InvalidNodeException the
      source throws for an invalid node. */
  datatype Result<T> = Ok(value: T) | InvalidNode

  /** What a node stores. */
  datatype Entry = Entry(item: int, x: int, y: int)

  /** The list object: head, tail and size, with its nodes in order. */
  class SList {
    var head: SListNode?
    var tail: SListNode?
    var size: int
    /** The nodes from head to tail. */
    ghost var nodes: seq<SListNode>
    /** What the nodes store, in the same order. */
    ghost var contents: seq<Entry>
    ghost var Repr: set<object>

    ghost predicate Valid()
      reads this, Repr
    {
      this in Repr && Within(nodes, Repr) && size == |nodes| &&
      Owned(this, nodes, contents, -1) && Linked(nodes, -1, -1) &&
      (nodes == [] ==> head == null && tail == null) &&
      (nodes != [] ==> head == nodes[0] && tail == nodes[|nodes| - 1] && tail.next == null)
    }

    /** The position of a node of the list. */
    ghost function IndexOf(n: SListNode): (k: nat)
      reads this, Repr
      requires Valid() && n in nodes
      ensures k < |nodes| && nodes[k] == n
      ensures forall j :: 0 <= j < |nodes| && nodes[j] == n ==> j == k
    {
      var k :| 0 <= k < |nodes| && nodes[k] == n; k
    }

    /** SList(): the empty list. */
    constructor ()
      ensures Valid() && nodes == [] && contents == [] && fresh(Repr)
    {
      head, tail, size := null, null, 0;
      nodes, contents := [], [];
      Repr := {this};
    }

    /** insertFront: a new node at the head. */
    method InsertFront(item: int, x: int, y: int)
      requires Valid()
      modifies this
      ensures Valid() && size == old(size) + 1
      ensures contents == [Entry(item, x, y)] + old(contents)
      ensures nodes[1..] == old(nodes) && fresh(nodes[0]) && Repr == old(Repr) + {nodes[0]}
    {
      ghost var ns, es := nodes, contents;
      var n := new SListNode(item, x, y, this, head);
      if head == null {
        tail := n;
      }
      head := n;
      size := size + 1;
      Relist(ns, es, 0, n);
    }

    /** Records that node n has been linked in at position j of the former
        nodes ns. */
    ghost method Relist(ns: seq<SListNode>, es: seq<Entry>, j: nat, n: SListNode)
      requires Owned(this, ns, es, -1) && Within(ns, Repr) && Linked(ns, j - 1, j - 1) && j <= |ns| && this in Repr
      requires n !in Repr && n.myList == this && n.next == (if j < |ns| then ns[j] else null)
      requires j > 0 ==> ns[j - 1].next == n
      requires j < |ns| ==> ns[|ns| - 1].next == null
      requires size == |ns| + 1
      requires head == (if j == 0 then n else ns[0])
      requires tail == (if j == |ns| then n else ns[|ns| - 1])
      modifies this
      ensures Valid() && Repr == old(Repr) + {n}
      ensures nodes == ns[..j] + [n] + ns[j..] && contents == es[..j] + [Entry(n.item, n.x, n.y)] + es[j..]
      ensures head == old(head) && tail == old(tail) && size == old(size)
    {
      nodes := ns[..j] + [n] + ns[j..];
      contents := es[..j] + [Entry(n.item, n.x, n.y)] + es[j..];
      Repr := Repr + {n};
      Inserted(this, ns, es, j, n);
    }

    /** Records that the node at position j of the former nodes ns has been
        unlinked; succ is the node that followed it. */
    ghost method Delist(ns: seq<SListNode>, es: seq<Entry>, j: nat, succ: SListNode?)
      requires Owned(this, ns, es, j) && Within(ns, Repr) && Linked(ns, j - 1, j) && j < |ns| && this in Repr
      requires succ == (if j + 1 < |ns| then ns[j + 1] else null)
      requires j > 0 ==> ns[j - 1].next == succ
      requires j + 1 < |ns| ==> ns[|ns| - 1].next == null
      requires size == |ns| - 1
      requires head == (if j == 0 then succ else ns[0])
      requires tail == (if j == |ns| - 1 then (if j == 0 then null else ns[j - 1]) else ns[|ns| - 1])
      modifies this
      ensures Valid() && Repr == old(Repr) - {ns[j]}
      ensures nodes == ns[..j] + ns[j + 1..] && contents == es[..j] + es[j + 1..]
      ensures head == old(head) && tail == old(tail) && size == old(size)
    {
      nodes := ns[..j] + ns[j + 1..];
      contents := es[..j] + es[j + 1..];
      Repr := Repr - {ns[j]};
      Removed(this, ns, es, j, succ);
    }

    /** front: the head node, or a new invalid node when the list is empty. */
    method Front() returns (n: SListNode)
      requires Valid()
      ensures nodes != [] ==> n == nodes[0]
      ensures nodes == [] ==> fresh(n) && n.myList == null
    {
      if head == null {
        n := new SListNode(0, 0, 0, null, null);
      } else {
        n := head;
      }
    }
  }

  class SListNode {
    var item: int
    var x: int
    var y: int
    var next: SListNode?
    /** The list holding this node; null once the node is invalid. */
    var myList: SList?

    constructor (i: int, x: int, y: int, l: SList?, n: SListNode?)
      ensures item == i && this.x == x && this.y == y && myList == l && next == n
    {
      item, this.x, this.y, myList, next := i, x, y, l, n;
    }

    /** The node is invalid, or it is a node of l. */
    ghost predicate Member(l: SList)
      reads this, l, l.Repr
    {
      myList == null || (myList == l && l.Valid() && this in l.nodes)
    }

    /** valX: the x coordinate stored in the node, which for a node of a
        list is the x of its entry in the list's contents. */
    function ValX(ghost l: SList): (r: int)
      reads this, l, l.Repr
      requires Member(l)
      ensures myList != null ==> r == l.contents[l.IndexOf(this)].x
    {
      x
    }

    /** valY: the y coordinate stored in the node, which for a node of a
        list is the y of its entry in the list's contents. */
    function ValY(ghost l: SList): (r: int)
      reads this, l, l.Repr
      requires Member(l)
      ensures myList != null ==> r == l.contents[l.IndexOf(this)].y
    {
      y
    }

    /** next: the following node of the list, or a new invalid node after
        the last one; an invalid node fails. */
    method Next(ghost l: SList) returns (r: Result<SListNode>)
      requires Member(l)
      ensures myList == null <==> r == InvalidNode
      ensures myList != null && l.IndexOf(this) + 1 < |l.nodes| ==> r == Ok(l.nodes[l.IndexOf(this) + 1])
      ensures myList != null && l.IndexOf(this) + 1 == |l.nodes| ==> fresh(r.value) && r.value.myList == null
    {
      if myList == null {
        return InvalidNode;
      }
      if next == null {
        var node := new SListNode(0, 0, 0, myList, null);
        node.myList := null;
        return Ok(node);
      }
      return Ok(next);
    }

    /** prev: the node before this one, found by walking from the head, or
        a new invalid node before the head; an invalid node fails. */
    method Prev(ghost l: SList) returns (r: Result<SListNode>)
      requires Member(l)
      ensures myList == null <==> r == InvalidNode
      ensures myList != null && l.IndexOf(this) > 0 ==> r == Ok(l.nodes[l.IndexOf(this) - 1])
      ensures myList != null && l.IndexOf(this) == 0 ==> fresh(r.value) && r.value.myList == null
    {
      if myList == null {
        return InvalidNode;
      }
      var p := myList.head;
      if p == this {
        var node := new SListNode(0, 0, 0, myList, null);
        node.myList := null;
        return Ok(node);
      }
      ghost var k := l.IndexOf(this);
      ghost var i := 0;
      while p.next != this
        invariant 0 <= i < k && p == l.nodes[i]
        decreases k - i
      {
        p := p.next;
        i := i + 1;
      }
      assert l.nodes[i + 1] == this;
      return Ok(p);
    }

    /** insertAfter: a new node with the given entry right after this one;
        it becomes the tail when this node was the tail. An invalid node
        fails and nothing changes. */
    method InsertAfter(item: int, x: int, y: int, ghost l: SList) returns (r: Result<()>)
      requires Member(l)
      modifies l.Repr
      ensures old(myList) == null ==> r == InvalidNode && unchanged(old(l.Repr))
      ensures old(myList) != null ==> (r == Ok(()) && myList == l &&
        Grown(l, old(l.nodes), old(l.contents), old(l.IndexOf(this)) + 1, Entry(item, x, y)) &&
        fresh(l.nodes[old(l.IndexOf(this)) + 1]))
    {
      if myList == null {
        return InvalidNode;
      }
      ghost var k := l.IndexOf(this);
      ghost var ns, es := l.nodes, l.contents;
      var newNode := new SListNode(item, x, y, myList, next);
      if next == null {
        myList.tail := newNode;
      }
      next := newNode;
      myList.size := myList.size + 1;
      l.Relist(ns, es, k + 1, newNode);
      return Ok(());
    }

    /** insertBefore: a new node with the given entry right before this
        one; it becomes the head when this node was the head. An invalid
        node fails and nothing changes. */
    method InsertBefore(item: int, x: int, y: int, ghost l: SList) returns (r: Result<()>)
      requires Member(l)
      modifies l.Repr
      ensures old(myList) == null ==> r == InvalidNode && unchanged(old(l.Repr))
      ensures old(myList) != null ==> (r == Ok(()) && myList == l &&
        Grown(l, old(l.nodes), old(l.contents), old(l.IndexOf(this)), Entry(item, x, y)) &&
        fresh(l.nodes[old(l.IndexOf(this))]))
    {
      if myList == null {
        return InvalidNode;
      }
      if this == myList.head {
        InsertBeforeHead(item, x, y, l);
      } else {
        InsertBeforeInner(item, x, y, l);
      }
      return Ok(());
    }

    /** The head branch of insertBefore: the new node becomes the head. */
    method InsertBeforeHead(item: int, x: int, y: int, ghost l: SList)
      requires myList == l && l.Valid() && this in l.nodes && this == l.head
      modifies l.Repr
      ensures myList == l && old(l.IndexOf(this)) == 0
      ensures Grown(l, old(l.nodes), old(l.contents), 0, Entry(item, x, y)) && fresh(l.nodes[0])
    {
      ghost var ns, es := l.nodes, l.contents;
      var newNode := new SListNode(item, x, y, myList, this);
      myList.head := newNode;
      myList.size := myList.size + 1;
      l.Relist(ns, es, 0, newNode);
    }

    /** The other branch of insertBefore: the node found by prev now points
        to the new node. */
    method InsertBeforeInner(item: int, x: int, y: int, ghost l: SList)
      requires myList == l && l.Valid() && this in l.nodes && this != l.head
      modifies l.Repr
      ensures myList == l
      ensures Grown(l, old(l.nodes), old(l.contents), old(l.IndexOf(this)), Entry(item, x, y))
      ensures fresh(l.nodes[old(l.IndexOf(this))])
    {
      ghost var k := l.IndexOf(this);
      ghost var ns, es := l.nodes, l.contents;
      var newNode := new SListNode(item, x, y, myList, this);
      var before := Prev(l);
      assert before.value == ns[k - 1];
      before.value.next := newNode;
      myList.size := myList.size + 1;
      l.Relist(ns, es, k, newNode);
    }

    /** remove: unlinks this node, moving the head or the tail when it was
        one of them, and makes the node invalid. An invalid node fails and
        nothing changes. */
    method Remove(ghost l: SList) returns (r: Result<()>)
      requires Member(l)
      modifies l.Repr
      ensures old(myList) == null ==> r == InvalidNode && unchanged(old(l.Repr))
      ensures old(myList) != null ==> (r == Ok(()) && myList == null && next == null &&
        Shrunk(l, old(l.nodes), old(l.contents), old(l.IndexOf(this))))
    {
      if myList == null {
        return InvalidNode;
      }
      if this == myList.head {
        RemoveHead(l);
      } else {
        RemoveInner(l);
      }
      return Ok(());
    }

    /** The head branch of remove: the head moves to the next node. */
    method RemoveHead(ghost l: SList)
      requires myList == l && l.Valid() && this in l.nodes && this == l.head
      modifies l.Repr
      ensures old(l.IndexOf(this)) == 0
      ensures myList == null && next == null && Shrunk(l, old(l.nodes), old(l.contents), 0)
    {
      ghost var ns, es := l.nodes, l.contents;
      assert next == if 1 < |ns| then ns[1] else null;
      myList.head := next;
      if next == null {
        myList.tail := null;
      }
      myList.size := myList.size - 1;
      ghost var succ := next;
      myList := null;
      next := null;
      l.Delist(ns, es, 0, succ);
    }

    /** The other branch of remove: the node found by prev skips this one,
        and becomes the tail when this node was the tail. */
    method RemoveInner(ghost l: SList)
      requires myList == l && l.Valid() && this in l.nodes && this != l.head
      modifies l.Repr
      ensures myList == null && next == null && Shrunk(l, old(l.nodes), old(l.contents), old(l.IndexOf(this)))
    {
      ghost var k := l.IndexOf(this);
      ghost var ns, es := l.nodes, l.contents;
      assert next == if k + 1 < |ns| then ns[k + 1] else null;
      var before := Prev(l);
      assert before.value == ns[k - 1];
      before.value.next := next;
      if next == null {
        myList.tail := before.value;
      }
      myList.size := myList.size - 1;
      ghost var succ := next;
      myList := null;
      next := null;
      l.Delist(ns, es, k, succ);
    }
  }

  /** l holds its former nodes ns with one new node, storing entry e,
      linked in at position j. */
  ghost predicate Grown(l: SList, ns: seq<SListNode>, es: seq<Entry>, j: int, e: Entry)
    reads l, l.Repr
  {
    l.Valid() && 0 <= j <= |ns| && |es| == |ns| && |l.nodes| == |ns| + 1 &&
    l.nodes == ns[..j] + [l.nodes[j]] + ns[j..] && l.contents == es[..j] + [e] + es[j..]
  }

  /** l holds its former nodes ns except the one at position j. */
  ghost predicate Shrunk(l: SList, ns: seq<SListNode>, es: seq<Entry>, j: int)
    reads l, l.Repr
  {
    l.Valid() && 0 <= j < |ns| && |es| == |ns| &&
    l.nodes == ns[..j] + ns[j + 1..] && l.contents == es[..j] + es[j + 1..]
  }

  /** Where head, tail and size end up after a node is linked in at
      position j: the new node is the head when j is 0 and the tail when j
      is past the last node; otherwise they stay where they were. */
  lemma GrownEnds(l: SList, ns: seq<SListNode>, es: seq<Entry>, j: int, e: Entry)
    requires Grown(l, ns, es, j, e)
    ensures l.size == |ns| + 1
    ensures l.head == (if j == 0 then l.nodes[j] else ns[0])
    ensures l.tail == (if j == |ns| then l.nodes[j] else ns[|ns| - 1])
  {
  }

  /** Where head, tail and size end up after the node at position j is
      unlinked: the head moves to its successor when it was the head, the
      tail to its predecessor when it was the tail, and an emptied list
      has neither. */
  lemma ShrunkEnds(l: SList, ns: seq<SListNode>, es: seq<Entry>, j: int)
    requires Shrunk(l, ns, es, j)
    ensures l.size == |ns| - 1
    ensures l.head == (if j > 0 then ns[0] else if |ns| > 1 then ns[1] else null)
    ensures l.tail == (if j < |ns| - 1 then ns[|ns| - 1] else if j > 0 then ns[j - 1] else null)
  {
  }

  /** Removing the node that was just linked in gives back the former
      nodes and entries. */
  lemma GrownThenShrunk(l: SList, ns: seq<SListNode>, es: seq<Entry>, j: int, e: Entry)
    requires Grown(l, ns, es, j, e)
    ensures l.nodes[..j] + l.nodes[j + 1..] == ns
    ensures l.contents[..j] + l.contents[j + 1..] == es
  {
  }

  /** Linking the removed entry back in at the same position gives back the
      former entries. */
  lemma ShrunkThenGrown(l: SList, ns: seq<SListNode>, es: seq<Entry>, j: int)
    requires Shrunk(l, ns, es, j)
    ensures l.contents[..j] + [es[j]] + l.contents[j..] == es
    ensures l.nodes[..j] + [ns[j]] + l.nodes[j..] == ns
  {
  }

  /** Every node of ns is in the footprint repr. */
  ghost predicate Within(ns: seq<SListNode>, repr: set<object>)
  {
    forall i :: 0 <= i < |ns| ==> ns[i] in repr
  }

  /** The facts about the nodes ns of list l that hold before and after
      linking a node in or out, other than the links themselves: every node
      other than the one at position x belongs to l, every node is listed
      once and stores the matching entry of es. */
  ghost predicate Owned(l: SList, ns: seq<SListNode>, es: seq<Entry>, x: int)
    reads ns
  {
    |es| == |ns| &&
    (forall i :: 0 <= i < |ns| && i != x ==> ns[i].myList == l) &&
    (forall i :: 0 <= i < |ns| ==> es[i] == Entry(ns[i].item, ns[i].x, ns[i].y)) &&
    (forall i, k :: 0 <= i < k < |ns| ==> ns[i] != ns[k])
  }

  /** The nodes ns are linked through next in order, except that the
      nodes at positions a and b may point elsewhere. */
  ghost predicate Linked(ns: seq<SListNode>, a: int, b: int)
    reads ns
  {
    forall i {:trigger ns[i].next} :: 0 <= i < |ns| - 1 && i != a && i != b ==> ns[i].next == ns[i + 1]
  }

  /** A list is well formed once node n is linked in at position j of its
      former nodes ns: the node before it (if any) points to n, and n
      points to the node that was at j. */
  lemma Inserted(l: SList, ns: seq<SListNode>, es: seq<Entry>, j: nat, n: SListNode)
    requires Owned(l, ns, es, -1) && Within(ns, l.Repr) && Linked(ns, j - 1, j - 1) && j <= |ns| && l in l.Repr
    requires n in l.Repr && n !in ns && n.myList == l && n.next == (if j < |ns| then ns[j] else null)
    requires j > 0 ==> ns[j - 1].next == n
    requires j < |ns| ==> ns[|ns| - 1].next == null
    requires l.nodes == ns[..j] + [n] + ns[j..] && l.contents == es[..j] + [Entry(n.item, n.x, n.y)] + es[j..]
    requires l.size == |ns| + 1
    requires l.head == (if j == 0 then n else ns[0])
    requires l.tail == (if j == |ns| then n else ns[|ns| - 1])
    ensures l.Valid()
  {
    forall i | 0 <= i < |l.nodes|
      ensures i < j ==> l.nodes[i] == ns[i] && l.contents[i] == es[i]
      ensures i == j ==> l.nodes[i] == n
      ensures i > j ==> l.nodes[i] == ns[i - 1] && l.contents[i] == es[i - 1]
    {
    }
    forall i | 0 <= i < |l.nodes| - 1
      ensures l.nodes[i].next == l.nodes[i + 1]
    {
      if i + 1 < j || i > j {
        assert l.nodes[i + 1] == ns[i + 1 - (if i + 1 < j then 0 else 1)];
      }
    }
    assert l.nodes[|l.nodes| - 1] == if j == |ns| then n else ns[|ns| - 1];
  }

  /** A list is well formed once the node at position j of its former
      nodes ns is unlinked: the node before it (if any) points to its
      successor, and head and tail move past it. */
  lemma Removed(l: SList, ns: seq<SListNode>, es: seq<Entry>, j: nat, succ: SListNode?)
    requires Owned(l, ns, es, j) && j < |ns| && l in l.Repr && Within(ns, l.Repr + {ns[j]})
    requires Linked(ns, j - 1, j) && succ == (if j + 1 < |ns| then ns[j + 1] else null)
    requires j > 0 ==> ns[j - 1].next == succ
    requires j + 1 < |ns| ==> ns[|ns| - 1].next == null
    requires l.nodes == ns[..j] + ns[j + 1..] && l.contents == es[..j] + es[j + 1..]
    requires l.size == |ns| - 1
    requires l.head == (if j == 0 then succ else ns[0])
    requires l.tail == (if j == |ns| - 1 then (if j == 0 then null else ns[j - 1]) else ns[|ns| - 1])
    ensures l.Valid()
  {
    forall i | 0 <= i < |l.nodes|
      ensures i < j ==> l.nodes[i] == ns[i] && l.contents[i] == es[i]
      ensures i >= j ==> l.nodes[i] == ns[i + 1] && l.contents[i] == es[i + 1]
    {
    }
    forall i | 0 <= i < |l.nodes| - 1
      ensures l.nodes[i].next == l.nodes[i + 1]
    {
      if i + 1 < j {
        assert l.nodes[i + 1] == ns[i + 1];
      } else if i >= j {
        assert l.nodes[i + 1] == ns[i + 2];
      }
    }
    if l.nodes != [] {
      assert l.nodes[|l.nodes| - 1] == if j == |ns| - 1 then ns[j - 1] else ns[|ns| - 1];
    }
  }
}
