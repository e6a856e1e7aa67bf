/**
 The singly linked list with a head pointer, a tail pointer and a cached size,
 whose nodes are obtained from and returned to the allocator slots of its own
 translation unit.

 The C functions take a possibly NULL `struct linked_list *`; here they are
 module-level methods over `LinkedList?`, so that each NULL-handle path is part
 of the model. The list's ghost fields `nodes` and `contents` give the chain
 reachable from `head` and the payloads along it.
 */
module Lists {
  import opened Allocators
  import opened Sequences

  /** The payload type, C's `unsigned int`. */
  newtype u32 = x: int | 0 <= x < 0x1_0000_0000

  /** C's `SIZE_MAX`: the value `size` and `find` return for "no list" or "not found". */
  const SIZE_MAX: nat := 0xFFFF_FFFF_FFFF_FFFF

  class Node {
    var data: u32
    var next: Node?

    constructor (data: u32)
      ensures this.data == data && next == null
    {
      this.data := data;
      next := null;
    }
  }

  class LinkedList {
    var head: Node?
    var tail: Node?
    var size: nat
    ghost var nodes: seq<Node>
    ghost var contents: seq<u32>

    constructor ()
      ensures head == null && tail == null && size == 0
      ensures nodes == [] && contents == []
    {
      head, tail, size := null, null, 0;
      nodes, contents := [], [];
    }

    /**
     The chain from `head` is exactly `nodes`, ending in NULL; `contents`
     holds their payloads and `size` their number.
     */
    ghost predicate Valid()
      reads this, nodes
    {
      && size == |nodes| == |contents|
      && size < SIZE_MAX
      && head == (if |nodes| == 0 then null else nodes[0])
      && (forall i :: 0 <= i < |nodes| ==> nodes[i].data == contents[i])
      && (forall i {:trigger nodes[i].next} :: 0 <= i < |nodes| - 1 ==> nodes[i].next == nodes[i + 1])
      && (|nodes| > 0 ==> nodes[|nodes| - 1].next == null)
    }

    /** `tail` is the last node, and NULL exactly when the list is empty. */
    ghost predicate TailOK()
      reads this
    {
      tail == if |nodes| == 0 then null else nodes[|nodes| - 1]
    }
  }

  /** A valid chain visits no node twice: it would otherwise never reach NULL. */
  lemma {:induction false} NoRepeats(ll: LinkedList, i: nat, j: nat)
    requires ll.Valid()
    requires i < j < |ll.nodes|
    ensures ll.nodes[i] != ll.nodes[j]
    decreases |ll.nodes| - j
  {
    assert ll.nodes[i].next == ll.nodes[i + 1];
    if j + 1 < |ll.nodes| {
      assert ll.nodes[j].next == ll.nodes[j + 1];
      NoRepeats(ll, i + 1, j + 1);
    }
  }

  /** `create_node`: a fresh node holding `data`, or NULL when allocation fails. */
  method CreateNode(reg: Allocator, data: u32, mem: bool) returns (n: Node?)
    modifies reg
    ensures n == null <==> !old(reg.CanAlloc(mem))
    ensures n != null ==> fresh(n) && n.data == data && n.next == null
    ensures reg.allocLog == old(reg.allocLog) + (if n == null then [] else [n])
    ensures reg.mallocFn == old(reg.mallocFn) && reg.freeFn == old(reg.freeFn)
    ensures reg.freeLog == old(reg.freeLog)
  {
    if reg.mallocFn == Null {
      return null;
    }
    if !mem {
      return null;
    }
    n := new Node(data);
    reg.RecordAlloc(n);
  }

  /** `linked_list_create`: a fresh empty list, or NULL when allocation fails. */
  method Create(reg: Allocator, mem: bool) returns (ll: LinkedList?)
    modifies reg
    ensures ll == null <==> !old(reg.CanAlloc(mem))
    ensures ll != null ==> fresh(ll) && ll.Valid() && ll.TailOK()
    ensures ll != null ==> ll.head == null && ll.tail == null && ll.size == 0 && ll.contents == []
    ensures reg.allocLog == old(reg.allocLog) + (if ll == null then [] else [ll])
    ensures reg.mallocFn == old(reg.mallocFn) && reg.freeFn == old(reg.freeFn)
    ensures reg.freeLog == old(reg.freeLog)
  {
    if reg.mallocFn == Null {
      return null;
    }
    if !mem {
      return null;
    }
    ll := new LinkedList();
    reg.RecordAlloc(ll);
  }

  /**
   `linked_list_delete`: frees every node from head to tail, in order, and then
   the list itself.
   */
  method Delete(ll: LinkedList?, reg: Allocator) returns (ok: bool)
    requires ll != null ==> ll.Valid()
    modifies reg
    ensures ok <==> ll != null && old(reg.freeFn) != Null
    ensures reg.freeLog == if ok then old(reg.freeLog) + ll.nodes + [ll] else old(reg.freeLog)
    ensures reg.mallocFn == old(reg.mallocFn) && reg.freeFn == old(reg.freeFn)
    ensures reg.allocLog == old(reg.allocLog)
  {
    if ll == null || reg.freeFn == Null {
      return false;
    }
    var curr := ll.head;
    ghost var k := 0;
    while curr != null
      invariant 0 <= k <= |ll.nodes|
      invariant curr == if k < |ll.nodes| then ll.nodes[k] else null
      invariant reg.freeLog == old(reg.freeLog) + ll.nodes[..k]
      invariant reg.mallocFn == old(reg.mallocFn) && reg.freeFn == old(reg.freeFn)
      invariant reg.allocLog == old(reg.allocLog)
      decreases |ll.nodes| - k
    {
      var next := curr.next;
      reg.Free(curr);
      curr := next;
      k := k + 1;
    }
    assert ll.nodes[..k] == ll.nodes;
    reg.Free(ll);
    return true;
  }

  /** `linked_list_size`: the number of elements, or `SIZE_MAX` for a NULL list. */
  function Size(ll: LinkedList?): (r: nat)
    requires ll != null ==> ll.Valid()
    reads ll, if ll != null then ll.nodes else []
    ensures ll == null ==> r == SIZE_MAX
    ensures ll != null ==> r == |ll.contents| && r != SIZE_MAX
  {
    if ll == null then SIZE_MAX else ll.size
  }

  /**
   `linked_list_insert_end`. A non-empty list must have a valid tail: the code
   writes through `tail` once the list is non-empty.
   */
  method InsertEnd(ll: LinkedList?, data: u32, reg: Allocator, mem: bool) returns (ok: bool)
    requires ll != null ==> ll.Valid() && ll.size + 1 < SIZE_MAX
    requires ll != null && ll.head != null ==> ll.TailOK()
    modifies reg, ll, if ll != null then ll.nodes else []
    ensures ok <==> ll != null && old(reg.CanAlloc(mem))
    ensures ll != null ==> ll.Valid()
    ensures ok ==> ll.contents == old(ll.contents) + [data] && ll.size == old(ll.size) + 1
    ensures ok ==> fresh(ll.tail) && ll.tail != null && ll.nodes == old(ll.nodes) + [ll.tail]
    ensures ok ==> ll.TailOK()
    ensures ll != null && !ok ==> unchanged(ll) && ll.nodes == old(ll.nodes)
    ensures reg.allocLog == old(reg.allocLog) + (if ok then [ll.tail] else [])
    ensures reg.mallocFn == old(reg.mallocFn) && reg.freeFn == old(reg.freeFn)
    ensures reg.freeLog == old(reg.freeLog)
  {
    if ll == null {
      return false;
    }
    var newNode := CreateNode(reg, data, mem);
    if newNode == null {
      return false;
    }
    if ll.head == null {
      ll.head := newNode;
      ll.tail := newNode;
    } else {
      forall k | 0 <= k < |ll.nodes| - 1
        ensures ll.nodes[k] != ll.tail
      {
        NoRepeats(ll, k, |ll.nodes| - 1);
      }
      ll.tail.next := newNode;
      ll.tail := newNode;
    }
    ll.size := ll.size + 1;
    ll.nodes := ll.nodes + [newNode];
    ll.contents := ll.contents + [data];
    return true;
  }

  /**
   `linked_list_insert_front`. The tail is set to the new node only when it was
   NULL, so a list whose tail was lost gets its new head as tail.
   */
  method InsertFront(ll: LinkedList?, data: u32, reg: Allocator, mem: bool) returns (ok: bool)
    requires ll != null ==> ll.Valid() && ll.size + 1 < SIZE_MAX
    modifies reg, ll
    ensures ok <==> ll != null && old(reg.CanAlloc(mem))
    ensures ll != null ==> ll.Valid()
    ensures ok ==> ll.contents == [data] + old(ll.contents) && ll.size == old(ll.size) + 1
    ensures ok ==> fresh(ll.head) && ll.head != null && ll.nodes == [ll.head] + old(ll.nodes)
    ensures ok ==> ll.tail == if old(ll.tail) == null then ll.head else old(ll.tail)
    ensures ok && old(ll.TailOK()) ==> ll.TailOK()
    ensures ll != null && !ok ==> unchanged(ll)
    ensures reg.allocLog == old(reg.allocLog) + (if ok then [ll.head] else [])
    ensures reg.mallocFn == old(reg.mallocFn) && reg.freeFn == old(reg.freeFn)
    ensures reg.freeLog == old(reg.freeLog)
  {
    if ll == null || reg.mallocFn == Null {
      return false;
    }
    var newNode := CreateNode(reg, data, mem);
    if newNode == null {
      return false;
    }
    newNode.next := ll.head;
    ll.head := newNode;
    if ll.tail == null {
      ll.tail := newNode;
    }
    ll.size := ll.size + 1;
    ll.nodes := [newNode] + ll.nodes;
    ll.contents := [data] + ll.contents;
    return true;
  }

  /**
   `linked_list_insert`: index 0 is a front insertion, index `size` an end
   insertion, and any index in between splices a new node after the node at
   `index - 1`.
   */
  method Insert(ll: LinkedList?, index: nat, data: u32, reg: Allocator, mem: bool) returns (ok: bool)
    requires ll != null ==> ll.Valid() && ll.size + 1 < SIZE_MAX
    requires ll != null && 0 < index == ll.size ==> ll.TailOK()
    modifies reg, ll, if ll != null then ll.nodes else []
    ensures ok <==> ll != null && index <= old(ll.size) && old(reg.CanAlloc(mem))
    ensures ll != null ==> ll.Valid()
    ensures ok ==> ll.contents == InsertAt(old(ll.contents), index, data) && ll.size == old(ll.size) + 1
    ensures ok ==> fresh(ll.nodes[index]) && ll.nodes == InsertAt(old(ll.nodes), index, ll.nodes[index])
    ensures ok ==> ll.tail == if index == 0 && old(ll.tail) == null then ll.nodes[0]
                              else if 0 < index == old(ll.size) then ll.nodes[index]
                              else old(ll.tail)
    ensures ok && old(ll.TailOK()) ==> ll.TailOK()
    ensures ll != null && !ok ==> unchanged(ll) && ll.nodes == old(ll.nodes)
    ensures reg.allocLog == old(reg.allocLog) + (if ok then [ll.nodes[index]] else [])
    ensures reg.mallocFn == old(reg.mallocFn) && reg.freeFn == old(reg.freeFn)
    ensures reg.freeLog == old(reg.freeLog)
  {
    if ll == null || index > ll.size || reg.mallocFn == Null {
      return false;
    }
    if index == 0 {
      InsertAtEnds(ll.contents, data);
      ok := InsertFront(ll, data, reg, mem);
      if ok {
        InsertAtEnds(old(ll.nodes), ll.nodes[0]);
      }
      return;
    }
    if index == ll.size {
      InsertAtEnds(ll.contents, data);
      ok := InsertEnd(ll, data, reg, mem);
      if ok {
        InsertAtEnds(old(ll.nodes), ll.nodes[index]);
      }
      return;
    }
    var prev := ll.head;
    for i := 0 to index - 1
      invariant prev == ll.nodes[i]
    {
      prev := prev.next;
    }
    var curr := CreateNode(reg, data, mem);
    if curr == null {
      return false;
    }
    SpliceAfter(ll, index, prev, curr);
    return true;
  }

  /** Links the fresh node `curr` in after `prev`, the node at `index - 1`. */
  method SpliceAfter(ll: LinkedList, index: nat, prev: Node, curr: Node)
    requires ll.Valid() && ll.size + 1 < SIZE_MAX
    requires 0 < index < ll.size && prev == ll.nodes[index - 1]
    requires curr !in ll.nodes && curr.next == null
    modifies ll, prev, curr
    ensures ll.Valid()
    ensures ll.contents == InsertAt(old(ll.contents), index, curr.data) && ll.size == old(ll.size) + 1
    ensures ll.nodes == InsertAt(old(ll.nodes), index, curr)
    ensures ll.head == old(ll.head) && ll.tail == old(ll.tail)
    ensures curr.data == old(curr.data)
  {
    ghost var n0 := ll.nodes;
    forall k | 0 <= k < |n0| && k != index - 1
      ensures n0[k] != prev
    {
      if k < index - 1 {
        NoRepeats(ll, k, index - 1);
      } else {
        NoRepeats(ll, index - 1, k);
      }
    }
    curr.next := prev.next;
    prev.next := curr;
    ll.size := ll.size + 1;
    ll.nodes := InsertAt(ll.nodes, index, curr);
    ll.contents := InsertAt(ll.contents, index, curr.data);
    forall k | 0 <= k < |ll.nodes|
      ensures ll.nodes[k] == if k < index then n0[k] else if k == index then curr else n0[k - 1]
    {
      InsertAtIndex(n0, index, curr, k);
    }
    forall k | 0 <= k < |ll.contents|
      ensures ll.contents[k] == ll.nodes[k].data
    {
      InsertAtIndex(old(ll.contents), index, curr.data, k);
    }
  }

  /**
   `linked_list_find`: the position of the first node holding `data`, or
   `SIZE_MAX` when there is none or the list is NULL. Nothing is changed.
   */
  method Find(ll: LinkedList?, data: u32) returns (r: nat)
    requires ll != null ==> ll.Valid()
    ensures ll == null ==> r == SIZE_MAX
    ensures ll != null && data in ll.contents ==>
              r < |ll.contents| && ll.contents[r] == data && data !in ll.contents[..r]
    ensures ll != null && data !in ll.contents ==> r == SIZE_MAX
  {
    if ll == null {
      return SIZE_MAX;
    }
    var i := 0;
    var curr := ll.head;
    while curr != null
      invariant 0 <= i <= |ll.nodes|
      invariant curr == if i < |ll.nodes| then ll.nodes[i] else null
      invariant data !in ll.contents[..i]
      decreases |ll.nodes| - i
    {
      if curr.data == data {
        return i;
      }
      curr := curr.next;
      i := i + 1;
    }
    assert ll.contents[..i] == ll.contents;
    return SIZE_MAX;
  }

  /** Unlinks the node after `prev`, the node at `index - 1`, and returns it. */
  method UnlinkAfter(ll: LinkedList, index: nat, prev: Node) returns (curr: Node)
    requires ll.Valid()
    requires 0 < index < ll.size && prev == ll.nodes[index - 1]
    modifies ll, prev
    ensures ll.Valid()
    ensures curr == old(ll.nodes[index])
    ensures ll.contents == RemoveAt(old(ll.contents), index) && ll.size == old(ll.size) - 1
    ensures ll.nodes == RemoveAt(old(ll.nodes), index)
    ensures prev.next == null <==> index == ll.size
    ensures ll.head == old(ll.head) && ll.tail == old(ll.tail)
  {
    ghost var n0 := ll.nodes;
    forall k | 0 <= k < |n0| && k != index - 1
      ensures n0[k] != prev
    {
      if k < index - 1 {
        NoRepeats(ll, k, index - 1);
      } else {
        NoRepeats(ll, index - 1, k);
      }
    }
    assert prev.next == n0[index];
    curr := prev.next;
    assert curr.next == if index + 1 < |n0| then n0[index + 1] else null;
    prev.next := curr.next;
    ll.size := ll.size - 1;
    ll.nodes := RemoveAt(ll.nodes, index);
    ll.contents := RemoveAt(ll.contents, index);
    forall k | 0 <= k < |ll.nodes|
      ensures ll.nodes[k] == if k < index then n0[k] else n0[k + 1]
    {
      RemoveAtIndex(n0, index, k);
    }
    forall k | 0 <= k < |ll.contents|
      ensures ll.contents[k] == ll.nodes[k].data
    {
      RemoveAtIndex(old(ll.contents), index, k);
    }
  }

  /** Unlinks the head node, promoting its successor, and returns it. */
  method UnlinkHead(ll: LinkedList) returns (curr: Node)
    requires ll.Valid() && ll.head != null
    modifies ll
    ensures ll.Valid()
    ensures curr == old(ll.nodes[0])
    ensures ll.contents == RemoveAt(old(ll.contents), 0) && ll.size == old(ll.size) - 1
    ensures ll.nodes == RemoveAt(old(ll.nodes), 0)
    ensures ll.head == null <==> ll.size == 0
    ensures ll.tail == old(ll.tail)
  {
    curr := ll.head;
    ll.head := ll.head.next;
    ll.size := ll.size - 1;
    ll.nodes := ll.nodes[1..];
    ll.contents := ll.contents[1..];
    RemoveAtFront(old(ll.nodes));
    RemoveAtFront(old(ll.contents));
  }

  /**
   `linked_list_remove`, as the code is written: removing the last node at an
   index of at least 1 leaves `tail` NULL although the list is not empty.
   */
  method Remove(ll: LinkedList?, index: nat, reg: Allocator) returns (ok: bool)
    requires ll != null ==> ll.Valid()
    modifies reg, ll, if ll != null then ll.nodes else []
    ensures ok <==> ll != null && old(ll.head) != null && old(reg.freeFn) != Null && index < old(ll.size)
    ensures ll != null ==> ll.Valid()
    ensures ok ==> ll.contents == RemoveAt(old(ll.contents), index) && ll.size == old(ll.size) - 1
    ensures ok ==> ll.nodes == RemoveAt(old(ll.nodes), index)
    ensures ok ==> reg.freeLog == old(reg.freeLog) + [old(ll.nodes[index])]
    ensures ok && index == 0 ==> ll.tail == if ll.size == 0 then null else old(ll.tail)
    ensures ok && 0 < index ==> ll.tail == if index == ll.size then null else old(ll.tail)
    ensures ok && old(ll.TailOK()) && (index == 0 || index < ll.size) ==> ll.TailOK()
    ensures ok && 0 < index == ll.size ==> ll.head != null && !ll.TailOK()
    ensures ll != null && !ok ==> unchanged(ll) && ll.nodes == old(ll.nodes)
    ensures !ok ==> reg.freeLog == old(reg.freeLog)
    ensures reg.mallocFn == old(reg.mallocFn) && reg.freeFn == old(reg.freeFn)
    ensures reg.allocLog == old(reg.allocLog)
  {
    if ll == null || ll.head == null || reg.freeFn == Null || index >= ll.size {
      return false;
    }
    var curr: Node;
    if index == 0 {
      curr := UnlinkHead(ll);
      if ll.head == null {
        ll.tail := null;
      }
    } else {
      var prev := ll.head;
      for i := 0 to index - 1
        invariant prev == ll.nodes[i]
      {
        prev := prev.next;
      }
      curr := UnlinkAfter(ll, index, prev);
      if prev.next == null {
        ll.tail := null;
      }
    }
    reg.Free(curr);
    return true;
  }

  /**
   `linked_list_remove` with the tail repaired: after unlinking the last node
   the tail becomes the node before it, so a valid tail stays valid.
   */
  method RemoveCorrected(ll: LinkedList?, index: nat, reg: Allocator) returns (ok: bool)
    requires ll != null ==> ll.Valid()
    modifies reg, ll, if ll != null then ll.nodes else []
    ensures ok <==> ll != null && old(ll.head) != null && old(reg.freeFn) != Null && index < old(ll.size)
    ensures ll != null ==> ll.Valid()
    ensures ok ==> ll.contents == RemoveAt(old(ll.contents), index) && ll.size == old(ll.size) - 1
    ensures ok ==> ll.nodes == RemoveAt(old(ll.nodes), index)
    ensures ok ==> reg.freeLog == old(reg.freeLog) + [old(ll.nodes[index])]
    ensures ok ==> ll.tail == if ll.size == 0 then null
                             else if 0 < index == ll.size then ll.nodes[index - 1]
                             else old(ll.tail)
    ensures ok && old(ll.TailOK()) ==> ll.TailOK()
    ensures ll != null && !ok ==> unchanged(ll) && ll.nodes == old(ll.nodes)
    ensures !ok ==> reg.freeLog == old(reg.freeLog)
    ensures reg.mallocFn == old(reg.mallocFn) && reg.freeFn == old(reg.freeFn)
    ensures reg.allocLog == old(reg.allocLog)
  {
    if ll == null || ll.head == null || reg.freeFn == Null || index >= ll.size {
      return false;
    }
    var curr: Node;
    if index == 0 {
      curr := UnlinkHead(ll);
      if ll.head == null {
        ll.tail := null;
      }
    } else {
      var prev := ll.head;
      for i := 0 to index - 1
        invariant prev == ll.nodes[i]
      {
        prev := prev.next;
      }
      curr := UnlinkAfter(ll, index, prev);
      if prev.next == null {
        ll.tail := prev;
      }
    }
    reg.Free(curr);
    return true;
  }

  /**
   A forward cursor over a list: the list, the current node, its position and
   a copy of its payload. It owns neither the list nor the node.
   */
  class Iterator {
    var ll: LinkedList?
    var currentIndex: nat
    var currentNode: Node?
    var data: u32

    constructor (ll: LinkedList, currentIndex: nat, currentNode: Node, data: u32)
      ensures this.ll == ll && this.currentIndex == currentIndex
      ensures this.currentNode == currentNode && this.data == data
    {
      this.ll := ll;
      this.currentIndex := currentIndex;
      this.currentNode := currentNode;
      this.data := data;
    }

    /** The cursor stands on node `currentIndex` of a valid list and caches its payload. */
    ghost predicate Valid()
      reads this, ll, if ll != null then ll.nodes else []
    {
      && ll != null
      && ll.Valid()
      && currentIndex < |ll.nodes|
      && currentNode == ll.nodes[currentIndex]
      && data == ll.contents[currentIndex]
    }
  }

  /**
   `linked_list_create_iterator`: a cursor on the node at `index`, or NULL
   for a NULL list, an index past the end or a failed allocation.
   */
  method CreateIterator(ll: LinkedList?, index: nat, reg: Allocator, mem: bool) returns (itr: Iterator?)
    requires ll != null ==> ll.Valid()
    modifies reg
    ensures itr != null <==> ll != null && index < ll.size && old(reg.CanAlloc(mem))
    ensures itr != null ==> fresh(itr) && itr.Valid() && itr.ll == ll
    ensures itr != null ==> itr.currentIndex == index && itr.data == ll.contents[index]
    ensures reg.allocLog == old(reg.allocLog) + (if itr == null then [] else [itr])
    ensures reg.mallocFn == old(reg.mallocFn) && reg.freeFn == old(reg.freeFn)
    ensures reg.freeLog == old(reg.freeLog)
  {
    if ll == null || reg.mallocFn == Null || index >= ll.size {
      return null;
    }
    if !mem {
      return null;
    }
    var curr := ll.head;
    for i := 0 to index
      invariant curr == ll.nodes[i]
    {
      curr := curr.next;
    }
    itr := new Iterator(ll, index, curr, curr.data);
    reg.RecordAlloc(itr);
  }

  /** `linked_list_delete_iterator`: frees the cursor and nothing else. */
  method DeleteIterator(itr: Iterator?, reg: Allocator) returns (ok: bool)
    modifies reg
    ensures ok <==> itr != null && old(reg.freeFn) != Null
    ensures reg.freeLog == old(reg.freeLog) + (if ok then [itr] else [])
    ensures reg.mallocFn == old(reg.mallocFn) && reg.freeFn == old(reg.freeFn)
    ensures reg.allocLog == old(reg.allocLog)
  {
    if itr == null || reg.freeFn == Null {
      return false;
    }
    reg.Free(itr);
    return true;
  }

  /**
   `linked_list_iterate`: moves the cursor one node forward, or fails and
   leaves it where it is when it stands on the last node.
   */
  method Iterate(itr: Iterator?) returns (ok: bool)
    requires itr != null ==> itr.Valid()
    modifies itr
    ensures itr != null ==> itr.Valid() && itr.ll == old(itr.ll)
    ensures ok <==> itr != null && old(itr.currentIndex) + 1 < |itr.ll.nodes|
    ensures ok ==> itr.currentIndex == old(itr.currentIndex) + 1
    ensures ok ==> itr.data == itr.ll.contents[itr.currentIndex]
    ensures itr != null && !ok ==> unchanged(itr)
  {
    if itr != null {
      assert itr.currentIndex + 1 < |itr.ll.nodes| ==> itr.ll.nodes[itr.currentIndex].next == itr.ll.nodes[itr.currentIndex + 1];
    }
    if itr == null || itr.ll == null || itr.currentNode == null || itr.currentNode.next == null {
      return false;
    }
    itr.currentNode := itr.currentNode.next;
    itr.data := itr.currentNode.data;
    itr.currentIndex := itr.currentIndex + 1;
    return true;
  }

  /**
   The list [1, 2] with its second element removed: the list is not empty, its
   tail is NULL, and so `InsertEnd`'s precondition no longer holds.
   */
  method LostTailExample(reg: Allocator) returns (ll: LinkedList)
    requires reg.mallocFn != Null && reg.freeFn != Null
    modifies reg
    ensures fresh(ll)
    ensures ll.Valid() && ll.contents == [1]
    ensures ll.head != null && ll.tail == null && !ll.TailOK()
    ensures reg.mallocFn == old(reg.mallocFn) && reg.freeFn == old(reg.freeFn)
  {
    var l := Create(reg, true);
    ll := l;
    var ok := InsertEnd(ll, 1, reg, true);
    ok := InsertEnd(ll, 2, reg, true);
    assert ll.contents == [1, 2];
    ok := Remove(ll, 1, reg);
    assert ok;
    assert RemoveAt<u32>([1, 2], 1) == [1];
  }

  /**
   A front insertion on the list `LostTailExample` leaves behind: the tail was
   NULL, so it becomes the new head although that is not the last node. The
   list [0, 1] then has a non-NULL tail standing on its first node, and an end
   insertion would link the new node after the head, cutting 1 off the chain.
   */
  method StaleTailExample(reg: Allocator) returns (ll: LinkedList)
    requires reg.mallocFn != Null && reg.freeFn != Null
    modifies reg
    ensures fresh(ll)
    ensures ll.Valid() && ll.contents == [0, 1]
    ensures ll.tail == ll.nodes[0] && ll.tail != ll.nodes[1] && !ll.TailOK()
    ensures reg.mallocFn == old(reg.mallocFn) && reg.freeFn == old(reg.freeFn)
  {
    ll := LostTailExample(reg);
    var ok := InsertFront(ll, 0, reg, true);
    assert ok;
  }

  /**
   On the list [5, 6, 7], inserting 99 at index 1 gives [5, 99, 6, 7], where 6
   is then found at index 2 and 99 at index 1.
   */
  method InsertFindExample(ll: LinkedList, reg: Allocator) returns (at6: nat, at99: nat)
    requires ll.Valid() && ll.contents == [5, 6, 7] && reg.mallocFn != Null
    modifies reg, ll, ll.nodes
    ensures ll.Valid() && ll.contents == [5, 99, 6, 7]
    ensures at6 == 2 && at99 == 1
  {
    var ok := Insert(ll, 1, 99, reg, true);
    assert InsertAt<u32>([5, 6, 7], 1, 99) == [5, 99, 6, 7];
    assert ll.contents[..3] == [5, 99, 6] && ll.contents[..1] == [5];
    at6 := Find(ll, 6);
    at99 := Find(ll, 99);
  }
}
