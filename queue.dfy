/**
 The queue of queue.c: one linked list as backing store, pushed at its tail.
 queue.c keeps its own pair of allocator slots, distinct from those of
 linked_list.c, so each operation here is given both allocators.
 */
module Queues {
  import opened Allocators
  import Lists

  class Queue {
    var ll: Lists.LinkedList?

    constructor ()
      ensures ll == null
    {
      ll := null;
    }

    /** The backing list exists, is valid and has a valid tail. */
    ghost predicate Valid()
      reads this, ll, if ll != null then ll.nodes else []
    {
      ll != null && ll.Valid() && ll.TailOK()
    }

    /** The queued values, front first. */
    ghost function Contents(): seq<Lists.u32>
      reads this, ll
      requires ll != null
    {
      ll.contents
    }
  }

  /**
   `queue_create`: a fresh queue over a fresh empty list, or NULL. When the
   list cannot be created, the queue block already obtained is handed back;
   that call goes through queue.c's free slot without testing it, so the slot
   must be set whenever that path is taken.
   */
  method Create(qreg: Allocator, lreg: Allocator, qmem: bool, lmem: bool) returns (q: Queue?)
    requires qreg != lreg
    requires qreg.CanAlloc(qmem) && !lreg.CanAlloc(lmem) ==> qreg.freeFn != Null
    modifies qreg, lreg
    ensures q != null <==> old(qreg.CanAlloc(qmem)) && old(lreg.CanAlloc(lmem))
    ensures q != null ==> fresh(q) && fresh(q.ll) && q.Valid() && q.Contents() == []
    ensures q != null ==> qreg.allocLog == old(qreg.allocLog) + [q] && lreg.allocLog == old(lreg.allocLog) + [q.ll]
    ensures q != null ==> qreg.freeLog == old(qreg.freeLog)
    ensures !old(qreg.CanAlloc(qmem)) ==> qreg.allocLog == old(qreg.allocLog) && qreg.freeLog == old(qreg.freeLog)
    ensures !old(qreg.CanAlloc(qmem)) ==> lreg.allocLog == old(lreg.allocLog)
    ensures old(qreg.CanAlloc(qmem)) && !old(lreg.CanAlloc(lmem)) ==>
              && |qreg.allocLog| == |old(qreg.allocLog)| + 1
              && qreg.allocLog[..|old(qreg.allocLog)|] == old(qreg.allocLog)
              && fresh(qreg.allocLog[|old(qreg.allocLog)|])
              && qreg.freeLog == old(qreg.freeLog) + [qreg.allocLog[|old(qreg.allocLog)|]]
              && lreg.allocLog == old(lreg.allocLog)
    ensures lreg.freeLog == old(lreg.freeLog)
    ensures qreg.mallocFn == old(qreg.mallocFn) && qreg.freeFn == old(qreg.freeFn)
    ensures lreg.mallocFn == old(lreg.mallocFn) && lreg.freeFn == old(lreg.freeFn)
  {
    if qreg.mallocFn == Null {
      return null;
    }
    if !qmem {
      return null;
    }
    q := new Queue();
    qreg.RecordAlloc(q);
    q.ll := Lists.Create(lreg, lmem);
    if q.ll == null {
      qreg.Free(q);
      return null;
    }
  }

  /**
   `queue_delete`: deletes the backing list through linked_list.c's slots (its
   outcome is not checked) and then frees the queue through queue.c's.
   */
  method Delete(q: Queue?, qreg: Allocator, lreg: Allocator) returns (ok: bool)
    requires qreg != lreg
    requires q != null ==> q.Valid()
    modifies qreg, lreg
    ensures ok <==> q != null && old(qreg.freeFn) != Null
    ensures qreg.freeLog == old(qreg.freeLog) + (if ok then [q] else [])
    ensures lreg.freeLog == if ok && lreg.freeFn != Null then old(lreg.freeLog) + q.ll.nodes + [q.ll]
                            else old(lreg.freeLog)
    ensures qreg.allocLog == old(qreg.allocLog) && lreg.allocLog == old(lreg.allocLog)
    ensures qreg.mallocFn == old(qreg.mallocFn) && qreg.freeFn == old(qreg.freeFn)
    ensures lreg.mallocFn == old(lreg.mallocFn) && lreg.freeFn == old(lreg.freeFn)
  {
    if q == null || qreg.freeFn == Null {
      return false;
    }
    var listDeleted := Lists.Delete(q.ll, lreg);
    qreg.Free(q);
    return true;
  }

  /** `queue_push`: an end insertion on the backing list. */
  method Push(q: Queue?, data: Lists.u32, lreg: Allocator, lmem: bool) returns (ok: bool)
    requires q != null ==> q.Valid() && |q.Contents()| + 1 < Lists.SIZE_MAX
    modifies lreg, if q != null && q.ll != null then {q.ll} else {}, if q != null && q.ll != null then q.ll.nodes else []
    ensures ok <==> q != null && old(lreg.CanAlloc(lmem))
    ensures q != null ==> q.ll == old(q.ll) && q.Valid()
    ensures ok ==> q.Contents() == old(q.Contents()) + [data]
    ensures ok ==> fresh(q.ll.tail) && q.ll.nodes == old(q.ll.nodes) + [q.ll.tail]
    ensures q != null && !ok ==> q.Contents() == old(q.Contents()) && unchanged(q.ll)
    ensures lreg.allocLog == old(lreg.allocLog) + (if ok then [q.ll.tail] else [])
    ensures lreg.mallocFn == old(lreg.mallocFn) && lreg.freeFn == old(lreg.freeFn)
    ensures lreg.freeLog == old(lreg.freeLog)
  {
    if q == null {
      return false;
    }
    ok := Lists.InsertEnd(q.ll, data, lreg, lmem);
  }
}
