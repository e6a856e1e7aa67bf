/**
 The pair of allocator slots that a translation unit keeps as file-static
 function pointers. Both slots start out NULL; registration stores a function
 pointer, and every allocating or freeing operation tests its slot before use.

 What a registered allocator returns is not computable here: each allocating
 operation takes a boolean `mem` that says whether the allocator hands back a
 block (true) or NULL (false). The ghost logs `allocLog` and `freeLog` record,
 in order, every object obtained from and handed back to the slots.
 */
module Allocators {

  /** A C function pointer: NULL or some function. */
  datatype FnPtr = Null | Fn(id: nat)

  class Allocator {
    var mallocFn: FnPtr
    var freeFn: FnPtr
    ghost var allocLog: seq<object>
    ghost var freeLog: seq<object>

    /** Both slots are NULL at program start. */
    constructor ()
      ensures mallocFn == Null && freeFn == Null
      ensures allocLog == [] && freeLog == []
    {
      mallocFn, freeFn := Null, Null;
      allocLog, freeLog := [], [];
    }

    /** The allocator is registered and hands back a block. */
    predicate CanAlloc(mem: bool)
      reads this
    {
      mallocFn != Null && mem
    }

    /** Registering NULL is refused and leaves the slot as it was. */
    method RegisterMalloc(f: FnPtr) returns (ok: bool)
      modifies this
      ensures ok <==> f != Null
      ensures mallocFn == (if ok then f else old(mallocFn))
      ensures freeFn == old(freeFn)
      ensures allocLog == old(allocLog) && freeLog == old(freeLog)
    {
      if f == Null {
        return false;
      }
      mallocFn := f;
      return true;
    }

    method RegisterFree(f: FnPtr) returns (ok: bool)
      modifies this
      ensures ok <==> f != Null
      ensures freeFn == (if ok then f else old(freeFn))
      ensures mallocFn == old(mallocFn)
      ensures allocLog == old(allocLog) && freeLog == old(freeLog)
    {
      if f == Null {
        return false;
      }
      freeFn := f;
      return true;
    }

    /** Records that `o` is the block the allocator just handed back. */
    ghost method RecordAlloc(o: object)
      modifies this
      ensures allocLog == old(allocLog) + [o]
      ensures mallocFn == old(mallocFn) && freeFn == old(freeFn) && freeLog == old(freeLog)
    {
      allocLog := allocLog + [o];
    }

    /** A call through the free slot; calling a NULL slot is undefined, so it must be set. */
    method Free(o: object)
      requires freeFn != Null
      modifies this
      ensures freeLog == old(freeLog) + [o]
      ensures mallocFn == old(mallocFn) && freeFn == old(freeFn) && allocLog == old(allocLog)
    {
      freeLog := freeLog + [o];
    }
  }
}
