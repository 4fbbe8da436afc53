/** The abstract heap on which byte buffers live, the two ownership regimes,
    and the two value shapes that cross the FFI boundary: an owned
    `Box<[u8]>` and a raw `(pointer, length)` handle. */
module Heap {
  import opened Platform

  /** A machine address; `Null` is the null pointer. */
  type Addr = nat

  const Null: Addr := 0

  /** The conditions under which the process stops instead of returning. */
  datatype Fatal = CapacityOverflow | AllocationFailure

  /** Either a normal return or a fatal stop (panic or abort). */
  datatype Outcome<T> = Done(value: T) | Panic(reason: Fatal)

  /** A heap state paired with the value an operation returned in it. */
  datatype Step<T> = Step(heap: Heap, out: T)

  /** Every live allocation with its contents. An address in `detached` is in
      the detached regime (only a raw handle refers to it); every other live
      address is in the managed regime (a `Box` owns it). `next` is an address
      the allocator has never handed out. */
  datatype Heap = Heap(mem: map<Addr, seq<Byte>>, detached: set<Addr>, next: Addr)
  {
    /** The allocator's invariants: null is never live, fresh addresses lie
        above every live one, no zero-sized allocation exists, every layout fits
        in `isize`, and only live addresses can be detached. */
    predicate Valid() {
      && Null < next
      && (forall a :: a in mem ==> Null < a < next && 0 < |mem[a]| <= ISIZE_MAX)
      && detached <= mem.Keys
    }

    predicate Managed(a: Addr) {
      a in mem && a !in detached
    }

    /** The number of live allocations, as a tracking allocator counts them. */
    function LiveCount(): nat {
      |mem.Keys|
    }
  }

  /** The heap before any allocation. */
  const EmptyHeap: Heap := Heap(map[], {}, 1)

  /** An owned `Box<[u8]>`: its base address and its length. A box of length
      zero owns no allocation and its address is never read. */
  datatype Box = Box(addr: Addr, len: nat)

  /** The box `Box::default()` returns. */
  const EmptyBox: Box := Box(Null, 0)

  /** A raw handle crossing the FFI boundary. */
  datatype Handle = Handle(ptr: Addr, len: nat)

  /** The canonical empty handle `(null, 0)`. */
  const NullHandle: Handle := Handle(Null, 0)

  /** `b` is a valid owner in `h`: empty, or a managed allocation of exactly
      `b.len` bytes. */
  predicate Owns(h: Heap, b: Box) {
    b.len == 0 || (h.Managed(b.addr) && |h.mem[b.addr]| == b.len)
  }

  /** The bytes a valid box refers to. */
  function Contents(h: Heap, b: Box): (bytes: seq<Byte>)
    requires Owns(h, b)
    ensures |bytes| == b.len
  {
    if b.len == 0 then [] else h.mem[b.addr]
  }

  /** What the reclaim functions demand of their caller: either the length is
      zero, or the handle names a detached allocation of exactly that length
      (it came from this library and has not been reclaimed since). */
  predicate Reclaimable(h: Heap, hd: Handle) {
    hd.len == 0 || (hd.ptr in h.detached && hd.ptr in h.mem && |h.mem[hd.ptr]| == hd.len)
  }

  /** The bytes a reclaimable handle refers to. */
  function HandleBytes(h: Heap, hd: Handle): (bytes: seq<Byte>)
    requires Reclaimable(h, hd)
    ensures |bytes| == hd.len
  {
    if hd.len == 0 then [] else h.mem[hd.ptr]
  }

  /** `h'` is `h` plus one allocation at `p` holding `bytes`, in the detached
      regime when `detached` holds and in the managed one otherwise; nothing
      already live changed. */
  predicate AllocatedAt(h: Heap, h': Heap, p: Addr, bytes: seq<Byte>, detached: bool) {
    && p != Null
    && p !in h.mem
    && h'.mem == h.mem[p := bytes]
    && h'.detached == (if detached then h.detached + {p} else h.detached)
  }

  /** Hands out the allocator's next address for a region holding `bytes`. */
  function Allocate(h: Heap, bytes: seq<Byte>, detached: bool): (r: Step<Addr>)
    requires h.Valid()
    requires 0 < |bytes| <= ISIZE_MAX
    ensures AllocatedAt(h, r.heap, r.out, bytes, detached)
    ensures r.heap.Valid()
  {
    var p := h.next;
    Step(Heap(h.mem[p := bytes], if detached then h.detached + {p} else h.detached, p + 1), p)
  }

  /** `Box::from(bytes)`: a managed copy of `bytes`. An empty slice allocates
      nothing; a failing global allocator aborts the process
      (`handle_alloc_error`). */
  function BoxFrom(h: Heap, bytes: seq<Byte>, allocatorFails: bool): (r: Outcome<Step<Box>>)
    requires h.Valid()
    requires |bytes| <= ISIZE_MAX
    ensures |bytes| == 0 ==> r == Done(Step(h, EmptyBox))
    ensures |bytes| > 0 && allocatorFails ==> r == Panic(AllocationFailure)
    ensures r.Done? ==>
      && r.value.heap.Valid()
      && Owns(r.value.heap, r.value.out)
      && Contents(r.value.heap, r.value.out) == bytes
    ensures r.Done? && |bytes| > 0 ==> AllocatedAt(h, r.value.heap, r.value.out.addr, bytes, false)
  {
    if |bytes| == 0 then Done(Step(h, EmptyBox))
    else if allocatorFails then Panic(AllocationFailure)
    else
      var a := Allocate(h, bytes, false);
      Done(Step(a.heap, Box(a.out, |bytes|)))
  }

  /** Dropping an owned box frees its allocation; an empty box frees nothing. */
  function Drop(h: Heap, b: Box): (h': Heap)
    requires h.Valid()
    requires Owns(h, b)
    ensures h'.Valid()
    ensures b.len == 0 ==> h' == h
    ensures b.len > 0 ==>
      && h'.mem.Keys == h.mem.Keys - {b.addr}
      && (forall a :: a in h'.mem ==> h'.mem[a] == h.mem[a])
      && h'.detached == h.detached
      && h'.LiveCount() == h.LiveCount() - 1
  {
    if b.len == 0 then h
    else Heap(h.mem - {b.addr}, h.detached, h.next)
  }
}
