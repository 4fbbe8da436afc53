/** The five entry points of the library, as pure transitions of the abstract
    heap. Each release collapses an empty buffer to `(null, 0)`; each reclaim
    treats length zero as the empty buffer and never reads the pointer. */
module ByteBuffer {
  import opened Platform
  import opened Heap
  import opened Utf8
  import opened TextTrim

  /** `new_boxed_byte_slice_buffer_raw` exactly as written: when the system
      allocator refuses, `alloc_zeroed`'s null result is passed through to the
      caller as if it were a buffer of `length` bytes. */
  function NewBufferRawAsWritten(h: Heap, length: nat, allocatorFails: bool): (r: Outcome<Step<Addr>>)
    requires h.Valid()
    requires length <= USIZE_MAX
    ensures length == 0 ==> r == Done(Step(h, Null))
    ensures length > ISIZE_MAX ==> r == Panic(CapacityOverflow)
    ensures 0 < length <= ISIZE_MAX && allocatorFails ==> r == Done(Step(h, Null))
    ensures 0 < length <= ISIZE_MAX && !allocatorFails ==>
      r.Done? && AllocatedAt(h, r.value.heap, r.value.out, Zeros(length), true)
  {
    if length == 0 then Done(Step(h, Null))
    else if length > ISIZE_MAX then Panic(CapacityOverflow)
    else if allocatorFails then Done(Step(h, Null))
    else
      var a := Allocate(h, Zeros(length), true);
      Done(Step(a.heap, a.out))
  }

  /** `new_boxed_byte_slice_buffer_raw` with allocator failure treated as
      fatal, as for every other allocation of the native side: a zeroed,
      detached buffer of `length` bytes at a fresh address, or the null
      pointer for length zero. */
  function NewBufferRaw(h: Heap, length: nat, allocatorFails: bool): (r: Outcome<Step<Addr>>)
    requires h.Valid()
    requires length <= USIZE_MAX
    ensures length == 0 ==> r == Done(Step(h, Null))
    ensures length > ISIZE_MAX ==> r == Panic(CapacityOverflow)
    ensures 0 < length <= ISIZE_MAX && allocatorFails ==> r == Panic(AllocationFailure)
    ensures 0 < length <= ISIZE_MAX && !allocatorFails ==>
      r.Done? && AllocatedAt(h, r.value.heap, r.value.out, Zeros(length), true)
    ensures r.Done? ==> r.value.heap.Valid() && Reclaimable(r.value.heap, Handle(r.value.out, length))
  {
    if length == 0 then Done(Step(h, Null))
    else if length > ISIZE_MAX then Panic(CapacityOverflow)
    else if allocatorFails then Panic(AllocationFailure)
    else
      var a := Allocate(h, Zeros(length), true);
      Done(Step(a.heap, a.out))
  }

  /** `into_boxed_byte_slice_raw`: publishes an owned buffer as a raw handle
      without copying or freeing it; its allocation moves to the detached
      regime. An empty box becomes `(null, 0)`. */
  function IntoRaw(h: Heap, src: Box): (r: Step<Handle>)
    requires h.Valid()
    requires Owns(h, src)
    ensures src.len == 0 ==> r == Step(h, NullHandle)
    ensures src.len > 0 ==>
      && r.out == Handle(src.addr, src.len)
      && r.heap.mem == h.mem
      && r.heap.detached == h.detached + {src.addr}
      && src.addr !in h.detached
    ensures r.heap.Valid()
    ensures Reclaimable(r.heap, r.out) && HandleBytes(r.heap, r.out) == Contents(h, src)
  {
    if src.len == 0 then Step(h, NullHandle)
    else Step(h.(detached := h.detached + {src.addr}), Handle(src.addr, src.len))
  }

  /** `string_into_boxed_byte_slice_raw`: copies the UTF-8 bytes of `src`
      (no terminator) into a new box and releases it. An empty string becomes
      `(null, 0)` without allocating. */
  function StringIntoRaw(h: Heap, src: seq<Byte>, allocatorFails: bool): (r: Outcome<Step<Handle>>)
    requires h.Valid()
    requires ValidUtf8(src) && |src| <= ISIZE_MAX
    ensures |src| == 0 ==> r == Done(Step(h, NullHandle))
    ensures |src| > 0 && allocatorFails ==> r == Panic(AllocationFailure)
    ensures |src| > 0 && !allocatorFails ==>
      && r.Done?
      && r.value.out.len == |src|
      && AllocatedAt(h, r.value.heap, r.value.out.ptr, src, true)
    ensures r.Done? ==>
      && r.value.heap.Valid()
      && Reclaimable(r.value.heap, r.value.out)
      && HandleBytes(r.value.heap, r.value.out) == src
  {
    if |src| == 0 then Done(Step(h, NullHandle))
    else
      match BoxFrom(h, src, allocatorFails)
      case Panic(e) => Panic(e)
      case Done(owned) => Done(IntoRaw(owned.heap, owned.out))
  }

  /** `from_boxed_byte_slice_raw`: takes a released buffer back into the
      managed regime without copying; length zero yields an empty box and the
      pointer is not looked at. */
  function FromRaw(h: Heap, hd: Handle): (r: Step<Box>)
    requires h.Valid()
    requires Reclaimable(h, hd)
    ensures hd.len == 0 ==> r == Step(h, EmptyBox)
    ensures hd.len > 0 ==>
      && r.out == Box(hd.ptr, hd.len)
      && r.heap.mem == h.mem
      && r.heap.detached == h.detached - {hd.ptr}
    ensures r.heap.Valid()
    ensures Owns(r.heap, r.out) && Contents(r.heap, r.out) == HandleBytes(h, hd)
  {
    if hd.len == 0 then Step(h, EmptyBox)
    else Step(h.(detached := h.detached - {hd.ptr}), Box(hd.ptr, hd.len))
  }

  /** `string_from_boxed_byte_slice_raw`: reclaims the buffer, reads it as
      UTF-8 without checking, and returns it, trimmed of surrounding white
      space when `trim` holds, as a new string; the reclaimed buffer is freed
      when it goes out of scope. Length zero yields the empty string and
      touches nothing. */
  function StringFromRaw(h: Heap, hd: Handle, trim: bool): (r: Step<seq<Byte>>)
    requires h.Valid()
    requires Reclaimable(h, hd)
    requires ValidUtf8(HandleBytes(h, hd))
    ensures hd.len == 0 ==> r == Step(h, [])
    ensures hd.len > 0 ==>
      && r.heap.mem.Keys == h.mem.Keys - {hd.ptr}
      && (forall a :: a in r.heap.mem ==> r.heap.mem[a] == h.mem[a])
      && r.heap.detached == h.detached - {hd.ptr}
    ensures !trim ==> r.out == HandleBytes(h, hd)
    ensures trim ==> r.out == Trim(HandleBytes(h, hd))
    ensures r.heap.Valid()
    ensures ValidUtf8(r.out)
  {
    if hd.len == 0 then Step(h, [])
    else
      var owned := FromRaw(h, hd);
      var text := Contents(owned.heap, owned.out);
      var h' := Drop(owned.heap, owned.out);
      TrimKeepsUtf8(text);
      Step(h', if trim then Trim(text) else text)
  }
}
