/** A host session: any sequence of calls across the boundary, in which the
    host only reclaims handles it was given during the session. Whatever the
    interleaving, every live allocation the session added is one the host
    still holds a handle to, so once every handle has been reclaimed the
    heap's allocations and detached set are back to where they started. */
module Session {
  import opened Platform
  import opened Heap
  import opened Utf8
  import opened ByteBuffer

  /** One call the host makes. `Fill` is the host writing into a buffer it
      holds, the purpose of allocating one; `ReleaseBox` is native code
      building a box of `bytes` and releasing it; the others are the library's
      entry points, a reclaimed buffer being dropped straight away. */
  datatype Call =
    | Alloc(length: nat)
    | Fill(ptr: Addr, bytes: seq<Byte>)
    | ReleaseBox(bytes: seq<Byte>)
    | ReleaseText(text: seq<Byte>)
    | Reclaim(hd: Handle)
    | ReclaimText(hd: Handle, trim: bool)

  /** The heap and the addresses whose handles the host holds. */
  datatype State = State(heap: Heap, held: set<Addr>)

  /** A handle the host may pass back: one of its own, of the right length. */
  predicate MayReclaim(s: State, hd: Handle) {
    hd.len == 0 || (hd.ptr in s.held && Reclaimable(s.heap, hd))
  }

  /** The effect of one call, or `None` when the host breaks the library's
      contract or the call stops the process. */
  function Apply(s: State, c: Call): (r: Option<State>)
    requires s.heap.Valid()
    ensures r.Some? ==> r.value.heap.Valid()
  {
    match c
    case Alloc(length) =>
      if length > USIZE_MAX then None
      else
        (match NewBufferRaw(s.heap, length, false)
         case Panic(_) => None
         case Done(st) => Some(State(st.heap, if length == 0 then s.held else s.held + {st.out})))
    case Fill(ptr, bytes) =>
      if ptr in s.held && ptr in s.heap.mem && |bytes| == |s.heap.mem[ptr]| then
        Some(s.(heap := s.heap.(mem := s.heap.mem[ptr := bytes])))
      else None
    case ReleaseBox(bytes) =>
      if |bytes| > ISIZE_MAX then None
      else
        (match BoxFrom(s.heap, bytes, false)
         case Panic(_) => None
         case Done(owned) =>
           var rel := IntoRaw(owned.heap, owned.out);
           Some(State(rel.heap, if |bytes| == 0 then s.held else s.held + {rel.out.ptr})))
    case ReleaseText(text) =>
      if !ValidUtf8(text) || |text| > ISIZE_MAX then None
      else
        (match StringIntoRaw(s.heap, text, false)
         case Panic(_) => None
         case Done(st) => Some(State(st.heap, if |text| == 0 then s.held else s.held + {st.out.ptr})))
    case Reclaim(hd) =>
      if !MayReclaim(s, hd) then None
      else
        var owned := FromRaw(s.heap, hd);
        Some(State(Drop(owned.heap, owned.out), if hd.len == 0 then s.held else s.held - {hd.ptr}))
    case ReclaimText(hd, trim) =>
      if !MayReclaim(s, hd) || !ValidUtf8(HandleBytes(s.heap, hd)) then None
      else
        var st := StringFromRaw(s.heap, hd, trim);
        Some(State(st.heap, if hd.len == 0 then s.held else s.held - {hd.ptr}))
  }

  datatype Option<T> = None | Some(value: T)

  /** Runs the calls in order, stopping at the first that fails. */
  function Run(s: State, calls: seq<Call>): (r: Option<State>)
    requires s.heap.Valid()
    ensures r.Some? ==> r.value.heap.Valid()
    decreases |calls|
  {
    if |calls| == 0 then Some(s)
    else
      match Apply(s, calls[0])
      case None => None
      case Some(s') => Run(s', calls[1..])
  }

  /** Relative to the starting heap `h0`: the live allocations are those of
      `h0`, unchanged, plus exactly the held ones, which are all detached. */
  predicate Accounted(h0: Heap, s: State) {
    && s.heap.mem.Keys == h0.mem.Keys + s.held
    && s.held !! h0.mem.Keys
    && s.heap.detached == h0.detached + s.held
    && (forall a :: a in h0.mem ==> s.heap.mem[a] == h0.mem[a])
  }

  /** A new detached allocation whose handle the host now holds keeps the
      session accounted for. */
  lemma AccountedAfterRelease(h0: Heap, s: State, s': State, p: Addr, bytes: seq<Byte>)
    requires Accounted(h0, s)
    requires AllocatedAt(s.heap, s'.heap, p, bytes, true)
    requires s'.held == s.held + {p}
    ensures Accounted(h0, s')
  {
  }

  /** Reclaiming and freeing a held allocation keeps the session accounted for. */
  lemma AccountedAfterReclaim(h0: Heap, s: State, s': State, p: Addr)
    requires h0.Valid() && Accounted(h0, s) && p in s.held
    requires s'.heap.mem.Keys == s.heap.mem.Keys - {p}
    requires forall a :: a in s'.heap.mem ==> s'.heap.mem[a] == s.heap.mem[a]
    requires s'.heap.detached == s.heap.detached - {p}
    requires s'.held == s.held - {p}
    ensures Accounted(h0, s')
  {
  }

  /** Every call keeps the session accounted for. */
  lemma ApplyAccounted(h0: Heap, s: State, c: Call)
    requires h0.Valid() && s.heap.Valid() && Accounted(h0, s)
    requires Apply(s, c).Some?
    ensures Accounted(h0, Apply(s, c).value)
  {
    var s' := Apply(s, c).value;
    match c
    case Alloc(length) =>
      if length > 0 {
        var st := NewBufferRaw(s.heap, length, false).value;
        AccountedAfterRelease(h0, s, s', st.out, Zeros(length));
      }
    case Fill(ptr, bytes) =>
      assert ptr !in h0.mem;
    case ReleaseBox(bytes) =>
      if |bytes| > 0 {
        var owned := BoxFrom(s.heap, bytes, false).value;
        AccountedAfterRelease(h0, s, s', owned.out.addr, bytes);
      }
    case ReleaseText(text) =>
      if |text| > 0 {
        var st := StringIntoRaw(s.heap, text, false).value;
        AccountedAfterRelease(h0, s, s', st.out.ptr, text);
      }
    case Reclaim(hd) =>
      if hd.len > 0 {
        AccountedAfterReclaim(h0, s, s', hd.ptr);
      }
    case ReclaimText(hd, trim) =>
      if hd.len > 0 {
        AccountedAfterReclaim(h0, s, s', hd.ptr);
      }
  }

  /** Whatever calls a session makes, it stays accounted for. */
  lemma {:induction false} RunAccounted(h0: Heap, s: State, calls: seq<Call>)
    requires h0.Valid() && s.heap.Valid() && Accounted(h0, s)
    requires Run(s, calls).Some?
    ensures Accounted(h0, Run(s, calls).value)
    decreases |calls|
  {
    if |calls| > 0 {
      ApplyAccounted(h0, s, calls[0]);
      RunAccounted(h0, Apply(s, calls[0]).value, calls[1..]);
    }
  }

  /** No leak: a session starting from `h0` that ends holding no handle has
      returned every allocation it made, and a tracking allocator's count of
      live allocations is back to its starting value; while handles are
      outstanding, the count exceeds the start by exactly their number. */
  lemma SessionNoLeak(h0: Heap, calls: seq<Call>)
    requires h0.Valid()
    requires Run(State(h0, {}), calls).Some?
    ensures var s := Run(State(h0, {}), calls).value;
            s.heap.LiveCount() == h0.LiveCount() + |s.held|
    ensures var s := Run(State(h0, {}), calls).value;
            s.held == {} ==> s.heap.mem == h0.mem && s.heap.detached == h0.detached
  {
    var s := Run(State(h0, {}), calls).value;
    RunAccounted(h0, State(h0, {}), calls);
    assert |s.heap.mem.Keys| == |h0.mem.Keys| + |s.held|;
  }

  /** The no-leak law for a session that starts before any allocation: the
      live allocations are exactly the held ones, and a session that ends
      holding no handle leaves the heap empty of allocations. */
  lemma FreshSessionNoLeak(calls: seq<Call>)
    requires Run(State(EmptyHeap, {}), calls).Some?
    ensures var s := Run(State(EmptyHeap, {}), calls).value;
            s.heap.mem.Keys == s.held && s.heap.detached == s.held
    ensures var s := Run(State(EmptyHeap, {}), calls).value;
            s.held == {} ==> s.heap.mem == map[] && s.heap.detached == {}
  {
    RunAccounted(EmptyHeap, State(EmptyHeap, {}), calls);
  }
}
