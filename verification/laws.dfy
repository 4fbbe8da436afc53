/** The laws the library's documentation promises, stated over sequences of
    calls: zero-fill, release/reclaim round trips for buffers and text, the
    null/empty rule, and that matched pairs leave no allocation behind. */
module Laws {
  import opened Platform
  import opened Heap
  import opened Utf8
  import opened TextTrim
  import opened ByteBuffer

  /** A buffer from the allocator, reclaimed with its length, holds exactly
      `length` zero bytes; dropping it restores every live allocation and the
      detached set. Length zero touches nothing at all. */
  lemma AllocReclaimDropZeros(h: Heap, length: nat)
    requires h.Valid() && length <= ISIZE_MAX
    ensures NewBufferRaw(h, length, false).Done?
    ensures var p := NewBufferRaw(h, length, false).value;
            var owned := FromRaw(p.heap, Handle(p.out, length));
            var h' := Drop(owned.heap, owned.out);
            && Contents(owned.heap, owned.out) == Zeros(length)
            && h'.mem == h.mem
            && h'.detached == h.detached
            && (length == 0 ==> h' == h)
  {
  }

  /** Releasing an owned buffer and reclaiming the handle gives back a buffer
      equal in length and contents, and the heap as it was; a non-empty box
      comes back as the very same box (same address, no copy). */
  lemma ReleaseReclaimIdentity(h: Heap, b: Box)
    requires h.Valid() && Owns(h, b)
    ensures var rel := IntoRaw(h, b);
            var back := FromRaw(rel.heap, rel.out);
            && back.heap == h
            && back.out.len == b.len
            && Contents(back.heap, back.out) == Contents(h, b)
            && (b.len > 0 ==> back.out == b)
  {
  }

  /** Reclaiming then releasing a detached handle gives back the same handle
      and heap: the two conversions are inverse in both directions. */
  lemma ReclaimReleaseIdentity(h: Heap, hd: Handle)
    requires h.Valid() && Reclaimable(h, hd)
    ensures var back := FromRaw(h, hd);
            var rel := IntoRaw(back.heap, back.out);
            && rel.heap == h
            && HandleBytes(rel.heap, rel.out) == HandleBytes(h, hd)
            && (hd.len > 0 ==> rel.out == hd)
            && (hd.len == 0 ==> rel.out == NullHandle)
  {
  }

  /** The null/empty rule: every empty buffer is released as `(null, 0)`, and
      every handle of length zero, whatever its pointer, is reclaimed as an
      empty buffer or the empty string without touching the heap. */
  lemma EmptyIsNull(h: Heap, b: Box, p: Addr, trim: bool)
    requires h.Valid() && b.len == 0
    ensures IntoRaw(h, b) == Step(h, NullHandle)
    ensures FromRaw(h, Handle(p, 0)) == Step(h, EmptyBox)
    ensures StringFromRaw(h, Handle(p, 0), trim) == Step(h, [])
    ensures StringIntoRaw(h, [], false) == Done(Step(h, NullHandle))
  {
  }

  /** Releasing a non-empty string leaves the host with what it would have
      had by asking the buffer allocator for a region of the string's length
      and writing the string's bytes over the zeros: the same heap and the same
      handle. The two routes also fail together. */
  lemma StringIntoRawIsAllocAndWrite(h: Heap, src: seq<Byte>, allocatorFails: bool)
    requires h.Valid() && ValidUtf8(src) && |src| <= ISIZE_MAX
    ensures 0 < |src| ==>
      (StringIntoRaw(h, src, allocatorFails).Panic? <==> NewBufferRaw(h, |src|, allocatorFails).Panic?)
    ensures 0 < |src| && !allocatorFails ==>
      var p := NewBufferRaw(h, |src|, false).value;
      StringIntoRaw(h, src, false) == Done(Step(p.heap.(mem := p.heap.mem[p.out := src]), Handle(p.out, |src|)))
  {
    if 0 < |src| && !allocatorFails {
      var a := h.next;
      NewBufferRawAtNext(h, |src|);
      StringIntoRawAtNext(h, src);
      assert h.mem[a := Zeros(|src|)][a := src] == h.mem[a := src];
    }
  }

  /** A served buffer allocation lands at the allocator's next address. */
  lemma NewBufferRawAtNext(h: Heap, length: nat)
    requires h.Valid() && 0 < length <= ISIZE_MAX
    ensures NewBufferRaw(h, length, false) ==
      Done(Step(Heap(h.mem[h.next := Zeros(length)], h.detached + {h.next}, h.next + 1), h.next))
  {
  }

  /** A served string release lands at the allocator's next address. */
  lemma StringIntoRawAtNext(h: Heap, src: seq<Byte>)
    requires h.Valid() && ValidUtf8(src) && 0 < |src| <= ISIZE_MAX
    ensures StringIntoRaw(h, src, false) ==
      Done(Step(Heap(h.mem[h.next := src], h.detached + {h.next}, h.next + 1), Handle(h.next, |src|)))
  {
  }

  /** The trim flag of the text reclaim changes only the text returned: the
      heap afterwards is the same either way, and the trimmed text is the trim
      of the untrimmed one. */
  lemma TrimFlagOnlyTrims(h: Heap, hd: Handle)
    requires h.Valid() && Reclaimable(h, hd) && ValidUtf8(HandleBytes(h, hd))
    ensures var plain := StringFromRaw(h, hd, false);
            StringFromRaw(h, hd, true) == Step(plain.heap, Trim(plain.out))
  {
  }

  /** Releasing text and reclaiming it untrimmed yields the same text, and no
      allocation is left behind. */
  lemma TextRoundTrip(h: Heap, t: seq<Byte>)
    requires h.Valid() && ValidUtf8(t) && |t| <= ISIZE_MAX
    ensures StringIntoRaw(h, t, false).Done?
    ensures var rel := StringIntoRaw(h, t, false).value;
            var back := StringFromRaw(rel.heap, rel.out, false);
            && back.out == t
            && back.heap.mem == h.mem
            && back.heap.detached == h.detached
  {
    TextRoundTripHeap(h, t, false);
  }

  /** Releasing text and reclaiming it trimmed yields the text without its
      surrounding white space; text without surrounding white space comes back
      unchanged. No allocation is left behind. */
  lemma TextTrimRoundTrip(h: Heap, t: seq<Byte>)
    requires h.Valid() && ValidUtf8(t) && |t| <= ISIZE_MAX
    ensures StringIntoRaw(h, t, false).Done?
    ensures var rel := StringIntoRaw(h, t, false).value;
            var back := StringFromRaw(rel.heap, rel.out, true);
            && back.out == Trim(t)
            && (!StartsWithWs(t) && !EndsWithWs(t) ==> back.out == t)
            && back.heap.mem == h.mem
            && back.heap.detached == h.detached
  {
    TextRoundTripHeap(h, t, true);
    TrimIdentity(t);
  }

  /** The heap half of both text round trips. */
  lemma TextRoundTripHeap(h: Heap, t: seq<Byte>, trim: bool)
    requires h.Valid() && ValidUtf8(t) && |t| <= ISIZE_MAX
    ensures StringIntoRaw(h, t, false).Done?
    ensures var rel := StringIntoRaw(h, t, false).value;
            var back := StringFromRaw(rel.heap, rel.out, trim);
            && back.heap.mem == h.mem
            && back.heap.detached == h.detached
  {
    var rel := StringIntoRaw(h, t, false).value;
    if |t| > 0 {
      var back := StringFromRaw(rel.heap, rel.out, trim);
      FreeAfterAllocRestores(h, rel.heap, back.heap, rel.out.ptr, t);
    }
  }

  /** Allocating one detached region and then reclaiming and freeing it
      restores the live allocations and the detached set. */
  lemma FreeAfterAllocRestores(h: Heap, h1: Heap, h2: Heap, p: Addr, bytes: seq<Byte>)
    requires AllocatedAt(h, h1, p, bytes, true)
    requires h2.mem.Keys == h1.mem.Keys - {p}
    requires forall a :: a in h2.mem ==> h2.mem[a] == h1.mem[a]
    requires h2.detached == h1.detached - {p}
    requires p !in h.detached
    ensures h2.mem == h.mem && h2.detached == h.detached
  {
  }

  /** Trimming `"  hi\n"` gives `"hi"`. */
  lemma TrimAsciiScenario()
    ensures Trim([0x20, 0x20, 0x68, 0x69, 0x0A]) == [0x68, 0x69]
  {
    var s: seq<Byte> := [0x20, 0x20, 0x68, 0x69, 0x0A];
    var hi: seq<Byte> := [0x68, 0x69];
    assert TrimStart(s) == hi + [0x0A] by {
      assert WsWidth(s) == 1 && s[1..] == [0x20, 0x68, 0x69, 0x0A];
      assert WsWidth(s[1..]) == 1 && s[1..][1..] == hi + [0x0A];
      assert WsWidth(hi + [0x0A]) == 0;
    }
    assert TrimEnd(hi + [0x0A]) == hi by {
      assert WsWidthAtEnd(hi + [0x0A]) == 1 && (hi + [0x0A])[..2] == hi;
      assert WsWidthAtEnd(hi) == 0;
    }
  }

  /** Trimming `"hi"` between an ideographic space (U+3000) and a no-break
      space (U+00A0) gives `"hi"`. */
  lemma TrimUnicodeScenario()
    ensures Trim([0xE3, 0x80, 0x80, 0x68, 0x69, 0xC2, 0xA0]) == [0x68, 0x69]
  {
    var s: seq<Byte> := [0xE3, 0x80, 0x80, 0x68, 0x69, 0xC2, 0xA0];
    var hi: seq<Byte> := [0x68, 0x69];
    var rest: seq<Byte> := [0x68, 0x69, 0xC2, 0xA0];
    assert TrimStart(s) == rest by {
      assert WsWidth(s) == 3 && s[3..] == rest;
      assert WsWidth(rest) == 0;
    }
    assert TrimEnd(rest) == hi by {
      assert WsWidthAtEnd(rest) == 2 && rest[..2] == hi;
      assert WsWidthAtEnd(hi) == 0;
    }
  }

  /** The source as written: when the system allocator refuses a non-empty
      request, the caller receives the null pointer as a buffer of the
      requested length, a handle no reclaim may be given. */
  lemma AllocFailureYieldsUnreclaimableHandle(h: Heap, length: nat)
    requires h.Valid() && 0 < length <= ISIZE_MAX
    ensures NewBufferRawAsWritten(h, length, true) == Done(Step(h, Null))
    ensures !Reclaimable(h, Handle(Null, length))
  {
  }

  /** Where the allocator does not fail, the corrected allocation agrees with
      the source as written; the two differ only in the failure case. */
  lemma AllocCorrectionOnlyOnFailure(h: Heap, length: nat, allocatorFails: bool)
    requires h.Valid() && length <= USIZE_MAX
    ensures NewBufferRaw(h, length, allocatorFails) == NewBufferRawAsWritten(h, length, allocatorFails)
            <==> !(allocatorFails && 0 < length <= ISIZE_MAX)
  {
  }
}
