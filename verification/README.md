# FFI byte-buffer ownership hand-off, modelled in Dafny

The library moves heap byte buffers (`Box<[u8]>`) across a foreign function
interface. A buffer is in one of two regimes:

- **managed**: a Rust `Box<[u8]>` owns it and frees it when dropped;
- **detached**: only a raw `(pointer, length)` handle refers to it, and nothing
  frees it.

Five entry points move buffers between the regimes: allocate a zeroed detached
buffer, release a box or a `String` as a handle, and reclaim a handle as a box
or as a `String` (optionally trimmed of surrounding white space). One null/empty
rule runs through all of them: an empty buffer is always released as
`(null, 0)`, and a length of zero is reclaimed as the empty value without
reading the pointer.

The model makes this a functional state machine. An immutable `Heap` maps live
addresses to their bytes and records which addresses are detached. Each entry
point is a pure function from a heap and its arguments to a new heap and a
result. The obligations that `Box::from_raw` and
`str::from_boxed_utf8_unchecked` place on their callers become `requires`
clauses. The library neither checks nor documents them, and its reclaim
functions are not marked `unsafe`; its only safety note (`src/lib.rs` lines
15-18) asks that an allocated buffer be converted back with a `from_...`
function. The obligations are:

- the handle came from this library;
- its length matches the allocation;
- it has not been reclaimed since;
- text handed to the text reclaim is valid UTF-8.

Files:

- `platform.dfy`: octets, the limits of 64-bit `usize`/`isize`, and zero-filled contents.
- `heap.dfy`: the abstract heap and its allocator invariants, boxes, handles, `Box::from` and drop.
- `utf8.dfy`: well-formed UTF-8 (Table 3-7 of the Unicode Standard), the White_Space code points and their encodings.
- `trim.dfy`: `str::trim` on UTF-8 bytes, with its characterisation.
- `byte_buffer.dfy`: the five entry points (`src/lib.rs` lines 19-77).
- `laws.dfy`: zero-fill, the round trips, the null/empty rule, and the allocation-failure finding.
- `session.dfy`: arbitrary host call sequences, and the no-leak law over them.

Two points where the code's behaviour needs saying plainly:

- **Allocation failure.** The comment at `src/lib.rs:24` calls
  `new_boxed_byte_slice_buffer_raw` basically the same as
  `vec![0; 512].into_boxed_slice()`, and that aborts the process when the
  allocator refuses. The code instead hands `alloc_zeroed`'s null result to
  the caller as a buffer (see Findings). `ByteBuffer.NewBufferRawAsWritten`
  models the code as written. The corrected `ByteBuffer.NewBufferRaw`, which
  treats a refusal as fatal, is the one the rest of the model uses.
- **Text reclaim.** Lines 69-76 of `src/lib.rs` reclaim the box with
  `Box::from_raw`, return a `to_string()` copy of its text (trimmed or not),
  and drop the `Box<str>` when the function returns. So `StringFromRaw`
  removes the allocation from the heap rather than leaving it managed.

## Model

| member | source | states |
|---|---|---|
| ByteBuffer.NewBufferRaw | src/lib.rs:19-29 | Length 0 returns null and leaves the heap unchanged. A length above `isize::MAX` is the fatal "capacity overflow". Otherwise the result is a fresh non-null address, not previously live, holding exactly `length` zero bytes in the detached regime, with every other allocation unchanged. A refusing allocator is fatal. Every pointer returned is reclaimable with that length. |
| ByteBuffer.NewBufferRawAsWritten | src/lib.rs:19-29 | The code as written: identical, except that a refusing allocator makes the function return null for a non-zero length. |
| ByteBuffer.IntoRaw | src/lib.rs:41-52 | An empty box gives `(null, 0)` and leaves the heap unchanged. Otherwise the handle has the box's address and length, the contents and live allocations are unchanged (no copy, no free), and the address moves from managed to detached. The handle is reclaimable and refers to the box's bytes. |
| ByteBuffer.StringIntoRaw | src/lib.rs:31-39 | An empty string gives `(null, 0)` without allocating. Otherwise a fresh detached allocation holds exactly the string's UTF-8 bytes, with no terminator, and the handle's length is the string's byte length. A refusing allocator aborts. |
| ByteBuffer.FromRaw | src/lib.rs:54-61 | Length 0 gives the empty box with the heap unchanged, whatever the pointer. Otherwise the box has the handle's address and length, the contents are unchanged (no copy), and the address moves from detached to managed. The box owns exactly the handle's bytes. |
| ByteBuffer.StringFromRaw | src/lib.rs:63-77 | Length 0 gives the empty string with the heap unchanged. Otherwise the allocation is reclaimed and freed, and nothing else changes. Without `trim` the result is exactly the handle's bytes; with `trim` it is their trimmed form. The result is valid UTF-8. |
| Heap.BoxFrom | src/lib.rs:36 | `Box::from(bytes)`: an empty slice gives the empty box without allocating. Otherwise a fresh managed allocation holds the bytes. A refusing allocator aborts. |
| Heap.Drop | src/lib.rs:69-76 | Dropping an empty box changes nothing. Dropping a non-empty box removes exactly its allocation, leaves every other allocation and the detached set alone, and lowers the live count by one. |
| Utf8.WhiteSpaceEncodingsRecognised | src/lib.rs:72-73 | Every code point with the Unicode White_Space property is encoded as a byte sequence the trim recognises as white space. |
| Utf8.RecognisedAreWhiteSpaceEncodings | src/lib.rs:72-73 | Every byte sequence the trim recognises as white space is the UTF-8 encoding of a White_Space code point. |
| Utf8.WsCharIsOneChar | src/lib.rs:72-73 | A recognised white-space encoding is exactly one well-formed UTF-8 character and never starts with a continuation byte. So the trim never cuts inside a character. |
| TextTrim.TrimCutsWsRuns | src/lib.rs:72-73 | The trimmed text is a contiguous slice of the input. Everything before it and everything after it is a run of white-space characters. |
| TextTrim.TrimLeavesNoSurroundingWs | src/lib.rs:72-73 | The trimmed text neither starts nor ends with a white-space character, so the runs cut off are the longest ones. |
| TextTrim.TrimIdentity | src/lib.rs:72-73 | Trimming leaves a text unchanged if and only if it has no leading and no trailing white space. |
| TextTrim.TrimIdempotent | src/lib.rs:72-73 | Trimming twice is trimming once. |
| TextTrim.TrimKeepsUtf8 | src/lib.rs:70-73 | Trimming valid UTF-8 yields valid UTF-8, because only whole characters are removed. |
| Laws.AllocReclaimDropZeros | src/lib.rs:9-28 | An allocated buffer reclaimed with its length holds exactly `length` zero bytes. Dropping it restores the live allocations and the detached set. Length 0 touches nothing. |
| Laws.ReleaseReclaimIdentity | src/lib.rs:41-61 | Reclaiming a released box gives a box equal in length and contents, and the original heap. A non-empty box comes back as the same box. |
| Laws.ReclaimReleaseIdentity | src/lib.rs:41-61 | Releasing a reclaimed handle gives back the same handle and heap; a zero-length handle comes back as `(null, 0)`. |
| Laws.EmptyIsNull | src/lib.rs:31-66 | The null/empty rule. An empty box or string is released as `(null, 0)`. A zero-length handle with any pointer is reclaimed as the empty box or string. The heap is untouched in every case. |
| Laws.StringIntoRawIsAllocAndWrite | src/lib.rs:19-39 | Releasing a non-empty string gives the same heap and handle as allocating a zeroed buffer of its length and writing its bytes over the zeros. The two routes fail together. |
| Laws.TrimFlagOnlyTrims | src/lib.rs:63-77 | The trim flag changes only the returned text: the heap afterwards is the same either way, and the trimmed result is `Trim` of the untrimmed one. |
| Laws.TextRoundTrip | src/lib.rs:31-77 | Releasing valid text and reclaiming it untrimmed gives the same text. The heap's allocations and detached set are as before. |
| Laws.TextTrimRoundTrip | src/lib.rs:31-77 | Releasing text and reclaiming it trimmed gives its trimmed form, which is the text itself when it has no surrounding white space. No allocation is left behind. |
| Laws.TrimAsciiScenario | src/lib.rs:72-73 | `"  hi\n"` trims to `"hi"`. |
| Laws.TrimUnicodeScenario | src/lib.rs:72-73 | `"hi"` framed by U+3000 and U+00A0 trims to `"hi"`. |
| Laws.AllocFailureYieldsUnreclaimableHandle | src/lib.rs:27-28 | As written, on any valid heap, a refused allocation of any length from 1 to `isize::MAX` returns null with the heap unchanged, and `(null, length)` is not a handle any reclaim may take. |
| Laws.AllocCorrectionOnlyOnFailure | src/lib.rs:19-29 | The corrected and as-written allocations agree exactly when the allocator does not refuse a request it was actually asked to serve. |
| Session.RunAccounted | src/lib.rs:9-18 | For any sequence of calls (buffer allocations, host writes, box and text releases, box and text reclaims): the live allocations are the starting ones, unchanged, plus exactly the allocations whose handles the host holds, and those are all detached. |
| Session.FreshSessionNoLeak | src/lib.rs:9-18 | A session started on the empty heap has exactly as many live allocations as the host holds handles, all detached; one that ends holding none leaves no allocation at all. |
| Session.SessionNoLeak | src/lib.rs:9-18 | The live-allocation count exceeds its starting value by exactly the number of outstanding handles. Once every handle is reclaimed, the allocations and the detached set are back to their starting values. |

## Left out

- Real pointer values, `Layout`, `alloc_zeroed` and `Box::from_raw`. These are foreign allocator calls. The model uses an abstract heap whose allocator hands out an address above every one it has used. A real allocator reuses freed addresses; every law here relies only on the new address not being live.
- Allocator failure is an input (`allocatorFails`), not an observed event.
- The target is 64-bit: `usize::MAX` is 2^64 - 1 and `isize::MAX` is 2^63 - 1. On a 32-bit target the capacity-overflow bound is 2^31 - 1.
- Undefined behaviour when a safety obligation is broken: a foreign handle, a wrong length, a double reclaim, or invalid UTF-8 given to the text reclaim. These appear only as `requires` clauses; there is no modelled outcome.
- UTF-8 decoding and validation. Text is modelled as its UTF-8 bytes, and `ValidUtf8` is used only as a requirement and as the `String` invariant.
- The allocations of `String` values are not on the modelled heap: the `String` passed in and dropped by the text release, and the copy the text reclaim returns. Process abort when allocating those copies fails is not modelled.
- TextTrim.Trim: works on bytes, matching the UTF-8 encodings of the 25 White_Space code points. On valid UTF-8 this removes the same characters as a character-by-character `str::trim`, because a lead byte fixes the character's width and no white-space encoding starts with a continuation byte (`Utf8.WsCharIsOneChar`). That equivalence is argued, not proved, since the model has no decoder. The White_Space set is fixed, not derived from Unicode tables.
- Session.SessionNoLeak: every call in a session is served by the allocator, so allocator refusal is not part of a run; a run ends early only on a capacity overflow or on a call that breaks the library's contract. A reclaimed box is dropped at once, so a session never keeps a reclaimed box or releases it again. Only handles given out during the session may be reclaimed. A host `Fill` models writing into a held buffer of the same length; out-of-bounds writes are not modelled.
- The helpers commented out at `src/lib.rs` lines 79-200 (`vec_from_…`, `c_bytes_*`, the 6- and 16-byte array extractors) are not compiled and are not modelled.
- Concurrency and cross-thread hand-off of handles: the library does no synchronisation.

## Findings

| source | as written | input that shows it | evidently intended | confidence | as-written member | corrected member |
|---|---|---|---|---|---|---|
| src/lib.rs:27-28 | When the system allocator refuses a non-zero request, `alloc_zeroed` returns null and the function hands that null to the caller as a buffer of `length` bytes. The caller may then write to it or pass `(null, length)` to `from_boxed_byte_slice_raw`. | `length = 4` with the allocator refusing: the result is null, not a reclaimable buffer | Abort on allocation failure (`handle_alloc_error`), as `vec![0; n].into_boxed_slice()` does (the comment at line 24 names it as the equivalent), so that control never returns with an invalid pointer | not executed; medium (the null return is certain from `alloc_zeroed`'s contract; that it is unintended is inferred) | ByteBuffer.NewBufferRawAsWritten, Laws.AllocFailureYieldsUnreclaimableHandle | ByteBuffer.NewBufferRaw |
