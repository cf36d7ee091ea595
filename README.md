# fastpub slot pool, modelled in Dafny

fastpub is a one-writer, many-reader "latest value" channel in POSIX shared
memory. The publisher creates a segment made of a header (`struct
fastpub_info`) followed by `max_subscribers + 2` slots. Each slot is a
64-byte slot header (`struct fastpub_buffer`: a refcount and a free-list link)
followed by `buffer_size` payload bytes. Every cross-reference in the segment
is a 32-bit offset from the segment's base, and offset 0 doubles as "none".

Under the header mutex, every operation rearranges a small set of words:

- the header word `next`: the slot the publisher is filling;
- the header word `current`: the slot last published;
- the header word `slack`: the head of a LIFO free list threaded through the
  slots' links;
- each slot's refcount and link.

This project models that state machine and proves what it keeps true:

- the free list holds exactly the slots with refcount zero other than `next`,
  with no duplicates, and ends in offset 0;
- each slot's refcount counts the subscriber references on it, plus one for
  the `current` role;
- given the capacity contract (subscribers hold at most `max_subscribers`
  distinct slots), the pop in `fastpub_publish` always finds a slot.

Layout of the files:

- `word.dfy` (module `Word`): 32-bit unsigned `++` and `--`, with the
  wrap-around written out.
- `layout.dfy` (module `Layout`): segment sizes, and the conversion between
  offsets, slot indices and payload addresses, with its round-trip lemmas.
  `Ref` is `Header` (offset 0) or `Slot(i)`. `sizeof(struct fastpub_info)`
  is a parameter `infoSize`, a positive multiple of 64.
- `counting.dfy` (module `Counting`): cardinality facts behind the capacity
  argument.
- `pool.dfy` (module `SlotPool`): the metadata as a value (`Pool`), one
  function per operation, the invariant `Inv`, and lemmas that each
  operation keeps it. `Inv` is stated over two pieces of ghost bookkeeping:
  the free list as a sequence of slot indices, and the number of references
  subscribers hold on each slot.
- `fastpub.dfy` (module `FastPub`): class `Segment`, with the refcounts and
  links as arrays and the header words as fields. Each method performs the
  source's steps in place, and its `ensures` equates the new state
  (`Words()`) with the matching `SlotPool` function of the old state. The
  public operations (`PubOpen`, `Publish`, `Current`, `NextUpdate`,
  `Release`) also establish or keep `Valid()`. So do the two steps they
  delegate to: `CreateLayout` (the set-up writes of `fastpub_pubopen`) and
  `Drop` (`fastpub_release` once the address is turned back into a slot).
  The other internal steps (`ThreadSlots`, `PushSlack`, `PopSlack`, `Unref`,
  `Rotate`, `TakeCurrent`) state only their effect on the words.
  - `Valid()` also keeps an account of the word at offset 0 (`HeaderCount`):
    it equals buffer_size, plus the header-relative references subscribers
    still hold, minus one once the first publish has happened.
  - From that account, `FastPub.Segment.HeaderWordAboveOne` proves that the
    word stays above 1 when two conditions hold: buffer_size is at least 2,
    and buffer_size plus the outstanding header-relative references is below
    2^32. Under both, the preconditions that exclude a push of offset 0 hold.
    With 2^32 - buffer_size or more header-relative references outstanding,
    the word wraps, and a later publish or release can push offset 0.

Two behaviours of `fastpub.c` are kept as written:

- `fastpub_pubopen` never assigns `info->current`, so it holds 0 from the
  freshly sized object. Until the first publish, `current` therefore
  designates the header, and the 32-bit word at offset 0 is
  `info->buffer_size`. The model carries that word (`sizeWord`):
  - a `fastpub_current` before the first publish increments it;
  - the first publish decrements it (`SlotPool.FirstPublish`);
  - releasing the header-relative address decrements it.
- The set-up loop threads every slot except the first, slots `1 ..
  max_subscribers + 1`, onto the free list. Slot 0 becomes `next`.

## Model

| member | source | states |
|---|---|---|
| Word.Inc | fastpub.c:215 | `refcount++` on a uint32: one more, except that 2^32-1 wraps to 0 |
| Word.Dec | fastpub.c:226 | `--refcount` on a uint32: the result is 0 exactly when the count was 1, which is exactly when the source pushes the slot; 0 wraps to 2^32-1 |
| Word.DecInc | fastpub.c:213-228 | a decrement undoes an increment, wrap-around included |
| Layout.OffsetRoundTrip | fastpub.c:86-95 | the offset word written for a reference converts back to that reference |
| Layout.OffsetInjective | fastpub.c:98 | distinct references have distinct offsets, so no slot can be mistaken for the list terminator 0 |
| Layout.PayloadRoundTrip | fastpub.c:225-227 | every in-bounds reference's payload address is a payload address, and `fastpub_release`'s step back from it recovers the reference |
| Layout.PayloadInverse | fastpub.c:218 | every payload address is the address `fastpub_current` returns for the in-bounds slot it steps back to |
| Layout.SlotsTileSegment | fastpub.c:61-62 | slot offsets fit 32 bits and lie back to back after the header in index order; the last payload ends exactly at the segment size |
| Counting.FreeCount | fastpub.c:85 | a duplicate-free list of the unreferenced slots other than `next` has length `buffer_count` minus one minus the number of reader-held slots |
| SlotPool.InitialInv | fastpub.c:81-100 | after set-up the invariant holds: `next` is slot 0, `current` is offset 0, every refcount is 0, and the free list is slots 1 .. max_subscribers+1 in ascending address order, ending in link 0 |
| SlotPool.ThreadsPush | fastpub.c:171-176 | `_push_slack` of a slot not on the list makes it the head, links it to the old head, and keeps the rest of the list intact |
| SlotPool.ThreadsPop | fastpub.c:178-185 | `_pop_slack` on a non-empty list returns its head and leaves exactly its tail threaded |
| SlotPool.PushThenPop | fastpub.c:171-185 | a pop right after a push of `o` returns `o` and restores the old head; nothing else changes except `o`'s link |
| SlotPool.ThreadsUnref | fastpub.c:194-197 | dropping a reference keeps the free list threaded, with the slot pushed exactly when its count reaches 0 |
| SlotPool.UnrefWords | fastpub.c:195-196 | dropping a reference decrements one count word and leaves `next`, `current` and every other count unchanged |
| SlotPool.FreeSlotsUnused | fastpub.c:194-204 | under the invariant, every slot on the free list has refcount 0, and neither `next` nor `current` is on it |
| SlotPool.RoomAtPublish | fastpub.c:203-204 | capacity: after the old current's reference is dropped, the list is `buffer_count` minus one minus the reader-held slots long, so it is non-empty if and only if readers hold at most `max_subscribers` slots |
| SlotPool.PublishKeepsInv | fastpub.c:187-208 | publish is defined under the capacity contract and keeps the invariant. The new `current` is the old `next` with refcount 1, and the new `next` is the old list head, now removed from the list. The old current loses exactly one reference and is pushed exactly when that was its last; all other refcounts are unchanged |
| SlotPool.PublishThreads | fastpub.c:194-204 | publish is defined under the capacity contract; with the old current pushed exactly when its count reaches 0, the list is non-empty, its head becomes `next`, and its tail stays threaded |
| SlotPool.PublishCounts | fastpub.c:194-200 | after publish the new `current` is the old `next` with refcount 1, an old current slot has one reference fewer, every other refcount is unchanged, and each refcount equals its reader references plus one for the `current` role, below 2^32 |
| SlotPool.FirstPublish | fastpub.c:191-204 | the first publish after set-up makes slot 0 `current` with refcount 1, slot 1 `next`, and slot 2 (or 0) the list head, and decrements the header's buffer_size word |
| SlotPool.InitialHeaderCount | fastpub.c:83-87 | at set-up the word at offset 0 is buffer_size and no header-relative reference exists |
| SlotPool.PublishHeaderCount | fastpub.c:191-196 | publish keeps the header word's account: the first publish, while `current` is offset 0, decrements the word; later ones do not touch it |
| SlotPool.CurrentHeaderCount | fastpub.c:214-215 | a reference taken while `current` is offset 0 increments the word there, in step with the count of header-relative references |
| SlotPool.UnrefHeaderCount | fastpub.c:195-196 | dropping a header-relative reference decrements the word at offset 0 in step with the count of header-relative references; dropping a slot reference leaves the account alone |
| SlotPool.ReleaseHeaderCount | fastpub.c:225-226 | releasing a header-relative address decrements the word at offset 0, in step with the count of header-relative references |
| SlotPool.CurrentKeepsInv | fastpub.c:210-219 | taking a reference on `current` raises its refcount by exactly one, leaves `next`, `current`, `slack`, the links and every other refcount unchanged, and keeps the invariant |
| SlotPool.UnrefKeepsInv | fastpub.c:226-228 | dropping a held reference decrements that slot's refcount by one, pushes it exactly when the count reaches 0, and keeps the invariant |
| SlotPool.ReleaseKeepsInv | fastpub.c:221-230 | releasing a held payload address decrements that slot's refcount by one, pushes it exactly when the count reaches 0, and keeps the invariant |
| SlotPool.CurrentThenRelease | fastpub.c:213-228 | `fastpub_current` followed by `fastpub_release` of the address it returned, with no publish between, restores every word of the pool |
| FastPub.Segment.PubOpen | fastpub.c:61-112 | the segment size is `H + (64 + buffer_size) * (max_subscribers + 2)`, `buffer_count` is `max_subscribers + 2`, the words are the initial layout, `ready` is the sentinel, and the invariant holds |
| FastPub.Segment.CreateLayout | fastpub.c:82-112 | from the sized object, writes `buffer_size`, `next` and `slack`, threads the slots and sets `ready` last; the words are then exactly the initial layout, the free list is slots 1 .. max_subscribers+1 in order, no reference is held, and `Valid()` holds |
| FastPub.Segment.ThreadSlots | fastpub.c:88-100 | the set-up loop gives every slot from 1 up refcount 0, links each to the next one, ends the list with link 0, and leaves slot 0's words untouched |
| FastPub.Segment.HeaderWordAboveOne | fastpub.c:191-196 | in a valid segment with buffer_size at least 2 and buffer_size plus the outstanding header-relative references below 2^32, while `current` is offset 0 or header-relative references are held, the word at offset 0 is at least 2, so no decrement at fastpub.c:195 or :226 pushes offset 0 |
| FastPub.Segment.NextBuf | fastpub.c:166-169 | returns `next`'s payload address, which steps back to `next`; no state changes |
| FastPub.Segment.PushSlack | fastpub.c:171-176 | performs `SlotPool.PushSlack` in place: only the pushed slot's link and `slack` change |
| FastPub.Segment.PopSlack | fastpub.c:178-185 | returns the old head and performs `SlotPool.PopSlack` in place: only `slack` changes |
| FastPub.Segment.Unref | fastpub.c:195-197 | performs `SlotPool.Unref` in place: decrements the designated count word and pushes its slot exactly when the count reaches 0 |
| FastPub.Segment.Rotate | fastpub.c:194-204 | performs `SlotPool.Publish` in place: drops the old current's reference, promotes `next` with refcount 1 and pops the new `next` |
| FastPub.Segment.Publish | fastpub.c:187-208 | performs `SlotPool.Publish` in place under the capacity contract and keeps `Valid()`; the free list loses its head and gains the old current exactly when that was its last reference |
| FastPub.Segment.Current | fastpub.c:210-219 | performs `SlotPool.Current` in place, returns `current`'s payload address, records one more subscriber reference (on the slot, or on the header word before the first publish), and keeps `Valid()` |
| FastPub.Segment.TakeCurrent | fastpub.c:213-218 | performs `SlotPool.Current` in place and returns `current`'s payload address |
| FastPub.Segment.NextUpdate | fastpub.c:237-241 | after the wake-up, the same step and result as `fastpub_current` |
| FastPub.Segment.Release | fastpub.c:221-230 | performs `SlotPool.Release` in place on a held address, records one subscriber reference fewer, and keeps `Valid()` |
| FastPub.Segment.Drop | fastpub.c:226-228 | performs `SlotPool.Unref` in place on a held reference, records one subscriber reference fewer (on the slot, or on the header word), and keeps `Valid()` |

## Left out

- Shared-memory plumbing is not modelled: `shm_open`, `ftruncate`, `mmap`, `munmap`, `close`, `shm_unlink`, and their failure paths. Neither is the `malloc`/`strdup`/`free` handle bookkeeping in `fastpub_pubopen`, `fastpub_subopen` and `fastpub_close`. The segment is modelled as already sized and zero-filled.
- The process-shared mutex and condition variable are not modelled. Each operation is one atomic step. The blocking `pthread_cond_wait` in `fastpub_next_update` is not modelled, only the refcount step after it.
- `fastpub_subopen`'s discovery loop is not modelled: the `lseek` sizing, the retry with `usleep`, and the polling on the `ready` sentinel are timing and I/O. `ready` is a field, written last at set-up.
- Payload bytes are not modelled. No operation reads or writes them.
- fastpub.h (prototypes and the handle struct) and main.c (a demo program) are not part of this model.
- Segment size: `ValidGeometry` requires the segment to fit in 2^32 bytes. The source stores offsets in uint32 words, and `fastpub_release` truncates to 32 bits, so larger segments would wrap. That wrap is not modelled.
- FastPub.Segment.PubOpen: starts from a zero-filled object, so `current` and slot 0's refcount and link are 0. The source does not guarantee this:
  - `shm_open` with `O_CREAT` reopens an existing object, and `fastpub_close` never unlinks it;
  - `ftruncate` to the same size keeps the old bytes;
  - the set-up loop resets only slots 1 .. max_subscribers+1 (`FastPub.Segment.ThreadSlots` states this and assumes nothing about slot 0; the zero-fill is assumed only by `PubOpen` and `CreateLayout`).

  A publisher re-run on a surviving name therefore starts with a stale `current` and stale slot-0 words. For example, if the stale `current` is slot 0 with refcount 1, the first publish pushes slot 0, which is also `next`, then pops it straight back as `next`, leaving `current == next`. Set-up over such leftover state is not modelled.
- The header word `buffer_count` is modelled as a constant. Only a push of offset 0 would overwrite it (word offset 4 is that slot's link), and that push is excluded (see `FastPub.Segment.Unref` below).
- FastPub.Segment.Unref: requires (through `CanUnref`) that, when it designates offset 0, the word there is not 1. From 1 the source's decrement reaches 0 and pushes offset 0 onto the free list (fastpub.c:195-196 and 226-227), writing the old `slack` into `buffer_count` and setting `slack` to 0. That push is not modelled.
- FastPub.Segment.Publish: requires that, if `current` is still offset 0, the buffer_size word is not 1. With 1, the source pushes offset 0 as described under `FastPub.Segment.Unref`. The pop in the same call then returns 0 as the new `next` and reads `slack` back from `buffer_count`, so the following `fastpub_nextbuf` returns an address inside the header. That path is not modelled. `FastPub.Segment.HeaderWordAboveOne` shows it cannot arise when buffer_size is at least 2 and buffer_size plus the outstanding header-relative references is below 2^32.
- FastPub.Segment.Publish: requires that readers hold at most `max_subscribers` distinct slots. Beyond that, `slack` is 0 when the pop runs, so the source returns 0 as the new `next` and reads `slack` from `buffer_count`. That path is not modelled.
- FastPub.Segment.Release: requires a reference to be held on the address. When the address is the header-relative one, it also requires the word at offset 0 not to be 1, which `FastPub.Segment.HeaderWordAboveOne` guarantees when buffer_size is at least 2 and buffer_size plus the outstanding header-relative references is below 2^32. The source checks neither condition, and the paths they exclude are not modelled:
  - An extra release on a slot that is still referenced elsewhere (it is `current`, or another reader holds it) can bring its count to 0 while it is still in use. This happens either at once, when exactly one other reference remains, or at a later legitimate release. The source then pushes a slot that is still in use, and a later publish can pop it as `next` while a reader is reading it.
  - An extra release on a count that is already 0 wraps it to 2^32-1.
- FastPub.Segment.Drop: the same preconditions as `FastPub.Segment.Release`, stated on the slot the address steps back to.
- FastPub.Segment.Current: requires the current slot's refcount to be below 2^32-1, so the increment never wraps. The header word's increment does wrap, as in the source.
- FastPub.Segment.NextUpdate: the same refcount bound as `FastPub.Segment.Current`.
- SlotPool.CurrentThenRelease: requires, before the first publish, a buffer_size word other than 0. With 0, the increment makes it 1, and the release would push offset 0.
