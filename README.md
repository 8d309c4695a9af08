# ArceOS early allocator in Dafny

This project models `EarlyAllocator<PAGE_SIZE>`, the allocator ArceOS uses
during boot, before its real byte and page allocators are running. The
allocator owns one contiguous region `[start, end)` and serves requests from
both ends of it:

```
[ bytes-used | avail-area | pages-used ]
start       b_pos        p_pos       end
```

- Byte allocations move the cursor `b_pos` up.
- Page allocations move the cursor `p_pos` down.
- `bytes_alloced` holds the volume of live byte allocations. When it drops to
  zero, the whole byte area is reclaimed at once.
- Pages are never given back.

The whole state is five usize fields. Every operation is a fit check plus a
few additions or subtractions.

Files:

- `usize.dfy` (module `Usize`): the 64-bit usize range; wrapping add, sub and
  mul as a build without overflow checks computes them; division facts about
  multiples of the page size.
- `early_spec.dfy` (module `EarlySpec`): the allocator as a value `State`.
  Covers the two invariants `Valid` (byte side) and `PageLayout` (page side),
  one function per operation and per query, and the lemmas about single calls.
- `early_traces.dfy` (module `EarlyTraces`): runs of calls after `init`.
  Covers the invariant across any run, pages never being reclaimed, bulk
  reclamation of the byte area, and a worked scenario.
- `allocator.dfy` (module `Allocator`): `class EarlyAllocator` with the five
  fields. Its `&mut self` operations are methods with `modifies this` that
  update the fields in place, as `lib.rs` does. Each one is proved to leave the
  state and return the value that the matching `EarlySpec` function prescribes.
- `as_written.dfy` (module `AsWritten`): three operations exactly as `lib.rs`
  writes them, in wrapping usize arithmetic. They apply to any state whose
  fields are usizes, including the states the code reaches that break the
  corrected invariant. Concrete states show each defect (see Findings).

Seven operations of the source are `todo!()` stubs: `add_memory`,
`available_bytes`, `total_bytes`, `available_pages`, `dealloc_pages`,
`total_pages` and `used_pages`. The model gives each the meaning of the layout
diagram at `lib.rs:13-15`:
- `available_bytes = p_pos - b_pos`
- `total_bytes = p_pos - start`
- `used_pages = (end - p_pos) / PAGE_SIZE`
- `total_pages = (end - start) / PAGE_SIZE`
- `available_pages = total_pages - used_pages`
- `dealloc_pages` is a no-op that succeeds, because pages "will never be freed"
  (`lib.rs:19`).
- `add_memory` returns `Unsupported`.

Where the code and the allocator's design description disagree, the model
follows the code, with three exceptions. The first is `dealloc` (below). The
other two are `alloc` (`lib.rs:56`) and `alloc_pages` (`lib.rs:91`): their fit
checks wrap in usize for some requests. `EarlySpec.Alloc` and
`EarlySpec.AllocPages` refuse those requests and agree with the code
everywhere else (Findings rows 2 and 3). The design points:
- The design asks `alloc` and `alloc_pages` to honour the requested alignment.
  The code ignores it, and so does the model.
- The doc comment says the counter records the *number* of allocations. The
  code adds and subtracts *sizes*, and the model counts bytes.
- At `lib.rs:74`, `dealloc` writes `start` into the counter instead of moving
  `b_pos` back to `start`. Here the model follows the documented intent
  (`lib.rs:17-18`). The code as written is kept in `AsWritten.Dealloc` and
  listed under Findings.

## Model

| member | source | states |
|---|---|---|
| EarlySpec.New | arceos/modules/bump_allocator/src/lib.rs:30-38 | the new allocator has all five fields zero, satisfies the invariant, and has no used or total bytes |
| EarlySpec.Init | arceos/modules/bump_allocator/src/lib.rs:42-47 | `b_pos = start`, `p_pos = start + size`, `end` is `start + size` rounded down to a page boundary (aligned, at most `start + size`, less than one page below it), the counter is untouched, and the byte invariant holds exactly when no bytes were live |
| EarlySpec.InitPageLayout | arceos/modules/bump_allocator/src/lib.rs:44-46 | the page layout (`p_pos <= end`, both page-aligned) holds after `init` if and only if `start + size` is page-aligned; otherwise `p_pos` starts above `end` |
| EarlySpec.AddMemory | arceos/modules/bump_allocator/src/lib.rs:49-51 | adding a region is always refused with `Unsupported` and changes nothing |
| EarlySpec.Alloc | arceos/modules/bump_allocator/src/lib.rs:55-65 | fails with `NoMemory` exactly when `b_pos + size > p_pos`, leaving the state unchanged; otherwise returns the old `b_pos`, raises `b_pos` and the counter by `size` and nothing else; both invariants are kept |
| EarlySpec.AllocRange | arceos/modules/bump_allocator/src/lib.rs:56-61 | a granted range `[ret, ret + size)` starts at the old `b_pos`, at or above `start`, and ends at or below `p_pos`, so it overlaps neither earlier bytes nor any page |
| EarlySpec.Dealloc | arceos/modules/bump_allocator/src/lib.rs:71-76 | the counter drops by `size`; when it reaches zero, `b_pos` returns to `start` (the intent stated at lines 17-18); otherwise `b_pos` stays; no other field changes; both invariants are kept |
| EarlySpec.UsedBytes | arceos/modules/bump_allocator/src/lib.rs:82-84 | the bytes used, `[start, b_pos)`, and the available bytes together make up exactly the span `[start, p_pos)` below the page cursor |
| EarlySpec.AvailableBytes | arceos/modules/bump_allocator/src/lib.rs:67-69 | available bytes is the largest request `alloc` grants now: a request of that size succeeds and one byte more is refused |
| EarlySpec.TotalBytes | arceos/modules/bump_allocator/src/lib.rs:78-80 | total bytes is the largest request `alloc` would grant once the byte area is reclaimed: that size succeeds from an empty byte area and one byte more is refused |
| EarlySpec.ByteAccounting | arceos/modules/bump_allocator/src/lib.rs:13-15 | used plus available bytes equals total bytes; `alloc` succeeds if and only if the size fits in the available bytes, and then moves exactly `size` bytes from available to used |
| EarlySpec.AllocPages | arceos/modules/bump_allocator/src/lib.rs:90-96 | fails with `NoMemory` exactly when `p_pos - n*PAGE_SIZE < b_pos` (as integers), leaving the state unchanged; otherwise lowers `p_pos` by exactly `n*PAGE_SIZE`, returns the new `p_pos`, and changes nothing else; both invariants are kept |
| EarlySpec.AllocPagesRange | arceos/modules/bump_allocator/src/lib.rs:91-95 | a granted page range ends exactly at the old `p_pos` and starts at or above `b_pos`; under the page layout it is page-aligned |
| EarlySpec.AllocPagesFitsGap | arceos/modules/bump_allocator/src/lib.rs:91-93 | `alloc_pages(n)` succeeds if and only if `n` is at most the number of whole pages in the free area `[b_pos, p_pos)` |
| EarlySpec.UsedPagesExact | arceos/modules/bump_allocator/src/lib.rs:110-112 | under the page layout, used pages times the page size is exactly the span `[p_pos, end)` |
| EarlySpec.TotalPagesFloor | arceos/modules/bump_allocator/src/lib.rs:106-108 | total pages is the number of whole pages in `[start, end)`: that many pages fit and one more does not |
| EarlySpec.AvailablePages | arceos/modules/bump_allocator/src/lib.rs:98-100 | available pages is the number of whole pages in `[start, p_pos)`, and used plus available pages equals total pages |
| EarlySpec.PageSplit | arceos/modules/bump_allocator/src/lib.rs:106-112 | the total pages of `[start, end)` are the pages used above `p_pos` plus the whole pages below it |
| EarlySpec.UsedPagesAfterAllocPages | arceos/modules/bump_allocator/src/lib.rs:90-96 | a granted `alloc_pages(n)` raises used pages by exactly `n` and lowers available pages by `n`; a refused one changes neither |
| EarlyTraces.Step | arceos/modules/bump_allocator/src/lib.rs:9-19 | every call keeps the byte invariant, fixes `start`, `end` and the page size, never raises `p_pos`, and either does not lower `b_pos` or resets it to `start` |
| EarlyTraces.StepPages | arceos/modules/bump_allocator/src/lib.rs:102-104 | every call keeps the page layout and never lowers used pages |
| EarlyTraces.Run | arceos/modules/bump_allocator/src/lib.rs:17-19 | across any run of calls after `init`, the invariant holds, `start` and `end` stay fixed, and `p_pos` never rises |
| EarlyTraces.RunUsedPages | arceos/modules/bump_allocator/src/lib.rs:19 | across any run under the page layout, the layout holds and used pages never decrease |
| EarlyTraces.PagesNeverReclaimed | arceos/modules/bump_allocator/src/lib.rs:19 | at any later point of a run, `p_pos` is no higher and used pages no lower than at any earlier point |
| EarlyTraces.PagePermanence | arceos/modules/bump_allocator/src/lib.rs:102-104 | `dealloc_pages` after a granted `alloc_pages(n)` leaves the state that the allocation left, with used pages still raised by `n` |
| EarlyTraces.AllocMany | arceos/modules/bump_allocator/src/lib.rs:59-61 | successive allocations that fit all succeed, hand out pairwise disjoint ranges in ascending order inside `[b_pos, new b_pos)`, and raise `b_pos` and the counter by the sum of the sizes |
| EarlyTraces.FreeAll | arceos/modules/bump_allocator/src/lib.rs:71-76 | freeing sizes that add up to no more than the live volume lowers the counter by their sum; the byte area is reclaimed exactly when the counter reaches zero, and `p_pos` is untouched |
| EarlyTraces.BulkReclamation | arceos/modules/bump_allocator/src/lib.rs:17-18 | start with no live bytes, allocate any non-empty list of sizes and free them all in any order: afterwards nothing is live, used bytes is zero, the page side is untouched, and the next allocation that fits returns `start` |
| EarlyTraces.Scenario | arceos/modules/bump_allocator/src/lib.rs:42-96 | on `[0x1000, 0x5000)` with 4 KiB pages: `alloc(0x10)` returns 0x1000 with 0x10 bytes used; `alloc_pages(1)` returns 0x4000 with one page used; `alloc_pages(3)` is refused with the state unchanged |
| Allocator.EarlyAllocator.constructor | arceos/modules/bump_allocator/src/lib.rs:30-38 | the object's fields are those of `EarlySpec.New` |
| Allocator.EarlyAllocator.Init | arceos/modules/bump_allocator/src/lib.rs:42-47 | updates the fields in place to `EarlySpec.Init` of the old fields |
| Allocator.EarlyAllocator.AddMemory | arceos/modules/bump_allocator/src/lib.rs:49-51 | returns `Unsupported` and changes nothing |
| Allocator.EarlyAllocator.Alloc | arceos/modules/bump_allocator/src/lib.rs:55-65 | updates the fields in place and returns exactly what `EarlySpec.Alloc` prescribes |
| Allocator.EarlyAllocator.Dealloc | arceos/modules/bump_allocator/src/lib.rs:71-76 | updates the fields in place to `EarlySpec.Dealloc` of the old fields |
| Allocator.EarlyAllocator.AllocPages | arceos/modules/bump_allocator/src/lib.rs:90-96 | updates the fields in place and returns exactly what `EarlySpec.AllocPages` prescribes |
| Allocator.EarlyAllocator.DeallocPages | arceos/modules/bump_allocator/src/lib.rs:102-104 | succeeds and leaves every field unchanged |
| Allocator.PagesSurviveRelease | arceos/modules/bump_allocator/src/lib.rs:90-104 | a client of the object: after granted pages are released, `p_pos` still sits at the first granted page, exactly `n` pages below its old value, and `b_pos` is untouched |
| AsWritten.Dealloc | arceos/modules/bump_allocator/src/lib.rs:71-76 | `dealloc` as written, on any usize state: only the counter changes, so `b_pos` never moves back; the counter drops by `size`, wraps when `size` exceeds it, and becomes `start` when it reaches zero; on valid states it agrees with `EarlySpec.Dealloc` unless the counter reaches zero |
| AsWritten.DeallocLeavesBytesUsed | arceos/modules/bump_allocator/src/lib.rs:72-75 | freeing the only live 0x10 bytes of a region at 0x1000 leaves `b_pos` at 0x1010 and the counter at 0x1000, which breaks the invariant; the corrected dealloc leaves zero bytes used |
| AsWritten.DeallocNeverReclaims | arceos/modules/bump_allocator/src/lib.rs:55-76 | on a region at 0x1000: `alloc(0x10)`, `dealloc(0x10)`, `alloc(0x20)`, `dealloc(0x20)` as written hands out 0x1010 the second time and ends with `b_pos` at 0x1030 and the counter at 0x1000; the corrected operations hand out 0x1000 again and end with the area empty |
| AsWritten.Alloc | arceos/modules/bump_allocator/src/lib.rs:55-61 | `alloc` with usize wrapping, on any usize state: a refusal changes nothing, a grant returns the old `b_pos` and leaves `start`, `p_pos` and `end` alone; on valid states it agrees with `EarlySpec.Alloc` whenever `b_pos + size` fits in a usize |
| AsWritten.AllocWrapsBelowStart | arceos/modules/bump_allocator/src/lib.rs:56-60 | with a region in the upper half and a size of isize::MAX, the wrapped sum passes the fit check, the request is granted and `b_pos` lands below `start`; the corrected alloc refuses |
| AsWritten.AllocPages | arceos/modules/bump_allocator/src/lib.rs:90-95 | `alloc_pages` with usize wrapping, on any usize state: a refusal changes nothing, a grant moves only `p_pos`, to the address returned; on valid states it agrees with `EarlySpec.AllocPages` whenever `n*PAGE_SIZE <= p_pos` |
| AsWritten.AllocPagesWrapsAboveEnd | arceos/modules/bump_allocator/src/lib.rs:91-94 | asking for 6 pages when `p_pos` is 0x5000 wraps the subtraction: a page at 2^64 - 0x1000, outside the region, is granted and `p_pos` ends up above `end`; the corrected alloc_pages refuses |

## Findings

| source | as written | input that shows it | evidently intended | confidence | as-written member | corrected member |
|---|---|---|---|---|---|---|
| arceos/modules/bump_allocator/src/lib.rs:73-75 | when the counter reaches zero, `self.bytes_alloced = self.start` | region at 0x1000; `alloc(0x10)` then `dealloc(0x10)`: `b_pos` stays 0x1010 and the counter becomes 0x1000 | `self.b_pos = self.start`, reclaiming the byte area (lines 17-18) | high, not executed | `AsWritten.Dealloc`, `AsWritten.DeallocLeavesBytesUsed`, `AsWritten.DeallocNeverReclaims` | `EarlySpec.Dealloc`, `EarlyTraces.BulkReclamation` |
| arceos/modules/bump_allocator/src/lib.rs:56 | fit check `self.b_pos + layout.size() > self.p_pos` in usize | `b_pos = 0xffff_ffc0_8020_0000`, `p_pos = b_pos + 0x10000`, size isize::MAX: the sum wraps below `p_pos` and the request is granted | refuse with `NoMemory`: the check written as `size > p_pos - b_pos` | medium (wraps only in a build without overflow checks; otherwise it panics), not executed | `AsWritten.Alloc`, `AsWritten.AllocWrapsBelowStart` | `EarlySpec.Alloc` |
| arceos/modules/bump_allocator/src/lib.rs:91 | fit check `self.p_pos - num_pages * PAGE_SIZE < self.b_pos` in usize | region `[0x1000, 0x5000)`, 16 bytes used, `alloc_pages(6)`: the subtraction wraps to 2^64 - 0x1000 and the request is granted | refuse with `NoMemory`: the check written as `num_pages * PAGE_SIZE > p_pos - b_pos` | high (wraps without overflow checks, panics with them), not executed | `AsWritten.AllocPages`, `AsWritten.AllocPagesWrapsAboveEnd` | `EarlySpec.AllocPages` |

## Left out

- Alignment: `alloc` ignores `layout.align()` and `alloc_pages` ignores `align_pow2`, in the source and in the model. No alignment of a byte result is promised. Page results are page-aligned only under `PageLayout`.
- EarlySpec.UsedPages, EarlySpec.UsedPagesExact, EarlySpec.AvailablePages, EarlySpec.PageSplit, EarlySpec.UsedPagesAfterAllocPages: these are stated only under `PageLayout`, which `init` establishes only when `start + size` is page-aligned. For an unaligned region end, `p_pos` starts above `end` and `used_pages` is undefined (the source leaves it as `todo!()`).
- EarlySpec.TotalPages, EarlySpec.TotalPagesFloor: require `start <= end`. A region smaller than the distance from `start` to the next page boundary would underflow.
- EarlySpec.Init, Allocator.EarlyAllocator.Init: require `start + size <= usize::MAX`, so the region must fit in the address space. The method also requires no live bytes, because it is called once on a new allocator. `init` does not reset `bytes_alloced`, and the model keeps that.
- EarlySpec.Dealloc, Allocator.EarlyAllocator.Dealloc: require `size <= bytes_alloced`. Freeing more than is live underflows the usize counter in the source, which is a caller error. `AsWritten.Dealloc` models that wrap.
- `dealloc` and `dealloc_pages` receive the address being freed but never read it. The model takes it as a parameter and ignores it. Nothing checks that a freed range was ever handed out.
- The address returned by `alloc` is a natural number, not a `NonNull<u8>`. Pointer creation and what happens at address 0 are not modelled.
- The allocator-interface crate (base, byte and page interfaces, `AllocError`, `AllocResult`) is not part of this model. Only the `NoMemory`/`Unsupported` result shape is kept. Of `core::alloc::Layout`, only the size is used.
- `add_memory` is a stub that returns `Unsupported`. Managing several regions is not modelled.
- `PAGE_SIZE` is a value carried in the state. The model needs only `0 < PAGE_SIZE <= usize::MAX`; the power-of-two requirement is never used.
- The class's query functions (`UsedBytes`, `AvailableBytes`, `TotalBytes`, `UsedPages`, `AvailablePages`, `TotalPages`) delegate to their `EarlySpec` counterparts, where the properties are stated.
- The corrected `alloc_pages` computes `num_pages * PAGE_SIZE` exactly. An implementation needs checked multiplication to get the same answer.
- Concurrency and installation as the global allocator are not modelled: the allocator runs single-threaded during boot.
- `arceos/ulib/axstd/src/collections.rs` is not part of this model. It is a wrapper that forwards to the library `BTreeMap` and has no logic of its own.
