/** Three operations of lib.rs exactly as they are written, next to the
    corrected definitions of EarlySpec that the rest of the model uses. They
    apply to any state whose fields are usizes, including the states the code
    as written reaches and EarlySpec.Valid excludes. The arithmetic is usize
    arithmetic in a build without overflow checks (with overflow checks the
    wrapping cases panic instead). Each is shown to agree with the corrected
    definition away from the defect, and concrete states exhibit the defect. */
module AsWritten {
  import opened Usize
  import E = EarlySpec

  /** What the machine guarantees of any state: every field is a usize, and
      PAGE_SIZE is positive. */
  predicate Machine(s: E.State) {
    0 < s.pageSize <= MAX &&
    IsUsize(s.start) && IsUsize(s.bPos) && IsUsize(s.pPos) && IsUsize(s.end) &&
    IsUsize(s.bytesAlloced)
  }

  /** `dealloc` as written: the counter drops by `size` in usize, and when it
      reaches zero `start` is stored into the counter. Only the counter is
      ever written: `bPos` never moves back, so the byte area is never
      reclaimed. */
  function Dealloc(s: E.State, size: nat): (r: E.State)
    requires Machine(s) && IsUsize(size)
    ensures Machine(r)
    ensures r.(bytesAlloced := s.bytesAlloced) == s
    ensures s.bytesAlloced == size ==> r.bytesAlloced == s.start
    ensures size < s.bytesAlloced ==> r.bytesAlloced == s.bytesAlloced - size
    ensures s.bytesAlloced < size ==> r.bytesAlloced == LIMIT + s.bytesAlloced - size
    ensures E.Valid(s) && size < s.bytesAlloced ==> r == E.Dealloc(s, size)
  {
    var count := WrappingSub(s.bytesAlloced, size);
    if count == 0 then s.(bytesAlloced := s.start) else s.(bytesAlloced := count)
  }

  /** Freeing the only live allocation of a region at 0x1000: the byte area
      is not reclaimed, and the counter now claims 0x1000 live bytes where
      only 0x10 were ever handed out; the corrected dealloc reclaims it. */
  lemma DeallocLeavesBytesUsed(s: E.State)
    requires s == E.State(0x1000, 0x1000, 0x1010, 0x5000, 0x5000, 0x10)
    ensures E.Valid(s)
    ensures var r := Dealloc(s, 0x10);
      r == s.(bytesAlloced := 0x1000) && !E.Valid(r)
    ensures E.UsedBytes(E.Dealloc(s, 0x10)) == 0 && E.Dealloc(s, 0x10).bytesAlloced == 0
  {
  }

  /** After the counter has been reset to `start`, a later allocation and its
      free leave the counter at `start` again, and the byte cursor has moved
      up by both allocations: the area is never reclaimed. The corrected
      operations hand out `start` again and end with the area empty. */
  lemma DeallocNeverReclaims(s: E.State)
    requires s == E.State(0x1000, 0x1000, 0x1000, 0x5000, 0x5000, 0)
    ensures Machine(s) && E.Valid(s)
    ensures var a1 := Alloc(s, 0x10);
      var d1 := Dealloc(a1.state, 0x10);
      var a2 := Alloc(d1, 0x20);
      var d2 := Dealloc(a2.state, 0x20);
      a1.result == E.Ok(0x1000) && a2.result == E.Ok(0x1010) &&
      d2 == s.(bPos := 0x1030, bytesAlloced := 0x1000)
    ensures var a1 := E.Alloc(s, 0x10);
      var d1 := E.Dealloc(a1.state, 0x10);
      var a2 := E.Alloc(d1, 0x20);
      var d2 := E.Dealloc(a2.state, 0x20);
      a1.result == E.Ok(0x1000) && a2.result == E.Ok(0x1000) && d2 == s
  {
  }

  /** `alloc` as written: the fit test `b_pos + size > p_pos` and the bump
      are computed in usize. A refusal changes nothing, and a grant returns
      the old `bPos` and moves only `bPos` and the counter. */
  function Alloc(s: E.State, size: nat): (o: E.Outcome<nat>)
    requires Machine(s) && size <= ISIZE_MAX
    ensures Machine(o.state)
    ensures o.result.Err? ==> o.result == E.Err(E.NoMemory) && o.state == s
    ensures o.result.Ok? ==>
      o.result.value == s.bPos && o.state.start == s.start && o.state.pPos == s.pPos &&
      o.state.end == s.end && o.state.pageSize == s.pageSize
    ensures E.Valid(s) && s.bPos + size <= MAX ==> o == E.Alloc(s, size)
  {
    if WrappingAdd(s.bPos, size) > s.pPos then E.Outcome(s, E.Err(E.NoMemory))
    else
      E.Outcome(s.(bPos := WrappingAdd(s.bPos, size),
                   bytesAlloced := WrappingAdd(s.bytesAlloced, size)),
                E.Ok(s.bPos))
  }

  /** A 64 KiB region in the kernel's upper half and the largest size a
      Layout can carry: the sum wraps below `pPos`, the request is granted,
      and the byte cursor lands below `start`. The corrected alloc refuses. */
  lemma AllocWrapsBelowStart(s: E.State, size: nat)
    requires s == E.State(0x1000, 0xffff_ffc0_8020_0000, 0xffff_ffc0_8020_0000,
                          0xffff_ffc0_8021_0000, 0xffff_ffc0_8021_0000, 0)
    requires size == ISIZE_MAX
    ensures E.Valid(s)
    ensures var o := Alloc(s, size);
      o.result == E.Ok(s.bPos) && o.state.bPos < s.start && !E.Valid(o.state)
    ensures E.Alloc(s, size).result == E.Err(E.NoMemory)
  {
  }

  /** `alloc_pages` as written: `p_pos - num_pages * PAGE_SIZE` is computed
      in usize and then compared with `b_pos`. A refusal changes nothing, and
      a grant moves only `pPos`, to the address it returns. */
  function AllocPages(s: E.State, numPages: nat, alignPow2: nat): (o: E.Outcome<nat>)
    requires Machine(s) && IsUsize(numPages)
    ensures Machine(o.state)
    ensures o.result.Err? ==> o.result == E.Err(E.NoMemory) && o.state == s
    ensures o.result.Ok? ==> o.state == s.(pPos := o.result.value)
    ensures E.Valid(s) && numPages * s.pageSize <= s.pPos ==> o == E.AllocPages(s, numPages, alignPow2)
  {
    var candidate := WrappingSub(s.pPos, WrappingMul(numPages, s.pageSize));
    if candidate < s.bPos then E.Outcome(s, E.Err(E.NoMemory))
    else E.Outcome(s.(pPos := candidate), E.Ok(candidate))
  }

  /** The region `[0x1000, 0x5000)` with 16 bytes in use: six pages are more
      than `pPos` itself, the subtraction wraps to the top of the address
      space, and a "page" far outside the region is granted with the page
      cursor above `end`. The corrected alloc_pages refuses. */
  lemma AllocPagesWrapsAboveEnd(s: E.State, numPages: nat)
    requires s == E.State(0x1000, 0x1000, 0x1010, 0x5000, 0x5000, 0x10) && numPages == 6
    ensures E.PageLayout(s)
    ensures var o := AllocPages(s, numPages, 0x1000);
      o.result == E.Ok(LIMIT - 0x1000) && o.state.pPos > s.end && !E.PageLayout(o.state)
    ensures E.AllocPages(s, numPages, 0x1000).result == E.Err(E.NoMemory)
  {
  }
}
