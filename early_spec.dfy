/** The early allocator of ArceOS (`EarlyAllocator<PAGE_SIZE>`) as values: one
    contiguous region whose low end serves byte allocations growing upward
    from `bPos` and whose high end serves pages growing downward from `pPos`.

        [ bytes-used | avail-area | pages-used ]
        start       bPos         pPos       end

    Each operation is a function from the old cursors to the new ones and the
    result handed back; the class in allocator.dfy is proved against them. */
module EarlySpec {
  import opened Usize

  datatype AllocError = NoMemory | Unsupported

  /** AllocResult<T> of the allocator interfaces. */
  datatype Result<T> = Ok(value: T) | Err(error: AllocError)

  /** The five cursors of the allocator, with its compile-time PAGE_SIZE. */
  datatype State = State(pageSize: nat, start: nat, bPos: nat, pPos: nat, end: nat, bytesAlloced: nat)

  /** The state an operation leaves and the value it hands back. */
  datatype Outcome<T> = Outcome(state: State, result: Result<T>)

  /** The invariant of the byte side, which every operation keeps: the byte
      cursor stays between `start` and the page cursor, every field is a
      usize, and the live byte volume never exceeds the bytes handed out since
      the area was last reclaimed. */
  predicate Valid(s: State) {
    0 < s.pageSize <= MAX &&
    s.start <= s.bPos <= s.pPos <= MAX && s.end <= MAX &&
    s.bytesAlloced <= s.bPos - s.start
  }

  /** The page side of the layout: the pages in use are whole pages
      `[pPos, end)` under a page-aligned `end`. Holds after `Init` exactly when
      the region ends on a page boundary (InitPageLayout). */
  predicate PageLayout(s: State) {
    Valid(s) && s.pPos <= s.end && s.end % s.pageSize == 0 && s.pPos % s.pageSize == 0
  }

  // ---------------------------------------------------------------- lifecycle

  /** `new`: the zeroed, not yet initialised allocator. */
  function New(pageSize: nat): (s: State)
    requires 0 < pageSize <= MAX
    ensures s.pageSize == pageSize
    ensures s.start == s.bPos == s.pPos == s.end == s.bytesAlloced == 0
    ensures Valid(s) && UsedBytes(s) == 0 && TotalBytes(s) == 0
  {
    State(pageSize, 0, 0, 0, 0, 0)
  }

  /** `init(start, size)`: claims `[start, start + size)`. The page cursor is
      the region's end and `end` is that address rounded down to a page
      boundary; `bytesAlloced` is left as it was. */
  function Init(s: State, start: nat, size: nat): (r: State)
    requires 0 < s.pageSize <= MAX && start + size <= MAX
    ensures r.pageSize == s.pageSize && r.bytesAlloced == s.bytesAlloced
    ensures r.start == r.bPos == start && r.pPos == start + size
    ensures r.end % s.pageSize == 0 && r.end <= start + size < r.end + s.pageSize
    ensures Valid(r) <==> s.bytesAlloced == 0
  {
    var x := start + size;
    var rem := x % s.pageSize;
    RoundDown(x, s.pageSize);
    assert 0 <= rem < s.pageSize && (x - rem) % s.pageSize == 0;
    s.(start := start, bPos := start, pPos := x, end := x - rem)
  }

  /** The page layout is established by `init` exactly when the region ends
      on a page boundary; otherwise the page cursor starts above `end`. */
  lemma InitPageLayout(s: State, start: nat, size: nat)
    requires 0 < s.pageSize <= MAX && start + size <= MAX && s.bytesAlloced == 0
    ensures PageLayout(Init(s, start, size)) <==> (start + size) % s.pageSize == 0
    ensures (start + size) % s.pageSize != 0 ==> Init(s, start, size).pPos > Init(s, start, size).end
  {
    var x := start + size;
    DivModUnique(x, s.pageSize, x / s.pageSize, x % s.pageSize);
  }

  /** `add_memory`: a second, disjoint region cannot be represented by one
      pair of cursors, so the call is refused and nothing changes. */
  function AddMemory(s: State, start: nat, size: nat): (o: Outcome<()>)
    ensures o.result == Err(Unsupported) && o.state == s
  {
    Outcome(s, Err(Unsupported))
  }

  // ---------------------------------------------------------------- bytes

  /** `alloc(layout)`: bump `bPos` by the requested size when it fits below
      the page cursor. The layout's alignment is ignored, as in the source. */
  function Alloc(s: State, size: nat): (o: Outcome<nat>)
    requires Valid(s)
    ensures o.result == Err(NoMemory) <==> s.bPos + size > s.pPos
    ensures o.result.Err? ==> o.result == Err(NoMemory) && o.state == s
    ensures o.result.Ok? ==>
      o.result.value == s.bPos &&
      o.state == s.(bPos := s.bPos + size, bytesAlloced := s.bytesAlloced + size)
    ensures Valid(o.state)
    ensures PageLayout(s) ==> PageLayout(o.state)
  {
    if size > s.pPos - s.bPos then Outcome(s, Err(NoMemory))
    else Outcome(s.(bPos := s.bPos + size, bytesAlloced := s.bytesAlloced + size), Ok(s.bPos))
  }

  /** A granted byte range lies in the free middle area of the old state: in
      `[start, pPos)`, above every byte handed out before it and below every
      page, so it overlaps neither. */
  lemma AllocRange(s: State, size: nat)
    requires Valid(s) && Alloc(s, size).result.Ok?
    ensures var a := Alloc(s, size).result.value;
      s.start <= s.bPos == a && a + size <= s.pPos &&
      a + size == Alloc(s, size).state.bPos
  {
  }

  /** `dealloc(pos, layout)`: the live byte volume drops by the size freed;
      when it reaches zero the whole byte area is reclaimed by moving `bPos`
      back to `start`. `pos` is not consulted. The caller may not free more
      than is live (usize underflow in the source). */
  function Dealloc(s: State, size: nat): (r: State)
    requires Valid(s) && size <= s.bytesAlloced
    ensures r.bytesAlloced == s.bytesAlloced - size
    ensures r.bytesAlloced == 0 ==> r.bPos == s.start
    ensures r.bytesAlloced != 0 ==> r.bPos == s.bPos
    ensures r.(bPos := s.bPos, bytesAlloced := s.bytesAlloced) == s
    ensures Valid(r)
    ensures PageLayout(s) ==> PageLayout(r)
  {
    var count := s.bytesAlloced - size;
    if count == 0 then s.(bytesAlloced := 0, bPos := s.start)
    else s.(bytesAlloced := count)
  }

  /** `used_bytes`: the bytes `[start, bPos)` handed out since the last
      reclamation. With the available bytes they make up `[start, pPos)`. */
  function UsedBytes(s: State): (r: nat)
    requires Valid(s)
    ensures r + AvailableBytes(s) == s.pPos - s.start
  {
    s.bPos - s.start
  }

  /** `available_bytes`: the free middle area `[bPos, pPos)`, which is the
      largest request `alloc` grants right now. */
  function AvailableBytes(s: State): (r: nat)
    requires Valid(s)
    ensures Alloc(s, r).result.Ok? && Alloc(s, r + 1).result == Err(NoMemory)
  {
    s.pPos - s.bPos
  }

  /** `total_bytes`: the span `[start, pPos)` usable for bytes right now; it
      shrinks as pages are taken. It is the largest request `alloc` would
      grant once the byte area is reclaimed. */
  function TotalBytes(s: State): (r: nat)
    requires Valid(s)
    ensures var empty := s.(bPos := s.start, bytesAlloced := 0);
      Alloc(empty, r).result.Ok? && Alloc(empty, r + 1).result == Err(NoMemory)
  {
    s.pPos - s.start
  }

  /** The byte queries partition the byte-capable span, and an allocation
      succeeds exactly when it fits the available bytes. */
  lemma ByteAccounting(s: State, size: nat)
    requires Valid(s)
    ensures UsedBytes(s) + AvailableBytes(s) == TotalBytes(s)
    ensures Alloc(s, size).result.Ok? <==> size <= AvailableBytes(s)
    ensures Alloc(s, size).result.Ok? ==>
      UsedBytes(Alloc(s, size).state) == UsedBytes(s) + size &&
      AvailableBytes(Alloc(s, size).state) + size == AvailableBytes(s)
  {
  }

  // ---------------------------------------------------------------- pages

  /** `alloc_pages(numPages, alignPow2)`: lower `pPos` by `numPages` pages
      unless that would cross the byte cursor; the new `pPos` is the first
      page handed out. `alignPow2` is ignored, as in the source. The check is
      written subtraction-first so that it cannot underflow. */
  function AllocPages(s: State, numPages: nat, alignPow2: nat): (o: Outcome<nat>)
    requires Valid(s)
    ensures o.result == Err(NoMemory) <==> s.pPos < s.bPos + numPages * s.pageSize
    ensures o.result.Err? ==> o.result == Err(NoMemory) && o.state == s
    ensures o.result.Ok? ==>
      o.state == s.(pPos := s.pPos - numPages * s.pageSize) &&
      o.result.value == o.state.pPos
    ensures Valid(o.state)
    ensures PageLayout(s) ==> PageLayout(o.state) && o.state.pPos % s.pageSize == 0
  {
    var bytes := numPages * s.pageSize;
    if bytes > s.pPos - s.bPos then Outcome(s, Err(NoMemory))
    else
      ShiftByMultiple(s.pPos - bytes, numPages, s.pageSize);
      Outcome(s.(pPos := s.pPos - bytes), Ok(s.pPos - bytes))
  }

  /** A granted page range `[a, a + numPages * pageSize)` ends exactly at the
      old page cursor and starts at or above the byte cursor, so it overlaps
      neither the byte area nor the pages granted earlier; with the page
      layout it is page-aligned and the layout is kept. */
  lemma AllocPagesRange(s: State, numPages: nat, alignPow2: nat)
    requires Valid(s) && AllocPages(s, numPages, alignPow2).result.Ok?
    ensures var a := AllocPages(s, numPages, alignPow2).result.value;
      s.bPos <= a && a + numPages * s.pageSize == s.pPos
    ensures PageLayout(s) ==> AllocPages(s, numPages, alignPow2).result.value % s.pageSize == 0
  {
  }

  /** Page allocation succeeds exactly when the request fits in the whole
      pages of the free middle area. */
  lemma AllocPagesFitsGap(s: State, numPages: nat, alignPow2: nat)
    requires Valid(s)
    ensures AllocPages(s, numPages, alignPow2).result.Ok? <==>
      numPages <= AvailableBytes(s) / s.pageSize
  {
    FitsInBlocks(numPages, s.pageSize, s.pPos - s.bPos);
  }

  /** `used_pages`: whole pages in `[pPos, end)`. */
  function UsedPages(s: State): nat
    requires PageLayout(s)
  {
    (s.end - s.pPos) / s.pageSize
  }

  /** Under the page layout `[pPos, end)` is exactly `used_pages` whole
      pages. */
  lemma UsedPagesExact(s: State)
    requires PageLayout(s)
    ensures UsedPages(s) * s.pageSize == s.end - s.pPos
  {
    AlignedDiff(s.end, s.pPos, s.pageSize);
    RoundDownIsFloor(s.end - s.pPos, s.pageSize);
  }

  /** `total_pages`: whole pages in `[start, end)`. */
  function TotalPages(s: State): nat
    requires Valid(s) && s.start <= s.end
  {
    (s.end - s.start) / s.pageSize
  }

  /** `total_pages` is the number of whole pages that fit in `[start, end)`:
      that many fit, and one more does not. */
  lemma TotalPagesFloor(s: State)
    requires Valid(s) && s.start <= s.end
    ensures TotalPages(s) * s.pageSize <= s.end - s.start < TotalPages(s) * s.pageSize + s.pageSize
  {
    RoundDown(s.end - s.start, s.pageSize);
    RoundDownIsFloor(s.end - s.start, s.pageSize);
  }

  /** `available_pages`: total minus used, which is the number of whole pages
      in `[start, pPos)`, the span below the page cursor. */
  function AvailablePages(s: State): (r: nat)
    requires PageLayout(s)
    ensures r == (s.pPos - s.start) / s.pageSize
    ensures UsedPages(s) + r == TotalPages(s)
  {
    PageSplit(s);
    TotalPages(s) - UsedPages(s)
  }

  /** The pages of `[start, end)` are those in use above `pPos` and those
      below it. */
  lemma PageSplit(s: State)
    requires PageLayout(s)
    ensures TotalPages(s) == UsedPages(s) + (s.pPos - s.start) / s.pageSize
  {
    SplitBlocks(s.start, s.pPos, s.end, s.pageSize);
  }

  /** A successful page allocation of `numPages` raises `used_pages` by
      exactly `numPages` and lowers `available_pages` by as many; a failed one
      changes neither. */
  lemma UsedPagesAfterAllocPages(s: State, numPages: nat, alignPow2: nat)
    requires PageLayout(s)
    ensures var o := AllocPages(s, numPages, alignPow2);
      PageLayout(o.state) &&
      UsedPages(o.state) == UsedPages(s) + (if o.result.Ok? then numPages else 0) &&
      AvailablePages(o.state) + (if o.result.Ok? then numPages else 0) == AvailablePages(s)
  {
    var o := AllocPages(s, numPages, alignPow2);
    if o.result.Ok? {
      AllocPagesRange(s, numPages, alignPow2);
      AlignedDiff(s.end, s.pPos, s.pageSize);
      ShiftByMultiple(s.end - s.pPos, numPages, s.pageSize);
      assert s.end - o.state.pPos == (s.end - s.pPos) + numPages * s.pageSize;
    }
  }
}
