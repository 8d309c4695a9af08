/** `EarlyAllocator<PAGE_SIZE>` as the object the kernel holds: five cursor
    fields that the `&mut self` operations update in place. Each method is
    proved to leave exactly the state, and return exactly the value, that the
    corresponding function of EarlySpec prescribes, so every property proved
    there holds of the object. */
module Allocator {
  import opened Usize
  import opened EarlySpec

  class EarlyAllocator {
    /** The compile-time PAGE_SIZE parameter. */
    const pageSize: nat
    var start: nat
    var bPos: nat
    var pPos: nat
    var end: nat
    var bytesAlloced: nat

    /** The cursors as a value. */
    function View(): State
      reads this
    {
      State(pageSize, start, bPos, pPos, end, bytesAlloced)
    }

    ghost predicate Valid()
      reads this
    {
      EarlySpec.Valid(View())
    }

    /** `new`: every cursor zero. */
    constructor (pageSize: nat)
      requires 0 < pageSize <= MAX
      ensures View() == New(pageSize) && Valid()
    {
      this.pageSize := pageSize;
      start, bPos, pPos, end, bytesAlloced := 0, 0, 0, 0, 0;
    }

    /** `init(start, size)`, called once on an allocator with no live bytes. */
    method Init(start: nat, size: nat)
      requires Valid() && bytesAlloced == 0 && start + size <= MAX
      modifies this
      ensures View() == EarlySpec.Init(old(View()), start, size) && Valid()
    {
      RoundDownIsFloor(start + size, pageSize);
      this.start := start;
      bPos := start;
      pPos := start + size;
      end := (start + size) / pageSize * pageSize;
    }

    /** `add_memory`: always refused; nothing changes. */
    method AddMemory(start: nat, size: nat) returns (r: Result<()>)
      ensures Outcome(View(), r) == EarlySpec.AddMemory(View(), start, size)
    {
      return Err(Unsupported);
    }

    /** `alloc(layout)`, of which only the size is used. */
    method Alloc(size: nat) returns (r: Result<nat>)
      requires Valid()
      modifies this
      ensures Outcome(View(), r) == EarlySpec.Alloc(old(View()), size) && Valid()
    {
      if size > pPos - bPos {
        return Err(NoMemory);
      }
      var ret := bPos;
      bPos := bPos + size;
      bytesAlloced := bytesAlloced + size;
      return Ok(ret);
    }

    /** `dealloc(pos, layout)`, of which only the size is used. */
    method Dealloc(pos: nat, size: nat)
      requires Valid() && size <= bytesAlloced
      modifies this
      ensures View() == EarlySpec.Dealloc(old(View()), size) && Valid()
    {
      bytesAlloced := bytesAlloced - size;
      if bytesAlloced == 0 {
        bPos := start;
      }
    }

    function UsedBytes(): nat
      reads this
      requires Valid()
    {
      EarlySpec.UsedBytes(View())
    }

    function AvailableBytes(): nat
      reads this
      requires Valid()
    {
      EarlySpec.AvailableBytes(View())
    }

    function TotalBytes(): nat
      reads this
      requires Valid()
    {
      EarlySpec.TotalBytes(View())
    }

    /** `alloc_pages(num_pages, align_pow2)`; the alignment is not used. */
    method AllocPages(numPages: nat, alignPow2: nat) returns (r: Result<nat>)
      requires Valid()
      modifies this
      ensures Outcome(View(), r) == EarlySpec.AllocPages(old(View()), numPages, alignPow2) && Valid()
    {
      var bytes := numPages * pageSize;
      if bytes > pPos - bPos {
        return Err(NoMemory);
      }
      pPos := pPos - bytes;
      return Ok(pPos);
    }

    /** `dealloc_pages`: pages are never given back, and the call succeeds
        without touching any cursor. */
    method DeallocPages(pos: nat, numPages: nat)
      ensures View() == old(View())
    {
    }

    function UsedPages(): nat
      reads this
      requires EarlySpec.PageLayout(View())
    {
      EarlySpec.UsedPages(View())
    }

    function AvailablePages(): nat
      reads this
      requires EarlySpec.PageLayout(View())
    {
      EarlySpec.AvailablePages(View())
    }

    function TotalPages(): nat
      reads this
      requires Valid() && start <= end
    {
      EarlySpec.TotalPages(View())
    }
  }

  /** A client of the object interface: pages are granted and then released
      again. The release gives nothing back, so the page cursor stays at the
      first granted page and the byte cursor is untouched; a refused request
      leaves the object as it was. */
  method PagesSurviveRelease(a: EarlyAllocator, numPages: nat) returns (page: Result<nat>)
    requires a.Valid()
    modifies a
    ensures a.Valid() && a.pPos <= old(a.pPos) && a.bPos == old(a.bPos)
    ensures page.Ok? ==> a.pPos == page.value && page.value + numPages * a.pageSize == old(a.pPos)
    ensures page.Err? ==> a.View() == old(a.View())
  {
    page := a.AllocPages(numPages, a.pageSize);
    if page.Ok? {
      AllocPagesRange(old(a.View()), numPages, a.pageSize);
      a.DeallocPages(page.value, numPages);
    }
  }
}
