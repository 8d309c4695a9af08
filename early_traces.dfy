/** Properties of runs of the early allocator: what holds across any sequence
    of operations after `init`, bulk reclamation of the byte area, and the
    worked scenario of a small region. */
module EarlyTraces {
  import opened Usize
  import opened EarlySpec

  /** One call on an initialised allocator. */
  datatype Op =
    | ByteAlloc(size: nat)
    | ByteDealloc(pos: nat, size: nat)
    | PageAlloc(numPages: nat, alignPow2: nat)
    | PageDealloc(pos: nat, numPages: nat)
    | AddRegion(start: nat, size: nat)

  /** The caller's side of the contract: never free more bytes than are live. */
  predicate Enabled(s: State, op: Op) {
    op.ByteDealloc? ==> op.size <= s.bytesAlloced
  }

  /** The state one call leaves. `dealloc_pages` never gives pages back. */
  function Step(s: State, op: Op): (r: State)
    requires Valid(s) && Enabled(s, op)
    ensures Valid(r)
    ensures r.pageSize == s.pageSize && r.start == s.start && r.end == s.end
    ensures r.pPos <= s.pPos
    ensures r.bPos >= s.bPos || r.bPos == s.start
  {
    match op
    case ByteAlloc(size) => Alloc(s, size).state
    case ByteDealloc(_, size) => Dealloc(s, size)
    case PageAlloc(n, align) => AllocPages(s, n, align).state
    case PageDealloc(_, _) => s
    case AddRegion(start, size) => AddMemory(s, start, size).state
  }

  /** The page layout is kept by every call, and pages in use never decrease. */
  lemma StepPages(s: State, op: Op)
    requires PageLayout(s) && Enabled(s, op)
    ensures PageLayout(Step(s, op)) && UsedPages(Step(s, op)) >= UsedPages(s)
  {
    if op.PageAlloc? {
      UsedPagesAfterAllocPages(s, op.numPages, op.alignPow2);
    }
  }

  /** Every call of the run respects the caller's contract. */
  predicate Admissible(s: State, ops: seq<Op>)
    requires Valid(s)
    decreases |ops|
  {
    ops == [] || (Enabled(s, ops[0]) && Admissible(Step(s, ops[0]), ops[1..]))
  }

  /** The state a run of calls leaves. Across any run after `init` the
      invariant holds, `start`, `end` and the page size stay fixed, and the
      page cursor never rises: pages are never reclaimed. */
  function Run(s: State, ops: seq<Op>): (r: State)
    requires Valid(s) && Admissible(s, ops)
    ensures Valid(r)
    ensures r.pageSize == s.pageSize && r.start == s.start && r.end == s.end
    ensures r.pPos <= s.pPos
    decreases |ops|
  {
    if ops == [] then s else Run(Step(s, ops[0]), ops[1..])
  }

  /** With the page layout, a run keeps it and `used_pages` never decreases. */
  lemma {:induction false} RunUsedPages(s: State, ops: seq<Op>)
    requires PageLayout(s) && Admissible(s, ops)
    ensures PageLayout(Run(s, ops)) && UsedPages(Run(s, ops)) >= UsedPages(s)
    decreases |ops|
  {
    if ops != [] {
      StepPages(s, ops[0]);
      RunUsedPages(Step(s, ops[0]), ops[1..]);
    }
  }

  /** `dealloc_pages` after a granted `alloc_pages` leaves the pages in use:
      the pair ends in the same state as the allocation alone. */
  lemma PagePermanence(s: State, numPages: nat, alignPow2: nat)
    requires PageLayout(s) && AllocPages(s, numPages, alignPow2).result.Ok?
    ensures var o := AllocPages(s, numPages, alignPow2);
      var ops := [PageAlloc(numPages, alignPow2), PageDealloc(o.result.value, numPages)];
      Admissible(s, ops) && Run(s, ops) == o.state &&
      UsedPages(Run(s, ops)) == UsedPages(s) + numPages
  {
    var o := AllocPages(s, numPages, alignPow2);
    var ops := [PageAlloc(numPages, alignPow2), PageDealloc(o.result.value, numPages)];
    var t := Step(s, ops[0]);
    assert t == o.state;
    assert Step(t, ops[1]) == t;
    assert ops[1..] == [ops[1]] && ops[1..][1..] == [];
    assert Run(t, ops[1..]) == Run(t, []) == t;
    UsedPagesAfterAllocPages(s, numPages, alignPow2);
  }

  /** Running one sequence of calls and then another is running both. */
  lemma {:induction false} RunAppend(s: State, a: seq<Op>, b: seq<Op>)
    requires Valid(s)
    ensures Admissible(s, a + b) <==> Admissible(s, a) && Admissible(Run(s, a), b)
    ensures Admissible(s, a + b) ==> Run(s, a + b) == Run(Run(s, a), b)
    decreases |a|
  {
    if a == [] {
      assert a + b == b;
    } else {
      assert (a + b)[0] == a[0] && (a + b)[1..] == a[1..] + b;
      if Enabled(s, a[0]) {
        RunAppend(Step(s, a[0]), a[1..], b);
      }
    }
  }

  /** Pages are never reclaimed: at any later point of a run the page cursor
      is no higher, and with the page layout `used_pages` no lower, than at
      any earlier point. */
  lemma PagesNeverReclaimed(s: State, ops: seq<Op>, i: nat, j: nat)
    requires Valid(s) && Admissible(s, ops) && i <= j <= |ops|
    ensures Admissible(s, ops[..i]) && Admissible(s, ops[..j])
    ensures Run(s, ops[..j]).pPos <= Run(s, ops[..i]).pPos
    ensures PageLayout(s) ==>
      PageLayout(Run(s, ops[..i])) && PageLayout(Run(s, ops[..j])) &&
      UsedPages(Run(s, ops[..i])) <= UsedPages(Run(s, ops[..j]))
  {
    assert ops == ops[..j] + ops[j..];
    RunAppend(s, ops[..j], ops[j..]);
    assert ops[..j] == ops[..i] + ops[i..j];
    RunAppend(s, ops[..i], ops[i..j]);
    var mid := Run(s, ops[..i]);
    if PageLayout(s) {
      RunUsedPages(s, ops[..i]);
      RunUsedPages(mid, ops[i..j]);
    }
  }

  // ---------------------------------------------------------------- bulk reclamation

  function Sum(xs: seq<nat>): nat {
    if xs == [] then 0 else xs[0] + Sum(xs[1..])
  }

  /** Taking one element out of a sequence takes it out of the sum. */
  lemma {:induction false} SumRemove(xs: seq<nat>, i: nat)
    requires i < |xs|
    ensures Sum(xs) == xs[i] + Sum(xs[..i] + xs[i + 1..])
  {
    if i > 0 {
      SumRemove(xs[1..], i - 1);
      assert xs[1..][..i - 1] + xs[1..][i..] == (xs[..i] + xs[i + 1..])[1..];
    } else {
      assert xs[..i] + xs[i + 1..] == xs[1..];
    }
  }

  /** The sum depends only on the elements, not on their order. */
  lemma {:induction false} SumPermutation(xs: seq<nat>, ys: seq<nat>)
    requires multiset(xs) == multiset(ys)
    ensures Sum(xs) == Sum(ys)
    decreases |xs|
  {
    if xs == [] {
      assert |ys| == |multiset(ys)| == 0;
    } else {
      assert xs[0] in multiset(ys);
      var i :| 0 <= i < |ys| && ys[i] == xs[0];
      var rest := ys[..i] + ys[i + 1..];
      assert ys == ys[..i] + [ys[i]] + ys[i + 1..];
      assert xs == [xs[0]] + xs[1..];
      assert multiset(ys) == multiset(ys[..i]) + multiset{ys[i]} + multiset(ys[i + 1..]);
      assert multiset(xs) == multiset{xs[0]} + multiset(xs[1..]);
      assert multiset(rest) == multiset(ys[..i]) + multiset(ys[i + 1..]);
      assert multiset(xs[1..]) == multiset(xs) - multiset{xs[0]};
      assert multiset(rest) == multiset(ys) - multiset{ys[i]};
      SumPermutation(xs[1..], rest);
      SumRemove(ys, i);
    }
  }

  /** Allocate each size in turn; the addresses granted, in order. */
  function AllocMany(s: State, sizes: seq<nat>): (o: (State, seq<nat>))
    requires Valid(s) && s.bPos + Sum(sizes) <= s.pPos
    ensures Valid(o.0)
    ensures o.0 == s.(bPos := s.bPos + Sum(sizes), bytesAlloced := s.bytesAlloced + Sum(sizes))
    ensures |o.1| == |sizes|
    ensures forall i :: 0 <= i < |sizes| ==> s.bPos <= o.1[i] && o.1[i] + sizes[i] <= o.0.bPos
    ensures forall i, j :: 0 <= i < j < |sizes| ==> o.1[i] + sizes[i] <= o.1[j]
    decreases |sizes|
  {
    if sizes == [] then (s, [])
    else
      var first := Alloc(s, sizes[0]);
      var rest := AllocMany(first.state, sizes[1..]);
      (rest.0, [first.result.value] + rest.1)
  }

  /** Free each size in turn (the address passed is not consulted). */
  function FreeOps(sizes: seq<nat>): (ops: seq<Op>)
    ensures |ops| == |sizes|
    ensures forall i :: 0 <= i < |sizes| ==> ops[i] == ByteDealloc(0, sizes[i])
  {
    if sizes == [] then [] else [ByteDealloc(0, sizes[0])] + FreeOps(sizes[1..])
  }

  /** Freeing sizes that add up to no more than the live volume is admissible,
      lowers the volume by their sum, and reclaims the byte area exactly when
      the volume reaches zero. */
  lemma {:induction false} FreeAll(s: State, sizes: seq<nat>)
    requires Valid(s) && Sum(sizes) <= s.bytesAlloced
    ensures Admissible(s, FreeOps(sizes))
    ensures var r := Run(s, FreeOps(sizes));
      r.bytesAlloced == s.bytesAlloced - Sum(sizes) &&
      r.pPos == s.pPos &&
      (sizes != [] && r.bytesAlloced == 0 ==> r.bPos == s.start) &&
      (r.bytesAlloced != 0 ==> r.bPos == s.bPos)
    decreases |sizes|
  {
    if sizes != [] {
      var ops := FreeOps(sizes);
      assert ops[0] == ByteDealloc(0, sizes[0]);
      assert ops[1..] == FreeOps(sizes[1..]);
      var t := Dealloc(s, sizes[0]);
      FreeAll(t, sizes[1..]);
    }
  }

  /** Bulk reclamation: starting with no live bytes, allocate any non-empty
      list of sizes that fits and free them all in any order. After the last
      free nothing is live, `used_bytes` is zero, the page side is untouched,
      and the next allocation starts again at `start`. */
  lemma BulkReclamation(s: State, sizes: seq<nat>, order: seq<nat>, next: nat)
    requires Valid(s) && s.bytesAlloced == 0 && s.bPos + Sum(sizes) <= s.pPos
    requires sizes != [] && multiset(order) == multiset(sizes)
    ensures var t := AllocMany(s, sizes).0;
      Admissible(t, FreeOps(order)) &&
      var r := Run(t, FreeOps(order));
      r.bytesAlloced == 0 && UsedBytes(r) == 0 && r.pPos == s.pPos && r.end == s.end &&
      (next <= TotalBytes(r) ==> Alloc(r, next).result == Ok(s.start))
  {
    SumPermutation(order, sizes);
    var t := AllocMany(s, sizes).0;
    assert order != [] by { assert |order| == |multiset(order)| == |multiset(sizes)| == |sizes|; }
    FreeAll(t, order);
    var r := Run(t, FreeOps(order));
    assert r.bPos == s.start && r.bytesAlloced == 0;
    assert TotalBytes(r) == r.pPos - r.bPos;
  }

  // ---------------------------------------------------------------- scenario

  /** The region `[0x1000, 0x5000)` with 4 KiB pages, starting from the
      zeroed allocator: 16 bytes come from the bottom, one page from the top,
      and three more pages would cross the byte cursor, so they are refused
      without a state change. */
  lemma Scenario(zeroed: State, start: nat, size: nat)
    requires zeroed == State(0x1000, 0, 0, 0, 0, 0) && start == 0x1000 && size == 0x4000
    ensures zeroed == New(0x1000)
    ensures var s0 := Init(zeroed, start, size);
      PageLayout(s0) &&
      var a := Alloc(s0, 0x10);
      a.result == Ok(0x1000) && UsedBytes(a.state) == 0x10 && PageLayout(a.state) &&
      var p := AllocPages(a.state, 1, 0x1000);
      p.result == Ok(0x4000) && PageLayout(p.state) && UsedPages(p.state) == 1 &&
      var q := AllocPages(p.state, 3, 0x1000);
      q.result == Err(NoMemory) && q.state == p.state
  {
    var s0 := Init(zeroed, start, size);
    assert s0 == State(0x1000, 0x1000, 0x1000, 0x5000, 0x5000, 0);
    var a := Alloc(s0, 0x10);
    assert a == Outcome(State(0x1000, 0x1000, 0x1010, 0x5000, 0x5000, 0x10), Ok(0x1000));
    var p := AllocPages(a.state, 1, 0x1000);
    assert p == Outcome(State(0x1000, 0x1000, 0x1010, 0x4000, 0x5000, 0x10), Ok(0x4000));
    assert UsedPages(p.state) == 0x1000 / 0x1000;
  }
}
