/** Machine integers of the 64-bit targets the allocator is built for, and the
    few division facts about page-sized multiples that the allocator needs. */
module Usize {

  /** 2^64: usize values are the naturals below this. */
  const LIMIT: nat := 0x1_0000_0000_0000_0000
  /** usize::MAX */
  const MAX: nat := LIMIT - 1
  /** isize::MAX: the largest size a core::alloc::Layout can describe. */
  const ISIZE_MAX: nat := 0x7fff_ffff_ffff_ffff

  predicate IsUsize(x: int) {
    0 <= x <= MAX
  }

  /** `a + b` on usize in a build without overflow checks. */
  function WrappingAdd(a: nat, b: nat): (r: nat)
    requires IsUsize(a) && IsUsize(b)
    ensures IsUsize(r)
    ensures a + b <= MAX ==> r == a + b
    ensures a + b > MAX ==> r + LIMIT == a + b
  {
    (a + b) % LIMIT
  }

  /** `a - b` on usize in a build without overflow checks. */
  function WrappingSub(a: nat, b: nat): (r: nat)
    requires IsUsize(a) && IsUsize(b)
    ensures IsUsize(r)
    ensures b <= a ==> r == a - b
    ensures a < b ==> r == LIMIT + a - b
  {
    (a - b) % LIMIT
  }

  /** `a * b` on usize in a build without overflow checks. */
  function WrappingMul(a: nat, b: nat): (r: nat)
    requires IsUsize(a) && IsUsize(b)
    ensures IsUsize(r)
    ensures a * b <= MAX ==> r == a * b
  {
    (a * b) % LIMIT
  }

  /** Euclidean division is determined by quotient and remainder. */
  lemma DivModUnique(x: int, d: int, q: int, r: int)
    requires 0 < d && 0 <= r < d && x == q * d + r
    ensures x / d == q && x % d == r
  {
    var q', r' := x / d, x % d;
    assert x == q' * d + r';
    if q' < q {
      assert (q - q') * d == r' - r;
      assert (q - q') * d >= d by { MulAtLeast(q - q', d); }
      assert false;
    } else if q < q' {
      assert (q' - q) * d == r - r';
      assert (q' - q) * d >= d by { MulAtLeast(q' - q, d); }
      assert false;
    }
  }

  lemma MulAtLeast(k: int, d: int)
    requires 1 <= k && 0 < d
    ensures k * d >= d
  {
    assert k * d == (k - 1) * d + d;
    assert (k - 1) * d >= 0;
  }

  /** Rounding down to a multiple of `d` lands on a multiple of `d`, at most
      `d - 1` below the value rounded. */
  lemma RoundDown(x: nat, d: nat)
    requires 0 < d
    ensures (x - x % d) % d == 0
    ensures x - x % d <= x < x - x % d + d
  {
    DivModUnique(x / d * d, d, x / d, 0);
  }

  /** Subtracting the remainder is the same as `x / d * d`. */
  lemma RoundDownIsFloor(x: nat, d: nat)
    requires 0 < d
    ensures x - x % d == x / d * d
  {
  }

  /** Adding or removing whole multiples of `d` keeps the remainder and moves
      the quotient by that many. */
  lemma ShiftByMultiple(x: nat, k: nat, d: nat)
    requires 0 < d
    ensures (x + k * d) / d == x / d + k
    ensures (x + k * d) % d == x % d
  {
    DivModUnique(x + k * d, d, x / d + k, x % d);
  }

  /** The difference of two multiples of `d` is a multiple of `d`. */
  lemma AlignedDiff(a: nat, b: nat, d: nat)
    requires 0 < d && b <= a && a % d == 0 && b % d == 0
    ensures (a - b) % d == 0
    ensures (a - b) / d == a / d - b / d
  {
    DivModUnique(a, d, a / d, 0);
    DivModUnique(b, d, b / d, 0);
    assert a - b == (a / d - b / d) * d;
    DivModUnique(a - b, d, a / d - b / d, 0);
  }

  /** `k * d` fits below `room` exactly when `k` is at most the number of
      whole `d`-blocks in `room`. */
  lemma FitsInBlocks(k: nat, d: nat, room: nat)
    requires 0 < d
    ensures k * d <= room <==> k <= room / d
  {
    var q := room / d;
    DivModUnique(room, d, q, room % d);
    if k <= q {
      assert k * d <= q * d by { assert (q - k) * d >= 0; }
    } else {
      MulAtLeast(k - q, d);
      assert k * d == (k - q) * d + q * d;
    }
  }

  /** Splitting a span at a point a whole number of blocks below its top
      splits its count of whole blocks. */
  lemma SplitBlocks(lo: nat, mid: nat, hi: nat, d: nat)
    requires 0 < d && lo <= mid <= hi && hi % d == 0 && mid % d == 0
    ensures (hi - mid) % d == 0
    ensures (hi - lo) / d == (hi - mid) / d + (mid - lo) / d
  {
    AlignedDiff(hi, mid, d);
    var k := (hi - mid) / d;
    assert hi - mid == k * d;
    ShiftByMultiple(mid - lo, k, d);
    assert hi - lo == (mid - lo) + k * d;
  }
}
