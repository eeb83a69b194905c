// The page table entries of a heap, the protection flags they hold, and the
// 32-bit arithmetic that turns sizes and addresses into pages.
module PageTable {
  const ADDRESS_SPACE: nat := 0x1_0000_0000

  // Host access, weakest first.
  datatype PageAccess = NoAccess | ReadOnly | ReadWrite {
    predicate Permits(other: PageAccess) {
      other.NoAccess? || ReadWrite? || this == other
    }

    function Join(other: PageAccess): PageAccess {
      if Permits(other) then this else other
    }

    function Meet(other: PageAccess): PageAccess {
      if Permits(other) then other else this
    }
  }

  // A mask of MemoryProtectFlag bits.
  datatype Protection = Protection(read: bool, write: bool, noCache: bool, writeCombine: bool)

  const NO_PROTECTION := Protection(false, false, false, false)

  predicate IsWritable(p: Protection) {
    p.write || p.writeCombine
  }

  function ToPageAccess(p: Protection): (r: PageAccess)
    ensures r == NoAccess <==> !p.read
    ensures r == ReadWrite <==> p.read && (p.write || p.writeCombine)
  {
    if p.read && !IsWritable(p) then ReadOnly
    else if p.read && IsWritable(p) then ReadWrite
    else NoAccess
  }

  // A mask of MemoryAllocationFlag bits.
  datatype AllocationType = AllocationType(reserve: bool, commit: bool)

  const RESERVE := AllocationType(true, false)
  const COMMIT := AllocationType(false, true)

  datatype PageEntry = PageEntry(
    base: nat, // first page of the region
    count: nat, // pages in the region
    allocationProtect: Protection,
    protect: Protection,
    state: AllocationType)

  const EMPTY_ENTRY := PageEntry(0, 0, NO_PROTECTION, NO_PROTECTION, AllocationType(false, false))

  predicate IsFree(e: PageEntry) {
    !e.state.reserve && !e.state.commit
  }

  type Pages = seq<PageEntry>

  function FreeFlags(pages: Pages): (f: seq<bool>)
    ensures |f| == |pages|
    ensures forall i :: 0 <= i < |pages| ==> f[i] == IsFree(pages[i])
  {
    seq(|pages|, i requires 0 <= i < |pages| => IsFree(pages[i]))
  }

  // Decommitting keeps the reservation, so no page is committed without one.
  ghost predicate CommitsReserved(pages: Pages) {
    forall i :: 0 <= i < |pages| && pages[i].state.commit ==> pages[i].state.reserve
  }

  // --- Regions ---

  // The pages from `s` are one whole allocation of `c` pages.
  ghost predicate IsRegion(pages: Pages, s: nat, c: nat) {
    && 0 < c
    && s + c <= |pages|
    && forall i :: s <= i < s + c ==>
         pages[i].state.reserve && pages[i].base == s && pages[i].count == c
  }

  // Every reserved page lies in a whole region, the one it names.
  ghost predicate Partitioned(pages: Pages) {
    forall i :: 0 <= i < |pages| && pages[i].state.reserve ==> InItsRegion(pages, i)
  }

  ghost predicate InItsRegion(pages: Pages, i: nat)
    requires i < |pages|
  {
    && pages[i].base <= i < pages[i].base + pages[i].count
    && IsRegion(pages, pages[i].base, pages[i].count)
  }

  // No region has pages both inside and outside the range.
  ghost predicate CoversWholeRegions(pages: Pages, s: nat, c: nat) {
    forall i :: s <= i < s + c && i < |pages| && pages[i].state.reserve ==>
                  s <= pages[i].base && pages[i].base + pages[i].count <= s + c
  }

  // The pages s..e are committed and name one region base.
  ghost predicate Protectable(pages: Pages, s: nat, e: nat) {
    s <= e < |pages| && forall i :: s <= i <= e ==> pages[i].state.commit && pages[i].base == pages[s].base
  }

  // The table after `c` pages from `s` become one region.
  function WithRegion(pages: Pages, s: nat, c: nat, protect: Protection, commit: bool): (r: Pages)
    requires s + c <= |pages|
    ensures |r| == |pages|
    ensures forall i :: 0 <= i < |pages| ==>
      r[i] == if s <= i < s + c then PageEntry(s, c, protect, protect, AllocationType(true, commit)) else pages[i]
  {
    seq(|pages|, i requires 0 <= i < |pages| =>
      if s <= i < s + c then PageEntry(s, c, protect, protect, AllocationType(true, commit)) else pages[i])
  }

  // The table after reserved pages are committed where they are.
  function WithCommit(pages: Pages, s: nat, c: nat, protect: Protection): (r: Pages)
    requires s + c <= |pages|
    ensures |r| == |pages|
    ensures forall i :: 0 <= i < |pages| ==>
      r[i] == if s <= i < s + c
              then PageEntry(pages[i].base, pages[i].count, protect, protect, AllocationType(true, true))
              else pages[i]
  {
    seq(|pages|, i requires 0 <= i < |pages| =>
      if s <= i < s + c
      then PageEntry(pages[i].base, pages[i].count, protect, protect, AllocationType(true, true))
      else pages[i])
  }

  // Whether a fixed allocation makes its range one region: it reserves, or it
  // commits a page no one reserved.
  ghost predicate MakesRegion(pages: Pages, s: nat, c: nat, t: AllocationType)
    requires s + c <= |pages|
  {
    t.reserve || exists i :: s <= i < s + c && !pages[i].state.reserve
  }

  // A pure reservation needs every page free, a commit takes any page.
  ghost predicate CanFix(pages: Pages, s: nat, c: nat, t: AllocationType) {
    s + c <= |pages| && (t == RESERVE ==> forall i :: s <= i < s + c ==> IsFree(pages[i]))
  }

  // The fixed allocation commits inside regions, or replaces only whole ones.
  ghost predicate KeepsRegions(pages: Pages, s: nat, c: nat, t: AllocationType) {
    s + c <= |pages| && (MakesRegion(pages, s, c, t) ==> CoversWholeRegions(pages, s, c))
  }

  // The table after AllocFixed.
  ghost function WithFixed(pages: Pages, s: nat, c: nat, t: AllocationType, protect: Protection): (r: Pages)
    requires s + c <= |pages|
    ensures |r| == |pages|
  {
    if MakesRegion(pages, s, c, t) then WithRegion(pages, s, c, protect, t.commit) else WithCommit(pages, s, c, protect)
  }

  // The table after the pages are freed.
  function WithFreed(pages: Pages, s: nat, c: nat): (r: Pages)
    requires s + c <= |pages|
    ensures |r| == |pages|
    ensures forall i :: 0 <= i < |pages| ==> r[i] == if s <= i < s + c then EMPTY_ENTRY else pages[i]
  {
    seq(|pages|, i requires 0 <= i < |pages| => if s <= i < s + c then EMPTY_ENTRY else pages[i])
  }

  // The table after the pages are decommitted.
  function WithDecommit(pages: Pages, s: nat, c: nat): (r: Pages)
    requires s + c <= |pages|
    ensures |r| == |pages|
    ensures forall i :: 0 <= i < |pages| ==>
      r[i] == if s <= i < s + c then pages[i].(state := pages[i].state.(commit := false)) else pages[i]
  {
    seq(|pages|, i requires 0 <= i < |pages| =>
      if s <= i < s + c then pages[i].(state := pages[i].state.(commit := false)) else pages[i])
  }

  // The table after the pages' current protection changes.
  function WithProtect(pages: Pages, s: nat, c: nat, protect: Protection): (r: Pages)
    requires s + c <= |pages|
    ensures |r| == |pages|
    ensures forall i :: 0 <= i < |pages| ==>
      r[i] == if s <= i < s + c then pages[i].(protect := protect) else pages[i]
  {
    seq(|pages|, i requires 0 <= i < |pages| =>
      if s <= i < s + c then pages[i].(protect := protect) else pages[i])
  }

  // Two regions of a partitioned table are the same or share no page.
  lemma RegionsDisjoint(pages: Pages, a: nat, ac: nat, b: nat, bc: nat)
    requires IsRegion(pages, a, ac) && IsRegion(pages, b, bc)
    ensures (a == b && ac == bc) || a + ac <= b || b + bc <= a
  {
    if a <= b < a + ac {
      assert pages[b].base == a && pages[b].count == ac;
    }
    if b <= a < b + bc {
      assert pages[a].base == b && pages[a].count == bc;
    }
  }

  // Reserving over whole regions and free pages keeps the partition.
  lemma RegionKeepsPartition(pages: Pages, s: nat, c: nat, protect: Protection, commit: bool)
    requires Partitioned(pages) && 0 < c && s + c <= |pages| && CoversWholeRegions(pages, s, c)
    ensures Partitioned(WithRegion(pages, s, c, protect, commit))
  {
    var r := WithRegion(pages, s, c, protect, commit);
    assert IsRegion(r, s, c);
    forall i | 0 <= i < |r| && r[i].state.reserve ensures InItsRegion(r, i) {
      if !(s <= i < s + c) {
        var b, n := pages[i].base, pages[i].count;
        assert InItsRegion(pages, i);
        assert forall j :: s <= j < s + c && pages[j].state.reserve && pages[j].base == b && pages[j].count == n ==>
                             s <= b && b + n <= s + c;
        assert IsRegion(pages, b, n);
        assert forall j :: b <= j < b + n ==> r[j] == pages[j];
        assert IsRegion(r, b, n);
      }
    }
  }

  // Committing inside regions, decommitting and protecting change no region.
  lemma SameRegionsKeepPartition(pages: Pages, r: Pages)
    requires Partitioned(pages) && |r| == |pages|
    requires forall i :: 0 <= i < |pages| ==>
      r[i].base == pages[i].base && r[i].count == pages[i].count && r[i].state.reserve == pages[i].state.reserve
    ensures Partitioned(r)
    ensures forall s: nat, c: nat :: IsRegion(r, s, c) <==> IsRegion(pages, s, c)
  {
    forall i | 0 <= i < |r| && r[i].state.reserve ensures InItsRegion(r, i) {
      assert InItsRegion(pages, i);
    }
  }

  // Freeing one whole region keeps the partition and every other region.
  lemma FreeKeepsPartition(pages: Pages, s: nat, c: nat)
    requires Partitioned(pages) && IsRegion(pages, s, c)
    ensures Partitioned(WithFreed(pages, s, c))
    ensures forall b: nat, n: nat :: IsRegion(WithFreed(pages, s, c), b, n) <==>
      IsRegion(pages, b, n) && (b, n) != (s, c)
  {
    var r := WithFreed(pages, s, c);
    forall b: nat, n: nat ensures IsRegion(r, b, n) <==> IsRegion(pages, b, n) && (b, n) != (s, c) {
      if IsRegion(r, b, n) {
        assert r[b] == pages[b];
        assert forall i :: b <= i < b + n ==> r[i] == pages[i];
        assert IsRegion(pages, b, n);
      }
      if IsRegion(pages, b, n) && (b, n) != (s, c) {
        RegionsDisjoint(pages, b, n, s, c);
        assert forall i :: b <= i < b + n ==> r[i] == pages[i];
      }
    }
    forall i | 0 <= i < |r| && r[i].state.reserve ensures InItsRegion(r, i) {
      assert InItsRegion(pages, i);
    }
  }

  // --- 32-bit arithmetic ---

  function Wrap(x: int): (r: nat)
    ensures r < ADDRESS_SPACE
  {
    x % ADDRESS_SPACE
  }

  // xe::round_up, which turns zero into one multiple.
  function RoundUp(value: nat, multiple: nat): nat
    requires 0 < multiple
  {
    if value == 0 then multiple else Wrap(value + multiple - 1) / multiple * multiple
  }

  predicate IsPow2(n: nat) {
    n == 1 || (0 < n && n % 2 == 0 && IsPow2(n / 2))
  }

  // x & ~y
  function AndNot(x: nat, y: nat): (r: nat)
    ensures r <= x
  {
    if x == 0 then 0 else AndNot(x / 2, y / 2) * 2 + if x % 2 == 1 && y % 2 == 0 then 1 else 0
  }

  // xe::align masks the low bits, which rounds up when the alignment is a
  // power of two.
  function Align(value: nat, alignment: nat): nat {
    AndNot(Wrap(value + alignment - 1), Wrap(alignment - 1))
  }

  // Masking with a power of two rounds down.
  lemma {:induction false} MaskRoundsDown(x: nat, a: nat)
    requires IsPow2(a)
    ensures AndNot(x, a - 1) == RoundDown(x, a)
  {
    if a == 1 || x == 0 {
      MaskNothing(x);
    } else {
      MaskRoundsDown(x / 2, a / 2);
      assert (a - 1) / 2 == a / 2 - 1 && (a - 1) % 2 == 1;
      HalfMod(x, a / 2);
    }
  }

  // xe::align gives the next multiple of a power of two, or zero where the sum
  // wraps around on the way.
  lemma AlignRoundsUp(value: nat, alignment: nat)
    requires IsPow2(alignment) && value < ADDRESS_SPACE && alignment < ADDRESS_SPACE
    ensures Align(value, alignment) % alignment == 0
    ensures if value + alignment <= ADDRESS_SPACE then value <= Align(value, alignment) < value + alignment
            else Align(value, alignment) == 0
    ensures value % alignment == 0 && value + alignment <= ADDRESS_SPACE ==> Align(value, alignment) == value
  {
    if value + alignment <= ADDRESS_SPACE {
      AlignMasks(value, alignment, value + alignment - 1);
      NextMultiple(value, alignment);
    } else {
      AlignMasks(value, alignment, value + alignment - 1 - ADDRESS_SPACE);
      NoMultiple(value + alignment - 1 - ADDRESS_SPACE, alignment);
    }
  }

  // The sum that is masked, once wrapped around.
  lemma AlignMasks(value: nat, alignment: nat, sum: nat)
    requires IsPow2(alignment) && value < ADDRESS_SPACE && alignment < ADDRESS_SPACE
    requires sum == value + alignment - 1 - if value + alignment <= ADDRESS_SPACE then 0 else ADDRESS_SPACE
    ensures Align(value, alignment) == RoundDown(sum, alignment)
  {
    WrappedMask(value, alignment, sum);
    MaskRoundsDown(sum, alignment);
  }

  lemma WrappedMask(value: nat, alignment: nat, sum: nat)
    requires value < ADDRESS_SPACE && 0 < alignment < ADDRESS_SPACE
    requires sum == value + alignment - 1 - if value + alignment <= ADDRESS_SPACE then 0 else ADDRESS_SPACE
    ensures Align(value, alignment) == AndNot(sum, alignment - 1)
  {
    WrapOnce(value + alignment - 1);
    WrapOnce(alignment - 1);
  }

  function RoundDown(x: nat, m: nat): nat
    requires 0 < m
  {
    x - x % m
  }

  lemma NoMultiple(x: nat, m: nat)
    requires x < m
    ensures RoundDown(x, m) == 0 && 0 % m == 0
  {
  }

  lemma NextMultiple(value: nat, m: nat)
    requires 0 < m
    ensures var r := RoundDown(value + m - 1, m);
      value <= r < value + m && r % m == 0 && (value % m == 0 ==> r == value)
  {
    var x := value + m - 1;
    DivMul(x, m);
    MultipleMod(x / m, m);
    if value % m == 0 {
      DivMul(value, m);
      DivUnique(x, m, value / m, m - 1);
    }
  }

  lemma WrapOnce(x: nat)
    requires x < 2 * ADDRESS_SPACE
    ensures Wrap(x) == if x < ADDRESS_SPACE then x else x - ADDRESS_SPACE
  {
  }

  lemma HalfMod(x: nat, h: nat)
    requires 0 < h
    ensures x % (2 * h) == 2 * (x / 2 % h) + x % 2
  {
    var q, r := x / 2 / h, x / 2 % h;
    DivMul(x / 2, h);
    assert q * (2 * h) == 2 * (q * h);
    DivUnique(x, 2 * h, q, 2 * r + x % 2);
  }

  lemma MaskNothing(x: nat)
    ensures AndNot(x, 0) == x
  {
  }

  // get_page_count
  function PageCount(size: nat, pageSize: nat): nat
    requires 0 < pageSize
  {
    RoundUp(size, pageSize) / pageSize
  }

  lemma DivMul(x: nat, m: nat)
    requires 0 < m
    ensures x / m * m <= x < x / m * m + m
    ensures x == x / m * m + x % m
  {
  }

  lemma QuotientIsNat(x: nat, m: nat)
    requires 0 < m
    ensures 0 <= x / m
  {
    DivMul(x, m);
  }

  lemma {:induction false} MulStep(a: nat, b: nat, m: nat)
    ensures a < b ==> a * m + m <= b * m
    ensures a <= b ==> a * m <= b * m
    decreases b
  {
    if a < b {
      MulStep(a, b - 1, m);
      assert b * m == (b - 1) * m + m;
    }
  }

  lemma DivUnique(x: nat, m: nat, q: nat, r: nat)
    requires r < m && x == q * m + r
    ensures x / m == q && x % m == r
  {
    DivMul(x, m);
    MulStep(q, x / m, m);
    MulStep(x / m, q, m);
  }

  lemma Distribute(a: int, b: int, m: int)
    ensures (a + b) * m == a * m + b * m
  {
  }

  lemma Associate(a: int, b: int, m: int)
    ensures a * b * m == a * (b * m)
  {
  }

  lemma MultipleMod(a: nat, m: nat)
    requires 0 < m
    ensures a * m % m == 0 && a * m / m == a
  {
    DivUnique(a * m, m, a, 0);
  }

  // The largest multiple at or below `x`.
  lemma AlignDownIsLast(x: nat, m: nat, q: nat)
    requires 0 < m && q % m == 0 && q <= x
    ensures 0 <= x - x % m && (x - x % m) % m == 0 && q <= x - x % m
  {
    DivMul(x, m);
    DivMul(q, m);
    MulStep(x / m, q / m, m);
    MulStep(q / m, x / m, m);
    MultipleMod(x / m, m);
  }

  // The least multiple at or above `x`.
  lemma AlignUpIsFirst(x: nat, m: nat, q: nat)
    requires 0 < m && q % m == 0 && x <= q
    ensures var r := (x + m - 1) / m * m; x <= r <= q && r % m == 0
  {
    var a := (x + m - 1) / m;
    DivMul(x + m - 1, m);
    DivMul(q, m);
    MultipleMod(a, m);
    MulStep(q / m, a, m);
    MulStep(a, q / m, m);
  }

  // Rounding gives the least whole number of units that is not below a value,
  // and one unit for zero.
  lemma RoundUpCovers(value: nat, m: nat)
    requires 0 < m && value + m <= ADDRESS_SPACE
    ensures RoundUp(value, m) % m == 0 && 0 < RoundUp(value, m)
    ensures value <= RoundUp(value, m) && (RoundUp(value, m) < value + m || (value == 0 && RoundUp(value, m) == m))
  {
    if value == 0 {
      MultipleMod(1, m);
    } else {
      var x := value + m - 1;
      WrapOnce(x);
      DivMul(x, m);
      MultipleMod(x / m, m);
    }
  }

  // The pages of a size hold it, and would not with one fewer.
  lemma PageCountCovers(size: nat, pageSize: nat)
    requires 0 < pageSize && size + pageSize <= ADDRESS_SPACE
    ensures var n := PageCount(size, pageSize);
      0 < n && size <= n * pageSize && (n - 1) * pageSize < if size == 0 then 1 else size
  {
    var r := RoundUp(size, pageSize);
    RoundUpCovers(size, pageSize);
    DivMul(r, pageSize);
    Distribute(r / pageSize, -1, pageSize);
  }

  // A request takes no page only when rounding its size up wraps around.
  lemma PageCountIsZero(size: nat, pageSize: nat)
    requires 0 < pageSize < ADDRESS_SPACE && size < ADDRESS_SPACE
    ensures PageCount(size, pageSize) == 0 <==> ADDRESS_SPACE - pageSize < size
  {
    if size == 0 {
      MultipleMod(1, pageSize);
    } else {
      var x := Wrap(size + pageSize - 1);
      MultipleMod(x / pageSize, pageSize);
      if ADDRESS_SPACE - pageSize < size {
        DivUnique(x, pageSize, 0, x);
      } else {
        DivMul(x, pageSize);
      }
    }
  }
}
