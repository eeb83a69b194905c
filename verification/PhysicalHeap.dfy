// PhysicalHeap of memory.cc as the allocator sees it: an alias heap that takes
// its memory from a parent heap it shares with other aliases, and pins it in
// its own page table. The tables of the other aliases appear in contracts as
// values, since no method here touches them.
module PhysicalHeaps {
  import opened PageTable
  import opened FreeBlocks
  import opened BaseHeaps
  import opened PhysicalAlias
  import UserTable

  const SKEWED_BASE: nat := 0xE000_0000
  const SKEW: nat := 0x1000

  // What an alias asks of the parent: the size and alignment in whole alias
  // pages, where neither rounding them nor the start wraps around. The size has
  // to be a whole number of alignments, because pinning rounds it up to one
  // while the parent does not.
  ghost predicate WellSized(size: nat, alignment: nat, pageSize: nat, low: nat)
    requires 0 < pageSize
  {
    var sz, al := RoundUp(size, pageSize), RoundUp(alignment, pageSize);
    0 < sz < ADDRESS_SPACE && 0 < al < ADDRESS_SPACE && Align(sz, al) == sz && low <= Align(low, al)
  }

  class PhysicalHeap {
    const own: BaseHeap
    const parent: BaseHeap
    // Parent pages to an alias page, and before the first.
    ghost const ratio: nat
    ghost const offset: nat

    // What GetPhysicalAddress adds.
    function Skew(): nat {
      if own.heapBase >= SKEWED_BASE then SKEW else 0
    }

    function PhysicalAddress(address: nat): nat
      requires own.heapBase <= address < own.heapBase + own.heapSize
    {
      address - own.heapBase + Skew()
    }

    // The physical address of a byte of the alias is the byte that the file
    // behind guest memory has at its address.
    lemma AddressIsInFile(address: nat)
      requires own.heapBase in {0x7F00_0000, 0xA000_0000, 0xC000_0000, 0xE000_0000}
      requires own.heapBase <= address < own.heapBase + own.heapSize
      requires own.heapSize <= if own.heapBase == 0x7F00_0000 then 0x100_0000 else 0x2000_0000
      ensures UserTable.KernelFilePage(address) ==
              UserTable.PHYSICAL_FILE_PAGE + PhysicalAddress(address) / UserTable.SMALL_PAGE
    {
    }

    ghost predicate Shape() {
      && own != parent
      && 0 < parent.pageSize && parent.heapBase == 0 && ADDRESS_SPACE % parent.pageSize == 0
      && 0 < ratio && 0 < own.pageSize == ratio * parent.pageSize && ADDRESS_SPACE % own.pageSize == 0
      && Skew() == offset * parent.pageSize && offset % ratio == 0
      && 0 < own.heapBase && 0 < own.heapSize && Skew() + own.heapSize <= parent.heapSize
    }

    ghost function Table(): View
      reads own`pages
    {
      View(own.pages, ratio, offset)
    }

    // The parent page an alias page starts at, and the parent pages in `c`.
    ghost function ParentPage(s: nat): nat {
      offset + s * ratio
    }

    ghost function ParentPages(c: nat): nat {
      c * ratio
    }

    // The alias and the `others` that share its parent are coherent.
    ghost predicate Valid(others: seq<View>)
      reads own, parent
    {
      Shape() && own.Sound() && parent.Sound() && Coherent(parent.pages, [Table()] + others)
    }

    // An alias with nothing allocated joins any that are coherent.
    constructor (own: BaseHeap, parent: BaseHeap, ghost ratio: nat, ghost offset: nat, ghost others: seq<View>)
      requires own.Sound() && parent.Sound() && 0 < ratio && Coherent(parent.pages, others)
      requires forall i :: 0 <= i < |own.pages| ==> own.pages[i] == EMPTY_ENTRY
      ensures this.own == own && this.parent == parent && this.ratio == ratio && this.offset == offset
      ensures Shape() ==> Valid(others)
    {
      this.own, this.parent, this.ratio, this.offset := own, parent, ratio, offset;
      new;
      EmptyJoins(parent.pages, Table(), others);
    }

    // --- Requests ---

    // The physical addresses of a range's ends, clamped into the alias.
    function PhysicalLow(low: nat): nat
      requires low < own.heapBase + own.heapSize && 0 < own.heapSize
    {
      PhysicalAddress(if own.heapBase >= low then own.heapBase else low)
    }

    function PhysicalHigh(high: nat): (r: nat)
      requires own.heapBase <= high && 0 < own.heapSize
      ensures r < Skew() + own.heapSize
    {
      var last := own.heapBase + (own.heapSize - 1);
      PhysicalAddress(if last <= high then last else high)
    }

    ghost predicate InDomain(low: nat, high: nat, size: nat, alignment: nat)
      requires Shape()
    {
      && low < own.heapBase + own.heapSize && own.heapBase <= high
      && WellSized(size, alignment, own.pageSize, PhysicalLow(low))
    }

    // The parent request of an alias request.
    function ParentRequest(low: nat, high: nat, size: nat, alignment: nat, topDown: bool): Request
      requires Shape() && 0 < parent.pageCount && low < own.heapBase + own.heapSize && own.heapBase <= high
    {
      parent.RequestOf(PhysicalLow(low), PhysicalHigh(high), RoundUp(size, own.pageSize),
                       RoundUp(alignment, own.pageSize), topDown)
    }

    // The pages the pinning AllocFixed takes.
    function PinCount(size: nat, alignment: nat): nat
      requires 0 < own.pageSize
    {
      own.FixedCount(RoundUp(size, own.pageSize), RoundUp(alignment, own.pageSize))
    }

    lemma RequestInPages(low: nat, high: nat, size: nat, alignment: nat, topDown: bool)
      requires Shape() && parent.Shape() && own.Shape() && InDomain(low, high, size, alignment)
      ensures var r := ParentRequest(low, high, size, alignment, topDown);
        && 0 < r.count && 0 < r.stride && r.stride % ratio == 0
        && PinCount(size, alignment) * ratio == r.count
    {
      var sz, al, pp := RoundUp(size, own.pageSize), RoundUp(alignment, own.pageSize), parent.pageSize;
      RoundUpIsMultiple(size, own.pageSize);
      RoundUpIsMultiple(alignment, own.pageSize);
      RoundUpOfMultiple(sz, own.pageSize);
      RoundUpOfMultiple(al, own.pageSize);
      MultipleOfProduct(sz, ratio, pp);
      MultipleOfProduct(al, ratio, pp);
      RoundUpOfMultiple(sz, pp);
      RoundUpOfMultiple(al, pp);
      MultipleMod(al / own.pageSize, ratio);
    }

    lemma LowInAlias(low: nat, high: nat, size: nat, alignment: nat)
      requires Shape() && parent.Shape() && InDomain(low, high, size, alignment)
      ensures var page := parent.LowPage(PhysicalLow(low), RoundUp(RoundUp(alignment, own.pageSize), parent.pageSize));
        page < parent.pageCount - 1 ==> offset <= page
    {
      var al, pp := RoundUp(alignment, own.pageSize), parent.pageSize;
      RoundUpIsMultiple(alignment, own.pageSize);
      MultipleOfProduct(al, ratio, pp);
      RoundUpOfMultiple(al, pp);
      assert Skew() <= PhysicalLow(low) <= Align(PhysicalLow(low), al);
      DivUnique(offset * pp, pp, offset, 0);
      DivMono(offset * pp, Align(PhysicalLow(low), al), pp);
    }

    lemma HighInAlias(high: nat)
      requires Shape() && parent.Shape() && own.Shape() && own.heapBase <= high
      ensures parent.HighPage(PhysicalHigh(high)) <= offset + own.pageCount * ratio
    {
      Scale(own.pageCount, ratio, parent.pageSize, offset);
      ParentHigh(PhysicalHigh(high), offset + own.pageCount * ratio);
    }

    lemma ParentHigh(high: nat, end: nat)
      requires parent.Shape() && parent.heapBase == 0 && high < end * parent.pageSize
      ensures parent.HighPage(high) <= end
    {
      var pp := parent.pageSize;
      var address := if parent.heapSize - 1 <= high then parent.heapSize - 1 else high;
      DivMono(Wrap(address + (pp - 1)), address + (pp - 1), pp);
      CeilBelow(address + (pp - 1), end, pp);
    }

    // A size that is no whole number of alignments, once both are in pages, where
    // neither rounding them nor their sum wraps around.
    ghost predicate Misfits(size: nat, alignment: nat)
      requires 0 < own.pageSize
    {
      var sz, al := RoundUp(size, own.pageSize), RoundUp(alignment, own.pageSize);
      0 < sz && 0 < al && sz + al <= ADDRESS_SPACE && IsPow2(al) && sz % al != 0
    }

    // An allocation of such a size that succeeds, with one region in the parent
    // and one in the alias, leaves the aliases incoherent.
    lemma MisfitIsIncoherent(size: nat, alignment: nat, protect: Protection, commit: bool, parent0: Pages, p: nat,
                             s: nat, others: seq<View>)
      requires Shape() && own.Shape() && parent.Shape() && Misfits(size, alignment) && p == Table().At(s)
      requires p + PageCount(RoundUp(size, own.pageSize), parent.pageSize) <= |parent0|
      requires s + PinCount(size, alignment) <= |own.pages|
      ensures
        var n, c := PageCount(RoundUp(size, own.pageSize), parent.pageSize), PinCount(size, alignment);
        !Coherent(WithRegion(parent0, p, n, protect, commit),
                  [Table().(pages := WithRegion(own.pages, s, c, protect, commit))] + others)
    {
      var n, c := PageCount(RoundUp(size, own.pageSize), parent.pageSize), PinCount(size, alignment);
      MisfitCounts(size, alignment);
      var after := WithRegion(parent0, p, n, protect, commit);
      var table := Table().(pages := WithRegion(own.pages, s, c, protect, commit));
      assert IsRegion(after, p, n) && IsRegion(table.pages, s, c);
      UnequalPinIsIncoherent(after, table, others, s, c, n);
    }

    lemma MisfitCounts(size: nat, alignment: nat)
      requires Shape() && Misfits(size, alignment)
      ensures 0 < PageCount(RoundUp(size, own.pageSize), parent.pageSize)
      ensures 0 < PinCount(size, alignment)
      ensures PageCount(RoundUp(size, own.pageSize), parent.pageSize) != PinCount(size, alignment) * ratio
    {
      var sz, al, pp := RoundUp(size, own.pageSize), RoundUp(alignment, own.pageSize), parent.pageSize;
      RoundUpIsMultiple(size, own.pageSize);
      RoundUpIsMultiple(alignment, own.pageSize);
      RoundUpOfMultiple(sz, own.pageSize);
      RoundUpOfMultiple(al, own.pageSize);
      MultipleOfProduct(sz, ratio, pp);
      RoundUpOfMultiple(sz, pp);
      PinMatchesParent(sz, al, own.pageSize);
      AlignRoundsUp(sz, al);
      PageMultiple(Align(sz, al), al, own.pageSize);
      RoundUpOfMultiple(Align(sz, al), own.pageSize);
      UnequalTimes(PageCount(sz, own.pageSize), PinCount(size, alignment), ratio);
    }

    // The parent pages that alias pages s..s+c are.
    ghost predicate IsAliasRange(p: nat, count: nat, s: nat, c: nat) {
      p == offset + s * ratio && count == c * ratio && 0 < c && s + c <= own.pageCount
    }

    // What the parent found for an alias request is alias pages.
    lemma FoundIsAliasRange(low: nat, high: nat, size: nat, alignment: nat, topDown: bool, f: seq<bool>, p: nat)
      returns (s: nat, c: nat)
      requires Shape() && parent.Shape() && own.Shape() && InDomain(low, high, size, alignment)
      requires var r := ParentRequest(low, high, size, alignment, topDown); r.Asked() && r.IsBest(f, p)
      ensures IsAliasRange(p, ParentRequest(low, high, size, alignment, topDown).count, s, c)
      ensures c == PinCount(size, alignment)
    {
      var r := ParentRequest(low, high, size, alignment, topDown);
      RequestInPages(low, high, size, alignment, topDown);
      LowInAlias(low, high, size, alignment);
      HighInAlias(high);
      assert r.low <= p && p + r.count <= r.high && r.high < parent.pageCount;
      MultipleMod(PinCount(size, alignment), ratio);
      s, c := FoundInAlias(p, r.count, r.stride, r.high, ratio, offset, own.pageCount);
      DivUnique(r.count, ratio, c, 0);
    }

    // A parent page of the alias, the alias page it starts and its addresses.
    lemma PageAddresses(p: nat, s: nat)
      requires Shape() && parent.Shape() && own.Shape()
      requires p == offset + s * ratio && s < own.pageCount && p < parent.pageCount
      ensures parent.PageOf(p * parent.pageSize) == p
      ensures Skew() <= p * parent.pageSize
      ensures own.PageOf(own.heapBase + p * parent.pageSize - Skew()) == s
    {
      Scale(s, ratio, parent.pageSize, offset);
      assert p * parent.pageSize - Skew() == s * own.pageSize;
      MulStep(0, s, own.pageSize);
      PageOfAddress(parent, p);
      PageOfAddress(own, s);
    }

    // --- Operations ---

    // One new region in the alias pins one new region of the parent.
    twostate predicate Pinned(p: nat, count: nat, s: nat, c: nat, t: AllocationType, protect: Protection)
      reads own, parent
    {
      && IsAliasRange(p, count, s, c)
      && p + count <= |old(parent.pages)| && s + c <= |old(own.pages)|
      && AllFree(FreeFlags(old(parent.pages)), p, count)
      && AllFree(FreeFlags(old(own.pages)), s, c)
      && parent.pages == WithRegion(old(parent.pages), p, count, protect, t.commit)
      && own.pages == WithRegion(old(own.pages), s, c, protect, t.commit)
    }

    // What a refusal leaves in the parent: the same pages free. What could not
    // be pinned is given back, except from page 0, which the parent keeps.
    twostate predicate Refused(r: Request, p: nat, t: AllocationType, protect: Protection)
      reads own, parent
    {
      || FreeFlags(parent.pages) == FreeFlags(old(parent.pages))
      || (p == 0 && r.Asked() && r.IsBest(FreeFlags(old(parent.pages)), 0) && r.count <= |old(parent.pages)|
          && parent.pages == WithRegion(old(parent.pages), 0, r.count, protect, t.commit))
    }

    // Alloc asks for the whole alias, always top-down.
    method Alloc(size: nat, alignment: nat, t: AllocationType, protect: Protection, parentHostOk: bool,
                 aliasHostOk: bool, ghost others: seq<View>)
      returns (ok: bool, address: nat, ghost p: nat, ghost s: nat)
      requires Valid(others) && (t.reserve || t.commit)
      requires InDomain(own.heapBase, own.heapBase + (own.heapSize - 1), size, alignment)
      modifies parent, own
      ensures Valid(others)
      ensures var r := ParentRequest(own.heapBase, own.heapBase + (own.heapSize - 1), size, alignment, true);
        && r.Asked()
        && (ok ==> r.IsBest(FreeFlags(old(parent.pages)), p))
        && (ok ==> Pinned(p, r.count, s, PinCount(size, alignment), t, protect))
        && (!ok && parentHostOk && aliasHostOk ==> r.NoneFits(FreeFlags(old(parent.pages))))
      ensures if ok then address == own.heapBase + p * parent.pageSize - Skew()
              else own.pages == old(own.pages) && address == 0
      ensures ok ==> own.heapBase <= address && address + PinCount(size, alignment) * own.pageSize
                     < own.heapBase + own.heapSize + parent.pageSize
      ensures !ok ==>
        Refused(ParentRequest(own.heapBase, own.heapBase + (own.heapSize - 1), size, alignment, true), p, t, protect)
    {
      ok, address, p, s := AllocRange(own.heapBase, own.heapBase + (own.heapSize - 1),
                                      size, alignment, t, protect, true, parentHostOk, aliasHostOk, others);
    }

    method AllocRange(low: nat, high: nat, size: nat, alignment: nat, t: AllocationType, protect: Protection,
                      topDown: bool, parentHostOk: bool, aliasHostOk: bool, ghost others: seq<View>)
      returns (ok: bool, address: nat, ghost p: nat, ghost s: nat)
      requires Valid(others) && InDomain(low, high, size, alignment) && (t.reserve || t.commit)
      modifies parent, own
      ensures Valid(others)
      // The pinning itself never fails: only the parent or the host can refuse.
      ensures var r := ParentRequest(low, high, size, alignment, topDown);
        && r.Asked()
        && (ok ==> r.IsBest(FreeFlags(old(parent.pages)), p))
        && (ok ==> Pinned(p, r.count, s, PinCount(size, alignment), t, protect))
        && (!ok && parentHostOk && aliasHostOk ==> r.NoneFits(FreeFlags(old(parent.pages))))
      ensures if ok then address == own.heapBase + p * parent.pageSize - Skew()
              else own.pages == old(own.pages) && address == 0
      ensures ok ==> own.heapBase <= address && IsAsked(low, high, address, PinCount(size, alignment) * own.pageSize)
      ensures !ok ==> Refused(ParentRequest(low, high, size, alignment, topDown), p, t, protect)
    {
      address, p, s := 0, 0, 0;
      ghost var parent0 := parent.pages;
      RequestInPages(low, high, size, alignment, topDown);
      var parentAddress;
      ok, parentAddress, p := parent.AllocRange(PhysicalLow(low), PhysicalHigh(high), RoundUp(size, own.pageSize),
                                                RoundUp(alignment, own.pageSize), t, protect, topDown, parentHostOk);
      if !ok {
        return;
      }
      ghost var c;
      s, c := FoundIsAliasRange(low, high, size, alignment, topDown, FreeFlags(parent0), p);
      ok := PinOrRelease(parent0, p, parentAddress, c * ratio, s, c, RoundUp(size, own.pageSize),
                         RoundUp(alignment, own.pageSize), t, protect, aliasHostOk, others);
      if ok {
        address := own.heapBase + parentAddress - Skew();
        IsInAsked(low, high, size, alignment, topDown, FreeFlags(parent0), p);
      } else {
        GivenBack(parent0, p, c * ratio, protect, t.commit);
      }
    }

    // The first page of an allocation ends above the low address asked for, and
    // its last starts no higher than the high one.
    ghost predicate IsAsked(low: nat, high: nat, address: int, bytes: int) {
      low < address + parent.pageSize && address + bytes <= high + parent.pageSize
    }

    lemma IsInAsked(low: nat, high: nat, size: nat, alignment: nat, topDown: bool, f: seq<bool>, p: nat)
      requires Shape() && parent.Shape() && own.Shape() && InDomain(low, high, size, alignment)
      requires Skew() <= p * parent.pageSize
      requires var r := ParentRequest(low, high, size, alignment, topDown); r.Asked() && r.IsBest(f, p)
      ensures IsAsked(low, high, own.heapBase + p * parent.pageSize - Skew(), PinCount(size, alignment) * own.pageSize)
    {
      var r, pp := ParentRequest(low, high, size, alignment, topDown), parent.pageSize;
      RequestInPages(low, high, size, alignment, topDown);
      Associate(PinCount(size, alignment), ratio, pp);
      Distribute(p, r.count, pp);
      Distribute(p + r.count, -1, pp);
      AlignInAsked(low, alignment, p, RoundUp(RoundUp(alignment, own.pageSize), pp));
      if PhysicalHigh(high) < (p + r.count - 1) * pp {
        ParentHigh(PhysicalHigh(high), p + r.count - 1);
      }
    }

    lemma AlignInAsked(low: nat, alignment: nat, p: nat, al: nat)
      requires Shape() && parent.Shape() && low < own.heapBase + own.heapSize && p < parent.pageCount - 1
      requires WellSizedLow(low, alignment) && al == RoundUp(RoundUp(alignment, own.pageSize), parent.pageSize)
      requires parent.LowPage(PhysicalLow(low), al) <= p
      ensures PhysicalLow(low) < p * parent.pageSize + parent.pageSize
    {
      var up := RoundUp(alignment, own.pageSize);
      RoundUpIsMultiple(alignment, own.pageSize);
      MultipleOfProduct(up, ratio, parent.pageSize);
      RoundUpOfMultiple(up, parent.pageSize);
      parent.LowOverlaps(PhysicalLow(low), al, p);
    }

    ghost predicate WellSizedLow(low: nat, alignment: nat)
      requires Shape() && low < own.heapBase + own.heapSize
    {
      var al := RoundUp(alignment, own.pageSize);
      0 < al < ADDRESS_SPACE && PhysicalLow(low) <= Align(PhysicalLow(low), al)
    }

    // Pins what the parent gave, or gives it back.
    method PinOrRelease(ghost parent0: Pages, ghost p: nat, parentAddress: nat, ghost n: nat,
                        ghost s: nat, ghost c: nat, size: nat, alignment: nat, t: AllocationType,
                        protect: Protection, hostOk: bool, ghost others: seq<View>)
      returns (ok: bool)
      requires Shape() && own.Sound() && parent.Sound() && (t.reserve || t.commit)
      requires Coherent(parent0, [Table()] + others)
      requires IsAliasRange(p, n, s, c) && c == own.FixedCount(size, alignment)
      requires p + n <= |parent0| && AllFree(FreeFlags(parent0), p, n)
      requires parent.pages == WithRegion(parent0, p, n, protect, t.commit)
      requires parentAddress == p * parent.pageSize
      modifies parent, own
      ensures Valid(others)
      ensures Skew() <= parentAddress && AllFree(FreeFlags(old(own.pages)), s, c)
      ensures ok ==> parent.pages == old(parent.pages)
      ensures own.pages == if ok then WithRegion(old(own.pages), s, c, protect, t.commit) else old(own.pages)
      ensures !ok ==> parent.pages == if p == 0 then old(parent.pages) else WithFreed(old(parent.pages), p, n)
      ensures hostOk ==> ok
    {
      ghost var table := Table();
      ReadyToPin(parent0, p, n, s, c, others);
      ok := Pin(parentAddress, s, c, size, alignment, t, protect, hostOk);
      if ok {
        FirstPins(parent0, table, others, p, n, s, c, protect, t.commit);
      } else {
        GiveBack(parent0, p, n, parentAddress, protect, t.commit, [table] + others);
      }
    }

    // What the parent gave is free in the alias.
    lemma ReadyToPin(parent0: Pages, p: nat, n: nat, s: nat, c: nat, others: seq<View>)
      requires Shape() && own.Shape() && parent.Shape() && |parent0| == parent.pageCount
      requires Coherent(parent0, [Table()] + others) && IsAliasRange(p, n, s, c)
      requires p + n <= |parent0| && AllFree(FreeFlags(parent0), p, n)
      ensures 0 < n && s + c <= own.pageCount && AllFree(FreeFlags(own.pages), s, c)
      ensures Skew() <= p * parent.pageSize && own.PageOf(own.heapBase + p * parent.pageSize - Skew()) == s
      ensures parent.PageOf(p * parent.pageSize) == p
    {
      assert ([Table()] + others)[0] == Table();
      MulStep(0, c, ratio);
      FreeParentFreeAlias(parent0, Table(), s, c);
      PageAddresses(p, s);
    }

    // Free pages of the alias can be pinned, if the host has them.
    method Pin(parentAddress: nat, ghost s: nat, ghost c: nat, size: nat, alignment: nat, t: AllocationType,
               protect: Protection, hostOk: bool)
      returns (ok: bool)
      requires own.Sound() && (t.reserve || t.commit) && Skew() <= parentAddress
      requires own.PageOf(own.heapBase + parentAddress - Skew()) == s && c == own.FixedCount(size, alignment)
      requires 0 < c && s + c <= own.pageCount && AllFree(FreeFlags(own.pages), s, c)
      modifies own
      ensures own.Sound() && (hostOk ==> ok)
      ensures own.pages == if ok then WithRegion(old(own.pages), s, c, protect, t.commit) else old(own.pages)
    {
      assert FreeFlags(own.pages)[s];
      ok := own.AllocFixed(own.heapBase + parentAddress - Skew(), size, alignment, t, protect, hostOk);
    }

    // Releases in the parent what could not be pinned.
    method GiveBack(ghost parent0: Pages, ghost p: nat, ghost count: nat, parentAddress: nat, ghost protect: Protection,
                    ghost commit: bool, ghost views: seq<View>)
      requires parent.Sound() && 0 < count && p + count <= |parent0| && AllFree(FreeFlags(parent0), p, count)
      requires parent.pages == WithRegion(parent0, p, count, protect, commit)
      requires parent.PageOf(parentAddress) == p && Coherent(parent0, views)
      modifies parent
      ensures parent.Sound() && Coherent(parent.pages, views)
      ensures parent.pages == if p == 0 && parent.heapBase == 0 then old(parent.pages)
                              else WithFreed(old(parent.pages), p, count)
    {
      ghost var held := parent.pages;
      NewRegion(parent0, p, count, protect, commit);
      assert InItsRegion(held, p);
      var released, _ := parent.Release(parentAddress);
      if released {
        FreeKeepsPartition(held, p, count);
        assert IsFree(parent0[p]);
      }
      MoreRegionsKeepCoherent(parent0, parent.pages, views);
    }

    // The parent page of an address lies in the parent range of its alias page.
    lemma AddressInside(address: nat)
      requires Shape() && own.Shape() && parent.Shape() && own.heapBase <= address < own.heapBase + own.heapSize
      ensures own.PageOf(address) < own.pageCount && parent.PageOf(PhysicalAddress(address)) < parent.pageCount
      ensures var v := Table();
        v.At(own.PageOf(address)) <= parent.PageOf(PhysicalAddress(address)) < v.At(own.PageOf(address)) + ratio
    {
      var rel, pp := address - own.heapBase, parent.pageSize;
      BelowEnd(rel, own.pageCount, own.pageSize);
      BelowEnd(rel + Skew(), parent.pageCount, pp);
      SmallWrap(rel);
      SmallWrap(rel + Skew());
      InsideAliasPage(rel, ratio, pp, offset);
    }

    // Releases an allocation made through this alias from both heaps. The
    // address must lie in a live region of the alias.
    method Release(baseAddress: nat, ghost others: seq<View>) returns (ok: bool, regionSize: nat)
      requires Valid(others) && own.heapBase <= baseAddress < own.heapBase + own.heapSize
      requires own.PageOf(baseAddress) < own.pageCount ==> own.pages[own.PageOf(baseAddress)].state.reserve
      modifies parent, own
      ensures Valid(others)
      ensures own.PageOf(baseAddress) < own.pageCount
      // Only the first parent page of a region names it, and page 0 is kept.
      ensures var s, p := own.PageOf(baseAddress), parent.PageOf(PhysicalAddress(baseAddress));
        ok <==> IsRegion(old(own.pages), s, old(own.pages)[s].count) && p == ParentPage(s) && p != 0
      ensures var s := own.PageOf(baseAddress);
        var c := old(own.pages)[s].count;
        if ok then
          && own.pages == WithFreed(old(own.pages), s, c)
          && IsRegion(old(parent.pages), ParentPage(s), ParentPages(c))
          && parent.pages == WithFreed(old(parent.pages), ParentPage(s), ParentPages(c))
          && regionSize == c * own.pageSize
        else own.pages == old(own.pages) && parent.pages == old(parent.pages)
    {
      ghost var table, parent0 := Table(), parent.pages;
      assert ([table] + others)[0] == table;
      AddressInside(baseAddress);
      var s, p := own.PageOf(baseAddress), parent.PageOf(PhysicalAddress(baseAddress));
      ghost var b, n := own.pages[s].base, own.pages[s].count;
      InRegion(table, s, b, n, p);
      ok, regionSize := parent.Release(PhysicalAddress(baseAddress));
      if ok {
        ReleaseKeepsCoherent(parent0, [table] + others, 0, b, n);
        ok, regionSize := own.Release(baseAddress);
        assert ([table] + others)[0 := Table()] == [Table()] + others;
      }
    }

    // A parent page inside a live alias page lies in the region that mirrors the
    // alias page's, and starts it only from the region's first alias page.
    lemma InRegion(v: View, s: nat, b: nat, n: nat, p: nat)
      requires Coherent(parent.pages, [v]) && v.ratio == ratio && v.offset == offset && 0 < ratio
      requires s < |v.pages| && v.pages[s].state.reserve && v.pages[s].base == b && v.pages[s].count == n
      requires v.At(s) <= p < v.At(s) + ratio && p < |parent.pages|
      ensures IsRegion(v.pages, b, n) && IsRegion(parent.pages, v.At(b), n * ratio)
      ensures parent.pages[p].state.reserve && InItsRegion(parent.pages, p)
      ensures parent.pages[p].base == p <==> b == s && p == v.At(s)
    {
      assert [v][0] == v;
      assert InItsRegion(v.pages, s);
      AliasPageInside(v, b, n, s);
      MulStep(s, b + n, ratio);
      MulStep(b, s, ratio);
      assert (b + n) * ratio == b * ratio + n * ratio;
      assert IsRegion(parent.pages, v.At(b), n * ratio);
    }
  }

  lemma GivenBack(pages: Pages, p: nat, n: nat, protect: Protection, commit: bool)
    requires p + n <= |pages| && AllFree(FreeFlags(pages), p, n)
    ensures FreeFlags(WithFreed(WithRegion(pages, p, n, protect, commit), p, n)) == FreeFlags(pages)
  {
  }

  lemma UnequalTimes(a: nat, b: nat, m: nat)
    requires a != b && 0 < m
    ensures a * m != b * m
  {
    MulStep(a, b, m);
    MulStep(b, a, m);
  }

  lemma BelowEnd(x: nat, n: nat, m: nat)
    requires 0 < m && x < n * m && n * m <= ADDRESS_SPACE
    ensures Wrap(x) / m < n
  {
    DivMul(x, m);
    MulStep(n, x / m, m);
  }

  lemma SmallWrap(x: nat)
    requires x < ADDRESS_SPACE
    ensures Wrap(x) == x
  {
  }

  lemma InsideAliasPage(x: nat, ratio: nat, m: nat, offset: nat)
    requires 0 < ratio && 0 < m && 0 < ratio * m
    ensures var p, s := (x + offset * m) / m, x / (ratio * m); offset + s * ratio <= p < offset + s * ratio + ratio
  {
    DivMul(x, m);
    Distribute(x / m, offset, m);
    DivUnique(x + offset * m, m, x / m + offset, x % m);
    SubPage(x, ratio, m);
  }

  lemma SubPage(x: nat, ratio: nat, m: nat)
    requires 0 < ratio && 0 < m && 0 < ratio * m
    ensures x / (ratio * m) * ratio <= x / m < x / (ratio * m) * ratio + ratio
  {
    var q := x / (ratio * m);
    DivMul(x, ratio * m);
    Associate(q, ratio, m);
    Distribute(q * ratio, ratio, m);
    DivMul(x, m);
    MulStep(x / m + 1, q * ratio, m);
    MulStep(q * ratio + ratio, x / m, m);
  }

  // Pinning in the first of the aliases.
  lemma FirstPins(parent: Pages, table: View, others: seq<View>, p: nat, n: nat, s: nat, c: nat, protect: Protection,
                  commit: bool)
    requires Coherent(parent, [table] + others) && 0 < c && s + c <= |table.pages|
    requires p == table.At(s) && n == c * table.ratio && p + n <= |parent|
    requires AllFree(FreeFlags(parent), p, n) && AllFree(FreeFlags(table.pages), s, c)
    ensures Coherent(WithRegion(parent, p, n, protect, commit),
                     [table.(pages := WithRegion(table.pages, s, c, protect, commit))] + others)
  {
    var after := WithRegion(parent, p, n, protect, commit);
    var w := table.(pages := WithRegion(table.pages, s, c, protect, commit));
    PinKeepsCoherent(parent, after, [table] + others, 0, s, c, protect, commit, protect, commit);
    assert ([table] + others)[0 := w] == [w] + others;
  }

  // Any alias can be the one that acts next.
  lemma AnyAliasNext(parent: Pages, views: seq<View>, k: nat)
    requires Coherent(parent, views) && k < |views|
    ensures Coherent(parent, [views[k]] + views[..k] + views[k + 1..])
  {
    var w := [views[k]] + views[..k] + views[k + 1..];
    var from := (j: nat) => if j == 0 then k else if j <= k then j - 1 else j;
    forall j: nat | j < |w| ensures from(j) < |views| && w[j] == views[from(j)] {
    }
    forall i: nat, j: nat | i < |w| && j < |w| && i != j ensures Apart(w[i], w[j]) {
      assert w[i] == views[from(i)] && w[j] == views[from(j)] && from(i) != from(j);
    }
  }

  // The pinning takes what the parent gave exactly when the size, in alias
  // pages, is a whole number of alignments.
  lemma PinMatchesParent(size: nat, alignment: nat, pageSize: nat)
    requires 0 < size && 0 < alignment && 0 < pageSize && ADDRESS_SPACE % pageSize == 0
    requires size % pageSize == 0 && alignment % pageSize == 0 && IsPow2(alignment)
    requires size + alignment <= ADDRESS_SPACE
    ensures PageCount(Align(size, alignment), pageSize) == PageCount(size, pageSize) <==> size % alignment == 0
  {
    var a := Align(size, alignment);
    AlignRoundsUp(size, alignment);
    PageMultiple(a, alignment, pageSize);
    RoundUpOfMultiple(size, pageSize);
    RoundUpOfMultiple(a, pageSize);
  }

  // A page aligned to two pins two over the parent's one, as 0x10000 bytes
  // aligned to 0x20000 with 64 KB pages do.
  lemma PinTakesTooMuch(pageSize: nat)
    requires IsPow2(2 * pageSize) && 0 < pageSize && ADDRESS_SPACE % pageSize == 0 && 3 * pageSize <= ADDRESS_SPACE
    ensures PageCount(Align(pageSize, 2 * pageSize), pageSize) == 2 && PageCount(pageSize, pageSize) == 1
  {
    AlignRoundsUp(pageSize, 2 * pageSize);
    OnlyMultiple(Align(pageSize, 2 * pageSize), 2 * pageSize);
    MultipleMod(2, pageSize);
    MultipleMod(1, pageSize);
    RoundUpOfMultiple(2 * pageSize, pageSize);
    RoundUpOfMultiple(pageSize, pageSize);
  }

  lemma OnlyMultiple(a: nat, m: nat)
    requires 0 < a < 2 * m && a % m == 0
    ensures a == m
  {
    DivMul(a, m);
    MulStep(a / m, 1, m);
    MulStep(1, a / m, m);
    MulStep(2, a / m, m);
  }

  lemma SixtyFourKBPinTakesTooMuch()
    ensures PageCount(Align(0x1_0000, 0x2_0000), 0x1_0000) == 2 && PageCount(0x1_0000, 0x1_0000) == 1
  {
    assert IsPow2(2) && IsPow2(4) && IsPow2(8) && IsPow2(0x10) && IsPow2(0x20) && IsPow2(0x40);
    assert IsPow2(0x80) && IsPow2(0x100) && IsPow2(0x200) && IsPow2(0x400) && IsPow2(0x800) && IsPow2(0x1000);
    assert IsPow2(0x2000) && IsPow2(0x4000) && IsPow2(0x8000) && IsPow2(0x1_0000);
    PinTakesTooMuch(0x1_0000);
  }

  // An alias region pinned over another number of bytes than the parent gave
  // has no region of the parent to mirror, so no such state is coherent.
  lemma UnequalPinIsIncoherent(parent: Pages, table: View, others: seq<View>, s: nat, c: nat, n: nat)
    requires IsRegion(table.pages, s, c) && IsRegion(parent, table.At(s), n) && n != c * table.ratio
    ensures !Coherent(parent, [table] + others)
  {
    assert ([table] + others)[0] == table;
    assert parent[table.At(s)].count == n;
    assert !IsRegion(parent, table.At(s), c * table.ratio);
    assert !Mirrors(parent, table);
  }

  // Releasing in the parent a region that another alias pinned, which an address
  // of this alias over the same bytes does, leaves that alias with a region the
  // parent has not.
  lemma ForeignReleaseIsIncoherent(parent: Pages, views: seq<View>, k: nat, s: nat, c: nat)
    requires Coherent(parent, views) && k < |views| && IsRegion(views[k].pages, s, c)
    ensures var v := views[k];
      IsRegion(parent, v.At(s), c * v.ratio) && !Coherent(WithFreed(parent, v.At(s), c * v.ratio), views)
  {
    var v := views[k];
    assert Mirrors(parent, v) && IsRegion(parent, v.At(s), c * v.ratio);
    var freed := WithFreed(parent, v.At(s), c * v.ratio);
    assert freed[v.At(s)] == EMPTY_ENTRY;
    assert !IsRegion(freed, v.At(s), c * v.ratio);
    assert !Mirrors(freed, v);
  }

  lemma PageMultiple(a: nat, n: nat, m: nat)
    requires 0 < m && 0 < n && a % n == 0 && n % m == 0
    ensures a % m == 0
  {
    DivMul(a, n);
    MultipleOfMultiple(a / n, n, m);
  }

  lemma MultipleOfMultiple(q: nat, n: nat, m: nat)
    requires 0 < m && n % m == 0
    ensures q * n % m == 0
  {
    DivMul(n, m);
    assert q * n == q * (n / m) * m;
    MultipleMod(q * (n / m), m);
  }

  lemma PageOfAddress(h: BaseHeap, p: nat)
    requires h.Shape() && p < h.pageCount
    ensures h.PageOf(h.heapBase + p * h.pageSize) == p
  {
    MulStep(p, h.pageCount, h.pageSize);
    DivUnique(p * h.pageSize, h.pageSize, p, 0);
  }

  lemma Scale(n: nat, ratio: nat, m: nat, offset: nat)
    ensures (offset + n * ratio) * m == offset * m + n * (ratio * m)
  {
    Associate(n, ratio, m);
    Distribute(offset, n * ratio, m);
  }

  lemma CeilBelow(x: nat, end: nat, m: nat)
    requires 0 < m && x < end * m + m
    ensures x / m <= end
  {
    DivMul(x, m);
    MulStep(end + 1, x / m, m);
  }

  // What the parent finds for an alias request is a whole number of alias
  // pages, inside the alias.
  lemma FoundInAlias(p: nat, count: nat, stride: nat, high: nat, ratio: nat, offset: nat, pageCount: nat)
    returns (s: nat, c: nat)
    requires 0 < ratio && 0 < stride && offset <= p && p % stride == 0 && stride % ratio == 0
    requires offset % ratio == 0 && count % ratio == 0 && 0 < count && p + count <= high <= offset + pageCount * ratio
    ensures p == offset + s * ratio && count == c * ratio && 0 < c && s + c <= pageCount
  {
    var q, t, o := p / stride, stride / ratio, offset / ratio;
    c := count / ratio;
    DivMul(p, stride);
    DivMul(stride, ratio);
    DivMul(offset, ratio);
    DivMul(count, ratio);
    assert p == q * t * ratio;
    MulStep(q * t, o, ratio);
    s := q * t - o;
    assert s * ratio == q * t * ratio - o * ratio;
    MulStep(pageCount, s + c, ratio);
    assert (s + c) * ratio == s * ratio + c * ratio;
  }
}
