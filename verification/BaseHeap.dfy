// BaseHeap of memory.cc: a page table, the free block tracker that indexes it,
// and the host protection that backs it.
module BaseHeaps {
  import opened Wrappers
  import opened PageTable
  import opened FreeBlocks

  // A start the search may return: aligned to the stride, inside the window,
  // and free throughout.
  ghost predicate Fits(f: seq<bool>, p: nat, count: nat, stride: nat, low: nat, high: nat)
    requires 0 < stride
  {
    p % stride == 0 && low <= p && p + count <= high && AllFree(f, p, count)
  }

  // The last multiple of the stride in the window, where a top-down search ends.
  ghost predicate IsTopDownEnd(end: nat, high: nat, stride: nat)
    requires 0 < stride
  {
    end <= high && end % stride == 0 && forall m: nat :: m % stride == 0 && m <= high ==> m <= end
  }

  // What an AllocRange call asks for, in pages.
  datatype Request = Request(count: nat, stride: nat, low: nat, high: nat, topDown: bool) {
    ghost predicate Asked() {
      0 < count && 0 < stride
    }

    // Where the search window ends.
    ghost predicate Ends(end: nat)
      requires Asked()
    {
      if topDown then IsTopDownEnd(end, high, stride) else end == high
    }

    // The highest fit of a top-down search, the lowest of a bottom-up one.
    ghost predicate IsBest(f: seq<bool>, p: nat)
      requires Asked()
    {
      exists end: nat :: Ends(end) &&
        if topDown then IsLastFit(f, p, count, stride, low, end) else IsFirstFit(f, p, count, stride, low, end)
    }

    ghost predicate NoneFits(f: seq<bool>)
      requires Asked()
    {
      exists end: nat :: Ends(end) && forall q: nat :: !Fits(f, q, count, stride, low, end)
    }
  }

  // --- Host pages, counted in guest pages ---

  // A host page holds `perHost` guest pages and the heap starts `shift` guest
  // pages into the host range. The join of the accesses of pages lo..hi.
  function JoinAccess(pages: Pages, lo: nat, hi: nat): (r: PageAccess)
    requires lo <= hi <= |pages|
    ensures forall p :: lo <= p < hi ==> r.Permits(ToPageAccess(pages[p].protect))
    ensures r == NoAccess || exists p :: lo <= p < hi && r == ToPageAccess(pages[p].protect)
    decreases hi - lo
  {
    if lo == hi then NoAccess
    else JoinAccess(pages, lo, hi - 1).Join(ToPageAccess(pages[hi - 1].protect))
  }

  function HostPageOf(p: nat, perHost: nat, shift: nat): nat
    requires 0 < perHost
  {
    (p + shift) / perHost
  }

  // The first guest page of a host page, and the one after its last.
  function FirstPage(h: nat, perHost: nat, shift: nat, n: nat): (r: nat)
    ensures r <= n
  {
    var first := if h * perHost > shift then h * perHost - shift else 0;
    if first <= n then first else n
  }

  function EndPage(h: nat, perHost: nat, shift: nat, n: nat): (r: nat)
    ensures r <= n
  {
    var end := if h * perHost + perHost > shift then h * perHost + perHost - shift else 0;
    if end <= n then end else n
  }

  lemma HostPageHolds(p: nat, h: nat, perHost: nat, shift: nat, n: nat)
    requires 0 < perHost && p < n
    ensures HostPageOf(p, perHost, shift) == h <==> FirstPage(h, perHost, shift, n) <= p < EndPage(h, perHost, shift, n)
  {
    var q := p + shift;
    DivMul(q, perHost);
    MulStep(q / perHost, h, perHost);
    MulStep(h, q / perHost, perHost);
  }

  // Host page `h` allows what the most permissive of its guest pages needs.
  function HostJoin(pages: Pages, h: nat, perHost: nat, shift: nat): PageAccess {
    JoinAccess(pages, FirstPage(h, perHost, shift, |pages|), EndPage(h, perHost, shift, |pages|))
  }

  // Every committed guest page can be accessed on the host as the guest may.
  ghost predicate HostPermits(pages: Pages, host: seq<PageAccess>, perHost: nat, shift: nat)
    requires 0 < perHost
  {
    forall p :: 0 <= p < |pages| && pages[p].state.commit ==>
      HostPageOf(p, perHost, shift) < |host| &&
      host[HostPageOf(p, perHost, shift)].Permits(ToPageAccess(pages[p].protect))
  }

  // `host` with the host pages of guest pages s..s+c at the join of their guest
  // pages, those in the range at `protect`.
  ghost predicate IsHostAfter(host': seq<PageAccess>, host: seq<PageAccess>, pages: Pages, s: nat, c: nat,
                              protect: Protection, perHost: nat, shift: nat)
    requires 0 < perHost && s + c <= |pages|
  {
    && |host'| == |host|
    && forall h :: 0 <= h < |host| ==>
         host'[h] == if 0 < c && HostPageOf(s, perHost, shift) <= h <= HostPageOf(s + c - 1, perHost, shift)
                     then HostJoin(WithProtect(pages, s, c, protect), h, perHost, shift)
                     else host[h]
  }

  // A guest page is in the host page it shares bytes with, on a host range the
  // heap starts `shift` guest pages into.
  lemma HostPageBytes(p: nat, h: nat, perHost: nat, shift: nat, pageSize: nat)
    requires 0 < perHost && 0 < pageSize
    ensures var start := (p + shift) * pageSize;
      HostPageOf(p, perHost, shift) == h <==>
      h * (perHost * pageSize) <= start && start + pageSize <= h * (perHost * pageSize) + perHost * pageSize
  {
    var q := p + shift;
    DivMul(q, perHost);
    Associate(h, perHost, pageSize);
    Distribute(h, 1, perHost);
    Distribute(h * perHost, perHost, pageSize);
    Distribute(q, 1, pageSize);
    MulStep(q / perHost, h, perHost);
    MulStep(h, q / perHost, perHost);
    MulStep(q, h * perHost, pageSize);
    MulStep(h * perHost, q, pageSize);
    MulStep(q + 1, h * perHost + perHost, pageSize);
    MulStep(h * perHost + perHost, q + 1, pageSize);
  }

  // A host page with none of the range on it is as it was. One with some permits
  // what each guest page on it may do, and what one of them may.
  ghost predicate IsHostPageAfter(host': seq<PageAccess>, host: seq<PageAccess>, after: Pages, s: nat, c: nat,
                                  perHost: nat, shift: nat, h: nat)
    requires 0 < perHost && h < |host| == |host'| && s + c <= |after|
  {
    if exists p :: s <= p < s + c && HostPageOf(p, perHost, shift) == h then
      && (forall q :: 0 <= q < |after| && HostPageOf(q, perHost, shift) == h ==>
            host'[h].Permits(ToPageAccess(after[q].protect)))
      && (host'[h] == NoAccess || exists q :: 0 <= q < |after| && HostPageOf(q, perHost, shift) == h &&
                                              host'[h] == ToPageAccess(after[q].protect))
    else host'[h] == host[h]
  }

  lemma HostAfterIsJoin(pages: Pages, host: seq<PageAccess>, host': seq<PageAccess>, s: nat, c: nat,
                        protect: Protection, perHost: nat, shift: nat, h: nat)
    requires 0 < perHost && s + c <= |pages| && h < |host|
    requires IsHostAfter(host', host, pages, s, c, protect, perHost, shift)
    ensures IsHostPageAfter(host', host, WithProtect(pages, s, c, protect), s, c, perHost, shift, h)
  {
    var w := WithProtect(pages, s, c, protect);
    forall q | 0 <= q < |w| ensures HostPageOf(q, perHost, shift) == h <==>
                                    FirstPage(h, perHost, shift, |w|) <= q < EndPage(h, perHost, shift, |w|)
    {
      HostPageHolds(q, h, perHost, shift, |w|);
    }
    if 0 < c {
      HostPagesBetween(s, c, perHost, shift, h);
    }
  }

  // The host pages of a run of guest pages are all those between its ends'.
  lemma HostPagesBetween(s: nat, c: nat, perHost: nat, shift: nat, h: nat)
    requires 0 < perHost && 0 < c
    ensures HostPageOf(s, perHost, shift) <= h <= HostPageOf(s + c - 1, perHost, shift) <==>
            exists p :: s <= p < s + c && HostPageOf(p, perHost, shift) == h
  {
    forall p | s <= p < s + c
      ensures HostPageOf(s, perHost, shift) <= HostPageOf(p, perHost, shift) <= HostPageOf(s + c - 1, perHost, shift)
    {
      HostPageMono(s, p, perHost, shift);
      HostPageMono(p, s + c - 1, perHost, shift);
    }
    var a, b := HostPageOf(s, perHost, shift), HostPageOf(s + c - 1, perHost, shift);
    if a <= h <= b {
      DivMul(s + shift, perHost);
      DivMul(s + c - 1 + shift, perHost);
      MulStep(a, h, perHost);
      MulStep(h, b, perHost);
      var p := if h == a then s else h * perHost - shift;
      if h > a {
        MultipleMod(h, perHost);
      }
      assert HostPageOf(p, perHost, shift) == h;
    }
  }

  // Whatever ApplyHostProtect does for a range, the pages keep host access: the
  // range at its new protection, every neighbour on a shared host page at its
  // own. `after` is the page table once the caller has updated it.
  lemma HostAfterPermits(pages: Pages, after: Pages, host: seq<PageAccess>, host': seq<PageAccess>,
                         s: nat, c: nat, protect: Protection, perHost: nat, shift: nat)
    requires 0 < perHost && 0 < c && s + c <= |pages| == |after|
    requires HostPermits(pages, host, perHost, shift)
    requires IsHostAfter(host', host, pages, s, c, protect, perHost, shift)
    requires HostPageOf(|pages| - 1, perHost, shift) < |host|
    requires forall i :: s <= i < s + c ==> after[i].protect == protect
    requires forall i :: 0 <= i < |pages| && !(s <= i < s + c) ==> after[i] == pages[i]
    ensures HostPermits(after, host', perHost, shift)
  {
    var w := WithProtect(pages, s, c, protect);
    forall p | 0 <= p < |after| && after[p].state.commit
      ensures HostPageOf(p, perHost, shift) < |host'|
      ensures host'[HostPageOf(p, perHost, shift)].Permits(ToPageAccess(after[p].protect))
    {
      var h := HostPageOf(p, perHost, shift);
      HostPageMono(p, |pages| - 1, perHost, shift);
      HostPageHolds(p, h, perHost, shift, |pages|);
      assert w[p].protect == after[p].protect;
      if s <= p < s + c {
        HostPageMono(s, p, perHost, shift);
        HostPageMono(p, s + c - 1, perHost, shift);
      }
    }
  }

  lemma HostPageMono(p: nat, q: nat, perHost: nat, shift: nat)
    requires 0 < perHost && p <= q
    ensures HostPageOf(p, perHost, shift) <= HostPageOf(q, perHost, shift)
  {
    DivMul(p + shift, perHost);
    DivMul(q + shift, perHost);
    MulStep((q + shift) / perHost, (p + shift) / perHost, perHost);
  }

  // The free runs of a page table, by one scan.
  method ScanFreeRuns(pages: Pages) returns (m: Blocks)
    ensures IsIndexOf(FreeFlags(pages), m)
  {
    m := map[];
    ghost var f := FreeFlags(pages);
    var runStart: Option<nat> := None;
    var i := 0;
    while i < |pages|
      invariant i <= |pages|
      invariant Scanned(f, m, runStart, i)
    {
      ScanStep(f, m, runStart, i);
      if IsFree(pages[i]) {
        if runStart.None? {
          runStart := Some(i);
        }
      } else if runStart.Some? {
        m := m[runStart.value := i - runStart.value];
        runStart := None;
      }
      i := i + 1;
    }
    ScanEnd(f, m, runStart);
    if runStart.Some? {
      m := m[runStart.value := |pages| - runStart.value];
    }
  }

  class BaseHeap {
    const heapBase: nat
    const pageSize: nat
    const pageCount: nat
    const heapSize: nat
    // Guest pages on one host page (1 when guest pages are at least as big),
    // and how many the heap is shifted by on the host (host_address_offset).
    const perHost: nat
    const shift: nat
    // ShouldSkipHostCommit
    const skipCommit: bool

    var pages: Pages
    var blocks: Blocks
    var unreserved: int
    // What the host's page protection is.
    var host: seq<PageAccess>

    ghost predicate Shape()
      reads this`pages, this`host
    {
      && 0 < pageSize && 0 < pageCount <= ADDRESS_SPACE && 0 < perHost
      && 0 < heapSize == pageCount * pageSize && heapBase + heapSize <= ADDRESS_SPACE
      && |pages| == pageCount
      && |host| == HostPageOf(pageCount - 1, perHost, shift) + 1
      && CommitsReserved(pages)
    }

    // The tracker and the free page count are what the page table says.
    ghost predicate Valid()
      reads this`pages, this`host, this`blocks, this`unreserved
    {
      && Shape()
      && IsIndexOf(FreeFlags(pages), blocks)
      && unreserved == FreeCount(FreeFlags(pages))
    }

    ghost predicate Permits()
      reads this`pages, this`host
      requires Shape()
    {
      HostPermits(pages, host, perHost, shift)
    }

    // What every run of the heap keeps: the tracker and the count agree with the
    // table, reserved pages form whole regions, and no committed page is
    // protected harder on the host than the guest asked for.
    ghost predicate Sound()
      reads this`pages, this`host, this`blocks, this`unreserved
    {
      Valid() && Partitioned(pages) && (!skipCommit ==> Permits())
    }

    constructor (heapBase: nat, pageSize: nat, pageCount: nat, perHost: nat, shift: nat, skipCommit: bool)
      requires 0 < pageSize && 0 < pageCount <= ADDRESS_SPACE && 0 < perHost
      requires heapBase + pageCount * pageSize <= ADDRESS_SPACE
      ensures this.heapBase == heapBase && this.pageSize == pageSize && this.pageCount == pageCount
      ensures this.perHost == perHost && this.shift == shift && this.skipCommit == skipCommit
      ensures Sound() && Permits()
      ensures forall i :: 0 <= i < pageCount ==> pages[i] == EMPTY_ENTRY
    {
      this.heapBase, this.pageSize, this.pageCount := heapBase, pageSize, pageCount;
      heapSize := pageCount * pageSize;
      MulStep(0, pageCount, pageSize);
      this.perHost, this.shift, this.skipCommit := perHost, shift, skipCommit;
      pages := seq(pageCount, _ => EMPTY_ENTRY);
      host := seq(HostPageOf(pageCount - 1, perHost, shift) + 1, _ => NoAccess);
      blocks := map[0 := pageCount];
      unreserved := pageCount;
      new;
      AllFreeCount(FreeFlags(pages));
    }

    // Forgets every allocation. The host protection stays as it is.
    method Reset()
      requires Shape()
      modifies this`pages, this`blocks, this`unreserved
      ensures Sound() && Permits()
      ensures forall i :: 0 <= i < pageCount ==> pages[i] == EMPTY_ENTRY
    {
      pages := seq(pageCount, _ => EMPTY_ENTRY);
      unreserved := pageCount;
      blocks := map[];
      blocks := blocks[0 := pageCount];
      AllFreeCount(FreeFlags(pages));
    }

    method RebuildFreeBlocks()
      requires Shape()
      modifies this`blocks
      ensures IsIndexOf(FreeFlags(pages), blocks)
    {
      blocks := ScanFreeRuns(pages);
    }

    // Takes pages out of the block that holds them, leaving the parts before
    // and after. `f` is what the tracker agreed with before.
    method RemoveFreeBlock(start: nat, count: nat, ghost f: seq<bool>)
      requires IsIndexOf(f, blocks) && 0 < count && AllFree(f, start, count)
      modifies this`blocks
      ensures IsIndexOf(Fill(f, start, count, false), blocks)
    {
      // upper_bound, then one back: the last block starting at or before.
      var it := PrevKey(blocks, start + 1);
      ghost var was := blocks;
      HolderIsLast(f, blocks, start, count);
      var blockStart, blockEnd := it.value, it.value + blocks[it.value];
      blocks := blocks - {blockStart};
      if blockStart < start {
        blocks := blocks[blockStart := start - blockStart];
      }
      var allocEnd := start + count;
      if allocEnd < blockEnd {
        blocks := blocks[allocEnd := blockEnd - allocEnd];
      }
      SplitIsIndex(f, was, blockStart, start, allocEnd, blocks);
    }

    // Puts taken pages back, merged with the blocks that touch them.
    method InsertFreeBlock(start: nat, count: nat, ghost f: seq<bool>)
      requires IsIndexOf(f, blocks) && 0 < count && AllTaken(f, start, count)
      modifies this`blocks
      ensures IsIndexOf(Fill(f, start, count, true), blocks)
    {
      ghost var was := blocks;
      var newStart, newCount := start, count;
      var after := start + count;
      BlockAfter(f, was, after);
      if after in blocks {
        newCount := newCount + blocks[after];
        blocks := blocks - {after};
      }
      ghost var hi := start + newCount;
      var before := PrevKey(blocks, start);
      assert forall x :: 0 <= x < start ==> (x in blocks <==> x in was);
      BlockBefore(f, was, start, before);
      if before.Some? && before.value + blocks[before.value] == start {
        newStart := before.value;
        newCount := newCount + blocks[before.value];
        blocks := blocks - {before.value};
      }
      blocks := blocks[newStart := newCount];
      MergeIsIndex(f, was, start, after, newStart, hi, blocks);
    }

    // The search of AllocRange over the tracker.
    method FindFreeRange(r: Request) returns (start: Option<nat>)
      requires Valid() && r.Asked()
      ensures start.Some? ==> r.IsBest(FreeFlags(pages), start.value)
      ensures start.None? ==> r.NoneFits(FreeFlags(pages))
    {
      if r.topDown {
        start := FindTopDown(r.low, r.high, r.count, r.stride);
      } else {
        start := FindBottomUp(r.low, r.high, r.count, r.stride);
        assert r.Ends(r.high);
      }
    }

    // Searches downward. A result ends at or before the last multiple of the
    // stride in the window, which leaves what is above that multiple unused.
    method FindTopDown(low: nat, high: nat, count: nat, stride: nat) returns (start: Option<nat>)
      requires Valid() && 0 < count && 0 < stride
      ensures var r := Request(count, stride, low, high, true);
        match start
        case Some(p) => r.IsBest(FreeFlags(pages), p)
        case None => r.NoneFits(FreeFlags(pages))
    {
      ghost var f := FreeFlags(pages);
      var highAligned := AlignDown(high, stride);
      assert Request(count, stride, low, high, true).Ends(highAligned);
      var cursor: nat := high + 1;
      var it := PrevKey(blocks, cursor);
      while it.Some?
        invariant it == PrevKey(blocks, cursor)
        invariant forall q: nat :: Fits(f, q, count, stride, low, highAligned) ==> RunStart(f, q) < cursor
        decreases cursor
      {
        var blockStart := it.value;
        var blockEnd := blockStart + blocks[blockStart];
        forall q: nat | Fits(f, q, count, stride, low, highAligned)
          ensures FitBelow(f, q, count, blockStart, blockEnd)
        {
          FitAtOrBelow(f, blocks, q, count, cursor, blockStart);
        }
        // The block, and so every one before it, is below the window.
        if blockEnd <= low {
          return None;
        }
        if blockEnd - blockStart >= count {
          var usableEnd := if blockEnd <= highAligned then blockEnd else highAligned;
          if count <= usableEnd {
            var latest := AlignDown(usableEnd - count, stride);
            var usableStart := if blockStart >= low then blockStart else low;
            if usableStart <= latest && latest + count <= blockEnd {
              assert IsMaximalRun(f, blockStart, blocks[blockStart]);
              LastInBlock(f, count, stride, low, highAligned, blockStart, blockEnd, latest);
              return Some(latest);
            }
            NoneInBlock(f, count, stride, low, highAligned, blockStart, blockEnd, latest);
          }
        }
        cursor := blockStart;
        it := PrevKey(blocks, cursor);
      }
      forall q: nat | Fits(f, q, count, stride, low, highAligned) ensures false {
        var s := RunInsideOneBlock(f, blocks, q, count);
      }
      return None;
    }

    // From low addresses upward.
    method FindBottomUp(low: nat, high: nat, count: nat, stride: nat) returns (start: Option<nat>)
      requires Valid() && 0 < count && 0 < stride
      ensures start.Some? ==> IsFirstFit(FreeFlags(pages), start.value, count, stride, low, high)
      ensures start.None? ==> forall q: nat :: !Fits(FreeFlags(pages), q, count, stride, low, high)
    {
      ghost var f := FreeFlags(pages);
      // lower_bound, or the block before it where that reaches past `low`.
      var cursor: nat := low;
      var it := NextKey(blocks, low, |pages|);
      var prev := PrevKey(blocks, low);
      if prev.Some? && prev.value + blocks[prev.value] > low {
        it, cursor := prev, prev.value;
      }
      forall q: nat | Fits(f, q, count, stride, low, high) ensures cursor <= RunStart(f, q) {
        FitNotBefore(f, blocks, q, count, low, prev);
      }
      while it.Some?
        invariant it == NextKey(blocks, cursor, |pages|)
        invariant forall q: nat :: Fits(f, q, count, stride, low, high) ==> cursor <= RunStart(f, q)
        decreases |pages| - cursor
      {
        var blockStart := it.value;
        var blockEnd := blockStart + blocks[blockStart];
        forall q: nat | Fits(f, q, count, stride, low, high)
          ensures FitAbove(f, q, count, blockStart, blockEnd)
        {
          FitAtOrAbove(f, blocks, q, count, cursor, blockStart);
        }
        if blockStart > high {
          return None;
        }
        if blockEnd - blockStart >= count {
          var earliest := if blockStart >= low then blockStart else low;
          var aligned := AlignUp(earliest, stride);
          if aligned + count <= blockEnd && aligned + count <= high {
            assert IsMaximalRun(f, blockStart, blocks[blockStart]);
            FirstInBlock(f, count, stride, low, high, blockStart, blockEnd, aligned);
            return Some(aligned);
          }
          NoneFromBlock(f, count, stride, low, high, blockStart, blockEnd, aligned);
        }
        cursor := blockStart + 1;
        it := NextKey(blocks, cursor, |pages|);
      }
      forall q: nat | Fits(f, q, count, stride, low, high) ensures false {
        var s := RunInsideOneBlock(f, blocks, q, count);
      }
      return None;
    }

    // The window of pages a request's addresses name, in 32-bit arithmetic.
    function LowPage(low: nat, alignment: nat): (r: nat)
      requires 0 < pageSize && 0 < pageCount
      ensures r < pageCount
    {
      var aligned := Align(low, alignment);
      var address := if heapBase >= aligned then heapBase else aligned;
      QuotientIsNat(address - heapBase, pageSize);
      var page := (address - heapBase) / pageSize;
      if page < pageCount - 1 then page else pageCount - 1
    }

    function HighPage(high: nat): (r: nat)
      requires 0 < pageSize && 0 < pageCount
      ensures r < pageCount
    {
      var last := heapBase + (heapSize - 1);
      var address := if last <= high then last else high;
      var page := Wrap(address - heapBase + (pageSize - 1)) / pageSize;
      if page < pageCount - 1 then page else pageCount - 1
    }

    // The window of a request is every page but the last with a byte between its
    // addresses, cut to the heap, the low one aligned first. The byte at the high
    // address is not in it.
    lemma WindowOverlaps(low: nat, high: nat, alignment: nat, page: nat)
      requires Shape() && heapBase <= high && page < pageCount && heapSize + pageSize <= ADDRESS_SPACE
      ensures var from, last := Align(low, alignment), heapBase + (heapSize - 1);
        LowPage(low, alignment) <= page < HighPage(high) <==>
          page < pageCount - 1
          && Overlaps(page, if heapBase >= from then heapBase else from, if last <= high then last else high)
    {
      if page < pageCount - 1 {
        LowOverlaps(low, alignment, page);
        HighOverlaps(high, page);
      }
    }

    lemma LowOverlaps(low: nat, alignment: nat, page: nat)
      requires Shape() && page < pageCount - 1
      ensures var from := Align(low, alignment);
        LowPage(low, alignment) <= page <==>
        (if heapBase >= from then heapBase else from) < heapBase + page * pageSize + pageSize
    {
      var from := Align(low, alignment);
      PageBounds((if heapBase >= from then heapBase else from) - heapBase, page, pageSize);
    }

    lemma HighOverlaps(high: nat, page: nat)
      requires Shape() && heapBase <= high && page < pageCount - 1 && heapSize + pageSize <= ADDRESS_SPACE
      ensures var last := heapBase + (heapSize - 1);
        page < HighPage(high) <==> heapBase + page * pageSize < if last <= high then last else high
    {
      var last := heapBase + (heapSize - 1);
      var x := (if last <= high then last else high) - heapBase;
      WrapOnce(x + (pageSize - 1));
      RoundedBounds(x, page, pageSize);
    }

    // Sets the host protection of whole guest pages, or of the host pages they
    // share with others. `hostOk` is whether the host accepts an exact request.
    method ApplyHostProtect(s: nat, e: nat, protect: Protection, hostOk: bool) returns (ok: bool)
      requires Shape() && s <= e < pageCount
      modifies this`host
      ensures if ok then IsHostAfter(host, old(host), pages, s, e - s + 1, protect, perHost, shift)
              else host == old(host)
      ensures hostOk ==> ok
    {
      var count := e - s + 1;
      if perHost == 1 || (shift % perHost == 0 && count % perHost == 0 && s % perHost == 0) {
        if !hostOk {
          return false;
        }
        ExactRange(pages, s, count, protect, perHost, shift);
        var first, last := HostPageOf(s, perHost, shift), HostPageOf(e, perHost, shift);
        HostPageMono(s, e, perHost, shift);
        HostPageMono(e, pageCount - 1, perHost, shift);
        host := host[..first] + seq(last - first + 1, _ => ToPageAccess(protect)) + host[last + 1..];
        return true;
      }
      JoinHostPages(s, e, protect);
      return true;
    }

    // Gives the host pages of s..e the most permissive access their guest pages
    // need.
    method JoinHostPages(s: nat, e: nat, protect: Protection)
      requires Shape() && s <= e < pageCount
      modifies this`host
      ensures IsHostAfter(host, old(host), pages, s, e - s + 1, protect, perHost, shift)
    {
      var h := HostPageOf(s, perHost, shift);
      HostPageMono(s, e, perHost, shift);
      HostPageMono(e, pageCount - 1, perHost, shift);
      while h <= HostPageOf(e, perHost, shift)
        invariant HostPageOf(s, perHost, shift) <= h <= HostPageOf(e, perHost, shift) + 1
        invariant |host| == |old(host)|
        invariant forall k :: 0 <= k < |host| ==>
          host[k] == if HostPageOf(s, perHost, shift) <= k < h
                     then HostJoin(WithProtect(pages, s, e - s + 1, protect), k, perHost, shift)
                     else old(host)[k]
      {
        var access := MostPermissive(FirstPage(h, perHost, shift, pageCount), EndPage(h, perHost, shift, pageCount),
                                     s, e, protect);
        host := host[h := access];
        h := h + 1;
      }
    }

    // The join of the accesses of guest pages first..end, once those in s..e have
    // changed.
    method MostPermissive(first: nat, end: nat, s: nat, e: nat, protect: Protection) returns (access: PageAccess)
      requires Shape() && s <= e < pageCount && first <= end <= pageCount
      ensures access == JoinAccess(WithProtect(pages, s, e - s + 1, protect), first, end)
    {
      ghost var w := WithProtect(pages, s, e - s + 1, protect);
      assert |w| == pageCount;
      access := NoAccess;
      var p := first;
      while p < end
        invariant first <= p <= end
        invariant access == JoinAccess(w, first, p)
      {
        var pageProtect := if s <= p <= e then protect else pages[p].protect;
        var pageAccess := ToPageAccess(pageProtect);
        assert w[p].protect == pageProtect;
        assert JoinAccess(w, first, p + 1) == JoinAccess(w, first, p).Join(pageAccess);
        if pageAccess == ReadWrite {
          assert JoinAccess(w, first, end).Permits(ToPageAccess(w[p].protect));
          return ReadWrite;
        }
        if pageAccess == ReadOnly && access == NoAccess {
          access := ReadOnly;
        }
        p := p + 1;
      }
    }

    // Backs the pages on the host.
    method CommitHostPages(s: nat, count: nat, protect: Protection, hostOk: bool) returns (ok: bool)
      requires Shape() && 0 < count && s + count <= pageCount
      modifies this`host
      ensures if ok then IsHostAfter(host, old(host), pages, s, count, protect, perHost, shift)
              else host == old(host)
      ensures hostOk ==> ok
    {
      ok := ApplyHostProtect(s, s + count - 1, protect, hostOk);
    }

    // The page an address names, out of range where it is outside the heap.
    function PageOf(address: nat): nat
      requires 0 < pageSize
    {
      Wrap(address - heapBase) / pageSize
    }

    // The pages AllocFixed takes, a whole number of alignments.
    function FixedCount(size: nat, alignment: nat): nat
      requires 0 < pageSize
    {
      PageCount(Align(size, RoundUp(alignment, pageSize)), pageSize)
    }

    // Everything a failed call has to leave alone.
    twostate predicate Untouched()
      reads this
    {
      pages == old(pages) && blocks == old(blocks) && unreserved == old(unreserved) && host == old(host)
    }

    // Marks the pages of a fixed allocation. The result says if there were free
    // ones among them.
    method MarkFixed(s: nat, count: nat, t: AllocationType, protect: Protection) returns (hadFree: bool)
      requires Shape() && unreserved == FreeCount(FreeFlags(pages)) && s + count <= pageCount
      requires t.reserve || (t.commit && forall i :: s <= i < s + count ==> pages[i].state.reserve)
      modifies this`pages, this`unreserved
      ensures Shape() && unreserved == FreeCount(FreeFlags(pages))
      ensures pages == if t.reserve then WithRegion(old(pages), s, count, protect, t.commit)
                       else WithCommit(old(pages), s, count, protect)
      ensures hadFree <==> !AllTaken(FreeFlags(old(pages)), s, count)
    {
      hadFree := false;
      ghost var after := if t.reserve then WithRegion(pages, s, count, protect, t.commit)
                         else WithCommit(pages, s, count, protect);
      var p := s;
      while p < s + count
        invariant s <= p <= s + count
        invariant Shape()
        invariant forall i :: 0 <= i < pageCount ==> pages[i] == if s <= i < p then after[i] else old(pages)[i]
        invariant unreserved == FreeCount(FreeFlags(pages))
        invariant hadFree <==> exists i :: s <= i < p && IsFree(old(pages)[i])
      {
        var wasFree := FixEntry(p, s, count, t, protect);
        hadFree := hadFree || wasFree;
        p := p + 1;
      }
      assert pages == after;
    }

    // Sets the state of one of its pages. Returns whether it was free.
    method FixEntry(p: nat, s: nat, count: nat, t: AllocationType, protect: Protection) returns (wasFree: bool)
      requires Shape() && unreserved == FreeCount(FreeFlags(pages)) && p < pageCount
      requires t.reserve || (t.commit && pages[p].state.reserve)
      modifies this`pages, this`unreserved
      ensures Shape() && unreserved == FreeCount(FreeFlags(pages))
      ensures var entry := old(pages)[p].(allocationProtect := protect, protect := protect,
                                          state := AllocationType(true, t.commit));
        pages == old(pages)[p := if t.reserve then entry.(base := s, count := count) else entry]
      ensures wasFree <==> IsFree(old(pages)[p])
    {
      var entry := pages[p];
      if t.reserve {
        entry := entry.(base := s, count := count);
      }
      entry := entry.(allocationProtect := protect, protect := protect);
      wasFree := !entry.state.reserve;
      if wasFree {
        unreserved := unreserved - 1;
      }
      entry := entry.(state := AllocationType(true, t.commit));
      SetFlag(pages, p, entry);
      pages := pages[p := entry];
    }

    // Sets the page state of a new region of free pages.
    method MarkRegion(s: nat, count: nat, protect: Protection, commit: bool)
      requires Shape() && unreserved == FreeCount(FreeFlags(pages)) && AllFree(FreeFlags(pages), s, count)
      modifies this`pages, this`unreserved
      ensures Shape() && unreserved == FreeCount(FreeFlags(pages))
      ensures pages == WithRegion(old(pages), s, count, protect, commit)
    {
      ghost var after := WithRegion(pages, s, count, protect, commit);
      var p := s;
      while p < s + count
        invariant s <= p <= s + count
        invariant Shape()
        invariant forall i :: 0 <= i < pageCount ==> pages[i] == if s <= i < p then after[i] else old(pages)[i]
        invariant unreserved == FreeCount(FreeFlags(pages))
      {
        var entry := PageEntry(s, count, protect, protect, AllocationType(true, commit));
        SetFlag(pages, p, entry);
        pages := pages[p := entry];
        unreserved := unreserved - 1;
        p := p + 1;
      }
      assert pages == after;
    }

    // Clears the page state of a region.
    method ClearPages(s: nat, count: nat)
      requires Shape() && unreserved == FreeCount(FreeFlags(pages)) && AllTaken(FreeFlags(pages), s, count)
      modifies this`pages, this`unreserved
      ensures Shape() && unreserved == FreeCount(FreeFlags(pages))
      ensures pages == WithFreed(old(pages), s, count)
    {
      ghost var after := WithFreed(pages, s, count);
      var p := s;
      while p < s + count
        invariant s <= p <= s + count
        invariant Shape()
        invariant forall i :: 0 <= i < pageCount ==> pages[i] == if s <= i < p then after[i] else old(pages)[i]
        invariant unreserved == FreeCount(FreeFlags(pages))
      {
        assert FreeFlags(old(pages))[p] == false;
        SetFlag(pages, p, EMPTY_ENTRY);
        pages := pages[p := EMPTY_ENTRY];
        unreserved := unreserved + 1;
        p := p + 1;
      }
      assert pages == after;
    }

    // The pages are one new region, committed on the host unless only reserved.
    twostate predicate Took(s: nat, c: nat, t: AllocationType, protect: Protection)
      requires 0 < perHost
      reads this
    {
      && s + c <= |old(pages)|
      && pages == WithRegion(old(pages), s, c, protect, t.commit)
      && (if t == RESERVE || skipCommit then host == old(host)
          else IsHostAfter(host, old(host), old(pages), s, c, protect, perHost, shift))
    }

    // The pages are reserved or committed in place, and backed on the host
    // unless only reserved.
    twostate predicate TookFixed(s: nat, c: nat, t: AllocationType, protect: Protection)
      requires 0 < perHost
      reads this
    {
      && s + c <= |old(pages)|
      && CanFix(old(pages), s, c, t)
      && pages == WithFixed(old(pages), s, c, t, protect)
      && (if t == RESERVE || skipCommit then host == old(host)
          else IsHostAfter(host, old(host), old(pages), s, c, protect, perHost, shift))
    }

    // Only a fixed allocation that cuts a region in two breaks the partition.
    lemma FixedStaysSound(before: Pages, was: seq<PageAccess>, s: nat, c: nat, t: AllocationType, protect: Protection)
      requires Valid() && |before| == pageCount && |was| == |host| && 0 < c && KeepsRegions(before, s, c, t)
      requires Partitioned(before) && pages == WithFixed(before, s, c, t, protect)
      requires !skipCommit ==> HostPermits(before, was, perHost, shift)
      requires t == RESERVE ==> host == was
      requires t != RESERVE && !skipCommit ==> IsHostAfter(host, was, before, s, c, protect, perHost, shift)
      ensures Sound()
    {
      if MakesRegion(before, s, c, t) {
        RegionKeepsPartition(before, s, c, protect, t.commit);
      } else {
        SameRegionsKeepPartition(before, pages);
      }
      if !skipCommit && t != RESERVE {
        HostAfterPermits(before, pages, was, host, s, c, protect, perHost, shift);
      }
    }

    // Taking free pages cuts no region.
    lemma RegionStaysSound(before: Pages, was: seq<PageAccess>, s: nat, c: nat, t: AllocationType, protect: Protection)
      requires Valid() && |before| == pageCount && |was| == |host| && 0 < c && AllFree(FreeFlags(before), s, c)
      requires Partitioned(before) && pages == WithRegion(before, s, c, protect, t.commit)
      requires !skipCommit ==> HostPermits(before, was, perHost, shift)
      requires t == RESERVE ==> host == was
      requires t != RESERVE && !skipCommit ==> IsHostAfter(host, was, before, s, c, protect, perHost, shift)
      ensures Sound()
    {
      assert IsFree(before[s]);
      FixedStaysSound(before, was, s, c, t, protect);
    }

    lemma ReprotectedStaysSound(before: Pages, was: seq<PageAccess>, s: nat, e: nat, protect: Protection)
      requires Valid() && |before| == pageCount && |was| == |host| && s <= e < pageCount
      requires Partitioned(before) && pages == WithProtect(before, s, e - s + 1, protect)
      requires !skipCommit ==> HostPermits(before, was, perHost, shift)
      requires IsHostAfter(host, was, before, s, e - s + 1, protect, perHost, shift)
      ensures Sound()
    {
      SameRegionsKeepPartition(before, pages);
      if !skipCommit {
        HostAfterPermits(before, pages, was, host, s, e - s + 1, protect, perHost, shift);
      }
    }

    method AllocFixed(baseAddress: nat, size: nat, alignment: nat, t: AllocationType, protect: Protection, hostOk: bool)
      returns (ok: bool)
      requires Valid() && (t.reserve || t.commit)
      // The range check lets a range end one page past the table.
      requires 0 < FixedCount(size, alignment) && PageOf(baseAddress) + FixedCount(size, alignment) != pageCount + 1
      modifies this`pages, this`blocks, this`unreserved, this`host
      ensures Valid()
      ensures if ok then TookFixed(PageOf(baseAddress), FixedCount(size, alignment), t, protect) else Untouched()
      ensures hostOk && CanFix(old(pages), PageOf(baseAddress), FixedCount(size, alignment), t) ==> ok
      ensures var s, c := PageOf(baseAddress), FixedCount(size, alignment);
        && (ok ==> s + c <= pageCount && (t.commit || IsFreeRange(old(pages), s, c)))
        && (hostOk && s + c <= pageCount && (t.commit || IsFreeRange(old(pages), s, c)) ==> ok)
        && (ok ==> forall p :: 0 <= p < pageCount ==> FixesPage(old(pages), pages, s, c, t, protect, p))
      ensures old(Sound()) && (ok ==> KeepsRegions(old(pages), PageOf(baseAddress), FixedCount(size, alignment), t)) ==>
        Sound()
    {
      var count := FixedCount(size, alignment);
      var s := PageOf(baseAddress);
      var e := s + count - 1;
      if s >= pageCount || e > pageCount {
        return false;
      }
      var type' := CheckFixed(s, count, t);
      if type'.None? {
        return false;
      }
      ok := FixPages(s, count, t, type'.value, protect, hostOk);
    }

    // No page of a range is in use.
    ghost predicate IsFreeRange(table: Pages, s: nat, c: nat)
      requires s + c <= |table|
    {
      forall p :: s <= p < s + c ==> !table[p].state.reserve && !table[p].state.commit
    }

    // Of a fixed allocation, each page is reserved afterwards, committed if that
    // was asked for, and protected. A commit of reserved pages leaves them in
    // their regions. Everything else makes the range a region.
    ghost predicate FixesPage(before: Pages, after: Pages, s: nat, c: nat, t: AllocationType, protect: Protection,
                              p: nat)
      requires s + c <= |before| == |after| && p < |before|
    {
      var x := after[p];
      if s <= p < s + c then
        && x.state.reserve && (x.state.commit <==> t.commit) && x.protect == protect && x.allocationProtect == protect
        && if !t.reserve && forall q :: s <= q < s + c ==> before[q].state.reserve
           then x.base == before[p].base && x.count == before[p].count
           else x.base == s && x.count == c
      else x == before[p]
    }

    // The pages of a fixed allocation hold its bytes, in whole alignments.
    lemma FixedCovers(size: nat, alignment: nat, al: nat)
      requires 0 < pageSize && alignment + pageSize <= ADDRESS_SPACE && al == RoundUp(alignment, pageSize)
      requires al < ADDRESS_SPACE && IsPow2(al) && size + al + pageSize <= ADDRESS_SPACE && 0 < size
      ensures var bytes := FixedCount(size, alignment) * pageSize;
        size <= bytes < size + al && bytes % al == 0
    {
      AlignRoundsUp(size, al);
      RoundUpCovers(alignment, pageSize);
      MultipleOfMultiple(Align(size, al), al, pageSize);
      WholePages(Align(size, al));
    }

    lemma WholePages(v: nat)
      requires 0 < pageSize && 0 < v && v + pageSize <= ADDRESS_SPACE && v % pageSize == 0
      ensures PageCount(v, pageSize) * pageSize == v
    {
      var n := v / pageSize;
      DivMul(v, pageSize);
      WrapOnce(v + pageSize - 1);
      DivUnique(v + pageSize - 1, pageSize, n, pageSize - 1);
      MultipleMod(n, pageSize);
    }

    // What a fixed allocation of the pages does: nothing where a pure
    // reservation meets a page in use, and a reservation too where a commit
    // meets a page no one reserved.
    method CheckFixed(s: nat, count: nat, t: AllocationType) returns (type': Option<AllocationType>)
      requires Shape() && s + count <= pageCount && (t.reserve || t.commit)
      ensures type'.Some? <==> CanFix(pages, s, count, t)
      ensures type'.Some? ==> type'.value == AllocationType(MakesRegion(pages, s, count, t), t.commit)
    {
      var p := s;
      while p < s + count
        invariant s <= p <= s + count
        invariant t == RESERVE ==> forall i :: s <= i < p ==> IsFree(pages[i])
        invariant t == COMMIT ==> forall i :: s <= i < p ==> pages[i].state.reserve
      {
        var state := pages[p].state;
        if t == RESERVE && (state.reserve || state.commit) {
          return None;
        }
        if t == COMMIT && !state.reserve {
          return Some(AllocationType(true, true));
        }
        p := p + 1;
      }
      return Some(t);
    }

    // Carries out a fixed allocation that was checked.
    method FixPages(s: nat, count: nat, t: AllocationType, type': AllocationType, protect: Protection, hostOk: bool)
      returns (ok: bool)
      requires Valid() && (t.reserve || t.commit) && 0 < count && CanFix(pages, s, count, t)
      requires type' == AllocationType(MakesRegion(pages, s, count, t), t.commit)
      modifies this`pages, this`blocks, this`unreserved, this`host
      ensures Valid()
      ensures if ok then TookFixed(s, count, t, protect) else Untouched()
      ensures hostOk ==> ok
      ensures old(Sound()) && (ok ==> KeepsRegions(old(pages), s, count, t)) ==> Sound()
    {
      ghost var f, before, was := FreeFlags(pages), pages, host;
      ghost var sound := Sound() && KeepsRegions(pages, s, count, t);
      if type' != RESERVE {
        if !skipCommit {
          var committed := CommitHostPages(s, count, protect, hostOk);
          if !committed {
            return false;
          }
        }
      }
      var hadFree := MarkFixed(s, count, type', protect);
      if hadFree {
        TakeFixed(s, count, t, f);
      } else {
        assert FreeFlags(pages) == f;
      }
      ok := true;
      if sound {
        FixedStaysSound(before, was, s, count, t, protect);
      }
    }

    // The tracker once a fixed allocation has taken free pages.
    method TakeFixed(s: nat, count: nat, t: AllocationType, ghost f: seq<bool>)
      requires Shape() && IsIndexOf(f, blocks) && 0 < count && s + count <= pageCount
      requires t == RESERVE ==> AllFree(f, s, count) && FreeFlags(pages) == Fill(f, s, count, false)
      modifies this`blocks
      ensures IsIndexOf(FreeFlags(pages), blocks)
    {
      if t == RESERVE {
        RemoveFreeBlock(s, count, f);
      } else {
        RebuildFreeBlocks();
      }
    }

    function RequestOf(low: nat, high: nat, size: nat, alignment: nat, topDown: bool): Request
      requires 0 < pageSize && 0 < pageCount
    {
      Request(PageCount(size, pageSize), RoundUp(alignment, pageSize) / pageSize,
              LowPage(low, RoundUp(alignment, pageSize)), HighPage(high), topDown)
    }

    method AllocRange(low: nat, high: nat, size: nat, alignment: nat, t: AllocationType, protect: Protection,
                      topDown: bool, hostOk: bool)
      returns (ok: bool, address: nat, ghost start: nat)
      requires Valid()
      // Rounding the size or the alignment to a page must not wrap to zero.
      requires RequestOf(low, high, size, alignment, topDown).Asked()
      modifies this`pages, this`blocks, this`unreserved, this`host
      ensures Valid() && (old(Sound()) ==> Sound())
      ensures ok ==>
        && RequestOf(low, high, size, alignment, topDown).IsBest(FreeFlags(old(pages)), start)
        && address == AddressOf(start) && PageOf(address) == start
        && Took(start, PageCount(size, pageSize), t, protect)
      // The region is the pages its bytes are in.
      ensures ok && size + pageSize <= ADDRESS_SPACE ==>
        forall p: nat :: p < pageCount ==>
          (HasBytes(p, address, size) <==> start <= p < start + PageCount(size, pageSize))
      ensures ok && 0 < alignment && alignment + pageSize <= ADDRESS_SPACE && alignment % pageSize == 0 ==>
        (address - heapBase) % alignment == 0
      ensures !ok ==> Untouched() && address == 0
      ensures !ok && hostOk ==> RequestOf(low, high, size, alignment, topDown).NoneFits(FreeFlags(old(pages)))
    {
      var r := RequestOf(low, high, size, alignment, topDown);
      var s;
      ok, s := AllocPages(r, t, protect, hostOk);
      start := s;
      address := if ok then AddressOf(s) else 0;
      if ok {
        AddressNames(s);
        if size + pageSize <= ADDRESS_SPACE {
          forall p: nat | p < pageCount
            ensures HasBytes(p, address, size) <==> s <= p < s + PageCount(size, pageSize)
          {
            TookItsBytes(s, size, p);
          }
        }
        if 0 < alignment && alignment + pageSize <= ADDRESS_SPACE && alignment % pageSize == 0 {
          AlignedAddress(s, alignment, r.stride);
        }
      }
    }

    // A page holds some of the bytes of a request at an address, which are at
    // least one.
    predicate HasBytes(page: nat, address: nat, size: nat) {
      Overlaps(page, address, address + if size == 0 then 1 else size)
    }

    lemma TookItsBytes(s: nat, size: nat, page: nat)
      requires 0 < pageSize && size + pageSize <= ADDRESS_SPACE
      ensures HasBytes(page, AddressOf(s), size) <==> s <= page < s + PageCount(size, pageSize)
    {
      var n, bytes := PageCount(size, pageSize), if size == 0 then 1 else size;
      PageCountCovers(size, pageSize);
      MulStep(page, s, pageSize);
      MulStep(s, page, pageSize);
      Distribute(s, n, pageSize);
      Distribute(s, n - 1, pageSize);
      MulStep(page, s + n - 1, pageSize);
      MulStep(s + n, page, pageSize);
    }

    lemma AlignedAddress(s: nat, alignment: nat, stride: nat)
      requires 0 < pageSize && 0 < alignment && alignment + pageSize <= ADDRESS_SPACE && alignment % pageSize == 0
      requires stride == RoundUp(alignment, pageSize) / pageSize && 0 < stride && s % stride == 0
      ensures (AddressOf(s) - heapBase) % alignment == 0
    {
      RoundUpCovers(alignment, pageSize);
      var k, r := alignment / pageSize, RoundUp(alignment, pageSize);
      DivMul(alignment, pageSize);
      DivMul(r, pageSize);
      MulStep(k, r / pageSize, pageSize);
      MulStep(k + 1, r / pageSize, pageSize);
      Distribute(k, 1, pageSize);
      MulStep(r / pageSize, k, pageSize);
      assert r / pageSize == k;
      DivMul(s, k);
      Associate(s / k, k, pageSize);
      MultipleMod(s / k, alignment);
    }

    // The address of a page.
    function AddressOf(page: nat): nat {
      heapBase + page * pageSize
    }

    lemma AddressNames(page: nat)
      requires Shape() && page < pageCount
      ensures PageOf(AddressOf(page)) == page
    {
      MulStep(page, pageCount, pageSize);
      DivUnique(page * pageSize, pageSize, page, 0);
    }

    // AllocRange once its request is in pages.
    method AllocPages(r: Request, t: AllocationType, protect: Protection, hostOk: bool) returns (ok: bool, start: nat)
      requires Valid() && r.Asked() && r.high < ADDRESS_SPACE
      modifies this`pages, this`blocks, this`unreserved, this`host
      ensures Valid() && (old(Sound()) ==> Sound())
      ensures ok ==> r.IsBest(FreeFlags(old(pages)), start) && Took(start, r.count, t, protect)
      ensures !ok ==> Untouched()
      ensures !ok && hostOk ==> r.NoneFits(FreeFlags(old(pages)))
    {
      start := 0;
      if r.count > Wrap(r.high - r.low) {
        TooBig(FreeFlags(pages), r);
        return false, 0;
      }
      var s := FindFreeRange(r);
      if s.None? {
        return false, 0;
      }
      start := s.value;
      ok := TakeRange(start, r.count, t, protect, hostOk);
    }

    // Undoes a removal.
    method PutBack(s: nat, count: nat, ghost f: seq<bool>, ghost was: Blocks)
      requires 0 < count && AllFree(f, s, count) && IsIndexOf(f, was) && IsIndexOf(Fill(f, s, count, false), blocks)
      modifies this`blocks
      ensures blocks == was
    {
      InsertFreeBlock(s, count, Fill(f, s, count, false));
      assert Fill(Fill(f, s, count, false), s, count, true) == f;
      IndexIsUnique(f, blocks, was);
    }

    // Allocates a free range that was found, or puts it back.
    method TakeRange(s: nat, count: nat, t: AllocationType, protect: Protection, hostOk: bool) returns (ok: bool)
      requires Valid() && 0 < count && AllFree(FreeFlags(pages), s, count)
      modifies this`pages, this`blocks, this`unreserved, this`host
      ensures Valid() && (old(Sound()) ==> Sound())
      ensures hostOk ==> ok
      ensures if ok then Took(s, count, t, protect) else Untouched()
    {
      ghost var f, before, was, sound := FreeFlags(pages), pages, host, Sound();
      RemoveFreeBlock(s, count, f);
      if t != RESERVE {
        if !skipCommit {
          var committed := CommitHostPages(s, count, protect, hostOk);
          if !committed {
            PutBack(s, count, f, old(blocks));
            return false;
          }
        }
      }
      MarkRegion(s, count, protect, t.commit);
      assert FreeFlags(pages) == Fill(f, s, count, false);
      if sound {
        RegionStaysSound(before, was, s, count, t, protect);
      }
      return true;
    }

    // Decommits the pages of a range.
    method Decommit(address: nat, size: nat)
      requires Valid()
      modifies this`pages
      ensures Valid() && (old(Sound()) ==> Sound())
      ensures var s, e := PageOf(address), LastPage(PageOf(address), PageCount(size, pageSize));
        pages == Decommitted(old(pages), s, e)
    {
      var s := PageOf(address);
      var e := LastPage(s, PageCount(size, pageSize));
      s := if s < pageCount - 1 then s else pageCount - 1;
      e := if e < pageCount - 1 then e else pageCount - 1;
      DecommitPages(s, e);
      assert FreeFlags(pages) == FreeFlags(old(pages));
      if Partitioned(old(pages)) {
        SameRegionsKeepPartition(old(pages), pages);
      }
    }

    method DecommitPages(s: nat, e: nat)
      requires Shape() && s < pageCount && e < pageCount
      modifies this`pages
      ensures pages == WithDecommit(old(pages), s, if s <= e then e - s + 1 else 0)
    {
      ghost var after := WithDecommit(pages, s, if s <= e then e - s + 1 else 0);
      var p := s;
      while p <= e
        invariant s <= p && (s <= e ==> p <= e + 1)
        invariant |pages| == pageCount
        invariant forall i :: 0 <= i < pageCount ==> pages[i] == if s <= i < p then after[i] else old(pages)[i]
      {
        pages := pages[p := pages[p].(state := pages[p].state.(commit := false))];
        p := p + 1;
      }
      assert pages == after;
    }

    // A page whose entry names it as a base is in a live region, unless it is the
    // free first page of a heap based above 0.
    method Release(baseAddress: nat) returns (ok: bool, regionSize: nat)
      requires Valid() && PageOf(baseAddress) < pageCount
      requires var s := PageOf(baseAddress);
        pages[s].base == s && !(heapBase == 0 && s == 0) ==> pages[s].state.reserve && InItsRegion(pages, s)
      modifies this`pages, this`blocks, this`unreserved
      ensures Valid() && (old(Sound()) ==> Sound())
      ensures var s := PageOf(baseAddress);
        && (ok <==> old(pages)[s].base == s && !(heapBase == 0 && s == 0))
        && (ok ==> IsRegion(old(pages), s, old(pages)[s].count) && regionSize == old(pages)[s].count * pageSize)
        && (ok ==> pages == WithFreed(old(pages), s, old(pages)[s].count))
      ensures !ok ==> Untouched()
    {
      regionSize := 0;
      var s := PageOf(baseAddress);
      var entry := pages[s];
      if entry.base != s {
        return false, 0;
      }
      if heapBase == 0 && s == 0 {
        return false, 0;
      }
      regionSize := entry.count * pageSize;
      FreeRegion(s, entry.count);
      ok := true;
    }

    method FreeRegion(s: nat, count: nat)
      requires Valid() && IsRegion(pages, s, count)
      modifies this`pages, this`blocks, this`unreserved
      ensures Valid() && (old(Sound()) ==> Sound()) && pages == WithFreed(old(pages), s, count)
    {
      ghost var f := FreeFlags(pages);
      ClearPages(s, count);
      InsertFreeBlock(s, count, f);
      assert Fill(f, s, count, true) == FreeFlags(pages);
      if Partitioned(old(pages)) {
        FreeKeepsPartition(old(pages), s, count);
      }
    }

    // The page holding the last byte of a range.
    function LastPageOf(address: nat, size: nat): nat
      requires 0 < pageSize && 0 < size && heapBase <= address
    {
      (address + size - 1 - heapBase) / pageSize
    }

    method Protect(address: nat, size: nat, protect: Protection, hostOk: bool) returns (ok: bool)
      requires Valid() && heapBase <= address < ADDRESS_SPACE
      modifies this`pages, this`host
      ensures Valid() && (old(Sound()) ==> Sound())
      ensures ok ==> 0 < size && Protectable(old(pages), PageOf(address), LastPageOf(address, size))
      ensures hostOk && 0 < size && Protectable(old(pages), PageOf(address), LastPageOf(address, size)) ==> ok
      ensures if ok then Reprotected(PageOf(address), LastPageOf(address, size), protect) else Untouched()
      // It sets exactly the pages that share a byte with the range.
      ensures ok ==> forall p :: 0 <= p < pageCount ==>
        pages[p] == if Overlaps(p, address, address + size) then old(pages)[p].(protect := protect) else old(pages)[p]
    {
      if size == 0 {
        return false;
      }
      var s := PageOf(address);
      if s >= pageCount {
        return false;
      }
      var e := LastPageOf(address, size);
      if e >= pageCount {
        return false;
      }
      DivMono(address - heapBase, address + size - 1 - heapBase, pageSize);
      ghost var end := address + size;
      forall p | 0 <= p < pageCount ensures s <= p <= e <==> Overlaps(p, address, end) {
        WhenOverlaps(p, address, size);
      }
      ok := ProtectPages(s, e, protect, hostOk);
    }

    // A page has a byte from address `low` up to `high`.
    predicate Overlaps(page: nat, low: nat, high: nat) {
      low < heapBase + page * pageSize + pageSize && heapBase + page * pageSize < high
    }

    lemma WhenOverlaps(page: nat, address: nat, size: nat)
      requires 0 < pageSize && 0 < size && heapBase <= address < ADDRESS_SPACE
      ensures Overlaps(page, address, address + size) <==> PageOf(address) <= page <= LastPageOf(address, size)
    {
      PageBounds(address - heapBase, page, pageSize);
      PageBounds(address + size - 1 - heapBase, page, pageSize);
    }

    // The pages s..e have a new protection, on the host too.
    twostate predicate Reprotected(s: nat, e: nat, protect: Protection)
      requires 0 < perHost
      reads this
    {
      && s <= e < |old(pages)|
      && pages == WithProtect(old(pages), s, e - s + 1, protect)
      && IsHostAfter(host, old(host), old(pages), s, e - s + 1, protect, perHost, shift)
    }

    method ProtectPages(s: nat, e: nat, protect: Protection, hostOk: bool) returns (ok: bool)
      requires Valid() && s <= e < pageCount
      modifies this`pages, this`host
      ensures Valid() && (old(Sound()) ==> Sound())
      ensures ok ==> Protectable(old(pages), s, e)
      ensures hostOk && Protectable(old(pages), s, e) ==> ok
      ensures if ok then Reprotected(s, e, protect) else Untouched()
    {
      ghost var sound, before, was := Sound(), pages, host;
      var p := s;
      while p <= e
        invariant s <= p <= e + 1
        invariant p > s ==> Protectable(pages, s, p - 1)
      {
        if pages[p].base != pages[s].base || !pages[p].state.commit {
          return false;
        }
        p := p + 1;
      }
      ok := ApplyHostProtect(s, e, protect, hostOk);
      if ok {
        MarkProtect(s, e, protect);
        assert FreeFlags(pages) == FreeFlags(old(pages));
        if sound {
          ReprotectedStaysSound(before, was, s, e, protect);
        }
      }
    }

    method MarkProtect(s: nat, e: nat, protect: Protection)
      requires Shape() && s <= e < pageCount
      modifies this`pages
      ensures Shape()
      ensures pages == WithProtect(old(pages), s, e - s + 1, protect)
    {
      ghost var after := WithProtect(pages, s, e - s + 1, protect);
      var p := s;
      while p <= e
        invariant s <= p <= e + 1
        invariant Shape()
        invariant forall i :: 0 <= i < pageCount ==> pages[i] == if s <= i < p then after[i] else old(pages)[i]
      {
        pages := pages[p := pages[p].(protect := protect)];
        p := p + 1;
      }
      assert pages == after;
    }
  }

  // The last page of a range of `count` pages from `s`, in 32 bits.
  function LastPage(s: nat, count: nat): nat {
    Wrap(s + count - 1)
  }

  // Pages s..e decommitted, both cut to the table.
  function Decommitted(pages: Pages, s: nat, e: nat): Pages
    requires pages != []
  {
    var first := if s < |pages| - 1 then s else |pages| - 1;
    var last := if e < |pages| - 1 then e else |pages| - 1;
    WithDecommit(pages, first, if first <= last then last - first + 1 else 0)
  }

  // A range inside the table is decommitted exactly. One of no pages is too,
  // except at page 0, where it is the whole table.
  lemma WhatDecommitTakes(pages: Pages, s: nat, count: nat)
    requires s < |pages| < ADDRESS_SPACE && s + count <= |pages|
    ensures Decommitted(pages, s, LastPage(s, count)) ==
            if s == 0 && count == 0 then WithDecommit(pages, 0, |pages|) else WithDecommit(pages, s, count)
  {
  }

  // A size whose rounding wraps around is of no pages, so that decommitting it at
  // the start of a heap decommits the whole heap.
  lemma WrappedDecommitTakesAll(pages: Pages)
    requires 0 < |pages| < ADDRESS_SPACE
    ensures PageCount(0xFFFF_FFFF, 0x1000) == 0
    ensures Decommitted(pages, 0, LastPage(0, PageCount(0xFFFF_FFFF, 0x1000))) == WithDecommit(pages, 0, |pages|)
  {
    WhatDecommitTakes(pages, 0, 0);
  }

  lemma MultipleOfMultiple(v: nat, al: nat, m: nat)
    requires 0 < m && 0 < al && v % al == 0 && al % m == 0
    ensures v % m == 0
  {
    DivMul(v, al);
    DivMul(al, m);
    Associate(v / al, al / m, m);
    MultipleMod(v / al * (al / m), m);
  }

  lemma PageBounds(x: nat, page: nat, m: nat)
    requires 0 < m
    ensures x / m <= page <==> x < page * m + m
    ensures page <= x / m <==> page * m <= x
  {
    DivMul(x, m);
    MulStep(x / m, page, m);
    MulStep(page, x / m, m);
  }

  // The pages that start before `x`.
  lemma RoundedBounds(x: nat, page: nat, m: nat)
    requires 0 < m
    ensures page < (x + (m - 1)) / m <==> page * m < x
  {
    PageBounds(x + (m - 1), page + 1, m);
    Distribute(page, 1, m);
  }

  lemma DivMono(a: nat, b: nat, m: nat)
    requires 0 < m && a <= b
    ensures a / m <= b / m
  {
    DivMul(a, m);
    DivMul(b, m);
    MulStep(b / m, a / m, m);
  }

  lemma SetFlag(pages: Pages, p: nat, entry: PageEntry)
    requires p < |pages|
    ensures FreeFlags(pages[p := entry]) == FreeFlags(pages)[p := IsFree(entry)]
    ensures IsFree(pages[p]) && !IsFree(entry) ==>
      FreeCount(FreeFlags(pages[p := entry])) + 1 == FreeCount(FreeFlags(pages))
    ensures !IsFree(pages[p]) && IsFree(entry) ==>
      FreeCount(FreeFlags(pages[p := entry])) == FreeCount(FreeFlags(pages)) + 1
    ensures IsFree(pages[p]) == IsFree(entry) ==> FreeFlags(pages[p := entry]) == FreeFlags(pages)
  {
    var f := FreeFlags(pages);
    assert FreeFlags(pages[p := entry]) == f[p := IsFree(entry)];
    if f[p] != IsFree(entry) {
      SetCount(f, p, IsFree(entry));
    } else {
      assert f[p := f[p]] == f;
    }
  }

  // Where the count exceeds the window, even one whose ends are out of order,
  // nothing fits.
  lemma TooBig(f: seq<bool>, r: Request)
    requires r.Asked() && r.high < ADDRESS_SPACE && r.count > Wrap(r.high - r.low)
    ensures r.NoneFits(f)
  {
    var end := if r.topDown then AlignDown(r.high, r.stride) else r.high;
    assert r.Ends(end);
    forall q: nat | Fits(f, q, r.count, r.stride, r.low, end) ensures false {
    }
  }

  // A range on host page boundaries fills its host pages.
  lemma ExactRange(pages: Pages, s: nat, c: nat, protect: Protection, perHost: nat, shift: nat)
    requires 0 < perHost && 0 < c && s + c <= |pages|
    requires shift % perHost == 0 && c % perHost == 0 && s % perHost == 0
    ensures forall h {:trigger HostJoin(WithProtect(pages, s, c, protect), h, perHost, shift)} ::
      HostPageOf(s, perHost, shift) <= h <= HostPageOf(s + c - 1, perHost, shift) ==>
      HostJoin(WithProtect(pages, s, c, protect), h, perHost, shift) == ToPageAccess(protect)
  {
    var w := WithProtect(pages, s, c, protect);
    forall h | HostPageOf(s, perHost, shift) <= h <= HostPageOf(s + c - 1, perHost, shift)
      ensures HostJoin(w, h, perHost, shift) == ToPageAccess(protect)
    {
      HostPageInRange(s, c, perHost, shift, h);
      var first := FirstPage(h, perHost, shift, |w|);
      assert s <= first < EndPage(h, perHost, shift, |w|) <= s + c;
      assert w[first].protect == protect;
    }
  }

  lemma HostPageInRange(s: nat, c: nat, k: nat, shift: nat, h: nat)
    requires 0 < k && 0 < c && shift % k == 0 && c % k == 0 && s % k == 0
    requires HostPageOf(s, k, shift) <= h <= HostPageOf(s + c - 1, k, shift)
    ensures s + shift <= h * k && h * k + k <= s + c + shift
  {
    var a, b := s / k + shift / k, s / k + shift / k + c / k;
    DivMul(s, k);
    DivMul(c, k);
    DivMul(shift, k);
    Distribute(s / k, shift / k, k);
    Distribute(a, c / k, k);
    MulStep(0, c / k, k);
    MultiplesBound(a, b, k, h);
  }

  lemma MultiplesBound(a: nat, b: nat, k: nat, h: nat)
    requires 0 < k && a * k < b * k && a * k / k <= h <= (b * k - 1) / k
    ensures a * k <= h * k && h * k + k <= b * k
  {
    MultipleMod(a, k);
    MulStep(b, a, k);
    Distribute(b, -1, k);
    DivUnique(b * k - 1, k, b - 1, k - 1);
    MulStep(a, h, k);
    MulStep(h, b, k);
  }

  ghost predicate IsLastFit(f: seq<bool>, p: nat, count: nat, stride: nat, low: nat, high: nat)
    requires 0 < stride
  {
    Fits(f, p, count, stride, low, high) && forall q: nat :: Fits(f, q, count, stride, low, high) ==> q <= p
  }

  ghost predicate IsFirstFit(f: seq<bool>, p: nat, count: nat, stride: nat, low: nat, high: nat)
    requires 0 < stride
  {
    Fits(f, p, count, stride, low, high) && forall q: nat :: Fits(f, q, count, stride, low, high) ==> p <= q
  }

  function AlignDown(x: nat, stride: nat): (r: nat)
    requires 0 < stride
    ensures r <= x && r % stride == 0
    ensures forall q: nat :: q % stride == 0 && q <= x ==> q <= r
  {
    AlignDownIsLast(x, stride, 0);
    assert forall q: nat :: q % stride == 0 && q <= x ==> q <= x - x % stride by {
      forall q: nat | q % stride == 0 && q <= x ensures q <= x - x % stride { AlignDownIsLast(x, stride, q); }
    }
    x - x % stride
  }

  function AlignUp(x: nat, stride: nat): (r: nat)
    requires 0 < stride
    ensures x <= r && r % stride == 0
    ensures forall q: nat :: q % stride == 0 && x <= q ==> r <= q
  {
    var r := (x + stride - 1) / stride * stride;
    DivMul(x + stride - 1, stride);
    MultipleMod((x + stride - 1) / stride, stride);
    assert forall q: nat :: q % stride == 0 && x <= q ==> r <= q by {
      forall q: nat | q % stride == 0 && x <= q ensures r <= q { AlignUpIsFirst(x, stride, q); }
    }
    r
  }

  // A free range at `q` lies in the block or ends before it starts.
  ghost predicate FitBelow(f: seq<bool>, q: nat, count: nat, s: nat, e: nat)
    requires 0 < count && AllFree(f, q, count)
  {
    RunStart(f, q) <= s && if RunStart(f, q) == s then s <= q && q + count <= e else q + count < s
  }

  ghost predicate FitAbove(f: seq<bool>, q: nat, count: nat, s: nat, e: nat)
    requires 0 < count && AllFree(f, q, count)
  {
    s <= RunStart(f, q) && if RunStart(f, q) == s then s <= q && q + count <= e else e < q
  }

  lemma FitAtOrBelow(f: seq<bool>, m: Blocks, q: nat, count: nat, cursor: nat, s: nat)
    requires IsIndexOf(f, m) && 0 < count && AllFree(f, q, count) && RunStart(f, q) < cursor
    requires PrevKey(m, cursor) == Some(s)
    ensures FitBelow(f, q, count, s, s + m[s])
  {
    var r := RunInsideOneBlock(f, m, q, count);
    if r < s { BlocksApart(f, m, r, s); }
  }

  lemma FitAtOrAbove(f: seq<bool>, m: Blocks, q: nat, count: nat, cursor: nat, s: nat)
    requires IsIndexOf(f, m) && 0 < count && AllFree(f, q, count) && cursor <= RunStart(f, q)
    requires NextKey(m, cursor, |f|) == Some(s)
    ensures FitAbove(f, q, count, s, s + m[s])
  {
    var r := RunInsideOneBlock(f, m, q, count);
    if s < r { BlocksApart(f, m, s, r); }
  }

  lemma FitNotBefore(f: seq<bool>, m: Blocks, q: nat, count: nat, low: nat, prev: Option<nat>)
    requires IsIndexOf(f, m) && 0 < count && AllFree(f, q, count) && low <= q
    requires prev == PrevKey(m, low)
    ensures if prev.Some? && prev.value + m[prev.value] > low
            then prev.value <= RunStart(f, q) else low <= RunStart(f, q)
  {
    var r := RunInsideOneBlock(f, m, q, count);
    match prev {
      case Some(v) => if r < v { BlocksApart(f, m, r, v); }
      case None =>
    }
  }

  lemma LastInBlock(f: seq<bool>, count: nat, stride: nat, low: nat, high: nat, s: nat, e: nat, latest: nat)
    requires 0 < count && 0 < stride && count <= e && count <= high && s <= e && AllFree(f, s, e - s)
    requires latest == AlignDown((if e <= high then e else high) - count, stride)
    requires s <= latest && low <= latest && latest + count <= e
    requires forall q: nat :: Fits(f, q, count, stride, low, high) ==> FitBelow(f, q, count, s, e)
    ensures IsLastFit(f, latest, count, stride, low, high)
  {
    assert Fits(f, latest, count, stride, low, high);
    forall q: nat | Fits(f, q, count, stride, low, high) ensures q <= latest {
      assert FitBelow(f, q, count, s, e);
    }
  }

  lemma NoneInBlock(f: seq<bool>, count: nat, stride: nat, low: nat, high: nat, s: nat, e: nat, latest: nat)
    requires 0 < count && 0 < stride && count <= e && count <= high
    requires latest == AlignDown((if e <= high then e else high) - count, stride)
    requires latest < s || latest < low || e < latest + count
    requires forall q: nat :: Fits(f, q, count, stride, low, high) ==> FitBelow(f, q, count, s, e)
    ensures forall q: nat :: Fits(f, q, count, stride, low, high) ==> RunStart(f, q) < s
  {
    forall q: nat | Fits(f, q, count, stride, low, high) ensures RunStart(f, q) < s {
      assert FitBelow(f, q, count, s, e);
    }
  }

  lemma FirstInBlock(f: seq<bool>, count: nat, stride: nat, low: nat, high: nat, s: nat, e: nat, aligned: nat)
    requires 0 < count && 0 < stride && s <= e && AllFree(f, s, e - s)
    requires aligned == AlignUp(if s >= low then s else low, stride)
    requires aligned + count <= e && aligned + count <= high
    requires forall q: nat :: Fits(f, q, count, stride, low, high) ==> FitAbove(f, q, count, s, e)
    ensures IsFirstFit(f, aligned, count, stride, low, high)
  {
    assert Fits(f, aligned, count, stride, low, high);
    forall q: nat | Fits(f, q, count, stride, low, high) ensures aligned <= q {
      assert FitAbove(f, q, count, s, e);
    }
  }

  lemma NoneFromBlock(f: seq<bool>, count: nat, stride: nat, low: nat, high: nat, s: nat, e: nat, aligned: nat)
    requires 0 < count && 0 < stride
    requires aligned == AlignUp(if s >= low then s else low, stride)
    requires e < aligned + count || high < aligned + count
    requires forall q: nat :: Fits(f, q, count, stride, low, high) ==> FitAbove(f, q, count, s, e)
    ensures forall q: nat :: Fits(f, q, count, stride, low, high) ==> s < RunStart(f, q)
  {
    forall q: nat | Fits(f, q, count, stride, low, high) ensures s < RunStart(f, q) {
      assert FitAbove(f, q, count, s, e);
    }
  }

  // The block found at the end of a taken range is the free run after it.
  lemma BlockAfter(f: seq<bool>, m: Blocks, e: nat)
    requires IsIndexOf(f, m) && 0 < e <= |f| && !f[e - 1]
    ensures e in m <==> e < |f| && f[e]
    ensures e in m ==> IsMaximalRun(f, e, m[e])
  {
    assert e < |f| && f[e] ==> StartsRun(f, e);
  }

  // The last block before a taken page touches it exactly when the page before
  // is free.
  lemma BlockBefore(f: seq<bool>, m: Blocks, s: nat, it: Option<nat>)
    requires IsIndexOf(f, m) && s < |f| && !f[s]
    requires it.Some? ==> it.value in m && it.value < s && forall x :: it.value < x < s ==> x !in m
    requires it.None? ==> forall x :: 0 <= x < s ==> x !in m
    ensures (it.Some? && it.value + m[it.value] == s) <==> 0 < s && f[s - 1]
    ensures it.Some? ==> IsMaximalRun(f, it.value, m[it.value])
  {
    if 0 < s && f[s - 1] {
      var r := RunStart(f, s - 1);
      assert IsMaximalRun(f, r, m[r]);
      assert r + m[r] == |f| || !f[r + m[r]];
      match it {
        case Some(v) => if v != r { BlocksApart(f, m, r, v); }
        case None =>
      }
    }
  }

  lemma AllFreeCount(f: seq<bool>)
    requires forall i :: 0 <= i < |f| ==> f[i]
    ensures FreeCount(f) == |f|
  {
  }

  // A scan of the pages below `i`: the tracker has the runs that ended, and the
  // pages since `runStart` are an open one.
  ghost predicate Scanned(f: seq<bool>, m: Blocks, runStart: Option<nat>, i: nat)
    requires i <= |f|
  {
    match runStart
    case None => (i == 0 || !f[i - 1]) && IsIndexOf(f[..i], m)
    case Some(r) => r < i && (r == 0 || !f[r - 1]) && (forall j :: r <= j < i ==> f[j]) && IsIndexOf(f[..r], m)
  }

  lemma ScanStep(f: seq<bool>, m: Blocks, runStart: Option<nat>, i: nat)
    requires i < |f| && Scanned(f, m, runStart, i)
    ensures var next := if f[i] then m else if runStart.Some? then m[runStart.value := i - runStart.value] else m;
      Scanned(f, next, if !f[i] then None else if runStart.None? then Some(i) else runStart, i + 1)
  {
    if !f[i] {
      match runStart {
        case Some(r) => ExtendIndex(f, m, r, i, i + 1);
        case None => ExtendIndexTaken(f, m, i);
      }
    }
  }

  lemma ScanEnd(f: seq<bool>, m: Blocks, runStart: Option<nat>)
    requires Scanned(f, m, runStart, |f|)
    ensures IsIndexOf(f, if runStart.Some? then m[runStart.value := |f| - runStart.value] else m)
  {
    assert f[..|f|] == f;
    match runStart {
      case Some(r) => ExtendIndex(f, m, r, |f|, |f|);
      case None =>
    }
  }

  lemma ExtendIndex(f: seq<bool>, m: Blocks, r: nat, i: nat, n: nat)
    requires r < i <= n <= |f| && (n == i == |f| || (n == i + 1 && !f[i]))
    requires r == 0 || !f[r - 1]
    requires forall j :: r <= j < i ==> f[j]
    requires IsIndexOf(f[..r], m)
    ensures IsIndexOf(f[..n], m[r := i - r])
  {
    var g, m' := f[..n], m[r := i - r];
    forall s | s in m' ensures IsMaximalRun(g, s, m'[s]) {
      if s != r {
        assert IsMaximalRun(f[..r], s, m[s]);
      }
    }
    forall s | 0 <= s < n && StartsRun(g, s) ensures s in m' {
      if s < r {
        assert StartsRun(f[..r], s);
      }
    }
  }

  lemma ExtendIndexTaken(f: seq<bool>, m: Blocks, i: nat)
    requires i < |f| && !f[i] && (i == 0 || !f[i - 1]) && IsIndexOf(f[..i], m)
    ensures IsIndexOf(f[..i + 1], m)
  {
    forall s | s in m ensures IsMaximalRun(f[..i + 1], s, m[s]) {
      assert IsMaximalRun(f[..i], s, m[s]);
    }
    forall s | 0 <= s < i + 1 && StartsRun(f[..i + 1], s) ensures s in m {
      assert StartsRun(f[..i], s);
    }
  }

  lemma OtherBlockStays(f: seq<bool>, m: Blocks, b: nat, s: nat, e: nat, k: nat)
    requires IsIndexOf(f, m) && b in m && b <= s < e <= b + m[b] && e <= |f| && k in m && k != b
    ensures IsMaximalRun(Fill(f, s, e - s, false), k, m[k])
    ensures k != e
  {
    assert IsMaximalRun(f, k, m[k]);
    if k < b { BlocksApart(f, m, k, b); } else { BlocksApart(f, m, b, k); }
  }

  // The tracker once the block at `b` loses the pages s..e.
  lemma SplitIsIndex(f: seq<bool>, m: Blocks, b: nat, s: nat, e: nat, m': Blocks)
    requires IsIndexOf(f, m) && b in m && b <= s < e <= b + m[b] && e <= |f|
    requires forall k :: k in m' <==> (k in m && k != b) || (k == b && b < s) || (k == e && e < b + m[b])
    requires forall k :: k in m' ==> m'[k] == if k == b then s - b else if k == e then b + m[b] - e else m[k]
    ensures IsIndexOf(Fill(f, s, e - s, false), m')
  {
    var g := Fill(f, s, e - s, false);
    assert IsMaximalRun(f, b, m[b]);
    forall k | k in m' ensures IsMaximalRun(g, k, m'[k]) {
      if k in m && k != b {
        OtherBlockStays(f, m, b, s, e, k);
      }
    }
    forall k | 0 <= k < |g| && StartsRun(g, k) ensures k in m' {
      if k != e {
        assert StartsRun(f, k);
      }
    }
  }

  // The tracker once one block lo..hi takes the place of every block inside it.
  lemma MergeIsIndex(f: seq<bool>, m: Blocks, s: nat, e: nat, lo: nat, hi: nat, m': Blocks)
    requires IsIndexOf(f, m) && lo <= s < e <= hi <= |f|
    requires AllFree(f, lo, s - lo) && AllTaken(f, s, e - s) && AllFree(f, e, hi - e)
    requires (lo == 0 || !f[lo - 1]) && (hi == |f| || !f[hi])
    requires forall k :: k in m' <==> k == lo || (k in m && k != e)
    requires forall k :: k in m' ==> m'[k] == if k == lo then hi - lo else m[k]
    ensures IsIndexOf(Fill(f, s, e - s, true), m')
  {
    var g := Fill(f, s, e - s, true);
    forall k | k in m' ensures IsMaximalRun(g, k, m'[k]) {
      if k != lo {
        assert IsMaximalRun(f, k, m[k]);
        assert f[k] && (k == 0 || !f[k - 1]);
        assert k < lo || hi <= k;
      }
    }
    forall k | 0 <= k < |g| && StartsRun(g, k) ensures k in m' {
      if k < lo || hi < k {
        assert StartsRun(f, k);
      }
    }
  }
}
