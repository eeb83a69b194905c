// What a guest Protect does to a watched view (PhysicalHeap::Protect of
// memory.cc), and when it keeps watched pages faulting.
module GuestProtects {
  import opened Wrappers
  import opened PageTable
  import opened Bits
  import opened WatchWords
  import opened GuestAccess
  import opened Watches
  import opened WatchOutcomes
  import BaseHeaps

  // The guest pages a range lies in.
  function FirstGuestPage(g: Geometry, relative: nat): nat
    requires 0 < g.guestPage
  {
    relative / g.guestPage
  }

  function LastGuestPage(g: Geometry, relative: nat, size: nat): nat
    requires 0 < g.guestPage && 0 < size
  {
    (relative + size - 1) / g.guestPage
  }

  // The page table once a Protect of the range is accepted.
  function TableAfter(g: Geometry, pages: Pages, relative: nat, size: nat, protect: Protection): Pages
    requires 0 < g.guestPage && 0 < size && LastGuestPage(g, relative, size) < |pages|
  {
    var s, e := FirstGuestPage(g, relative), LastGuestPage(g, relative, size);
    if s <= e then WithProtect(pages, s, e + 1 - s, protect) else pages
  }

  // An accepted Protect changes exactly the guest pages that have bytes of its
  // range.
  lemma TableAfterShares(g: Geometry, pages: Pages, relative: nat, size: nat, protect: Protection, q: nat)
    requires 0 < g.guestPage && 0 < size && LastGuestPage(g, relative, size) < |pages| && q < |pages|
    ensures |TableAfter(g, pages, relative, size, protect)| == |pages|
    ensures TableAfter(g, pages, relative, size, protect)[q] ==
            if Shares(q, g.guestPage, relative, relative + size) then pages[q].(protect := protect) else pages[q]
  {
    RangeInPages(g, relative, size);
    WhenShares(q, g.guestPage, relative, relative + size);
  }

  // What a guest Protect leaves of a page: a writable one unwatches the pages of
  // its range, and an accepted one sets the host pages of its guest pages.
  function ProtectedPage(g: Geometry, after: Pages, w: PageWatch, relative: nat, size: nat, protect: Protection,
                         accepted: bool, p: nat): PageWatch
    requires g.Valid()
  {
    var told := IsWritable(protect) && InRange(g, Clip(relative, size, g.heapSize), p);
    var settled := if told then FirePage(w, NoAccess, false) else w;
    if accepted && 0 < size && Reached(g, relative, size, p)
    then settled.(host := HostAccess(g, after, protect, p)) else settled
  }

  // Every system page a Protect reaches has its host access set, and no other.
  ghost predicate HostSet(g: Geometry, after: Pages, s0: Watched, s: Watched, relative: nat, size: nat,
                          protect: Protection)
    requires g.Valid() && 0 < size && s0.Valid() && s.Valid() && |s.host| == |s0.host|
  {
    forall p :: 0 <= p < |s.host| ==>
      s.Page(p) == if Reached(g, relative, size, p) then s0.Page(p).(host := HostAccess(g, after, protect, p))
                   else s0.Page(p)
  }

  ghost predicate ProtectedPages(g: Geometry, after: Pages, s0: Watched, s: Watched, relative: nat, size: nat,
                                 protect: Protection, accepted: bool)
    requires g.Valid() && s0.Valid() && s.Valid() && |s.host| == |s0.host|
  {
    forall p :: 0 <= p < |s.host| ==>
      s.Page(p) == ProtectedPage(g, after, s0.Page(p), relative, size, protect, accepted, p)
  }

  lemma GuestOrder(g: Geometry, relative: nat, size: nat)
    requires 0 < g.systemPage && 0 < g.guestPage && 0 < size
    ensures GuestFirst(g, relative) <= GuestLast(g, relative, size)
  {
    GuestPageHolds(relative, g.guestPage);
    GuestPageHolds(relative + size - 1, g.guestPage);
    var x := relative + size - 1;
    PageOfMono(g, relative / g.guestPage * g.guestPage, x / g.guestPage * g.guestPage + (g.guestPage - 1));
  }

  lemma GuestPageHolds(x: nat, m: nat)
    requires 0 < m
    ensures x / m * m <= x <= x / m * m + (m - 1)
  {
    DivMul(x, m);
  }

  // A range told, if it is to be writable, and then set.
  lemma ToldAndSet(g: Geometry, guest: nat -> PageAccess, after: Pages, s0: Watched, s1: Watched, s: Watched,
                   relative: nat, size: nat, protect: Protection, accepted: bool)
    requires g.Valid() && s0.Valid() && s1.Valid() && s.Valid() && |s.host| == |s1.host| == |s0.host|
    requires var range := Clip(relative, size, g.heapSize);
      if IsWritable(protect) && range.Some? then
        Fired(s0, s1, guest, g.SystemPageOf(range.value.0), g.SystemPageOf(range.value.1), false)
      else s1 == s0
    requires if accepted then 0 < size && HostSet(g, after, s1, s, relative, size, protect) else s == s1
    ensures ProtectedPages(g, after, s0, s, relative, size, protect, accepted)
  {
    var range := Clip(relative, size, g.heapSize);
    forall p | 0 <= p < |s.host|
      ensures s.Page(p) == ProtectedPage(g, after, s0.Page(p), relative, size, protect, accepted, p)
    {
      var told := IsWritable(protect) && InRange(g, range, p);
      assert s1.Page(p) == if told then FirePage(s0.Page(p), NoAccess, false) else s0.Page(p);
    }
  }

  // Pages a writable Protect reports are owed nothing more.
  ghost function OwedAfterProtect(g: Geometry, owed: set<nat>, relative: nat, size: nat, protect: Protection): set<nat>
    requires g.Valid()
  {
    if IsWritable(protect) then set p | p in owed && !InRange(g, Clip(relative, size, g.heapSize), p) else owed
  }

  lemma ProtectOwes(g: Geometry, m0: Moment, m: Moment, relative: nat, size: nat, protect: Protection)
    requires m0.Fits(g)
    requires if IsWritable(protect) then RangeTold(g, m0, m, Clip(relative, size, g.heapSize), false)
             else m.history == m0.history
    ensures Owed(m.history) == OwedAfterProtect(g, Owed(m0.history), relative, size, protect)
  {
    var range := Clip(relative, size, g.heapSize);
    if IsWritable(protect) && range.Some? {
      OwedNext(m0.history, Notified(g.SystemPageOf(range.value.0), g.SystemPageOf(range.value.1)));
    }
  }

  // --- Small guest pages ---

  // The system page of a byte is the host page of its guest page.
  lemma SmallPageAt(g: Geometry, x: nat)
    requires SmallPages(g)
    ensures g.SystemPageOf(x) ==
            BaseHeaps.HostPageOf(x / g.guestPage, g.systemPage / g.guestPage, g.hostOffset / g.guestPage)
  {
    PerHost(g);
    Rescaled(x, g.hostOffset, g.hostOffset / g.guestPage, g.systemPage, g.systemPage / g.guestPage, g.guestPage);
  }

  lemma Rescaled(x: nat, o: nat, shift: nat, s: nat, k: nat, m: nat)
    requires 0 < m && 0 < k && s == k * m && o == shift * m
    ensures 0 < s && (x + o) / s == (x / m + shift) / k
  {
    DivMul(x, m);
    MulStep(0, k, m);
    Distribute(x / m, shift, m);
    InLargerPage(x / m + shift, x % m, k, m);
  }

  lemma InLargerPage(q: nat, r: nat, k: nat, m: nat)
    requires 0 < k && r < m && 0 < k * m
    ensures (q * m + r) / (k * m) == q / k
  {
    var h, i := q / k, q % k;
    DivMul(q, k);
    Distribute(h * k, i, m);
    Associate(h, k, m);
    MulStep(i, k, m);
    MulStep(0, i, m);
    DivUnique(q * m + r, k * m, h, i * m + r);
  }

  // A range of small guest pages touches every system page it changes.
  lemma SmallTouchesWhole(g: Geometry, relative: nat, size: nat)
    requires SmallPages(g) && 0 < size
    ensures TouchesWholeGuestPages(g, relative, size)
  {
    SmallAlike(g, relative, relative / g.guestPage * g.guestPage, 0);
    var x := relative + size - 1;
    SmallAlike(g, x, x / g.guestPage * g.guestPage + (g.guestPage - 1), g.guestPage - 1);
  }

  lemma SmallAlike(g: Geometry, x: nat, y: nat, r: nat)
    requires SmallPages(g) && r < g.guestPage && y == x / g.guestPage * g.guestPage + r
    ensures g.SystemPageOf(x) == g.SystemPageOf(y)
  {
    DivUnique(y, g.guestPage, x / g.guestPage, r);
    SmallPageAt(g, x);
    SmallPageAt(g, y);
  }

  // Setting small pages does what ApplyHostProtect is proved to do.
  lemma HostSetIsApplied(g: Geometry, pages: Pages, s0: Watched, s: Watched, relative: nat, size: nat,
                         protect: Protection)
    requires g.Valid() && SmallPages(g) && 0 < size && LastGuestPage(g, relative, size) < |pages|
    requires s0.Valid() && s.Valid() && |s.host| == |s0.host|
    requires HostSet(g, TableAfter(g, pages, relative, size, protect), s0, s, relative, size, protect)
    ensures FirstGuestPage(g, relative) <= LastGuestPage(g, relative, size)
    ensures var first, last := FirstGuestPage(g, relative), LastGuestPage(g, relative, size);
      BaseHeaps.IsHostAfter(s.host, s0.host, pages, first, last + 1 - first, protect,
                            g.systemPage / g.guestPage, g.hostOffset / g.guestPage)
  {
    RangeInPages(g, relative, size);
    SmallTouchesWhole(g, relative, size);
    SmallPageAt(g, relative);
    SmallPageAt(g, relative + size - 1);
    forall p | 0 <= p < |s.host|
      ensures s.host[p] == if Reached(g, relative, size, p)
                           then HostAccess(g, TableAfter(g, pages, relative, size, protect), protect, p)
                           else s0.host[p]
    {
      assert s.Page(p).host == s.host[p] && s0.Page(p).host == s0.host[p];
    }
  }

  lemma RangeInPages(g: Geometry, relative: nat, size: nat)
    requires 0 < g.guestPage && 0 < size
    ensures FirstGuestPage(g, relative) <= LastGuestPage(g, relative, size)
  {
    BaseHeaps.DivMono(relative, relative + size - 1, g.guestPage);
  }

  // --- When it keeps watched pages faulting ---

  // A guest page outside the range, in a system page the Protect sets.
  predicate IsNeighbour(g: Geometry, relative: nat, size: nat, q: nat)
    requires 0 < g.systemPage && 0 < g.guestPage && 0 < size
  {
    && !(FirstGuestPage(g, relative) <= q <= LastGuestPage(g, relative, size))
    && Reached(g, relative, size, g.SystemPageOf(q * g.guestPage))
  }

  ghost predicate WritableNeighbour(g: Geometry, pages: Pages, relative: nat, size: nat)
    requires 0 < g.systemPage && 0 < g.guestPage && 0 < size
  {
    exists q: nat :: q < |pages| && IsNeighbour(g, relative, size, q) && ToPageAccess(pages[q].protect) == ReadWrite
  }

  // Where guest pages are whole system pages, a Protect that lets the guest write
  // has to touch every system page of the guest pages it changes. Where they are
  // smaller, one that does not must not share a system page with a writable one.
  ghost predicate KeepsWatch(g: Geometry, pages: Pages, relative: nat, size: nat, protect: Protection)
    requires 0 < g.systemPage && 0 < g.guestPage && 0 < size
  {
    if g.systemPage <= g.guestPage then
      ToPageAccess(protect) == ReadWrite ==> TouchesWholeGuestPages(g, relative, size)
    else
      IsWritable(protect) || !WritableNeighbour(g, pages, relative, size)
  }

  // The Protect makes a system page writable that it does not report.
  ghost predicate Opens(g: Geometry, after: Pages, relative: nat, size: nat, protect: Protection, p: nat)
    requires 0 < g.systemPage && 0 < g.guestPage && 0 < size
  {
    && Reached(g, relative, size, p) && HostAccess(g, after, protect, p) == ReadWrite
    && !(IsWritable(protect) && Reported(g, relative, size, p))
  }

  lemma WhenLargeOpens(g: Geometry, after: Pages, relative: nat, size: nat, protect: Protection)
    requires 0 < g.systemPage <= g.guestPage && 0 < size
    ensures (exists p: nat :: Opens(g, after, relative, size, protect, p)) <==>
            ToPageAccess(protect) == ReadWrite && !TouchesWholeGuestPages(g, relative, size)
  {
    WhenReachIsReported(g, relative, size);
    if ToPageAccess(protect) == ReadWrite && !TouchesWholeGuestPages(g, relative, size) {
      var p: nat :| Reached(g, relative, size, p) && !Reported(g, relative, size, p);
      assert Opens(g, after, relative, size, protect, p);
    }
  }

  lemma WhenSmallOpens(g: Geometry, pages: Pages, relative: nat, size: nat, protect: Protection)
    requires SmallPages(g) && 0 < size && LastGuestPage(g, relative, size) < |pages|
    ensures (exists p: nat :: Opens(g, TableAfter(g, pages, relative, size, protect), relative, size, protect, p)) <==>
            !IsWritable(protect) && WritableNeighbour(g, pages, relative, size)
  {
    var after := TableAfter(g, pages, relative, size, protect);
    SmallTouchesWhole(g, relative, size);
    RangeInPages(g, relative, size);
    if p: nat :| Opens(g, after, relative, size, protect, p) {
      var q := JoinedWritable(g, after, protect, p);
      assert IsNeighbour(g, relative, size, q);
    }
    if !IsWritable(protect) && WritableNeighbour(g, pages, relative, size) {
      var q: nat :| q < |pages| && IsNeighbour(g, relative, size, q) && ToPageAccess(pages[q].protect) == ReadWrite;
      JoinsWritable(g, after, protect, q);
      assert Opens(g, after, relative, size, protect, g.SystemPageOf(q * g.guestPage));
    }
  }

  // A shared system page is writable exactly when one of its guest pages is.
  lemma JoinedWritable(g: Geometry, pages: Pages, protect: Protection, p: nat) returns (q: nat)
    requires SmallPages(g) && HostAccess(g, pages, protect, p) == ReadWrite
    ensures q < |pages| && ToPageAccess(pages[q].protect) == ReadWrite && g.SystemPageOf(q * g.guestPage) == p
  {
    var k, shift, n := g.systemPage / g.guestPage, g.hostOffset / g.guestPage, |pages|;
    q :| BaseHeaps.FirstPage(p, k, shift, n) <= q < BaseHeaps.EndPage(p, k, shift, n) &&
         ReadWrite == ToPageAccess(pages[q].protect);
    PerHost(g);
    BaseHeaps.HostPageHolds(q, p, k, shift, n);
    MultipleMod(q, g.guestPage);
    SmallPageAt(g, q * g.guestPage);
  }

  lemma JoinsWritable(g: Geometry, pages: Pages, protect: Protection, q: nat)
    requires SmallPages(g) && q < |pages| && ToPageAccess(pages[q].protect) == ReadWrite
    ensures HostAccess(g, pages, protect, g.SystemPageOf(q * g.guestPage)) == ReadWrite
  {
    PerHost(g);
    MultipleMod(q, g.guestPage);
    SmallPageAt(g, q * g.guestPage);
    BaseHeaps.HostPageHolds(q, g.SystemPageOf(q * g.guestPage), g.systemPage / g.guestPage, g.hostOffset / g.guestPage,
                            |pages|);
  }

  lemma PerHost(g: Geometry)
    requires SmallPages(g)
    ensures 0 < g.systemPage / g.guestPage
    ensures g.systemPage == g.systemPage / g.guestPage * g.guestPage
    ensures g.hostOffset == g.hostOffset / g.guestPage * g.guestPage
  {
    DivMul(g.systemPage, g.guestPage);
    DivMul(g.hostOffset, g.guestPage);
    MulStep(g.systemPage / g.guestPage, 0, g.guestPage);
  }

  lemma WhenOpens(g: Geometry, pages: Pages, relative: nat, size: nat, protect: Protection)
    requires PagesTile(g) && 0 < size && LastGuestPage(g, relative, size) < |pages|
    ensures (exists p: nat :: Opens(g, TableAfter(g, pages, relative, size, protect), relative, size, protect, p)) <==>
            !KeepsWatch(g, pages, relative, size, protect)
  {
    if g.systemPage <= g.guestPage {
      WhenLargeOpens(g, TableAfter(g, pages, relative, size, protect), relative, size, protect);
    } else {
      WhenSmallOpens(g, pages, relative, size, protect);
    }
  }

  // A Protect that opens no page, or is refused, keeps a view guarded.
  lemma ProtectKeepsGuarded(g: Geometry, after: Pages, s0: Watched, s: Watched, owed: set<nat>, relative: nat,
                            size: nat, protect: Protection, accepted: bool)
    requires g.Valid() && s0.Valid() && s.Valid() && |s.host| == |s0.host| && Guarded(s0, owed)
    requires ProtectedPages(g, after, s0, s, relative, size, protect, accepted)
    requires accepted ==> 0 < size && relative + size <= g.heapSize
    requires accepted ==> forall p: nat :: !Opens(g, after, relative, size, protect, p)
    ensures Guarded(s, OwedAfterProtect(g, owed, relative, size, protect))
  {
    forall p | 0 <= p < |s.host| ensures PageKeepsGuarded(g, s.Page(p), s0.Page(p), relative, size, protect, p) {
      if accepted {
        assert !Opens(g, after, relative, size, protect, p);
      }
    }
  }

  predicate PageKeepsGuarded(g: Geometry, w: PageWatch, w0: PageWatch, relative: nat, size: nat, protect: Protection,
                             p: nat)
    requires g.Valid()
  {
    var told := IsWritable(protect) && InRange(g, Clip(relative, size, g.heapSize), p);
    && w.invalidation == (w0.invalidation && !told)
    && (w.invalidation || w.read ==> (w0.invalidation || w0.read) && (w0.host != ReadWrite ==> w.host != ReadWrite))
  }

  ghost predicate FitsHeap(g: Geometry, s: Watched) {
    && 0 < g.systemPage && s.Valid()
    && |s.host| == g.SystemPageCount() && |s.invalidation| == (g.SystemPageCount() + 63) / 64
  }

  // An accepted Protect of the range leaves every guarded view guarded.
  ghost predicate ProtectIsSafe(g: Geometry, pages: Pages, relative: nat, size: nat, protect: Protection)
    requires g.Valid() && 0 < size && LastGuestPage(g, relative, size) < |pages|
  {
    var after := TableAfter(g, pages, relative, size, protect);
    forall s0, s, owed: set<nat> ::
      FitsHeap(g, s0) && FitsHeap(g, s) && Guarded(s0, owed) &&
      ProtectedPages(g, after, s0, s, relative, size, protect, true) ==>
        Guarded(s, OwedAfterProtect(g, owed, relative, size, protect))
  }

  // It does so exactly when it makes no page writable that it does not report.
  lemma WhenProtectIsSafe(g: Geometry, pages: Pages, relative: nat, size: nat, protect: Protection)
    requires g.Valid() && PagesTile(g) && 0 < size && relative + size <= g.heapSize
    requires LastGuestPage(g, relative, size) < |pages| && GuestLast(g, relative, size) < g.SystemPageCount()
    ensures ProtectIsSafe(g, pages, relative, size, protect) <==> KeepsWatch(g, pages, relative, size, protect)
  {
    var after := TableAfter(g, pages, relative, size, protect);
    WhenOpens(g, pages, relative, size, protect);
    if p: nat :| Opens(g, after, relative, size, protect, p) {
      WatchedPageOpens(g, pages, relative, size, protect, p);
    } else {
      forall s0, s, owed: set<nat> |
        FitsHeap(g, s0) && FitsHeap(g, s) && Guarded(s0, owed) &&
        ProtectedPages(g, after, s0, s, relative, size, protect, true)
        ensures Guarded(s, OwedAfterProtect(g, owed, relative, size, protect))
      {
        ProtectKeepsGuarded(g, after, s0, s, owed, relative, size, protect, true);
      }
    }
  }

  // So a writable Protect of the second 4 KB of a 64 KB guest page, with 4 KB
  // system pages, is not safe.
  lemma UnalignedProtectIsUnsafe(pages: Pages, protect: Protection)
    requires 0 < |pages| && ToPageAccess(protect) == ReadWrite
    ensures !ProtectIsSafe(Geometry(0x10_0000, 0, 0, 0x1000, 0x1_0000, 0x1000), pages, 0x1000, 0x1000, protect)
  {
    UnalignedReachesUnreported();
    WhenProtectIsSafe(Geometry(0x10_0000, 0, 0, 0x1000, 0x1_0000, 0x1000), pages, 0x1000, 0x1000, protect);
  }

  // Nor is a read-only Protect of a 4 KB guest page beside a writable one, with
  // 16 KB system pages.
  lemma SharedProtectIsUnsafe(pages: Pages, protect: Protection)
    requires 1 < |pages| && ToPageAccess(pages[1].protect) == ReadWrite && !IsWritable(protect)
    ensures !ProtectIsSafe(Geometry(0x1_0000, 0, 0, 0x4000, 0x1000, 0x1000), pages, 0, 0x1000, protect)
  {
    var g := Geometry(0x1_0000, 0, 0, 0x4000, 0x1000, 0x1000);
    assert IsNeighbour(g, 0, 0x1000, 1);
    WhenProtectIsSafe(g, pages, 0, 0x1000, protect);
  }

  // --- When it keeps unwatched pages writable ---

  // A page a writable Protect unwatches though the guest may write it.
  predicate Closes(g: Geometry, w: PageWatch, guest: PageAccess, relative: nat, size: nat, protect: Protection, p: nat)
    requires 0 < g.systemPage
  {
    && IsWritable(protect) && InRange(g, Clip(relative, size, g.heapSize), p)
    && (w.invalidation || w.read) && guest == ReadWrite
  }

  // One that is refused unwatches its range and leaves host protection alone, so
  // it keeps the view open exactly when it unwatches nothing the guest may write.
  // A write to such a page faults forever.
  lemma WhenRefusedKeepsOpen(g: Geometry, after: Pages, s0: Watched, s: Watched, guest: nat -> PageAccess,
                             owed: set<nat>, relative: nat, size: nat, protect: Protection)
    requires g.Valid() && s0.Valid() && s.Valid() && |s.host| == |s0.host|
    requires Guarded(s0, owed) && Open(s0, guest)
    requires ProtectedPages(g, after, s0, s, relative, size, protect, false)
    ensures Open(s, guest) <==>
      forall p :: 0 <= p < |s.host| ==> !Closes(g, s0.Page(p), guest(p), relative, size, protect, p)
  {
    if p :| 0 <= p < |s.host| && Closes(g, s0.Page(p), guest(p), relative, size, protect, p) {
      assert s.Page(p) == PageWatch(false, false, s0.Page(p).host) && s0.Page(p).host != ReadWrite;
    }
  }

  // A refused one of a single watched page the guest may write closes it, with no
  // watch left to open it again.
  lemma RefusedProtectCloses(after: Pages, protect: Protection) returns (s0: Watched, s: Watched)
    requires IsWritable(protect)
    ensures var g := Geometry(0x1000, 0, 0, 0x1000, 0x1000, 0x1000);
      && g.Valid() && s0.Valid() && s.Valid() && |s.host| == |s0.host| == 1
      && Guarded(s0, {0}) && Open(s0, _ => ReadWrite)
      && ProtectedPages(g, after, s0, s, 0, 0x1000, protect, false)
      && s.Page(0) == PageWatch(false, false, ReadOnly) && !Open(s, _ => ReadWrite)
  {
    OneFlagAt(1, 0);
    NoFlags(1);
    s0 := Watched(OneFlag(1, 0), ZeroWords(1), [ReadOnly]);
    s := Watched(ZeroWords(1), ZeroWords(1), [ReadOnly]);
    assert s0.Page(0) == PageWatch(true, false, ReadOnly) && s.Page(0) == PageWatch(false, false, ReadOnly);
  }

  // An accepted Protect, and an allocation that is committed, leave the host at
  // what the guest may do, where that is what they set.
  lemma AcceptedServes(g: Geometry, after: Pages, s0: Watched, s: Watched, guest: nat -> PageAccess,
                       guest': nat -> PageAccess, relative: nat, size: nat, protect: Protection)
    requires g.Valid() && s0.Valid() && s.Valid() && |s.host| == |s0.host| && Serves(s0, guest)
    requires ProtectedPages(g, after, s0, s, relative, size, protect, true)
    requires 0 < size && relative + size <= g.heapSize
    requires forall p: nat :: p < |s.host| ==>
      guest'(p) == if Reached(g, relative, size, p) then HostAccess(g, after, protect, p) else guest(p)
    ensures Serves(s, guest')
  {
    forall p | 0 <= p < |s.host| ensures ServesPage(s.Page(p), guest'(p)) {
      assert ServesPage(s0.Page(p), guest(p));
      assert s.Page(p) == ProtectedPage(g, after, s0.Page(p), relative, size, protect, true, p);
      if Reported(g, relative, size, p) {
        ReportIsReached(g, relative, size, p);
      }
    }
  }

  lemma AllocatedServes(g: Geometry, after: Pages, s0: Watched, s: Watched, guest: nat -> PageAccess,
                        guest': nat -> PageAccess, first: nat, last: nat, protect: Protection)
    requires g.Valid() && s0.Valid() && s.Valid() && |s.host| == |s0.host| && Serves(s0, guest)
    requires IsAllocated(g, after, s0, s, guest', first, last, true, protect)
    requires forall p: nat :: p < |s.host| ==>
      guest'(p) == if first <= p <= last then HostAccess(g, after, protect, p) else guest(p)
    ensures Serves(s, guest')
  {
    forall p | 0 <= p < |s.host| ensures ServesPage(s.Page(p), guest'(p)) {
      assert ServesPage(s0.Page(p), guest(p));
      assert s.Page(p) == if first <= p <= last
                          then FirePage(BackedPage(g, after, s0.Page(p), first, last, true, protect, p),
                                        guest'(p), true)
                          else s0.Page(p);
    }
  }

  // One that is accepted keeps it open where what the guest may write afterwards
  // is what the host was given, and elsewhere no more than before.
  lemma AcceptedKeepsOpen(g: Geometry, after: Pages, s0: Watched, s: Watched, guest: nat -> PageAccess,
                          guest': nat -> PageAccess, relative: nat, size: nat, protect: Protection)
    requires g.Valid() && s0.Valid() && s.Valid() && |s.host| == |s0.host| && Open(s0, guest)
    requires ProtectedPages(g, after, s0, s, relative, size, protect, true)
    requires 0 < size && relative + size <= g.heapSize
    requires forall p: nat :: p < |s.host| && guest'(p) == ReadWrite ==>
      if Reached(g, relative, size, p) then HostAccess(g, after, protect, p) == ReadWrite else guest(p) == ReadWrite
    ensures Open(s, guest')
  {
    forall p | 0 <= p < |s.host| && Reported(g, relative, size, p) ensures Reached(g, relative, size, p) {
      ReportIsReached(g, relative, size, p);
    }
  }

  lemma ReportIsReached(g: Geometry, relative: nat, size: nat, p: nat)
    requires 0 < g.systemPage && 0 < g.guestPage && 0 < size && Reported(g, relative, size, p)
    ensures Reached(g, relative, size, p)
  {
    var x := relative + size - 1;
    GuestPageHolds(relative, g.guestPage);
    GuestPageHolds(x, g.guestPage);
    PageOfMono(g, relative / g.guestPage * g.guestPage, relative);
    PageOfMono(g, x, x / g.guestPage * g.guestPage + (g.guestPage - 1));
  }

  // Guest pages that are whole system pages and in use may be accessed as the
  // Protect says, whatever the parent has.
  lemma GuestIsHost(g: Geometry, after: Pages, parent: Pages, relative: nat, size: nat, protect: Protection, p: nat)
    requires WholeSystemPages(g) && 0 < g.parentPage && 0 < size && Reached(g, relative, size, p)
    requires LastGuestPage(g, relative, size) < |after|
    requires forall q :: FirstGuestPage(g, relative) <= q <= LastGuestPage(g, relative, size) ==>
      !IsFree(after[q]) && after[q].protect == protect
    ensures SystemPageGuestAccess(g, after, parent, p) == HostAccess(g, after, protect, p)
  {
    var x, q := InOneGuestPage(g, relative, size, p);
    LargeIsNotSmall(g);
    assert MostPermissive(after, q, q, false) == NoAccess;
    assert MostPermissive(after, q, q + 1, false) == ToPageAccess(protect);
  }

  // So it is of smaller ones, where all that share the system page are in use.
  lemma SmallGuestIsHost(g: Geometry, pages: Pages, parent: Pages, protect: Protection, p: nat, q: nat)
    requires SmallPages(g) && 0 < g.parentPage && q < |pages| && g.SystemPageOf(q * g.guestPage) == p
    requires forall i: nat :: i < |pages| && g.SystemPageOf(i * g.guestPage) == p ==> !IsFree(pages[i])
    ensures SystemPageGuestAccess(g, pages, parent, p) == HostAccess(g, pages, protect, p)
  {
    var k, shift, n := g.systemPage / g.guestPage, g.hostOffset / g.guestPage, |pages|;
    var first, end := BaseHeaps.FirstPage(p, k, shift, n), BaseHeaps.EndPage(p, k, shift, n);
    PieceOfHost(g, q, p, n);
    forall i | first <= i < end ensures !IsFree(pages[i]) {
      InHost(g, i, p, n);
    }
    JoinsAgree(pages, first, end);
    AccessOfHost(g, pages, parent, p, first, end);
  }

  // The access of a system page none of whose guest pages is free.
  lemma AccessOfHost(g: Geometry, pages: Pages, parent: Pages, p: nat, first: nat, end: nat)
    requires SmallPages(g) && 0 < g.parentPage && first < end <= |pages|
    requires first == BaseHeaps.FirstPage(p, g.systemPage / g.guestPage, g.hostOffset / g.guestPage, |pages|)
    requires end == BaseHeaps.EndPage(p, g.systemPage / g.guestPage, g.hostOffset / g.guestPage, |pages|)
    requires forall i :: first <= i < end ==> !IsFree(pages[i])
    ensures SystemPageGuestAccess(g, pages, parent, p) == MostPermissive(pages, first, end, false)
  {
    SharedRange(g, p);
    assert 0 / g.guestPage == 0;
  }

  lemma InHost(g: Geometry, i: nat, p: nat, n: nat)
    requires SmallPages(g) && i < n
    requires BaseHeaps.FirstPage(p, g.systemPage / g.guestPage, g.hostOffset / g.guestPage, n) <= i
    requires i < BaseHeaps.EndPage(p, g.systemPage / g.guestPage, g.hostOffset / g.guestPage, n)
    ensures g.SystemPageOf(i * g.guestPage) == p
  {
    PerHost(g);
    MultipleMod(i, g.guestPage);
    SmallPageAt(g, i * g.guestPage);
    BaseHeaps.HostPageHolds(i, p, g.systemPage / g.guestPage, g.hostOffset / g.guestPage, n);
  }

  lemma PieceOfHost(g: Geometry, q: nat, p: nat, n: nat)
    requires SmallPages(g) && q < n && g.SystemPageOf(q * g.guestPage) == p
    ensures var k, shift := g.systemPage / g.guestPage, g.hostOffset / g.guestPage;
      && 0 < k && BaseHeaps.HostPageOf(q, k, shift) == p
      && BaseHeaps.FirstPage(p, k, shift, n) <= q < BaseHeaps.EndPage(p, k, shift, n)
  {
    PerHost(g);
    MultipleMod(q, g.guestPage);
    SmallPageAt(g, q * g.guestPage);
    BaseHeaps.HostPageHolds(q, p, g.systemPage / g.guestPage, g.hostOffset / g.guestPage, n);
  }

  // The guest pages the bytes of a system page are in.
  lemma SharedRange(g: Geometry, p: nat)
    requires SmallPages(g)
    ensures var m, k, shift := g.guestPage, g.systemPage / g.guestPage, g.hostOffset / g.guestPage;
      && 0 < k
      && (p * g.systemPage > g.hostOffset <==> p * k > shift)
      && (p * k > shift ==> (p * g.systemPage - g.hostOffset) / m == p * k - shift)
      && (p * g.systemPage + (g.systemPage - 1) < g.hostOffset <==> p * k + k <= shift)
      && (p * k + k > shift ==>
            (p * g.systemPage + (g.systemPage - 1) - g.hostOffset) / m == p * k + k - shift - 1)
  {
    var m, k, shift := g.guestPage, g.systemPage / g.guestPage, g.hostOffset / g.guestPage;
    PerHost(g);
    var base, last := p * g.systemPage - g.hostOffset, p * g.systemPage + (g.systemPage - 1) - g.hostOffset;
    ScaledDifference(p, k, shift, m, g.systemPage, g.hostOffset);
    Scaled(base, p * k - shift, m);
    Scaled(last + 1, p * k + k - shift, m);
  }

  lemma ScaledDifference(p: int, k: int, shift: int, m: int, s: int, o: int)
    requires s == k * m && o == shift * m
    ensures p * s - o == (p * k - shift) * m && p * s + s - o == (p * k + k - shift) * m
  {
    Associate(p, k, m);
    Distribute(p * k, k, m);
    Distribute(p * k, -shift, m);
    Distribute(p * k + k, -shift, m);
  }

  lemma Scaled(x: int, a: int, m: nat)
    requires 0 < m && x == a * m
    ensures 0 < x <==> 0 < a
    ensures 0 < a ==> x / m == a && (x - 1) / m == a - 1
  {
    if 0 < a {
      MulStep(0, a, m);
      DivUnique(x, m, a, 0);
      Distribute(a, -1, m);
      DivUnique(x - 1, m, a - 1, m - 1);
    } else {
      MulStep(0, 1 - a, m);
      Distribute(1, -a, m);
    }
  }

  lemma {:induction false} JoinsAgree(pages: Pages, lo: nat, hi: nat)
    requires lo <= hi <= |pages| && forall i :: lo <= i < hi ==> !IsFree(pages[i])
    ensures MostPermissive(pages, lo, hi, false) == BaseHeaps.JoinAccess(pages, lo, hi)
    decreases hi - lo
  {
    if lo < hi {
      JoinsAgree(pages, lo, hi - 1);
    }
  }

  // The first heap byte a system page shows, and the one past its last.
  function FirstByte(g: Geometry, p: nat): nat {
    if p * g.systemPage > g.hostOffset then p * g.systemPage - g.hostOffset else 0
  }

  function EndByte(g: Geometry, p: nat): nat {
    if p * g.systemPage + g.systemPage > g.hostOffset then p * g.systemPage + g.systemPage - g.hostOffset else 0
  }

  // Page `q` of pages of `m` bytes has one of the bytes from..end.
  predicate Shares(q: nat, m: nat, from: nat, end: nat) {
    q * m < end && from < q * m + m
  }

  // Where nothing is allocated in the view, a system page has the most permissive
  // access of the parent's committed pages over the same bytes. It does too where
  // only some of it is, if that allows something and no page in use is writable.
  lemma FreeIsParents(g: Geometry, pages: Pages, parent: Pages, p: nat)
    requires 0 < g.systemPage && 0 < g.guestPage && 0 < g.parentPage && FirstByte(g, p) < EndByte(g, p)
    requires exists q: nat :: q < |pages| && Shares(q, g.guestPage, FirstByte(g, p), EndByte(g, p)) && IsFree(pages[q])
    requires forall q: nat :: q < |pages| && Shares(q, g.guestPage, FirstByte(g, p), EndByte(g, p)) ==>
      IsFree(pages[q]) || (ToPageAccess(pages[q].protect) != ReadWrite && ParentAllows(g, parent, p))
    ensures var r := SystemPageGuestAccess(g, pages, parent, p);
      var from, end := g.physicalOffset + FirstByte(g, p), g.physicalOffset + EndByte(g, p);
      && (forall q: nat :: q < |parent| && Shares(q, g.parentPage, from, end) && parent[q].state.commit ==>
            r.Permits(ToPageAccess(parent[q].protect)))
      && (r == NoAccess ||
          exists q: nat :: q < |parent| && Shares(q, g.parentPage, from, end) && parent[q].state.commit &&
                           r == ToPageAccess(parent[q].protect))
  {
    var a, b, m := FirstByte(g, p), EndByte(g, p), g.guestPage;
    var first, last := a / m, (b - 1) / m;
    BaseHeaps.DivMono(a, b - 1, m);
    var from, end := g.physicalOffset + a, g.physicalOffset + b;
    RangeAccess(parent, g.parentPage, from, end);
    forall q: nat | q < |pages| ensures Shares(q, m, a, b) <==> first <= q <= last {
      WhenShares(q, m, a, b);
    }
    FreeAccess(g, pages, parent, p, first, last);
  }

  // The parent has committed memory the guest may access over the bytes of a
  // system page.
  ghost predicate ParentAllows(g: Geometry, parent: Pages, p: nat) {
    exists q: nat :: q < |parent| && parent[q].state.commit && ToPageAccess(parent[q].protect) != NoAccess &&
                     Shares(q, g.parentPage, g.physicalOffset + FirstByte(g, p), g.physicalOffset + EndByte(g, p))
  }

  lemma WhenShares(q: nat, m: nat, from: nat, end: nat)
    requires 0 < m && from < end
    ensures Shares(q, m, from, end) <==> from / m <= q <= (end - 1) / m
  {
    BaseHeaps.PageBounds(from, q, m);
    BaseHeaps.PageBounds(end - 1, q, m);
  }

  lemma FreeAccess(g: Geometry, pages: Pages, parent: Pages, p: nat, first: nat, last: nat)
    requires 0 < g.systemPage && 0 < g.guestPage && 0 < g.parentPage && FirstByte(g, p) < EndByte(g, p)
    requires first == FirstByte(g, p) / g.guestPage && last == (EndByte(g, p) - 1) / g.guestPage
    requires first <= last && exists q: nat :: q < |pages| && first <= q <= last && IsFree(pages[q])
    requires forall q: nat :: q < |pages| && first <= q <= last ==>
      IsFree(pages[q]) || (ToPageAccess(pages[q].protect) != ReadWrite && ParentAnswer(g, parent, p) != NoAccess)
    ensures SystemPageGuestAccess(g, pages, parent, p) == ParentAnswer(g, parent, p)
  {
    var end := if last >= |pages| then |pages| else last + 1;
    assert MostPermissive(pages, first, end, false) != ReadWrite;
    if ParentAnswer(g, parent, p) == NoAccess {
      assert MostPermissive(pages, first, end, false) == NoAccess;
    }
  }

  function ParentAnswer(g: Geometry, parent: Pages, p: nat): PageAccess
    requires 0 < g.parentPage && FirstByte(g, p) < EndByte(g, p)
  {
    CommittedRangeAccess(parent, g.parentPage, g.physicalOffset + FirstByte(g, p), EndByte(g, p) - FirstByte(g, p))
  }

  lemma RangeAccess(pages: Pages, m: nat, from: nat, end: nat)
    requires 0 < m && from < end
    ensures var r := CommittedRangeAccess(pages, m, from, end - from);
      && (forall q: nat :: q < |pages| && Shares(q, m, from, end) && pages[q].state.commit ==>
            r.Permits(ToPageAccess(pages[q].protect)))
      && (r == NoAccess ||
          exists q: nat :: q < |pages| && Shares(q, m, from, end) && pages[q].state.commit &&
                           r == ToPageAccess(pages[q].protect))
  {
    var r := CommittedRangeAccess(pages, m, from, end - from);
    BaseHeaps.DivMono(from, end - 1, m);
    var source := CommittedAccess(pages, m, from, end, from / m, (end - 1) / m);
    forall q: nat | q < |pages| && Shares(q, m, from, end) && pages[q].state.commit
      ensures r.Permits(ToPageAccess(pages[q].protect))
    {
      WhenShares(q, m, from, end);
    }
    if r != NoAccess {
      WhenShares(source, m, from, end);
    }
  }

  lemma CommittedAccess(pages: Pages, m: nat, from: nat, end: nat, first: nat, last: nat) returns (source: nat)
    requires 0 < m && from < end && first == from / m && last == (end - 1) / m && first <= last
    ensures var r := CommittedRangeAccess(pages, m, from, end - from);
      && (forall q: nat :: q < |pages| && first <= q <= last && pages[q].state.commit ==>
            r.Permits(ToPageAccess(pages[q].protect)))
      && (r == NoAccess ||
          (source < |pages| && first <= source <= last && pages[source].state.commit &&
           r == ToPageAccess(pages[source].protect)))
  {
    source := 0;
    assert from + (end - from - 1) == end - 1;
    if first < |pages| {
      var stop := if last >= |pages| then |pages| else last + 1;
      var r := MostPermissive(pages, first, stop, true);
      if r != NoAccess {
        source :| first <= source < stop && Counts(pages[source], true) && r == ToPageAccess(pages[source].protect);
      }
    }
  }

  lemma LargeIsNotSmall(g: Geometry)
    requires WholeSystemPages(g)
    ensures g.systemPage <= g.guestPage
  {
    DivMul(g.guestPage, g.systemPage);
  }

  // The heap byte a reached system page starts at, and the one guest page all of
  // its bytes are in.
  lemma InOneGuestPage(g: Geometry, relative: nat, size: nat, p: nat) returns (x: nat, q: nat)
    requires WholeSystemPages(g) && 0 < size && Reached(g, relative, size, p)
    ensures p * g.systemPage == x + g.hostOffset
    ensures q == x / g.guestPage == (x + (g.systemPage - 1)) / g.guestPage
    ensures FirstGuestPage(g, relative) <= q <= LastGuestPage(g, relative, size)
  {
    var k, n, o := g.systemPage, g.guestPage / g.systemPage, g.hostOffset / g.systemPage;
    ReachedBounds(g, relative, size, p);
    var i := p - o;
    BlockBetween(i, FirstGuestPage(g, relative), LastGuestPage(g, relative, size), n);
    x, q := i * k, i / n;
    WholePages(g, 0);
    Distribute(i, o, k);
    DivMul(g.guestPage, k);
    InLargerPage(i, 0, n, k);
    InLargerPage(i, k - 1, n, k);
  }

  // Reached system pages, in system pages of the heap.
  lemma ReachedBounds(g: Geometry, relative: nat, size: nat, p: nat)
    requires WholeSystemPages(g) && 0 < size && Reached(g, relative, size, p)
    ensures var n, o := g.guestPage / g.systemPage, g.hostOffset / g.systemPage;
      && 0 < n
      && FirstGuestPage(g, relative) * n + o <= p <= LastGuestPage(g, relative, size) * n + (n - 1) + o
  {
    var m, k, n, o := g.guestPage, g.systemPage, g.guestPage / g.systemPage, g.hostOffset / g.systemPage;
    var s, e := FirstGuestPage(g, relative), LastGuestPage(g, relative, size);
    WholePages(g, s);
    WholePages(g, e);
    PageStarts(s * n, o, k);
    PageEnds(e * m + (m - 1), e * n + (n - 1), o, k);
  }

  lemma BlockBetween(i: int, s: nat, e: nat, n: nat)
    requires 0 < n && s * n <= i <= e * n + (n - 1)
    ensures 0 <= i && s <= i / n <= e
  {
    MulStep(0, s, n);
    DivMul(i, n);
    MulStep(i / n, s, n);
    MulStep(e, i / n, n);
  }

  lemma PageStarts(i: nat, o: nat, k: nat)
    requires 0 < k
    ensures (i * k + o * k) / k == i + o
  {
    Distribute(i, o, k);
    MultipleMod(i + o, k);
  }

  lemma PageEnds(x: nat, i: nat, o: nat, k: nat)
    requires 0 < k && x == i * k + (k - 1)
    ensures (x + o * k) / k == i + o
  {
    Distribute(i, o, k);
    DivUnique(x + o * k, k, i + o, k - 1);
  }

  // --- A view that a Protect leaves unguarded ---

  // A view watching only page `p`, and what a Protect that opens it makes of the
  // view.
  ghost predicate WatchesOne(s: Watched, p: nat)
    requires s.Valid()
  {
    forall i :: 0 <= i < |s.host| ==> s.Page(i) == PageWatch(i == p, false, NoAccess)
  }

  ghost predicate WatchesOneOpened(g: Geometry, after: Pages, s: Watched, relative: nat, size: nat,
                                   protect: Protection, p: nat)
    requires g.Valid() && s.Valid() && 0 < size
  {
    forall i :: 0 <= i < |s.host| ==>
      s.Page(i) == PageWatch(i == p, false, OpenedHost(g, after, relative, size, protect, i))
  }

  function OpenedHost(g: Geometry, after: Pages, relative: nat, size: nat, protect: Protection, i: nat): PageAccess
    requires 0 < g.systemPage && 0 < g.guestPage && 0 < size
  {
    if Reached(g, relative, size, i) then HostAccess(g, after, protect, i) else NoAccess
  }

  lemma WatchedPageIsOpened(g: Geometry, after: Pages, s0: Watched, s: Watched, relative: nat, size: nat,
                            protect: Protection, p: nat)
    requires g.Valid() && 0 < size && relative + size <= g.heapSize
    requires s0.Valid() && s.Valid() && p < |s.host| == |s0.host|
    requires WatchesOne(s0, p) && WatchesOneOpened(g, after, s, relative, size, protect, p)
    requires Opens(g, after, relative, size, protect, p)
    ensures Guarded(s0, {p}) && ProtectedPages(g, after, s0, s, relative, size, protect, true)
    ensures forall owed :: !Guarded(s, owed)
  {
    forall i | 0 <= i < |s.host|
      ensures s.Page(i) == ProtectedPage(g, after, s0.Page(i), relative, size, protect, true, i)
    {
      assert InRange(g, Clip(relative, size, g.heapSize), i) <==> Reported(g, relative, size, i);
    }
    assert s.Page(p) == PageWatch(true, false, ReadWrite);
  }

  lemma WatchedPageOpens(g: Geometry, pages: Pages, relative: nat, size: nat, protect: Protection, p: nat)
    requires g.Valid() && 0 < size && relative + size <= g.heapSize && LastGuestPage(g, relative, size) < |pages|
    requires Opens(g, TableAfter(g, pages, relative, size, protect), relative, size, protect, p)
    requires p < g.SystemPageCount()
    ensures !ProtectIsSafe(g, pages, relative, size, protect)
  {
    var count, after := g.SystemPageCount(), TableAfter(g, pages, relative, size, protect);
    var s0 := OneWatch(count, p, seq(count, _ => NoAccess));
    var s := OneWatch(count, p, seq(count, i requires 0 <= i < count =>
                                      OpenedHost(g, after, relative, size, protect, i)));
    OneFlagAt((count + 63) / 64, p);
    NoFlags((count + 63) / 64);
    WatchedPageIsOpened(g, after, s0, s, relative, size, protect, p);
    assert !Guarded(s, OwedAfterProtect(g, {p}, relative, size, protect));
  }

  function OneWatch(count: nat, p: nat, host: seq<PageAccess>): Watched
    requires p < count
  {
    var n := (count + 63) / 64;
    Watched(OneFlag(n, p), ZeroWords(n), host)
  }
}
