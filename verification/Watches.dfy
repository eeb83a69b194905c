// The access watches of a physical view (PhysicalHeap of memory.cc): which
// system pages report their next write or access, and the host protection that
// makes them fault.
module Watches {
  import opened Wrappers
  import opened PageTable
  import opened GuestAccess

  // 4 MB: how far past the request one write may unwatch.
  const MAX_UNWATCH_EXCESS: nat := 0x40_0000
  const U32_MAX: nat := 0xFFFF_FFFF

  // One page's watches and host protection.
  datatype PageWatch = PageWatch(invalidation: bool, read: bool, host: PageAccess)

  // Arming one page on its own. Pages the guest cannot access are left to
  // fault, and so are writes to pages it cannot write.
  function ArmPage(w: PageWatch, guest: PageAccess, invalidation: bool, read: bool): PageWatch {
    var watchWrites := invalidation && guest == ReadWrite && !w.invalidation;
    var watchReads := read && guest != NoAccess && !w.read;
    var access := if read then NoAccess else ReadOnly;
    PageWatch(w.invalidation || watchWrites, w.read || watchReads,
              if watchReads || (watchWrites && !w.read) then access else w.host)
  }

  // --- The range a write unwatches ---

  // A callback's answer: the first byte and the length it can do without.
  type Answer = (nat, nat)

  function AnswerLast(a: Answer): nat {
    var last := a.0 + (if a.1 >= 1 then a.1 else 1) - 1;
    if last <= U32_MAX then last else U32_MAX
  }

  predicate InAnswer(a: Answer, x: nat) {
    a.0 <= x <= AnswerLast(a)
  }

  ghost predicate AllAnswers(answers: seq<Answer>, x: nat) {
    forall k :: 0 <= k < |answers| ==> InAnswer(answers[k], x)
  }

  function AlignedBelow(x: nat): nat {
    x / MAX_UNWATCH_EXCESS * MAX_UNWATCH_EXCESS
  }

  // What one write may unwatch: every callback can do without it, it is in the
  // 4 MB blocks of the request, and in the heap.
  ghost predicate MayUnwatch(g: Geometry, answers: seq<Answer>, start: nat, last: nat, x: nat) {
    && AllAnswers(answers, x)
    && AlignedBelow(start) <= x < AlignedBelow(last) + MAX_UNWATCH_EXCESS
    && g.physicalOffset <= x < g.physicalOffset + g.heapSize
  }

  // Every callback answers with a range around the request.
  ghost predicate AnswersCover(answers: seq<Answer>, start: nat, last: nat) {
    AllAnswers(answers, start) && AllAnswers(answers, last)
  }

  function Max(a: int, b: int): int {
    if a >= b then a else b
  }

  function Min(a: int, b: int): int {
    if a <= b then a else b
  }

  function SatSub(a: nat, b: nat): nat {
    if a >= b then a - b else 0
  }

  lemma OneMoreAnswer(answers: seq<Answer>, k: nat, x: nat)
    requires k < |answers|
    ensures AllAnswers(answers[..k + 1], x) <==> AllAnswers(answers[..k], x) && InAnswer(answers[k], x)
  {
    assert answers[..k + 1] == answers[..k] + [answers[k]];
    if AllAnswers(answers[..k + 1], x) {
      assert InAnswer(answers[..k + 1][k], x);
      forall j | 0 <= j < k ensures InAnswer(answers[..k][j], x) {
        assert answers[..k + 1][j] == answers[..k][j];
      }
    }
  }

  // The invalidation callbacks, by the answers they give when told of a start
  // and a length.
  type Callbacks = (nat, nat) -> seq<Answer>

  // Callbacks that answer with a range around what they are told of, as they
  // are documented to.
  ghost predicate AnswerAround(callbacks: Callbacks) {
    forall start: nat, length: nat | 0 < length && start + length <= ADDRESS_SPACE ::
      AnswersCover(callbacks(start, length), start, start + length - 1)
  }

  // What a fixed list of registered callbacks answers.
  function Registered(list: seq<(nat, nat) -> Answer>): Callbacks {
    (start: nat, length: nat) => seq(|list|, i requires 0 <= i < |list| => list[i](start, length))
  }

  // A callback that wants everything else kept.
  function Exactly(start: nat, length: nat): Answer {
    (start, length)
  }

  ghost predicate AnswersAlone(callback: (nat, nat) -> Answer) {
    forall start: nat, length: nat | 0 < length && start + length <= ADDRESS_SPACE ::
      InAnswer(callback(start, length), start) && InAnswer(callback(start, length), start + length - 1)
  }

  // A list answers around its ranges exactly when each callback of it does, as
  // one that wants everything else kept does.
  lemma RegisteredAnswerAround(list: seq<(nat, nat) -> Answer>)
    ensures AnswersAlone(Exactly)
    ensures (forall i :: 0 <= i < |list| ==> AnswersAlone(list[i])) <==> AnswerAround(Registered(list))
  {
    if forall i :: 0 <= i < |list| ==> AnswersAlone(list[i]) {
      forall start: nat, length: nat | 0 < length && start + length <= ADDRESS_SPACE
        ensures AnswersCover(Registered(list)(start, length), start, start + length - 1)
      {
        forall k | 0 <= k < |list|
          ensures InAnswer(Registered(list)(start, length)[k], start)
          ensures InAnswer(Registered(list)(start, length)[k], start + length - 1)
        {
          assert AnswersAlone(list[k]);
        }
      }
    }
    if AnswerAround(Registered(list)) {
      forall i, start: nat, length: nat | 0 <= i < |list| && 0 < length && start + length <= ADDRESS_SPACE
        ensures InAnswer(list[i](start, length), start) && InAnswer(list[i](start, length), start + length - 1)
      {
        assert AnswersCover(Registered(list)(start, length), start, start + length - 1);
        assert Registered(list)(start, length)[i] == list[i](start, length);
      }
    }
  }

  // Narrows the range to what every callback can do without, and widens it
  // back to the request.
  method Negotiate(answers: seq<Answer>, start: nat, last: nat) returns (lo: nat, hi: nat)
    requires start <= last <= U32_MAX
    ensures lo <= start && last <= hi <= U32_MAX
    ensures AnswersCover(answers, start, last) ==>
      forall x: nat :: AllAnswers(answers, x) && x <= U32_MAX <==> lo <= x <= hi
  {
    lo, hi := 0, U32_MAX;
    var k := 0;
    while k < |answers|
      invariant k <= |answers| && hi <= U32_MAX
      invariant forall x: nat :: AllAnswers(answers[..k], x) && x <= U32_MAX <==> lo <= x <= hi
    {
      ghost var lo0, hi0 := lo, hi;
      lo := Max(lo, answers[k].0);
      hi := Min(hi, AnswerLast(answers[k]));
      k := k + 1;
      forall x: nat ensures AllAnswers(answers[..k], x) && x <= U32_MAX <==> lo <= x <= hi {
        OneMoreAnswer(answers, k - 1, x);
        assert AllAnswers(answers[..k - 1], x) && x <= U32_MAX <==> lo0 <= x <= hi0;
      }
    }
    assert answers[..k] == answers;
    lo := Min(lo, start);
    hi := Max(hi, last);
  }

  // The system pages of the range a non-exact write unwatches.
  method UnwatchWindow(g: Geometry, answers: seq<Answer>, start: nat, last: nat) returns (first: nat, end: nat)
    requires g.Valid() && g.physicalOffset <= start <= last < g.physicalOffset + g.heapSize
    ensures first <= g.SystemPageOf(start - g.physicalOffset)
    ensures g.SystemPageOf(last - g.physicalOffset) <= end < g.SystemPageCount()
    ensures AnswersCover(answers, start, last) ==> IsWindow(g, answers, start, last, first, end)
  {
    var lo, hi := Negotiate(answers, start, last);
    AlignedBounds(start);
    AlignedBounds(last);
    lo := Max(lo, AlignedBelow(start));
    hi := Min(hi, AlignedBelow(last) + (MAX_UNWATCH_EXCESS - 1));
    lo := SatSub(lo, g.physicalOffset);
    hi := SatSub(hi, g.physicalOffset);
    lo := Min(lo, g.heapSize - 1);
    hi := Min(hi, g.heapSize - 1);
    first, end := g.SystemPageOf(lo), g.SystemPageOf(hi);
    PageOfMono(g, lo, start - g.physicalOffset);
    PageOfMono(g, last - g.physicalOffset, hi);
    PageInHeap(g, hi);
    if AnswersCover(answers, start, last) {
      forall x: nat ensures MayUnwatch(g, answers, start, last, x) <==>
                            lo + g.physicalOffset <= x <= hi + g.physicalOffset {
      }
      IntervalIsWindow(g, answers, start, last, lo, hi);
    }
  }

  // The window is exactly the system pages that something unwatched lies in.
  ghost predicate IsWindow(g: Geometry, answers: seq<Answer>, start: nat, last: nat, first: nat, end: nat)
    requires g.Valid()
  {
    forall page: nat :: first <= page <= end <==> TouchesUnwatched(g, answers, start, last, page)
  }

  ghost predicate TouchesUnwatched(g: Geometry, answers: seq<Answer>, start: nat, last: nat, page: nat)
    requires g.Valid()
  {
    exists x: nat :: MayUnwatch(g, answers, start, last, x) && g.SystemPageOf(x - g.physicalOffset) == page
  }

  // An answer that starts and ends between system pages, or outside the heap.
  predicate IsAligned(g: Geometry, a: Answer)
    requires g.Valid()
  {
    && (a.0 <= g.physicalOffset || (a.0 - g.physicalOffset + g.hostOffset) % g.systemPage == 0)
    && (AnswerLast(a) < g.physicalOffset || g.physicalOffset + g.heapSize <= AnswerLast(a) + 1 ||
        (AnswerLast(a) + 1 - g.physicalOffset + g.hostOffset) % g.systemPage == 0)
  }

  // Where answers are, the callbacks can do without every byte the pages of the
  // window show.
  lemma WindowIsAgreed(g: Geometry, answers: seq<Answer>, start: nat, last: nat, first: nat, end: nat, y: nat)
    requires g.Valid() && IsWindow(g, answers, start, last, first, end)
    requires forall k :: 0 <= k < |answers| ==> IsAligned(g, answers[k])
    requires g.physicalOffset <= y < g.physicalOffset + g.heapSize
    requires first <= g.SystemPageOf(y - g.physicalOffset) <= end
    ensures AllAnswers(answers, y)
  {
    var page := g.SystemPageOf(y - g.physicalOffset);
    assert TouchesUnwatched(g, answers, start, last, page);
    var x: nat :| MayUnwatch(g, answers, start, last, x) && g.SystemPageOf(x - g.physicalOffset) == page;
    forall k | 0 <= k < |answers| ensures InAnswer(answers[k], y) {
      assert InAnswer(answers[k], x) && IsAligned(g, answers[k]);
      PageInAnswer(g, answers[k], x, y);
    }
  }

  // An aligned answer has both of two bytes of one page, or neither.
  lemma PageInAnswer(g: Geometry, a: Answer, x: nat, y: nat)
    requires g.Valid() && IsAligned(g, a) && InAnswer(a, x)
    requires g.physicalOffset <= x < g.physicalOffset + g.heapSize
    requires g.physicalOffset <= y < g.physicalOffset + g.heapSize
    requires g.SystemPageOf(x - g.physicalOffset) == g.SystemPageOf(y - g.physicalOffset)
    ensures InAnswer(a, y)
  {
    var d, m := g.hostOffset - g.physicalOffset, g.systemPage;
    if g.physicalOffset < a.0 {
      SameSide(a.0 + d, x + d, y + d, m);
    }
    if AnswerLast(a) + 1 < g.physicalOffset + g.heapSize {
      SameSide(AnswerLast(a) + 1 + d, x + d, y + d, m);
    }
  }

  // Two numbers of one block are on the same side of a multiple.
  lemma SameSide(b: nat, x: nat, y: nat, m: nat)
    requires 0 < m && b % m == 0 && x / m == y / m
    ensures b <= x <==> b <= y
  {
    DivMul(b, m);
    DivMul(x, m);
    DivMul(y, m);
    MulStep(b / m, x / m, m);
    MulStep(x / m, b / m, m);
  }

  lemma IntervalIsWindow(g: Geometry, answers: seq<Answer>, start: nat, last: nat, lo: nat, hi: nat)
    requires g.Valid() && lo <= hi
    requires forall x: nat :: MayUnwatch(g, answers, start, last, x) <==>
      lo + g.physicalOffset <= x <= hi + g.physicalOffset
    ensures IsWindow(g, answers, start, last, g.SystemPageOf(lo), g.SystemPageOf(hi))
  {
    forall page: nat
      ensures g.SystemPageOf(lo) <= page <= g.SystemPageOf(hi) <==> TouchesUnwatched(g, answers, start, last, page)
    {
      if g.SystemPageOf(lo) <= page <= g.SystemPageOf(hi) {
        var x := ByteOfPage(g, lo, hi, page);
        assert MayUnwatch(g, answers, start, last, x + g.physicalOffset);
        assert g.SystemPageOf(x + g.physicalOffset - g.physicalOffset) == page;
      }
      if TouchesUnwatched(g, answers, start, last, page) {
        var x: nat :| MayUnwatch(g, answers, start, last, x) && g.SystemPageOf(x - g.physicalOffset) == page;
        PageOfMono(g, lo, x - g.physicalOffset);
        PageOfMono(g, x - g.physicalOffset, hi);
      }
    }
  }

  // A byte between two others in any page between theirs.
  lemma ByteOfPage(g: Geometry, lo: nat, hi: nat, page: nat) returns (x: nat)
    requires 0 < g.systemPage && lo <= hi && g.SystemPageOf(lo) <= page <= g.SystemPageOf(hi)
    ensures lo <= x <= hi && g.SystemPageOf(x) == page
  {
    DivMul(lo + g.hostOffset, g.systemPage);
    DivMul(hi + g.hostOffset, g.systemPage);
    MulStep(g.SystemPageOf(lo), page, g.systemPage);
    MulStep(page, g.SystemPageOf(hi), g.systemPage);
    if page == g.SystemPageOf(lo) {
      x := lo;
    } else {
      x := page * g.systemPage - g.hostOffset;
      DivUnique(x + g.hostOffset, g.systemPage, page, 0);
    }
  }

  // Each byte one write may unwatch is in a 4 MB block that the request has
  // bytes in, or between two such.
  lemma UnwatchedIsNear(g: Geometry, answers: seq<Answer>, start: nat, last: nat, x: nat)
    requires start <= last
    ensures MayUnwatch(g, answers, start, last, x) <==>
      && AllAnswers(answers, x) && g.physicalOffset <= x < g.physicalOffset + g.heapSize
      && start / 0x40_0000 <= x / 0x40_0000 <= last / 0x40_0000
  {
  }

  // An answer is the bytes of its range, one if it has none, cut to 32 bits.
  lemma AnswerIsRange(a: Answer, x: nat)
    ensures InAnswer(a, x) <==> x < ADDRESS_SPACE && (x == a.0 || a.0 <= x < a.0 + a.1)
  {
  }

  lemma AlignedBounds(x: nat)
    ensures AlignedBelow(x) <= x < AlignedBelow(x) + MAX_UNWATCH_EXCESS
  {
  }

  lemma PageOfMono(g: Geometry, a: nat, b: nat)
    requires 0 < g.systemPage && a <= b
    ensures g.SystemPageOf(a) <= g.SystemPageOf(b)
  {
    DivMul(a + g.hostOffset, g.systemPage);
    DivMul(b + g.hostOffset, g.systemPage);
    MulStep(g.SystemPageOf(b), g.SystemPageOf(a), g.systemPage);
  }

  // The bitmap has a flag for every byte of the heap.
  lemma PageInHeap(g: Geometry, relative: nat)
    requires 0 < g.systemPage && relative < g.heapSize
    ensures g.SystemPageOf(relative) < g.SystemPageCount()
  {
    var x := relative + g.hostOffset;
    DivMul(x, g.systemPage);
    var y := g.heapSize + g.hostOffset + (g.systemPage - 1);
    DivMul(y, g.systemPage);
    MulStep(g.SystemPageCount(), g.SystemPageOf(relative), g.systemPage);
  }

  // --- The range callbacks are told of ---

  // The first physical byte system page `first` shows.
  function ReportStart(g: Geometry, first: nat): nat {
    SatSub(first * g.systemPage, g.hostOffset) + g.physicalOffset
  }

  // The bytes pages first..last show, cut to the heap.
  function ReportLength(g: Geometry, first: nat, last: nat): int {
    var start := ReportStart(g, first);
    Min(SatSub(last * g.systemPage + g.systemPage, g.hostOffset) + g.physicalOffset - start,
        g.heapSize - (start - g.physicalOffset))
  }

  // The report is every byte the system pages of a request show.
  lemma ReportCovers(g: Geometry, a: nat, b: nat, x: nat)
    requires g.Valid() && a <= b < g.heapSize && x < g.heapSize
    ensures var first, last := g.SystemPageOf(a), g.SystemPageOf(b);
      var start, length := ReportStart(g, first), ReportLength(g, first, last);
      && 0 < length && g.physicalOffset <= start && start + length <= g.physicalOffset + g.heapSize
      && (start <= x + g.physicalOffset < start + length <==> first <= g.SystemPageOf(x) <= last)
  {
    var first, last, page := g.SystemPageOf(a), g.SystemPageOf(b), g.SystemPageOf(x);
    DivMul(a + g.hostOffset, g.systemPage);
    DivMul(b + g.hostOffset, g.systemPage);
    DivMul(x + g.hostOffset, g.systemPage);
    PageOfMono(g, a, b);
    MulStep(first, last, g.systemPage);
    MulStep(page, first, g.systemPage);
    MulStep(first, page, g.systemPage);
    MulStep(page, last, g.systemPage);
    MulStep(last, page, g.systemPage);
  }

  // The ends of the report are in the first and last page of the request.
  lemma ReportEnds(g: Geometry, a: nat, b: nat)
    requires g.Valid() && a <= b < g.heapSize
    ensures var first, last := g.SystemPageOf(a), g.SystemPageOf(b);
      var start, length := ReportStart(g, first), ReportLength(g, first, last);
      && 0 < length && g.physicalOffset <= start && start + length <= g.physicalOffset + g.heapSize
      && g.SystemPageOf(start - g.physicalOffset) == first
      && g.SystemPageOf(start + length - 1 - g.physicalOffset) == last
  {
    var first, last := g.SystemPageOf(a), g.SystemPageOf(b);
    var start, length := ReportStart(g, first), ReportLength(g, first, last);
    ReportCovers(g, a, b, a);
    ReportCovers(g, a, b, b);
    var s, e := start - g.physicalOffset, start + length - 1 - g.physicalOffset;
    ReportCovers(g, a, b, s);
    ReportCovers(g, a, b, e);
    PageOfMono(g, s, a);
    PageOfMono(g, b, e);
  }

  // --- Which system pages a guest protection change reaches ---

  // The guest pages of a byte range, in system pages.
  function GuestFirst(g: Geometry, relative: nat): nat
    requires 0 < g.systemPage && 0 < g.guestPage
  {
    g.SystemPageOf(relative / g.guestPage * g.guestPage)
  }

  function GuestLast(g: Geometry, relative: nat, size: nat): nat
    requires 0 < g.systemPage && 0 < g.guestPage && 0 < size
  {
    g.SystemPageOf((relative + size - 1) / g.guestPage * g.guestPage + (g.guestPage - 1))
  }

  // The range touches every system page of the guest pages it lies in.
  predicate TouchesWholeGuestPages(g: Geometry, relative: nat, size: nat)
    requires 0 < g.systemPage && 0 < g.guestPage && 0 < size
  {
    && g.SystemPageOf(relative) == GuestFirst(g, relative)
    && g.SystemPageOf(relative + size - 1) == GuestLast(g, relative, size)
  }

  predicate HasByte(range: Option<(nat, nat)>, x: nat) {
    range.Some? && range.value.0 <= x <= range.value.1
  }

  // The bytes of a request clipped to the heap, as its first and last.
  function Clip(relative: int, size: nat, heapSize: nat): (r: Option<(nat, nat)>)
    ensures r.Some? ==> r.value.0 <= r.value.1 < heapSize && relative <= r.value.0 && r.value.1 < relative + size
    ensures forall x: nat :: HasByte(r, x) <==> x < heapSize && relative <= x < relative + size
  {
    var a := if relative < 0 then 0 else relative;
    var end := if relative + size <= heapSize then relative + size else heapSize;
    if a < end then Some((a, end - 1)) else None
  }

  // Guest pages that are whole system pages, on the host too.
  predicate WholeSystemPages(g: Geometry) {
    0 < g.systemPage && 0 < g.guestPage && g.guestPage % g.systemPage == 0 && g.hostOffset % g.systemPage == 0
  }

  // The system pages whose host protection a guest protection change sets, and
  // those it reports first.
  predicate Reached(g: Geometry, relative: nat, size: nat, p: nat)
    requires 0 < g.systemPage && 0 < g.guestPage && 0 < size
  {
    GuestFirst(g, relative) <= p <= GuestLast(g, relative, size)
  }

  predicate Reported(g: Geometry, relative: nat, size: nat, p: nat)
    requires 0 < g.systemPage && 0 < size
  {
    g.SystemPageOf(relative) <= p <= g.SystemPageOf(relative + size - 1)
  }

  // It reaches only pages it reports exactly when its range touches every
  // system page of its guest pages. Otherwise a watched page can become writable
  // with its callbacks told nothing.
  lemma WhenReachIsReported(g: Geometry, relative: nat, size: nat)
    requires 0 < g.systemPage && 0 < g.guestPage && 0 < size
    ensures TouchesWholeGuestPages(g, relative, size) <==>
      forall p: nat :: Reached(g, relative, size, p) ==> Reported(g, relative, size, p)
  {
    var x := relative + size - 1;
    DivMul(relative, g.guestPage);
    DivMul(x, g.guestPage);
    PageOfMono(g, relative / g.guestPage * g.guestPage, relative);
    PageOfMono(g, relative, x);
    PageOfMono(g, x, x / g.guestPage * g.guestPage + (g.guestPage - 1));
    assert Reached(g, relative, size, GuestFirst(g, relative))
           && Reached(g, relative, size, GuestLast(g, relative, size));
  }

  // 4 KB at the second 4 KB of a 64 KB guest page, with 4 KB system pages: the
  // protection of the whole guest page changes, and one system page is reported.
  lemma UnalignedReachesUnreported()
    ensures var g := Geometry(0x10_0000, 0, 0, 0x1000, 0x1_0000, 0x1000);
      && g.Valid() && WholeSystemPages(g)
      && (forall p: nat :: Reached(g, 0x1000, 0x1000, p) <==> p < 16)
      && (forall p: nat :: Reported(g, 0x1000, 0x1000, p) <==> p == 1)
      && !TouchesWholeGuestPages(g, 0x1000, 0x1000)
  {
  }

  // A range does so exactly when it starts in the first and ends in the last
  // system page of its guest pages, as every guest page aligned range does.
  lemma WhenWholeGuestPages(g: Geometry, relative: nat, size: nat)
    requires WholeSystemPages(g) && 0 < size
    ensures TouchesWholeGuestPages(g, relative, size) <==>
      relative % g.guestPage < g.systemPage && (relative + size - 1) % g.guestPage >= g.guestPage - g.systemPage
  {
    StartInFirst(g, relative);
    EndInLast(g, relative + size - 1);
  }

  lemma StartInFirst(g: Geometry, x: nat)
    requires WholeSystemPages(g)
    ensures g.SystemPageOf(x) == g.SystemPageOf(x / g.guestPage * g.guestPage) <==> x % g.guestPage < g.systemPage
  {
    var m, k := g.guestPage, g.systemPage;
    DivMul(x, m);
    WholePages(g, x / m);
    SamePage(x / m * m, x % m, x / m * (m / k), g.hostOffset, g.hostOffset / k, k);
  }

  // Where a guest page starts and ends, in system pages.
  lemma WholePages(g: Geometry, n: nat)
    requires WholeSystemPages(g)
    ensures n * g.guestPage == n * (g.guestPage / g.systemPage) * g.systemPage
    ensures g.hostOffset == g.hostOffset / g.systemPage * g.systemPage
    ensures g.guestPage / g.systemPage > 0
    ensures n * g.guestPage + g.guestPage - g.systemPage ==
            (n * (g.guestPage / g.systemPage) + (g.guestPage / g.systemPage - 1)) * g.systemPage
  {
    var m, k := g.guestPage, g.systemPage;
    DivMul(m, k);
    DivMul(g.hostOffset, k);
    MulStep(m / k, 0, k);
    Associate(n, m / k, k);
    Distribute(n * (m / k), m / k - 1, k);
    Distribute(m / k, -1, k);
  }

  lemma EndInLast(g: Geometry, x: nat)
    requires WholeSystemPages(g)
    ensures g.SystemPageOf(x) == g.SystemPageOf(x / g.guestPage * g.guestPage + (g.guestPage - 1)) <==>
            x % g.guestPage >= g.guestPage - g.systemPage
  {
    var m, k := g.guestPage, g.systemPage;
    DivMul(x, m);
    WholePages(g, x / m);
    LastPage(x, x / m * m + m, x / m * (m / k) + (m / k - 1), g.hostOffset, g.hostOffset / k, k);
  }

  lemma LastPage(x: nat, end: nat, q: nat, offset: nat, o: nat, k: nat)
    requires 0 < k && offset == o * k && end - k == q * k && x < end
    ensures (x + offset) / k == (end - 1 + offset) / k <==> x >= end - k
  {
    AbovePage(q * k, x, q, o, k);
    AbovePage(q * k, end - 1, q, o, k);
  }

  lemma AbovePage(base: nat, x: nat, q: nat, o: nat, k: nat)
    requires 0 < k && base == q * k && x < base + k
    ensures (x + o * k) / k == q + o <==> base <= x
  {
    Distribute(q, o, k);
    DivMul(x + o * k, k);
    MulStep((x + o * k) / k, q + o, k);
    if base <= x {
      DivUnique(x + o * k, k, q + o, x - base);
    }
  }

  lemma SamePage(base: nat, delta: nat, q: nat, offset: nat, o: nat, k: nat)
    requires 0 < k && base == q * k && offset == o * k
    ensures (base + delta + offset) / k == (base + offset) / k <==> delta < k
  {
    Distribute(q, o, k);
    DivUnique(base + offset, k, q + o, 0);
    DivMul(base + delta + offset, k);
    MulStep(q + o, (base + delta + offset) / k, k);
    if delta < k {
      DivUnique(base + delta + offset, k, q + o, delta);
    }
  }
}
