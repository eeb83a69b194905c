// What the operations of a watched view do to its pages, what they tell its
// callbacks, and which pages are owed a report afterwards (PhysicalHeap of
// memory.cc).
module WatchOutcomes {
  import opened Wrappers
  import opened PageTable
  import opened Bits
  import opened WatchWords
  import opened GuestAccess
  import opened Watches
  import opened DroppedReads
  import BaseHeaps

  // The watch words of a view and what the host lets a thread do with each of
  // its system pages.
  datatype Watched = Watched(invalidation: Words, read: Words, host: seq<PageAccess>) {
    ghost predicate Valid() {
      |invalidation| == |read| && |host| <= 64 * |read|
    }

    ghost function Page(i: nat): PageWatch
      requires Valid() && i < |host|
    {
      PageWatch(Flag(invalidation, i), Flag(read, i), host[i])
    }
  }

  // What protection arming gives a page it protects.
  function ArmedAccess(onRead: bool): PageAccess {
    if onRead then NoAccess else ReadOnly
  }

  // Arming has reached page `i`, and the pages of the run a..b still have to be
  // protected.
  ghost predicate ArmedTo(s: Watched, s0: Watched, guest: nat -> PageAccess, first: nat, i: nat, a: nat, b: nat,
                          onWrite: bool, onRead: bool)
    requires s.Valid() && s0.Valid() && |s.host| == |s0.host|
  {
    forall p :: 0 <= p < |s.host| ==> PageArmedTo(s, s0, guest(p), first, i, a, b, onWrite, onRead, p)
  }

  ghost predicate PageArmedTo(s: Watched, s0: Watched, guest: PageAccess, first: nat, i: nat, a: nat, b: nat,
                              onWrite: bool, onRead: bool, p: nat)
    requires s.Valid() && s0.Valid() && |s.host| == |s0.host| && p < |s.host|
  {
    var armed := ArmPage(s0.Page(p), guest, onWrite, onRead);
    if first <= p < i then
      if a <= p < b then s.Page(p) == armed.(host := s0.host[p]) && armed.host == ArmedAccess(onRead)
      else s.Page(p) == armed
    else s.Page(p) == s0.Page(p)
  }

  // Every page of the range has the flags arming would set.
  ghost predicate AllArmed(invalidation: Words, read: Words, first: nat, last: nat, onWrite: bool, onRead: bool)
    requires |invalidation| == |read| && last < 64 * |read|
  {
    forall p :: first <= p <= last ==> (onWrite ==> Flag(invalidation, p)) && (onRead ==> Flag(read, p))
  }

  // The pages first..last that have an invalidation watch after arming them,
  // those that had one before included.
  ghost function NowArmed(s: Watched, first: nat, last: nat, onWrite: bool): set<nat>
    requires s.Valid() && first <= last < |s.host|
  {
    if onWrite then set p | first <= p <= last && s.Page(p).invalidation else {}
  }

  // Arming that has reached the end armed every page of the range.
  lemma ArmedAll(s: Watched, s0: Watched, guest: nat -> PageAccess, first: nat, last: nat, onWrite: bool, onRead: bool)
    requires s.Valid() && s0.Valid() && |s.host| == |s0.host| && first <= last < |s.host|
    requires ArmedTo(s, s0, guest, first, last + 1, last + 1, last + 1, onWrite, onRead)
    ensures forall i :: 0 <= i < |s.host| ==>
      s.Page(i) == if first <= i <= last then ArmPage(s0.Page(i), guest(i), onWrite, onRead) else s0.Page(i)
  {
    forall i | 0 <= i < |s.host|
      ensures s.Page(i) == if first <= i <= last then ArmPage(s0.Page(i), guest(i), onWrite, onRead) else s0.Page(i)
    {
      assert PageArmedTo(s, s0, guest(i), first, last + 1, last + 1, last + 1, onWrite, onRead, i);
    }
  }

  lemma SkipArmed(s: Watched, s0: Watched, guest: nat -> PageAccess, first: nat, i: nat, last: nat,
                  onWrite: bool, onRead: bool)
    requires s.Valid() && s0.Valid() && |s.host| == |s0.host| && first <= i <= last && (onWrite || onRead)
    requires last < |s.host| && AllArmed(s.invalidation, s.read, i, last, onWrite, onRead)
    requires ArmedTo(s, s0, guest, first, i, i, i, onWrite, onRead)
    ensures ArmedTo(s, s0, guest, first, last + 1, last + 1, last + 1, onWrite, onRead)
  {
    forall p | 0 <= p < |s.host|
      ensures PageArmedTo(s, s0, guest(p), first, last + 1, last + 1, last + 1, onWrite, onRead, p)
    {
      assert PageArmedTo(s, s0, guest(p), first, i, i, i, onWrite, onRead, p);
    }
  }

  // Protecting the pending run.
  lemma RunProtected(s: Watched, s': Watched, s0: Watched, guest: nat -> PageAccess, first: nat, i: nat, a: nat, b: nat,
                     onWrite: bool, onRead: bool)
    requires s.Valid() && s'.Valid() && s0.Valid() && |s.host| == |s'.host| == |s0.host| && first <= a <= b <= i
    requires ArmedTo(s, s0, guest, first, i, a, b, onWrite, onRead)
    requires s'.invalidation == s.invalidation && s'.read == s.read
    requires forall p :: 0 <= p < |s.host| ==> s'.host[p] == if a <= p < b then ArmedAccess(onRead) else s.host[p]
    ensures ArmedTo(s', s0, guest, first, i, i, i, onWrite, onRead)
  {
    forall p | 0 <= p < |s.host| ensures PageArmedTo(s', s0, guest(p), first, i, i, i, onWrite, onRead, p) {
      assert PageArmedTo(s, s0, guest(p), first, i, a, b, onWrite, onRead, p);
      assert s'.Page(p) == s.Page(p).(host := s'.host[p]);
    }
  }

  // Arming page `i`, which joins the pending run where it has to be protected.
  lemma PageArmed(s: Watched, s': Watched, s0: Watched, guest: nat -> PageAccess, first: nat, i: nat, a: nat,
                  onWrite: bool, onRead: bool, protect: bool)
    requires s.Valid() && s'.Valid() && s0.Valid() && s.host == s'.host && |s.host| == |s0.host|
    requires first <= a <= i < |s.host|
    requires ArmedTo(s, s0, guest, first, i, a, i, onWrite, onRead)
    requires forall p :: 0 <= p < |s.host| && p != i ==> s'.Page(p) == s.Page(p)
    requires var armed := ArmPage(s.Page(i), guest(i), onWrite, onRead);
      && s'.Page(i) == armed.(host := s.host[i])
      && armed.host == (if protect then ArmedAccess(onRead) else s.host[i])
    ensures ArmedTo(s', s0, guest, first, i + 1, a, if protect then i + 1 else i, onWrite, onRead)
  {
    var b := if protect then i + 1 else i;
    forall p | 0 <= p < |s.host| ensures PageArmedTo(s', s0, guest(p), first, i + 1, a, b, onWrite, onRead, p) {
      assert PageArmedTo(s, s0, guest(p), first, i, a, i, onWrite, onRead, p);
    }
  }

  // --- What callbacks are told ---

  datatype Reason = Invalidated | ToRead | ToWrite | ToDiscard

  // A call of every invalidation callback, or of every read callback.
  datatype Call = Call(start: int, length: int, reason: Reason)

  // The bytes system pages first..last show, cut to the heap.
  function ReportCall(g: Geometry, first: nat, last: nat, reason: Reason): Call {
    Call(ReportStart(g, first), ReportLength(g, first, last), reason)
  }

  // The bytes of the pages whose read watches a write drops, not cut.
  function NoticeCall(g: Geometry, n: Notice): Call {
    var end := SatSub((n.last + 1) * g.systemPage, g.hostOffset) + g.physicalOffset;
    Call(ReportStart(g, n.first), end - ReportStart(g, n.first), if n.discard then ToDiscard else ToWrite)
  }

  function NoticeCalls(g: Geometry, ns: seq<Notice>): (r: seq<Call>)
    ensures |r| == |ns| && forall i :: 0 <= i < |ns| ==> r[i] == NoticeCall(g, ns[i])
  {
    seq(|ns|, i requires 0 <= i < |ns| => NoticeCall(g, ns[i]))
  }

  // A notice is of every heap byte its pages show.
  lemma NoticeShows(g: Geometry, n: Notice, x: nat)
    requires g.Valid() && n.first <= n.last && x < g.heapSize
    ensures var c := NoticeCall(g, n);
      c.start <= x + g.physicalOffset < c.start + c.length <==> Tells(n, g.SystemPageOf(x))
  {
    var y, from, end := x + g.hostOffset, n.first * g.systemPage, (n.last + 1) * g.systemPage;
    QuotientBound(y, g.systemPage, n.first);
    QuotientBound(y, g.systemPage, n.last + 1);
    assert Tells(n, g.SystemPageOf(x)) <==> from <= y < end;
  }

  lemma QuotientBound(y: nat, m: nat, q: nat)
    requires 0 < m
    ensures q <= y / m <==> q * m <= y
  {
    DivMul(y, m);
    MulStep(q, y / m, m);
    MulStep(y / m, q, m);
  }

  // A write to bytes a..b of the heap tells invalidation callbacks of its pages,
  // then read callbacks of the read watches dropped from lo..hi.
  ghost predicate CallsMade(g: Geometry, read: Words, a: nat, b: nat, lo: nat, hi: nat, discarded: bool,
                            before: seq<Call>, after: seq<Call>)
    requires g.Valid() && hi < 64 * |read|
  {
    exists ns ::
      && AreNotices(ns, read, lo, hi, a + g.hostOffset, b + 1 + g.hostOffset, g.systemPage, discarded)
      && after == before + [ReportCall(g, g.SystemPageOf(a), g.SystemPageOf(b), Invalidated)] + NoticeCalls(g, ns)
  }

  // Calls of some callbacks tell of a heap byte.
  ghost predicate TellsByte(g: Geometry, calls: seq<Call>, reason: Reason, x: nat) {
    exists i :: 0 <= i < |calls| && CallTells(g, calls[i], reason, x)
  }

  predicate CallTells(g: Geometry, c: Call, reason: Reason, x: nat) {
    c.reason == reason && c.start <= x + g.physicalOffset < c.start + c.length
  }

  // The call for a write's own pages, and those for the read watches it drops.
  function WriteCalls(g: Geometry, a: nat, b: nat, ns: seq<Notice>): (r: seq<Call>)
    requires 0 < g.systemPage
    ensures |r| == 1 + |ns|
  {
    [ReportCall(g, g.SystemPageOf(a), g.SystemPageOf(b), Invalidated)] + NoticeCalls(g, ns)
  }

  lemma WriteCallTells(g: Geometry, a: nat, b: nat, ns: seq<Notice>, reason: Reason, x: nat, i: nat)
    requires g.Valid() && a <= b < g.heapSize && x < g.heapSize && i <= |ns| && InOrder(ns)
    ensures var page := g.SystemPageOf(x);
      CallTells(g, WriteCalls(g, a, b, ns)[i], reason, x) <==>
      if i == 0 then reason == Invalidated && g.SystemPageOf(a) <= page <= g.SystemPageOf(b)
      else reason == (if ns[i - 1].discard then ToDiscard else ToWrite) && Tells(ns[i - 1], page)
  {
    if i == 0 {
      ReportCovers(g, a, b, x);
    } else {
      NoticeShows(g, ns[i - 1], x);
    }
  }

  lemma WriteCallsTell(g: Geometry, a: nat, b: nat, ns: seq<Notice>, x: nat)
    requires g.Valid() && a <= b < g.heapSize && x < g.heapSize && InOrder(ns)
    ensures var made, page := WriteCalls(g, a, b, ns), g.SystemPageOf(x);
      && (TellsByte(g, made, Invalidated, x) <==> g.SystemPageOf(a) <= page <= g.SystemPageOf(b))
      && (TellsByte(g, made, ToDiscard, x) <==> ToldAs(ns, page, true))
      && (TellsByte(g, made, ToWrite, x) <==> ToldAs(ns, page, false))
      && !TellsByte(g, made, ToRead, x)
  {
    var made, page := WriteCalls(g, a, b, ns), g.SystemPageOf(x);
    forall i: nat, reason | i < |made|
      ensures CallTells(g, made[i], reason, x) <==>
              if i == 0 then reason == Invalidated && g.SystemPageOf(a) <= page <= g.SystemPageOf(b)
              else reason == (if ns[i - 1].discard then ToDiscard else ToWrite) && Tells(ns[i - 1], page)
    {
      WriteCallTells(g, a, b, ns, reason, x, i);
    }
    forall discard | ToldAs(ns, page, discard) ensures TellsByte(g, made, if discard then ToDiscard else ToWrite, x) {
      var k :| 0 <= k < |ns| && Tells(ns[k], page) && ns[k].discard == discard;
      assert CallTells(g, made[k + 1], if discard then ToDiscard else ToWrite, x);
    }
    assert CallTells(g, made[0], Invalidated, x) <==> g.SystemPageOf(a) <= page <= g.SystemPageOf(b);
  }

  // A write tells invalidation callbacks of exactly the bytes its system pages
  // show. It tells read callbacks of the bytes from the first to the last page
  // whose read watch it drops: as discarded those of a page all of whose bytes
  // the request discards, and as written the others.
  lemma CallsTell(g: Geometry, read: Words, a: nat, b: nat, lo: nat, hi: nat, discarded: bool, before: seq<Call>,
                  after: seq<Call>, x: nat)
    requires g.Valid() && a <= b < g.heapSize && hi < 64 * |read| && x < g.heapSize
    requires CallsMade(g, read, a, b, lo, hi, discarded, before, after)
    ensures |before| <= |after| && after[..|before|] == before
    ensures var made, page := after[|before|..], g.SystemPageOf(x);
      var gone := discarded &&
        forall y: nat | InPage(y, g.systemPage, page) :: a + g.hostOffset <= y <= b + g.hostOffset;
      && (TellsByte(g, made, Invalidated, x) <==> g.SystemPageOf(a) <= page <= g.SystemPageOf(b))
      && (TellsByte(g, made, ToDiscard, x) <==> BetweenDropped(read, lo, hi, page) && gone)
      && (TellsByte(g, made, ToWrite, x) <==> BetweenDropped(read, lo, hi, page) && !gone)
      && !TellsByte(g, made, ToRead, x)
  {
    var page := g.SystemPageOf(x);
    var ns: seq<Notice> :| AreNotices(ns, read, lo, hi, a + g.hostOffset, b + 1 + g.hostOffset, g.systemPage, discarded)
      && after == before + [ReportCall(g, g.SystemPageOf(a), g.SystemPageOf(b), Invalidated)] + NoticeCalls(g, ns);
    assert after[|before|..] == WriteCalls(g, a, b, ns);
    WriteCallsTell(g, a, b, ns, x);
    WhollyInsideBytes(page, a + g.hostOffset, b + 1 + g.hostOffset, g.systemPage);
    ToldOnceAs(ns, read, lo, hi, a + g.hostOffset, b + 1 + g.hostOffset, g.systemPage, discarded, page);
  }

  // --- Which pages are owed a report ---

  // Pages armed for invalidation, pages the callbacks were told of, and pages that
  // show a byte they all agreed to unwatch (every byte, where their answers end
  // between pages).
  datatype Event = Armed(pages: set<nat>) | Notified(first: nat, last: nat) | Agreed(first: nat, last: nat) {
    predicate Settles(p: nat) {
      !Armed? && first <= p <= last
    }
  }

  // The pages outside first..last.
  ghost function Outside(owed: set<nat>, first: nat, last: nat): set<nat> {
    set p | p in owed && !(first <= p <= last)
  }

  ghost function After(owed: set<nat>, e: Event): set<nat> {
    match e
    case Armed(pages) => owed + pages
    case Notified(first, last) => Outside(owed, first, last)
    case Agreed(first, last) => Outside(owed, first, last)
  }

  // The pages owed a report after a history.
  ghost function Owed(history: seq<Event>): set<nat> {
    if history == [] then {} else After(Owed(history[..|history| - 1]), history[|history| - 1])
  }

  // A page was armed, and nothing settled it since.
  ghost predicate Unsettled(history: seq<Event>, p: nat) {
    exists k :: 0 <= k < |history| && ArmedAt(history, k, p) && forall j :: k < j < |history| ==> !history[j].Settles(p)
  }

  predicate ArmedAt(history: seq<Event>, k: nat, p: nat)
    requires k < |history|
  {
    history[k].Armed? && p in history[k].pages
  }

  lemma OwedNext(history: seq<Event>, e: Event)
    ensures Owed(history + [e]) == After(Owed(history), e)
  {
    assert (history + [e])[..|history|] == history;
  }

  // A page is owed a report exactly when it was armed and not settled since.
  lemma {:induction false} OwedIsUnsettled(history: seq<Event>, p: nat)
    ensures p in Owed(history) <==> Unsettled(history, p)
  {
    if history != [] {
      var n := |history| - 1;
      var rest := history[..n];
      OwedIsUnsettled(rest, p);
      if Unsettled(rest, p) {
        var k :| 0 <= k < n && ArmedAt(rest, k, p) && forall j :: k < j < n ==> !rest[j].Settles(p);
        assert ArmedAt(history, k, p);
        assert history[n].Settles(p) || Unsettled(history, p);
      }
      if Unsettled(history, p) {
        var k :| 0 <= k <= n && ArmedAt(history, k, p) && forall j :: k < j <= n ==> !history[j].Settles(p);
        assert k < n ==> ArmedAt(rest, k, p) && !history[n].Settles(p);
      }
      assert ArmedAt(history, n, p) ==> Unsettled(history, p);
    }
  }

  // --- What each trigger does ---

  // What a view has at one moment.
  datatype Moment = Moment(s: Watched, history: seq<Event>, calls: seq<Call>) {
    ghost predicate Fits(g: Geometry) {
      && g.Valid() && s.Valid() && |s.host| == g.SystemPageCount()
    }
  }

  // How a write is told: its pages alone are unwatched, host protection is
  // lifted, it is told even with nothing watched, and the old contents do not
  // matter.
  datatype Mode = Mode(exact: bool, unprotect: bool, unwatched: bool, discarded: bool)

  const FAULT := Mode(exact := false, unprotect := true, unwatched := false, discarded := false)
  const REMAP := Mode(exact := true, unprotect := true, unwatched := true, discarded := true)
  const PROTECT := Mode(exact := true, unprotect := false, unwatched := true, discarded := false)

  // A write trigger's effect on one page of the window: no watch is left, and a
  // watched page the guest can write is writable again.
  function FirePage(w: PageWatch, guest: PageAccess, unprotect: bool): PageWatch {
    PageWatch(false, false, if unprotect && (w.invalidation || w.read) && guest == ReadWrite then ReadWrite else w.host)
  }

  // A read trigger's effect on one page: a read watch gives way to what the
  // guest and a write watch allow.
  function ReadPage(w: PageWatch, guest: PageAccess, unprotect: bool): PageWatch {
    var target := if guest == NoAccess then NoAccess else if w.invalidation then ReadOnly else guest;
    PageWatch(w.invalidation, false, if unprotect && w.read then target else w.host)
  }

  // Pages first..runStart have the host protection firing gives them, and those
  // of the run from there to `i` are still to be made writable.
  ghost predicate FiredTo(s: Watched, s0: Watched, guest: nat -> PageAccess, first: nat, runStart: nat, i: nat)
    requires s.Valid() && s0.Valid() && |s.host| == |s0.host| && i <= |s.host|
  {
    && (forall p :: 0 <= p < |s.host| ==>
          s.host[p] == if first <= p < runStart then FirePage(s0.Page(p), guest(p), true).host else s0.host[p])
    && forall p :: runStart <= p < i ==> FirePage(s0.Page(p), guest(p), true).host == ReadWrite
  }

  // A page that has to be opened joins the run. One that has not ends it.
  lemma RunGrows(s: Watched, s0: Watched, guest: nat -> PageAccess, first: nat, runStart: nat, i: nat)
    requires s.Valid() && s0.Valid() && |s.host| == |s0.host| && i < |s.host| && s.invalidation == s0.invalidation
    requires s.read == s0.read && FiredTo(s, s0, guest, first, runStart, i)
    requires (s.Page(i).invalidation || s.Page(i).read) && guest(i) == ReadWrite
    ensures FiredTo(s, s0, guest, first, runStart, i + 1)
  {
    assert s0.Page(i).invalidation == s.Page(i).invalidation && s0.Page(i).read == s.Page(i).read;
  }

  lemma RunSkips(s: Watched, s0: Watched, guest: nat -> PageAccess, first: nat, i: nat)
    requires s.Valid() && s0.Valid() && |s.host| == |s0.host| && i < |s.host| && s.invalidation == s0.invalidation
    requires s.read == s0.read && FiredTo(s, s0, guest, first, i, i)
    requires !((s.Page(i).invalidation || s.Page(i).read) && guest(i) == ReadWrite)
    ensures FiredTo(s, s0, guest, first, i + 1, i + 1)
  {
    assert s0.Page(i).invalidation == s.Page(i).invalidation && s0.Page(i).read == s.Page(i).read;
  }

  // Every page of lo..hi fired, and no other changed.
  ghost predicate Fired(s0: Watched, s: Watched, guest: nat -> PageAccess, lo: nat, hi: nat, unprotect: bool)
    requires s0.Valid() && s.Valid() && |s.host| == |s0.host|
  {
    forall p :: 0 <= p < |s.host| ==>
      s.Page(p) == if lo <= p <= hi then FirePage(s0.Page(p), guest(p), unprotect) else s0.Page(p)
  }

  ghost predicate Downgraded(s0: Watched, s: Watched, guest: nat -> PageAccess, first: nat, last: nat, unprotect: bool)
    requires s0.Valid() && s.Valid() && |s.host| == |s0.host|
  {
    forall p :: 0 <= p < |s.host| ==>
      s.Page(p) == if first <= p <= last then ReadPage(s0.Page(p), guest(p), unprotect) else s0.Page(p)
  }

  ghost predicate AnyWatched(s: Watched, first: nat, last: nat)
    requires s.Valid() && last < |s.host|
  {
    exists i :: first <= i <= last && (Flag(s.invalidation, i) || Flag(s.read, i))
  }

  ghost predicate AnyReadWatched(s: Watched, first: nat, last: nat)
    requires s.Valid() && last < |s.host|
  {
    exists i :: first <= i <= last && Flag(s.read, i)
  }

  // A write that is told reports its pages, which are then owed nothing. It may
  // unwatch lo..hi: its own pages if it is exact, or everything the callbacks let
  // it.
  ghost predicate WriteReported(g: Geometry, m0: Moment, m: Moment, a: nat, b: nat, mode: Mode, callbacks: Callbacks,
                                lo: nat, hi: nat)
    requires m0.Fits(g)
  {
    var first, last := g.SystemPageOf(a), g.SystemPageOf(b);
    var start, length := ReportStart(g, first), ReportLength(g, first, last);
    && lo <= first <= last <= hi < |m0.s.host| && 0 < length
    && m.calls == m0.calls + [ReportCall(g, first, last, Invalidated)]
    && IsSettled(g, m0, m, a, b, mode, callbacks(start, length), lo, hi)
  }

  ghost predicate IsSettled(g: Geometry, m0: Moment, m: Moment, a: nat, b: nat, mode: Mode, answers: seq<Answer>,
                            lo: nat, hi: nat)
    requires g.Valid()
  {
    var first, last := g.SystemPageOf(a), g.SystemPageOf(b);
    var start, length := ReportStart(g, first), ReportLength(g, first, last);
    if mode.exact || !mode.unprotect then
      lo == first && hi == last && m.history == m0.history + [Notified(first, last)]
    else if AnswersCover(answers, start, start + length - 1) then
      && IsWindow(g, answers, start, start + length - 1, lo, hi)
      && m.history == m0.history + [Notified(first, last), Agreed(lo, hi)]
    else m.history == m0.history + [Notified(first, last)]
  }

  // It then tells of the read watches it drops.
  ghost predicate IsTold(g: Geometry, m0: Moment, m: Moment, a: nat, b: nat, mode: Mode, callbacks: Callbacks,
                         lo: nat, hi: nat)
    requires m0.Fits(g)
  {
    var first, last := g.SystemPageOf(a), g.SystemPageOf(b);
    var start, length := ReportStart(g, first), ReportLength(g, first, last);
    && lo <= first <= last <= hi < |m0.s.host| && 0 < length
    && CallsMade(g, m0.s.read, a, b, lo, hi, mode.discarded, m0.calls, m.calls)
    && IsSettled(g, m0, m, a, b, mode, callbacks(start, length), lo, hi)
  }

  // Pages lo..hi are owed nothing after a history, and the others what they were.
  ghost predicate StillOwed(before: seq<Event>, after: seq<Event>, lo: nat, hi: nat) {
    forall p :: p in Owed(after) <==> p in Owed(before) && !(lo <= p <= hi)
  }

  // A write told owes its pages nothing, where the callbacks answer around it.
  lemma ToldOwesNothing(g: Geometry, m0: Moment, m: Moment, a: nat, b: nat, mode: Mode, callbacks: Callbacks,
                        lo: nat, hi: nat)
    requires m0.Fits(g) && a <= b < g.heapSize && IsTold(g, m0, m, a, b, mode, callbacks, lo, hi)
    requires !mode.exact && mode.unprotect ==> AnswerAround(callbacks)
    ensures StillOwed(m0.history, m.history, lo, hi)
  {
    ReportEnds(g, a, b);
    var told := Notified(g.SystemPageOf(a), g.SystemPageOf(b));
    OwedNext(m0.history, told);
    OwedNext(m0.history + [told], Agreed(lo, hi));
    assert m0.history + [told] + [Agreed(lo, hi)] == m0.history + [told, Agreed(lo, hi)];
  }

  // It then unwatches.
  ghost predicate WriteTold(g: Geometry, guest: nat -> PageAccess, m0: Moment, m: Moment, a: nat, b: nat, mode: Mode,
                            callbacks: Callbacks, lo: nat, hi: nat)
    requires m0.Fits(g) && m.Fits(g)
  {
    && IsTold(g, m0, m, a, b, mode, callbacks, lo, hi)
    && Fired(m0.s, m.s, guest, lo, hi, mode.unprotect) && LetsWrites(m0.s, m.s, guest, lo, hi, mode.unprotect)
  }

  // The write half of a trigger.
  ghost predicate WriteSettled(g: Geometry, guest: nat -> PageAccess, m0: Moment, m: Moment, a: nat, b: nat, mode: Mode,
                               callbacks: Callbacks, handled: bool, lo: nat, hi: nat)
    requires m0.Fits(g) && m.Fits(g)
  {
    var first, last := g.SystemPageOf(a), g.SystemPageOf(b);
    && last < |m.s.host|
    && if mode.unwatched || AnyWatched(m0.s, first, last) then
         handled && WriteTold(g, guest, m0, m, a, b, mode, callbacks, lo, hi)
       else m == m0 && handled == (guest(first) == ReadWrite)
  }

  // The read half.
  ghost predicate ReadSettled(g: Geometry, guest: nat -> PageAccess, m0: Moment, m: Moment, a: nat, b: nat,
                              unprotect: bool, handled: bool)
    requires m0.Fits(g) && m.Fits(g)
  {
    var first, last := g.SystemPageOf(a), g.SystemPageOf(b);
    && last < |m.s.host|
    && if AnyReadWatched(m0.s, first, last) then
         && handled
         && Downgraded(m0.s, m.s, guest, first, last, unprotect) && LetsReads(m0.s, m.s, guest, first, last, unprotect)
         && m.history == m0.history && m.calls == m0.calls + [ReportCall(g, first, last, ToRead)]
       else m == m0 && handled == (guest(first) != NoAccess)
  }

  // The system pages of a byte range of the heap.
  predicate InRange(g: Geometry, range: Option<(nat, nat)>, p: nat)
    requires 0 < g.systemPage
  {
    range.Some? && g.SystemPageOf(range.value.0) <= p <= g.SystemPageOf(range.value.1)
  }

  // A range remapped or protected: it is reported, and each of its pages is owed
  // nothing.
  ghost predicate RangeTold(g: Geometry, m0: Moment, m: Moment, range: Option<(nat, nat)>, discarded: bool)
    requires m0.Fits(g)
  {
    match range
    case None => m.history == m0.history && m.calls == m0.calls
    case Some(r) =>
      var first, last := g.SystemPageOf(r.0), g.SystemPageOf(r.1);
      && last < |m0.s.host|
      && m.history == m0.history + [Notified(first, last)]
      && CallsMade(g, m0.s.read, r.0, r.1, first, last, discarded, m0.calls, m.calls)
  }

  // A write that must be told and keeps to its own pages.
  lemma ExactIsTold(g: Geometry, guest: nat -> PageAccess, m0: Moment, m: Moment, a: nat, b: nat, mode: Mode,
                    callbacks: Callbacks, handled: bool, lo: nat, hi: nat)
    requires m0.Fits(g) && m.Fits(g) && mode.exact && mode.unwatched
    requires WriteSettled(g, guest, m0, m, a, b, mode, callbacks, handled, lo, hi)
    ensures RangeTold(g, m0, m, Some((a, b)), mode.discarded)
    ensures Fired(m0.s, m.s, guest, g.SystemPageOf(a), g.SystemPageOf(b), mode.unprotect)
  {
  }

  // Guest pages smaller than a system page tile system pages, on the host too.
  predicate SmallPages(g: Geometry) {
    && 0 < g.guestPage < g.systemPage
    && g.systemPage % g.guestPage == 0 && g.hostOffset % g.guestPage == 0
  }

  predicate PagesTile(g: Geometry) {
    0 < g.systemPage && 0 < g.guestPage && (g.systemPage <= g.guestPage || SmallPages(g))
  }

  // What the host gives a system page when guest pages of it are set to a
  // protection: that, or where they share it with others, what the most
  // permissive of them needs. `pages` is the table afterwards.
  function HostAccess(g: Geometry, pages: Pages, protect: Protection, p: nat): PageAccess
    requires 0 < g.systemPage && 0 < g.guestPage
  {
    if g.guestPage < g.systemPage
    then BaseHeaps.HostJoin(pages, p, g.systemPage / g.guestPage, g.hostOffset / g.guestPage)
    else ToPageAccess(protect)
  }

  // Pages first..last are set so on the host, if they are at all.
  ghost predicate IsBacked(g: Geometry, pages: Pages, s0: Watched, s: Watched, first: nat, last: nat, commit: bool,
                           protect: Protection)
    requires g.Valid() && s0.Valid() && s.Valid() && |s.host| == |s0.host|
  {
    forall p :: 0 <= p < |s.host| ==> s.Page(p) == BackedPage(g, pages, s0.Page(p), first, last, commit, protect, p)
  }

  function BackedPage(g: Geometry, pages: Pages, w: PageWatch, first: nat, last: nat, commit: bool,
                      protect: Protection, p: nat): PageWatch
    requires 0 < g.systemPage && 0 < g.guestPage
  {
    if commit && first <= p <= last then w.(host := HostAccess(g, pages, protect, p)) else w
  }

  // --- A watched page faults ---

  // It is watched for a write exactly while it is owed a report.
  ghost predicate Guarded(s: Watched, owed: set<nat>)
    requires s.Valid()
  {
    && (forall i :: 0 <= i < |s.host| && (s.Page(i).invalidation || s.Page(i).read) ==> s.Page(i).host != ReadWrite)
    && (forall i :: i in owed ==> i < |s.host| && s.Page(i).invalidation)
    && (forall i :: 0 <= i < |s.host| && s.Page(i).invalidation ==> i in owed)
  }

  // Pages lo..hi lose their watches and are owed nothing more.
  lemma FireKeepsGuarded(s0: Watched, s: Watched, owed: set<nat>, owed': set<nat>, guest: nat -> PageAccess,
                         lo: nat, hi: nat, unprotect: bool)
    requires s.Valid() && s0.Valid() && |s.host| == |s0.host| && Guarded(s0, owed)
    requires Fired(s0, s, guest, lo, hi, unprotect)
    requires forall i :: i in owed' <==> i in owed && !(lo <= i <= hi)
    ensures Guarded(s, owed')
  {
    forall i | i in owed' ensures i < |s.host| && s.Page(i).invalidation {
      assert i in owed;
    }
  }

  lemma ReadKeepsGuarded(s0: Watched, s: Watched, owed: set<nat>, guest: nat -> PageAccess, first: nat, last: nat,
                         unprotect: bool)
    requires s.Valid() && s0.Valid() && |s.host| == |s0.host| && Guarded(s0, owed)
    requires Downgraded(s0, s, guest, first, last, unprotect)
    ensures Guarded(s, owed)
  {
  }

  // Every page of first..last is armed, and no other changed.
  ghost predicate IsArmed(s0: Watched, s: Watched, guest: nat -> PageAccess, first: nat, last: nat, onWrite: bool,
                          onRead: bool)
    requires s.Valid() && s0.Valid() && |s.host| == |s0.host|
  {
    forall p :: 0 <= p < |s.host| ==>
      s.Page(p) == if first <= p <= last then ArmPage(s0.Page(p), guest(p), onWrite, onRead) else s0.Page(p)
  }

  lemma ArmKeepsGuarded(s0: Watched, s: Watched, owed: set<nat>, guest: nat -> PageAccess, first: nat, last: nat,
                        onWrite: bool, onRead: bool)
    requires s.Valid() && s0.Valid() && first <= last < |s.host| == |s0.host| && Guarded(s0, owed)
    requires IsArmed(s0, s, guest, first, last, onWrite, onRead)
    ensures Guarded(s, owed + NowArmed(s, first, last, onWrite))
  {
  }

  // Pages first..last lose their watches whatever happens to their protection.
  lemma RewriteKeepsGuarded(s0: Watched, s: Watched, owed: set<nat>, first: nat, last: nat)
    requires s.Valid() && s0.Valid() && |s.host| == |s0.host| && Guarded(s0, owed)
    requires forall p :: 0 <= p < |s.host| && !(first <= p <= last) ==> s.Page(p) == s0.Page(p)
    requires forall p :: 0 <= p < |s.host| && first <= p <= last ==> !s.Page(p).invalidation && !s.Page(p).read
    ensures Guarded(s, Outside(owed, first, last))
  {
  }

  // A range backed and then fired.
  ghost predicate IsAllocated(g: Geometry, pages: Pages, s0: Watched, s: Watched, guest: nat -> PageAccess, first: nat,
                              last: nat, commit: bool, protect: Protection)
    requires g.Valid() && s0.Valid() && s.Valid() && |s.host| == |s0.host|
  {
    forall p :: 0 <= p < |s.host| ==>
      s.Page(p) == if first <= p <= last
                   then FirePage(BackedPage(g, pages, s0.Page(p), first, last, commit, protect, p), guest(p), true)
                   else s0.Page(p)
  }

  lemma BackedAndFired(g: Geometry, pages: Pages, s0: Watched, s1: Watched, s: Watched, guest: nat -> PageAccess,
                       first: nat, last: nat, commit: bool, protect: Protection, owed: set<nat>)
    requires g.Valid() && s0.Valid() && s1.Valid() && s.Valid() && |s.host| == |s1.host| == |s0.host|
    requires IsBacked(g, pages, s0, s1, first, last, commit, protect) && Fired(s1, s, guest, first, last, true)
    requires Guarded(s0, owed)
    ensures IsAllocated(g, pages, s0, s, guest, first, last, commit, protect)
    ensures Guarded(s, Outside(owed, first, last))
  {
    forall p | 0 <= p < |s.host|
      ensures s.Page(p) == if first <= p <= last
                           then FirePage(BackedPage(g, pages, s0.Page(p), first, last, commit, protect, p),
                                          guest(p), true)
                           else s0.Page(p)
    {
      assert s1.Page(p) == BackedPage(g, pages, s0.Page(p), first, last, commit, protect, p);
    }
    RewriteKeepsGuarded(s0, s, owed, first, last);
  }

  // What is only reserved has its watches fired and no more. What is committed,
  // where system pages are not shared, has the host access of its protection,
  // but that a watched page the guest may write is writable.
  ghost predicate BacksPages(g: Geometry, s0: Watched, s: Watched, guest: nat -> PageAccess, first: nat, last: nat,
                             commit: bool, protect: Protection)
    requires s0.Valid() && s.Valid() && |s.host| == |s0.host|
  {
    && (!commit ==> LetsWrites(s0, s, guest, first, last, true))
    && (commit && g.systemPage <= g.guestPage ==>
          forall p :: 0 <= p < |s.host| ==> BacksPage(s0, s, guest(p), first <= p <= last, protect, p))
  }

  ghost predicate BacksPage(s0: Watched, s: Watched, guest: PageAccess, inRange: bool, protect: Protection, p: nat)
    requires s0.Valid() && s.Valid() && p < |s.host| == |s0.host|
  {
    var watched := Flag(s0.invalidation, p) || Flag(s0.read, p);
    s.host[p] == if !inRange then s0.host[p]
                 else if watched && guest == ReadWrite then ReadWrite else ToPageAccess(protect)
  }

  lemma AllocatedBacks(g: Geometry, pages: Pages, s0: Watched, s: Watched, guest: nat -> PageAccess, first: nat,
                       last: nat, commit: bool, protect: Protection)
    requires g.Valid() && s0.Valid() && s.Valid() && |s.host| == |s0.host|
    requires IsAllocated(g, pages, s0, s, guest, first, last, commit, protect)
    ensures BacksPages(g, s0, s, guest, first, last, commit, protect)
  {
    if !commit {
      FiredLetsWrites(s0, s, guest, first, last, true);
    } else if g.systemPage <= g.guestPage {
      forall p | 0 <= p < |s.host| ensures BacksPage(s0, s, guest(p), first <= p <= last, protect, p) {
        assert s.Page(p).host == s.host[p];
      }
    }
  }

  // --- An unwatched page the guest may write is writable on the host ---

  ghost predicate Open(s: Watched, guest: nat -> PageAccess)
    requires s.Valid()
  {
    forall i :: 0 <= i < |s.host| && !s.Page(i).invalidation && !s.Page(i).read && guest(i) == ReadWrite ==>
                  s.Page(i).host == ReadWrite
  }

  lemma ArmKeepsOpen(s0: Watched, s: Watched, guest: nat -> PageAccess, first: nat, last: nat, onWrite: bool,
                     onRead: bool)
    requires s.Valid() && s0.Valid() && |s.host| == |s0.host| && Open(s0, guest)
    requires IsArmed(s0, s, guest, first, last, onWrite, onRead)
    ensures Open(s, guest)
  {
  }

  lemma FireKeepsOpen(s0: Watched, s: Watched, guest: nat -> PageAccess, lo: nat, hi: nat)
    requires s.Valid() && s0.Valid() && |s.host| == |s0.host| && Open(s0, guest)
    requires Fired(s0, s, guest, lo, hi, true)
    ensures Open(s, guest)
  {
  }

  lemma ReadKeepsOpen(s0: Watched, s: Watched, guest: nat -> PageAccess, first: nat, last: nat)
    requires s.Valid() && s0.Valid() && |s.host| == |s0.host| && Open(s0, guest)
    requires Downgraded(s0, s, guest, first, last, true)
    ensures Open(s, guest)
  {
  }

  // A write that faults in such a view leaves its page writable, if the guest may
  // write it. With no watch to settle it says it was handled, and changes nothing:
  // it would fault forever.
  lemma FaultOpens(g: Geometry, guest: nat -> PageAccess, m0: Moment, m: Moment, relative: nat, callbacks: Callbacks,
                   handled: bool, lo: nat, hi: nat)
    requires m0.Fits(g) && m.Fits(g)
    requires WriteSettled(g, guest, m0, m, relative, relative, FAULT, callbacks, handled, lo, hi)
    ensures var page := g.SystemPageOf(relative);
      && page < |m0.s.host| == |m.s.host|
      && (guest(page) == ReadWrite && m0.s.host[page] != ReadWrite ==>
            handled && if AnyWatched(m0.s, page, page) then m.s.host[page] == ReadWrite else m == m0)
      && (guest(page) == ReadWrite && m0.s.host[page] != ReadWrite && Open(m0.s, guest) ==>
            AnyWatched(m0.s, page, page))
      && (handled <==> guest(page) == ReadWrite || AnyWatched(m0.s, page, page))
  {
    var page := g.SystemPageOf(relative);
    assert m.s.Page(page).host == m.s.host[page] && m0.s.Page(page).host == m0.s.host[page];
    if Flag(m0.s.invalidation, page) || Flag(m0.s.read, page) {
      assert AnyWatched(m0.s, page, page);
    }
  }

  // --- What arming and firing come to, page by page ---

  // Arming watches each page of the range the guest may write, for writes, and
  // each it may access, for reads, and takes no watch away. The host stops what a
  // new watch is for.
  ghost predicate Arms(s0: Watched, s: Watched, guest: nat -> PageAccess, first: nat, last: nat, onWrite: bool,
                       onRead: bool)
    requires s.Valid() && s0.Valid() && |s.host| == |s0.host|
  {
    forall p :: 0 <= p < |s.host| ==>
      ArmsPage(s0, s, guest(p), onWrite && first <= p <= last, onRead && first <= p <= last, p)
  }

  ghost predicate ArmsPage(s0: Watched, s: Watched, guest: PageAccess, onWrite: bool, onRead: bool, p: nat)
    requires s.Valid() && s0.Valid() && p < |s.host| == |s0.host|
  {
    && (Flag(s.invalidation, p) <==> Flag(s0.invalidation, p) || (onWrite && guest == ReadWrite))
    && (Flag(s.read, p) <==> Flag(s0.read, p) || (onRead && guest != NoAccess))
    && s.host[p] == if Flag(s.read, p) && !Flag(s0.read, p) then NoAccess
                    else if Flag(s.invalidation, p) && !Flag(s0.invalidation, p) && !Flag(s.read, p) then ReadOnly
                    else s0.host[p]
  }

  // A history with a request to watch writes at its end.
  ghost predicate Requests(history: seq<Event>, guest: nat -> PageAccess, first: nat, last: nat, onWrite: bool) {
    && history != [] && history[|history| - 1].Armed?
    && forall p: nat :: onWrite && first <= p <= last && guest(p) == ReadWrite ==>
         p in history[|history| - 1].pages
  }

  lemma ArmedIsRequested(s0: Watched, s: Watched, guest: nat -> PageAccess, first: nat, last: nat, onWrite: bool,
                         onRead: bool, history: seq<Event>)
    requires s.Valid() && s0.Valid() && first <= last < |s.host| == |s0.host|
    requires IsArmed(s0, s, guest, first, last, onWrite, onRead)
    ensures Arms(s0, s, guest, first, last, onWrite, onRead)
    ensures Requests(history + [Armed(NowArmed(s, first, last, onWrite))], guest, first, last, onWrite)
  {
    forall p | 0 <= p < |s.host|
      ensures ArmsPage(s0, s, guest(p), onWrite && first <= p <= last, onRead && first <= p <= last, p)
    {
      assert s.Page(p) == if first <= p <= last then ArmPage(s0.Page(p), guest(p), onWrite, onRead) else s0.Page(p);
    }
    var events := history + [Armed(NowArmed(s, first, last, onWrite))];
    forall p: nat | onWrite && first <= p <= last && guest(p) == ReadWrite ensures p in events[|events| - 1].pages {
      assert ArmsPage(s0, s, guest(p), onWrite, onRead, p) && s.Page(p).invalidation;
    }
  }

  // Firing the write watches of lo..hi takes every watch there, and with host
  // protection lifted makes a watched page the guest may write writable.
  ghost predicate LetsWrites(s0: Watched, s: Watched, guest: nat -> PageAccess, lo: nat, hi: nat, unprotect: bool)
    requires s.Valid() && s0.Valid() && |s.host| == |s0.host|
  {
    forall p :: 0 <= p < |s.host| ==> LetsWritesTo(s0, s, guest(p), lo <= p <= hi, unprotect, p)
  }

  ghost predicate LetsWritesTo(s0: Watched, s: Watched, guest: PageAccess, inWindow: bool, unprotect: bool, p: nat)
    requires s.Valid() && s0.Valid() && p < |s.host| == |s0.host|
  {
    && (Flag(s.invalidation, p) <==> Flag(s0.invalidation, p) && !inWindow)
    && (Flag(s.read, p) <==> Flag(s0.read, p) && !inWindow)
    && s.host[p] == if unprotect && inWindow && (Flag(s0.invalidation, p) || Flag(s0.read, p)) && guest == ReadWrite
                    then ReadWrite else s0.host[p]
  }

  lemma FiredLetsWrites(s0: Watched, s: Watched, guest: nat -> PageAccess, lo: nat, hi: nat, unprotect: bool)
    requires s.Valid() && s0.Valid() && |s.host| == |s0.host| && Fired(s0, s, guest, lo, hi, unprotect)
    ensures LetsWrites(s0, s, guest, lo, hi, unprotect)
  {
    forall p | 0 <= p < |s.host| ensures LetsWritesTo(s0, s, guest(p), lo <= p <= hi, unprotect, p) {
      assert s.Page(p) == if lo <= p <= hi then FirePage(s0.Page(p), guest(p), unprotect) else s0.Page(p);
    }
  }

  // Firing the read watches of a range takes them alone, and with host protection
  // lifted lets reads through: what the guest may access is read-only where a
  // write watch stays, and as the guest has it elsewhere.
  ghost predicate LetsReads(s0: Watched, s: Watched, guest: nat -> PageAccess, first: nat, last: nat, unprotect: bool)
    requires s.Valid() && s0.Valid() && |s.host| == |s0.host|
  {
    forall p :: 0 <= p < |s.host| ==> LetsReadsOf(s0, s, guest(p), first <= p <= last, unprotect, p)
  }

  ghost predicate LetsReadsOf(s0: Watched, s: Watched, guest: PageAccess, inRange: bool, unprotect: bool, p: nat)
    requires s.Valid() && s0.Valid() && p < |s.host| == |s0.host|
  {
    && (Flag(s.invalidation, p) <==> Flag(s0.invalidation, p))
    && (Flag(s.read, p) <==> Flag(s0.read, p) && !inRange)
    && s.host[p] == if unprotect && inRange && Flag(s0.read, p)
                    then if Flag(s.invalidation, p) && guest != NoAccess then ReadOnly else guest
                    else s0.host[p]
  }

  lemma DowngradedLetsReads(s0: Watched, s: Watched, guest: nat -> PageAccess, first: nat, last: nat, unprotect: bool)
    requires s.Valid() && s0.Valid() && |s.host| == |s0.host| && Downgraded(s0, s, guest, first, last, unprotect)
    ensures LetsReads(s0, s, guest, first, last, unprotect)
  {
    forall p | 0 <= p < |s.host| ensures LetsReadsOf(s0, s, guest(p), first <= p <= last, unprotect, p) {
      assert s.Page(p) == if first <= p <= last then ReadPage(s0.Page(p), guest(p), unprotect) else s0.Page(p);
    }
  }

  // --- The host lets a thread do what the guest may, but for watches ---

  // No page allows more than the guest, one without a read watch can be read if
  // the guest may read it, and one with no watch is as the guest has it.
  ghost predicate Serves(s: Watched, guest: nat -> PageAccess)
    requires s.Valid()
  {
    forall p :: 0 <= p < |s.host| ==> ServesPage(s.Page(p), guest(p))
  }

  predicate ServesPage(w: PageWatch, guest: PageAccess) {
    && guest.Permits(w.host)
    && (!w.read && guest != NoAccess ==> w.host != NoAccess)
    && (!w.read && !w.invalidation ==> w.host == guest)
  }

  // A view that serves the guest lets it write what is unwatched.
  lemma ServesIsOpen(s: Watched, guest: nat -> PageAccess)
    requires s.Valid() && Serves(s, guest)
    ensures Open(s, guest)
  {
    forall i | 0 <= i < |s.host| && !s.Page(i).invalidation && !s.Page(i).read && guest(i) == ReadWrite
      ensures s.Page(i).host == ReadWrite
    {
      assert ServesPage(s.Page(i), guest(i));
    }
  }

  lemma ArmServes(s0: Watched, s: Watched, guest: nat -> PageAccess, first: nat, last: nat, onWrite: bool, onRead: bool)
    requires s.Valid() && s0.Valid() && |s.host| == |s0.host|
    requires Arms(s0, s, guest, first, last, onWrite, onRead) && Serves(s0, guest)
    ensures Serves(s, guest)
  {
    forall p | 0 <= p < |s.host| ensures ServesPage(s.Page(p), guest(p)) {
      assert ArmsPage(s0, s, guest(p), onWrite && first <= p <= last, onRead && first <= p <= last, p);
      assert ServesPage(s0.Page(p), guest(p));
    }
  }

  lemma ReadServes(s0: Watched, s: Watched, guest: nat -> PageAccess, first: nat, last: nat)
    requires s.Valid() && s0.Valid() && |s.host| == |s0.host| && LetsReads(s0, s, guest, first, last, true)
    requires Serves(s0, guest)
    ensures Serves(s, guest)
  {
    forall p | 0 <= p < |s.host| ensures ServesPage(s.Page(p), guest(p)) {
      assert LetsReadsOf(s0, s, guest(p), first <= p <= last, true, p) && ServesPage(s0.Page(p), guest(p));
    }
  }

  // A read watch on a page the guest may only read.
  predicate IsStranded(w: PageWatch, guest: PageAccess) {
    w.read && guest == ReadOnly && w.host == NoAccess
  }

  ghost predicate StrandsNone(s0: Watched, guest: nat -> PageAccess, lo: nat, hi: nat)
    requires s0.Valid()
  {
    forall p :: 0 <= p < |s0.host| && lo <= p <= hi ==> !IsStranded(s0.Page(p), guest(p))
  }

  // A write takes the read watches of its window and gives access back only to
  // pages the guest may write, so it serves reads of the others exactly where no
  // page of the window is one that the guest may only read and that its read watch
  // keeps from it.
  lemma WhenWriteServes(s0: Watched, s: Watched, guest: nat -> PageAccess, lo: nat, hi: nat)
    requires s.Valid() && s0.Valid() && |s.host| == |s0.host| && LetsWrites(s0, s, guest, lo, hi, true)
    requires Serves(s0, guest)
    ensures Serves(s, guest) <==> StrandsNone(s0, guest, lo, hi)
  {
    if p :| 0 <= p < |s0.host| && lo <= p <= hi && IsStranded(s0.Page(p), guest(p)) {
      assert LetsWritesTo(s0, s, guest(p), lo <= p <= hi, true, p);
      assert !ServesPage(s.Page(p), guest(p));
    } else {
      forall p | 0 <= p < |s.host| ensures ServesPage(s.Page(p), guest(p)) {
        assert LetsWritesTo(s0, s, guest(p), lo <= p <= hi, true, p) && ServesPage(s0.Page(p), guest(p));
        assert lo <= p <= hi ==> !IsStranded(s0.Page(p), guest(p));
      }
    }
  }

  // One read watched page the guest may only read, and what a write leaves of it:
  // no watch and no access.
  lemma WriteStrandsReadOnly() returns (s0: Watched, s: Watched)
    ensures s0.Valid() && s.Valid() && |s.host| == |s0.host| == 1
    ensures Guarded(s0, {}) && Serves(s0, _ => ReadOnly) && Fired(s0, s, _ => ReadOnly, 0, 0, true)
    ensures s.Page(0) == PageWatch(false, false, NoAccess) && !Serves(s, _ => ReadOnly)
  {
    OneFlagAt(1, 0);
    NoFlags(1);
    s0 := Watched(ZeroWords(1), OneFlag(1, 0), [NoAccess]);
    s := Watched(ZeroWords(1), ZeroWords(1), [NoAccess]);
    assert s0.Page(0) == PageWatch(false, true, NoAccess) && s.Page(0) == PageWatch(false, false, NoAccess);
  }

  // A read that faults in a view that serves the guest finds its watch and leaves
  // its page readable. With no watch it says it was handled, and changes nothing:
  // it would fault forever.
  lemma ReadFaultServes(g: Geometry, guest: nat -> PageAccess, m0: Moment, m: Moment, relative: nat, handled: bool)
    requires m0.Fits(g) && m.Fits(g) && ReadSettled(g, guest, m0, m, relative, relative, true, handled)
    ensures var page := g.SystemPageOf(relative);
      && page < |m0.s.host| == |m.s.host|
      && (guest(page) != NoAccess && m0.s.host[page] == NoAccess ==>
            handled && if Flag(m0.s.read, page) then m.s.host[page] != NoAccess else m == m0)
      && (guest(page) != NoAccess && m0.s.host[page] == NoAccess && Serves(m0.s, guest) ==> Flag(m0.s.read, page))
      && (handled <==> guest(page) != NoAccess || Flag(m0.s.read, page))
  {
    var page := g.SystemPageOf(relative);
    if Flag(m0.s.read, page) {
      assert AnyReadWatched(m0.s, page, page);
      DowngradedLetsReads(m0.s, m.s, guest, page, page, true);
      assert LetsReadsOf(m0.s, m.s, guest(page), true, true, page);
    }
    assert Serves(m0.s, guest) ==> ServesPage(m0.s.Page(page), guest(page));
  }

  // A read that finds a read watch tells read callbacks of exactly the bytes its
  // system pages show, as read, and no one anything else.
  lemma ReadTells(g: Geometry, guest: nat -> PageAccess, m0: Moment, m: Moment, a: nat, b: nat, unprotect: bool,
                  handled: bool, reason: Reason, x: nat)
    requires m0.Fits(g) && m.Fits(g) && a <= b < g.heapSize && x < g.heapSize
    requires ReadSettled(g, guest, m0, m, a, b, unprotect, handled)
    ensures |m0.calls| <= |m.calls| && m.calls[..|m0.calls|] == m0.calls
    ensures var first, last := g.SystemPageOf(a), g.SystemPageOf(b);
      && last < |m0.s.host|
      && (TellsByte(g, m.calls[|m0.calls|..], reason, x) <==>
            AnyReadWatched(m0.s, first, last) && reason == ToRead && first <= g.SystemPageOf(x) <= last)
  {
    var first, last := g.SystemPageOf(a), g.SystemPageOf(b);
    ReportCovers(g, a, b, x);
    if AnyReadWatched(m0.s, first, last) {
      var call := ReportCall(g, first, last, ToRead);
      assert m.calls[|m0.calls|..] == [call];
      assert CallTells(g, [call][0], reason, x) <==> reason == ToRead && first <= g.SystemPageOf(x) <= last;
    }
  }

  // --- No watches ---

  function ZeroWords(n: nat): Words {
    seq(n, _ => 0)
  }

  lemma NoFlags(n: nat)
    ensures forall i :: 0 <= i < 64 * n ==> !Flag(ZeroWords(n), i)
  {
    ZeroHasNone();
  }

  function OneFlag(n: nat, p: nat): Words
    requires p < 64 * n
  {
    ZeroWords(n)[p / 64 := 1 as bv64 << Place(p % 64)]
  }

  lemma OneFlagAt(n: nat, p: nat)
    requires p < 64 * n
    ensures forall i :: 0 <= i < 64 * n ==> (Flag(OneFlag(n, p), i) <==> i == p)
  {
    forall i | 0 <= i < 64 * n ensures Flag(OneFlag(n, p), i) <==> i == p {
      if i / 64 == p / 64 {
        Index(p % 64, i % 64);
        BitBv(Place(p % 64), Place(i % 64));
      } else {
        NoFlags(n);
        assert !Flag(ZeroWords(n), i);
      }
    }
  }
}
