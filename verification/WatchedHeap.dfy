// The watched pages of one physical view (PhysicalHeap of memory.cc): arming,
// firing, and the guest operations that touch host protection.
module WatchedHeaps {
  import opened Wrappers
  import opened PageTable
  import opened WatchWords
  import opened GuestAccess
  import opened Watches
  import opened DroppedReads
  import opened WatchOutcomes
  import opened GuestProtects

  class WatchedHeap {
    const g: Geometry
    const heapBase: nat
    // The view's page table and the parent's. Only what they let the guest do
    // matters here, so the operations that allocate take their new contents.
    var pages: Pages
    var parent: Pages
    var s: Watched
    // The calls made of invalidation and read callbacks.
    var calls: seq<Call>
    // What was armed, reported and agreed to, from which the pages owed a report
    // follow.
    ghost var history: seq<Event>

    // Initialize: no page is watched. What the host lets a thread do with the
    // view by then is given.
    constructor (g: Geometry, heapBase: nat, pages: Pages, parent: Pages, host: seq<PageAccess>)
      requires g.Valid() && heapBase + g.heapSize <= ADDRESS_SPACE && |host| == g.SystemPageCount()
      ensures Safe() && this.g == g && this.heapBase == heapBase && this.pages == pages && this.parent == parent
      ensures s.host == host && forall p :: 0 <= p < |s.host| ==> s.Page(p) == PageWatch(false, false, host[p])
      ensures history == [] && calls == []
    {
      this.g, this.heapBase, this.pages, this.parent := g, heapBase, pages, parent;
      var n := (g.SystemPageCount() + 63) / 64;
      s := Watched(ZeroWords(n), ZeroWords(n), host);
      calls, history := [], [];
      NoFlags(n);
    }

    ghost predicate Shape()
      reads this`s
    {
      && g.Valid()
      && heapBase + g.heapSize <= ADDRESS_SPACE
      && |s.host| == g.SystemPageCount()
      && |s.invalidation| == |s.read| == (g.SystemPageCount() + 63) / 64
      && s.Valid()
    }

    ghost function Guest(): (f: nat -> PageAccess)
      requires g.Valid()
      reads this`pages, this`parent
      ensures forall i :: f(i) == SystemPageGuestAccess(g, pages, parent, i)
    {
      var p, q := pages, parent;
      (i: nat) => SystemPageGuestAccess(g, p, q, i)
    }

    ghost function Now(): Moment
      reads this`s, this`history, this`calls
    {
      Moment(s, history, calls)
    }

    // A watched page faults on a write, and the pages watched for one are those
    // armed and not settled since.
    ghost predicate Safe()
      reads this`s, this`history
    {
      Shape() && Guarded(s, Owed(history))
    }

    // An unwatched page the guest may write is writable on the host.
    ghost predicate Opened()
      reads this`s, this`pages, this`parent
    {
      Shape() && Open(s, Guest())
    }

    // The host lets a thread do what the guest may, but for watches.
    ghost predicate Serving()
      reads this`s, this`pages, this`parent
    {
      Shape() && Serves(s, Guest())
    }

    // xe::memory::Protect over whole system pages.
    method ProtectHost(first: nat, count: nat, access: PageAccess)
      requires first + count <= |s.host|
      modifies this`s
      ensures s.invalidation == old(s.invalidation) && s.read == old(s.read) && |s.host| == |old(s.host)|
      ensures forall i :: 0 <= i < |s.host| ==>
        s.host[i] == if first <= i < first + count then access else old(s.host)[i]
    {
      s := s.(host := s.host[..first] + seq(count, _ => access) + s.host[first + count..]);
    }

    // Arms pages first..last.
    method EnableAccessCallbacksInner(first: nat, last: nat, onWrite: bool, onRead: bool)
      requires Shape() && first <= last < |s.host| && (onWrite || onRead)
      modifies this`s, this`history
      ensures Shape()
      // The same as arming one page after another.
      ensures IsArmed(old(s), s, Guest(), first, last, onWrite, onRead)
      ensures history == old(history) + [Armed(NowArmed(s, first, last, onWrite))]
      // Which is what was asked for, and no more.
      ensures Arms(old(s), s, Guest(), first, last, onWrite, onRead)
      ensures Requests(history, Guest(), first, last, onWrite)
      ensures (old(Safe()) ==> Safe()) && (old(Opened()) ==> Opened()) && (old(Serving()) ==> Serving())
    {
      ghost var s0 := s;
      ArmPages(first, last, onWrite, onRead);
      ArmedIsRequested(s0, s, Guest(), first, last, onWrite, onRead, history);
      if Guarded(s0, Owed(history)) {
        ArmKeepsGuarded(s0, s, Owed(history), Guest(), first, last, onWrite, onRead);
      }
      if Open(s0, Guest()) {
        ArmKeepsOpen(s0, s, Guest(), first, last, onWrite, onRead);
      }
      if Serves(s0, Guest()) {
        ArmServes(s0, s, Guest(), first, last, onWrite, onRead);
      }
      OwedNext(history, Armed(NowArmed(s, first, last, onWrite)));
      history := history + [Armed(NowArmed(s, first, last, onWrite))];
    }

    // The arming loop: a word at a time where a word is armed already, and one
    // Protect call for each run of pages.
    method ArmPages(first: nat, last: nat, onWrite: bool, onRead: bool)
      requires Shape() && first <= last < |s.host| && (onWrite || onRead)
      modifies this`s
      ensures Shape() && IsArmed(old(s), s, Guest(), first, last, onWrite, onRead)
      ensures Arms(old(s), s, Guest(), first, last, onWrite, onRead)
    {
      ghost var s0 := s;
      // The run of pages since `runStart` waits for one Protect call.
      var runStart := first;
      var i := first;
      while i <= last
        invariant first <= runStart <= i <= last + 1
        invariant Shape() && |s.host| == |s0.host|
        invariant ArmedTo(s, s0, Guest(), first, i, runStart, i, onWrite, onRead)
      {
        // A word armed already needs nothing.
        var blockLast := Min(i / 64 * 64 + 63, last);
        var armed := BlockArmed(i, blockLast, onWrite, onRead);
        if armed {
          ProtectRun(s0, first, i, runStart, i, onWrite, onRead);
          SkipArmed(s, s0, Guest(), first, i, blockLast, onWrite, onRead);
          i := blockLast + 1;
          runStart := i;
        } else {
          runStart := ArmNext(s0, first, i, runStart, onWrite, onRead);
          i := i + 1;
        }
      }
      ProtectRun(s0, first, last + 1, runStart, last + 1, onWrite, onRead);
      ArmedAll(s, s0, Guest(), first, last, onWrite, onRead);
      ArmedIsRequested(s0, s, Guest(), first, last, onWrite, onRead, []);
    }

    // Arms one page, which joins the pending run or ends it.
    method ArmNext(ghost s0: Watched, ghost first: nat, i: nat, runStart: nat, onWrite: bool, onRead: bool)
      returns (start: nat)
      requires Shape() && s0.Valid() && |s.host| == |s0.host| && first <= runStart <= i < |s.host|
      requires (onWrite || onRead) && ArmedTo(s, s0, Guest(), first, i, runStart, i, onWrite, onRead)
      modifies this`s
      ensures Shape() && |s.host| == |s0.host| && runStart <= start <= i + 1
      ensures ArmedTo(s, s0, Guest(), first, i + 1, start, i + 1, onWrite, onRead)
    {
      ghost var before := s;
      var protect := ArmFlags(i, onWrite, onRead);
      PageArmed(before, s, s0, Guest(), first, i, runStart, onWrite, onRead, protect);
      start := runStart;
      if !protect {
        ProtectRun(s0, first, i + 1, runStart, i, onWrite, onRead);
        start := i + 1;
      }
    }

    // Protects the pending run, if any, with one call.
    method ProtectRun(ghost s0: Watched, ghost first: nat, ghost i: nat, a: nat, b: nat,
                      ghost onWrite: bool, onRead: bool)
      requires Shape() && s0.Valid() && |s.host| == |s0.host| && first <= a <= b <= i <= |s.host|
      requires ArmedTo(s, s0, Guest(), first, i, a, b, onWrite, onRead)
      modifies this`s
      ensures Shape() && |s.host| == |s0.host|
      ensures s.invalidation == old(s.invalidation) && s.read == old(s.read)
      ensures ArmedTo(s, s0, Guest(), first, i, i, i, onWrite, onRead)
    {
      ghost var before := s;
      if a < b {
        ProtectHost(a, b - a, ArmedAccess(onRead));
      }
      RunProtected(before, s, s0, Guest(), first, i, a, b, onWrite, onRead);
    }

    // Whether every page first..last of one word is armed already.
    method BlockArmed(first: nat, last: nat, onWrite: bool, onRead: bool) returns (armed: bool)
      requires Shape() && first <= last < |s.host| && first / 64 == last / 64
      ensures armed <==> AllArmed(s.invalidation, s.read, first, last, onWrite, onRead)
    {
      armed := true;
      if onWrite {
        armed := AllFlags(s.invalidation, first, last);
      }
      if onRead && armed {
        armed := AllFlags(s.read, first, last);
      }
    }

    // Sets one page's flags. Returns whether it has to be protected.
    method ArmFlags(i: nat, onWrite: bool, onRead: bool) returns (protect: bool)
      requires Shape() && i < |s.host| && (onWrite || onRead)
      modifies this`s
      ensures Shape() && s.host == old(s.host)
      ensures forall p :: 0 <= p < |s.host| && p != i ==> s.Page(p) == old(s).Page(p)
      ensures var armed := ArmPage(old(s).Page(i), Guest()(i), onWrite, onRead);
        && s.Page(i) == armed.(host := old(s.host)[i])
        && armed.host == (if protect then ArmedAccess(onRead) else old(s.host)[i])
    {
      var access := SystemPageGuestAccess(g, pages, parent, i);
      protect := false;
      if access != NoAccess {
        if onWrite {
          if access != ReadOnly && !Flag(s.invalidation, i) {
            var words := SetFlag(s.invalidation, i);
            s := s.(invalidation := words);
            if !Flag(s.read, i) {
              protect := true;
            }
          }
        }
        if onRead {
          if !Flag(s.read, i) {
            protect := true;
            var words := SetFlag(s.read, i);
            s := s.(read := words);
          }
        }
      }
    }

    // --- Firing ---

    // Lets the guest write the watched pages it may write, with one Protect call
    // for each run of them.
    method UnprotectPages(first: nat, last: nat)
      requires Shape() && first <= last < |s.host|
      modifies this`s
      ensures Shape() && s.invalidation == old(s.invalidation) && s.read == old(s.read)
      ensures forall p :: 0 <= p < |s.host| ==>
        s.host[p] == if first <= p <= last then FirePage(old(s).Page(p), Guest()(p), true).host else old(s.host)[p]
    {
      ghost var s0 := s;
      var runStart := first;
      var i := first;
      while i <= last
        invariant first <= runStart <= i <= last + 1
        invariant Shape() && s.invalidation == s0.invalidation && s.read == s0.read && |s.host| == |s0.host|
        invariant FiredTo(s, s0, Guest(), first, runStart, i)
      {
        var unprotect := MustOpen(i);
        if unprotect {
          RunGrows(s, s0, Guest(), first, runStart, i);
        } else {
          OpenRun(s0, first, runStart, i);
          RunSkips(s, s0, Guest(), first, i);
          runStart := i + 1;
        }
        i := i + 1;
      }
      OpenRun(s0, first, runStart, i);
    }

    // Whether firing makes a page writable.
    method MustOpen(i: nat) returns (unprotect: bool)
      requires Shape() && i < |s.host|
      ensures unprotect <==> (s.Page(i).invalidation || s.Page(i).read) && Guest()(i) == ReadWrite
    {
      unprotect := Flag(s.invalidation, i) || Flag(s.read, i);
      if unprotect && SystemPageGuestAccess(g, pages, parent, i) != ReadWrite {
        unprotect := false;
      }
    }

    // Opens the pending run, if any, with one call.
    method OpenRun(ghost s0: Watched, ghost first: nat, runStart: nat, i: nat)
      requires Shape() && s0.Valid() && |s.host| == |s0.host| && first <= runStart <= i <= |s.host|
      requires FiredTo(s, s0, Guest(), first, runStart, i)
      modifies this`s
      ensures Shape() && s.invalidation == old(s.invalidation) && s.read == old(s.read) && |s.host| == |s0.host|
      ensures FiredTo(s, s0, Guest(), first, i, i)
    {
      if runStart < i {
        ProtectHost(runStart, i - runStart, ReadWrite);
      }
    }

    method ClearWatches(first: nat, last: nat)
      requires Shape() && first <= last < |s.host|
      modifies this`s
      ensures Shape() && s.host == old(s.host)
      ensures SameOutside(s.invalidation, old(s.invalidation), first, last)
      ensures SameOutside(s.read, old(s.read), first, last)
      ensures forall p :: first <= p <= last ==> !s.Page(p).invalidation && !s.Page(p).read
    {
      var invalidation := ClearFlags(s.invalidation, first, last);
      var read := ClearFlags(s.read, first, last);
      s := s.(invalidation := invalidation, read := read);
    }

    // The write part of TriggerCallbacks for the pages first..last of a byte
    // range a..b of the heap. The pages unwatched are lo..hi.
    method TriggerWrite(a: nat, b: nat, mode: Mode, callbacks: Callbacks)
      returns (handled: bool, ghost lo: nat, ghost hi: nat)
      requires Shape() && a <= b < g.heapSize
      modifies this`s, this`history, this`calls
      ensures Shape()
      ensures WriteSettled(g, Guest(), old(Now()), Now(), a, b, mode, callbacks, handled, lo, hi)
      ensures old(Safe()) && (!mode.exact && mode.unprotect ==> AnswerAround(callbacks)) ==> Safe()
      ensures old(Opened()) && mode.unprotect ==> Opened()
      ensures old(Serving()) && mode.unprotect ==> (Serving() <==> StrandsNone(old(s), Guest(), lo, hi))
    {
      PageOfMono(g, a, b);
      PageInHeap(g, b);
      var first, last := g.SystemPageOf(a), g.SystemPageOf(b);
      lo, hi := first, last;
      ReportEnds(g, a, b);
      var any := AnyFlag(s.invalidation, s.read, first, last);
      if !any && !mode.unwatched {
        assert forall p :: first <= p <= last ==> !s.Page(p).read;
        return SystemPageGuestAccess(g, pages, parent, first) == ReadWrite, lo, hi;
      }
      handled := true;
      lo, hi := TellAndFire(a, b, mode, callbacks);
    }

    // A write that is told: the callbacks first, and then what they let go.
    method TellAndFire(a: nat, b: nat, mode: Mode, callbacks: Callbacks) returns (ghost lo: nat, ghost hi: nat)
      requires Shape() && a <= b < g.heapSize
      modifies this`s, this`history, this`calls
      ensures Shape() && WriteTold(g, Guest(), old(Now()), Now(), a, b, mode, callbacks, lo, hi)
      ensures old(Safe()) && (!mode.exact && mode.unprotect ==> AnswerAround(callbacks)) ==> Safe()
      ensures old(Opened()) && mode.unprotect ==> Opened()
      ensures old(Serving()) && mode.unprotect ==> (Serving() <==> StrandsNone(old(s), Guest(), lo, hi))
    {
      ghost var m0 := Now();
      var unwatchFirst, unwatchLast := TellWrite(a, b, mode, callbacks);
      lo, hi := unwatchFirst, unwatchLast;
      FireWindow(unwatchFirst, unwatchLast, mode.unprotect);
      if Guarded(m0.s, Owed(m0.history)) && (!mode.exact && mode.unprotect ==> AnswerAround(callbacks)) {
        ToldOwesNothing(g, m0, Now(), a, b, mode, callbacks, lo, hi);
        FireKeepsGuarded(m0.s, s, Owed(m0.history), Owed(history), Guest(), lo, hi, mode.unprotect);
      }
      if Open(m0.s, Guest()) && mode.unprotect {
        FireKeepsOpen(m0.s, s, Guest(), lo, hi);
      }
      FiredLetsWrites(m0.s, s, Guest(), lo, hi, mode.unprotect);
      if Serves(m0.s, Guest()) && mode.unprotect {
        WhenWriteServes(m0.s, s, Guest(), lo, hi);
      }
    }

    // Tells the callbacks of a write: those of invalidation, and then those of
    // reads where it drops read watches. Returns the pages to unwatch.
    method TellWrite(a: nat, b: nat, mode: Mode, callbacks: Callbacks) returns (lo: nat, hi: nat)
      requires Shape() && a <= b < g.heapSize
      modifies this`history, this`calls
      ensures IsTold(g, old(Now()), Now(), a, b, mode, callbacks, lo, hi)
    {
      lo, hi := NotifyInvalidated(a, b, mode, callbacks);
      var ns := NotifyDropped(s.read, lo, hi, a + g.hostOffset, b + 1 + g.hostOffset, g.systemPage, mode.discarded);
      calls := calls + NoticeCalls(g, ns);
    }

    // Tells every invalidation callback of the pages of a..b. Returns the pages
    // to unwatch, which the callbacks agree to where they answer around them.
    method NotifyInvalidated(a: nat, b: nat, mode: Mode, callbacks: Callbacks) returns (lo: nat, hi: nat)
      requires Shape() && a <= b < g.heapSize
      modifies this`history, this`calls
      ensures WriteReported(g, old(Now()), Now(), a, b, mode, callbacks, lo, hi)
    {
      PageOfMono(g, a, b);
      PageInHeap(g, b);
      ReportEnds(g, a, b);
      var first, last := g.SystemPageOf(a), g.SystemPageOf(b);
      var start, length := ReportStart(g, first), ReportLength(g, first, last);
      var answers := callbacks(start, length);
      calls := calls + [ReportCall(g, first, last, Invalidated)];
      history := history + [Notified(first, last)];
      lo, hi := first, last;
      if !mode.exact && mode.unprotect {
        lo, hi := UnwatchWindow(g, answers, start, start + length - 1);
        if AnswersCover(answers, start, start + length - 1) {
          history := history + [Agreed(lo, hi)];
        }
      }
    }

    method FireWindow(first: nat, last: nat, unprotect: bool)
      requires Shape() && first <= last < |s.host|
      modifies this`s
      ensures Shape() && |s.host| == |old(s.host)| && Fired(old(s), s, Guest(), first, last, unprotect)
    {
      if unprotect {
        UnprotectPages(first, last);
      }
      ClearWatches(first, last);
    }

    // A trigger for a byte range of the heap, clipped to it. Its write half
    // leaves the view safe where every callback answers around the request.
    method TriggerCallbacks(relative: int, size: nat, isWrite: bool, mode: Mode, callbacks: Callbacks)
      returns (handled: bool, ghost lo: nat, ghost hi: nat)
      requires Shape()
      modifies this`s, this`history, this`calls
      ensures Shape()
      ensures match Clip(relative, size, g.heapSize)
              case None => !handled && Now() == old(Now())
              case Some(r) =>
                if isWrite then WriteSettled(g, Guest(), old(Now()), Now(), r.0, r.1, mode, callbacks, handled, lo, hi)
                else ReadSettled(g, Guest(), old(Now()), Now(), r.0, r.1, mode.unprotect, handled)
      ensures old(Safe()) && (isWrite && !mode.exact && mode.unprotect ==> AnswerAround(callbacks)) ==> Safe()
      ensures old(Opened()) && mode.unprotect ==> Opened()
      ensures old(Serving()) && mode.unprotect ==>
        (Serving() <==> isWrite && Clip(relative, size, g.heapSize).Some? ==> StrandsNone(old(s), Guest(), lo, hi))
    {
      lo, hi := 0, 0;
      var range := Clip(relative, size, g.heapSize);
      if range.None? {
        return false, lo, hi;
      }
      if !isWrite {
        handled := TriggerRead(range.value.0, range.value.1, mode.unprotect);
      } else {
        handled, lo, hi := TriggerWrite(range.value.0, range.value.1, mode, callbacks);
      }
    }

    method TriggerRead(a: nat, b: nat, unprotect: bool) returns (handled: bool)
      requires Shape() && a <= b < g.heapSize
      modifies this`s, this`calls
      ensures Shape()
      ensures ReadSettled(g, Guest(), old(Now()), Now(), a, b, unprotect, handled)
      ensures (old(Safe()) ==> Safe()) && (old(Opened()) && unprotect ==> Opened())
      ensures old(Serving()) && unprotect ==> Serving()
    {
      PageOfMono(g, a, b);
      PageInHeap(g, b);
      var first, last := g.SystemPageOf(a), g.SystemPageOf(b);
      var any := AnyFlag(s.read, s.read, first, last);
      if !any {
        return SystemPageGuestAccess(g, pages, parent, first) != NoAccess;
      }
      ghost var s0 := s;
      calls := calls + [ReportCall(g, first, last, ToRead)];
      DropReads(first, last, unprotect);
      if Guarded(s0, Owed(history)) {
        ReadKeepsGuarded(s0, s, Owed(history), Guest(), first, last, unprotect);
      }
      if Open(s0, Guest()) && unprotect {
        ReadKeepsOpen(s0, s, Guest(), first, last);
      }
      DowngradedLetsReads(s0, s, Guest(), first, last, unprotect);
      if Serves(s0, Guest()) && unprotect {
        ReadServes(s0, s, Guest(), first, last);
      }
      return true;
    }

    method DropReads(first: nat, last: nat, unprotect: bool)
      requires Shape() && first <= last < |s.host|
      modifies this`s
      ensures Shape() && |s.host| == |old(s).host| && Downgraded(old(s), s, Guest(), first, last, unprotect)
    {
      if unprotect {
        DowngradePages(first, last);
      }
      var read := ClearFlags(s.read, first, last);
      s := s.(read := read);
    }

    // Lets an access through on each read-watched page, read-only where a write
    // watch stays.
    method DowngradePages(first: nat, last: nat)
      requires Shape() && first <= last < |s.host|
      modifies this`s
      ensures Shape() && s.invalidation == old(s.invalidation) && s.read == old(s.read)
      ensures forall p :: 0 <= p < |s.host| ==>
        s.host[p] == if first <= p <= last then ReadPage(old(s).Page(p), Guest()(p), true).host else old(s.host)[p]
    {
      ghost var s0 := s;
      var i := first;
      while i <= last
        invariant first <= i <= last + 1
        invariant Shape() && s.invalidation == s0.invalidation && s.read == s0.read && |s.host| == |s0.host|
        invariant forall p :: 0 <= p < |s.host| ==>
          s.host[p] == if first <= p < i then ReadPage(s0.Page(p), Guest()(p), true).host else s0.host[p]
      {
        if Flag(s.read, i) {
          var access := SystemPageGuestAccess(g, pages, parent, i);
          var target := access;
          if access != NoAccess && Flag(s.invalidation, i) {
            target := ReadOnly;
          }
          ProtectHost(i, 1, target);
        }
        i := i + 1;
      }
    }

    // Arms what the view shows of a physical range.
    method EnableAccessCallbacks(physicalAddress: nat, length: nat, onWrite: bool, onRead: bool)
      requires Shape()
      modifies this`s, this`history
      ensures Shape() && (old(Safe()) ==> Safe())
      ensures (old(Opened()) ==> Opened()) && (old(Serving()) ==> Serving())
      ensures |s.host| == |old(s).host|
      ensures var range := Clip(physicalAddress - g.physicalOffset, length, g.heapSize);
        if range.Some? && (onWrite || onRead) then
          var first, last := g.SystemPageOf(range.value.0), g.SystemPageOf(range.value.1);
          && first <= last < |s.host| && IsArmed(old(s), s, Guest(), first, last, onWrite, onRead)
          && history == old(history) + [Armed(NowArmed(s, first, last, onWrite))]
          && Arms(old(s), s, Guest(), first, last, onWrite, onRead) && Requests(history, Guest(), first, last, onWrite)
        else
          s == old(s) && history == old(history)
    {
      if !onWrite && !onRead {
        return;
      }
      var range := Clip(physicalAddress - g.physicalOffset, length, g.heapSize);
      if range.None? {
        return;
      }
      PageOfMono(g, range.value.0, range.value.1);
      PageInHeap(g, range.value.1);
      EnableAccessCallbacksInner(g.SystemPageOf(range.value.0), g.SystemPageOf(range.value.1), onWrite, onRead);
    }

    // --- Guest operations ---

    // Whole guest pages of the heap.
    ghost predicate IsGuestRange(relative: nat, size: nat) {
      && PagesTile(g) && 0 < size && relative + size <= g.heapSize
      && relative % g.guestPage == 0 && size % g.guestPage == 0
    }

    // Alloc: the pages are backed on the host unless only reserved, the tables
    // change, and the range is reported, watched or not.
    method Allocate(relative: nat, size: nat, commit: bool, protect: Protection, newPages: Pages, newParent: Pages,
                    callbacks: Callbacks)
      requires Safe() && IsGuestRange(relative, size)
      modifies this`s, this`history, this`calls, this`pages, this`parent
      ensures Safe() && pages == newPages && parent == newParent
      ensures |s.host| == |old(s).host|
      ensures RangeTold(g, old(Now()), Now(), Some((relative, relative + size - 1)), true)
      ensures IsAllocated(g, pages, old(s), s, Guest(), g.SystemPageOf(relative), g.SystemPageOf(relative + size - 1),
                          commit, protect)
      ensures BacksPages(g, old(s), s, Guest(), g.SystemPageOf(relative), g.SystemPageOf(relative + size - 1), commit,
                         protect)
    {
      pages, parent := newPages, newParent;
      AllocateBytes(relative, relative + size - 1, commit, protect, callbacks);
    }

    // Backs and reports bytes a..b, which the tables have as allocated.
    method AllocateBytes(a: nat, b: nat, commit: bool, protect: Protection, callbacks: Callbacks)
      requires Safe() && a <= b < g.heapSize
      modifies this`s, this`history, this`calls
      ensures Safe() && |s.host| == |old(s).host| && RangeTold(g, old(Now()), Now(), Some((a, b)), true)
      ensures IsAllocated(g, pages, old(s), s, Guest(), g.SystemPageOf(a), g.SystemPageOf(b), commit, protect)
      ensures BacksPages(g, old(s), s, Guest(), g.SystemPageOf(a), g.SystemPageOf(b), commit, protect)
    {
      ghost var m0 := Now();
      PageOfMono(g, a, b);
      PageInHeap(g, b);
      if commit {
        SetHostPages(g.SystemPageOf(a), g.SystemPageOf(b), protect);
      }
      ReportAllocated(a, b, commit, protect, callbacks, m0);
      AllocatedBacks(g, pages, m0.s, s, Guest(), g.SystemPageOf(a), g.SystemPageOf(b), commit, protect);
    }

    // The pages of a range allocated are reported.
    method ReportAllocated(a: nat, b: nat, ghost commit: bool, ghost protect: Protection, callbacks: Callbacks,
                           ghost m0: Moment)
      requires Shape() && a <= b < g.heapSize && m0.Fits(g) && Guarded(m0.s, Owed(m0.history))
      requires history == m0.history && calls == m0.calls && s.read == m0.s.read
      requires IsBacked(g, pages, m0.s, s, g.SystemPageOf(a), g.SystemPageOf(b), commit, protect)
      modifies this`s, this`history, this`calls
      ensures Safe() && |s.host| == |m0.s.host| && RangeTold(g, m0, Now(), Some((a, b)), true)
      ensures IsAllocated(g, pages, m0.s, s, Guest(), g.SystemPageOf(a), g.SystemPageOf(b), commit, protect)
    {
      ghost var m1 := Now();
      var handled, lo, hi := TriggerWrite(a, b, REMAP, callbacks);
      ExactIsTold(g, Guest(), m1, Now(), a, b, REMAP, callbacks, handled, lo, hi);
      BackedAndFired(g, pages, m0.s, m1.s, s, Guest(), g.SystemPageOf(a), g.SystemPageOf(b), commit, protect,
                     Owed(m0.history));
      OwedNext(m0.history, Notified(g.SystemPageOf(a), g.SystemPageOf(b)));
    }

    // Host pages of guest pages the table has set to a protection: one call, or
    // one for each page guest pages share.
    method SetHostPages(first: nat, last: nat, protect: Protection)
      requires Shape() && first <= last < |s.host|
      modifies this`s
      ensures Shape() && s.read == old(s.read) && IsBacked(g, pages, old(s), s, first, last, true, protect)
    {
      ghost var s0 := s;
      if g.systemPage <= g.guestPage {
        ProtectHost(first, last + 1 - first, ToPageAccess(protect));
        return;
      }
      var p := first;
      while p <= last
        invariant first <= p <= last + 1
        invariant Shape() && s.invalidation == s0.invalidation && s.read == s0.read && |s.host| == |s0.host|
        invariant forall i :: 0 <= i < |s.host| ==>
          s.host[i] == if first <= i < p then HostAccess(g, pages, protect, i) else s0.host[i]
      {
        ProtectHost(p, 1, HostAccess(g, pages, protect, p));
        p := p + 1;
      }
    }

    // Release, and Decommit: the range is reported, watched or not, before the
    // view's own table forgets it.
    method ReleaseOrDecommit(relative: int, size: nat, newPages: Pages, newParent: Pages, callbacks: Callbacks)
      requires Safe()
      modifies this`s, this`history, this`calls, this`pages, this`parent
      ensures Safe() && pages == newPages && parent == newParent
      ensures |s.host| == |old(s).host|
      ensures RangeTold(g, old(Now()), Now(), Clip(relative, size, g.heapSize), true)
      ensures forall p :: 0 <= p < |s.host| ==>
        s.Page(p) == if InRange(g, Clip(relative, size, g.heapSize), p)
                     then FirePage(old(s).Page(p), SystemPageGuestAccess(g, old(pages), parent, p), true)
                     else old(s).Page(p)
    {
      ghost var m0 := Now();
      parent := newParent;
      var handled, lo, hi := TriggerCallbacks(relative, size, true, REMAP, callbacks);
      ghost var range := Clip(relative, size, g.heapSize);
      if range.Some? {
        ExactIsTold(g, Guest(), m0, Now(), range.value.0, range.value.1, REMAP, callbacks, handled, lo, hi);
      }
      pages := newPages;
    }

    // Protect: a change that lets the guest write reports the range first. Then
    // the parent's table changes if the parent accepts it, and if the view does
    // too its own and the host pages of its guest pages. The view stays safe where
    // that opens only pages reported.
    method GuestProtect(relative: nat, size: nat, protect: Protection, parentOk: bool, accepted: bool,
                        newParent: Pages, callbacks: Callbacks)
      requires Shape() && PagesTile(g)
      requires accepted ==> parentOk && 0 < size && relative + size <= g.heapSize
      requires accepted ==> LastGuestPage(g, relative, size) < |pages| && GuestLast(g, relative, size) < |s.host|
      modifies this`s, this`history, this`calls, this`pages, this`parent
      ensures Shape() && |s.host| == |old(s).host|
      ensures pages == (if accepted then TableAfter(g, old(pages), relative, size, protect) else old(pages))
      ensures parent == (if parentOk then newParent else old(parent))
      ensures ProtectedPages(g, pages, old(s), s, relative, size, protect, accepted)
      ensures if IsWritable(protect) then RangeTold(g, old(Now()), Now(), Clip(relative, size, g.heapSize), false)
              else history == old(history) && calls == old(calls)
      ensures old(Safe()) && (accepted ==> KeepsWatch(g, old(pages), relative, size, protect)) ==> Safe()
    {
      ghost var m0, guest, pages0 := Now(), Guest(), pages;
      if IsWritable(protect) {
        ReportForProtect(relative, size, callbacks);
      }
      ghost var s1 := s;
      if parentOk {
        parent := newParent;
      }
      if accepted {
        pages := TableAfter(g, pages, relative, size, protect);
        SetGuestPages(relative, size, protect);
      }
      ToldAndSet(g, guest, pages, m0.s, s1, s, relative, size, protect, accepted);
      ProtectOwes(g, m0, Now(), relative, size, protect);
      if accepted {
        WhenOpens(g, pages0, relative, size, protect);
      }
      if Guarded(m0.s, Owed(m0.history)) && (accepted ==> KeepsWatch(g, pages0, relative, size, protect)) {
        ProtectKeepsGuarded(g, pages, m0.s, s, Owed(m0.history), relative, size, protect, accepted);
      }
    }

    method ReportForProtect(relative: nat, size: nat, callbacks: Callbacks)
      requires Shape()
      modifies this`s, this`history, this`calls
      ensures Shape() && |s.host| == |old(s).host|
      ensures RangeTold(g, old(Now()), Now(), Clip(relative, size, g.heapSize), false)
      ensures match Clip(relative, size, g.heapSize)
              case None => s == old(s)
              case Some(r) => Fired(old(s), s, Guest(), g.SystemPageOf(r.0), g.SystemPageOf(r.1), false)
    {
      ghost var m0 := Now();
      var handled, lo, hi := TriggerCallbacks(relative, size, true, PROTECT, callbacks);
      ghost var range := Clip(relative, size, g.heapSize);
      if range.Some? {
        ExactIsTold(g, Guest(), m0, Now(), range.value.0, range.value.1, PROTECT, callbacks, handled, lo, hi);
      }
    }

    // ApplyHostProtect for the guest pages of the range, which the table has.
    method SetGuestPages(relative: nat, size: nat, protect: Protection)
      requires Shape() && 0 < size && GuestLast(g, relative, size) < |s.host|
      modifies this`s
      ensures Shape() && |s.host| == |old(s).host| && HostSet(g, pages, old(s), s, relative, size, protect)
    {
      GuestOrder(g, relative, size);
      SetHostPages(GuestFirst(g, relative), GuestLast(g, relative, size), protect);
    }

    // --- Accesses ---

    // A thread writes a byte of the view. One that lands finds every arming of
    // its page settled since: reported, or the callbacks agreed not to watch. One
    // that faults fires the watch, so the next try lands where the guest may
    // write.
    method Write(relative: nat, callbacks: Callbacks)
      returns (landed: bool, handled: bool, ghost lo: nat, ghost hi: nat)
      requires Safe() && relative < g.heapSize && AnswerAround(callbacks)
      modifies this`s, this`history, this`calls
      ensures Safe()
      ensures g.SystemPageOf(relative) < |s.host|
      ensures landed <==> old(s).host[g.SystemPageOf(relative)] == ReadWrite
      ensures landed ==> Now() == old(Now()) && !Unsettled(history, g.SystemPageOf(relative))
      ensures !landed ==>
        WriteSettled(g, Guest(), old(Now()), Now(), relative, relative, FAULT, callbacks, handled, lo, hi)
      // One that faults leaves a page the guest may write writable, if it had a
      // watch to settle, as every such page has while the view is open.
      ensures old(Opened()) ==> Opened()
      ensures old(Serving()) ==> (Serving() <==> !landed ==> StrandsNone(old(s), Guest(), lo, hi))
      ensures !landed && Guest()(g.SystemPageOf(relative)) == ReadWrite &&
              (old(Opened()) || AnyWatched(old(s), g.SystemPageOf(relative), g.SystemPageOf(relative))) ==>
        s.host[g.SystemPageOf(relative)] == ReadWrite
    {
      var page := g.SystemPageOf(relative);
      PageInHeap(g, relative);
      OwedIsUnsettled(history, page);
      if s.host[page] == ReadWrite {
        return true, true, page, page;
      }
      ghost var m0 := Now();
      handled, lo, hi := TriggerWrite(relative, relative, FAULT, callbacks);
      landed := false;
      FaultOpens(g, Guest(), m0, Now(), relative, callbacks, handled, lo, hi);
    }

    // A thread reads a byte of the view. One that faults has the effect of its
    // trigger, and lands at its next try where the guest may read and the view
    // serves it.
    method Read(relative: nat) returns (landed: bool, handled: bool)
      requires Shape() && relative < g.heapSize
      modifies this`s, this`calls
      ensures Shape() && (old(Safe()) ==> Safe()) && (old(Opened()) ==> Opened()) && (old(Serving()) ==> Serving())
      ensures g.SystemPageOf(relative) < |s.host|
      ensures landed <==> old(s).host[g.SystemPageOf(relative)] != NoAccess
      ensures landed ==> Now() == old(Now())
      ensures !landed ==> ReadSettled(g, Guest(), old(Now()), Now(), relative, relative, true, handled)
      ensures !landed && Guest()(g.SystemPageOf(relative)) != NoAccess &&
              (old(Serving()) || Flag(old(s).read, g.SystemPageOf(relative))) ==>
        handled && s.host[g.SystemPageOf(relative)] != NoAccess
    {
      PageInHeap(g, relative);
      if s.host[g.SystemPageOf(relative)] != NoAccess {
        return true, true;
      }
      ghost var m0 := Now();
      handled := TriggerRead(relative, relative, true);
      landed := false;
      ReadFaultServes(g, Guest(), m0, Now(), relative, handled);
    }
  }
}
