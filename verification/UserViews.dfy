// The user mode views: pages of the window are mapped from the guest's page
// table as faults land in them, watched for writes and dropped by flushes
// (memory.cc). The host grants every reservation of a split page, and either
// grants or refuses a view, which the caller says. Faults are at pieces the
// guest has an address for.
module UserViews {
  import opened Wrappers
  import opened PageTable
  import opened UserTable
  import opened UserPieces
  import opened UserMapping
  import opened UserStates

  class UserViews {
    const backing: Backing
    const host: Host
    var table: Table
    var v: Views

    ghost predicate Ok()
      reads this
    {
      table.Valid() && ViewsOk(backing, host, v)
    }

    ghost predicate UpToDate()
      requires Ok()
      reads this
    {
      Clean(table, backing, host, v)
    }

    // EnableUserModeViews and FillGuestTlbs
    constructor (backing: Backing, host: Host, table: Table)
      requires table.Valid() && host.Valid()
      ensures this.backing == backing && this.host == host && this.table == table
      ensures Ok() && UpToDate() && v.mapped == {}
      ensures v.watched == ALL_PAGES
    {
      this.backing, this.host, this.table := backing, host, table;
      var tlb := seq(PIECES, i requires 0 <= i < PIECES =>
        if i == PIECES - 1 then (host.window + SMALL_PAGE - WORD) % U64
        else (host.window + if i < SKEWED_WINDOW / SMALL_PAGE then 0 else SMALL_PAGE) % U64);
      v := Views({}, map[], seq(PIECES, _ => UNSHOWN), seq(BLOCKS, _ => []), ALL_PAGES,
                 seq(PIECES, _ => NoAccess), tlb, tlb);
      new;
      forall k | 0 <= k < BLOCKS ensures BlockIs(v.pieces, v.blocks[k], k) {}
      forall p: nat | p < PIECES ensures Fresh(host, v, p) {}
    }

    // xe::memory::Protect over pieces of the window.
    method Protect(first: nat, count: nat, access: PageAccess)
      requires v.Sized() && first + count <= PIECES
      modifies `v
      ensures v == old(v).(host := Filled(old(v).host, first, count, access))
    {
      v := v.(host := Filled(v.host, first, count, access));
    }

    method UpdateUserTlb(first: nat, count: nat)
      requires host.Valid() && v.Sized() && first + count <= PIECES
      modifies `v
      ensures SameButHost(old(v), v)
      ensures !host.coarse ==> v == old(v)
      ensures host.coarse ==> forall q: nat ::
                q < PIECES && (first <= q < first + count || Fresh(host, old(v), q)) ==> Fresh(host, v, q)
    {
      if !host.coarse {
        return;
      }
      ghost var u := v;
      for p := first to first + count
        invariant SameButHost(u, v)
        invariant forall q: nat :: q < PIECES && (first <= q < p || Fresh(host, u, q)) ==> Fresh(host, v, q)
      {
        // One piece of a skewed window is reached by no guest address.
        if p * SMALL_PAGE != SKEWED_WINDOW {
          TlbStep(host, v, p);
          var i := TlbIndex(host, p);
          v := v.(readTlb := v.readTlb[i := TlbEntry(host, p, v.pieces[p], v.Access(p) != NoAccess)],
                  writeTlb := v.writeTlb[i := TlbEntry(host, p, v.pieces[p], v.Access(p) == ReadWrite)]);
        }
      }
    }

    // One host call for every maximal run of pieces with the same access.
    method ProtectUserPieces(first: nat, count: nat)
      requires host.Valid() && v.Sized() && first + count <= PIECES
      requires !host.coarse ==> forall q: nat :: first <= q < first + count ==> v.Showing(q)
      modifies `v
      ensures SameButHost(old(v), v)
      ensures forall q: nat ::
                q < PIECES && (first <= q < first + count || Fresh(host, old(v), q)) ==> Fresh(host, v, q)
    {
      if host.coarse {
        UpdateUserTlb(first, count);
        return;
      }
      ghost var u := v;
      var i := 0;
      while i < count
        invariant 0 <= i <= count
        invariant SameButHost(u, v)
        invariant forall q: nat :: q < PIECES && (first <= q < first + i || Fresh(host, u, q)) ==> Fresh(host, v, q)
      {
        var access := v.Access(first + i);
        var end := i + 1;
        while end < count && v.Access(first + end) == access
          invariant i < end <= count
          invariant forall q: nat :: first + i <= q < first + end ==> v.Access(q) == access
        {
          end := end + 1;
        }
        forall q: nat | first + i <= q < first + end ensures v.Showing(q) {
          assert u.Showing(q);
        }
        ProtectStep(host, v, first + i, end - i, access);
        Protect(first + i, end - i, access);
        i := end;
      }
    }

    // ForEachUserPieceShowing with ProtectUserPiece.
    method ProtectPiecesShowing(page: nat)
      requires host.Valid() && v.Sized() && IsInverse(v) && PiecesOk(backing, host, v) && page < PHYSICAL_PAGES
      modifies `v
      ensures SameButHost(old(v), v)
      ensures forall q: nat ::
                q < PIECES && (v.pieces[q].physical == Some(page) || Fresh(host, old(v), q)) ==> Fresh(host, v, q)
    {
      ghost var u := v;
      var k := page / PIECES_PER_VIEW;
      assert BlockIs(v.pieces, v.blocks[k], k);
      var i := 0;
      while i < |v.blocks[k]|
        invariant SameButHost(u, v)
        invariant 0 <= i <= |v.blocks[k]|
        invariant forall q: nat :: q < PIECES && Fresh(host, u, q) ==> Fresh(host, v, q)
        invariant forall q: nat :: q in u.blocks[k][..i] && q < PIECES && u.pieces[q].physical == Some(page) ==>
                    Fresh(host, v, q)
      {
        var p := v.blocks[k][i];
        assert p in v.blocks[k];
        assert InBlock(v.pieces, p, k);
        assert PieceOk(backing, host, p, u.pieces[p], u.Showing(p));
        if v.pieces[p].physical == Some(page) {
          ProtectUserPieces(p, 1);
        }
        assert v.blocks[k][..i + 1] == v.blocks[k][..i] + [p];
        i := i + 1;
      }
      assert v.blocks[k][..i] == v.blocks[k];
      forall q: nat | q < PIECES && v.pieces[q].physical == Some(page) ensures Fresh(host, v, q) {
        assert InBlock(v.pieces, q, k);
      }
    }

    // Watches or stops watching one page, with the views protected to match.
    method SetWatched(page: nat, watched: bool)
      requires Ok() && page < PHYSICAL_PAGES
      modifies `v
      ensures Ok() && (old(UpToDate()) ==> UpToDate())
      ensures v == old(v).(watched := if watched then old(v).watched + {page} else old(v).watched - {page},
                           host := v.host, readTlb := v.readTlb, writeTlb := v.writeTlb)
    {
      ghost var u := v;
      var pages := if watched then v.watched + {page} else v.watched - {page};
      WatchStep(host, v, page, pages);
      SameShape(backing, host, v, v.(watched := pages));
      v := v.(watched := pages);
      ProtectPiecesShowing(page);
      SameShape(backing, host, u, v);
    }

    method WatchUserWrites(address: nat, length: nat)
      requires Ok()
      modifies `v
      ensures Ok() && (old(UpToDate()) ==> UpToDate())
      ensures v == old(v).(watched := old(v).watched + PagesOf(address, length),
                           host := v.host, readTlb := v.readTlb, writeTlb := v.writeTlb)
      ensures forall p: nat :: p < PIECES && Named(host.Skewed(), p) ==>
                (ReadLands(host, v, p) <==> ReadLands(host, old(v), p))
    {
      if length == 0 || address >= PHYSICAL_SIZE {
        assert PagesOf(address, length) == {};
        return;
      }
      PagesOfRange(address, length);
      ghost var u, clean := v, UpToDate();
      var bytes := if length <= PHYSICAL_SIZE - address then length else PHYSICAL_SIZE - address;
      var last := (address + bytes - 1) / SMALL_PAGE;
      var page := address / SMALL_PAGE;
      while page <= last
        invariant address / SMALL_PAGE <= page <= last + 1
        invariant Ok() && (clean ==> UpToDate())
        invariant v == u.(watched := v.watched, host := v.host, readTlb := v.readTlb, writeTlb := v.writeTlb)
        invariant forall x :: x in v.watched <==> x in u.watched || address / SMALL_PAGE <= x < page
      {
        if page !in v.watched {
          SetWatched(page, true);
        }
        page := page + 1;
      }
      assert v.watched == u.watched + PagesOf(address, length);
      forall p: nat | p < PIECES && Named(host.Skewed(), p) ensures ReadLands(host, v, p) <==> ReadLands(host, u, p) {
        WatchesKeepReads(backing, host, u, v, p);
      }
    }

    // Reports the page written, if its next write was to be, and lets the
    // pieces showing it be written.
    method TriggerUserWriteWatch(p: nat) returns (reported: Option<nat>)
      requires Ok() && p < PIECES
      modifies `v
      ensures Ok() && (old(UpToDate()) ==> UpToDate())
      ensures reported == match old(v).pieces[p].physical
                          case Some(page) => if page in old(v).watched then Some(page) else None
                          case None => None
      ensures reported.None? ==> v == old(v)
      ensures reported.Some? ==> v == old(v).(watched := old(v).watched - {reported.value},
                                              host := v.host, readTlb := v.readTlb, writeTlb := v.writeTlb)
    {
      var page := v.pieces[p].physical;
      if page == None || page.value !in v.watched {
        return None;
      }
      SetWatched(page.value, false);
      reported := page;
    }

    // Forgets what the pieces of an unmapped page showed.
    method ForgetPieces(index: nat)
      requires host.Valid() && index < PIECES / PIECES_PER_VIEW && v.Sized() && IsInverse(v)
      requires forall p: nat :: p < PIECES && v.pieces[p].physical.Some? ==> v.pieces[p].physical.value < PHYSICAL_PAGES
      modifies `v
      ensures v.Sized() && IsInverse(v)
      ensures v == old(v).(pieces := v.pieces, blocks := v.blocks)
      ensures forall p: nat :: p < PIECES ==>
                v.pieces[p] == if InPage(p, index) then UNSHOWN.(key := old(v).pieces[p].key) else old(v).pieces[p]
    {
      ghost var u := v;
      var first := index * PIECES_PER_VIEW;
      for p := first to first + PIECES_PER_VIEW
        invariant v.Sized() && IsInverse(v)
        invariant v == u.(pieces := v.pieces, blocks := v.blocks)
        invariant forall q: nat :: q < PIECES ==>
                    v.pieces[q] == if first <= q < p then UNSHOWN.(key := u.pieces[q].key) else u.pieces[q]
      {
        ForgottenKeepsInverse(v, p);
        v := Forgotten(v, p);
      }
      assert forall q: nat :: InPage(q, index) <==> first <= q < first + PIECES_PER_VIEW;
    }

    method ReleaseUserPage(index: nat)
      requires Ok() && index in v.mapped
      modifies `v
      ensures Ok() && (old(UpToDate()) ==> UpToDate()) && IsReleased(old(v), v, index)
    {
      ghost var u := v;
      forall p: nat | p < PIECES && v.pieces[p].physical.Some? ensures v.pieces[p].physical.value < PHYSICAL_PAGES {
        assert PieceOk(backing, host, p, v.pieces[p], v.Showing(p));
      }
      SamePhysicalKeepsInverse(v, Unmapped(v, index));
      v := Unmapped(v, index);
      ForgetPieces(index);
      assert IsReleased(u, v, index);
      forall q: nat | q < PIECES && (!InPage(q, index) || !host.coarse) ensures Fresh(host, v, q) {
        ReleasedIsFresh(host, u, v, index, q);
      }
      ghost var w := v;
      UpdateUserTlb(index * PIECES_PER_VIEW, PIECES_PER_VIEW);
      forall q: nat | q < PIECES ensures Fresh(host, v, q) {
        assert InPage(q, index) <==> index * PIECES_PER_VIEW <= q < index * PIECES_PER_VIEW + PIECES_PER_VIEW;
        assert host.coarse ==> InPage(q, index) || Fresh(host, w, q);
      }
      assert IsReleased(u, v, index);
      ReleasedIsOk(backing, host, u, v, index);
      SamePhysicalKeepsInverse(w, v);
    }

    method FlushUserPageTable()
      requires Ok()
      modifies `v
      ensures Ok() && UpToDate() && v.mapped == {} && v.watched == old(v).watched
    {
      ghost var u := v;
      var index := 0;
      while index < PIECES / PIECES_PER_VIEW
        invariant Ok() && v.watched == u.watched
        invariant forall i :: i in v.mapped ==> index <= i
      {
        if index in v.mapped {
          ReleaseUserPage(index);
        }
        index := index + 1;
      }
      assert forall i :: i !in v.mapped;
    }

    // Whether the table has words for a shown piece of a page other than those
    // it was mapped from. A changed bit that was clear and is set now is no
    // difference, but one that was set and is clear is.
    method HasChanged(index: nat) returns (changed: bool)
      requires Ok() && index in v.mapped
      ensures changed <==> PageChanged(table, host, v, index)
    {
      changed := false;
      var i := 0;
      var first := index * PIECES_PER_VIEW;
      while i < PIECES_PER_VIEW && !changed
        invariant 0 <= i <= PIECES_PER_VIEW
        invariant changed ==> PageChanged(table, host, v, index)
        invariant !changed ==> forall p: nat :: first <= p < first + i && v.Showing(p) ==>
                                 Agrees(v.pieces[p].key, Key(table, host.Skewed(), p))
      {
        var p := first + i;
        if index !in v.split || p in v.split[index] {
          assert InPage(p, index) && v.Showing(p);
          var before, now := v.pieces[p].key, Key(table, host.Skewed(), p);
          changed := now != before && (IsChanged(before) || before % WORD == 0 || now != SetChanged(before));
        }
        i := i + 1;
      }
      if !changed {
        assert forall p: nat :: InPage(p, index) ==> first <= p < first + PIECES_PER_VIEW;
      }
    }

    // Drops the pages whose words changed and no others. What is left is up to
    // date with the table.
    method FlushChangedUserPages()
      requires Ok()
      modifies `v
      ensures Ok() && UpToDate() && v.watched == old(v).watched
      ensures forall i :: i in v.mapped <==> i in old(v).mapped && !PageChanged(table, host, old(v), i)
      // That is, every page whose shown pieces keep their words.
      ensures forall i :: i in v.mapped <==>
        i in old(v).mapped &&
        forall p: nat :: p < PIECES && InPage(p, i) && old(v).Showing(p) ==>
          KeepsWords(old(v).pieces[p].key, Key(table, host.Skewed(), p))
      ensures forall p: nat :: p < PIECES && v.Showing(p) ==>
                old(v).Showing(p) && v.pieces[p] == old(v).pieces[p] && v.pieces[p].key != SENTINEL
      ensures forall p: nat :: p < PIECES && old(v).Showing(p) && p / PIECES_PER_VIEW in v.mapped ==> v.Showing(p)
    {
      ghost var u := v;
      var index := 0;
      while index < PIECES / PIECES_PER_VIEW
        invariant 0 <= index <= PIECES / PIECES_PER_VIEW
        invariant Ok() && v.watched == u.watched
        invariant forall i :: i in v.mapped <==> i in u.mapped && (i < index ==> !PageChanged(table, host, u, i))
        invariant KeepsPages(u, v)
      {
        if index in v.mapped {
          KeptPageChanged(table, host, u, v, index);
          var changed := HasChanged(index);
          if changed {
            ReleaseUserPage(index);
          }
        }
        index := index + 1;
      }
      FlushedIsClean(table, backing, host, u, v);
      forall i: nat ensures !PageChanged(table, host, u, i) <==>
        forall p: nat :: p < PIECES && InPage(p, i) && u.Showing(p) ==>
          KeepsWords(u.pieces[p].key, Key(table, host.Skewed(), p))
      {
        WhenPageChanged(table, host, u, i);
      }
    }

    // Lets the waiting pieces of the page that the entry of `p` maps be written.
    method UnlockPieces(p: nat) returns (written: set<nat>)
      requires table.Valid() && v.Sized() && p < PIECES
      modifies `v
      ensures v == old(v).(pieces := v.pieces) && IsMarked(table, host, old(v), v, p)
      ensures forall q: nat :: q in written <==> q < PIECES && Unlocked(table, host, old(v), p, q)
    {
      ghost var u := v;
      var first := p / PIECES_PER_VIEW * PIECES_PER_VIEW;
      var entry := EntryOf(table, host, p);
      written := {};
      for other := first to first + PIECES_PER_VIEW
        invariant v.Sized() && v == u.(pieces := v.pieces)
        invariant forall q: nat :: q in written <==> first <= q < other && Unlocked(table, host, u, p, q)
        invariant forall q: nat :: q < PIECES ==>
                    v.pieces[q] == if q in written then Changed(u.pieces[q]) else u.pieces[q]
      {
        if v.pieces[other].waiting && (other == p || EntryOf(table, host, other) == entry) {
          assert other / PIECES_PER_VIEW == p / PIECES_PER_VIEW;
          written := written + {other};
          v := v.(pieces := v.pieces[other := Changed(v.pieces[other])]);
        }
      }
      assert forall q: nat :: q / PIECES_PER_VIEW == p / PIECES_PER_VIEW <==> first <= q < first + PIECES_PER_VIEW;
    }

    // Protects the written pieces, a run of equal access at a time, or piece by
    // piece where each has a view of its own.
    method ProtectWritten(first: nat, written: set<nat>, isSplit: bool)
      requires v.Sized() && !host.coarse && first + PIECES_PER_VIEW <= PIECES
      requires forall q :: q in written ==> first <= q < first + PIECES_PER_VIEW && v.Showing(q)
      modifies `v
      ensures SameButHost(old(v), v)
      ensures forall q: nat :: q < PIECES && (q in written || Fresh(host, old(v), q)) ==> Fresh(host, v, q)
    {
      ghost var u := v;
      var i := 0;
      while i < PIECES_PER_VIEW
        invariant 0 <= i <= PIECES_PER_VIEW
        invariant SameButHost(u, v)
        invariant forall q: nat :: q < PIECES && ((q in written && q < first + i) || Fresh(host, u, q)) ==>
                    Fresh(host, v, q)
      {
        if first + i !in written {
          i := i + 1;
        } else {
          var access := v.Access(first + i);
          var end := i + 1;
          while !isSplit && end < PIECES_PER_VIEW && first + end in written && v.Access(first + end) == access
            invariant i < end <= PIECES_PER_VIEW
            invariant forall q: nat :: first + i <= q < first + end ==> q in written && v.Access(q) == access
          {
            end := end + 1;
          }
          forall q: nat | first + i <= q < first + end ensures v.Showing(q) {
            assert u.Showing(q);
          }
          ProtectStep(host, v, first + i, end - i, access);
          Protect(first + i, end - i, access);
          i := end;
        }
      }
    }

    // Records the write behind a fault in the entry of the piece, and lets the
    // pieces of the page the entry maps be written. `settled` is false where there
    // was nothing to record.
    method MarkUserPieceChanged(p: nat) returns (settled: bool)
      requires Ok() && p < PIECES && Named(host.Skewed(), p)
      modifies this
      ensures Ok() && (old(UpToDate()) ==> UpToDate())
      ensures settled == old(v).pieces[p].waiting
      ensures !settled ==> v == old(v) && table == old(table)
      ensures settled ==> table == Written(old(table), backing, host, p)
      ensures settled ==> IsMarked(old(table), host, old(v), v, p)
      // No piece of the page that the entry maps waits any longer.
      ensures settled ==>
                forall q: nat :: q < PIECES && q / PIECES_PER_VIEW == p / PIECES_PER_VIEW && v.pieces[q].waiting ==>
                  Locate(table, UserAddress(host.Skewed(), q)).at != Locate(table, UserAddress(host.Skewed(), p)).at
    {
      if !v.pieces[p].waiting {
        return false;
      }
      ghost var t, u, clean := table, v, UpToDate();
      var first := p / PIECES_PER_VIEW * PIECES_PER_VIEW;
      var written := UnlockPieces(p);
      assert forall q: nat :: q / PIECES_PER_VIEW == p / PIECES_PER_VIEW <==> first <= q < first + PIECES_PER_VIEW;
      ghost var w := v;
      forall q: nat | q < PIECES && q !in written ensures Fresh(host, w, q) {
        MarkedIsFresh(t, host, u, w, p, q);
      }
      forall q | q in written ensures w.Showing(q) {
        assert PieceOk(backing, host, q, u.pieces[q], u.Showing(q));
      }
      if host.coarse {
        UpdateUserTlb(first, PIECES_PER_VIEW);
      } else {
        ProtectWritten(first, written, p / PIECES_PER_VIEW in v.split);
      }
      MarkedIsOk(t, backing, host, u, v, p);
      if clean {
        MarkedIsClean(t, backing, host, u, v, p);
      }
      table := Written(table, backing, host, p);
      forall q: nat | q < PIECES && q / PIECES_PER_VIEW == p / PIECES_PER_VIEW &&
        EntryOf(table, host, q) == EntryOf(table, host, p)
        ensures !v.pieces[q].waiting
      {
        WrittenKeepsPlaces(t, backing, host, p, q);
        WrittenKeepsPlaces(t, backing, host, p, p);
        assert Unlocked(t, host, u, p, q) || !u.pieces[q].waiting;
      }
      settled := true;
    }

    // Records the physical memory a run of pieces shows. Physical memory follows
    // the first 4 GB of the file.
    method TrackUserPieces(first: nat, count: nat, filePage: nat)
      requires v.Sized() && IsInverse(v) && first + count <= PIECES
      requires filePage < PHYSICAL_FILE_PAGE ==> filePage + count <= PHYSICAL_FILE_PAGE
      requires forall p: nat :: first <= p < first + count ==> v.pieces[p].physical == None
      modifies `v
      ensures v.Sized() && IsInverse(v) && v == old(v).(pieces := v.pieces, blocks := v.blocks)
      ensures forall p: nat :: p < PIECES ==>
                v.pieces[p] == if first <= p < first + count
                               then old(v).pieces[p].(physical := PhysicalPage(filePage + (p - first)))
                               else old(v).pieces[p]
    {
      if filePage < PHYSICAL_FILE_PAGE || filePage - PHYSICAL_FILE_PAGE >= PHYSICAL_PAGES {
        return;
      }
      ghost var u := v;
      var firstPage := filePage - PHYSICAL_FILE_PAGE;
      var i := 0;
      while i < count && firstPage + i < PHYSICAL_PAGES
        invariant 0 <= i <= count
        invariant v.Sized() && IsInverse(v) && v == u.(pieces := v.pieces, blocks := v.blocks)
        invariant forall p: nat :: p < PIECES ==>
                    v.pieces[p] == if first <= p < first + i
                                   then u.pieces[p].(physical := PhysicalPage(filePage + (p - first)))
                                   else u.pieces[p]
      {
        var page := firstPage + i;
        var k, p := page / PIECES_PER_VIEW, first + i;
        var piece := v.pieces[p].(physical := Some(page));
        TrackKeepsInverse(v, p, page, piece);
        v := v.(pieces := v.pieces[p := piece], blocks := v.blocks[k := v.blocks[k] + [p]]);
        i := i + 1;
      }
    }

    // What the pieces of a run are mapped from and allow, and which wait for a
    // write to their entry.
    method RecordPieces(run: Run)
      requires table.Valid() && v.Sized() && IsInverse(v) && run.Fits()
      requires forall p: nat :: run.Has(p) ==> v.pieces[p].physical == None
      modifies `v
      ensures v.Sized() && IsInverse(v) && v == old(v).(pieces := v.pieces)
      ensures forall p: nat :: p < PIECES ==>
                v.pieces[p] == if run.Has(p) then run.Record(table, backing, host, p).(physical := None)
                               else old(v).pieces[p]
    {
      ghost var u := v;
      var i := 0;
      while i < run.count
        invariant 0 <= i <= run.count
        invariant v.Sized() && v == u.(pieces := v.pieces)
        invariant forall p: nat :: p < PIECES ==>
                    v.pieces[p] == if run.first <= p < run.first + i
                                   then run.Record(table, backing, host, p).(physical := None) else u.pieces[p]
      {
        var p := run.first + i;
        var waits := run.fromEntry && Waits(table, backing, run.address + i * SMALL_PAGE);
        var piece := Piece(Some(run.filePage + i), None, run.access, Key(table, host.Skewed(), p), waits);
        v := v.(pieces := v.pieces[p := piece]);
        i := i + 1;
      }
      SamePhysicalKeepsInverse(u, v);
    }

    // Shows a run of pieces the host has given a view.
    method ShowPieces(run: Run)
      requires table.Valid() && host.Valid() && v.Sized() && IsInverse(v) && run.Fits()
      requires forall p: nat :: run.Has(p) ==> v.Showing(p) && v.pieces[p].physical == None
      requires forall p: nat :: p < PIECES && !run.Has(p) ==> Fresh(host, v, p)
      modifies `v
      ensures Shows(table, backing, host, old(v), v, run) && IsInverse(v) && AllFresh(host, v)
    {
      ghost var u := v;
      RecordPieces(run);
      TrackUserPieces(run.first, run.count, run.filePage);
      assert Shows(table, backing, host, u, v, run);
      forall p: nat | p < PIECES && !run.Has(p) ensures Fresh(host, v, p) {
        ShownIsFresh(host, u, v, p);
      }
      forall p: nat | run.Has(p) ensures v.Showing(p) {
        assert u.Showing(p);
      }
      ghost var w := v;
      ProtectUserPieces(run.first, run.count);
      SamePhysicalKeepsInverse(w, v);
      assert Shows(table, backing, host, u, v, run);
    }

    // Shows a run of pieces opened for it.
    method ShowOpened(ready: Views, run: Run)
      requires Ok() && run.Fits() && Shaped(ready) && Opens(v, ready, run)
      requires forall q: nat :: run.Has(q) ==> PieceOk(backing, host, q, run.Record(table, backing, host, q), true)
      modifies `v
      ensures Ok() && Shows(table, backing, host, ready, v, run)
    {
      ghost var u := v;
      OpenedIsReady(backing, host, u, ready, run);
      v := ready;
      ShowPieces(run);
      ShownIsOk(table, backing, host, u, ready, v, run);
    }

    method MapUserPiece(p: nat, allowFallback: bool, refused: set<nat>) returns (ok: bool)
      requires Ok() && p < PIECES && p / PIECES_PER_VIEW in v.split
      modifies `v
      ensures Ok()
      ensures old(v).Showing(p) ==> ok && v == old(v)
      ensures !old(v).Showing(p) ==>
                match Alone(table, backing, host, p, allowFallback, refused)
                case Some(r) => ok && MapsPiece(table, backing, host, old(v), v, p, r)
                case None => !ok && v == old(v)
      ensures ok && !old(v).Showing(p) && Named(host.Skewed(), p) ==>
                AllowsItsEntry(table, backing, host, p, v.pieces[p].access)
    {
      var index := p / PIECES_PER_VIEW;
      if p in v.split[index] {
        return true;
      }
      ghost var u := v;
      var r := Resolve(table, backing, host, p, allowFallback);
      if r == None || (!host.coarse && p in refused) {
        return false;
      }
      PieceOpens(table, backing, host, v, p, allowFallback);
      ShowOpened(v.(split := v.split[index := v.split[index] + {p}]), RunOf(host, p, r.value));
      PieceMapsPage(table, backing, host, u, v, p, allowFallback);
      MappedAsAllowed(table, backing, host, u, v);
      ok := true;
    }

    // Shows a page per piece. The host grants the reservation.
    method SplitUserPage(index: nat, refused: set<nat>)
      requires Ok() && index < PIECES / PIECES_PER_VIEW && index !in v.mapped
      modifies `v
      ensures Ok() && SplitsPage(table, backing, host, old(v), v, index, refused)
    {
      ghost var u := v;
      var first := index * PIECES_PER_VIEW;
      SplitOpens(backing, host, v, index);
      SplitStart(table, backing, host, v, index, refused, first);
      v := v.(mapped := v.mapped + {index}, split := v.split[index := {}]);
      for p := first to first + PIECES_PER_VIEW
        invariant Ok() && SplitTo(table, backing, host, u, v, index, refused, p)
      {
        ghost var w := v;
        assert InPage(p, index) && !ShownAlone(table, backing, host, index, refused, p, p);
        var _ := MapUserPiece(p, false, refused);
        SplitStep(table, backing, host, u, w, v, index, refused, p);
      }
      SplitEnd(table, backing, host, u, v, index, refused, first + PIECES_PER_VIEW);
    }

    // Shows a whole page in one view the host has granted.
    method MapView(index: nat, run: Run)
      requires Ok() && index < PIECES / PIECES_PER_VIEW && index !in v.mapped && run.Fits()
      requires run.first == index * PIECES_PER_VIEW && run.count == PIECES_PER_VIEW
      requires forall q: nat :: run.Has(q) ==> PieceOk(backing, host, q, run.Record(table, backing, host, q), true)
      modifies `v
      ensures Ok() && MapsView(table, backing, host, old(v), v, index, run)
    {
      assert forall q: nat :: run.Has(q) <==> InPage(q, index);
      ShowOpened(v.(mapped := v.mapped + {index}), run);
    }

    // How the entries of the page of a fault can be shown.
    method ChooseView(p: nat) returns (choice: Choice)
      requires Ok() && p < PIECES
      ensures choice == Choose(table, backing, host, p)
    {
      var address, page := UserAddress(host.Skewed(), p), PageAddress(host, p);
      var tr := Translate(table, backing, address);
      if tr.state != Mapped {
        return NoView;
      }
      var block := Wrap(tr.physical - (address - page));
      if block % VIEW_PAGE != 0 {
        return PerPiece;
      }
      if IsSmall(table, page) {
        var contiguous := PageBlockIsContiguous(table, backing, page, block);
        if !contiguous {
          return PerPiece;
        }
      }
      choice := Whole(block, EntryAccess(tr.pp));
    }

    // Whether some piece of a page resolves to an entry, so that the page may not
    // be shown as one fallback.
    method PageHasEntry(index: nat) returns (r: bool)
      requires Ok() && index < PIECES / PIECES_PER_VIEW
      ensures r <==> HasEntry(table, backing, host, index)
    {
      var first := index * PIECES_PER_VIEW;
      for p := first to first + PIECES_PER_VIEW
        invariant forall q: nat :: first <= q < p ==> Resolve(table, backing, host, q, false).None?
      {
        assert InPage(p, index);
        if Translate(table, backing, UserAddress(host.Skewed(), p)).state == Mapped {
          assert Resolve(table, backing, host, p, false).Some?;
          return true;
        }
      }
      assert forall q: nat :: InPage(q, index) <==> first <= q < first + PIECES_PER_VIEW;
      r := false;
    }

    // Splits the page of a fault and shows the piece the fault is in.
    method SplitAndMap(p: nat, allowFallback: bool, refused: set<nat>) returns (ok: bool)
      requires Ok() && p < PIECES && p / PIECES_PER_VIEW !in v.mapped && !Choose(table, backing, host, p).Whole?
      modifies `v
      ensures Ok() && MapsPage(table, backing, host, old(v), v, p, allowFallback)
      ensures ok == v.Showing(p) && ok == Alone(table, backing, host, p, allowFallback, refused).Some?
      ensures refused == {} ==> HidesNone(table, backing, host, v, p / PIECES_PER_VIEW)
    {
      ghost var u := v;
      SplitUserPage(p / PIECES_PER_VIEW, refused);
      SplitMapsPage(table, backing, host, u, v, p, refused, allowFallback);
      ghost var m := v;
      assert v.Showing(p) <==> ShownAlone(table, backing, host, p / PIECES_PER_VIEW, refused, PIECES, p);
      ok := MapUserPiece(p, allowFallback, refused);
      if v != m {
        PieceMapsPage(table, backing, host, m, v, p, allowFallback);
        SplitThenMaps(table, backing, host, u, m, v, p, allowFallback);
      }
    }

    // Makes the faulting piece show something: its entry, or with
    // `allowFallback` kernel memory where it has none.
    method MapUserPage(p: nat, allowFallback: bool, viewGranted: bool, refused: set<nat>) returns (ok: bool)
      requires Ok() && p < PIECES && Named(host.Skewed(), p) && StartsAlike(table, host, p)
      modifies `v
      ensures Ok() && MapsPage(table, backing, host, old(v), v, p, allowFallback) && ok == v.Showing(p)
      ensures old(UpToDate()) ==> UpToDate()
      ensures ok ==> old(v).Showing(p) || allowFallback || Resolve(table, backing, host, p, false).Some?
      ensures viewGranted && refused == {} ==>
                (old(v).Showing(p) || allowFallback || Resolve(table, backing, host, p, false).Some? ==> ok)
      ensures refused == {} && p / PIECES_PER_VIEW in v.mapped - old(v).mapped ==>
                HidesNone(table, backing, host, v, p / PIECES_PER_VIEW)
      ensures MapsAsAllowed(table, backing, host, old(v), v)
    {
      var index := p / PIECES_PER_VIEW;
      ghost var u, clean := v, UpToDate();
      if index in v.mapped {
        if index !in v.split {
          return true;
        }
        ok := MapUserPiece(p, allowFallback, refused);
        if v != u {
          PieceMapsPage(table, backing, host, u, v, p, allowFallback);
        }
      } else {
        ok := MapUnmappedPage(p, allowFallback, viewGranted, refused);
      }
      MappedAsAllowed(table, backing, host, u, v);
      if clean {
        MappingKeepsClean(table, backing, host, u, v);
      }
    }

    method MapUnmappedPage(p: nat, allowFallback: bool, viewGranted: bool, refused: set<nat>) returns (ok: bool)
      requires Ok() && p < PIECES && Named(host.Skewed(), p) && StartsAlike(table, host, p)
      requires p / PIECES_PER_VIEW !in v.mapped
      modifies `v
      ensures Ok() && MapsPage(table, backing, host, old(v), v, p, allowFallback) && ok == v.Showing(p)
      ensures ok ==> allowFallback || Resolve(table, backing, host, p, false).Some?
      ensures viewGranted && refused == {} ==>
                (allowFallback || Resolve(table, backing, host, p, false).Some? ==> ok)
      ensures refused == {} && p / PIECES_PER_VIEW in v.mapped ==>
                HidesNone(table, backing, host, v, p / PIECES_PER_VIEW)
    {
      var index := p / PIECES_PER_VIEW;
      var choice := ChooseView(p);
      if choice == PerPiece {
        ok := SplitAndMap(p, allowFallback, refused);
        return;
      }
      if allowFallback && choice == NoView {
        var has := PageHasEntry(index);
        if has {
          ok := SplitAndMap(p, true, refused);
          return;
        }
      }
      if choice == NoView && !allowFallback {
        return false;
      }
      if !viewGranted {
        return false;
      }
      if choice == NoView {
        ShowFallback(p);
      } else {
        ShowWhole(p, choice, allowFallback);
      }
      ok := true;
    }

    // Makes one fallback of a page with no entry.
    method ShowFallback(p: nat)
      requires Ok() && p < PIECES && p / PIECES_PER_VIEW !in v.mapped
      requires !HasEntry(table, backing, host, p / PIECES_PER_VIEW)
      modifies `v
      ensures Ok() && MapsPage(table, backing, host, old(v), v, p, true)
      ensures v.Showing(p) && HidesNone(table, backing, host, v, p / PIECES_PER_VIEW)
    {
      ghost var u := v;
      var index := p / PIECES_PER_VIEW;
      var run := Run(index * PIECES_PER_VIEW, PIECES_PER_VIEW, FallbackFilePage(index, host.granules),
                     ReadWrite, false, 0);
      FallbackFitsFile(host, index);
      forall q: nat | run.Has(q) ensures PieceOk(backing, host, q, run.Record(table, backing, host, q), true) {
        assert InPage(q, index);
        assert Resolve(table, backing, host, q, false).None?;
        FallbackPieceOk(table, backing, host, q);
      }
      MapView(index, run);
      forall q: nat | q < PIECES && InPage(q, index) ensures HasReason(table, backing, host, v, p, q, true) {
        assert run.Has(q);
      }
      ViewMapsPage(table, backing, host, u, v, p, run, true);
    }

    // Shows the entries of a page in one view.
    method ShowWhole(p: nat, choice: Choice, ghost allowFallback: bool)
      requires Ok() && p < PIECES && Named(host.Skewed(), p) && StartsAlike(table, host, p)
      requires p / PIECES_PER_VIEW !in v.mapped && choice.Whole? && choice == Choose(table, backing, host, p)
      modifies `v
      ensures Ok() && MapsPage(table, backing, host, old(v), v, p, allowFallback)
      ensures v.Showing(p) && HidesNone(table, backing, host, v, p / PIECES_PER_VIEW)
    {
      ghost var u := v;
      var index := p / PIECES_PER_VIEW;
      var run := WholeRun(host, p, choice.block, choice.access);
      WholeRunFits(table, backing, host, p);
      forall q: nat | run.Has(q) ensures PieceOk(backing, host, q, run.Record(table, backing, host, q), true) {
        assert InPage(q, index);
        WholeRunIsOk(table, backing, host, p, q, choice.block, choice.access);
      }
      MapView(index, run);
      forall q: nat | q < PIECES && InPage(q, index) ensures HasReason(table, backing, host, v, p, q, allowFallback) {
        WholeHasReason(table, backing, host, v, p, q, allowFallback);
      }
      ViewMapsPage(table, backing, host, u, v, p, run, allowFallback);
    }

    // Waives what the entry of a piece forbids. The sentinel key has the next
    // flush drop the piece.
    method AllowAccess(p: nat)
      requires Ok() && p < PIECES && Named(host.Skewed(), p) && v.pieces[p].access != ReadWrite
      modifies `v
      ensures Ok() && (old(UpToDate()) ==> UpToDate())
      ensures old(v).Showing(p)
      ensures v == old(v).(pieces := old(v).pieces[p := Waived(old(v).pieces[p])],
                           host := v.host, readTlb := v.readTlb, writeTlb := v.writeTlb)
    {
      ghost var u, clean := v, UpToDate();
      WaivedPieceOk(backing, host, p, v.pieces[p], v.Showing(p));
      v := v.(pieces := v.pieces[p := Waived(v.pieces[p])]);
      ghost var w := v;
      forall q: nat | q < PIECES && q != p ensures Fresh(host, v, q) {
        ShownIsFresh(host, u, v, q);
      }
      ProtectUserPieces(p, 1);
      SamePhysicalKeepsInverse(u, v);
      forall q: nat | q < PIECES ensures PieceOk(backing, host, q, v.pieces[q], v.Showing(q)) {
        assert PieceOk(backing, host, q, u.pieces[q], u.Showing(q));
      }
      if clean {
        forall q: nat | q < PIECES && v.Showing(q) && Named(host.Skewed(), q)
          ensures Current(table, backing, host, q, v.pieces[q])
        {
          assert u.Showing(q) && Current(table, backing, host, q, u.pieces[q]);
          if q == p {
            WaivedIsCurrent(table, backing, host, p, u.pieces[p]);
          }
        }
      }
    }

    // Fires the write watches a fault is due to: that of its piece, or with
    // `isView` those of all pieces in its host page. Returns the pages to report.
    method TriggerHostPage(p: nat, isView: bool) returns (reported: set<nat>)
      requires Ok() && p < PIECES
      modifies `v
      ensures Ok() && (old(UpToDate()) ==> UpToDate())
      ensures v == old(v).(watched := old(v).watched - reported, host := v.host,
                           readTlb := v.readTlb, writeTlb := v.writeTlb)
      ensures reported <= old(v).watched
      ensures reported == {} ==> v == old(v)
      ensures v.pieces[p].physical.Some? ==> v.pieces[p].physical.value !in v.watched
      ensures !host.coarse || !isView ==>
                reported == match v.pieces[p].physical
                            case Some(page) => if page in old(v).watched then {page} else {}
                            case None => {}
    {
      ghost var u, clean := v, UpToDate();
      reported := {};
      var first, count := p, 1;
      if host.coarse && isView {
        first, count := p - p % host.perPage, host.perPage;
        HostPageFits(p, host.perPage);
      }
      for q := first to first + count
        invariant Ok() && (clean ==> UpToDate())
        invariant reported <= u.watched
        invariant v == u.(watched := u.watched - reported, host := v.host, readTlb := v.readTlb, writeTlb := v.writeTlb)
        invariant reported == {} ==> v == u
        invariant p < q && v.pieces[p].physical.Some? ==> v.pieces[p].physical.value !in v.watched
        invariant count == 1 ==> reported == if q == first || v.pieces[p].physical == None then {}
                                             else if v.pieces[p].physical.value in u.watched
                                             then {v.pieces[p].physical.value} else {}
      {
        var page := TriggerUserWriteWatch(q);
        if page.Some? {
          assert (u.watched - reported) - {page.value} == u.watched - (reported + {page.value});
          reported := reported + {page.value};
        }
      }
    }

    // Settles a first write to the entry of a piece and the watches on it.
    method SettleWrite(p: nat, isView: bool) returns (settled: bool, reported: set<nat>)
      requires Ok() && p < PIECES && Named(host.Skewed(), p)
      modifies this
      ensures Ok() && (old(UpToDate()) ==> UpToDate())
      ensures v.mapped == old(v).mapped && v.split == old(v).split
      ensures v.watched == old(v).watched - reported && reported <= old(v).watched
      ensures table == if old(v).pieces[p].waiting then Written(old(table), backing, host, p) else old(table)
      ensures !v.pieces[p].waiting && v.pieces[p].access == old(v).pieces[p].access
      ensures v.Access(p) == v.pieces[p].access
      ensures settled <==> old(v).pieces[p].waiting || reported != {}
      ensures !settled ==> v == old(v)
      ensures settled && (host.coarse && isView ==> old(v).Showing(p)) ==> v.Showing(p)
    {
      WaitingIsShown(backing, host, v, p);
      var marked := MarkUserPieceChanged(p);
      assert old(v).pieces[p].waiting ==> Unlocked(old(table), host, old(v), p, p);
      reported := TriggerHostPage(p, isView);
      settled := marked || reported != {};
    }

    // Maps the page of a fault from the table, and where the table can map
    // nothing, from the kernel address space.
    method MapForFault(p: nat, viewGranted: bool, refused: set<nat>) returns (ok: bool)
      requires Ok() && p < PIECES && Named(host.Skewed(), p) && StartsAlike(table, host, p)
      modifies `v
      ensures Ok() && (old(UpToDate()) ==> UpToDate()) && ok == v.Showing(p)
      ensures OnlyMaps(table, host, old(v), v) && MapsAsAllowed(table, backing, host, old(v), v)
      ensures viewGranted && refused == {} ==> ok
    {
      ok := false;
      if table.present {
        ok := MapUserPage(p, false, viewGranted, refused);
      }
      if !ok {
        ok := MapUserPage(p, true, viewGranted, refused);
      }
    }

    // A fault at a piece. Returns whether the access runs again, and the pages
    // to report as written. `isView` is whether one view shows the host page,
    // with all its pieces, `emulated` whether the host can run an access past its
    // window, and `taken` whether a handler of the guest takes an access its entry
    // forbids.
    method UserAccessViolation(p: nat, isWrite: bool, isView: bool, emulated: bool, taken: bool, viewGranted: bool,
                               refused: set<nat>)
      returns (ok: bool, reported: set<nat>)
      requires Ok() && p < PIECES && Named(host.Skewed(), p) && StartsAlike(table, host, p)
      requires host.coarse && isView ==> v.Showing(p)
      modifies this
      ensures Ok() && (old(UpToDate()) ==> UpToDate())
      ensures v.watched == old(v).watched - reported && reported <= old(v).watched
      ensures table in {old(table), Written(old(table), backing, host, p)}
      ensures isWrite && old(v).pieces[p].waiting && !Forbids(old(v).pieces[p].access, isWrite) ==>
                table == Written(old(table), backing, host, p)
      ensures !isWrite ==> reported == {} && table == old(table)
      ensures Forbids(old(v).pieces[p].access, isWrite) ==>
                && ok && table == old(table)
                && if taken then v == old(v) else v.pieces[p] == Waived(old(v).pieces[p]) && v.Showing(p)
      ensures !Forbids(old(v).pieces[p].access, isWrite) && ok ==>
                v.Showing(p) && (isWrite ==> v.Access(p) == v.pieces[p].access)
      ensures viewGranted && refused == {} && !host.coarse ==> ok
      // On 4 KB hosts the access lands the next time, or if it is a write fires a
      // watch first, once the piece shows.
      ensures ok && !taken && !host.coarse && old(v).Showing(p) ==> WillLand(host, v, p, isWrite)
      ensures v.Showing(p) && !old(v).Showing(p) ==> AllowsItsEntry(old(table), backing, host, p, v.pieces[p].access)
    {
      if Forbids(v.pieces[p].access, isWrite) {
        if !taken {
          AllowAccess(p);
        }
        ok, reported := true, {};
      } else {
        ok, reported := SettleOrMap(p, isWrite, isView, emulated, viewGranted, refused);
      }
      if ok && !taken && !host.coarse && old(v).Showing(p) {
        WhenWillLand(backing, host, v, p, isWrite);
      }
    }

    // A fault whose access the piece's entry does not forbid.
    method SettleOrMap(p: nat, isWrite: bool, isView: bool, emulated: bool, viewGranted: bool, refused: set<nat>)
      returns (ok: bool, reported: set<nat>)
      requires Ok() && p < PIECES && Named(host.Skewed(), p) && StartsAlike(table, host, p)
      requires host.coarse && isView ==> v.Showing(p)
      modifies this
      ensures Ok() && (old(UpToDate()) ==> UpToDate())
      ensures v.watched == old(v).watched - reported && reported <= old(v).watched
      ensures isWrite && old(v).pieces[p].waiting ==> table == Written(old(table), backing, host, p)
      ensures table in {old(table), Written(old(table), backing, host, p)}
      ensures !isWrite ==> reported == {} && table == old(table)
      ensures old(v).Showing(p) ==> v.Showing(p) && v.pieces[p].access == old(v).pieces[p].access
      ensures ok ==> v.Showing(p) && (isWrite ==> v.Access(p) == v.pieces[p].access && !v.pieces[p].waiting)
      ensures viewGranted && refused == {} && !host.coarse ==> ok
      ensures v.Showing(p) && !old(v).Showing(p) ==> AllowsItsEntry(old(table), backing, host, p, v.pieces[p].access)
    {
      reported := {};
      if isWrite {
        var settled;
        settled, reported := SettleWrite(p, isView);
        if settled {
          return true, reported;
        }
      }
      if host.coarse && v.pieces[p].shows.Some? {
        ShownIsShowing(backing, host, v, p);
        return emulated, {};
      }
      ok := MapForFault(p, viewGranted, refused);
      if ok && isWrite {
        var settled;
        settled, reported := SettleWrite(p, false);
      }
    }

    // The guest edits its table, between the steps above.
    method EditTable(edited: Table)
      requires Ok() && edited.Valid()
      modifies `table
      ensures Ok() && table == edited
      ensures old(UpToDate()) && SameKeys(old(table), edited, host, v) ==> UpToDate()
    {
      ghost var clean := UpToDate();
      if clean && SameKeys(table, edited, host, v) {
        SameKeysKeepClean(table, edited, backing, host, v);
      }
      table := edited;
    }
  }

  // Whether a piece's entry forbids an access.
  predicate Forbids(access: PageAccess, isWrite: bool) {
    access == NoAccess || (isWrite && access == ReadOnly)
  }

  lemma ShownIsShowing(b: Backing, h: Host, v: Views, p: nat)
    requires ViewsOk(b, h, v) && p < PIECES
    ensures v.pieces[p].shows.Some? <==> v.Showing(p)
  {
    assert PieceOk(b, h, p, v.pieces[p], v.Showing(p));
  }

  // A write that has something to settle is to a piece that shows something.
  lemma WaitingIsShown(b: Backing, h: Host, v: Views, p: nat)
    requires ViewsOk(b, h, v) && p < PIECES
    ensures v.pieces[p].waiting || v.pieces[p].physical.Some? ==> v.Showing(p)
  {
    assert PieceOk(b, h, p, v.pieces[p], v.Showing(p));
  }

  lemma HostPageFits(p: nat, perPage: nat)
    requires p < PIECES && perPage in {1, 2, 4, 8, 16}
    ensures p - p % perPage >= 0 && p - p % perPage <= p < p - p % perPage + perPage <= PIECES
  {
  }
}
