// The invariants of the user mode views: what a piece shows is what the words
// it was mapped from say, and, from one flush to the next edit of the table,
// what the table says now.
module UserStates {
  import opened Wrappers
  import opened PageTable
  import opened UserTable
  import opened UserPieces
  import opened UserMapping

  // A file page the kernel's virtual address space shows, by its frames.
  predicate IsKernelPage(filePage: nat) {
    filePage < 0xA_0000 || PHYSICAL_FILE_PAGE <= filePage < PHYSICAL_FILE_PAGE + 0x1000
  }

  // A shown piece shows, allows and waits for what its key says. Without an
  // entry in the key it is the kernel address space, and where the key is the
  // sentinel its entry's protection was waived.
  ghost predicate KeyOk(b: Backing, h: Host, p: nat, x: Piece)
    requires h.Valid() && p < PIECES
  {
    if x.key == SENTINEL then x.access == ReadWrite && !x.waiting
    else
      match FromKey(b, UserAddress(h.Skewed(), p), x.key)
      case Some(s) =>
        && x.shows == Some(EntryFilePage(s.physical)) && x.access == EntryAccess(s.pp)
        && (x.waiting <==> s.pp == 2 && !s.changed)
      case None =>
        && !x.waiting && x.shows.Some?
        && ((x.shows.value == Fallback(h, p) && x.access == ReadWrite) || IsKernelPage(x.shows.value))
  }

  function Tracked(shows: Option<nat>): Option<nat> {
    if shows.Some? then PhysicalPage(shows.value) else None
  }

  predicate KeyFits(key: nat) {
    key == SENTINEL || key / FRAME_UNIT != SENTINEL / FRAME_UNIT
  }

  ghost predicate PieceOk(b: Backing, h: Host, p: nat, x: Piece, showing: bool)
    requires h.Valid() && p < PIECES
  {
    && x.physical == Tracked(x.shows) && KeyFits(x.key)
    && if showing then x.shows.Some? && (Named(h.Skewed(), p) ==> KeyOk(b, h, p, x)) else x == UNSHOWN.(key := x.key)
  }

  predicate IsPage(page: nat) {
    page < PHYSICAL_PAGES
  }

  const ALL_PAGES: set<nat> := set page: nat | 0 <= page < PHYSICAL_PAGES && IsPage(page)

  ghost predicate Shaped(v: Views) {
    && v.Sized()
    && (forall page :: page in v.watched ==> IsPage(page))
    && (forall i :: i in v.mapped ==> i < PIECES / PIECES_PER_VIEW)
    && (forall i :: i in v.split ==> i in v.mapped)
    && (forall i, q: nat :: i in v.split && q in v.split[i] ==> q / PIECES_PER_VIEW == i)
  }

  ghost predicate PiecesOk(b: Backing, h: Host, v: Views)
    requires h.Valid() && v.Sized()
  {
    forall p: nat :: p < PIECES ==> PieceOk(b, h, p, v.pieces[p], v.Showing(p))
  }

  ghost predicate AllFresh(h: Host, v: Views)
    requires v.Sized()
  {
    forall p: nat :: p < PIECES ==> Fresh(h, v, p)
  }

  ghost predicate ViewsOk(b: Backing, h: Host, v: Views) {
    h.Valid() && Shaped(v) && IsInverse(v) && PiecesOk(b, h, v) && AllFresh(h, v)
  }

  // --- Up to date with the table ---

  // The key a piece was mapped from is the one the table has for it, up to the
  // changed bit. A waived piece is not one whose writes the entry has to record.
  ghost predicate Current(t: Table, b: Backing, h: Host, p: nat, x: Piece)
    requires t.Valid() && p < PIECES
  {
    var now := Key(t, h.Skewed(), p);
    if x.key == SENTINEL then !Writable(FromKey(b, UserAddress(h.Skewed(), p), now)) else Agrees(x.key, now)
  }

  predicate Writable(s: Option<Shown>) {
    s.Some? && s.value.pp == 2
  }

  ghost predicate Clean(t: Table, b: Backing, h: Host, v: Views)
    requires t.Valid() && v.Sized()
  {
    forall p: nat :: p < PIECES && v.Showing(p) && Named(h.Skewed(), p) ==> Current(t, b, h, p, v.pieces[p])
  }

  // A piece that is current shows and allows what the table says, except that it
  // can still wait for a write the table has on record.
  lemma CurrentPieceMatchesTable(t: Table, b: Backing, h: Host, v: Views, p: nat)
    requires t.Valid() && ViewsOk(b, h, v) && p < PIECES && v.Showing(p) && Named(h.Skewed(), p)
    requires Current(t, b, h, p, v.pieces[p]) && v.pieces[p].key != SENTINEL
    ensures var x := v.pieces[p];
      match Resolve(t, b, h, p, false)
      case Some(r) => x.shows == Some(r.filePage) && x.access == r.access
      case None => (x.shows.value == Fallback(h, p) && x.access == ReadWrite) || IsKernelPage(x.shows.value)
    ensures v.pieces[p].waiting ==> Writable(ShownAt(t, b, UserAddress(h.Skewed(), p)))
  {
    var address, x := UserAddress(h.Skewed(), p), v.pieces[p];
    assert PieceOk(b, h, p, x, true);
    KeyDetermines(t, b, h.Skewed(), p);
    AgreeingKeys(b, address, x.key, Key(t, h.Skewed(), p));
  }

  // The memory of a piece takes a user mode write, by the host's protection or
  // past the window.
  ghost predicate Lands(h: Host, v: Views, p: nat)
    requires v.Sized() && p < PIECES && Named(h.Skewed(), p)
  {
    if h.coarse then v.writeTlb[TlbIndex(h, p)] != (h.window + Skew(h.Skewed(), p * SMALL_PAGE)) % U64
    else v.host[p] == ReadWrite
  }

  // A write that lands is neither on a watched page nor unrecorded: where its
  // entry allows writes the entry says it has changed, and the memory written is
  // the one the entry names.
  lemma LandedWritesAreRecorded(t: Table, b: Backing, h: Host, v: Views, p: nat)
    requires t.Valid() && ViewsOk(b, h, v) && p < PIECES && Named(h.Skewed(), p) && Lands(h, v, p)
    ensures v.Showing(p)
    ensures forall page :: v.pieces[p].physical == Some(page) ==> page !in v.watched
    ensures Clean(t, b, h, v) ==>
              match ShownAt(t, b, UserAddress(h.Skewed(), p))
              case Some(s) => if s.pp == 2
                              then s.changed && v.pieces[p].shows == Some(EntryFilePage(s.physical))
                              else v.pieces[p].key == SENTINEL
              case None => true
  {
    var address, x := UserAddress(h.Skewed(), p), v.pieces[p];
    assert Fresh(h, v, p) && PieceOk(b, h, p, x, v.Showing(p));
    if Clean(t, b, h, v) {
      assert Current(t, b, h, p, x);
      KeyDetermines(t, b, h.Skewed(), p);
      if x.key != SENTINEL {
        AgreeingKeys(b, address, x.key, Key(t, h.Skewed(), p));
      }
    }
  }

  // The memory of a piece can be read in user mode, likewise.
  ghost predicate ReadLands(h: Host, v: Views, p: nat)
    requires v.Sized() && p < PIECES && Named(h.Skewed(), p)
  {
    if h.coarse then v.readTlb[TlbIndex(h, p)] != (h.window + Skew(h.Skewed(), p * SMALL_PAGE)) % U64
    else v.host[p] != NoAccess
  }

  // An access is what the protection bits of an entry say: 00 allows nothing,
  // 10 both reads and writes, 01 and 11 reads alone.
  predicate IsAllowedBy(access: PageAccess, e: nat) {
    (access == NoAccess <==> e % 4 == 0) && (access == ReadWrite <==> e % 4 == 2)
  }

  // A piece allows what the entry the table has for it does, if it has one.
  predicate AllowsItsEntry(t: Table, b: Backing, h: Host, p: nat, access: PageAccess)
    requires t.Valid() && p < PIECES
  {
    var address := UserAddress(h.Skewed(), p);
    Translate(t, b, address).state == Mapped ==> IsAllowedBy(access, Entry(t, Locate(t, address).at))
  }

  // A shown piece whose key agrees with the table allows what its entry does.
  lemma CurrentAllowsItsEntry(t: Table, b: Backing, h: Host, p: nat, x: Piece)
    requires t.Valid() && h.Valid() && p < PIECES && Named(h.Skewed(), p) && PieceOk(b, h, p, x, true)
    requires x.key != SENTINEL && Agrees(x.key, Key(t, h.Skewed(), p))
    ensures AllowsItsEntry(t, b, h, p, x.access)
  {
    KeyDetermines(t, b, h.Skewed(), p);
    AgreeingKeys(b, UserAddress(h.Skewed(), p), x.key, Key(t, h.Skewed(), p));
  }

  // In an up-to-date state a read of a piece lands exactly where the bits of its
  // entry are not 00, and a write exactly where they are 10, no first write is
  // waited for and the memory is not watched. This is of pieces shown with
  // nothing waived.
  lemma WhenAccessesLand(t: Table, b: Backing, h: Host, v: Views, p: nat)
    requires t.Valid() && ViewsOk(b, h, v) && Clean(t, b, h, v) && p < PIECES && Named(h.Skewed(), p)
    requires v.Showing(p) && v.pieces[p].key != SENTINEL && (h.coarse ==> Bypasses(h, p, v.pieces[p]))
    requires Translate(t, b, UserAddress(h.Skewed(), p)).state == Mapped
    ensures var e := Entry(t, Locate(t, UserAddress(h.Skewed(), p)).at);
      && (ReadLands(h, v, p) <==> e % 4 != 0)
      && var physical := Translate(t, b, UserAddress(h.Skewed(), p)).physical;
         (Lands(h, v, p) <==> e % 4 == 2 && !v.pieces[p].waiting && !IsWatched(v, physical))
  {
    var x, physical := v.pieces[p], Translate(t, b, UserAddress(h.Skewed(), p)).physical;
    assert Current(t, b, h, p, x) && PieceOk(b, h, p, x, true) && Fresh(h, v, p);
    CurrentAllowsItsEntry(t, b, h, p, x);
    CurrentShowsItsEntry(t, b, h, p, x);
    MappedIsBacked(t, b, UserAddress(h.Skewed(), p));
    LandsAsAllowed(h, v, p);
    TrackedIsWatched(v, physical);
  }

  // A table entry past the window is another than one into it, as it is where the
  // window and the alias of the file are different memory of the host.
  predicate Bypasses(h: Host, p: nat, x: Piece)
    requires p < PIECES && Named(h.Skewed(), p)
  {
    TlbEntry(h, p, x, true) != TlbEntry(h, p, x, false)
  }

  lemma ApartBypasses(t: Table, b: Backing, h: Host, p: nat, x: Piece)
    requires t.Valid() && h.Valid() && h.Apart() && p < PIECES && Named(h.Skewed(), p) && PieceOk(b, h, p, x, true)
    requires x.key != SENTINEL && Agrees(x.key, Key(t, h.Skewed(), p))
    requires Translate(t, b, UserAddress(h.Skewed(), p)).state == Mapped
    ensures Bypasses(h, p, x)
  {
    CurrentShowsItsEntry(t, b, h, p, x);
    MappedIsInFile(t, b, UserAddress(h.Skewed(), p));
    AliasIsNotWindow(h, p, x.shows.value);
  }

  lemma CurrentShowsItsEntry(t: Table, b: Backing, h: Host, p: nat, x: Piece)
    requires t.Valid() && h.Valid() && p < PIECES && Named(h.Skewed(), p) && PieceOk(b, h, p, x, true)
    requires x.key != SENTINEL && Agrees(x.key, Key(t, h.Skewed(), p))
    ensures var tr := Translate(t, b, UserAddress(h.Skewed(), p));
      tr.state == Mapped ==> x.shows == Some(EntryFilePage(tr.physical)) && x.physical == Tracked(x.shows)
  {
    KeyDetermines(t, b, h.Skewed(), p);
    AgreeingKeys(b, UserAddress(h.Skewed(), p), x.key, Key(t, h.Skewed(), p));
  }

  lemma TrackedIsWatched(v: Views, physical: nat)
    requires physical < PHYSICAL_SIZE || IsKernelFrame(physical)
    ensures var page := PhysicalPage(EntryFilePage(physical));
      IsWatched(v, physical) <==> page.Some? && page.value in v.watched
  {
  }

  lemma LandsAsAllowed(h: Host, v: Views, p: nat)
    requires h.Valid() && v.Sized() && p < PIECES && Named(h.Skewed(), p) && v.Showing(p) && Fresh(h, v, p)
    requires h.coarse ==> Bypasses(h, p, v.pieces[p])
    ensures ReadLands(h, v, p) <==> v.Access(p) != NoAccess
    ensures Lands(h, v, p) <==> v.Access(p) == ReadWrite
  {
  }

  // What an entry names, physical memory or what is behind the first 16 MB of the
  // kernel's alias of it, is watched.
  predicate IsWatched(v: Views, physical: nat) {
    if IsKernelFrame(physical) then
      0x7F00_0000 <= physical - FRAME_BIAS < 0x8000_0000 &&
      (physical - FRAME_BIAS - 0x7F00_0000) / SMALL_PAGE in v.watched
    else physical / SMALL_PAGE in v.watched
  }

  lemma MappedIsInFile(t: Table, b: Backing, address: nat)
    requires t.Valid() && address < WORD && Translate(t, b, address).state == Mapped
    ensures EntryFilePage(Translate(t, b, address).physical) < FILE_PAGES
  {
  }

  lemma AliasIsNotWindow(h: Host, p: nat, filePage: nat)
    requires h.Valid() && h.Apart() && p < PIECES && Named(h.Skewed(), p) && filePage < FILE_PAGES
    ensures (h.fileAlias + (filePage - TlbIndex(h, p)) * SMALL_PAGE) % U64 !=
            (h.window + Skew(h.Skewed(), p * SMALL_PAGE)) % U64
  {
    var address := UserAddress(h.Skewed(), p);
    var i, skew := TlbIndex(h, p), Skew(h.Skewed(), p * SMALL_PAGE);
    assert address == i * SMALL_PAGE && address + skew == p * SMALL_PAGE;
    Unequal(h.fileAlias + (filePage - i) * SMALL_PAGE, h.window + skew, address);
  }

  lemma Unequal(x: int, y: int, d: nat)
    requires 0 <= x + d < U64 && 0 <= y + d < U64 && x != y
    ensures x % U64 != y % U64
  {
    WrapSum(x, d);
    WrapSum(y, d);
  }

  // The access that faulted lands when it runs again, or if it is a write fires a
  // watch first.
  ghost predicate WillLand(h: Host, v: Views, p: nat, isWrite: bool)
    requires v.Sized() && p < PIECES && Named(h.Skewed(), p)
  {
    if isWrite then Lands(h, v, p) || (v.pieces[p].physical.Some? && v.pieces[p].physical.value in v.watched)
    else ReadLands(h, v, p)
  }

  lemma WhenWillLand(b: Backing, h: Host, v: Views, p: nat, isWrite: bool)
    requires ViewsOk(b, h, v) && p < PIECES && Named(h.Skewed(), p) && v.Showing(p) && !h.coarse
    requires if isWrite then v.pieces[p].access == ReadWrite && !v.pieces[p].waiting
             else v.pieces[p].access != NoAccess
    ensures WillLand(h, v, p, isWrite)
  {
    assert Fresh(h, v, p);
  }

  // What is watched, or waited for, never takes reads from a piece.
  lemma WatchesKeepReads(b: Backing, h: Host, u: Views, w: Views, p: nat)
    requires ViewsOk(b, h, u) && ViewsOk(b, h, w) && p < PIECES && Named(h.Skewed(), p)
    requires w == u.(watched := w.watched, host := w.host, readTlb := w.readTlb, writeTlb := w.writeTlb)
    ensures ReadLands(h, w, p) <==> ReadLands(h, u, p)
    ensures !h.coarse ==> (ReadLands(h, w, p) <==> w.Showing(p) && w.pieces[p].access != NoAccess)
  {
    assert Fresh(h, u, p) && Fresh(h, w, p) && w.Showing(p) == u.Showing(p);
  }

  // --- What mapping records ---

  predicate Waits(t: Table, b: Backing, address: nat)
    requires t.Valid() && address < WORD
  {
    var tr := Translate(t, b, address);
    tr.state == Mapped && tr.pp == 2 && !tr.changed
  }

  // What a piece that shows a file page is recorded as.
  function Recorded(t: Table, h: Host, p: nat, filePage: nat, access: PageAccess, waits: bool): Piece
    requires t.Valid() && p < PIECES
  {
    Piece(Some(filePage), PhysicalPage(filePage), access, Key(t, h.Skewed(), p), waits)
  }

  lemma KeyOfTableFits(t: Table, skewed: bool, p: nat)
    requires t.Valid() && p < PIECES
    ensures KeyFits(Key(t, skewed, p)) && Key(t, skewed, p) != SENTINEL
  {
    var address := UserAddress(skewed, p);
    var at := Locate(t, address).at;
    KeyParts(t, skewed, p);
    HighFits(t.kinds[address / 0x1000_0000], KeyFrame(t, address), if at.Nowhere? then 0 else Entry(t, at));
  }

  lemma HighFits(kind: nat, frame: nat, e: nat)
    requires kind < 0x100 && frame < 0x1_0000 && e < WORD && (IsLarge(kind) ==> frame == 0)
    ensures (kind * KIND_UNIT + frame * FRAME_UNIT + e) / FRAME_UNIT != SENTINEL / FRAME_UNIT
  {
    DivUnique(kind * KIND_UNIT + frame * FRAME_UNIT + e, FRAME_UNIT, kind * 0x100_0000 + frame, e);
  }

  // A piece mapped on its own.
  lemma ResolvedPieceOk(t: Table, b: Backing, h: Host, p: nat, allowFallback: bool)
    requires t.Valid() && h.Valid() && p < PIECES && Resolve(t, b, h, p, allowFallback).Some?
    ensures var r := Resolve(t, b, h, p, allowFallback).value;
      var waits := r.fromEntry && Waits(t, b, UserAddress(h.Skewed(), p));
      PieceOk(b, h, p, Recorded(t, h, p, r.filePage, r.access, waits), true)
  {
    KeyDetermines(t, b, h.Skewed(), p);
    KeyOfTableFits(t, h.Skewed(), p);
  }

  // A piece of a view of a whole page.
  lemma WholePieceOk(t: Table, b: Backing, h: Host, p: nat, q: nat, waits: bool) returns (x: Piece)
    requires t.Valid() && h.Valid() && p < PIECES && q < PIECES && p / PIECES_PER_VIEW == q / PIECES_PER_VIEW
    requires Named(h.Skewed(), p) && StartsAlike(t, h, p) && Choose(t, b, h, p).Whole?
    requires Named(h.Skewed(), q) ==> waits == Waits(t, b, UserAddress(h.Skewed(), q))
    ensures var w := Choose(t, b, h, p);
      x == Recorded(t, h, q, ViewFilePage(h, w.block) + q % PIECES_PER_VIEW, w.access, waits)
    ensures PieceOk(b, h, q, x, true)
  {
    var w := Choose(t, b, h, p);
    x := Recorded(t, h, q, ViewFilePage(h, w.block) + q % PIECES_PER_VIEW, w.access, waits);
    KeyDetermines(t, b, h.Skewed(), q);
    KeyOfTableFits(t, h.Skewed(), q);
    if Named(h.Skewed(), q) {
      WholeViewRefinesPieces(t, b, h, p, q);
      PieceInView(t, b, h, p, p);
      if Resolve(t, b, h, q, false).None? {
        KernelView(h, Choose(t, b, h, p).block, q % PIECES_PER_VIEW);
      }
    }
  }

  lemma KernelView(h: Host, block: nat, i: nat)
    requires h.Valid() && block % VIEW_PAGE == 0 && IsKernelFrame(block) && i < PIECES_PER_VIEW
    ensures IsKernelPage(ViewFilePage(h, block) + i)
  {
    InOneView(h, block, i, block + i * SMALL_PAGE);
  }

  // A piece of a page none of whose pieces has an entry.
  lemma FallbackPieceOk(t: Table, b: Backing, h: Host, q: nat)
    requires t.Valid() && h.Valid() && q < PIECES && Resolve(t, b, h, q, false).None?
    ensures PieceOk(b, h, q, Recorded(t, h, q, Fallback(h, q), ReadWrite, false), true)
  {
    KeyDetermines(t, b, h.Skewed(), q);
    KeyOfTableFits(t, h.Skewed(), q);
  }

  // --- The first write through an entry ---

  // A piece whose entry's changed bit was just set.
  function Changed(x: Piece): Piece {
    x.(waiting := false, key := SetChanged(x.key))
  }

  lemma ChangedKeyFits(key: nat)
    requires KeyFits(key)
    ensures KeyFits(SetChanged(key)) && (key != SENTINEL ==> SetChanged(key) != SENTINEL)
  {
    ChangedWord(key);
    assert IsChanged(SENTINEL);
  }

  lemma ChangedPieceOk(b: Backing, h: Host, p: nat, x: Piece)
    requires h.Valid() && p < PIECES && PieceOk(b, h, p, x, true) && x.waiting
    ensures PieceOk(b, h, p, Changed(x), true)
  {
    ChangedKeyFits(x.key);
    if Named(h.Skewed(), p) {
      assert FromKey(b, UserAddress(h.Skewed(), p), x.key).Some?;
      ChangedKeepsKey(b, UserAddress(h.Skewed(), p), x.key);
    }
  }

  lemma SetAgain(e: nat)
    ensures SetChanged(SetChanged(e)) == SetChanged(e)
  {
    ChangedKeepsBits(e);
  }

  // Setting the bit in the table keeps every piece current, those let write
  // from then on and those of other views.
  lemma ChangedKeepsCurrent(t: Table, b: Backing, h: Host, p: nat, x: Piece, at: EntryAt, unlocked: bool)
    requires t.Valid() && h.Valid() && p < PIECES && !at.Nowhere? && EntryOrZero(t, at) != 0
    requires Current(t, b, h, p, x) && KeyFits(x.key)
    requires unlocked ==> x.key != SENTINEL && Locate(t, UserAddress(h.Skewed(), p)).at == at
    ensures Current(WithChanged(t, at), b, h, p, if unlocked then Changed(x) else x)
  {
    var address, now := UserAddress(h.Skewed(), p), Key(t, h.Skewed(), p);
    KeyWithChanged(t, at, h.Skewed(), p);
    ChangedWord(x.key);
    if Locate(t, address).at == at {
      KeyEntry(t, h.Skewed(), p);
      ChangedKeepsKey(b, address, now);
      SetAgain(x.key);
      ChangedWord(now);
      assert x.key != SENTINEL && !unlocked ==> Agrees(x.key, SetChanged(now));
    }
  }

  // An entry, or zero where there is none.
  function EntryOrZero(t: Table, at: EntryAt): nat
    requires t.Valid()
  {
    match at
    case InDescriptor(i) => if i < 256 then t.large[i] else 0
    case InMemory(w) => if w < |t.words| then t.words[w] else 0
    case Nowhere => 0
  }

  // --- Steps of the views ---

  // A change of what the host and the JIT's tables let through, and no more.
  ghost predicate SameButHost(u: Views, w: Views) {
    && u.Sized() && w.Sized()
    && w == u.(host := w.host, readTlb := w.readTlb, writeTlb := w.writeTlb)
  }

  // Nothing stops showing or changes, and what starts to show was mapped from
  // the table's present words.
  ghost predicate OnlyMaps(t: Table, h: Host, u: Views, w: Views)
    requires t.Valid() && u.Sized() && w.Sized()
  {
    && w.watched == u.watched
    && forall p: nat :: p < PIECES ==>
         if u.Showing(p) then w.Showing(p) && w.pieces[p] == u.pieces[p]
         else w.Showing(p) ==> w.pieces[p].key == Key(t, h.Skewed(), p)
  }

  // What starts to show allows what its entry does.
  ghost predicate MapsAsAllowed(t: Table, b: Backing, h: Host, u: Views, w: Views)
    requires t.Valid() && u.Sized() && w.Sized()
  {
    forall p: nat :: p < PIECES && w.Showing(p) && !u.Showing(p) && Named(h.Skewed(), p) ==>
      AllowsItsEntry(t, b, h, p, w.pieces[p].access)
  }

  lemma MappedAsAllowed(t: Table, b: Backing, h: Host, u: Views, w: Views)
    requires t.Valid() && u.Sized() && ViewsOk(b, h, w) && OnlyMaps(t, h, u, w)
    ensures MapsAsAllowed(t, b, h, u, w)
  {
    forall p: nat | p < PIECES && w.Showing(p) && !u.Showing(p) && Named(h.Skewed(), p)
      ensures AllowsItsEntry(t, b, h, p, w.pieces[p].access)
    {
      assert PieceOk(b, h, p, w.pieces[p], true);
      KeyIsNotSentinel(t, h.Skewed(), p);
      CurrentAllowsItsEntry(t, b, h, p, w.pieces[p]);
    }
  }

  lemma MappingKeepsClean(t: Table, b: Backing, h: Host, u: Views, w: Views)
    requires t.Valid() && u.Sized() && w.Sized() && OnlyMaps(t, h, u, w) && Clean(t, b, h, u)
    ensures Clean(t, b, h, w)
  {
    forall p: nat | p < PIECES && w.Showing(p) && Named(h.Skewed(), p) ensures Current(t, b, h, p, w.pieces[p]) {
      KeyIsNotSentinel(t, h.Skewed(), p);
      assert u.Showing(p) ==> Current(t, b, h, p, u.pieces[p]);
    }
  }

  lemma TlbStep(h: Host, u: Views, p: nat)
    requires h.Valid() && h.coarse && u.Sized() && p < PIECES && Named(h.Skewed(), p)
    ensures var i := TlbIndex(h, p);
      var w := u.(readTlb := u.readTlb[i := TlbEntry(h, p, u.pieces[p], u.Access(p) != NoAccess)],
                  writeTlb := u.writeTlb[i := TlbEntry(h, p, u.pieces[p], u.Access(p) == ReadWrite)]);
      Fresh(h, w, p) && forall q: nat :: q < PIECES && Fresh(h, u, q) ==> Fresh(h, w, q)
  {
    forall q: nat | q < PIECES && Named(h.Skewed(), q) ensures q != p ==> TlbIndex(h, q) != TlbIndex(h, p) {
      if TlbIndex(h, q) == TlbIndex(h, p) {
        TlbIndexInjective(h, p, q);
      }
    }
  }

  function Filled(s: seq<PageAccess>, first: nat, count: nat, access: PageAccess): (r: seq<PageAccess>)
    requires first + count <= |s|
    ensures |r| == |s|
    ensures forall q: nat :: q < |s| ==> r[q] == if first <= q < first + count then access else s[q]
  {
    s[..first] + seq(count, _ => access) + s[first + count..]
  }

  lemma ProtectStep(h: Host, u: Views, first: nat, count: nat, access: PageAccess)
    requires u.Sized() && !h.coarse && first + count <= PIECES
    requires forall q: nat :: first <= q < first + count ==> u.Showing(q) && u.Access(q) == access
    ensures var w := u.(host := Filled(u.host, first, count, access));
      SameButHost(u, w) &&
      forall q: nat :: q < PIECES && (first <= q < first + count || Fresh(h, u, q)) ==> Fresh(h, w, q)
  {
    var w := u.(host := Filled(u.host, first, count, access));
    forall q: nat | q < PIECES && (first <= q < first + count || Fresh(h, u, q)) ensures Fresh(h, w, q) {
      assert w.Showing(q) == u.Showing(q) && w.Access(q) == u.Access(q);
    }
  }

  // What stays where only watches and what the host lets through change.
  lemma SameShape(b: Backing, h: Host, u: Views, w: Views)
    requires h.Valid() && u.Sized() && w.Sized() && IsInverse(u) && PiecesOk(b, h, u)
    requires w == u.(watched := w.watched, host := w.host, readTlb := w.readTlb, writeTlb := w.writeTlb)
    ensures IsInverse(w) && PiecesOk(b, h, w)
    ensures forall t: Table :: t.Valid() && Clean(t, b, h, u) ==> Clean(t, b, h, w)
  {
    SamePhysicalKeepsInverse(u, w);
    forall p: nat | p < PIECES ensures PieceOk(b, h, p, w.pieces[p], w.Showing(p)) {
      assert PieceOk(b, h, p, u.pieces[p], u.Showing(p));
    }
    forall t: Table | t.Valid() && Clean(t, b, h, u) ensures Clean(t, b, h, w) {
      forall p: nat | p < PIECES && w.Showing(p) && Named(h.Skewed(), p) ensures Current(t, b, h, p, w.pieces[p]) {
        assert u.Showing(p);
      }
    }
  }

  lemma WatchStep(h: Host, u: Views, page: nat, watched: set<nat>)
    requires u.Sized() && forall other :: other != page ==> (other in watched <==> other in u.watched)
    ensures forall q: nat :: q < PIECES && u.pieces[q].physical != Some(page) && Fresh(h, u, q) ==>
              Fresh(h, u.(watched := watched), q)
  {
    forall q: nat | q < PIECES && u.pieces[q].physical != Some(page) && Fresh(h, u, q)
      ensures Fresh(h, u.(watched := watched), q)
    {
      assert u.(watched := watched).Access(q) == u.Access(q) && u.(watched := watched).Showing(q) == u.Showing(q);
    }
  }

  // The physical pages a range of bytes overlaps.
  function PagesOf(address: nat, length: nat): set<nat> {
    set page: nat | 0 <= page < PHYSICAL_PAGES && IsPage(page) && 0 < length &&
      page * SMALL_PAGE < address + length && address < (page + 1) * SMALL_PAGE
  }

  // Those are the pages its bytes of physical memory are in.
  lemma PagesOfBytes(address: nat, length: nat, page: nat)
    ensures page in PagesOf(address, length) <==>
            exists x: nat :: address <= x < address + length && x < 0x2000_0000 && IsInPage(x, page)
  {
    if page in PagesOf(address, length) {
      var x := if address > page * SMALL_PAGE then address else page * SMALL_PAGE;
      assert address <= x < address + length && x < 0x2000_0000 && IsInPage(x, page);
    }
  }

  predicate IsInPage(x: nat, page: nat) {
    x / SMALL_PAGE == page
  }

  lemma PagesOfRange(address: nat, length: nat)
    requires 0 < length && address < PHYSICAL_SIZE
    ensures var bytes := if address + length <= PHYSICAL_SIZE then length else PHYSICAL_SIZE - address;
      && (address + bytes - 1) / SMALL_PAGE < PHYSICAL_PAGES
      && forall page: nat :: page in PagesOf(address, length) <==>
           address / SMALL_PAGE <= page <= (address + bytes - 1) / SMALL_PAGE
  {
  }

  // --- Releasing a page ---

  predicate InPage(p: nat, index: nat) {
    p / PIECES_PER_VIEW == index
  }

  // The views with page `index` unmapped, its pieces yet to be forgotten.
  function Unmapped(v: Views, index: nat): Views
    requires v.Sized() && index < PIECES / PIECES_PER_VIEW
  {
    v.(mapped := v.mapped - {index}, split := v.split - {index},
       host := Filled(v.host, index * PIECES_PER_VIEW, PIECES_PER_VIEW, NoAccess))
  }

  // The views with one piece forgotten.
  function Forgotten(v: Views, p: nat): Views
    requires v.Sized() && p < PIECES
    requires v.pieces[p].physical.Some? ==>
      v.pieces[p].physical.value < PHYSICAL_PAGES && p in v.blocks[v.pieces[p].physical.value / PIECES_PER_VIEW]
  {
    var w := v.(pieces := v.pieces[p := UNSHOWN.(key := v.pieces[p].key)]);
    match v.pieces[p].physical
    case None => w
    case Some(page) =>
      var k := page / PIECES_PER_VIEW;
      w.(blocks := w.blocks[k := Erased(w.blocks[k], p)])
  }

  lemma ForgottenKeepsInverse(v: Views, p: nat)
    requires v.Sized() && IsInverse(v) && p < PIECES
    requires v.pieces[p].physical.Some? ==> v.pieces[p].physical.value < PHYSICAL_PAGES
    ensures v.pieces[p].physical.Some? ==> p in v.blocks[v.pieces[p].physical.value / PIECES_PER_VIEW]
    ensures IsInverse(Forgotten(v, p))
  {
    match v.pieces[p].physical
    case None => SamePhysicalKeepsInverse(v, Forgotten(v, p));
    case Some(page) => UntrackKeepsInverse(v, p, UNSHOWN.(key := v.pieces[p].key));
  }

  // A page released from views that were in order.
  ghost predicate IsReleased(u: Views, w: Views, index: nat) {
    && u.Sized() && w.Sized()
    && w.mapped == u.mapped - {index} && w.split == u.split - {index} && w.watched == u.watched
    && forall p: nat :: p < PIECES ==>
         w.pieces[p] == if InPage(p, index) then UNSHOWN.(key := u.pieces[p].key) else u.pieces[p]
  }

  lemma ReleasedIsOk(b: Backing, h: Host, u: Views, w: Views, index: nat)
    requires h.Valid() && Shaped(u) && PiecesOk(b, h, u) && IsReleased(u, w, index)
    ensures Shaped(w) && PiecesOk(b, h, w)
    ensures forall p: nat :: p < PIECES ==> w.Showing(p) == (u.Showing(p) && !InPage(p, index))
    ensures forall t: Table :: t.Valid() && Clean(t, b, h, u) ==> Clean(t, b, h, w)
  {
    forall p: nat | p < PIECES
      ensures PieceOk(b, h, p, w.pieces[p], w.Showing(p)) && w.Showing(p) == (u.Showing(p) && !InPage(p, index))
    {
      assert PieceOk(b, h, p, u.pieces[p], u.Showing(p));
    }
    forall t: Table | t.Valid() && Clean(t, b, h, u) ensures Clean(t, b, h, w) {
      forall p: nat | p < PIECES && w.Showing(p) && Named(h.Skewed(), p) ensures Current(t, b, h, p, w.pieces[p]) {
        assert u.Showing(p);
      }
    }
  }

  // Outside the page, and on 4 KB hosts inside it, a release leaves the host as
  // it should be.
  lemma ReleasedIsFresh(h: Host, u: Views, w: Views, index: nat, q: nat)
    requires u.Sized() && index < PIECES / PIECES_PER_VIEW && IsReleased(u, w, index) && q < PIECES && Fresh(h, u, q)
    requires w.readTlb == u.readTlb && w.writeTlb == u.writeTlb && w.host == Unmapped(u, index).host
    ensures !InPage(q, index) || !h.coarse ==> Fresh(h, w, q)
  {
    assert InPage(q, index) <==> index * PIECES_PER_VIEW <= q < index * PIECES_PER_VIEW + PIECES_PER_VIEW;
    if !InPage(q, index) {
      assert w.Showing(q) == u.Showing(q) && w.Access(q) == u.Access(q);
    }
  }

  // --- What a flush drops ---

  ghost predicate PageChanged(t: Table, h: Host, v: Views, index: nat)
    requires t.Valid() && v.Sized()
  {
    exists p: nat :: p < PIECES && InPage(p, index) && v.Showing(p) && !Agrees(v.pieces[p].key, Key(t, h.Skewed(), p))
  }

  // The words a shown piece was mapped from are the table's now, but that the
  // changed bit of an entry may have been set since.
  predicate KeepsWords(was: nat, now: nat) {
    now == was || (was % WORD != 0 && was / 0x80 % 2 == 0 && now == was + 0x80)
  }

  // A page did not change exactly where that is so of each piece it shows.
  lemma WhenPageChanged(t: Table, h: Host, v: Views, index: nat)
    requires t.Valid() && v.Sized()
    ensures !PageChanged(t, h, v, index) <==>
      forall p: nat :: p < PIECES && InPage(p, index) && v.Showing(p) ==>
        KeepsWords(v.pieces[p].key, Key(t, h.Skewed(), p))
  {
    assert forall was: nat, now: nat :: Agrees(was, now) <==> KeepsWords(was, now);
  }

  lemma SentinelChanged(t: Table, h: Host, p: nat)
    requires t.Valid() && p < PIECES
    ensures !Agrees(SENTINEL, Key(t, h.Skewed(), p))
  {
    KeyIsNotSentinel(t, h.Skewed(), p);
  }

  // Pages still mapped show as they did.
  ghost predicate KeepsPages(u: Views, w: Views) {
    && u.Sized() && w.Sized() && w.mapped <= u.mapped
    && forall p: nat :: p < PIECES && p / PIECES_PER_VIEW in w.mapped ==>
         w.pieces[p] == u.pieces[p] && w.Showing(p) == u.Showing(p)
  }

  lemma KeptPageChanged(t: Table, h: Host, u: Views, w: Views, index: nat)
    requires t.Valid() && KeepsPages(u, w) && index in w.mapped
    ensures PageChanged(t, h, w, index) <==> PageChanged(t, h, u, index)
  {
    forall p: nat | p < PIECES && InPage(p, index) ensures w.pieces[p] == u.pieces[p] && w.Showing(p) == u.Showing(p) {}
  }

  lemma FlushedIsClean(t: Table, b: Backing, h: Host, u: Views, w: Views)
    requires t.Valid() && KeepsPages(u, w) && forall i :: i in w.mapped ==> !PageChanged(t, h, u, i)
    ensures Clean(t, b, h, w)
    ensures forall p: nat :: p < PIECES && w.Showing(p) ==>
              u.Showing(p) && w.pieces[p] == u.pieces[p] && w.pieces[p].key != SENTINEL
  {
    forall p: nat | p < PIECES && w.Showing(p)
      ensures u.Showing(p) && w.pieces[p] == u.pieces[p]
      ensures w.pieces[p].key != SENTINEL && Current(t, b, h, p, w.pieces[p])
    {
      assert InPage(p, p / PIECES_PER_VIEW);
      SentinelChanged(t, h, p);
    }
  }

  // --- The pieces the first write through an entry lets be written ---

  function EntryOf(t: Table, h: Host, p: nat): EntryAt
    requires t.Valid() && p < PIECES
  {
    Locate(t, UserAddress(h.Skewed(), p)).at
  }

  predicate Unlocked(t: Table, h: Host, v: Views, p: nat, q: nat)
    requires t.Valid() && v.Sized() && p < PIECES && q < PIECES
  {
    q / PIECES_PER_VIEW == p / PIECES_PER_VIEW && v.pieces[q].waiting && EntryOf(t, h, q) == EntryOf(t, h, p)
  }

  ghost predicate IsMarked(t: Table, h: Host, u: Views, w: Views, p: nat)
    requires t.Valid() && p < PIECES
  {
    && u.Sized() && w.Sized()
    && w == u.(pieces := w.pieces, host := w.host, readTlb := w.readTlb, writeTlb := w.writeTlb)
    && forall q: nat :: q < PIECES ==>
         w.pieces[q] == if Unlocked(t, h, u, p, q) then Changed(u.pieces[q]) else u.pieces[q]
  }

  lemma MarkedIsOk(t: Table, b: Backing, h: Host, u: Views, w: Views, p: nat)
    requires t.Valid() && h.Valid() && p < PIECES && Shaped(u) && IsInverse(u) && PiecesOk(b, h, u)
    requires IsMarked(t, h, u, w, p)
    ensures Shaped(w) && IsInverse(w) && PiecesOk(b, h, w)
  {
    SamePhysicalKeepsInverse(u, w);
    forall q: nat | q < PIECES ensures PieceOk(b, h, q, w.pieces[q], w.Showing(q)) {
      assert PieceOk(b, h, q, u.pieces[q], u.Showing(q));
      if Unlocked(t, h, u, p, q) {
        ChangedPieceOk(b, h, q, u.pieces[q]);
      }
    }
  }

  // The table after a write through the entry of a piece.
  function Written(t: Table, b: Backing, h: Host, p: nat): (r: Table)
    requires t.Valid() && p < PIECES
    ensures r.Valid()
  {
    if Translate(t, b, UserAddress(h.Skewed(), p)).state == Mapped then WithChanged(t, EntryOf(t, h, p)) else t
  }

  lemma WrittenKeepsPlaces(t: Table, b: Backing, h: Host, p: nat, q: nat)
    requires t.Valid() && p < PIECES && q < PIECES
    ensures EntryOf(Written(t, b, h, p), h, q) == EntryOf(t, h, q)
  {
    SamePlaces(t, EntryOf(t, h, p), UserAddress(h.Skewed(), q));
  }

  // A piece that waits and is current has an entry to set the bit in, so what
  // was current stays so.
  lemma MarkedIsClean(t: Table, b: Backing, h: Host, u: Views, w: Views, p: nat)
    requires t.Valid() && p < PIECES && Named(h.Skewed(), p) && ViewsOk(b, h, u) && IsMarked(t, h, u, w, p)
    requires u.pieces[p].waiting && Clean(t, b, h, u)
    ensures Clean(Written(t, b, h, p), b, h, w)
  {
    var at := EntryOf(t, h, p);
    assert PieceOk(b, h, p, u.pieces[p], u.Showing(p));
    CurrentPieceMatchesTable(t, b, h, u, p);
    forall q: nat | q < PIECES && w.Showing(q) && Named(h.Skewed(), q)
      ensures Current(Written(t, b, h, p), b, h, q, w.pieces[q])
    {
      assert PieceOk(b, h, q, u.pieces[q], u.Showing(q)) && Current(t, b, h, q, u.pieces[q]);
      ChangedKeepsCurrent(t, b, h, q, u.pieces[q], at, Unlocked(t, h, u, p, q));
    }
  }

  // Pieces whose record did not change are as fresh as they were.
  lemma MarkedIsFresh(t: Table, h: Host, u: Views, w: Views, p: nat, q: nat)
    requires t.Valid() && p < PIECES && q < PIECES && IsMarked(t, h, u, w, p) && Fresh(h, u, q)
    requires w.host == u.host && w.readTlb == u.readTlb && w.writeTlb == u.writeTlb
    ensures !Unlocked(t, h, u, p, q) ==> Fresh(h, w, q)
  {
    if !Unlocked(t, h, u, p, q) {
      assert w.Access(q) == u.Access(q) && w.Showing(q) == u.Showing(q);
    }
  }

  // --- Showing pieces ---

  // A run of pieces that starts to show a run of file pages, and what they are
  // recorded as. `address` is where the entry of the first is looked up.
  datatype Run = Run(first: nat, count: nat, filePage: nat, access: PageAccess, fromEntry: bool, address: nat) {
    ghost predicate Fits() {
      && first + count <= PIECES && address + count * SMALL_PAGE <= WORD
      && (filePage < PHYSICAL_FILE_PAGE ==> filePage + count <= PHYSICAL_FILE_PAGE)
    }

    predicate Has(p: nat) {
      first <= p < first + count
    }

    ghost function Record(t: Table, b: Backing, h: Host, p: nat): Piece
      requires t.Valid() && Fits() && Has(p)
    {
      Recorded(t, h, p, filePage + (p - first), access, fromEntry && Waits(t, b, address + (p - first) * SMALL_PAGE))
    }
  }

  // The views with a run shown, whose pieces showed nothing before.
  ghost predicate Shows(t: Table, b: Backing, h: Host, u: Views, w: Views, run: Run)
    requires t.Valid() && run.Fits()
  {
    && u.Sized() && w.Sized()
    && w == u.(pieces := w.pieces, blocks := w.blocks, host := w.host, readTlb := w.readTlb, writeTlb := w.writeTlb)
    && forall p: nat :: p < PIECES ==> w.pieces[p] == if run.Has(p) then run.Record(t, b, h, p) else u.pieces[p]
  }

  lemma ShownIsFresh(h: Host, u: Views, w: Views, q: nat)
    requires u.Sized() && w.Sized() && q < PIECES && w.pieces[q] == u.pieces[q] && w.Showing(q) == u.Showing(q)
    requires w.host == u.host && w.readTlb == u.readTlb && w.writeTlb == u.writeTlb && w.watched == u.watched
    ensures Fresh(h, u, q) ==> Fresh(h, w, q)
  {
    assert w.Access(q) == u.Access(q);
  }

  lemma FallbackFitsFile(h: Host, index: nat)
    requires h.Valid() && index < PIECES / PIECES_PER_VIEW
    ensures var page := FallbackFilePage(index, h.granules);
      page < PHYSICAL_FILE_PAGE ==> page + PIECES_PER_VIEW <= PHYSICAL_FILE_PAGE
  {
  }

  lemma ViewFitsFile(h: Host, block: nat)
    requires h.Valid() && block % VIEW_PAGE == 0 && (block < PHYSICAL_SIZE || IsKernelFrame(block))
    ensures var page := ViewFilePage(h, block);
      page < PHYSICAL_FILE_PAGE ==> page + PIECES_PER_VIEW <= PHYSICAL_FILE_PAGE
  {
    InOneView(h, block, 0, block);
    InOneView(h, block, 15, block + 15 * SMALL_PAGE);
  }

  // What a piece shows alone, if the host gives it a view. Coarse hosts show
  // pieces past their window.
  function Alone(t: Table, b: Backing, h: Host, p: nat, allowFallback: bool, refused: set<nat>): Option<Resolved>
    requires t.Valid() && h.Valid() && p < PIECES
  {
    if !h.coarse && p in refused then None else Resolve(t, b, h, p, allowFallback)
  }

  function RunOf(h: Host, p: nat, r: Resolved): Run
    requires p < PIECES
  {
    Run(p, 1, r.filePage, r.access, r.fromEntry, UserAddress(h.Skewed(), p))
  }

  // A piece of a split page shown where it was not.
  ghost predicate MapsPiece(t: Table, b: Backing, h: Host, u: Views, w: Views, p: nat, r: Resolved)
    requires t.Valid() && h.Valid() && p < PIECES
  {
    var index := p / PIECES_PER_VIEW;
    && index in u.split
    && Shows(t, b, h, u.(split := u.split[index := u.split[index] + {p}]), w, RunOf(h, p, r))
  }

  // A page given one view.
  ghost predicate MapsView(t: Table, b: Backing, h: Host, u: Views, w: Views, index: nat, run: Run)
    requires t.Valid() && run.Fits()
  {
    Shows(t, b, h, u.(mapped := u.mapped + {index}), w, run)
  }

  // A page given a view for each piece before `end` that has something to show.
  ghost predicate SplitTo(t: Table, b: Backing, h: Host, u: Views, w: Views, index: nat, refused: set<nat>, end: nat)
    requires t.Valid() && h.Valid()
  {
    && u.Sized() && w.Sized() && w.watched == u.watched && w.mapped == u.mapped + {index} && index in w.split
    && w.split - {index} == u.split - {index}
    && (forall p: nat :: p in w.split[index] <==> ShownAlone(t, b, h, index, refused, end, p))
    && (forall p: nat :: p < PIECES ==>
          w.pieces[p] == if ShownAlone(t, b, h, index, refused, end, p)
                         then RunOf(h, p, Alone(t, b, h, p, false, refused).value).Record(t, b, h, p)
                         else u.pieces[p])
  }

  predicate ShownAlone(t: Table, b: Backing, h: Host, index: nat, refused: set<nat>, end: nat, p: nat)
    requires t.Valid() && h.Valid()
  {
    p < PIECES && InPage(p, index) && p < end && Alone(t, b, h, p, false, refused).Some?
  }

  ghost predicate SplitsPage(t: Table, b: Backing, h: Host, u: Views, w: Views, index: nat, refused: set<nat>)
    requires t.Valid() && h.Valid()
  {
    SplitTo(t, b, h, u, w, index, refused, PIECES)
  }

  lemma SplitStep(t: Table, b: Backing, h: Host, u: Views, v: Views, w: Views, index: nat, refused: set<nat>, p: nat)
    requires t.Valid() && h.Valid() && p < PIECES && InPage(p, index) && SplitTo(t, b, h, u, v, index, refused, p)
    requires match Alone(t, b, h, p, false, refused)
             case Some(r) => MapsPiece(t, b, h, v, w, p, r)
             case None => w == v
    ensures SplitTo(t, b, h, u, w, index, refused, p + 1)
  {
    forall q: nat ensures ShownAlone(t, b, h, index, refused, p + 1, q) <==>
        ShownAlone(t, b, h, index, refused, p, q) || (q == p && Alone(t, b, h, p, false, refused).Some?) {}
  }

  ghost predicate HasEntry(t: Table, b: Backing, h: Host, index: nat)
    requires t.Valid() && h.Valid()
  {
    exists p: nat :: p < PIECES && InPage(p, index) && Resolve(t, b, h, p, false).Some?
  }

  // The views with a run of pieces open to be shown.
  ghost predicate Opens(u: Views, w: Views, run: Run) {
    && u.Sized() && w.Sized() && w == u.(mapped := w.mapped, split := w.split)
    && forall q: nat :: q < PIECES ==>
         w.Showing(q) == (u.Showing(q) || run.Has(q)) && (run.Has(q) ==> !u.Showing(q))
  }

  lemma OpenedIsReady(b: Backing, h: Host, u: Views, w: Views, run: Run)
    requires ViewsOk(b, h, u) && Opens(u, w, run)
    ensures IsInverse(w)
    ensures forall q: nat :: q < PIECES && run.Has(q) ==> w.pieces[q].physical == None
    ensures forall q: nat :: q < PIECES && !run.Has(q) ==> Fresh(h, w, q)
  {
    SamePhysicalKeepsInverse(u, w);
    forall q: nat | q < PIECES ensures run.Has(q) ==> w.pieces[q].physical == None {
      assert PieceOk(b, h, q, u.pieces[q], u.Showing(q));
    }
    forall q: nat | q < PIECES && !run.Has(q) ensures Fresh(h, w, q) {
      ShownIsFresh(h, u, w, q);
    }
  }

  lemma ShownIsOk(t: Table, b: Backing, h: Host, u: Views, ready: Views, w: Views, run: Run)
    requires t.Valid() && run.Fits() && ViewsOk(b, h, u) && Opens(u, ready, run) && Shows(t, b, h, ready, w, run)
    requires forall q: nat :: run.Has(q) ==> PieceOk(b, h, q, run.Record(t, b, h, q), true)
    ensures PiecesOk(b, h, w)
    ensures forall q: nat :: q < PIECES ==> w.Showing(q) == (u.Showing(q) || run.Has(q))
  {
    forall q: nat | q < PIECES
      ensures PieceOk(b, h, q, w.pieces[q], w.Showing(q)) && w.Showing(q) == (u.Showing(q) || run.Has(q))
    {
      assert w.Showing(q) == ready.Showing(q);
      assert PieceOk(b, h, q, u.pieces[q], u.Showing(q));
    }
  }

  // A page opened to be split.
  lemma SplitOpens(b: Backing, h: Host, u: Views, index: nat)
    requires ViewsOk(b, h, u) && index < PIECES / PIECES_PER_VIEW && index !in u.mapped
    ensures var w := u.(mapped := u.mapped + {index}, split := u.split[index := {}]); ViewsOk(b, h, w)
  {
    var w := u.(mapped := u.mapped + {index}, split := u.split[index := {}]);
    forall q: nat | q < PIECES ensures w.Showing(q) == u.Showing(q) {}
    OpenedIsReady(b, h, u, w, Run(0, 0, 0, NoAccess, false, 0));
    forall q: nat | q < PIECES ensures PieceOk(b, h, q, w.pieces[q], w.Showing(q)) {
      assert PieceOk(b, h, q, u.pieces[q], u.Showing(q));
    }
  }

  // A piece of a split page opened, with what it is to be recorded as.
  lemma PieceOpens(t: Table, b: Backing, h: Host, u: Views, p: nat, allowFallback: bool)
    requires t.Valid() && h.Valid() && Shaped(u) && p < PIECES && p / PIECES_PER_VIEW in u.split && !u.Showing(p)
    requires Resolve(t, b, h, p, allowFallback).Some?
    ensures var index, run := p / PIECES_PER_VIEW, RunOf(h, p, Resolve(t, b, h, p, allowFallback).value);
      var w := u.(split := u.split[index := u.split[index] + {p}]);
      && Shaped(w) && run.Fits() && Opens(u, w, run)
      && forall q: nat :: run.Has(q) ==> PieceOk(b, h, q, run.Record(t, b, h, q), true)
  {
    OnePieceOpens(u, p, RunOf(h, p, Resolve(t, b, h, p, allowFallback).value));
    OneRecordOk(t, b, h, p, allowFallback);
  }

  lemma OneRecordOk(t: Table, b: Backing, h: Host, p: nat, allowFallback: bool)
    requires t.Valid() && h.Valid() && p < PIECES && Resolve(t, b, h, p, allowFallback).Some?
    ensures var run := RunOf(h, p, Resolve(t, b, h, p, allowFallback).value);
      run.Fits() && forall q: nat :: run.Has(q) ==> PieceOk(b, h, q, run.Record(t, b, h, q), true)
  {
    var run := RunOf(h, p, Resolve(t, b, h, p, allowFallback).value);
    ResolvedPieceOk(t, b, h, p, allowFallback);
    assert forall q: nat :: run.Has(q) <==> q == p;
  }

  lemma OnePieceOpens(u: Views, p: nat, run: Run)
    requires Shaped(u) && p < PIECES && p / PIECES_PER_VIEW in u.split && !u.Showing(p)
    requires run.first == p && run.count == 1
    ensures var index := p / PIECES_PER_VIEW;
      var w := u.(split := u.split[index := u.split[index] + {p}]);
      Shaped(w) && Opens(u, w, run)
  {
    var index := p / PIECES_PER_VIEW;
    var w := u.(split := u.split[index := u.split[index] + {p}]);
    forall q: nat | q < PIECES ensures w.Showing(q) == (u.Showing(q) || run.Has(q)) && (run.Has(q) ==> !u.Showing(q)) {
      assert run.Has(q) <==> q == p;
    }
  }

  lemma SplitStart(t: Table, b: Backing, h: Host, u: Views, index: nat, refused: set<nat>, first: nat)
    requires t.Valid() && h.Valid() && u.Sized() && index !in u.mapped && index !in u.split
    requires first == index * PIECES_PER_VIEW
    ensures SplitTo(t, b, h, u, u.(mapped := u.mapped + {index}, split := u.split[index := {}]), index, refused, first)
  {
  }

  lemma SplitEnd(t: Table, b: Backing, h: Host, u: Views, w: Views, index: nat, refused: set<nat>, end: nat)
    requires t.Valid() && h.Valid() && end == (index + 1) * PIECES_PER_VIEW <= PIECES
    requires SplitTo(t, b, h, u, w, index, refused, end)
    ensures SplitsPage(t, b, h, u, w, index, refused)
  {
    forall q: nat
      ensures ShownAlone(t, b, h, index, refused, PIECES, q) <==> ShownAlone(t, b, h, index, refused, end, q)
    {
    }
  }

  // --- What mapping the page of a fault does ---

  // A piece that starts to show with no entry of its own shows the kernel
  // address space, where that is asked for, or is part of a view of a kernel
  // frame.
  ghost predicate HasReason(t: Table, b: Backing, h: Host, w: Views, p: nat, q: nat, allowFallback: bool)
    requires t.Valid() && h.Valid() && w.Sized() && p < PIECES && q < PIECES
  {
    || !Named(h.Skewed(), q) || Resolve(t, b, h, q, false).Some?
    || (allowFallback && w.pieces[q].shows == Some(Fallback(h, q)) && w.pieces[q].access == ReadWrite)
    || (Choose(t, b, h, p).Whole? && IsKernelFrame(Choose(t, b, h, p).block))
  }

  // The views after a fault at `p`, where the host may refuse views.
  ghost predicate MapsPage(t: Table, b: Backing, h: Host, u: Views, w: Views, p: nat, allowFallback: bool)
    requires t.Valid() && h.Valid() && p < PIECES
  {
    var index := p / PIECES_PER_VIEW;
    && u.Sized() && w.Sized() && OnlyMaps(t, h, u, w)
    && (forall q: nat :: q < PIECES && !InPage(q, index) ==> w.Showing(q) == u.Showing(q))
    && (forall q: nat :: q < PIECES && w.Showing(q) && !u.Showing(q) ==> HasReason(t, b, h, w, p, q, allowFallback))
    && (index !in u.mapped && Choose(t, b, h, p).Whole? ==> index !in w.split)
  }

  // A page given views hides no entry the table has for it.
  ghost predicate HidesNone(t: Table, b: Backing, h: Host, w: Views, index: nat)
    requires t.Valid() && h.Valid() && w.Sized()
  {
    forall q: nat :: q < PIECES && InPage(q, index) && Resolve(t, b, h, q, false).Some? ==> w.Showing(q)
  }

  lemma PieceMapsPage(t: Table, b: Backing, h: Host, u: Views, w: Views, p: nat, allowFallback: bool)
    requires t.Valid() && h.Valid() && Shaped(u) && p < PIECES && p / PIECES_PER_VIEW in u.split && !u.Showing(p)
    requires Resolve(t, b, h, p, allowFallback).Some?
    requires MapsPiece(t, b, h, u, w, p, Resolve(t, b, h, p, allowFallback).value)
    ensures MapsPage(t, b, h, u, w, p, allowFallback)
    ensures forall q: nat :: q < PIECES ==> w.Showing(q) == (u.Showing(q) || q == p)
  {
    var index, run := p / PIECES_PER_VIEW, RunOf(h, p, Resolve(t, b, h, p, allowFallback).value);
    var ready := u.(split := u.split[index := u.split[index] + {p}]);
    OnePieceOpens(u, p, run);
    forall q: nat | q < PIECES ensures w.Showing(q) == (u.Showing(q) || q == p) {
      assert w.Showing(q) == ready.Showing(q);
      assert run.Has(q) <==> q == p;
    }
  }

  lemma ViewMapsPage(t: Table, b: Backing, h: Host, u: Views, w: Views, p: nat, run: Run, allowFallback: bool)
    requires t.Valid() && h.Valid() && Shaped(u) && p < PIECES && p / PIECES_PER_VIEW !in u.mapped && run.Fits()
    requires run.first == p / PIECES_PER_VIEW * PIECES_PER_VIEW && run.count == PIECES_PER_VIEW
    requires MapsView(t, b, h, u, w, p / PIECES_PER_VIEW, run)
    requires forall q: nat :: q < PIECES && InPage(q, p / PIECES_PER_VIEW) ==>
      HasReason(t, b, h, w, p, q, allowFallback)
    ensures MapsPage(t, b, h, u, w, p, allowFallback)
    ensures forall q: nat :: q < PIECES ==> w.Showing(q) == (u.Showing(q) || InPage(q, p / PIECES_PER_VIEW))
  {
    var index := p / PIECES_PER_VIEW;
    forall q: nat | q < PIECES
      ensures w.Showing(q) == (u.Showing(q) || InPage(q, index)) && (InPage(q, index) <==> run.Has(q)) {}
  }

  lemma SplitMapsPage(t: Table, b: Backing, h: Host, u: Views, w: Views, p: nat, refused: set<nat>, allowFallback: bool)
    requires t.Valid() && h.Valid() && Shaped(u) && p < PIECES && p / PIECES_PER_VIEW !in u.mapped
    requires SplitsPage(t, b, h, u, w, p / PIECES_PER_VIEW, refused) && !Choose(t, b, h, p).Whole?
    ensures MapsPage(t, b, h, u, w, p, allowFallback)
    ensures refused == {} ==> HidesNone(t, b, h, w, p / PIECES_PER_VIEW)
  {
    var index := p / PIECES_PER_VIEW;
    forall q: nat | q < PIECES
      ensures w.Showing(q) == (u.Showing(q) || ShownAlone(t, b, h, index, refused, PIECES, q))
    {
      assert q / PIECES_PER_VIEW != index && q / PIECES_PER_VIEW in u.split ==>
          (u.split - {index})[q / PIECES_PER_VIEW] == (w.split - {index})[q / PIECES_PER_VIEW];
      assert q / PIECES_PER_VIEW != index ==>
          (q / PIECES_PER_VIEW in u.split - {index} <==> q / PIECES_PER_VIEW in w.split - {index});
    }
  }

  // A piece mapped after its page was split.
  lemma SplitThenMaps(t: Table, b: Backing, h: Host, u: Views, m: Views, w: Views, p: nat, allowFallback: bool)
    requires t.Valid() && h.Valid() && p < PIECES && !Choose(t, b, h, p).Whole?
    requires MapsPage(t, b, h, u, m, p, allowFallback) && MapsPage(t, b, h, m, w, p, allowFallback)
    ensures MapsPage(t, b, h, u, w, p, allowFallback)
    ensures HidesNone(t, b, h, m, p / PIECES_PER_VIEW) ==> HidesNone(t, b, h, w, p / PIECES_PER_VIEW)
  {
    forall q: nat | q < PIECES && w.Showing(q) && !u.Showing(q) ensures HasReason(t, b, h, w, p, q, allowFallback) {
      assert m.Showing(q) ==> HasReason(t, b, h, m, p, q, allowFallback) && w.pieces[q] == m.pieces[q];
    }
  }

  // The run one view of the page of a fault shows.
  function WholeRun(h: Host, p: nat, block: nat, access: PageAccess): Run
    requires h.Valid() && p < PIECES
  {
    Run(p / PIECES_PER_VIEW * PIECES_PER_VIEW, PIECES_PER_VIEW, ViewFilePage(h, block), access, true, PageAddress(h, p))
  }

  lemma WholeRunFits(t: Table, b: Backing, h: Host, p: nat)
    requires t.Valid() && h.Valid() && p < PIECES && Named(h.Skewed(), p) && StartsAlike(t, h, p)
    requires Choose(t, b, h, p).Whole?
    ensures var w := Choose(t, b, h, p); WholeRun(h, p, w.block, w.access).Fits()
  {
    BlockIsBacked(t, b, h, p);
    RunFits(h, p, Choose(t, b, h, p).block, Choose(t, b, h, p).access);
  }

  lemma BlockIsBacked(t: Table, b: Backing, h: Host, p: nat)
    requires t.Valid() && h.Valid() && p < PIECES && Named(h.Skewed(), p) && StartsAlike(t, h, p)
    requires Choose(t, b, h, p).Whole?
    ensures var block := Choose(t, b, h, p).block;
      block % VIEW_PAGE == 0 && (block < PHYSICAL_SIZE || IsKernelFrame(block))
  {
    PieceInView(t, b, h, p, p);
    MappedIsBacked(t, b, UserAddress(h.Skewed(), p));
    KernelBlock(Translate(t, b, UserAddress(h.Skewed(), p)).physical, Choose(t, b, h, p).block);
  }

  lemma MappedIsBacked(t: Table, b: Backing, address: nat)
    requires t.Valid() && address < WORD
    ensures var tr := Translate(t, b, address);
      tr.state == Mapped ==> tr.physical < PHYSICAL_SIZE || IsKernelFrame(tr.physical)
  {
  }

  lemma RunFits(h: Host, p: nat, block: nat, access: PageAccess)
    requires h.Valid() && p < PIECES && block % VIEW_PAGE == 0 && (block < PHYSICAL_SIZE || IsKernelFrame(block))
    ensures WholeRun(h, p, block, access).Fits()
  {
    ViewFitsFile(h, block);
  }

  ghost predicate RunPieceOk(t: Table, b: Backing, h: Host, run: Run, q: nat)
    requires t.Valid() && h.Valid() && run.Fits() && q < PIECES
  {
    run.Has(q) && PieceOk(b, h, q, run.Record(t, b, h, q), true)
  }

  lemma WholeRunIsOk(t: Table, b: Backing, h: Host, p: nat, q: nat, block: nat, access: PageAccess)
    requires t.Valid() && h.Valid() && p < PIECES && Named(h.Skewed(), p) && StartsAlike(t, h, p)
    requires Choose(t, b, h, p) == Whole(block, access) && q < PIECES && InPage(q, p / PIECES_PER_VIEW)
    requires WholeRun(h, p, block, access).Fits()
    ensures RunPieceOk(t, b, h, WholeRun(h, p, block, access), q)
  {
    var waits := WholeWaits(t, b, h, p, q);
    var x := WholePieceIs(t, b, h, p, q, block, access, waits);
    WholeRecordOk(t, b, h, p, q, block, access, waits, x);
  }

  lemma WholePieceIs(t: Table, b: Backing, h: Host, p: nat, q: nat, block: nat, access: PageAccess, waits: bool)
    returns (x: Piece)
    requires t.Valid() && h.Valid() && p < PIECES && Named(h.Skewed(), p) && StartsAlike(t, h, p)
    requires Choose(t, b, h, p) == Whole(block, access) && q < PIECES && InPage(q, p / PIECES_PER_VIEW)
    requires Named(h.Skewed(), q) ==> waits == Waits(t, b, UserAddress(h.Skewed(), q))
    ensures x == Recorded(t, h, q, ViewFilePage(h, block) + q % PIECES_PER_VIEW, access, waits)
    ensures PieceOk(b, h, q, x, true)
  {
    x := WholePieceOk(t, b, h, p, q, waits);
  }

  lemma WholeRecordOk(t: Table, b: Backing, h: Host, p: nat, q: nat, block: nat, access: PageAccess, waits: bool,
                      x: Piece)
    requires t.Valid() && h.Valid() && p < PIECES && q < PIECES && InPage(q, p / PIECES_PER_VIEW)
    requires WholeRun(h, p, block, access).Fits()
    requires waits == Waits(t, b, PageAddress(h, p) + q % PIECES_PER_VIEW * SMALL_PAGE)
    requires x == Recorded(t, h, q, ViewFilePage(h, block) + q % PIECES_PER_VIEW, access, waits)
    requires PieceOk(b, h, q, x, true)
    ensures RunPieceOk(t, b, h, WholeRun(h, p, block, access), q)
  {
    WholeRecord(t, b, h, p, q, block, access, waits);
  }

  // Whether a piece of a whole view waits for a first write.
  lemma WholeWaits(t: Table, b: Backing, h: Host, p: nat, q: nat) returns (waits: bool)
    requires t.Valid() && p < PIECES && Named(h.Skewed(), p) && q < PIECES && InPage(q, p / PIECES_PER_VIEW)
    ensures waits == Waits(t, b, PageAddress(h, p) + q % PIECES_PER_VIEW * SMALL_PAGE)
    ensures Named(h.Skewed(), q) ==> waits == Waits(t, b, UserAddress(h.Skewed(), q))
  {
    waits := Waits(t, b, PageAddress(h, p) + q % PIECES_PER_VIEW * SMALL_PAGE);
    if Named(h.Skewed(), q) {
      PieceAddress(h, p, q);
    }
  }

  lemma WholeRecord(t: Table, b: Backing, h: Host, p: nat, q: nat, block: nat, access: PageAccess, waits: bool)
    requires t.Valid() && h.Valid() && p < PIECES && q < PIECES && InPage(q, p / PIECES_PER_VIEW)
    requires WholeRun(h, p, block, access).Fits()
    requires waits == Waits(t, b, PageAddress(h, p) + q % PIECES_PER_VIEW * SMALL_PAGE)
    ensures var run := WholeRun(h, p, block, access);
      && run.Has(q)
      && run.Record(t, b, h, q) ==
         Recorded(t, h, q, ViewFilePage(h, block) + q % PIECES_PER_VIEW, access, waits)
  {
    PieceIndex(p, q);
  }

  lemma PieceIndex(p: nat, q: nat)
    requires InPage(q, p / PIECES_PER_VIEW)
    ensures 0 <= q - p / PIECES_PER_VIEW * PIECES_PER_VIEW == q % PIECES_PER_VIEW < PIECES_PER_VIEW
  {
  }

  lemma WholeHasReason(t: Table, b: Backing, h: Host, w: Views, p: nat, q: nat, allowFallback: bool)
    requires t.Valid() && h.Valid() && w.Sized() && p < PIECES && Named(h.Skewed(), p) && StartsAlike(t, h, p)
    requires Choose(t, b, h, p).Whole? && q < PIECES && InPage(q, p / PIECES_PER_VIEW)
    ensures HasReason(t, b, h, w, p, q, allowFallback)
  {
    if Named(h.Skewed(), q) {
      WholeViewRefinesPieces(t, b, h, p, q);
    }
  }

  // --- Accesses the entry forbids ---

  // A piece whose entry's protection is waived until the next flush.
  function Waived(x: Piece): Piece {
    x.(access := ReadWrite, key := SENTINEL)
  }

  lemma WaivedPieceOk(b: Backing, h: Host, p: nat, x: Piece, showing: bool)
    requires h.Valid() && p < PIECES && Named(h.Skewed(), p) && PieceOk(b, h, p, x, showing) && x.access != ReadWrite
    ensures showing && PieceOk(b, h, p, Waived(x), true)
  {
  }

  // It has no first write to record.
  lemma WaivedIsCurrent(t: Table, b: Backing, h: Host, p: nat, x: Piece)
    requires t.Valid() && h.Valid() && p < PIECES && Named(h.Skewed(), p) && KeyOk(b, h, p, x)
    requires x.access != ReadWrite && Current(t, b, h, p, x)
    ensures Current(t, b, h, p, Waived(x))
  {
    AgreeingKeys(b, UserAddress(h.Skewed(), p), x.key, Key(t, h.Skewed(), p));
  }

  // Whether the pieces shown are mapped from the same words in both tables.
  ghost predicate SameKeys(t: Table, now: Table, h: Host, v: Views)
    requires t.Valid() && now.Valid() && v.Sized()
  {
    forall p: nat :: p < PIECES && v.Showing(p) && Named(h.Skewed(), p) ==>
      Key(now, h.Skewed(), p) == Key(t, h.Skewed(), p)
  }

  lemma SameKeysKeepClean(t: Table, now: Table, b: Backing, h: Host, v: Views)
    requires t.Valid() && now.Valid() && v.Sized() && SameKeys(t, now, h, v) && Clean(t, b, h, v)
    ensures Clean(now, b, h, v)
  {
    forall p: nat | p < PIECES && v.Showing(p) && Named(h.Skewed(), p) ensures Current(now, b, h, p, v.pieces[p]) {
      assert Current(t, b, h, p, v.pieces[p]) && Key(now, h.Skewed(), p) == Key(t, h.Skewed(), p);
    }
  }

  // On 4 KB hosts, firing the watch of a page gives each piece that shows the
  // page what its entry allows, if it is not waiting, and no other piece
  // anything.
  lemma FiringUnlocksItsPieces(b: Backing, h: Host, u: Views, w: Views, page: nat, q: nat)
    requires ViewsOk(b, h, u) && ViewsOk(b, h, w) && !h.coarse && q < PIECES && page in u.watched
    requires w == u.(watched := u.watched - {page}, host := w.host, readTlb := w.readTlb, writeTlb := w.writeTlb)
    ensures if page < PHYSICAL_PAGES && q in u.blocks[page / PIECES_PER_VIEW] && u.pieces[q].physical == Some(page)
            then u.host[q] != ReadWrite && w.host[q] == if u.pieces[q].waiting then u.pieces[q].access.Meet(ReadOnly)
                                                        else u.pieces[q].access
            else w.host[q] == u.host[q]
  {
    assert Fresh(h, u, q) && Fresh(h, w, q) && w.Showing(q) == u.Showing(q);
    assert PieceOk(b, h, q, u.pieces[q], u.Showing(q));
    if u.pieces[q].physical == Some(page) {
      ShownBy(u, page, q);
    }
  }
}
