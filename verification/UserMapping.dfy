// What MapUserPage shows for a fault: one view of 64 KB, a view per 4 KB piece
// or nothing, and that a single view shows what its pieces alone would.
module UserMapping {
  import opened Wrappers
  import opened PageTable
  import opened UserTable
  import opened UserPieces

  // ResolveUserPiece
  datatype Resolved = Resolved(filePage: nat, fromEntry: bool, access: PageAccess)

  // Where the kernel address space shows a piece: at its window offset, in the
  // view of its whole page.
  function Fallback(h: Host, p: nat): nat
    requires h.Valid()
  {
    FallbackFilePage(p / PIECES_PER_VIEW, h.granules) + p % PIECES_PER_VIEW
  }

  // That is what the kernel address space has at the piece's own address, but for
  // the aliases of physical memory of user mode.
  lemma FallbackIsKernel(h: Host, p: nat)
    requires h.Valid() && p < PIECES && Named(h.Skewed(), p)
    ensures var address := UserAddress(h.Skewed(), p);
      Fallback(h, p) ==
      if 0x2000_0000 <= address < 0x4000_0000 then KernelFilePage(0xA000_0000 + (address - 0x2000_0000))
      else KernelFilePage(address)
  {
    var n := p / PIECES_PER_VIEW;
    FallbackStarts(h, n);
    if n < 0xE000 {
      BelowSkew(n, p % PIECES_PER_VIEW, p);
    }
  }

  // Where the view of a whole page starts. The last of the kernel's views is 4 KB
  // further in the file than its offset, which a coarse granularity rounds off.
  lemma FallbackStarts(h: Host, n: nat)
    requires h.Valid() && n < PIECES / PIECES_PER_VIEW
    ensures FallbackFilePage(n, h.granules) ==
            if n < 0xE000 then UserFilePage(n * VIEW_PAGE)
            else PHYSICAL_FILE_PAGE + (n - 0xE000) * PIECES_PER_VIEW + if h.granules == 1 then 1 else 0
  {
    var page := UserFilePage(n * VIEW_PAGE);
    if n < 0xE000 {
      assert page % 16 == 0;
      MultipleOfGranules(page, h.granules);
    } else {
      var start := PHYSICAL_FILE_PAGE + (n - 0xE000) * PIECES_PER_VIEW;
      assert page == start + 1;
      MultipleOfGranules(start, h.granules);
      DivMul(start, h.granules);
      if h.granules > 1 {
        DivUnique(page, h.granules, start / h.granules, 1);
      } else {
        DivUnique(page, 1, page, 0);
      }
    }
  }

  lemma BelowSkew(n: nat, i: nat, p: nat)
    requires n < 0xE000 && i < PIECES_PER_VIEW && p == n * PIECES_PER_VIEW + i
    ensures UserFilePage(n * VIEW_PAGE) + i == UserFilePage(p * SMALL_PAGE)
  {
  }

  function Resolve(t: Table, b: Backing, h: Host, p: nat, allowFallback: bool): Option<Resolved>
    requires t.Valid() && h.Valid() && p < PIECES
  {
    var tr := Translate(t, b, UserAddress(h.Skewed(), p));
    if tr.state == Mapped then Some(Resolved(EntryFilePage(tr.physical), true, EntryAccess(tr.pp)))
    else if allowFallback then Some(Resolved(Fallback(h, p), false, ReadWrite))
    else None
  }

  // The address the 64 KB page of `p` starts at, by the skew of `p`.
  function PageAddress(h: Host, p: nat): (r: nat)
    requires p < PIECES
    ensures r + VIEW_PAGE <= WORD
  {
    p / PIECES_PER_VIEW * VIEW_PAGE - Skew(h.Skewed(), p * SMALL_PAGE)
  }

  predicate IsSmall(t: Table, address: nat)
    requires t.Valid() && address < WORD
  {
    SizeOfKind(t.kinds[address / 0x1000_0000]).Small?
  }

  // One view can show the sixteen entries from `page`, protected alike.
  ghost predicate Contiguous(t: Table, b: Backing, page: nat, block: nat)
    requires t.Valid() && page + VIEW_PAGE <= WORD
  {
    forall i: nat :: i < PIECES_PER_VIEW ==> ContiguousAt(t, b, page, block, i)
  }

  predicate ContiguousAt(t: Table, b: Backing, page: nat, block: nat, i: nat)
    requires t.Valid() && page + VIEW_PAGE <= WORD && i < PIECES_PER_VIEW
  {
    var tr := Translate(t, b, page + i * SMALL_PAGE);
    && tr.state == Mapped && tr.physical == block + i * SMALL_PAGE
    && EntryAccess(tr.pp) == EntryAccess(Translate(t, b, page).pp)
  }

  // UserPageBlockIsContiguous
  method PageBlockIsContiguous(t: Table, b: Backing, page: nat, block: nat) returns (r: bool)
    requires t.Valid() && page + VIEW_PAGE <= WORD
    ensures r <==> Contiguous(t, b, page, block)
  {
    var blockAccess := None;
    var i := 0;
    while i < PIECES_PER_VIEW
      invariant 0 <= i <= PIECES_PER_VIEW
      invariant blockAccess == if i == 0 then None else Some(EntryAccess(Translate(t, b, page).pp))
      invariant forall j: nat :: j < i ==> ContiguousAt(t, b, page, block, j)
    {
      assert i == 0 ==> page + i * SMALL_PAGE == page;
      var tr := Translate(t, b, page + i * SMALL_PAGE);
      ghost var fits := ContiguousAt(t, b, page, block, i);
      if tr.state != Mapped || tr.physical != block + i * SMALL_PAGE {
        return false;
      }
      var access := EntryAccess(tr.pp);
      if blockAccess == None {
        blockAccess := Some(access);
      } else if blockAccess != Some(access) {
        return false;
      }
      i := i + 1;
    }
    r := true;
  }

  datatype Choice = Whole(block: nat, access: PageAccess) | PerPiece | NoView

  // How a fault at piece `p` shows the entries of its page.
  ghost function Choose(t: Table, b: Backing, h: Host, p: nat): Choice
    requires t.Valid() && p < PIECES
  {
    var address, page := UserAddress(h.Skewed(), p), PageAddress(h, p);
    var tr := Translate(t, b, address);
    if tr.state != Mapped then NoView
    else
      var block := Wrap(tr.physical - (address - page));
      if block % VIEW_PAGE != 0 then PerPiece
      else if IsSmall(t, page) && !Contiguous(t, b, page, block) then PerPiece
      else Whole(block, EntryAccess(tr.pp))
  }

  // The contiguity of small entries is looked at for a page that starts in a
  // segment of small pages. With the skew a page can start in the segment
  // before the one the fault is in.
  predicate StartsAlike(t: Table, h: Host, p: nat)
    requires t.Valid() && p < PIECES
  {
    IsSmall(t, UserAddress(h.Skewed(), p)) ==> IsSmall(t, PageAddress(h, p))
  }

  lemma WithoutSkewStartsAlike(t: Table, h: Host, p: nat)
    requires t.Valid() && p < PIECES && (h.Skewed() ==> p / PIECES_PER_VIEW !in {0xE000, 0xF000})
    ensures StartsAlike(t, h, p)
  {
    var n, i, skew := p / PIECES_PER_VIEW, p % PIECES_PER_VIEW, Skew(h.Skewed(), p * SMALL_PAGE);
    DivUnique(n, 0x1000, n / 0x1000, n % 0x1000);
    assert skew > 0 ==> n % 0x1000 > 0;
    DivUnique(UserAddress(h.Skewed(), p), 0x1000_0000, n / 0x1000, n % 0x1000 * VIEW_PAGE + i * SMALL_PAGE - skew);
    DivUnique(PageAddress(h, p), 0x1000_0000, n / 0x1000, n % 0x1000 * VIEW_PAGE - skew);
  }

  lemma PieceAddress(h: Host, p: nat, q: nat)
    requires p < PIECES && q < PIECES && p / PIECES_PER_VIEW == q / PIECES_PER_VIEW
    requires Named(h.Skewed(), p) && Named(h.Skewed(), q)
    ensures UserAddress(h.Skewed(), q) == PageAddress(h, p) + q % PIECES_PER_VIEW * SMALL_PAGE
  {
  }

  // --- Entries of 64 KB and more ---

  lemma OneFrame(x: nat, y: nat, e: nat, pageSize: PageSize)
    requires x < WORD && y < WORD && e < WORD && x / VIEW_PAGE == y / VIEW_PAGE && !pageSize.Small?
    ensures PhysicalOf(x, e, pageSize) / VIEW_PAGE == PhysicalOf(y, e, pageSize) / VIEW_PAGE
    ensures PhysicalOf(x, e, pageSize) % VIEW_PAGE == x % VIEW_PAGE
  {
    SameFrame(x, y, e, pageSize);
    InBlock64(FrameOf(x, e, pageSize), x, pageSize);
    InBlock64(FrameOf(x, e, pageSize), y, pageSize);
  }

  lemma SameFrame(x: nat, y: nat, e: nat, pageSize: PageSize)
    requires x < WORD && y < WORD && e < WORD && x / VIEW_PAGE == y / VIEW_PAGE && !pageSize.Small?
    ensures FrameOf(x, e, pageSize) == FrameOf(y, e, pageSize)
    ensures FrameOf(x, e, pageSize) < WORD && FrameOf(x, e, pageSize) % VIEW_PAGE == 0
  {
    SameBase(x, y, pageSize);
    BaseIsAligned(e, pageSize);
    BaseIsAligned(x, pageSize);
  }

  lemma SameBase(x: nat, y: nat, pageSize: PageSize)
    requires x / VIEW_PAGE == y / VIEW_PAGE && !pageSize.Small?
    ensures InVirtualHeap(x) == InVirtualHeap(y) && pageSize.Base(x) == pageSize.Base(y)
    ensures ALIAS_BASE <= x < ALIAS_BASE + PHYSICAL_SIZE <==> ALIAS_BASE <= y < ALIAS_BASE + PHYSICAL_SIZE
  {
    InBlocks(x);
    InBlocks(y);
  }

  // The 64 KB and 16 MB pages of an address, by its 64 KB block.
  lemma InBlocks(x: nat)
    ensures x - x % VIEW_PAGE == x / VIEW_PAGE * VIEW_PAGE && x - x % LARGE_PAGE == x / VIEW_PAGE / 0x100 * LARGE_PAGE
    ensures x / VIEW_PAGE * VIEW_PAGE <= x < x / VIEW_PAGE * VIEW_PAGE + VIEW_PAGE
  {
    var n := x / VIEW_PAGE;
    DivUnique(x, LARGE_PAGE, n / 0x100, n % 0x100 * VIEW_PAGE + x % VIEW_PAGE);
  }

  lemma BaseIsAligned(x: nat, pageSize: PageSize)
    requires x < WORD && !pageSize.Small?
    ensures pageSize.Base(x) % VIEW_PAGE == 0 && Wrap(pageSize.Base(x) + FRAME_BIAS) % VIEW_PAGE == 0
  {
    InBlocks(x);
    var n := if pageSize.Medium? then x / VIEW_PAGE else x / VIEW_PAGE / 0x100 * 0x100;
    assert pageSize.Base(x) == n * VIEW_PAGE;
    DivUnique(n * VIEW_PAGE, VIEW_PAGE, n, 0);
    WrapBlocks(n + 0x4000, 0);
  }

  lemma InBlock64(frame: nat, x: nat, pageSize: PageSize)
    requires frame % VIEW_PAGE == 0 && frame < WORD && x < WORD && !pageSize.Small?
    ensures Wrap(frame + pageSize.Offset(x)) % VIEW_PAGE == x % VIEW_PAGE
    ensures Wrap(frame + pageSize.Offset(x)) / VIEW_PAGE ==
            (frame / VIEW_PAGE + (if pageSize.Medium? then 0 else x / VIEW_PAGE % 0x100)) % 0x1_0000
  {
    var blocks := if pageSize.Medium? then 0 else x / VIEW_PAGE % 0x100;
    assert pageSize.Offset(x) == blocks * VIEW_PAGE + x % VIEW_PAGE;
    assert frame == frame / VIEW_PAGE * VIEW_PAGE;
    WrapBlocks(frame / VIEW_PAGE + blocks, x % VIEW_PAGE);
  }

  lemma WrapBlocks(blocks: nat, offset: nat)
    requires offset < VIEW_PAGE
    ensures Wrap(blocks * VIEW_PAGE + offset) == blocks % 0x1_0000 * VIEW_PAGE + offset
    ensures Wrap(blocks * VIEW_PAGE + offset) % VIEW_PAGE == offset
    ensures Wrap(blocks * VIEW_PAGE + offset) / VIEW_PAGE == blocks % 0x1_0000
  {
    var q, r := blocks / 0x1_0000, blocks % 0x1_0000;
    DivUnique(blocks * VIEW_PAGE + offset, WORD, q, r * VIEW_PAGE + offset);
    DivUnique(r * VIEW_PAGE + offset, VIEW_PAGE, r, offset);
  }

  lemma OneEntry(t: Table, b: Backing, x: nat, y: nat)
    requires t.Valid() && x < WORD && y < WORD && x / VIEW_PAGE == y / VIEW_PAGE && !IsSmall(t, x)
    ensures Translate(t, b, x).state == Mapped ==>
              var s, r := Translate(t, b, x), Translate(t, b, y);
              && s.physical % VIEW_PAGE == x % VIEW_PAGE
              && (r.state != Mapped ==> IsKernelFrame(s.physical))
              && (r.state == Mapped ==> r.physical == s.physical - x % VIEW_PAGE + y % VIEW_PAGE && r.pp == s.pp)
  {
    SameTables(x, y);
    SamePlace(t, x, y);
    var place := Locate(t, x);
    if place.state == Mapped {
      var e := Entry(t, place.at);
      OneFrame(x, y, e, place.pageSize);
      OneFrame(y, x, e, place.pageSize);
      SameState(b, x, y, e, place.pageSize);
    }
  }

  lemma SamePlace(t: Table, x: nat, y: nat)
    requires t.Valid() && x < WORD && y < WORD && x / VIEW_PAGE == y / VIEW_PAGE && !IsSmall(t, x)
    ensures Locate(t, x) == Locate(t, y) && (Locate(t, x).state == Mapped ==> !Locate(t, x).pageSize.Small?)
  {
    SameTables(x, y);
  }

  // Addresses in one 64 KB block are in one segment, table and large page.
  lemma SameTables(x: nat, y: nat)
    requires x / VIEW_PAGE == y / VIEW_PAGE
    ensures x / 0x1000_0000 == y / 0x1000_0000 && x / 0x800_0000 == y / 0x800_0000 && x / LARGE_PAGE == y / LARGE_PAGE
  {
    LargerBlocks(x);
    LargerBlocks(y);
  }

  lemma LargerBlocks(x: nat)
    ensures var n := x / VIEW_PAGE;
      x / 0x1000_0000 == n / 0x1000 && x / 0x800_0000 == n / 0x800 && x / LARGE_PAGE == n / 0x100
  {
    var n, r := x / VIEW_PAGE, x % VIEW_PAGE;
    DivUnique(x, 0x1000_0000, n / 0x1000, n % 0x1000 * VIEW_PAGE + r);
    DivUnique(x, 0x800_0000, n / 0x800, n % 0x800 * VIEW_PAGE + r);
    DivUnique(x, LARGE_PAGE, n / 0x100, n % 0x100 * VIEW_PAGE + r);
  }

  lemma SameState(b: Backing, x: nat, y: nat, e: nat, pageSize: PageSize)
    requires !pageSize.Small? && PhysicalOf(x, e, pageSize) / VIEW_PAGE == PhysicalOf(y, e, pageSize) / VIEW_PAGE
    ensures EntryState(b, x, e, pageSize) == EntryState(b, y, e, pageSize) ||
            (IsKernelFrame(PhysicalOf(x, e, pageSize)) && IsKernelFrame(PhysicalOf(y, e, pageSize)))
  {
    SameWindow(PhysicalOf(x, e, pageSize), PhysicalOf(y, e, pageSize), pageSize);
  }

  lemma SameWindow(s: nat, r: nat, pageSize: PageSize)
    requires !pageSize.Small? && s / VIEW_PAGE == r / VIEW_PAGE
    ensures IsKernelFrame(s) == IsKernelFrame(r) && (s >= PHYSICAL_SIZE <==> r >= PHYSICAL_SIZE)
    ensures pageSize.WindowBase(s) == pageSize.WindowBase(r)
  {
  }

  // --- One view and its pieces ---

  // Each piece of the page that the guest can name gets from the one view the
  // memory and the access its own entry gives it. A piece alone can have none
  // where the frame is kernel memory, part of which is unallocated.
  lemma WholeViewRefinesPieces(t: Table, b: Backing, h: Host, p: nat, q: nat)
    requires t.Valid() && h.Valid() && p < PIECES && q < PIECES && p / PIECES_PER_VIEW == q / PIECES_PER_VIEW
    requires Named(h.Skewed(), p) && Named(h.Skewed(), q)
    requires StartsAlike(t, h, p) && Choose(t, b, h, p).Whole?
    ensures var w := Choose(t, b, h, p);
      match Resolve(t, b, h, q, false)
      case Some(r) => r == Resolved(ViewFilePage(h, w.block) + q % PIECES_PER_VIEW, true, w.access)
      case None => IsKernelFrame(w.block)
  {
    PieceInView(t, b, h, p, q);
    var r := Translate(t, b, UserAddress(h.Skewed(), q));
    if r.state == Mapped {
      InOneView(h, Choose(t, b, h, p).block, q % PIECES_PER_VIEW, r.physical);
    }
  }

  // What the translation of a piece is, where its page has one view.
  ghost predicate FitsView(tr: Translation, w: Choice, i: nat)
    requires w.Whole?
  {
    if tr.state == Mapped
    then tr.physical == w.block + i * SMALL_PAGE && EntryAccess(tr.pp) == w.access
    else IsKernelFrame(w.block)
  }

  lemma PieceInView(t: Table, b: Backing, h: Host, p: nat, q: nat)
    requires t.Valid() && h.Valid() && p < PIECES && q < PIECES && p / PIECES_PER_VIEW == q / PIECES_PER_VIEW
    requires Named(h.Skewed(), p) && Named(h.Skewed(), q)
    requires StartsAlike(t, h, p) && Choose(t, b, h, p).Whole?
    ensures FitsView(Translate(t, b, UserAddress(h.Skewed(), q)), Choose(t, b, h, p), q % PIECES_PER_VIEW)
    ensures Choose(t, b, h, p).block % VIEW_PAGE == 0
  {
    if IsSmall(t, PageAddress(h, p)) {
      SmallInView(t, b, h, p, q);
    } else {
      OneEntryInView(t, b, h, p, q);
    }
  }

  lemma SmallInView(t: Table, b: Backing, h: Host, p: nat, q: nat)
    requires t.Valid() && p < PIECES && q < PIECES && p / PIECES_PER_VIEW == q / PIECES_PER_VIEW
    requires Named(h.Skewed(), p) && Named(h.Skewed(), q)
    requires Choose(t, b, h, p).Whole? && IsSmall(t, PageAddress(h, p))
    ensures FitsView(Translate(t, b, UserAddress(h.Skewed(), q)), Choose(t, b, h, p), q % PIECES_PER_VIEW)
  {
    ViewAccess(t, b, h, p);
    PieceAddress(h, p, q);
    ContiguousInView(t, b, h, p, q % PIECES_PER_VIEW);
  }

  // The access of the view is that of the first entry of its page.
  lemma ViewAccess(t: Table, b: Backing, h: Host, p: nat)
    requires t.Valid() && p < PIECES && Named(h.Skewed(), p)
    requires Choose(t, b, h, p).Whole? && IsSmall(t, PageAddress(h, p))
    ensures Choose(t, b, h, p).access == EntryAccess(Translate(t, b, PageAddress(h, p)).pp)
  {
    PieceAddress(h, p, p);
    ContiguousInView(t, b, h, p, p % PIECES_PER_VIEW);
  }

  lemma OneEntryInView(t: Table, b: Backing, h: Host, p: nat, q: nat)
    requires t.Valid() && h.Valid() && p < PIECES && q < PIECES && p / PIECES_PER_VIEW == q / PIECES_PER_VIEW
    requires Named(h.Skewed(), p) && Named(h.Skewed(), q)
    requires StartsAlike(t, h, p) && Choose(t, b, h, p).Whole? && !IsSmall(t, PageAddress(h, p))
    ensures FitsView(Translate(t, b, UserAddress(h.Skewed(), q)), Choose(t, b, h, p), q % PIECES_PER_VIEW)
  {
    BlockIsThePage(t, b, h, p);
    PieceAddress(h, p, q);
    ViewOffset(UserAddress(h.Skewed(), q), PageAddress(h, p), q % PIECES_PER_VIEW);
    OneEntry(t, b, UserAddress(h.Skewed(), p), UserAddress(h.Skewed(), q));
    KernelBlock(Translate(t, b, UserAddress(h.Skewed(), p)).physical, Choose(t, b, h, p).block);
  }

  lemma ContiguousInView(t: Table, b: Backing, h: Host, p: nat, i: nat)
    requires t.Valid() && p < PIECES && Choose(t, b, h, p).Whole? && IsSmall(t, PageAddress(h, p))
    requires i < PIECES_PER_VIEW
    ensures ContiguousAt(t, b, PageAddress(h, p), Choose(t, b, h, p).block, i)
  {
    assert Contiguous(t, b, PageAddress(h, p), Choose(t, b, h, p).block);
  }

  lemma ViewOffset(address: nat, page: nat, i: nat)
    requires page % VIEW_PAGE == 0 && i < PIECES_PER_VIEW && address == page + i * SMALL_PAGE
    ensures address % VIEW_PAGE == i * SMALL_PAGE
  {
  }

  lemma KernelBlock(physical: nat, block: nat)
    requires block <= physical < block + VIEW_PAGE && block % VIEW_PAGE == 0
    ensures IsKernelFrame(physical) == IsKernelFrame(block)
  {
  }

  // The file page a view of a block starts at.
  function ViewFilePage(h: Host, block: nat): nat
    requires h.Valid()
  {
    EntryFilePage(block) - EntryFilePage(block) % h.granules
  }

  lemma InOneView(h: Host, block: nat, i: nat, physical: nat)
    requires h.Valid() && block % VIEW_PAGE == 0 && i < PIECES_PER_VIEW && physical == block + i * SMALL_PAGE
    requires physical < PHYSICAL_SIZE || IsKernelFrame(physical)
    ensures EntryFilePage(physical) == ViewFilePage(h, block) + i
  {
    KernelBlock(physical, block);
    BlockInFile(block, i);
    MultipleOfGranules(EntryFilePage(block), h.granules);
  }

  lemma BlockInFile(block: nat, i: nat)
    requires block % VIEW_PAGE == 0 && i < PIECES_PER_VIEW
    requires block < PHYSICAL_SIZE || IsKernelFrame(block)
    ensures EntryFilePage(block) % 16 == 0 && EntryFilePage(block + i * SMALL_PAGE) == EntryFilePage(block) + i
  {
    var n := block / VIEW_PAGE;
    assert block / SMALL_PAGE == n * 16 && (block + i * SMALL_PAGE) / SMALL_PAGE == n * 16 + i;
    KernelBlock(block + i * SMALL_PAGE, block);
  }

  lemma MultipleOfGranules(page: nat, granules: nat)
    requires page % 16 == 0 && granules in {1, 2, 4, 8, 16}
    ensures page % granules == 0
  {
    var q := page / 16;
    if granules == 1 {
      DivUnique(page, 1, q * 16, 0);
    } else if granules == 2 {
      DivUnique(page, 2, q * 8, 0);
    } else if granules == 4 {
      DivUnique(page, 4, q * 4, 0);
    } else if granules == 8 {
      DivUnique(page, 8, q * 2, 0);
    }
  }

  // An entry of 64 KB or more fills an aligned page, so one view of it is one
  // without the skew.
  lemma BlockIsThePage(t: Table, b: Backing, h: Host, p: nat)
    requires t.Valid() && p < PIECES && Named(h.Skewed(), p) && StartsAlike(t, h, p)
    requires Choose(t, b, h, p).Whole? && !IsSmall(t, PageAddress(h, p))
    ensures var address := UserAddress(h.Skewed(), p);
      && PageAddress(h, p) % VIEW_PAGE == 0 && address / VIEW_PAGE == PageAddress(h, p) / VIEW_PAGE
      && Choose(t, b, h, p).block == Translate(t, b, address).physical - address % VIEW_PAGE
  {
    var address, page := UserAddress(h.Skewed(), p), PageAddress(h, p);
    PieceAddress(h, p, p);
    OneEntry(t, b, address, address);
    var physical := Translate(t, b, address).physical;
    AlignedPage(physical, address, page);
  }

  lemma AlignedPage(physical: nat, address: nat, page: nat)
    requires physical < WORD && page <= address < page + VIEW_PAGE && physical % VIEW_PAGE == address % VIEW_PAGE
    requires Wrap(physical - (address - page)) % VIEW_PAGE == 0
    ensures page % VIEW_PAGE == 0 && Wrap(physical - (address - page)) == physical - address % VIEW_PAGE
  {
    var block := physical - (address - page);
    assert block % VIEW_PAGE == 0;
    assert (physical - address) % VIEW_PAGE == 0;
    assert page % VIEW_PAGE == 0;
  }

  // --- Where one view hides what its pieces name ---

  // Whether one view shows piece `q` as its own entry would.
  ghost predicate ViewIsRight(t: Table, b: Backing, h: Host, p: nat, q: nat)
    requires t.Valid() && h.Valid() && p < PIECES && q < PIECES && Choose(t, b, h, p).Whole?
  {
    var w := Choose(t, b, h, p);
    match Resolve(t, b, h, q, false)
    case Some(r) => r == Resolved(ViewFilePage(h, w.block) + q % PIECES_PER_VIEW, true, w.access)
    case None => IsKernelFrame(w.block)
  }

  // Whatever table has these segment kinds, a fault at `p` never hides what an
  // entry of its page names. All memory is usable.
  ghost predicate NeverHides(kinds: seq<nat>, h: Host, p: nat)
    requires h.Valid() && p < PIECES
  {
    forall t: Table, q: nat :: q < PIECES && IsFaultWith(t, kinds, h, p, q) ==> ViewIsRight(t, ALL_USABLE, h, p, q)
  }

  // A table of these kinds gives the page of a fault at `p` one view, which
  // shows the piece `q` too.
  ghost predicate IsFaultWith(t: Table, kinds: seq<nat>, h: Host, p: nat, q: nat)
    requires h.Valid() && p < PIECES
  {
    && t.Valid() && t.kinds == kinds && q / PIECES_PER_VIEW == p / PIECES_PER_VIEW && Named(h.Skewed(), q)
    && Choose(t, ALL_USABLE, h, p).Whole?
  }

  const ALL_USABLE := Backing((_, _) => true, _ => true)

  // The segment kinds decide: one view is always right exactly where the page
  // starts in a segment like that of the fault.
  lemma RightExactlyWhereAlike(t: Table, h: Host, p: nat)
    requires t.Valid() && h.Valid() && p < PIECES && Named(h.Skewed(), p)
    ensures NeverHides(t.kinds, h, p) <==> StartsAlike(t, h, p)
  {
    if StartsAlike(t, h, p) {
      forall u: Table, q: nat | q < PIECES && IsFaultWith(u, t.kinds, h, p, q)
        ensures ViewIsRight(u, ALL_USABLE, h, p, q)
      {
        WholeViewRefinesPieces(u, ALL_USABLE, h, p, q);
      }
    } else {
      OnlyTwoPages(t, h, p);
      ScatteredIsHidden(t, h, p);
      assert IsFaultWith(Scattered(t.kinds, p), t.kinds, h, p, Neighbour(p));
      assert !ViewIsRight(Scattered(t.kinds, p), ALL_USABLE, h, p, Neighbour(p));
    }
  }

  // The only pages that start in another segment than a fault in them.
  lemma OnlyTwoPages(t: Table, h: Host, p: nat)
    requires t.Valid() && p < PIECES && Named(h.Skewed(), p) && !StartsAlike(t, h, p)
    ensures h.Skewed() && p / PIECES_PER_VIEW in {0xE000, 0xF000} && p % PIECES_PER_VIEW > 0
  {
    if !(h.Skewed() && p / PIECES_PER_VIEW in {0xE000, 0xF000}) {
      WithoutSkewStartsAlike(t, h, p);
    }
  }

  // Another piece of such a page.
  function Neighbour(p: nat): nat {
    p / PIECES_PER_VIEW * PIECES_PER_VIEW + if p % PIECES_PER_VIEW == 1 then 2 else 1
  }

  // A table of given kinds whose entries for a page at the start of a segment of
  // 4 KB pages are scattered, one placed for the fault at `p`.
  function Scattered(kinds: seq<nat>, p: nat): Table {
    var i, j := p % PIECES_PER_VIEW, Neighbour(p) % PIECES_PER_VIEW;
    Table(true, kinds, seq(512, k => if k == p / 0x800 then 1 else 0), seq(32, k => 0), seq(256, k => 0),
          seq(PHYSICAL_SIZE / 4, k =>
            if k == 0x7FF + i then 0x1_0002 + i * SMALL_PAGE else if k == 0x7FF + j then 0x5_0002 else 0))
  }

  lemma ScatteredIsHidden(t: Table, h: Host, p: nat)
    requires t.Valid() && h.Valid() && p < PIECES && Named(h.Skewed(), p) && !StartsAlike(t, h, p)
    requires h.Skewed() && p / PIECES_PER_VIEW in {0xE000, 0xF000} && p % PIECES_PER_VIEW > 0
    ensures var u := Scattered(t.kinds, p);
      && u.Valid() && Named(true, Neighbour(p)) && Neighbour(p) / PIECES_PER_VIEW == p / PIECES_PER_VIEW
      && Choose(u, ALL_USABLE, h, p) == Whole(0x1_0000, ReadWrite)
      && Resolve(u, ALL_USABLE, h, Neighbour(p), false) == Some(Resolved(PHYSICAL_FILE_PAGE + 0x50, true, ReadWrite))
      && ViewFilePage(h, 0x1_0000) + Neighbour(p) % PIECES_PER_VIEW < PHYSICAL_FILE_PAGE + 0x50
  {
    var u := Scattered(t.kinds, p);
    MultipleOfGranules(PHYSICAL_FILE_PAGE + 0x10, h.granules);
    ScatteredEntry(t, h, p, Neighbour(p), 0x5_0002);
    FrameOfSmall(UserAddress(true, Neighbour(p)), 0x5_0000);
    ScatteredView(t, h, p);
  }

  lemma ScatteredView(t: Table, h: Host, p: nat)
    requires t.Valid() && p < PIECES && !StartsAlike(t, h, p)
    requires h.Skewed() && p / PIECES_PER_VIEW in {0xE000, 0xF000} && p % PIECES_PER_VIEW > 0
    ensures var u := Scattered(t.kinds, p);
      u.Valid() && Choose(u, ALL_USABLE, h, p) == Whole(0x1_0000, ReadWrite)
  {
    var i := p % PIECES_PER_VIEW;
    ScatteredEntry(t, h, p, p, 0x1_0002 + i * SMALL_PAGE);
    FrameOfSmall(UserAddress(true, p), 0x1_0000 + i * SMALL_PAGE);
    assert UserAddress(true, p) - PageAddress(h, p) == i * SMALL_PAGE;
  }

  // What the scattered table has for a piece of its page.
  lemma ScatteredEntry(t: Table, h: Host, p: nat, q: nat, e: nat)
    requires t.Valid() && h.Skewed() && p < PIECES && !StartsAlike(t, h, p)
    requires p / PIECES_PER_VIEW in {0xE000, 0xF000} && p % PIECES_PER_VIEW > 0 && q in {p, Neighbour(p)}
    requires e == if q == p then 0x1_0002 + p % PIECES_PER_VIEW * SMALL_PAGE else 0x5_0002
    ensures var u := Scattered(t.kinds, p);
      && u.Valid() && q < PIECES && Named(true, q) && q / PIECES_PER_VIEW == p / PIECES_PER_VIEW
      && Locate(u, UserAddress(true, q)) == Place(Small, InMemory(0x7FF + q % PIECES_PER_VIEW), Mapped)
      && u.words[0x7FF + q % PIECES_PER_VIEW] == e
  {
    var u := Scattered(t.kinds, p);
    var address := UserAddress(true, q);
    assert address == p / PIECES_PER_VIEW * VIEW_PAGE + (q % PIECES_PER_VIEW - 1) * SMALL_PAGE;
    assert address / 0x1000_0000 == UserAddress(true, p) / 0x1000_0000 && address / 0x80_0000 == p / 0x800;
  }

  lemma FrameOfSmall(address: nat, frame: nat)
    requires address < WORD && address % SMALL_PAGE == 0 && 0 < frame < PHYSICAL_SIZE && frame % SMALL_PAGE == 0
    ensures EntryState(ALL_USABLE, address, frame + 2, Small) == Mapped
    ensures PhysicalOf(address, frame + 2, Small) == frame
  {
    DivUnique(frame + 2, SMALL_PAGE, frame / SMALL_PAGE, 2);
  }
}
