// The user mode views as values: what a piece of the window, of 4 KB, shows and
// allows, the reverse map from physical memory, and what a host or the JIT's
// tables make of a piece.
module UserPieces {
  import opened Wrappers
  import opened PageTable
  import opened UserTable

  const BLOCKS: nat := 0x2000
  const FILE_PAGES: nat := PHYSICAL_FILE_PAGE + PHYSICAL_PAGES
  const U64: nat := 0x1_0000_0000_0000_0000

  // The parallel per-piece vectors, as one record a piece.
  datatype Piece = Piece(
    shows: Option<nat>, // the file page the piece shows
    physical: Option<nat>, // the physical page, of those
    access: PageAccess, // what the entry allows
    key: nat, // the table words it was mapped from
    waiting: bool) // kept read-only until a first write is recorded in the entry

  const UNSHOWN := Piece(None, None, ReadWrite, SENTINEL, false)

  // The host: the pieces in one of its pages, the allocation granularity in
  // 4 KB pages, and where the window and the alias of the whole file are.
  datatype Host = Host(perPage: nat, granules: nat, window: nat, fileAlias: nat) {
    // Whether pieces share host pages.
    const coarse: bool := perPage > 1

    predicate Valid() {
      && perPage in {1, 2, 4, 8, 16} && granules in {1, 2, 4, 8, 16} && perPage <= granules
      && window < U64 && fileAlias < U64
    }

    predicate Skewed() {
      granules > 1
    }

    // The window and the alias are different memory of the host.
    predicate Apart() {
      && window + WORD + SMALL_PAGE <= U64 && fileAlias + FILE_PAGES * SMALL_PAGE <= U64
      && (window + WORD + SMALL_PAGE <= fileAlias || fileAlias + FILE_PAGES * SMALL_PAGE <= window)
    }
  }

  datatype Views = Views(
    mapped: set<nat>, // 64 KB pages of the window
    split: map<nat, set<nat>>, // those shown per piece, and the pieces shown
    pieces: seq<Piece>,
    blocks: seq<seq<nat>>, // the pieces showing each physical 64 KB block
    watched: set<nat>, // physical pages whose next write is reported
    host: seq<PageAccess>, // what 4 KB hosts let the window do
    readTlb: seq<nat>,
    writeTlb: seq<nat>) // what coarse hosts' JIT code goes by
  {
    predicate Sized() {
      && |pieces| == |host| == |readTlb| == |writeTlb| == PIECES
      && |blocks| == BLOCKS
    }

    predicate Showing(p: nat) {
      && p / PIECES_PER_VIEW in mapped
      && (p / PIECES_PER_VIEW in split ==> p in split[p / PIECES_PER_VIEW])
    }

    // UserPieceAccess
    function Access(p: nat): PageAccess
      requires p < |pieces|
    {
      var piece := pieces[p];
      if piece.access == NoAccess then NoAccess
      else if (piece.physical.Some? && piece.physical.value in watched) || piece.waiting then ReadOnly
      else piece.access
    }
  }

  // --- The reverse map ---

  ghost predicate NoDuplicates(s: seq<nat>) {
    forall i, j :: 0 <= i < j < |s| ==> s[i] != s[j]
  }

  // Piece `p` shows memory of block `k`.
  predicate InBlock(pieces: seq<Piece>, p: nat, k: nat) {
    p < |pieces| && pieces[p].physical.Some? && pieces[p].physical.value / PIECES_PER_VIEW == k
  }

  ghost predicate BlockIs(pieces: seq<Piece>, block: seq<nat>, k: nat) {
    NoDuplicates(block) && forall p: nat :: p in block <==> InBlock(pieces, p, k)
  }

  // The block lists are the exact inverse of what each piece shows.
  ghost predicate IsInverse(v: Views) {
    forall k :: 0 <= k < |v.blocks| ==> BlockIs(v.pieces, v.blocks[k], k)
  }

  function IndexOf(s: seq<nat>, x: nat): (i: nat)
    requires x in s
    ensures i < |s| && s[i] == x
  {
    if s[0] == x then 0 else 1 + IndexOf(s[1..], x)
  }

  function Erased(s: seq<nat>, x: nat): seq<nat>
    requires x in s
  {
    var i := IndexOf(s, x);
    s[..i] + s[i + 1..]
  }

  lemma ErasedElements(s: seq<nat>, x: nat)
    requires x in s && NoDuplicates(s)
    ensures NoDuplicates(Erased(s, x))
    ensures forall y :: y in Erased(s, x) <==> y in s && y != x
  {
    var i, r := IndexOf(s, x), Erased(s, x);
    forall y ensures y in r <==> y in s && y != x {
      if y in s && y != x {
        var j :| 0 <= j < |s| && s[j] == y;
        assert r[if j < i then j else j - 1] == y;
      }
      if y in r {
        var j :| 0 <= j < |r| && r[j] == y;
        assert s[if j < i then j else j + 1] == y;
      }
    }
  }

  // A piece that showed nothing physical starts to show a physical page.
  lemma TrackKeepsInverse(v: Views, p: nat, page: nat, piece: Piece)
    requires v.Sized() && IsInverse(v) && p < PIECES && v.pieces[p].physical == None
    requires page < PHYSICAL_PAGES && piece.physical == Some(page)
    ensures var k := page / PIECES_PER_VIEW;
      k < BLOCKS && IsInverse(v.(pieces := v.pieces[p := piece], blocks := v.blocks[k := v.blocks[k] + [p]]))
  {
    var k := page / PIECES_PER_VIEW;
    var w := v.(pieces := v.pieces[p := piece], blocks := v.blocks[k := v.blocks[k] + [p]]);
    forall j | 0 <= j < |w.blocks| ensures BlockIs(w.pieces, w.blocks[j], j) {
      assert BlockIs(v.pieces, v.blocks[j], j);
      assert !InBlock(v.pieces, p, j);
      forall q: nat ensures q in w.blocks[j] <==> InBlock(w.pieces, q, j) {
        assert q in v.blocks[j] <==> InBlock(v.pieces, q, j);
      }
    }
  }

  // A piece that showed a physical page stops.
  lemma UntrackKeepsInverse(v: Views, p: nat, piece: Piece)
    requires v.Sized() && IsInverse(v) && p < PIECES && v.pieces[p].physical.Some? && piece.physical == None
    requires v.pieces[p].physical.value < PHYSICAL_PAGES
    ensures var k := v.pieces[p].physical.value / PIECES_PER_VIEW;
      k < BLOCKS && p in v.blocks[k] &&
      IsInverse(v.(pieces := v.pieces[p := piece], blocks := v.blocks[k := Erased(v.blocks[k], p)]))
  {
    var k := v.pieces[p].physical.value / PIECES_PER_VIEW;
    assert BlockIs(v.pieces, v.blocks[k], k) && InBlock(v.pieces, p, k);
    ErasedElements(v.blocks[k], p);
    var w := v.(pieces := v.pieces[p := piece], blocks := v.blocks[k := Erased(v.blocks[k], p)]);
    forall j | 0 <= j < |w.blocks| ensures BlockIs(w.pieces, w.blocks[j], j) {
      assert BlockIs(v.pieces, v.blocks[j], j);
      forall q: nat ensures q in w.blocks[j] <==> InBlock(w.pieces, q, j) {
        assert q in v.blocks[j] <==> InBlock(v.pieces, q, j);
      }
    }
  }

  // A change that leaves what every piece shows leaves the map alone.
  lemma SamePhysicalKeepsInverse(v: Views, w: Views)
    requires IsInverse(v) && w.blocks == v.blocks && |w.pieces| == |v.pieces|
    requires forall p :: 0 <= p < |v.pieces| ==> w.pieces[p].physical == v.pieces[p].physical
    ensures IsInverse(w)
  {
    forall k | 0 <= k < |w.blocks| ensures BlockIs(w.pieces, w.blocks[k], k) {
      assert BlockIs(v.pieces, v.blocks[k], k);
      forall p: nat ensures p in w.blocks[k] <==> InBlock(w.pieces, p, k) {
        assert p in v.blocks[k] <==> InBlock(v.pieces, p, k);
      }
    }
  }

  // The block list holds exactly the pieces that show a physical page, for each
  // page of the block.
  lemma ShownBy(v: Views, page: nat, p: nat)
    requires v.Sized() && IsInverse(v) && page < PHYSICAL_PAGES
    ensures page / PIECES_PER_VIEW < BLOCKS
    ensures p in v.blocks[page / PIECES_PER_VIEW] && p < PIECES && v.pieces[p].physical == Some(page) <==>
            p < PIECES && v.pieces[p].physical == Some(page)
  {
    assert BlockIs(v.pieces, v.blocks[page / PIECES_PER_VIEW], page / PIECES_PER_VIEW);
    assert p in v.blocks[page / PIECES_PER_VIEW] <==> InBlock(v.pieces, p, page / PIECES_PER_VIEW);
  }

  // --- What the host makes of a piece ---

  // The JIT's table index of a piece, and the entries UpdateUserTlb gives it:
  // into the alias of the file for an access allowed, and the window for others.
  function TlbIndex(h: Host, p: nat): (i: nat)
    requires p < PIECES && Named(h.Skewed(), p)
    ensures i < PIECES
  {
    UserAddress(h.Skewed(), p) / SMALL_PAGE
  }

  function TlbEntry(h: Host, p: nat, piece: Piece, allowed: bool): nat
    requires p < PIECES && Named(h.Skewed(), p)
  {
    if piece.shows.Some? && allowed
    then (h.fileAlias + (piece.shows.value - TlbIndex(h, p)) * SMALL_PAGE) % U64
    else (h.window + Skew(h.Skewed(), p * SMALL_PAGE)) % U64
  }

  // A 4 KB host allows exactly what a shown piece does and nothing elsewhere. A
  // coarse one's tables bypass the window exactly where the piece allows it.
  ghost predicate Fresh(h: Host, v: Views, p: nat)
    requires v.Sized() && p < PIECES
  {
    if h.coarse then
      Named(h.Skewed(), p) ==>
        && v.readTlb[TlbIndex(h, p)] == TlbEntry(h, p, v.pieces[p], v.Access(p) != NoAccess)
        && v.writeTlb[TlbIndex(h, p)] == TlbEntry(h, p, v.pieces[p], v.Access(p) == ReadWrite)
    else
      v.host[p] == if v.Showing(p) then v.Access(p) else NoAccess
  }

  // No two pieces share a table entry.
  lemma TlbIndexInjective(h: Host, p: nat, q: nat)
    requires p < PIECES && q < PIECES && Named(h.Skewed(), p) && Named(h.Skewed(), q)
    requires TlbIndex(h, p) == TlbIndex(h, q)
    ensures p == q
  {
  }

  // Where a table entry bypasses the window, it takes the guest address to the
  // byte the piece shows. Elsewhere it takes it to the piece's window offset.
  lemma TlbReaches(h: Host, v: Views, p: nat, offset: nat)
    requires h.Valid() && v.Sized() && p < PIECES && Named(h.Skewed(), p) && offset < SMALL_PAGE
    requires h.coarse && Fresh(h, v, p)
    ensures var address := UserAddress(h.Skewed(), p) + offset;
      && (v.readTlb[TlbIndex(h, p)] + address) % U64 ==
         (if v.pieces[p].shows.Some? && v.Access(p) != NoAccess
          then h.fileAlias + v.pieces[p].shows.value * SMALL_PAGE + offset
          else h.window + p * SMALL_PAGE + offset) % U64
      && (v.writeTlb[TlbIndex(h, p)] + address) % U64 ==
         (if v.pieces[p].shows.Some? && v.Access(p) == ReadWrite
          then h.fileAlias + v.pieces[p].shows.value * SMALL_PAGE + offset
          else h.window + p * SMALL_PAGE + offset) % U64
  {
    var address := UserAddress(h.Skewed(), p) + offset;
    assert UserAddress(h.Skewed(), p) == TlbIndex(h, p) * SMALL_PAGE;
    assert UserAddress(h.Skewed(), p) + Skew(h.Skewed(), p * SMALL_PAGE) == p * SMALL_PAGE;
    if v.pieces[p].shows.Some? {
      WrapSum(h.fileAlias + (v.pieces[p].shows.value - TlbIndex(h, p)) * SMALL_PAGE, address);
    }
    WrapSum(h.window + Skew(h.Skewed(), p * SMALL_PAGE), address);
  }

  lemma WrapSum(x: int, y: nat)
    ensures (x % U64 + y) % U64 == (x + y) % U64
  {
  }
}
