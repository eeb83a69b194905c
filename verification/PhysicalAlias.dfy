// The alias heaps of physical memory (PhysicalHeap of memory.cc): each has a
// page table of its own, and pins there what it allocated from the one parent
// heap every alias shares.
module PhysicalAlias {
  import opened PageTable
  import opened FreeBlocks

  // An alias page table, whose pages are `ratio` parent pages and start
  // `offset` parent pages into the parent.
  datatype View = View(pages: Pages, ratio: nat, offset: nat) {
    // The parent page an alias page starts at.
    function At(s: nat): nat {
      offset + s * ratio
    }
  }

  // Every region of the alias is one region of the parent, of the same bytes.
  ghost predicate Mirrors(parent: Pages, v: View) {
    forall s: nat, c: nat :: IsRegion(v.pages, s, c) ==> IsRegion(parent, v.At(s), c * v.ratio)
  }

  // No parent region belongs to two aliases.
  ghost predicate Apart(a: View, b: View) {
    forall s: nat, c: nat, t: nat, d: nat :: IsRegion(a.pages, s, c) && IsRegion(b.pages, t, d) ==> a.At(s) != b.At(t)
  }

  ghost predicate Coherent(parent: Pages, views: seq<View>) {
    && Partitioned(parent)
    && (forall k :: 0 <= k < |views| ==>
          0 < views[k].ratio && Partitioned(views[k].pages) && Mirrors(parent, views[k]))
    && (forall j, k :: 0 <= j < |views| && 0 <= k < |views| && j != k ==> Apart(views[j], views[k]))
  }

  lemma EmptyIsCoherent(parent: Pages, views: seq<View>)
    requires Partitioned(parent)
    requires forall k :: 0 <= k < |views| ==>
      0 < views[k].ratio && forall i :: 0 <= i < |views[k].pages| ==> views[k].pages[i] == EMPTY_ENTRY
    ensures Coherent(parent, views)
  {
    forall k, s: nat, c: nat | 0 <= k < |views| ensures !IsRegion(views[k].pages, s, c) {
      assert s < |views[k].pages| ==> views[k].pages[s] == EMPTY_ENTRY;
    }
  }

  // One more alias, with nothing allocated, beside coherent ones.
  lemma EmptyJoins(parent: Pages, v: View, others: seq<View>)
    requires Coherent(parent, others) && 0 < v.ratio
    requires forall i :: 0 <= i < |v.pages| ==> v.pages[i] == EMPTY_ENTRY
    ensures Coherent(parent, [v] + others)
  {
    var views := [v] + others;
    forall s: nat, c: nat ensures !IsRegion(v.pages, s, c) {
      assert s < |v.pages| ==> v.pages[s] == EMPTY_ENTRY;
    }
    forall k: nat | 0 < k < |views| ensures views[k] == others[k - 1] {
    }
    forall j: nat, k: nat | j < |views| && k < |views| && j != k ensures Apart(views[j], views[k]) {
      if 0 < j && 0 < k {
        assert Apart(others[j - 1], others[k - 1]);
      }
    }
  }

  // In a coherent state, allocations made through different aliases never share
  // a byte of physical memory.
  lemma RegionsNeverOverlap(parent: Pages, views: seq<View>, j: nat, k: nat, s: nat, c: nat, t: nat, d: nat)
    requires Coherent(parent, views) && j < |views| && k < |views| && j != k
    requires IsRegion(views[j].pages, s, c) && IsRegion(views[k].pages, t, d)
    ensures views[j].At(s) + c * views[j].ratio <= views[k].At(t) ||
            views[k].At(t) + d * views[k].ratio <= views[j].At(s)
  {
    assert Apart(views[j], views[k]);
    RegionsDisjoint(parent, views[j].At(s), c * views[j].ratio, views[k].At(t), d * views[k].ratio);
  }

  // Where the parent is free so is the alias, so pinning what the parent just
  // gave never meets a reserved page.
  lemma FreeParentFreeAlias(parent: Pages, v: View, s: nat, c: nat)
    requires 0 < v.ratio && Partitioned(v.pages) && Mirrors(parent, v) && CommitsReserved(v.pages)
    requires s + c <= |v.pages| && AllFree(FreeFlags(parent), v.At(s), c * v.ratio)
    ensures AllFree(FreeFlags(v.pages), s, c)
  {
    forall x | s <= x < s + c ensures IsFree(v.pages[x]) {
      AliasPageInside(v, s, c, x);
      assert IsFree(parent[v.At(x)]);
      if v.pages[x].state.reserve {
        var b, n := v.pages[x].base, v.pages[x].count;
        assert InItsRegion(v.pages, x) && IsRegion(v.pages, b, n);
        AliasPageInside(v, b, n, x);
      }
    }
  }

  lemma AliasPageInside(v: View, s: nat, c: nat, x: nat)
    requires 0 < v.ratio && s <= x < s + c
    ensures v.At(s) <= v.At(x) < v.At(s) + c * v.ratio
  {
    MulStep(s, x, v.ratio);
    MulStep(x, s + c, v.ratio);
    assert (s + c) * v.ratio == s * v.ratio + c * v.ratio;
  }

  // Allocating in the parent and pinning in alias `k`.
  lemma PinKeepsCoherent(parent: Pages, parent': Pages, views: seq<View>, k: nat, s: nat, c: nat,
                         pp: Protection, pc: bool, vp: Protection, vc: bool)
    requires Coherent(parent, views) && k < |views| && 0 < c
    requires var v := views[k];
      && s + c <= |v.pages| && v.At(s) + c * v.ratio <= |parent|
      && AllFree(FreeFlags(parent), v.At(s), c * v.ratio)
      && AllFree(FreeFlags(v.pages), s, c)
      && parent' == WithRegion(parent, v.At(s), c * v.ratio, pp, pc)
    ensures Coherent(parent', views[k := views[k].(pages := WithRegion(views[k].pages, s, c, vp, vc))])
  {
    var v := views[k];
    var w := v.(pages := WithRegion(v.pages, s, c, vp, vc));
    var views' := views[k := w];
    MulStep(0, c, v.ratio);
    RegionKeepsPartition(parent, v.At(s), c * v.ratio, pp, pc);
    RegionKeepsPartition(v.pages, s, c, vp, vc);
    NewRegion(parent, v.At(s), c * v.ratio, pp, pc);
    NewRegion(v.pages, s, c, vp, vc);
    assert Mirrors(parent', w);
    forall j | 0 <= j < |views'| && j != k
      ensures Mirrors(parent', views'[j]) && Apart(views'[j], w) && Apart(w, views'[j])
    {
      var u := views[j];
      assert Mirrors(parent, u) && Apart(u, v) && Apart(v, u);
      NewIsElsewhere(parent, u, v.At(s), c * v.ratio);
    }
  }

  // A parent region of an alias has another start than free pages do.
  lemma NewIsElsewhere(parent: Pages, u: View, p: nat, c: nat)
    requires 0 < u.ratio && Mirrors(parent, u) && 0 < c && AllFree(FreeFlags(parent), p, c)
    ensures forall t: nat, d: nat :: IsRegion(u.pages, t, d) ==> u.At(t) != p
  {
    forall t: nat, d: nat | IsRegion(u.pages, t, d) ensures u.At(t) != p {
      assert IsRegion(parent, u.At(t), d * u.ratio);
      assert IsFree(parent[p]);
    }
  }

  // Taking free pages adds one region and keeps the others.
  lemma NewRegion(pages: Pages, s: nat, c: nat, protect: Protection, commit: bool)
    requires 0 < c && AllFree(FreeFlags(pages), s, c)
    ensures forall b: nat, n: nat ::
      IsRegion(WithRegion(pages, s, c, protect, commit), b, n) <==> IsRegion(pages, b, n) || (b == s && n == c)
  {
    var r := WithRegion(pages, s, c, protect, commit);
    assert IsRegion(r, s, c);
    forall b: nat, n: nat ensures IsRegion(r, b, n) <==> IsRegion(pages, b, n) || (b == s && n == c) {
      if IsRegion(pages, b, n) {
        assert forall i :: b <= i < b + n ==> pages[i].state.reserve;
        assert forall i :: s <= i < s + c ==> IsFree(pages[i]);
        assert forall i :: b <= i < b + n ==> r[i] == pages[i];
      }
      if IsRegion(r, b, n) && !(b == s && n == c) {
        RegionsDisjoint(r, b, n, s, c);
        assert forall i :: b <= i < b + n ==> r[i] == pages[i];
      }
    }
  }

  // Releasing one region of alias `k` from both.
  lemma ReleaseKeepsCoherent(parent: Pages, views: seq<View>, k: nat, s: nat, c: nat)
    requires Coherent(parent, views) && k < |views| && IsRegion(views[k].pages, s, c)
    ensures IsRegion(parent, views[k].At(s), c * views[k].ratio)
    ensures Coherent(WithFreed(parent, views[k].At(s), c * views[k].ratio),
                     views[k := views[k].(pages := WithFreed(views[k].pages, s, c))])
  {
    var v := views[k];
    assert IsRegion(parent, v.At(s), c * v.ratio);
    var w := v.(pages := WithFreed(v.pages, s, c));
    var p, n := v.At(s), c * v.ratio;
    var views' := views[k := w];
    FreeKeepsPartition(parent, p, n);
    FreeKeepsPartition(v.pages, s, c);
    OwnMirrorAfterRelease(parent, v, s, c);
    forall j | 0 <= j < |views'| && j != k
      ensures Mirrors(WithFreed(parent, p, n), views'[j]) && Apart(views'[j], w) && Apart(w, views'[j])
    {
      assert Mirrors(parent, views[j]) && Apart(views[j], v) && Apart(v, views[j]);
      OtherMirrorAfterRelease(parent, v, s, c, views[j]);
    }
  }

  lemma OwnMirrorAfterRelease(parent: Pages, v: View, s: nat, c: nat)
    requires 0 < v.ratio && Partitioned(parent) && Partitioned(v.pages) && Mirrors(parent, v)
    requires IsRegion(v.pages, s, c) && IsRegion(parent, v.At(s), c * v.ratio)
    ensures Mirrors(WithFreed(parent, v.At(s), c * v.ratio), v.(pages := WithFreed(v.pages, s, c)))
  {
    var w := v.(pages := WithFreed(v.pages, s, c));
    FreeKeepsPartition(parent, v.At(s), c * v.ratio);
    FreeKeepsPartition(v.pages, s, c);
    forall t: nat, d: nat | IsRegion(w.pages, t, d)
      ensures IsRegion(WithFreed(parent, v.At(s), c * v.ratio), w.At(t), d * w.ratio)
    {
      assert IsRegion(v.pages, t, d) && (t, d) != (s, c);
      if v.At(s) == v.At(t) { SameStart(v, s, c, t, d); }
    }
  }

  lemma OtherMirrorAfterRelease(parent: Pages, v: View, s: nat, c: nat, u: View)
    requires Partitioned(parent) && IsRegion(v.pages, s, c) && IsRegion(parent, v.At(s), c * v.ratio)
    requires Mirrors(parent, u) && Apart(u, v)
    ensures Mirrors(WithFreed(parent, v.At(s), c * v.ratio), u)
  {
    FreeKeepsPartition(parent, v.At(s), c * v.ratio);
    forall t: nat, d: nat | IsRegion(u.pages, t, d)
      ensures IsRegion(WithFreed(parent, v.At(s), c * v.ratio), u.At(t), d * u.ratio)
    {
      assert IsRegion(parent, u.At(t), d * u.ratio) && u.At(t) != v.At(s);
    }
  }

  // Two regions of one alias have different parent pages.
  lemma SameStart(v: View, s: nat, c: nat, t: nat, d: nat)
    requires 0 < v.ratio && IsRegion(v.pages, s, c) && IsRegion(v.pages, t, d) && v.At(s) == v.At(t)
    ensures s == t && c == d
  {
    MulStep(s, t, v.ratio);
    MulStep(t, s, v.ratio);
    RegionsDisjoint(v.pages, s, c, t, d);
  }

  // A parent with more regions mirrors what it did before.
  lemma MoreRegionsKeepCoherent(parent: Pages, parent': Pages, views: seq<View>)
    requires Coherent(parent, views) && Partitioned(parent')
    requires forall b: nat, n: nat :: IsRegion(parent, b, n) ==> IsRegion(parent', b, n)
    ensures Coherent(parent', views)
  {
    forall k | 0 <= k < |views| ensures Mirrors(parent', views[k]) {
      assert Mirrors(parent, views[k]);
    }
  }

  // --- Arithmetic of page sizes that divide one another ---

  lemma RoundUpIsMultiple(v: nat, m: nat)
    requires 0 < m
    ensures RoundUp(v, m) % m == 0
  {
    if v == 0 {
      DivUnique(m, m, 1, 0);
    } else {
      MultipleMod(Wrap(v + m - 1) / m, m);
    }
  }

  lemma RoundUpOfMultiple(v: nat, m: nat)
    requires 0 < m && 0 < v < ADDRESS_SPACE && v % m == 0 && ADDRESS_SPACE % m == 0
    ensures RoundUp(v, m) == v && PageCount(v, m) == v / m && 0 < v / m && v == v / m * m
  {
    DivMul(v, m);
    DivMul(ADDRESS_SPACE, m);
    MulStep(v / m, ADDRESS_SPACE / m, m);
    MulStep(ADDRESS_SPACE / m, v / m, m);
    DivUnique(v + m - 1, m, v / m, m - 1);
  }

  lemma MultipleOfProduct(v: nat, r: nat, m: nat)
    requires 0 < r && 0 < m && 0 < r * m && v % (r * m) == 0
    ensures v % m == 0 && v / m == v / (r * m) * r
  {
    var q := v / (r * m);
    DivMul(v, r * m);
    assert v == q * r * m;
    DivUnique(v, m, q * r, 0);
  }
}
