// The free block tracker of a heap: an ordered map from the first page of each
// maximal run of free pages to the length of the run. Everything here is about
// such maps as values; the heap that keeps one up to date is in BaseHeap.dfy.
module FreeBlocks {
  import opened Wrappers

  type Blocks = map<nat, nat>

  // The tracker agrees with the free flags `f` of the pages: it has exactly the
  // maximal runs of free pages.
  ghost predicate IsIndexOf(f: seq<bool>, m: Blocks) {
    && (forall s :: s in m ==> IsMaximalRun(f, s, m[s]))
    && (forall s :: 0 <= s < |f| && StartsRun(f, s) ==> s in m)
  }

  ghost predicate StartsRun(f: seq<bool>, s: nat)
    requires s < |f|
  {
    f[s] && (s == 0 || !f[s - 1])
  }

  ghost predicate AllFree(f: seq<bool>, s: nat, c: nat) {
    s + c <= |f| && forall i :: s <= i < s + c ==> f[i]
  }

  ghost predicate AllTaken(f: seq<bool>, s: nat, c: nat) {
    s + c <= |f| && forall i :: s <= i < s + c ==> !f[i]
  }

  ghost predicate IsMaximalRun(f: seq<bool>, s: nat, c: nat) {
    && 0 < c
    && AllFree(f, s, c)
    && (s == 0 || !f[s - 1])
    && (s + c == |f| || !f[s + c])
  }

  // The flags with `c` pages from `s` set to `v`.
  function Fill(f: seq<bool>, s: nat, c: nat, v: bool): (r: seq<bool>)
    requires s + c <= |f|
    ensures |r| == |f|
    ensures forall i :: 0 <= i < |f| ==> r[i] == if s <= i < s + c then v else f[i]
  {
    f[..s] + seq(c, _ => v) + f[s + c..]
  }

  // The start of the run a free page lies in.
  function RunStart(f: seq<bool>, p: nat): (s: nat)
    requires p < |f| && f[p]
    ensures s <= p && StartsRun(f, s)
    ensures forall i :: s <= i <= p ==> f[i]
  {
    if p == 0 || !f[p - 1] then p else RunStart(f, p - 1)
  }

  // Maximality is what makes the search over blocks complete: a run of free
  // pages never spans two blocks.
  lemma RunInsideOneBlock(f: seq<bool>, m: Blocks, p: nat, c: nat) returns (s: nat)
    requires IsIndexOf(f, m) && 0 < c && AllFree(f, p, c)
    ensures s == RunStart(f, p) && s in m && s <= p && p + c <= s + m[s]
  {
    s := RunStart(f, p);
    assert IsMaximalRun(f, s, m[s]);
  }

  // Two blocks never touch.
  lemma BlocksApart(f: seq<bool>, m: Blocks, a: nat, b: nat)
    requires IsIndexOf(f, m) && a in m && b in m && a < b
    ensures a + m[a] < b
  {
    assert IsMaximalRun(f, a, m[a]) && IsMaximalRun(f, b, m[b]);
    assert f[b] && !f[b - 1];
  }

  // Any two trackers that agree with the same pages are the same map, so to be
  // an index is to be what a scan of the page table would rebuild.
  lemma IndexIsUnique(f: seq<bool>, a: Blocks, b: Blocks)
    requires IsIndexOf(f, a) && IsIndexOf(f, b)
    ensures a == b
  {
    forall s | s in a ensures s in b && a[s] == b[s] {
      assert StartsRun(f, s);
      assert IsMaximalRun(f, s, a[s]) && IsMaximalRun(f, s, b[s]);
    }
    forall s | s in b ensures s in a {
      assert StartsRun(f, s);
    }
  }

  // The number of free pages.
  function FreeCount(f: seq<bool>): nat {
    if f == [] then 0 else FreeCount(f[..|f| - 1]) + if f[|f| - 1] then 1 else 0
  }

  // The total length of the blocks starting below `n`.
  function BlockTotal(m: Blocks, n: nat): nat {
    if n == 0 then 0 else BlockTotal(m, n - 1) + if n - 1 in m then m[n - 1] else 0
  }

  lemma {:induction false} SetCount(f: seq<bool>, i: nat, v: bool)
    requires i < |f| && f[i] != v
    ensures v ==> FreeCount(f[i := v]) == FreeCount(f) + 1
    ensures !v ==> FreeCount(f[i := v]) + 1 == FreeCount(f)
  {
    var n := |f| - 1;
    if i == n {
      assert f[i := v][..n] == f[..n];
    } else {
      assert f[i := v][..n] == f[..n][i := v];
      SetCount(f[..n], i, v);
    }
  }

  lemma {:induction false} FillCount(f: seq<bool>, s: nat, c: nat, v: bool)
    requires s + c <= |f| && forall i :: s <= i < s + c ==> f[i] != v
    ensures v ==> FreeCount(Fill(f, s, c, v)) == FreeCount(f) + c
    ensures !v ==> FreeCount(Fill(f, s, c, v)) + c == FreeCount(f)
  {
    if c == 0 {
      assert Fill(f, s, 0, v) == f;
    } else {
      FillCount(f, s, c - 1, v);
      SetCount(Fill(f, s, c - 1, v), s + c - 1, v);
      assert Fill(f, s, c, v) == Fill(f, s, c - 1, v)[s + c - 1 := v];
    }
  }

  // The blocks below `n` hold the free pages below `n`, and the block that
  // straddles `n` the rest of its run.
  lemma {:induction false} TotalBelow(f: seq<bool>, m: Blocks, n: nat)
    requires IsIndexOf(f, m) && n <= |f|
    ensures BlockTotal(m, n) ==
            FreeCount(f[..n]) + if 0 < n < |f| && f[n - 1] && f[n] then RunEnd(f, m, n) - n else 0
  {
    if n > 0 {
      TotalBelow(f, m, n - 1);
      assert f[..n][..n - 1] == f[..n - 1];
      if n < |f| && f[n - 1] && f[n] {
        var s := RunStart(f, n);
        assert RunStart(f, n - 1) == s;
        if s == n - 1 {
          assert n - 1 in m;
        }
      } else if f[n - 1] {
        var s := RunStart(f, n - 1);
        assert IsMaximalRun(f, s, m[s]);
        assert s + m[s] == n;
      }
    }
  }

  // The end of the run that pages n - 1 and n share.
  ghost function RunEnd(f: seq<bool>, m: Blocks, n: nat): (e: nat)
    requires IsIndexOf(f, m) && 0 < n < |f| && f[n - 1] && f[n]
    ensures n < e
  {
    var s := RunStart(f, n);
    assert IsMaximalRun(f, s, m[s]);
    s + m[s]
  }

  // The sum of the block lengths is the number of free pages.
  lemma TotalIsFreeCount(f: seq<bool>, m: Blocks)
    requires IsIndexOf(f, m)
    ensures BlockTotal(m, |f|) == FreeCount(f)
  {
    TotalBelow(f, m, |f|);
    assert f[..|f|] == f;
  }

  // --- Ordered map navigation, as std::map gives it. ---

  // The largest key below `k`.
  function PrevKey(m: Blocks, k: nat): (r: Option<nat>)
    ensures r.Some? ==> r.value in m && r.value < k && forall x :: r.value < x < k ==> x !in m
    ensures r.None? ==> forall x :: 0 <= x < k ==> x !in m
  {
    if k == 0 then None else if k - 1 in m then Some(k - 1) else PrevKey(m, k - 1)
  }

  // The smallest key at or above `k`, of a map with keys below `n`.
  function NextKey(m: Blocks, k: nat, n: nat): (r: Option<nat>)
    ensures r.Some? ==> r.value in m && k <= r.value < n && forall x :: k <= x < r.value ==> x !in m
    ensures r.None? ==> forall x :: k <= x < n ==> x !in m
    decreases n - k
  {
    if k >= n then None else if k in m then Some(k) else NextKey(m, k + 1, n)
  }

  // The block that holds a run is the last one starting at or before it.
  lemma HolderIsLast(f: seq<bool>, m: Blocks, p: nat, c: nat)
    requires IsIndexOf(f, m) && 0 < c && AllFree(f, p, c)
    ensures var it := PrevKey(m, p + 1); it.Some? && it.value <= p && p + c <= it.value + m[it.value]
  {
    var s := RunInsideOneBlock(f, m, p, c);
    var it := PrevKey(m, p + 1);
    if it.value != s {
      BlocksApart(f, m, s, it.value);
    }
  }
}
