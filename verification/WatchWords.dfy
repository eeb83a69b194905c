// The watch flags of system pages in words of 64, and the loops that test, set
// and clear ranges of them a word at a time.
module WatchWords {
  import opened Bits

  type Words = seq<bv64>

  predicate Flag(words: Words, i: nat)
    requires i < 64 * |words|
  {
    Has(words[i / 64], i % 64)
  }

  // Two sets of words with the same flags outside first..last.
  ghost predicate SameOutside(a: Words, b: Words, first: nat, last: nat) {
    |a| == |b| && forall i :: 0 <= i < 64 * |a| && !(first <= i <= last) ==> (Flag(a, i) <==> Flag(b, i))
  }

  method SetFlag(words: Words, i: nat) returns (r: Words)
    requires i < 64 * |words|
    ensures |r| == |words| && Flag(r, i)
    ensures forall j :: 0 <= j < 64 * |words| && j != i ==> (Flag(r, j) <==> Flag(words, j))
  {
    var bit := Bit(i % 64);
    var word := Or(words[i / 64], bit);
    r := words[i / 64 := word];
    forall j | 0 <= j < 64 * |words| ensures Flag(r, j) <==> Flag(words, j) || j == i {
      assert i / 64 == j / 64 && i % 64 == j % 64 ==> i == j;
      assert Has(r[j / 64], j % 64) <==> Has(words[j / 64], j % 64) || j == i;
    }
  }

  // The flags of word `k` for pages first..last.
  method Selected(w: bv64, k: nat, first: nat, last: nat) returns (block: bv64)
    requires first / 64 <= k <= last / 64
    ensures forall j :: 0 <= j < 64 ==> (Has(block, j) <==> Has(w, j) && first <= 64 * k + j <= last)
  {
    block := w;
    if k == first / 64 {
      var below := Below(first % 64);
      var from := Not(below);
      block := And(block, from);
    }
    assert forall j :: 0 <= j < 64 ==> (Has(block, j) <==> Has(w, j) && first <= 64 * k + j);
    if k == last / 64 && last % 64 != 63 {
      var through := Below(last % 64 + 1);
      block := And(block, through);
    }
  }

  // The mask clearing first..last keeps of word `k`.
  method KeepMask(k: nat, first: nat, last: nat) returns (mask: bv64)
    requires first / 64 <= k <= last / 64
    ensures forall j :: 0 <= j < 64 ==> (Has(mask, j) <==> !(first <= 64 * k + j <= last))
  {
    mask := 0;
    ZeroHasNone();
    if k == first / 64 {
      var below := Below(first % 64);
      mask := Or(mask, below);
    }
    assert forall j :: 0 <= j < 64 ==> (Has(mask, j) <==> 64 * k + j < first);
    if k == last / 64 && last % 64 != 63 {
      var through := Below(last % 64 + 1);
      var above := Not(through);
      mask := Or(mask, above);
    }
  }

  // Whether any page first..last has a flag in either set.
  method AnyFlag(a: Words, b: Words, first: nat, last: nat) returns (any: bool)
    requires |a| == |b| && first <= last < 64 * |a|
    ensures any <==> exists i :: first <= i <= last && (Flag(a, i) || Flag(b, i))
  {
    var k := first / 64;
    while k <= last / 64
      invariant first / 64 <= k <= last / 64 + 1
      invariant forall i :: first <= i <= last && i / 64 < k ==> !Flag(a, i) && !Flag(b, i)
    {
      var either := Or(a[k], b[k]);
      var block := Selected(either, k, first, last);
      var zero := IsZero(block);
      if !zero {
        ghost var j :| 0 <= j < 64 && Has(block, j);
        assert first <= 64 * k + j <= last && (Flag(a, 64 * k + j) || Flag(b, 64 * k + j));
        return true;
      }
      forall i | first <= i <= last && i / 64 == k ensures !Flag(a, i) && !Flag(b, i) {
        assert i == 64 * k + i % 64 && !Has(block, i % 64);
      }
      k := k + 1;
    }
    return false;
  }

  // Clears the flags of pages first..last.
  method ClearFlags(words: Words, first: nat, last: nat) returns (r: Words)
    requires first <= last < 64 * |words|
    ensures SameOutside(r, words, first, last)
    ensures forall i :: first <= i <= last ==> !Flag(r, i)
  {
    r := words;
    var k := first / 64;
    while k <= last / 64
      invariant first / 64 <= k <= last / 64 + 1
      invariant |r| == |words|
      invariant forall i :: 0 <= i < 64 * |words| ==>
        (Flag(r, i) <==> Flag(words, i) && !(first <= i <= last && i / 64 < k))
    {
      var mask := KeepMask(k, first, last);
      var word := And(r[k], mask);
      ghost var was := r;
      r := r[k := word];
      forall i | 0 <= i < 64 * |words|
        ensures Flag(r, i) <==> Flag(words, i) && !(first <= i <= last && i / 64 < k + 1)
      {
        assert Flag(was, i) <==> Flag(words, i) && !(first <= i <= last && i / 64 < k);
        if i / 64 == k {
          assert i == 64 * k + i % 64;
          assert Has(word, i % 64) <==> Has(was[k], i % 64) && Has(mask, i % 64);
        }
      }
      k := k + 1;
    }
  }

  // Whether every page first..last of one word has its flag.
  method AllFlags(words: Words, first: nat, last: nat) returns (all: bool)
    requires first <= last < 64 * |words| && first / 64 == last / 64
    ensures all <==> forall i :: first <= i <= last ==> Flag(words, i)
  {
    var span := Span(first % 64, last % 64);
    var k := first / 64;
    all := Covers(words[k], span);
    forall i | first <= i <= last ensures i / 64 == k && Has(span, i % 64) {
    }
    if !all {
      ghost var j :| 0 <= j < 64 && Has(span, j) && !Has(words[k], j);
      assert first <= 64 * k + j <= last && !Flag(words, 64 * k + j);
    }
  }
}
