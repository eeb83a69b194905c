// Words of 64 flags and the operations memory.cc has on them, each with what it
// does to every flag. Callers see flags only through these contracts.
module Bits {
  const ALL: bv64 := 0xFFFF_FFFF_FFFF_FFFF

  predicate HasBv(w: bv64, k: bv6) {
    (w >> k) & 1 == 1
  }

  // The position `i` as a shift count.
  function Place(i: nat): bv6
    requires i < 64
  {
    if i == 0 then 0 else Place(i - 1) + 1
  }

  // Whether bit `i` of a word is set.
  predicate Has(w: bv64, i: nat)
    requires i < 64
  {
    HasBv(w, Place(i))
  }

  // uint64_t(1) << i
  method Bit(i: nat) returns (r: bv64)
    requires i < 64
    ensures forall j :: 0 <= j < 64 ==> (Has(r, j) <==> j == i)
  {
    r := 1 as bv64 << Place(i);
    forall j | 0 <= j < 64 ensures Has(r, j) <==> j == i {
      Index(i, j);
      BitBv(Place(i), Place(j));
    }
  }

  method And(a: bv64, b: bv64) returns (r: bv64)
    ensures r == a & b
    ensures forall j :: 0 <= j < 64 ==> (Has(r, j) <==> Has(a, j) && Has(b, j))
  {
    r := a & b;
    forall j | 0 <= j < 64 ensures Has(r, j) <==> Has(a, j) && Has(b, j) {
      AndBv(a, b, Place(j));
    }
  }

  method Or(a: bv64, b: bv64) returns (r: bv64)
    ensures forall j :: 0 <= j < 64 ==> (Has(r, j) <==> Has(a, j) || Has(b, j))
  {
    r := a | b;
    forall j | 0 <= j < 64 ensures Has(r, j) <==> Has(a, j) || Has(b, j) {
      OrBv(a, b, Place(j));
    }
  }

  method Not(a: bv64) returns (r: bv64)
    ensures forall j :: 0 <= j < 64 ==> (Has(r, j) <==> !Has(a, j))
  {
    r := !a;
    forall j | 0 <= j < 64 ensures Has(r, j) <==> !Has(a, j) {
      NotBv(a, Place(j));
    }
  }

  // (uint64_t(1) << first) - 1
  method Below(first: nat) returns (r: bv64)
    requires first < 64
    ensures forall j :: 0 <= j < 64 ==> (Has(r, j) <==> j < first)
  {
    r := (1 as bv64 << Place(first)) - 1;
    forall j | 0 <= j < 64 ensures Has(r, j) <==> j < first {
      Index(j, first);
      BelowBv(Place(first), Place(j));
    }
  }

  // (~uint64_t(0) >> (63 - last)) & (~uint64_t(0) << first)
  method Span(first: nat, last: nat) returns (r: bv64)
    requires first < 64 && last < 64
    ensures forall j :: 0 <= j < 64 ==> (Has(r, j) <==> first <= j <= last)
  {
    var through := Through(last);
    var from := From(first);
    r := And(through, from);
  }

  // ~uint64_t(0) >> (63 - last)
  method Through(last: nat) returns (r: bv64)
    requires last < 64
    ensures forall j :: 0 <= j < 64 ==> (Has(r, j) <==> j <= last)
  {
    r := ALL >> Place(63 - last);
    Flip(last);
    forall j | 0 <= j < 64 ensures Has(r, j) <==> j <= last {
      Index(last, j);
      ThroughBv(Place(last), Place(j));
    }
  }

  // ~uint64_t(0) << first
  method From(first: nat) returns (r: bv64)
    requires first < 64
    ensures forall j :: 0 <= j < 64 ==> (Has(r, j) <==> first <= j)
  {
    r := ALL << Place(first);
    forall j | 0 <= j < 64 ensures Has(r, j) <==> first <= j {
      Index(first, j);
      FromBv(Place(first), Place(j));
    }
  }

  method IsZero(w: bv64) returns (zero: bool)
    ensures zero <==> forall j :: 0 <= j < 64 ==> !Has(w, j)
  {
    zero := w == 0;
    if zero {
      forall j | 0 <= j < 64 ensures !Has(w, j) {
        NoBitBv(Place(j));
      }
    } else if forall j :: 0 <= j < 64 ==> !Has(w, j) {
      NoBitIsZero(w);
    }
  }

  // Whether every flag of a mask is set.
  method Covers(w: bv64, mask: bv64) returns (all: bool)
    ensures all <==> forall j :: 0 <= j < 64 && Has(mask, j) ==> Has(w, j)
  {
    var both := And(w, mask);
    all := both == mask;
    if forall j :: 0 <= j < 64 && Has(mask, j) ==> Has(w, j) {
      SameFlags(both, mask);
    }
  }

  // --- Positions compare as numbers do ---

  lemma {:induction false} PlaceBack(i: nat)
    requires i < 64
    ensures Place(i) as nat == i
  {
    if i > 0 {
      PlaceBack(i - 1);
      NextBv(Place(i - 1));
    }
  }

  lemma NextBv(b: bv6)
    ensures b as nat < 63 ==> (b + 1) as nat == b as nat + 1
  {
  }

  lemma PlaceOrder(a: bv6, b: bv6)
    ensures a < b <==> a as nat < b as nat
    ensures a == b <==> a as nat == b as nat
  {
  }

  lemma Index(i: nat, j: nat)
    requires i < 64 && j < 64
    ensures Place(i) == Place(j) <==> i == j
    ensures Place(i) < Place(j) <==> i < j
  {
    PlaceBack(i);
    PlaceBack(j);
    PlaceOrder(Place(i), Place(j));
  }

  lemma Flip(last: nat)
    requires last < 64
    ensures Place(63 - last) == 63 - Place(last)
  {
    PlaceBack(last);
    PlaceBack(63 - last);
    FlipBack(Place(last));
    PlaceOrder(Place(63 - last), 63 - Place(last));
  }

  lemma FlipBack(a: bv6)
    ensures (63 - a) as nat == 63 - (a as nat)
  {
  }

  // --- One flag at a time ---

  lemma AndBv(a: bv64, b: bv64, j: bv6)
    ensures HasBv(a & b, j) <==> HasBv(a, j) && HasBv(b, j)
  {
  }

  lemma OrBv(a: bv64, b: bv64, j: bv6)
    ensures HasBv(a | b, j) <==> HasBv(a, j) || HasBv(b, j)
  {
  }

  lemma NotBv(a: bv64, j: bv6)
    ensures HasBv(!a, j) <==> !HasBv(a, j)
  {
  }

  lemma BitBv(i: bv6, j: bv6)
    ensures HasBv(1 as bv64 << i, j) <==> i == j
  {
  }

  lemma BelowBv(i: bv6, j: bv6)
    ensures HasBv((1 as bv64 << i) - 1, j) <==> j < i
  {
  }

  lemma ThroughBv(last: bv6, j: bv6)
    ensures HasBv(ALL >> (63 - last), j) <==> j <= last
  {
  }

  lemma FromBv(first: bv6, j: bv6)
    ensures HasBv(ALL << first, j) <==> first <= j
  {
  }

  lemma NoBitBv(j: bv6)
    ensures !HasBv(0, j)
  {
  }

  lemma ZeroHasNone()
    ensures forall j :: 0 <= j < 64 ==> !Has(0, j)
  {
    forall j | 0 <= j < 64 ensures !Has(0, j) {
      NoBitBv(Place(j));
    }
  }

  // --- A word with no flag is zero ---

  lemma SameFlags(a: bv64, b: bv64)
    requires forall j :: 0 <= j < 64 ==> (Has(a, j) <==> Has(b, j))
    ensures a == b
  {
    var x := a ^ b;
    forall j | 0 <= j < 64 ensures !Has(x, j) {
      assert Has(a, j) <==> Has(b, j);
      XorBv(a, b, Place(j));
    }
    NoBitIsZero(x);
    XorZeroBv(a, b);
  }

  lemma XorBv(a: bv64, b: bv64, j: bv6)
    ensures HasBv(a ^ b, j) <==> HasBv(a, j) != HasBv(b, j)
  {
  }

  lemma XorZeroBv(a: bv64, b: bv64)
    requires a ^ b == 0
    ensures a == b
  {
  }

  predicate ClearBv(w: bv64, k: bv6) {
    w & ((1 as bv64 << k) - 1) == 0
  }

  lemma NoBitIsZero(w: bv64)
    requires forall j :: 0 <= j < 64 ==> !Has(w, j)
    ensures w == 0
  {
    ClearBelow(w, 63);
    assert !Has(w, 63);
    PlaceBack(63);
    PlaceOrder(Place(63), 63);
    TopBv(w);
  }

  lemma {:induction false} ClearBelow(w: bv64, k: nat)
    requires k < 64 && forall j :: 0 <= j < k ==> !Has(w, j)
    ensures ClearBv(w, Place(k))
  {
    if k > 0 {
      ClearBelow(w, k - 1);
      assert !Has(w, k - 1);
      ClearStep(w, k - 1);
    } else {
      ZeroBv(w);
    }
  }

  lemma ClearStep(w: bv64, k: nat)
    requires k < 63 && ClearBv(w, Place(k)) && !Has(w, k)
    ensures ClearBv(w, Place(k + 1))
  {
    PlaceBack(k);
    BelowStepBv(w, Place(k));
  }

  lemma ZeroBv(w: bv64)
    ensures ClearBv(w, 0)
  {
  }

  lemma BelowStepBv(w: bv64, k: bv6)
    requires k != 63 && ClearBv(w, k) && !HasBv(w, k)
    ensures ClearBv(w, k + 1)
  {
  }

  lemma TopBv(w: bv64)
    requires ClearBv(w, 63) && !HasBv(w, 63)
    ensures w == 0
  {
  }
}
