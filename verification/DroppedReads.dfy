// What read callbacks are told when a write drops read watches (TriggerCallbacks
// of memory.cc): the pages from the first dropped to the last, as written, or as
// discarded where the request wholly covers a page it discards.
module DroppedReads {
  import opened Wrappers
  import opened PageTable
  import opened WatchWords

  // One call of the read callbacks, for system pages first..last.
  datatype Notice = Notice(first: nat, last: nat, discard: bool)

  predicate Tells(n: Notice, page: nat) {
    n.first <= page <= n.last
  }

  ghost predicate IsDropped(read: Words, first: nat, last: nat, page: nat)
    requires last < 64 * |read|
  {
    first <= page <= last && Flag(read, page)
  }

  // The host bytes from..end hold every byte of a page.
  predicate WhollyInside(page: nat, from: nat, end: nat, systemPage: nat) {
    from <= page * systemPage && page * systemPage + systemPage <= end
  }

  lemma WhollyInsideBytes(page: nat, from: nat, end: nat, m: nat)
    requires 0 < m
    ensures WhollyInside(page, from, end, m) <==> forall y: nat | InPage(y, m, page) :: from <= y < end
  {
    DivUnique(page * m, m, page, 0);
    DivUnique(page * m + (m - 1), m, page, m - 1);
    assert InPage(page * m, m, page) && InPage(page * m + (m - 1), m, page);
    forall y: nat | InPage(y, m, page) ensures page * m <= y < page * m + m {
      DivMul(y, m);
    }
  }

  // A byte lies in a page.
  predicate InPage(y: nat, m: nat, page: nat)
    requires 0 < m
  {
    y / m == page
  }

  ghost predicate NoneDropped(read: Words, first: nat, last: nat)
    requires last < 64 * |read|
  {
    forall page: nat :: !IsDropped(read, first, last, page)
  }

  // The first and last read watch dropped.
  ghost predicate AreEnds(read: Words, first: nat, last: nat, lo: nat, hi: nat)
    requires last < 64 * |read|
  {
    && IsDropped(read, first, last, lo) && IsDropped(read, first, last, hi)
    && forall page: nat :: IsDropped(read, first, last, page) ==> lo <= page <= hi
  }

  // A dropped read watch is at or below the page, and one at or above it.
  ghost predicate BetweenDropped(read: Words, first: nat, last: nat, page: nat)
    requires last < 64 * |read|
  {
    exists p: nat, q: nat :: IsDropped(read, first, last, p) && p <= page <= q && IsDropped(read, first, last, q)
  }

  method FindDropped(read: Words, first: nat, last: nat) returns (range: Option<(nat, nat)>)
    requires first <= last < 64 * |read|
    ensures match range
            case Some(r) => AreEnds(read, first, last, r.0, r.1)
            case None => NoneDropped(read, first, last)
  {
    range := None;
    var i := first;
    while i <= last
      invariant first <= i <= last + 1
      invariant range.None? ==> forall page: nat :: first <= page < i ==> !Flag(read, page)
      invariant range.Some? ==>
                  && first <= range.value.0 <= range.value.1 < i
                  && Flag(read, range.value.0) && Flag(read, range.value.1)
                  && forall page: nat :: first <= page < i && Flag(read, page) ==>
                       range.value.0 <= page <= range.value.1
    {
      if Flag(read, i) {
        range := Some((if range.Some? then range.value.0 else i, i));
      }
      i := i + 1;
    }
  }

  // The pages all of whose bytes a request discards.
  method FindDiscarded(from: nat, end: nat, systemPage: nat, discarded: bool) returns (range: Option<(nat, nat)>)
    requires 0 < systemPage && from < end
    ensures match range
            case Some(r) =>
              && discarded && r.0 <= r.1
              && forall page: nat :: WhollyInside(page, from, end, systemPage) <==> r.0 <= page <= r.1
            case None => !discarded || forall page: nat :: !WhollyInside(page, from, end, systemPage)
  {
    var a, b := (from + systemPage - 1) / systemPage, end / systemPage;
    forall page: nat ensures WhollyInside(page, from, end, systemPage) <==> a <= page < b {
      InsideBounds(page, from, end, systemPage);
    }
    QuotientIsNat(from + systemPage - 1, systemPage);
    range := if discarded && b > a then Some((a, b - 1)) else None;
  }

  lemma InsideBounds(page: nat, from: nat, end: nat, m: nat)
    requires 0 < m
    ensures WhollyInside(page, from, end, m) <==> (from + m - 1) / m <= page < end / m
  {
    var a, b := (from + m - 1) / m, end / m;
    DivMul(from + m - 1, m);
    DivMul(end, m);
    MulStep(a, page, m);
    MulStep(page, a, m);
    MulStep(page, b, m);
    MulStep(b, page, m);
  }

  // Notices of increasing pages, each as long as its kind allows.
  ghost predicate InOrder(ns: seq<Notice>) {
    && (forall i :: 0 <= i < |ns| ==> ns[i].first <= ns[i].last)
    && (forall i, j :: 0 <= i < j < |ns| ==> ns[i].last < ns[j].first)
    && forall i, j :: 0 <= i < j < |ns| && j == i + 1 ==> ns[i].discard != ns[j].discard
  }

  ghost predicate Told(ns: seq<Notice>, page: nat) {
    exists i :: 0 <= i < |ns| && Tells(ns[i], page)
  }

  // Every page from the first dropped to the last is told of once, in order, as
  // discarded exactly where the request from..end discards all of it.
  ghost predicate AreNotices(ns: seq<Notice>, read: Words, first: nat, last: nat, from: nat, end: nat, systemPage: nat,
                             discarded: bool)
    requires last < 64 * |read|
  {
    && InOrder(ns)
    && (forall page: nat :: Told(ns, page) <==> BetweenDropped(read, first, last, page))
    && forall i, page: nat {:trigger Tells(ns[i], page)} :: 0 <= i < |ns| && Tells(ns[i], page) ==>
         (ns[i].discard <==> discarded && WhollyInside(page, from, end, systemPage))
  }

  // A notice of one kind tells of a page.
  ghost predicate ToldAs(ns: seq<Notice>, page: nat, discard: bool) {
    exists i :: 0 <= i < |ns| && Tells(ns[i], page) && ns[i].discard == discard
  }

  lemma ToldOnceAs(ns: seq<Notice>, read: Words, first: nat, last: nat, from: nat, end: nat, systemPage: nat,
                   discarded: bool, page: nat)
    requires last < 64 * |read| && AreNotices(ns, read, first, last, from, end, systemPage, discarded)
    ensures var gone := discarded && WhollyInside(page, from, end, systemPage);
      && (ToldAs(ns, page, true) <==> BetweenDropped(read, first, last, page) && gone)
      && (ToldAs(ns, page, false) <==> BetweenDropped(read, first, last, page) && !gone)
  {
    if i :| 0 <= i < |ns| && Tells(ns[i], page) {
      assert ToldAs(ns, page, ns[i].discard) && Told(ns, page);
    }
  }

  lemma BetweenEnds(read: Words, first: nat, last: nat, lo: nat, hi: nat, page: nat)
    requires last < 64 * |read| && AreEnds(read, first, last, lo, hi)
    ensures BetweenDropped(read, first, last, page) <==> lo <= page <= hi
  {
  }

  method NotifyDropped(read: Words, first: nat, last: nat, from: nat, end: nat, systemPage: nat, discarded: bool)
    returns (ns: seq<Notice>)
    requires first <= last < 64 * |read| && 0 < systemPage && from < end
    ensures AreNotices(ns, read, first, last, from, end, systemPage, discarded)
    ensures ns == [] <==> NoneDropped(read, first, last)
  {
    ns := [];
    var dropped := FindDropped(read, first, last);
    if dropped.None? {
      return;
    }
    var lo, hi := dropped.value.0, dropped.value.1;
    assert lo <= hi && IsDropped(read, first, last, lo);
    var inside := FindDiscarded(from, end, systemPage, discarded);
    if inside.None? || inside.value.1 < lo || inside.value.0 > hi {
      ns := [Notice(lo, hi, false)];
      assert forall page: nat :: Tells(ns[0], page) ==> Told(ns, page);
    } else {
      ns := Around(lo, hi, inside.value.0, inside.value.1);
    }
    forall page: nat ensures Told(ns, page) <==> BetweenDropped(read, first, last, page) {
      BetweenEnds(read, first, last, lo, hi, page);
    }
  }

  // The notices of lo..hi with a..b discarded.
  method Around(lo: nat, hi: nat, a: nat, b: nat) returns (ns: seq<Notice>)
    requires lo <= hi && a <= b && lo <= b && a <= hi
    ensures InOrder(ns) && ns != [] && forall page: nat :: Told(ns, page) <==> lo <= page <= hi
    ensures forall i, page: nat :: 0 <= i < |ns| && Tells(ns[i], page) ==> (ns[i].discard <==> a <= page <= b)
  {
    ns := [];
    if a > lo {
      ns := ns + [Notice(lo, a - 1, false)];
    }
    ghost var m := |ns|;
    ns := ns + [Notice(if lo >= a then lo else a, if hi <= b then hi else b, true)];
    if b < hi {
      ns := ns + [Notice(b + 1, hi, false)];
    }
    forall page: nat ensures Told(ns, page) <==> lo <= page <= hi {
      if lo <= page <= hi {
        var i := if page < a then 0 else if page > b then m + 1 else m;
        assert Tells(ns[i], page);
      }
    }
  }
}
