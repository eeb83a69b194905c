// What the guest may do with the memory a system page shows: the read-only
// queries CommittedRangeAccess and SystemPageGuestAccess of memory.h.
module GuestAccess {
  import opened PageTable

  // The join of the accesses of those of pages lo..hi that count.
  function MostPermissive(pages: Pages, lo: nat, hi: nat, committedOnly: bool): (r: PageAccess)
    requires lo <= hi <= |pages|
    ensures forall p :: lo <= p < hi && Counts(pages[p], committedOnly) ==> r.Permits(ToPageAccess(pages[p].protect))
    ensures r == NoAccess ||
            exists p :: lo <= p < hi && Counts(pages[p], committedOnly) && r == ToPageAccess(pages[p].protect)
    decreases hi - lo
  {
    if lo == hi then NoAccess
    else
      var rest := MostPermissive(pages, lo, hi - 1, committedOnly);
      if Counts(pages[hi - 1], committedOnly) then rest.Join(ToPageAccess(pages[hi - 1].protect)) else rest
  }

  predicate Counts(e: PageEntry, committedOnly: bool) {
    if committedOnly then e.state.commit else !IsFree(e)
  }

  // The join over the committed pages a byte range lies in.
  function CommittedRangeAccess(pages: Pages, pageSize: nat, relative: nat, length: nat): PageAccess
    requires 0 < pageSize
  {
    var first := relative / pageSize;
    if length == 0 || first >= |pages| then NoAccess
    else
      var last := (relative + (length - 1)) / pageSize;
      var end := if last >= |pages| then |pages| else last + 1;
      if first <= end then MostPermissive(pages, first, end, true) else NoAccess
  }

  // Sizes and offsets of an alias heap: its bytes, where it starts in the host
  // range and in physical memory, and the system, guest and parent page sizes.
  datatype Geometry = Geometry(heapSize: nat, hostOffset: nat, physicalOffset: nat,
                               systemPage: nat, guestPage: nat, parentPage: nat) {
    ghost predicate Valid() {
      && 0 < heapSize && 0 < systemPage && 0 < guestPage && 0 < parentPage
      && physicalOffset + heapSize + hostOffset + systemPage <= ADDRESS_SPACE
    }

    function SystemPageCount(): nat
      requires 0 < systemPage
    {
      (heapSize + hostOffset + (systemPage - 1)) / systemPage
    }

    // The system page showing a heap-relative byte.
    function SystemPageOf(relative: nat): nat
      requires 0 < systemPage
    {
      (relative + hostOffset) / systemPage
    }
  }

  // What the guest may do with a system page: the join over the guest pages that
  // share bytes with it, or the parent's answer where some of them are free here.
  function SystemPageGuestAccess(g: Geometry, pages: Pages, parent: Pages, page: nat): PageAccess
    requires 0 < g.systemPage && 0 < g.guestPage && 0 < g.parentPage
  {
    var systemBase := page * g.systemPage;
    var systemLast := systemBase + (g.systemPage - 1);
    if systemLast < g.hostOffset then NoAccess
    else
      var relative := if systemBase > g.hostOffset then systemBase - g.hostOffset else 0;
      var first := relative / g.guestPage;
      if first >= |pages| then NoAccess
      else
        var last := (systemLast - g.hostOffset) / g.guestPage;
        var end := if last >= |pages| then |pages| else last + 1;
        if end < first then NoAccess
        else
          var access := MostPermissive(pages, first, end, false);
          var parentAccess :=
            CommittedRangeAccess(parent, g.parentPage, g.physicalOffset + relative,
                                 systemLast - g.hostOffset + 1 - relative);
          if access != ReadWrite && (exists p :: first <= p < end && IsFree(pages[p])) && parentAccess != NoAccess
          then parentAccess
          else access
  }
}
