// The guest's page table for user mode, the translation of an address through
// it, and the keys the translation is remembered by (memory.cc).
module UserTable {
  import opened Wrappers
  import opened PageTable

  const SMALL_PAGE: nat := 0x1000
  const VIEW_PAGE: nat := 0x1_0000
  const LARGE_PAGE: nat := 0x100_0000
  const PIECES: nat := 0x10_0000
  const PIECES_PER_VIEW: nat := 16
  const PHYSICAL_SIZE: nat := 0x2000_0000
  const ALIAS_BASE: nat := 0x2000_0000
  const FRAME_BIAS: nat := 0x4000_0000
  const KERNEL_FRAMES: nat := 0xA000_0000
  const SKEWED_WINDOW: nat := 0xE000_0000

  // The changed bit of an entry, and of a key, which holds its entry in the low
  // word.
  const CHANGED: nat := 0x80
  const WORD: nat := 0x1_0000_0000
  const FRAME_UNIT: nat := 0x1_0000_0000
  const KIND_UNIT: nat := 0x100_0000_0000_0000
  const SENTINEL: nat := 0xFFFF_FFFF_FFFF_FFFF

  // The descriptor's segment kinds and tables, and the words of physical memory
  // that table pages are in. `present` is whether the guest has set a table.
  datatype Table = Table(present: bool, kinds: seq<nat>, small: seq<nat>, medium: seq<nat>, large: seq<nat>,
                         words: seq<nat>) {
    predicate Valid() {
      && |kinds| == 16 && |small| == 512 && |medium| == 32 && |large| == 256
      && |words| == PHYSICAL_SIZE / 4
      && (forall i :: 0 <= i < 16 ==> kinds[i] < 0x100)
      && (forall i :: 0 <= i < 512 ==> small[i] < 0x1_0000)
      && (forall i :: 0 <= i < 32 ==> medium[i] < 0x1_0000)
      && (forall i :: 0 <= i < 256 ==> large[i] < WORD)
      && (forall i :: 0 <= i < |words| ==> words[i] < WORD)
    }
  }

  // What memory the emulator has for a frame. The model holds it fixed.
  datatype Backing = Backing(
    physicalUsable: (nat, nat) -> bool, // start and length of a physical range
    kernelUsable: nat -> bool) // a kernel address

  datatype PageState = Mapped | NoEntry | NoTable | Unusable

  // Where an entry is: in the descriptor or in physical memory.
  datatype EntryAt = Nowhere | InDescriptor(index: nat) | InMemory(word: nat)

  datatype PageSize = Small | Medium | Large {
    // The bytes of `x` inside its page.
    function Offset(x: nat): (r: nat)
      ensures r <= x
    {
      match this
      case Small => x % SMALL_PAGE
      case Medium => x % VIEW_PAGE
      case Large => x % LARGE_PAGE
    }

    function Base(x: nat): nat {
      x - Offset(x)
    }

    // The bytes of the page that one view has room for.
    function Window(): nat {
      if Small? then SMALL_PAGE else VIEW_PAGE
    }

    function WindowBase(x: nat): nat {
      if Small? then x - x % SMALL_PAGE else x - x % VIEW_PAGE
    }
  }

  // How large a page an address is in and where its entry is.
  datatype Place = Place(pageSize: PageSize, at: EntryAt, state: PageState)

  predicate IsLarge(kind: nat) {
    kind % 2 == 1
  }

  predicate IsMedium(kind: nat) {
    kind / 2 % 2 == 1
  }

  // The table word that names the table page of an address.
  function Frame(t: Table, address: nat): nat
    requires t.Valid() && address < WORD
  {
    if IsMedium(t.kinds[address / 0x1000_0000]) then t.medium[address / 0x800_0000] else t.small[address / 0x80_0000]
  }

  function EntryIndex(address: nat, medium: bool): (r: nat)
    ensures r < 2048
  {
    address / (if medium then VIEW_PAGE else SMALL_PAGE) % 2048
  }

  function Locate(t: Table, address: nat): (r: Place)
    requires t.Valid() && address < WORD
    ensures match r.at
            case Nowhere => r.state != Mapped
            case InDescriptor(i) => i < 256 && r.state == Mapped
            case InMemory(w) => w < |t.words| && r.state == Mapped
  {
    var kind := t.kinds[address / 0x1000_0000];
    if !t.present then Place(Small, Nowhere, Unusable)
    else if IsLarge(kind) then Place(Large, InDescriptor(address / LARGE_PAGE), Mapped)
    else
      var pageSize := if IsMedium(kind) then Medium else Small;
      var frame := Frame(t, address);
      if frame == 0 then Place(pageSize, Nowhere, NoTable)
      else if frame * 0x2000 >= PHYSICAL_SIZE then Place(pageSize, Nowhere, Unusable)
      else Place(pageSize, InMemory(frame * 0x800 + EntryIndex(address, IsMedium(kind))), Mapped)
  }

  function Entry(t: Table, at: EntryAt): (r: nat)
    requires t.Valid()
    requires match at case Nowhere => false case InDescriptor(i) => i < 256 case InMemory(w) => w < |t.words|
    ensures r < WORD
  {
    match at
    case InDescriptor(i) => t.large[i]
    case InMemory(w) => t.words[w]
  }

  predicate IsKernelFrame(physical: nat) {
    FRAME_BIAS <= physical < FRAME_BIAS + KERNEL_FRAMES
  }

  predicate IsChanged(e: nat) {
    e / CHANGED % 2 == 1
  }

  function SetChanged(e: nat): (r: nat) {
    if IsChanged(e) then e else e + CHANGED
  }

  // Whether the heap LookupHeap finds for an address is a virtual one.
  predicate InVirtualHeap(address: nat) {
    address < 0x7F00_0000 || 0x8000_0000 <= address < 0xA000_0000
  }

  // The frame an entry gives an address. Without one of its own, that is the
  // frame of the same address in kernel memory.
  function FrameOf(address: nat, entry: nat, pageSize: PageSize): nat {
    var base := pageSize.Base(entry);
    if base == 0 && !(ALIAS_BASE <= address < ALIAS_BASE + PHYSICAL_SIZE) && InVirtualHeap(address)
    then Wrap(pageSize.Base(address) + FRAME_BIAS) else base
  }

  // The physical address an entry gives an address.
  function PhysicalOf(address: nat, entry: nat, pageSize: PageSize): nat {
    Wrap(FrameOf(address, entry, pageSize) + pageSize.Offset(address))
  }

  // What an entry makes of an address.
  function EntryState(b: Backing, address: nat, entry: nat, pageSize: PageSize): PageState {
    if entry == 0 then NoEntry
    else
      var physical := PhysicalOf(address, entry, pageSize);
      if IsKernelFrame(physical) then if b.kernelUsable(physical - FRAME_BIAS) then Mapped else Unusable
      else if physical >= PHYSICAL_SIZE then Unusable
      else if b.physicalUsable(pageSize.WindowBase(physical), pageSize.Window()) then Mapped
      else Unusable
  }

  // TranslateUserPage: the state, and where it is Mapped the physical address,
  // the protection bits and the changed bit. `at` is the entry, if any.
  datatype Translation = Translation(state: PageState, physical: nat, pp: nat, changed: bool, at: EntryAt)

  function Translate(t: Table, b: Backing, address: nat): Translation
    requires t.Valid() && address < WORD
  {
    var place := Locate(t, address);
    if place.at.Nowhere? then Translation(place.state, 0, 0, false, Nowhere)
    else
      var e := Entry(t, place.at);
      var state := EntryState(b, address, e, place.pageSize);
      if state == Mapped
      then Translation(Mapped, PhysicalOf(address, e, place.pageSize), e % 4, IsChanged(e), place.at)
      else Translation(state, 0, 0, false, place.at)
  }

  // What the protection bits of an entry let the user key do.
  function EntryAccess(pp: nat): (r: PageAccess)
    ensures r == NoAccess <==> pp == 0
    ensures r == ReadWrite <==> pp == 2
  {
    if pp == 0 then NoAccess else if pp == 2 then ReadWrite else ReadOnly
  }

  // --- The window, whose offsets above 0xE0000000 are 4 KB past the address ---

  function Skew(skewed: bool, offset: nat): nat {
    if skewed && offset >= SKEWED_WINDOW + SMALL_PAGE then SMALL_PAGE else 0
  }

  function UserAddress(skewed: bool, piece: nat): (r: nat)
    requires piece < PIECES
    ensures r < WORD && r % SMALL_PAGE == 0
  {
    piece * SMALL_PAGE - Skew(skewed, piece * SMALL_PAGE)
  }

  // The skew leaves the first piece at 0xE0000000 with no address of its own.
  predicate Named(skewed: bool, piece: nat) {
    piece < PIECES && !(skewed && piece * SMALL_PAGE == SKEWED_WINDOW)
  }

  // --- Keys ---

  // UserPieceTableKey: the descriptor and table words a translation reads.
  function Key(t: Table, skewed: bool, piece: nat): nat
    requires t.Valid() && piece < PIECES
  {
    var address := UserAddress(skewed, piece);
    var kind := t.kinds[address / 0x1000_0000];
    if !t.present then 0
    else if IsLarge(kind) then kind * KIND_UNIT + t.large[address / LARGE_PAGE]
    else
      var frame := Frame(t, address);
      if frame == 0 || frame * 0x2000 >= PHYSICAL_SIZE then kind * KIND_UNIT + frame * FRAME_UNIT
      else kind * KIND_UNIT + frame * FRAME_UNIT + t.words[frame * 0x800 + EntryIndex(address, IsMedium(kind))]
  }

  // What a key says an address shows, if anything.
  datatype Shown = Shown(physical: nat, pp: nat, changed: bool)

  function FromKey(b: Backing, address: nat, key: nat): Option<Shown> {
    var kind, frame, e := key / KIND_UNIT, key / FRAME_UNIT % 0x1_0000, key % WORD;
    if !IsLarge(kind) && (frame == 0 || frame * 0x2000 >= PHYSICAL_SIZE) then None
    else
      var pageSize := SizeOfKind(kind);
      if EntryState(b, address, e, pageSize) == Mapped
      then Some(Shown(PhysicalOf(address, e, pageSize), e % 4, IsChanged(e)))
      else None
  }

  // What the table shows at an address now.
  function ShownAt(t: Table, b: Backing, address: nat): Option<Shown>
    requires t.Valid() && address < WORD
  {
    var tr := Translate(t, b, address);
    if tr.state == Mapped then Some(Shown(tr.physical, tr.pp, tr.changed)) else None
  }

  lemma Unpack(kind: nat, frame: nat, e: nat)
    requires kind < 0x100 && frame < 0x1_0000 && e < WORD
    ensures var key := kind * KIND_UNIT + frame * FRAME_UNIT + e;
      key / KIND_UNIT == kind && key / FRAME_UNIT % 0x1_0000 == frame && key % WORD == e && key < SENTINEL
  {
    var key := kind * KIND_UNIT + frame * FRAME_UNIT + e;
    DivUnique(key, KIND_UNIT, kind, frame * FRAME_UNIT + e);
    DivUnique(key, FRAME_UNIT, kind * 0x100_0000 + frame, e);
    DivUnique(kind * 0x100_0000 + frame, 0x1_0000, kind * 0x100, frame);
  }

  // The page size a segment kind picks.
  function SizeOfKind(kind: nat): PageSize {
    if IsLarge(kind) then Large else if IsMedium(kind) then Medium else Small
  }

  lemma FromPacked(b: Backing, address: nat, kind: nat, frame: nat, e: nat)
    requires kind < 0x100 && frame < 0x1_0000 && e < WORD
    ensures FromKey(b, address, kind * KIND_UNIT + frame * FRAME_UNIT + e) ==
      if (!IsLarge(kind) && (frame == 0 || frame * 0x2000 >= PHYSICAL_SIZE)) ||
         EntryState(b, address, e, SizeOfKind(kind)) != Mapped then None
      else Some(Shown(PhysicalOf(address, e, SizeOfKind(kind)), e % 4, IsChanged(e)))
  {
    Unpack(kind, frame, e);
  }

  // The table frame a key holds, and all of it above its entry.
  function KeyFrame(t: Table, address: nat): nat
    requires t.Valid() && address < WORD
  {
    if IsLarge(t.kinds[address / 0x1000_0000]) then 0 else Frame(t, address)
  }

  function KeyHigh(t: Table, address: nat): nat
    requires t.Valid() && address < WORD
  {
    t.kinds[address / 0x1000_0000] * KIND_UNIT + KeyFrame(t, address) * FRAME_UNIT
  }

  lemma KeyParts(t: Table, skewed: bool, piece: nat)
    requires t.Valid() && piece < PIECES
    ensures var address := UserAddress(skewed, piece);
      var at := Locate(t, address).at;
      Key(t, skewed, piece) ==
      if !t.present then 0 else KeyHigh(t, address) + if at.Nowhere? then 0 else Entry(t, at)
  {
  }

  // A key determines the address, the protection and the changed bit, whichever
  // words of the table they came from.
  lemma KeyDetermines(t: Table, b: Backing, skewed: bool, piece: nat)
    requires t.Valid() && piece < PIECES
    ensures ShownAt(t, b, UserAddress(skewed, piece)) == FromKey(b, UserAddress(skewed, piece), Key(t, skewed, piece))
  {
    var address := UserAddress(skewed, piece);
    var at := Locate(t, address).at;
    KeyParts(t, skewed, piece);
    if t.present {
      FromPacked(b, address, t.kinds[address / 0x1000_0000], KeyFrame(t, address),
                 if at.Nowhere? then 0 else Entry(t, at));
    }
  }

  // No key is the sentinel.
  lemma KeyIsNotSentinel(t: Table, skewed: bool, piece: nat)
    requires t.Valid() && piece < PIECES
    ensures Key(t, skewed, piece) < SENTINEL
  {
  }

  // --- The changed bit leaves a translation alone ---

  lemma ChangedKeepsEntry(b: Backing, address: nat, e: nat, pageSize: PageSize)
    requires 0 < e
    ensures EntryState(b, address, SetChanged(e), pageSize) == EntryState(b, address, e, pageSize)
    ensures PhysicalOf(address, SetChanged(e), pageSize) == PhysicalOf(address, e, pageSize)
    ensures SetChanged(e) % 4 == e % 4 && IsChanged(SetChanged(e))
  {
    ChangedKeepsBase(e, pageSize);
    ChangedKeepsBits(e);
  }

  lemma ChangedKeepsBits(e: nat)
    ensures SetChanged(e) % 4 == e % 4 && IsChanged(SetChanged(e))
  {
    DivUnique(e + CHANGED, 4, e / 4 + 0x20, e % 4);
    DivUnique(e + CHANGED, CHANGED, e / CHANGED + 1, e % CHANGED);
  }

  lemma ChangedKeepsBase(e: nat, pageSize: PageSize)
    ensures pageSize.Base(SetChanged(e)) == pageSize.Base(e)
  {
    match pageSize
    case Small => BaseOfChanged(e, 0x10, SMALL_PAGE);
    case Medium => BaseOfChanged(e, 0x100, VIEW_PAGE);
    case Large => BaseOfChanged(e, 0x1_0000, LARGE_PAGE);
  }

  lemma BaseOfChanged(e: nat, n: nat, m: nat)
    requires 0 < n && m == n * 0x100
    ensures SetChanged(e) - SetChanged(e) % m == e - e % m
  {
    var q, r := e / 0x100, e % 0x100;
    DivMul(q, n);
    assert q / n * m == q / n * n * 0x100;
    DivUnique(e, m, q / n, q % n * 0x100 + r);
    if !IsChanged(e) {
      assert r < 0x80;
      DivUnique(e + 0x80, m, q / n, q % n * 0x100 + (r + 0x80));
    }
  }

  // A key whose entry is named, once its changed bit is set.
  lemma ChangedKeepsKey(b: Backing, address: nat, key: nat)
    requires key % WORD != 0
    ensures FromKey(b, address, SetChanged(key)) ==
            match FromKey(b, address, key) case None => None case Some(s) => Some(s.(changed := true))
  {
    var e := key % WORD;
    ChangedWord(key);
    var kind := key / KIND_UNIT;
    ChangedKeepsEntry(b, address, e, SizeOfKind(kind));
  }

  lemma ChangedWord(key: nat)
    ensures SetChanged(key) % WORD == SetChanged(key % WORD)
    ensures SetChanged(key) / FRAME_UNIT == key / FRAME_UNIT && SetChanged(key) / KIND_UNIT == key / KIND_UNIT
    ensures IsChanged(key) == IsChanged(key % WORD)
  {
    var high, e := key / WORD, key % WORD;
    ChangedAbove(high, e);
    ChangedFits(e);
    DivUnique(SetChanged(key), WORD, high, SetChanged(e));
    Quotients(key);
    Quotients(SetChanged(key));
  }

  lemma ChangedAbove(high: nat, e: nat)
    ensures IsChanged(high * WORD + e) == IsChanged(e)
  {
    var n := e / CHANGED;
    DivUnique(high * WORD + e, CHANGED, high * 0x200_0000 + n, e % CHANGED);
    DivUnique(high * 0x200_0000 + n, 2, high * 0x100_0000 + n / 2, n % 2);
  }

  lemma Quotients(key: nat)
    ensures key / KIND_UNIT == key / WORD / 0x100_0000
  {
    var q := key / WORD;
    DivUnique(key, KIND_UNIT, q / 0x100_0000, q % 0x100_0000 * WORD + key % WORD);
  }

  // What a flush takes for unchanged: the key itself, or the key with the
  // changed bit set where it was clear and there was an entry.
  predicate Agrees(then': nat, now: nat) {
    now == then' || !(IsChanged(then') || then' % WORD == 0 || now != SetChanged(then'))
  }

  // A key that agrees names the same address and protection, and has the
  // changed bit unless the older key was waiting for it.
  lemma AgreeingKeys(b: Backing, address: nat, then': nat, now: nat)
    requires Agrees(then', now)
    ensures match FromKey(b, address, then')
            case None => FromKey(b, address, now) == None
            case Some(s) =>
              exists changed :: FromKey(b, address, now) == Some(s.(changed := changed)) && (s.changed ==> changed)
  {
    if now != then' {
      ChangedKeepsKey(b, address, then');
    }
    match FromKey(b, address, then') {
      case None =>
      case Some(s) =>
        assert FromKey(b, address, now) == Some(s.(changed := FromKey(b, address, now).value.changed));
    }
  }

  // The table with the changed bit of one entry set.
  function WithChanged(t: Table, at: EntryAt): (r: Table)
    requires t.Valid()
    ensures r.Valid()
  {
    match at
    case InDescriptor(i) =>
      if i < 256 then ChangedFits(t.large[i]); t.(large := t.large[i := SetChanged(t.large[i])]) else t
    case InMemory(w) =>
      if w < |t.words| then ChangedFits(t.words[w]); t.(words := t.words[w := SetChanged(t.words[w])]) else t
    case Nowhere => t
  }

  lemma ChangedFits(e: nat)
    requires e < WORD
    ensures SetChanged(e) < WORD
  {
    assert !IsChanged(e) ==> e / CHANGED < 0x1FF_FFFF;
  }

  // Setting an entry's changed bit sets it in the key of every piece that entry
  // maps, and changes no other key.
  lemma KeyWithChanged(t: Table, at: EntryAt, skewed: bool, piece: nat)
    requires t.Valid() && piece < PIECES && !at.Nowhere?
    ensures Locate(WithChanged(t, at), UserAddress(skewed, piece)).at == Locate(t, UserAddress(skewed, piece)).at
    ensures Key(WithChanged(t, at), skewed, piece) ==
      if Locate(t, UserAddress(skewed, piece)).at == at then SetChanged(Key(t, skewed, piece))
      else Key(t, skewed, piece)
  {
    var address := UserAddress(skewed, piece);
    SamePlaces(t, at, address);
    var here := Locate(t, address).at;
    if !here.Nowhere? {
      KeyParts(t, skewed, piece);
      KeyParts(WithChanged(t, at), skewed, piece);
      SetInKey(t.kinds[address / 0x1000_0000], KeyFrame(t, address), Entry(t, here));
    }
  }

  lemma SamePlaces(t: Table, at: EntryAt, address: nat)
    requires t.Valid() && address < WORD
    ensures Locate(WithChanged(t, at), address) == Locate(t, address)
    ensures KeyHigh(WithChanged(t, at), address) == KeyHigh(t, address)
  {
    var t' := WithChanged(t, at);
    assert t'.kinds == t.kinds && t'.small == t.small && t'.medium == t.medium && t'.present == t.present;
    assert Frame(t', address) == Frame(t, address);
  }

  lemma SetInKey(kind: nat, frame: nat, e: nat)
    requires e < WORD
    ensures SetChanged(kind * KIND_UNIT + frame * FRAME_UNIT + e) ==
            kind * KIND_UNIT + frame * FRAME_UNIT + SetChanged(e)
  {
    LowWord(kind * 0x100_0000 + frame, e);
    ChangedWord(kind * KIND_UNIT + frame * FRAME_UNIT + e);
  }

  lemma LowWord(high: nat, e: nat)
    requires e < WORD
    ensures (high * WORD + e) % WORD == e
  {
  }

  // The entry a key was read from is the key's low word.
  lemma KeyEntry(t: Table, skewed: bool, piece: nat)
    requires t.Valid() && piece < PIECES
    ensures var at := Locate(t, UserAddress(skewed, piece)).at;
      Key(t, skewed, piece) % WORD == if at.Nowhere? then 0 else Entry(t, at)
  {
  }

  // --- File offsets, in 4 KB pages of the file behind all guest memory ---

  const PHYSICAL_FILE_PAGE: nat := 0x10_0000
  const PHYSICAL_PAGES: nat := 0x2_0000

  // Where kernel memory at an address is in the file, by map_info.
  function KernelFilePage(address: nat): nat {
    if address < 0x7F00_0000 then address / SMALL_PAGE
    else if address < 0x8000_0000 then PHYSICAL_FILE_PAGE + (address - 0x7F00_0000) / SMALL_PAGE
    else if address < 0xA000_0000 then address / SMALL_PAGE
    else if address < 0xC000_0000 then PHYSICAL_FILE_PAGE + (address - 0xA000_0000) / SMALL_PAGE
    else if address < 0xE000_0000 then PHYSICAL_FILE_PAGE + (address - 0xC000_0000) / SMALL_PAGE
    else PHYSICAL_FILE_PAGE + 1 + (address - 0xE000_0000) / SMALL_PAGE
  }

  function UserFilePage(address: nat): nat {
    if ALIAS_BASE <= address < ALIAS_BASE + PHYSICAL_SIZE then PHYSICAL_FILE_PAGE + (address - ALIAS_BASE) / SMALL_PAGE
    else KernelFilePage(address)
  }

  // The file page a translated address shows.
  function EntryFilePage(physical: nat): nat {
    if IsKernelFrame(physical) then KernelFilePage(physical - FRAME_BIAS)
    else PHYSICAL_FILE_PAGE + physical / SMALL_PAGE
  }

  // The first file page a view of a whole window page shows with no entry:
  // the kernel address space, down to the allocation granularity.
  function FallbackFilePage(index: nat, granules: nat): nat
    requires 0 < granules
  {
    var page := UserFilePage(index * VIEW_PAGE);
    page - page % granules
  }

  // Physical memory is in the file once. A frame of it shows what its first alias
  // does, and without a frame an entry of a virtual heap shows its own address.
  lemma FramesShow(address: nat, e: nat, pageSize: PageSize)
    requires address < WORD && e < WORD
    ensures address < PHYSICAL_SIZE ==> EntryFilePage(address) == KernelFilePage(0xA000_0000 + address)
    ensures e / PageBytes(pageSize) == 0 && address < 0xA000_0000 && !(0x7F00_0000 <= address < 0x8000_0000) &&
            !(0x2000_0000 <= address < 0x4000_0000) ==>
              EntryFilePage(PhysicalOf(address, e, pageSize)) == KernelFilePage(address)
  {
  }

  function PageBytes(pageSize: PageSize): (r: nat)
    ensures r > 0
  {
    match pageSize
    case Small => 0x1000
    case Medium => 0x1_0000
    case Large => 0x100_0000
  }

  // With one it shows the address's bytes in that frame.
  lemma FrameAndOffset(address: nat, e: nat, pageSize: PageSize)
    requires address < WORD && e < WORD && 0 < e / PageBytes(pageSize)
    ensures var n := PageBytes(pageSize); PhysicalOf(address, e, pageSize) == e / n * n + address % n
  {
    var n := PageBytes(pageSize);
    DivMul(e, n);
    DivMul(address, n);
    assert pageSize.Offset(address) == address % n && pageSize.Base(e) == e / n * n;
    assert e / n * n + address % n < WORD;
  }

  // An address is mapped exactly where it has an entry that is not zero and the
  // emulator has memory for what it names: the kernel's, or all the physical
  // memory one view of it would show.
  lemma WhenMapped(t: Table, b: Backing, address: nat)
    requires t.Valid() && address < WORD
    ensures var place := Locate(t, address);
      Translate(t, b, address).state == Mapped <==>
      && !place.at.Nowhere? && Entry(t, place.at) != 0
      && var physical := PhysicalOf(address, Entry(t, place.at), place.pageSize);
         var n := if place.pageSize.Small? then 0x1000 else 0x1_0000;
         if 0x4000_0000 <= physical < 0xE000_0000 then b.kernelUsable(physical - 0x4000_0000)
         else physical < 0x2000_0000 && b.physicalUsable(physical / n * n, n)
  {
  }

  // A table page holds the entries of `unit` bytes of addresses in order, and
  // the descriptor those of 16 MB pages.
  lemma TableIsArray(t: Table, address: nat)
    requires t.Valid() && address < WORD && !Locate(t, address).at.Nowhere?
    ensures var place := Locate(t, address);
      var unit, n := TableUnit(place.pageSize), PageBytes(place.pageSize);
      place.at ==
      match place.pageSize
      case Large => InDescriptor(address / n)
      case Medium => InMemory(t.medium[address / unit] * 0x800 + address % unit / n)
      case Small => InMemory(t.small[address / unit] * 0x800 + address % unit / n)
  {
    IndexInTable(address);
  }

  lemma IndexInTable(x: nat)
    ensures x / 0x1000 % 2048 == x % 0x80_0000 / 0x1000
    ensures x / 0x1_0000 % 2048 == x % 0x800_0000 / 0x1_0000
  {
    var q, r := x / 0x80_0000, x % 0x80_0000;
    DivUnique(x, 0x1000, q * 2048 + r / 0x1000, r % 0x1000);
    DivUnique(q * 2048 + r / 0x1000, 2048, q, r / 0x1000);
    var k, s := x / 0x800_0000, x % 0x800_0000;
    DivUnique(x, 0x1_0000, k * 2048 + s / 0x1_0000, s % 0x1_0000);
    DivUnique(k * 2048 + s / 0x1_0000, 2048, k, s / 0x1_0000);
  }

  function TableUnit(pageSize: PageSize): (r: nat)
    ensures r > 0
  {
    match pageSize
    case Small => 0x80_0000
    case Medium => 0x800_0000
    case Large => 0x1000_0000
  }

  // The physical 4 KB page a file page is of, if any.
  function PhysicalPage(filePage: nat): Option<nat> {
    if PHYSICAL_FILE_PAGE <= filePage < PHYSICAL_FILE_PAGE + PHYSICAL_PAGES then Some(filePage - PHYSICAL_FILE_PAGE)
    else None
  }
}
