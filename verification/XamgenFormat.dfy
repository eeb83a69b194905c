// What xamgen's corpora mean and the bytes they are compiled to and read from:
// scenario steps run one after the other over an arena and variables, and the
// records and results that stand for them (tools/xamgen/xamgen.py).
module XamgenFormat {
  import opened Wrappers

  type Byte = n: nat | n < 0x100
  type Word32 = n: nat | n < 0x1_0000_0000
  type Word64 = n: nat | n < 0x1_0000_0000_0000_0000

  const TWO32: nat := 0x1_0000_0000
  const ARENA: nat := 0x8203_0000
  const ARENA_SIZE: nat := 0x1_0000
  const VARIABLES: nat := 64
  const MAX_ARGS: nat := 16
  const PENDING: nat := 0x3E5
  const WAIT_STEPS: nat := 1000
  const NO_WAIT: nat := 0xFFFF_FFFF
  const FROM_R3: nat := 0xFFFF_FFFF
  const TAG_IMMEDIATE: nat := 0
  const TAG_ARENA: nat := 1
  const TAG_VARIABLE: nat := 2
  const RESULTS_MAGIC: nat := 0x5847_5253
  const VERSION: nat := 1

  // --- Words ---

  // The low `k` bytes of a number, the highest first.
  function BigEndian(n: nat, k: nat): (r: seq<Byte>)
    ensures |r| == k
  {
    if k == 0 then [] else BigEndian(n / 0x100, k - 1) + [n % 0x100]
  }

  function Word(n: nat): (r: seq<Byte>)
    ensures |r| == 4
  {
    BigEndian(n, 4)
  }

  function Double(n: nat): (r: seq<Byte>)
    ensures |r| == 8
  {
    Word(n / TWO32) + Word(n % TWO32)
  }

  function WordAt(b: seq<Byte>, p: nat): (r: Word32)
    requires p + 4 <= |b|
  {
    var w: nat, x: nat, y: nat, z: nat := b[p], b[p + 1], b[p + 2], b[p + 3];
    w * 0x100_0000 + x * 0x1_0000 + y * 0x100 + z
  }

  function DoubleAt(b: seq<Byte>, p: nat): (r: Word64)
    requires p + 8 <= |b|
  {
    var high: nat := WordAt(b, p);
    high * TWO32 + WordAt(b, p + 4)
  }

  function Zeros(n: nat): (r: seq<Byte>)
    ensures |r| == n
  {
    seq(n, _ => 0)
  }

  // The bytes `n` bytes are padded by to a multiple of `unit`.
  function Pad(n: nat, unit: nat): (r: nat)
    requires unit > 0
    ensures r < unit
  {
    if n % unit == 0 then 0 else unit - n % unit
  }

  lemma WordReads(n: nat)
    requires n < TWO32
    ensures WordAt(Word(n), 0) == n
  {
    var a, b, c := n / 0x100, n / 0x100 / 0x100, n / 0x100 / 0x100 / 0x100;
    assert BigEndian(c, 1) == BigEndian(c / 0x100, 0) + [c % 0x100] == [c];
    assert BigEndian(b, 2) == [c, b % 0x100];
    assert BigEndian(a, 3) == [c, b % 0x100, a % 0x100];
    assert Word(n) == [c, b % 0x100, a % 0x100, n % 0x100];
  }

  // A word at the front of what is left to read.
  lemma TakeWord(b: seq<Byte>, p: nat, n: nat, rest: seq<Byte>)
    requires p <= |b| && n < TWO32 && b[p..] == Word(n) + rest
    ensures p + 4 <= |b| && WordAt(b, p) == n && b[p + 4..] == rest
  {
    WordReads(n);
    assert b[p..][4..] == b[p + 4..];
    forall i | 0 <= i < 4 ensures b[p + i] == Word(n)[i] {
      assert b[p + i] == b[p..][i];
    }
  }

  lemma TakeBytes(b: seq<Byte>, p: nat, s: seq<Byte>, rest: seq<Byte>)
    requires p <= |b| && b[p..] == s + rest
    ensures p + |s| <= |b| && b[p..p + |s|] == s && b[p + |s|..] == rest
  {
    assert b[p..p + |s|] == b[p..][..|s|];
    assert b[p + |s|..] == b[p..][|s|..];
  }

  lemma TakeDouble(b: seq<Byte>, p: nat, n: nat, rest: seq<Byte>)
    requires p <= |b| && n < TWO32 * TWO32 && b[p..] == Double(n) + rest
    ensures p + 8 <= |b| && DoubleAt(b, p) == n && b[p + 8..] == rest
  {
    assert Double(n) + rest == Word(n / TWO32) + (Word(n % TWO32) + rest);
    TakeWord(b, p, n / TWO32, Word(n % TWO32) + rest);
    TakeWord(b, p + 4, n % TWO32, rest);
  }

  // --- The machine a corpus runs on ---

  type Arena = a: seq<Byte> | |a| == ARENA_SIZE witness Zeros(ARENA_SIZE)
  type Variables = v: seq<Word64> | |v| == VARIABLES witness seq(VARIABLES, _ => 0)

  // What steps can read and change, with the rest of the console in `world`.
  datatype Machine<W> = Machine(arena: Arena, vars: Variables, world: W)

  // The exports: any effect and any r3, for an export and its argument slots,
  // and any effect of the time slept between two polls.
  datatype Exports<!W> = Exports(
    call: (nat, seq<Word64>, Machine<W>) -> (Word64, Machine<W>),
    sleep: Machine<W> -> Machine<W>)

  datatype Observation = Observation(r3: Word64, left: Word32, captured: seq<seq<Byte>>)

  // --- Scenarios ---

  // An argument: a number, a range laid out in the arena, a variable's value
  // plus a delta, or the address of a recorder.
  datatype Arg =
    | Number(value: int)
    | Pointer(offset: nat)
    | Variable(index: nat, delta: int)
    | Recorder(address: nat)

  datatype Patch = Patch(offset: nat, data: seq<Byte>)

  datatype Capture = Capture(name: string, offset: nat, size: nat)

  datatype Source = R3 | InArena(offset: nat, size: nat)

  datatype Store = Store(index: nat, source: Source)

  datatype Step = Step(
    callee: nat, args: seq<Arg>, patches: seq<Patch>, wait: Option<nat>, captures: seq<Capture>, stores: seq<Store>,
    faults: bool, void: bool)
  {
    predicate Valid() {
      && |args| <= MAX_ARGS && |patches| < TWO32 && |captures| < TWO32 && |stores| < TWO32
      && (forall i :: 0 <= i < |args| ==> ArgFits(args[i]))
      && (forall i :: 0 <= i < |patches| ==> patches[i].offset + |patches[i].data| <= ARENA_SIZE)
      && (wait.Some? ==> wait.value + 4 <= ARENA_SIZE)
      && (forall i :: 0 <= i < |captures| ==> captures[i].offset + captures[i].size <= ARENA_SIZE)
      && (forall i :: 0 <= i < |stores| ==> StoreFits(stores[i]))
    }
  }

  predicate ArgFits(a: Arg) {
    match a
    case Number(_) => true
    case Pointer(offset) => offset <= ARENA_SIZE
    case Variable(index, _) => index < VARIABLES
    case Recorder(address) => address < TWO32
  }

  predicate StoreFits(s: Store) {
    s.index < VARIABLES && (s.source.InArena? ==> s.source.offset + (if s.source.size == 8 then 8 else 4) <= ARENA_SIZE)
  }

  // --- What a step means ---

  function Overlay(a: Arena, p: Patch): Arena
    requires p.offset + |p.data| <= ARENA_SIZE
  {
    a[..p.offset] + p.data + a[p.offset + |p.data|..]
  }

  function Patched(a: Arena, ps: seq<Patch>): Arena
    requires forall i :: 0 <= i < |ps| ==> ps[i].offset + |ps[i].data| <= ARENA_SIZE
    decreases |ps|
  {
    if ps == [] then a else Patched(Overlay(a, ps[0]), ps[1..])
  }

  // A variable's delta is added to its low word.
  function ArgValue(vars: Variables, a: Arg): Word64
    requires ArgFits(a)
  {
    match a
    case Number(value) => value % (TWO32 * TWO32)
    case Pointer(offset) => ARENA + offset
    case Variable(index, delta) => vars[index] / TWO32 * TWO32 + (vars[index] % TWO32 + delta) % TWO32
    case Recorder(address) => address
  }

  // All sixteen slots, the rest of them zero.
  function ArgSlots(vars: Variables, args: seq<Arg>): (r: seq<Word64>)
    requires forall i :: 0 <= i < |args| ==> ArgFits(args[i])
    ensures |r| == MAX_ARGS
  {
    seq(MAX_ARGS, i requires 0 <= i < MAX_ARGS => if i < |args| then ArgValue(vars, args[i]) else 0)
  }

  // Polls until the word at an offset stops pending. The count is 1 where the
  // last poll allowed finds it so, more where an earlier one does, and zero where
  // none does.
  function Waited<W>(ex: Exports<W>, m: Machine<W>, offset: nat, polls: nat): (r: (nat, Machine<W>))
    requires offset + 4 <= ARENA_SIZE
    ensures r.0 <= polls + 1
    decreases polls
  {
    if WordAt(m.arena, offset) != PENDING then (polls + 1, m)
    else if polls == 0 then (0, m)
    else Waited(ex, ex.sleep(m), offset, polls - 1)
  }

  function SourceValue(a: Arena, r3: Word64, s: Source): Word64
    requires s.InArena? ==> s.offset + (if s.size == 8 then 8 else 4) <= ARENA_SIZE
  {
    match s
    case R3 => r3
    case InArena(offset, size) => if size == 8 then DoubleAt(a, offset) else WordAt(a, offset)
  }

  function Stored(vars: Variables, a: Arena, r3: Word64, ss: seq<Store>): Variables
    requires forall i :: 0 <= i < |ss| ==> StoreFits(ss[i])
    decreases |ss|
  {
    if ss == [] then vars
    else
      assert StoreFits(ss[0]);
      Stored(vars[ss[0].index := SourceValue(a, r3, ss[0].source)], a, r3, ss[1..])
  }

  function Captured(a: Arena, cs: seq<Capture>): (r: seq<seq<Byte>>)
    requires forall i :: 0 <= i < |cs| ==> cs[i].offset + cs[i].size <= ARENA_SIZE
    ensures |r| == |cs| && forall i :: 0 <= i < |cs| ==> r[i] == a[cs[i].offset..cs[i].offset + cs[i].size]
  {
    if cs == [] then [] else [a[cs[0].offset..cs[0].offset + cs[0].size]] + Captured(a, cs[1..])
  }

  // A step run directly.
  function RunStep<W>(ex: Exports<W>, m: Machine<W>, s: Step): (Machine<W>, Observation)
    requires s.Valid()
  {
    var patched := m.(arena := Patched(m.arena, s.patches));
    var (r3, called) := ex.call(s.callee, ArgSlots(patched.vars, s.args), patched);
    var (left, waited) := if s.wait.Some? then Waited(ex, called, s.wait.value, WAIT_STEPS) else (NO_WAIT, called);
    (waited.(vars := Stored(waited.vars, waited.arena, r3, s.stores)),
     Observation(r3, left, Captured(waited.arena, s.captures)))
  }

  function RunSteps<W>(ex: Exports<W>, m: Machine<W>, ss: seq<Step>): (r: (Machine<W>, seq<Observation>))
    requires forall i :: 0 <= i < |ss| ==> ss[i].Valid()
    ensures |r.1| == |ss|
    decreases |ss|
  {
    if ss == [] then (m, [])
    else
      var (m', o) := RunStep(ex, m, ss[0]);
      var (end, os) := RunSteps(ex, m', ss[1..]);
      (end, [o] + os)
  }

  // --- The wait count ---

  function Slept<W>(ex: Exports<W>, m: Machine<W>, n: nat): Machine<W>
    decreases n
  {
    if n == 0 then m else Slept(ex, ex.sleep(m), n - 1)
  }

  // The count tells after how many sleeps the word stopped pending, up to the
  // last, and is zero where it did not.
  lemma {:induction false} WaitCountTells<W>(ex: Exports<W>, m: Machine<W>, offset: nat, polls: nat)
    requires offset + 4 <= ARENA_SIZE
    ensures var left := Waited(ex, m, offset, polls).0;
      if left == 0 then forall k: nat :: k <= polls ==> WordAt(Slept(ex, m, k).arena, offset) == PENDING
      else && WordAt(Slept(ex, m, polls + 1 - left).arena, offset) != PENDING
           && forall k: nat :: k < polls + 1 - left ==> WordAt(Slept(ex, m, k).arena, offset) == PENDING
    decreases polls
  {
    if WordAt(m.arena, offset) == PENDING && polls > 0 {
      WaitCountTells(ex, ex.sleep(m), offset, polls - 1);
      forall k: nat | 0 < k ensures Slept(ex, m, k) == Slept(ex, ex.sleep(m), k - 1) {}
    }
  }

  // --- Records ---

  datatype Triple = Triple(a: nat, b: nat, c: nat)

  // A step as the executor reads it.
  datatype Record = Record(
    thunk: nat, patches: seq<Patch>, args: seq<Triple>, wait: nat, captures: seq<Capture>, stores: seq<Triple>)

  function LowerArg(a: Arg): Triple {
    match a
    case Number(value) =>
      var v := value % (TWO32 * TWO32);
      Triple(TAG_IMMEDIATE, v / TWO32, v % TWO32)
    case Pointer(offset) => Triple(TAG_ARENA, 0, offset)
    case Variable(index, delta) => Triple(TAG_VARIABLE, delta % TWO32, index)
    case Recorder(address) => Triple(TAG_IMMEDIATE, 0, address)
  }

  function LowerStore(s: Store): Triple {
    match s.source
    case R3 => Triple(s.index, FROM_R3, 0)
    case InArena(offset, size) => Triple(s.index, offset, if size == 8 then 8 else 4)
  }

  function LowerArgs(args: seq<Arg>): (r: seq<Triple>)
    ensures |r| == |args| && forall i :: 0 <= i < |args| ==> r[i] == LowerArg(args[i])
  {
    seq(|args|, i requires 0 <= i < |args| => LowerArg(args[i]))
  }

  function LowerStores(stores: seq<Store>): (r: seq<Triple>)
    ensures |r| == |stores| && forall i :: 0 <= i < |stores| ==> r[i] == LowerStore(stores[i])
  {
    seq(|stores|, i requires 0 <= i < |stores| => LowerStore(stores[i]))
  }

  function Lower(s: Step, thunk: nat): Record {
    Record(thunk, s.patches, LowerArgs(s.args), if s.wait.Some? then s.wait.value else NO_WAIT, s.captures,
           LowerStores(s.stores))
  }

  function PatchBytes(p: Patch): seq<Byte> {
    Word(p.offset) + Word(|p.data|) + p.data + Zeros(Pad(|p.data|, 4))
  }

  function TripleBytes(t: Triple): seq<Byte> {
    Word(t.a) + Word(t.b) + Word(t.c)
  }

  function CaptureBytes(c: Capture): seq<Byte> {
    Word(c.offset) + Word(c.size)
  }

  function All<T>(bytes: T -> seq<Byte>, s: seq<T>): seq<Byte> {
    if s == [] then [] else bytes(s[0]) + All(bytes, s[1..])
  }

  function Counted<T>(bytes: T -> seq<Byte>, s: seq<T>): seq<Byte> {
    Word(|s|) + All(bytes, s)
  }

  function RecordBytes(r: Record): seq<Byte> {
    Word(r.thunk) + Counted(PatchBytes, r.patches) + Counted(TripleBytes, r.args) + Word(r.wait)
    + Counted(CaptureBytes, r.captures) + Counted(TripleBytes, r.stores)
  }

  lemma {:induction false} AllAppends<T>(bytes: T -> seq<Byte>, s: seq<T>, x: T)
    ensures All(bytes, s + [x]) == All(bytes, s) + bytes(x)
  {
    if s == [] {
      assert s + [x] == [x] && [x][1..] == [];
    } else {
      AllAppends(bytes, s[1..], x);
      assert (s + [x])[1..] == s[1..] + [x];
    }
  }

  // --- Results ---

  // A range in the results, padded to eight.
  function RangeBytes(s: seq<Byte>): seq<Byte> {
    s + Zeros(Pad(|s|, 8))
  }

  function ObservationBytes(o: Observation): seq<Byte> {
    Double(o.r3) + Word(o.left) + Word(0) + All(RangeBytes, o.captured)
  }

  // The results file of a run, and with its header.
  function ResultsBytes(os: seq<Observation>): seq<Byte> {
    WithHeader(|os|, All(ObservationBytes, os))
  }

  function WithHeader(count: nat, body: seq<Byte>): seq<Byte> {
    Word(RESULTS_MAGIC) + Word(VERSION) + Word(count) + Word(0x10 + |body|) + body
  }

  function CapturesSize(cs: seq<Capture>): nat {
    if cs == [] then 0 else cs[0].size + Pad(cs[0].size, 8) + CapturesSize(cs[1..])
  }

  function StepsSize(ss: seq<Step>): nat {
    if ss == [] then 0 else 16 + CapturesSize(ss[0].captures) + StepsSize(ss[1..])
  }
}
