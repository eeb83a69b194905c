// The executor xamgen puts in a title: it reads compiled steps with a cursor
// and does to the arena, the variables and the console what the steps say
// (tools/xamgen/xamgen.py). The exports it calls change no more than that, not
// the corpus or the results, whose pages start out zero.
module XamgenExecutor {
  import opened XamgenFormat

  lemma TakeTriple(b: seq<Byte>, p: nat, t: Triple, rest: seq<Byte>)
    requires p <= |b| && t.a < TWO32 && t.b < TWO32 && t.c < TWO32 && b[p..] == TripleBytes(t) + rest
    ensures p + 12 <= |b| && WordAt(b, p) == t.a && WordAt(b, p + 4) == t.b && WordAt(b, p + 8) == t.c
    ensures b[p + 12..] == rest
  {
    assert TripleBytes(t) + rest == Word(t.a) + (Word(t.b) + (Word(t.c) + rest));
    TakeWord(b, p, t.a, Word(t.b) + (Word(t.c) + rest));
    TakeWord(b, p + 4, t.b, Word(t.c) + rest);
    TakeWord(b, p + 8, t.c, rest);
  }

  lemma TakePair(b: seq<Byte>, p: nat, x: nat, y: nat, rest: seq<Byte>)
    requires p <= |b| && x < TWO32 && y < TWO32 && b[p..] == Word(x) + Word(y) + rest
    ensures p + 8 <= |b| && WordAt(b, p) == x && WordAt(b, p + 4) == y && b[p + 8..] == rest
  {
    assert Word(x) + Word(y) + rest == Word(x) + (Word(y) + rest);
    TakeWord(b, p, x, Word(y) + rest);
    TakeWord(b, p + 4, y, rest);
  }

  // The count and the first of what is counted.
  lemma TakeCount<T>(bytes: T -> seq<Byte>, s: seq<T>, b: seq<Byte>, p: nat, rest: seq<Byte>)
    requires p <= |b| && |s| < TWO32 && b[p..] == Counted(bytes, s) + rest
    ensures p + 4 <= |b| && WordAt(b, p) == |s| && b[p + 4..] == All(bytes, s) + rest
  {
    Regroup(Word(|s|), All(bytes, s), rest);
    TakeWord(b, p, |s|, All(bytes, s) + rest);
  }

  lemma AllPeels<T>(bytes: T -> seq<Byte>, s: seq<T>, k: nat, rest: seq<Byte>)
    requires k < |s|
    ensures All(bytes, s[k..]) + rest == bytes(s[k]) + (All(bytes, s[k + 1..]) + rest)
  {
    assert s[k..][1..] == s[k + 1..];
  }

  // --- Patches ---

  method ApplyPatches(b: seq<Byte>, cursor: nat, arena: Arena, ghost patches: seq<Patch>, ghost rest: seq<Byte>)
    returns (next: nat, out: Arena)
    requires cursor <= |b| && |patches| < TWO32 && b[cursor..] == Counted(PatchBytes, patches) + rest
    requires forall i :: 0 <= i < |patches| ==> patches[i].offset + |patches[i].data| <= ARENA_SIZE
    ensures next <= |b| && b[next..] == rest && out == Patched(arena, patches)
  {
    TakeCount(PatchBytes, patches, b, cursor, rest);
    var left: nat := WordAt(b, cursor);
    next, out := cursor + 4, arena;
    ghost var k := 0;
    assert patches[0..] == patches;
    while left != 0
      invariant 0 <= k <= |patches| && left == |patches| - k
      invariant next <= |b| && b[next..] == All(PatchBytes, patches[k..]) + rest
      invariant Patched(out, patches[k..]) == Patched(arena, patches)
    {
      AllPeels(PatchBytes, patches, k, rest);
      assert patches[k..][1..] == patches[k + 1..];
      next, out := ApplyPatch(b, next, out, patches[k], All(PatchBytes, patches[k + 1..]) + rest);
      left, k := left - 1, k + 1;
    }
    assert patches[k..] == [];
  }

  method ApplyPatch(b: seq<Byte>, cursor: nat, arena: Arena, ghost patch: Patch, ghost rest: seq<Byte>)
    returns (next: nat, out: Arena)
    requires cursor <= |b| && b[cursor..] == PatchBytes(patch) + rest && patch.offset + |patch.data| <= ARENA_SIZE
    ensures next <= |b| && b[next..] == rest && out == Overlay(arena, patch)
  {
    TakePatch(b, cursor, patch, rest);
    var offset, length := WordAt(b, cursor), WordAt(b, cursor + 4);
    var from := cursor + 8;
    out := CopyIn(b, from, length, arena, offset);
    next := from + length + Pad(length, 4);
  }

  lemma TakePatch(b: seq<Byte>, p: nat, patch: Patch, rest: seq<Byte>)
    requires p <= |b| && b[p..] == PatchBytes(patch) + rest && patch.offset + |patch.data| <= ARENA_SIZE
    ensures var from, length := p + 8, |patch.data|;
      && from + length + Pad(length, 4) <= |b| && WordAt(b, p) == patch.offset && WordAt(b, p + 4) == length
      && b[from..from + length] == patch.data && b[from + length + Pad(length, 4)..] == rest
  {
    var pad := Zeros(Pad(|patch.data|, 4));
    assert PatchBytes(patch) + rest == Word(patch.offset) + Word(|patch.data|) + (patch.data + (pad + rest));
    TakePair(b, p, patch.offset, |patch.data|, patch.data + (pad + rest));
    TakeBytes(b, p + 8, patch.data, pad + rest);
    TakeBytes(b, p + 8 + |patch.data|, pad, rest);
  }

  // The bytes of a patch, one at a time.
  method CopyIn(b: seq<Byte>, from: nat, length: nat, arena: Arena, offset: nat) returns (out: Arena)
    requires from + length <= |b| && offset + length <= ARENA_SIZE
    ensures out == arena[..offset] + b[from..from + length] + arena[offset + length..]
  {
    out := arena;
    var i := 0;
    while i < length
      invariant 0 <= i <= length
      invariant forall j :: 0 <= j < ARENA_SIZE ==>
                  out[j] == if offset <= j < offset + i then b[from + (j - offset)] else arena[j]
    {
      out := out[offset + i := b[from + i]];
      i := i + 1;
    }
  }

  // --- Arguments ---

  predicate ArgsFit(args: seq<Arg>) {
    |args| <= MAX_ARGS && forall i :: 0 <= i < |args| ==> ArgFits(args[i])
  }

  // One argument's words and what its slot gets for them.
  method LoadArg(vars: Variables, tag: nat, x: nat, y: nat, ghost arg: Arg) returns (slot: Word64)
    requires ArgFits(arg) && LowerArg(arg) == Triple(tag, x, y)
    ensures slot == ArgValue(vars, arg)
  {
    var high, low := x, y;
    if tag == TAG_ARENA {
      low := (ARENA + y) % TWO32;
      high := 0;
    } else if tag == TAG_VARIABLE {
      high := vars[y] / TWO32;
      low := (vars[y] % TWO32 + x) % TWO32;
      DeltaWraps(vars[y] % TWO32, if arg.Variable? then arg.delta else 0);
    }
    slot := high * TWO32 + low;
  }

  lemma DeltaWraps(low: nat, delta: int)
    ensures (low + delta % TWO32) % TWO32 == (low + delta) % TWO32
  {
  }

  method LoadArgs(b: seq<Byte>, cursor: nat, vars: Variables, ghost args: seq<Arg>, ghost rest: seq<Byte>)
    returns (next: nat, slots: seq<Word64>)
    requires cursor <= |b| && ArgsFit(args) && b[cursor..] == Counted(TripleBytes, LowerArgs(args)) + rest
    ensures next <= |b| && b[next..] == rest && slots == ArgSlots(vars, args)
  {
    ghost var ts := LowerArgs(args);
    TakeCount(TripleBytes, ts, b, cursor, rest);
    var left: nat := WordAt(b, cursor);
    next := cursor + 4;
    slots := seq(MAX_ARGS, _ => 0);
    var k := 0;
    assert ts[0..] == ts;
    while left != 0
      invariant 0 <= k <= |args| && left == |args| - k
      invariant next <= |b| && b[next..] == All(TripleBytes, ts[k..]) + rest
      invariant |slots| == MAX_ARGS
      invariant forall i :: 0 <= i < MAX_ARGS ==> slots[i] == if i < k then ArgValue(vars, args[i]) else 0
    {
      AllPeels(TripleBytes, ts, k, rest);
      LoweredFits(args[k]);
      TakeTriple(b, next, ts[k], All(TripleBytes, ts[k + 1..]) + rest);
      var slot := LoadArg(vars, WordAt(b, next), WordAt(b, next + 4), WordAt(b, next + 8), args[k]);
      slots := slots[k := slot];
      next, left, k := next + 12, left - 1, k + 1;
    }
    assert ts[k..] == [];
  }

  lemma LoweredFits(a: Arg)
    requires ArgFits(a)
    ensures LowerArg(a).a < TWO32 && LowerArg(a).b < TWO32 && LowerArg(a).c < TWO32
  {
  }

  // --- The wait ---

  method WaitFor<W>(ex: Exports<W>, machine: Machine<W>, offset: nat) returns (left: Word32, m: Machine<W>)
    requires offset + 4 <= ARENA_SIZE
    ensures (left, m) == Waited(ex, machine, offset, WAIT_STEPS)
  {
    m := machine;
    var polls := WAIT_STEPS;
    while true
      invariant 0 <= polls <= WAIT_STEPS
      invariant Waited(ex, m, offset, polls) == Waited(ex, machine, offset, WAIT_STEPS)
      decreases polls
    {
      if WordAt(m.arena, offset) != PENDING {
        return polls + 1, m;
      }
      if polls == 0 {
        return 0, m;
      }
      m := ex.sleep(m);
      polls := polls - 1;
    }
  }

  // --- Captures ---

  predicate CapturesFit(cs: seq<Capture>) {
    |cs| < TWO32 && forall i :: 0 <= i < |cs| ==> cs[i].offset + cs[i].size <= ARENA_SIZE
  }

  method CaptureRanges(b: seq<Byte>, cursor: nat, arena: Arena, results: seq<Byte>, ghost cs: seq<Capture>,
                       ghost rest: seq<Byte>)
    returns (next: nat, out: seq<Byte>)
    requires cursor <= |b| && CapturesFit(cs) && b[cursor..] == Counted(CaptureBytes, cs) + rest
    ensures next <= |b| && b[next..] == rest && out == results + All(RangeBytes, Captured(arena, cs))
  {
    TakeCount(CaptureBytes, cs, b, cursor, rest);
    var left: nat := WordAt(b, cursor);
    next, out := cursor + 4, results;
    ghost var k := 0;
    CapturesStart(b, next, arena, cs, results, rest);
    while left != 0
      invariant 0 <= k <= |cs| && left == |cs| - k
      invariant CapturesAt(b, next, cs, k, rest) && CapturesRemain(arena, cs, results, out, k)
    {
      next, out := CaptureNext(b, next, arena, results, out, cs, k, rest);
      left, k := left - 1, k + 1;
    }
    NoneRemain(b, next, arena, cs, results, out, rest);
  }

  method CaptureNext(b: seq<Byte>, cursor: nat, arena: Arena, ghost start: seq<Byte>, results: seq<Byte>,
                     ghost cs: seq<Capture>, ghost k: nat, ghost rest: seq<Byte>)
    returns (next: nat, out: seq<Byte>)
    requires k < |cs| && CapturesAt(b, cursor, cs, k, rest) && CapturesRemain(arena, cs, start, results, k)
    ensures CapturesAt(b, next, cs, k + 1, rest) && CapturesRemain(arena, cs, start, out, k + 1)
  {
    TakeCapture(b, cursor, cs, k, rest);
    next := cursor + 8;
    var offset, length := WordAt(b, cursor), WordAt(b, cursor + 4);
    out := CaptureRange(arena, offset, length, results);
    CapturesRemainAfter(arena, cs, start, results, out, k, offset, length);
  }

  // The bytes at `p` are the captures from `k` on.
  ghost predicate CapturesAt(b: seq<Byte>, p: nat, cs: seq<Capture>, k: nat, rest: seq<Byte>) {
    k <= |cs| && p <= |b| && b[p..] == All(CaptureBytes, cs[k..]) + rest
  }

  lemma TakeCapture(b: seq<Byte>, p: nat, cs: seq<Capture>, k: nat, rest: seq<Byte>)
    requires CapturesFit(cs) && k < |cs| && CapturesAt(b, p, cs, k, rest)
    ensures p + 8 <= |b| && WordAt(b, p) == cs[k].offset && WordAt(b, p + 4) == cs[k].size
    ensures CapturesAt(b, p + 8, cs, k + 1, rest)
  {
    AllPeels(CaptureBytes, cs, k, rest);
    TakePair(b, p, cs[k].offset, cs[k].size, All(CaptureBytes, cs[k + 1..]) + rest);
  }

  // What was captured and what is left to capture make up the whole.
  ghost predicate CapturesRemain(arena: Arena, cs: seq<Capture>, results: seq<Byte>, out: seq<Byte>, k: nat) {
    && CapturesFit(cs) && k <= |cs|
    && out + All(RangeBytes, Captured(arena, cs[k..])) == results + All(RangeBytes, Captured(arena, cs))
  }

  lemma CapturesRemainAfter(arena: Arena, cs: seq<Capture>, results: seq<Byte>, out: seq<Byte>, more: seq<Byte>, k: nat,
                            offset: nat, length: nat)
    requires k < |cs| && CapturesRemain(arena, cs, results, out, k)
    requires offset == cs[k].offset && length == cs[k].size && more == out + RangeBytes(arena[offset..offset + length])
    ensures CapturesRemain(arena, cs, results, more, k + 1)
  {
    CapturedPeels(arena, cs, k);
    Regroup(out, RangeBytes(arena[offset..offset + length]), All(RangeBytes, Captured(arena, cs[k + 1..])));
  }

  lemma CapturesStart(b: seq<Byte>, p: nat, arena: Arena, cs: seq<Capture>, results: seq<Byte>, rest: seq<Byte>)
    requires CapturesFit(cs) && p <= |b| && b[p..] == All(CaptureBytes, cs) + rest
    ensures CapturesAt(b, p, cs, 0, rest) && CapturesRemain(arena, cs, results, results, 0)
  {
    assert cs[0..] == cs;
  }

  lemma NoneRemain(b: seq<Byte>, p: nat, arena: Arena, cs: seq<Capture>, results: seq<Byte>, out: seq<Byte>,
                   rest: seq<Byte>)
    requires CapturesAt(b, p, cs, |cs|, rest) && CapturesRemain(arena, cs, results, out, |cs|)
    ensures b[p..] == rest && out == results + All(RangeBytes, Captured(arena, cs))
  {
    assert cs[|cs|..] == [] && out + [] == out && [] + rest == rest;
  }

  lemma Regroup(x: seq<Byte>, y: seq<Byte>, z: seq<Byte>)
    ensures x + y + z == x + (y + z)
  {
  }

  method CaptureRange(arena: Arena, offset: nat, length: nat, results: seq<Byte>) returns (out: seq<Byte>)
    requires offset + length <= ARENA_SIZE
    ensures out == results + RangeBytes(arena[offset..offset + length])
  {
    out := CopyOut(arena, offset, length, results);
    out := out + Zeros(Pad(length, 8));
  }

  lemma CapturedPeels(arena: Arena, cs: seq<Capture>, k: nat)
    requires CapturesFit(cs) && k < |cs|
    ensures var range := arena[cs[k].offset..cs[k].offset + cs[k].size];
      All(RangeBytes, Captured(arena, cs[k..])) == RangeBytes(range) + All(RangeBytes, Captured(arena, cs[k + 1..]))
  {
    assert cs[k..][1..] == cs[k + 1..];
    var range := arena[cs[k].offset..cs[k].offset + cs[k].size];
    assert Captured(arena, cs[k..]) == [range] + Captured(arena, cs[k + 1..]);
    assert ([range] + Captured(arena, cs[k + 1..]))[1..] == Captured(arena, cs[k + 1..]);
  }

  method CopyOut(arena: Arena, offset: nat, length: nat, results: seq<Byte>) returns (out: seq<Byte>)
    requires offset + length <= ARENA_SIZE
    ensures out == results + arena[offset..offset + length]
  {
    out := results;
    var i := 0;
    while i < length
      invariant 0 <= i <= length
      invariant out == results + arena[offset..offset + i]
    {
      out := out + [arena[offset + i]];
      i := i + 1;
    }
  }

  // --- Variables ---

  predicate StoresFit(ss: seq<Store>) {
    |ss| < TWO32 && forall i :: 0 <= i < |ss| ==> StoreFits(ss[i])
  }

  method StoreVariable(index: nat, source: nat, size: nat, vars: Variables, arena: Arena, r3: Word64,
                       ghost store: Store)
    returns (out: Variables)
    requires StoreFits(store) && LowerStore(store) == Triple(index, source, size)
    ensures out == vars[store.index := SourceValue(arena, r3, store.source)]
  {
    if source == FROM_R3 {
      out := vars[index := r3];
    } else if size == 8 {
      out := vars[index := DoubleAt(arena, source)];
    } else {
      out := vars[index := WordAt(arena, source)];
    }
  }

  method StoreVariables(b: seq<Byte>, cursor: nat, vars: Variables, arena: Arena, r3: Word64, ghost ss: seq<Store>,
                        ghost rest: seq<Byte>)
    returns (next: nat, out: Variables)
    requires cursor <= |b| && StoresFit(ss) && b[cursor..] == Counted(TripleBytes, LowerStores(ss)) + rest
    ensures next <= |b| && b[next..] == rest && out == Stored(vars, arena, r3, ss)
  {
    ghost var ts := LowerStores(ss);
    TakeCount(TripleBytes, ts, b, cursor, rest);
    var left: nat := WordAt(b, cursor);
    next, out := cursor + 4, vars;
    ghost var k := 0;
    assert ts[0..] == ts && ss[0..] == ss;
    while left != 0
      invariant 0 <= k <= |ss| && left == |ss| - k
      invariant next <= |b| && b[next..] == All(TripleBytes, ts[k..]) + rest
      invariant Stored(out, arena, r3, ss[k..]) == Stored(vars, arena, r3, ss)
    {
      AllPeels(TripleBytes, ts, k, rest);
      assert StoreFits(ss[k]) && ss[k..][1..] == ss[k + 1..];
      TakeTriple(b, next, ts[k], All(TripleBytes, ts[k + 1..]) + rest);
      out := StoreVariable(WordAt(b, next), WordAt(b, next + 4), WordAt(b, next + 8), out, arena, r3, ss[k]);
      next, left, k := next + 12, left - 1, k + 1;
    }
    assert ss[k..] == [] && ts[k..] == [];
  }

  // --- Steps ---

  ghost predicate IsCompiled(s: Step, thunks: seq<nat>, index: nat) {
    s.Valid() && index < |thunks| && |thunks| < TWO32 && thunks[index] == s.callee
  }

  // What is left of a record after each of its parts.
  lemma RecordParts(step: Step, index: nat, rest: seq<Byte>)
    ensures var r := Lower(step, index);
      RecordBytes(r) + rest ==
      Word(index) + (Counted(PatchBytes, r.patches) + (Counted(TripleBytes, r.args) + (Word(r.wait)
      + (Counted(CaptureBytes, r.captures) + (Counted(TripleBytes, r.stores) + rest)))))
  {
    var r := Lower(step, index);
    var front := Word(index) + Counted(PatchBytes, r.patches) + Counted(TripleBytes, r.args);
    var captures, stores := Counted(CaptureBytes, r.captures), Counted(TripleBytes, r.stores);
    FourParts(front, Word(r.wait), captures, stores, rest);
    Regroup(Word(index) + Counted(PatchBytes, r.patches), Counted(TripleBytes, r.args),
            Word(r.wait) + (captures + (stores + rest)));
    Regroup(Word(index), Counted(PatchBytes, r.patches),
            Counted(TripleBytes, r.args) + (Word(r.wait) + (captures + (stores + rest))));
  }

  lemma FourParts(w: seq<Byte>, x: seq<Byte>, y: seq<Byte>, z: seq<Byte>, rest: seq<Byte>)
    ensures w + x + y + z + rest == w + (x + (y + (z + rest)))
  {
  }

  // Runs the step at the cursor and adds what it saw to the results.
  method ExecuteStep<W>(ex: Exports<W>, thunks: seq<nat>, b: seq<Byte>, cursor: nat, machine: Machine<W>,
                        results: seq<Byte>, ghost step: Step, ghost index: nat, ghost rest: seq<Byte>)
    returns (next: nat, m: Machine<W>, out: seq<Byte>)
    requires IsCompiled(step, thunks, index)
    requires cursor <= |b| && b[cursor..] == RecordBytes(Lower(step, index)) + rest
    ensures next <= |b| && b[next..] == rest
    ensures m == RunStep(ex, machine, step).0 && out == results + ObservationBytes(RunStep(ex, machine, step).1)
  {
    ghost var r := Lower(step, index);
    ghost var stores := Counted(TripleBytes, r.stores) + rest;
    ghost var captures := Counted(CaptureBytes, r.captures) + stores;
    ghost var args := Counted(TripleBytes, r.args) + (Word(r.wait) + captures);
    RecordParts(step, index, rest);
    TakeWord(b, cursor, index, Counted(PatchBytes, r.patches) + args);
    var thunk := WordAt(b, cursor);
    var arena;
    next, arena := ApplyPatches(b, cursor + 4, machine.arena, step.patches, args);
    m := machine.(arena := arena);
    var slots;
    next, slots := LoadArgs(b, next, m.vars, step.args, Word(r.wait) + captures);
    var called := ex.call(thunks[thunk], slots, m);
    var r3 := called.0;
    m := called.1;
    TakeWord(b, next, r.wait, captures);
    var wait := WordAt(b, next);
    next := next + 4;
    var left: Word32 := NO_WAIT;
    if wait != NO_WAIT {
      left, m := WaitFor(ex, m, wait);
    }
    out := results + Double(r3) + Word(left) + Word(0);
    next, out := CaptureRanges(b, next, m.arena, out, step.captures, stores);
    var vars;
    next, vars := StoreVariables(b, next, m.vars, m.arena, r3, step.stores, rest);
    m := m.(vars := vars);
    ObservationParts(results, RunStep(ex, machine, step).1);
  }

  lemma ObservationParts(results: seq<Byte>, o: Observation)
    ensures results + ObservationBytes(o) ==
            results + Double(o.r3) + Word(o.left) + Word(0) + All(RangeBytes, o.captured)
  {
  }

  // --- The whole run ---

  function Lowered(ss: seq<Step>, indexes: seq<nat>): (r: seq<Record>)
    requires |indexes| == |ss|
    ensures |r| == |ss| && forall i :: 0 <= i < |ss| ==> r[i] == Lower(ss[i], indexes[i])
  {
    seq(|ss|, i requires 0 <= i < |ss| => Lower(ss[i], indexes[i]))
  }

  ghost predicate AreCompiled(ss: seq<Step>, thunks: seq<nat>, indexes: seq<nat>) {
    |indexes| == |ss| && forall i :: 0 <= i < |ss| ==> IsCompiled(ss[i], thunks, indexes[i])
  }

  // Runs compiled steps. It reads exactly their records, does to the machine
  // what running the steps directly does and leaves the results file of that.
  method Execute<W>(ex: Exports<W>, thunks: seq<nat>, b: seq<Byte>, count: nat, machine: Machine<W>,
                    ghost ss: seq<Step>, ghost indexes: seq<nat>)
    returns (cursor: nat, m: Machine<W>, results: seq<Byte>)
    requires AreCompiled(ss, thunks, indexes) && count == |ss|
    requires b == All(RecordBytes, Lowered(ss, indexes))
    ensures cursor == |b|
    ensures m == RunSteps(ex, machine, ss).0 && results == ResultsBytes(RunSteps(ex, machine, ss).1)
  {
    m, cursor := machine, 0;
    var body: seq<Byte> := [];
    var k := 0;
    RunStarts(ex, machine, ss, indexes, b);
    while k != count
      invariant 0 <= k <= count
      invariant ReadTo(ss, indexes, b, cursor, k) && Remains(ex, machine, ss, m, body, k)
    {
      cursor, m, body := ExecuteNext(ex, thunks, b, cursor, m, body, machine, ss, indexes, k);
      k := k + 1;
    }
    RanAll(ex, machine, ss, indexes, b, cursor, m, body);
    results := WithHeader(k, body);
  }

  method ExecuteNext<W>(ex: Exports<W>, thunks: seq<nat>, b: seq<Byte>, cursor: nat, machine: Machine<W>,
                        body: seq<Byte>, ghost start: Machine<W>, ghost ss: seq<Step>, ghost indexes: seq<nat>,
                        ghost k: nat)
    returns (next: nat, m: Machine<W>, out: seq<Byte>)
    requires k < |ss| && AreCompiled(ss, thunks, indexes)
    requires ReadTo(ss, indexes, b, cursor, k) && Remains(ex, start, ss, machine, body, k)
    ensures ReadTo(ss, indexes, b, next, k + 1) && Remains(ex, start, ss, m, out, k + 1)
  {
    ghost var rs := Lowered(ss, indexes);
    RecordPeels(rs, k);
    RemainsAfter(ex, start, ss, machine, body, k);
    next, m, out := ExecuteStep(ex, thunks, b, cursor, machine, body, ss[k], indexes[k], All(RecordBytes, rs[k + 1..]));
  }

  // The cursor is at the record of step `k`.
  ghost predicate ReadTo(ss: seq<Step>, indexes: seq<nat>, b: seq<Byte>, cursor: nat, k: nat) {
    && k <= |ss| == |indexes| && cursor <= |b|
    && b[cursor..] == All(RecordBytes, Lowered(ss, indexes)[k..])
  }

  lemma RecordPeels(rs: seq<Record>, k: nat)
    requires k < |rs|
    ensures All(RecordBytes, rs[k..]) == RecordBytes(rs[k]) + All(RecordBytes, rs[k + 1..])
  {
    assert rs[k..][1..] == rs[k + 1..];
  }

  // What was run and what is left to run make up the whole.
  ghost predicate Remains<W>(ex: Exports<W>, start: Machine<W>, ss: seq<Step>, m: Machine<W>, body: seq<Byte>, k: nat) {
    && (forall i :: 0 <= i < |ss| ==> ss[i].Valid())
    && k <= |ss| && RunSteps(ex, m, ss[k..]).0 == RunSteps(ex, start, ss).0
    && body + All(ObservationBytes, RunSteps(ex, m, ss[k..]).1) == All(ObservationBytes, RunSteps(ex, start, ss).1)
  }

  lemma RemainsAfter<W>(ex: Exports<W>, start: Machine<W>, ss: seq<Step>, m: Machine<W>, body: seq<Byte>, k: nat)
    requires k < |ss| && Remains(ex, start, ss, m, body, k)
    ensures Remains(ex, start, ss, RunStep(ex, m, ss[k]).0, body + ObservationBytes(RunStep(ex, m, ss[k]).1), k + 1)
  {
    StepPeels(ex, m, ss, k);
    Appended(body, RunStep(ex, m, ss[k]).1, RunSteps(ex, RunStep(ex, m, ss[k]).0, ss[k + 1..]).1);
  }

  lemma RanAll<W>(ex: Exports<W>, start: Machine<W>, ss: seq<Step>, indexes: seq<nat>, b: seq<Byte>, cursor: nat,
                  m: Machine<W>, body: seq<Byte>)
    requires ReadTo(ss, indexes, b, cursor, |ss|) && Remains(ex, start, ss, m, body, |ss|)
    ensures cursor == |b|
    ensures m == RunSteps(ex, start, ss).0 && body == All(ObservationBytes, RunSteps(ex, start, ss).1)
  {
    assert ss[|ss|..] == [] && body + [] == body && Lowered(ss, indexes)[|ss|..] == [];
  }

  lemma RunStarts<W>(ex: Exports<W>, start: Machine<W>, ss: seq<Step>, indexes: seq<nat>, b: seq<Byte>)
    requires |indexes| == |ss| && b == All(RecordBytes, Lowered(ss, indexes))
    requires forall i :: 0 <= i < |ss| ==> ss[i].Valid()
    ensures Remains(ex, start, ss, start, [], 0) && ReadTo(ss, indexes, b, 0, 0)
  {
    assert ss[0..] == ss && b[0..] == b && Lowered(ss, indexes)[0..] == Lowered(ss, indexes);
  }

  lemma StepPeels<W>(ex: Exports<W>, m: Machine<W>, ss: seq<Step>, k: nat)
    requires k < |ss| && forall i :: 0 <= i < |ss| ==> ss[i].Valid()
    ensures var (m', o) := RunStep(ex, m, ss[k]);
      RunSteps(ex, m, ss[k..]) == (RunSteps(ex, m', ss[k + 1..]).0, [o] + RunSteps(ex, m', ss[k + 1..]).1)
  {
    assert ss[k..][1..] == ss[k + 1..];
  }

  lemma Appended(body: seq<Byte>, o: Observation, os: seq<Observation>)
    ensures body + All(ObservationBytes, [o] + os) == body + ObservationBytes(o) + All(ObservationBytes, os)
  {
    assert ([o] + os)[1..] == os;
  }
}
