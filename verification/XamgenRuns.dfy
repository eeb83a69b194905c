// What running a corpus means, said without a compiler, a plan or an executor:
// what each byte of the arena is when a step makes its call, what the call is
// given, and what is left and reported after it.
module XamgenRuns {
  import opened Wrappers
  import opened XamgenFormat

  // The number bytes stand for, the first the highest.
  function ValueOf(s: seq<Byte>): nat {
    if s == [] then 0
    else
      var last: nat := s[|s| - 1];
      ValueOf(s[..|s| - 1]) * 0x100 + last
  }

  lemma WordIsValue(b: seq<Byte>, p: nat)
    requires p + 4 <= |b|
    ensures WordAt(b, p) == ValueOf(b[p..p + 4])
  {
    var s := b[p..p + 4];
    assert s[..3][..2] == s[..2] && s[..2][..1] == s[..1] && s[..1][..0] == [];
    assert ValueOf(s[..1]) == s[0];
    assert ValueOf(s[..2]) == ValueOf(s[..1]) * 0x100 + s[1];
    assert ValueOf(s[..3]) == ValueOf(s[..2]) * 0x100 + s[2];
  }

  lemma DoubleIsValue(b: seq<Byte>, p: nat)
    requires p + 8 <= |b|
    ensures DoubleAt(b, p) == ValueOf(b[p..p + 8])
  {
    WordIsValue(b, p);
    WordIsValue(b, p + 4);
    ValueOfParts(b[p..p + 4], b[p + 4..p + 8]);
    assert b[p..p + 8] == b[p..p + 4] + b[p + 4..p + 8];
  }

  lemma ValueOfParts(s: seq<Byte>, t: seq<Byte>)
    requires |t| == 4
    ensures ValueOf(s + t) == ValueOf(s) * TWO32 + ValueOf(t)
  {
    var u := s + t;
    assert u[..|s| + 3] == s + t[..3] && (s + t[..3])[..|s| + 2] == s + t[..2];
    assert (s + t[..2])[..|s| + 1] == s + t[..1] && (s + t[..1])[..|s|] == s;
    assert t[..3][..2] == t[..2] && t[..2][..1] == t[..1] && t[..1][..0] == [];
    assert ValueOf(t[..1]) == t[0] && ValueOf(s + t[..1]) == ValueOf(s) * 0x100 + t[0];
    assert ValueOf(t[..2]) == ValueOf(t[..1]) * 0x100 + t[1];
    assert ValueOf(s + t[..2]) == ValueOf(s + t[..1]) * 0x100 + t[1];
    assert ValueOf(t[..3]) == ValueOf(t[..2]) * 0x100 + t[2];
    assert ValueOf(s + t[..3]) == ValueOf(s + t[..2]) * 0x100 + t[2];
  }

  // --- What a call sees ---

  predicate Covers(p: Patch, x: nat) {
    p.offset <= x < p.offset + |p.data|
  }

  // Patch `k` covers a byte and no later one does.
  predicate CoversLast(ps: seq<Patch>, k: nat, x: nat) {
    k < |ps| && Covers(ps[k], x) && forall j :: k < j < |ps| ==> !Covers(ps[j], x)
  }

  // A byte of the arena a call is made with is that of the last patch that
  // covers it, or else of the image, or else what it was.
  ghost predicate ByteIs(before: Arena, at: Arena, image: Option<seq<Byte>>, ps: seq<Patch>, x: nat)
    requires x < ARENA_SIZE
  {
    && (forall k: nat :: CoversLast(ps, k, x) ==> at[x] == ps[k].data[x - ps[k].offset])
    && ((forall k :: 0 <= k < |ps| ==> !Covers(ps[k], x)) ==>
          at[x] == if image.Some? && x < |image.value| then image.value[x] else before[x])
  }

  ghost predicate CallSees(before: Arena, at: Arena, image: Option<seq<Byte>>, ps: seq<Patch>) {
    forall x: nat :: x < ARENA_SIZE ==> ByteIs(before, at, image, ps, x)
  }

  predicate PatchesFit(ps: seq<Patch>) {
    forall i :: 0 <= i < |ps| ==> ps[i].offset + |ps[i].data| <= ARENA_SIZE
  }

  lemma {:induction false} PatchedByte(a: Arena, ps: seq<Patch>, x: nat)
    requires PatchesFit(ps) && x < ARENA_SIZE
    ensures ByteIs(a, Patched(a, ps), None, ps, x)
    decreases |ps|
  {
    if ps != [] {
      PatchedByte(Overlay(a, ps[0]), ps[1..], x);
      forall k: nat | CoversLast(ps, k, x) ensures Patched(a, ps)[x] == ps[k].data[x - ps[k].offset] {
        if k > 0 {
          assert CoversLast(ps[1..], k - 1, x);
        }
      }
      assert (forall k :: 0 <= k < |ps| ==> !Covers(ps[k], x)) ==> !Covers(ps[0], x);
    }
  }

  lemma PatchesAreSeen(a: Arena, ps: seq<Patch>)
    requires PatchesFit(ps)
    ensures CallSees(a, Patched(a, ps), None, ps)
  {
    forall x: nat | x < ARENA_SIZE ensures ByteIs(a, Patched(a, ps), None, ps, x) {
      PatchedByte(a, ps, x);
    }
  }

  lemma ImageIsSeen(a: Arena, image: seq<Byte>, ps: seq<Patch>)
    requires |image| <= ARENA_SIZE && PatchesFit(ps)
    ensures CallSees(a, Patched(Overlay(a, Patch(0, image)), ps), Some(image), ps)
  {
    var first := Overlay(a, Patch(0, image));
    PatchesAreSeen(first, ps);
    forall x: nat | x < ARENA_SIZE ensures ByteIs(a, Patched(first, ps), Some(image), ps, x) {
      assert ByteIs(first, Patched(first, ps), None, ps, x);
    }
  }

  // --- What a call is given ---

  // What a slot holds for an argument. Numbers are 64 bits wide. Of a variable
  // the delta changes the low word alone.
  predicate IsArg(vars: Variables, a: Arg, slot: Word64) {
    match a
    case Number(value) => (slot - value) % (TWO32 * TWO32) == 0
    case Pointer(offset) => slot == ARENA + offset
    case Variable(index, delta) =>
      index < VARIABLES && slot / TWO32 == vars[index] / TWO32 && (slot - vars[index] - delta) % TWO32 == 0
    case Recorder(address) => slot == address
  }

  ghost predicate AreSlots(vars: Variables, args: seq<Arg>, slots: seq<Word64>) {
    && |slots| == MAX_ARGS
    && forall i :: 0 <= i < MAX_ARGS ==> if i < |args| then IsArg(vars, args[i], slots[i]) else slots[i] == 0
  }

  lemma ArgIsValue(vars: Variables, a: Arg)
    requires ArgFits(a)
    ensures IsArg(vars, a, ArgValue(vars, a))
  {
    match a
    case Variable(index, delta) => DeltaAdds(vars[index] / TWO32, vars[index] % TWO32, delta);
    case _ =>
  }

  lemma DeltaAdds(high: nat, low: nat, delta: int)
    ensures (high * TWO32 + (low + delta) % TWO32) / TWO32 == high
    ensures (high * TWO32 + (low + delta) % TWO32 - (high * TWO32 + low) - delta) % TWO32 == 0
  {
  }

  // --- The wait ---

  ghost predicate IsPending<W>(m: Machine<W>, offset: nat)
    requires offset + 4 <= ARENA_SIZE
  {
    ValueOf(m.arena[offset..offset + 4]) == PENDING
  }

  // After `n` sleeps the word is seen not to pend any more, or the last poll has
  // found that it still does.
  ghost predicate IsWait<W>(ex: Exports<W>, m: Machine<W>, offset: nat, n: nat, left: nat, waited: Machine<W>)
    requires offset + 4 <= ARENA_SIZE
  {
    && n <= WAIT_STEPS && waited == Slept(ex, m, n)
    && (forall k: nat :: k < n ==> IsPending(Slept(ex, m, k), offset))
    && if IsPending(waited, offset) then n == WAIT_STEPS && left == 0 else left == WAIT_STEPS + 1 - n
  }

  lemma {:induction false} WaitedAfter<W>(ex: Exports<W>, m: Machine<W>, offset: nat, polls: nat) returns (n: nat)
    requires offset + 4 <= ARENA_SIZE
    ensures n <= polls && Waited(ex, m, offset, polls).1 == Slept(ex, m, n)
    ensures forall k: nat :: k < n ==> IsPending(Slept(ex, m, k), offset)
    ensures var (left, waited) := Waited(ex, m, offset, polls);
      if IsPending(waited, offset) then n == polls && left == 0 else left == polls + 1 - n
    decreases polls
  {
    n := 0;
    WordIsValue(m.arena, offset);
    if IsPending(m, offset) && polls > 0 {
      n := WaitedAfter(ex, ex.sleep(m), offset, polls - 1);
      n := n + 1;
      forall k: nat | k < n ensures IsPending(Slept(ex, m, k), offset) {
        assert k > 0 ==> Slept(ex, m, k) == Slept(ex, ex.sleep(m), k - 1);
      }
    }
  }

  // --- What is left after a call ---

  // What a variable gets from a source, words of memory highest byte first.
  predicate IsSource(a: Arena, r3: Word64, s: Source, value: Word64) {
    match s
    case R3 => value == r3
    case InArena(offset, size) =>
      var n := if size == 8 then 8 else 4;
      offset + n <= ARENA_SIZE && value == ValueOf(a[offset..offset + n])
  }

  predicate StoresLast(ss: seq<Store>, k: nat, v: nat) {
    k < |ss| && ss[k].index == v && forall j :: k < j < |ss| ==> ss[j].index != v
  }

  // Each variable holds what was stored in it last, or what it held.
  ghost predicate VariableIs(before: Variables, after: Variables, a: Arena, r3: Word64, ss: seq<Store>, v: nat)
    requires v < VARIABLES
  {
    && (forall k: nat :: StoresLast(ss, k, v) ==> IsSource(a, r3, ss[k].source, after[v]))
    && ((forall k :: 0 <= k < |ss| ==> ss[k].index != v) ==> after[v] == before[v])
  }

  ghost predicate StoresLeave(before: Variables, after: Variables, a: Arena, r3: Word64, ss: seq<Store>) {
    forall v: nat :: v < VARIABLES ==> VariableIs(before, after, a, r3, ss, v)
  }

  lemma {:induction false} StoredVariable(vars: Variables, a: Arena, r3: Word64, ss: seq<Store>, v: nat)
    requires (forall i :: 0 <= i < |ss| ==> StoreFits(ss[i])) && v < VARIABLES
    ensures VariableIs(vars, Stored(vars, a, r3, ss), a, r3, ss, v)
    decreases |ss|
  {
    if ss != [] {
      assert StoreFits(ss[0]);
      var first := vars[ss[0].index := SourceValue(a, r3, ss[0].source)];
      StoredVariable(first, a, r3, ss[1..], v);
      SourceIsValue(a, r3, ss[0].source);
      forall k: nat | StoresLast(ss, k, v) ensures IsSource(a, r3, ss[k].source, Stored(vars, a, r3, ss)[v]) {
        if k > 0 {
          assert StoresLast(ss[1..], k - 1, v);
        }
      }
      assert (forall k :: 0 <= k < |ss| ==> ss[k].index != v) ==> ss[0].index != v;
    }
  }

  lemma SourceIsValue(a: Arena, r3: Word64, s: Source)
    requires s.InArena? ==> s.offset + (if s.size == 8 then 8 else 4) <= ARENA_SIZE
    ensures IsSource(a, r3, s, SourceValue(a, r3, s))
  {
    match s
    case R3 =>
    case InArena(offset, size) =>
      if size == 8 {
        DoubleIsValue(a, offset);
      } else {
        WordIsValue(a, offset);
      }
  }

  // --- What is reported ---

  datatype Report =
    | Faulted
    | Ran(r3: Option<Word64>, left: Option<Word32>, captured: map<string, seq<Byte>>)

  predicate NamesLast(cs: seq<Capture>, k: nat, name: string) {
    k < |cs| && cs[k].name == name && forall j :: k < j < |cs| ==> cs[j].name != name
  }

  // Ranges of the arena by name, of those of one name the last.
  ghost predicate AreCaptured(a: Arena, cs: seq<Capture>, captured: map<string, seq<Byte>>) {
    && (forall name :: name in captured ==> exists k: nat :: NamesLast(cs, k, name))
    && forall k: nat :: k < |cs| && NamesLast(cs, k, cs[k].name) ==>
         && cs[k].name in captured && cs[k].offset + cs[k].size <= ARENA_SIZE
         && captured[cs[k].name] == a[cs[k].offset..cs[k].offset + cs[k].size]
  }

  ghost predicate Tells(s: Step, r3: Word64, left: Word32, a: Arena, report: Report) {
    && report.Ran? && report.r3 == (if s.void then None else Some(r3))
    && report.left == (if s.wait.Some? then Some(left) else None)
    && AreCaptured(a, s.captures, report.captured)
  }

  // --- Runs ---

  // A step as it ran: what its call was made with and gave, and what the wait
  // left.
  datatype Moment<W> = Moment(
    arrived: Machine<W>, slots: seq<Word64>, r3: Word64, called: Machine<W>, sleeps: nat, left: Word32,
    waited: Machine<W>)

  ghost predicate StepIsRun<W>(ex: Exports<W>, m: Machine<W>, s: Step, image: Option<seq<Byte>>, x: Moment<W>,
                               after: Machine<W>, report: Report)
  {
    && x.arrived == m.(arena := x.arrived.arena) && CallSees(m.arena, x.arrived.arena, image, s.patches)
    && AreSlots(m.vars, s.args, x.slots)
    && (x.r3, x.called) == ex.call(s.callee, x.slots, x.arrived)
    && (match s.wait
        case None => x.left == NO_WAIT && x.waited == x.called
        case Some(offset) => offset + 4 <= ARENA_SIZE && IsWait(ex, x.called, offset, x.sleeps, x.left, x.waited))
    && after == x.waited.(vars := after.vars)
    && StoresLeave(x.waited.vars, after.vars, x.waited.arena, x.r3, s.stores)
    && Tells(s, x.r3, x.left, x.waited.arena, report)
  }

  // A scenario's steps from `m`, one report for each. Those that fault are left
  // out. The image is there for the first of the others.
  ghost predicate SectionIsRun<W(!new)>(ex: Exports<W>, m: Machine<W>, ss: seq<Step>, image: Option<seq<Byte>>,
                                  after: Machine<W>, reports: seq<Report>)
    decreases |ss|
  {
    if ss == [] then after == m && reports == []
    else
      && reports != []
      && if ss[0].faults then reports[0] == Faulted && SectionIsRun(ex, m, ss[1..], image, after, reports[1..])
         else exists x: Moment<W>, next: Machine<W> ::
             StepIsRun(ex, m, ss[0], image, x, next, reports[0])
             && SectionIsRun(ex, next, ss[1..], None, after, reports[1..])
  }

  // A finished scenario: the arena's first image and its steps.
  datatype Section = Section(initial: seq<Byte>, steps: seq<Step>) {
    predicate Valid() {
      |initial| <= ARENA_SIZE && forall i :: 0 <= i < |steps| ==> steps[i].Valid() && |steps[i].patches| + 1 < TWO32
    }
  }

  // Scenarios one after the other, each with its own image.
  ghost predicate CorpusIsRun<W(!new)>(ex: Exports<W>, m: Machine<W>, sections: seq<Section>, after: Machine<W>,
                                 reports: seq<Report>)
    decreases |sections|
  {
    if sections == [] then after == m && reports == []
    else
      var n := |sections[0].steps|;
      n <= |reports| &&
      exists next: Machine<W> ::
        SectionIsRun(ex, m, sections[0].steps, Some(sections[0].initial), next, reports[..n])
        && CorpusIsRun(ex, next, sections[1..], after, reports[n..])
  }

  // --- A run is the only one ---

  lemma LastCovering(ps: seq<Patch>, x: nat) returns (last: Option<nat>)
    ensures match last
            case Some(k) => CoversLast(ps, k, x)
            case None => forall k :: 0 <= k < |ps| ==> !Covers(ps[k], x)
  {
    last := None;
    var k := |ps|;
    while k > 0
      invariant 0 <= k <= |ps| && forall j :: k <= j < |ps| ==> !Covers(ps[j], x)
    {
      k := k - 1;
      if Covers(ps[k], x) {
        return Some(k);
      }
    }
  }

  lemma SeenOnce(before: Arena, a: Arena, b: Arena, image: Option<seq<Byte>>, ps: seq<Patch>)
    requires CallSees(before, a, image, ps) && CallSees(before, b, image, ps)
    ensures a == b
  {
    forall x: nat | x < ARENA_SIZE ensures a[x] == b[x] {
      var last := LastCovering(ps, x);
      assert ByteIs(before, a, image, ps, x) && ByteIs(before, b, image, ps, x);
    }
  }

  lemma SlotsOnce(vars: Variables, args: seq<Arg>, s: seq<Word64>, t: seq<Word64>)
    requires AreSlots(vars, args, s) && AreSlots(vars, args, t)
    ensures s == t
  {
    forall i | 0 <= i < MAX_ARGS ensures s[i] == t[i] {
      if i < |args| {
        ArgOnce(vars, args[i], s[i], t[i]);
      }
    }
  }

  lemma ArgOnce(vars: Variables, a: Arg, s: Word64, t: Word64)
    requires IsArg(vars, a, s) && IsArg(vars, a, t)
    ensures s == t
  {
    match a
    case Number(value) => SameRest(s, t, value);
    case Variable(index, delta) =>
      SameLow(s, t, vars[index] + delta);
    case _ =>
  }

  lemma SameRest(s: Word64, t: Word64, value: int)
    requires (s - value) % (TWO32 * TWO32) == 0 && (t - value) % (TWO32 * TWO32) == 0
    ensures s == t
  {
  }

  lemma SameLow(s: Word64, t: Word64, value: int)
    requires s / TWO32 == t / TWO32 && (s - value) % TWO32 == 0 && (t - value) % TWO32 == 0
    ensures s == t
  {
  }

  lemma WaitsOnce<W>(ex: Exports<W>, m: Machine<W>, offset: nat, x: Moment<W>, y: Moment<W>)
    requires offset + 4 <= ARENA_SIZE
    requires IsWait(ex, m, offset, x.sleeps, x.left, x.waited) && IsWait(ex, m, offset, y.sleeps, y.left, y.waited)
    ensures x.left == y.left && x.waited == y.waited
  {
    if x.sleeps < y.sleeps {
      assert false;
    }
    if y.sleeps < x.sleeps {
      assert false;
    }
  }

  lemma StoredOnce(before: Variables, s: Variables, t: Variables, a: Arena, r3: Word64, ss: seq<Store>)
    requires StoresLeave(before, s, a, r3, ss) && StoresLeave(before, t, a, r3, ss)
    ensures s == t
  {
    forall v: nat | v < VARIABLES ensures s[v] == t[v] {
      var k := |ss|;
      while k > 0 && ss[k - 1].index != v
        invariant 0 <= k <= |ss| && forall j :: k <= j < |ss| ==> ss[j].index != v
      {
        k := k - 1;
      }
      assert k > 0 ==> StoresLast(ss, k - 1, v);
      assert VariableIs(before, s, a, r3, ss, v) && VariableIs(before, t, a, r3, ss, v);
    }
  }

  lemma CapturedOnce(a: Arena, cs: seq<Capture>, s: map<string, seq<Byte>>, t: map<string, seq<Byte>>)
    requires AreCaptured(a, cs, s) && AreCaptured(a, cs, t)
    ensures s == t
  {
  }

  lemma StepRunsOnce<W>(ex: Exports<W>, m: Machine<W>, s: Step, image: Option<seq<Byte>>, x: Moment<W>,
                        after: Machine<W>, report: Report, y: Moment<W>, after': Machine<W>, report': Report)
    requires StepIsRun(ex, m, s, image, x, after, report) && StepIsRun(ex, m, s, image, y, after', report')
    ensures after == after' && report == report'
  {
    SeenOnce(m.arena, x.arrived.arena, y.arrived.arena, image, s.patches);
    SlotsOnce(m.vars, s.args, x.slots, y.slots);
    if s.wait.Some? {
      WaitsOnce(ex, x.called, s.wait.value, x, y);
    }
    StoredOnce(x.waited.vars, after.vars, after'.vars, x.waited.arena, x.r3, s.stores);
    CapturedOnce(x.waited.arena, s.captures, report.captured, report'.captured);
  }

  lemma {:induction false} SectionRunsOnce<W(!new)>(ex: Exports<W>, m: Machine<W>, ss: seq<Step>,
                                                    image: Option<seq<Byte>>, after: Machine<W>, reports: seq<Report>,
                                                    after': Machine<W>, reports': seq<Report>)
    requires SectionIsRun(ex, m, ss, image, after, reports) && SectionIsRun(ex, m, ss, image, after', reports')
    ensures after == after' && reports == reports'
    decreases |ss|
  {
    if ss == [] {
    } else if ss[0].faults {
      SectionRunsOnce(ex, m, ss[1..], image, after, reports[1..], after', reports'[1..]);
      assert reports == [reports[0]] + reports[1..] && reports' == [reports'[0]] + reports'[1..];
    } else {
      var x: Moment<W>, next: Machine<W> :| StepIsRun(ex, m, ss[0], image, x, next, reports[0])
        && SectionIsRun(ex, next, ss[1..], None, after, reports[1..]);
      var y: Moment<W>, next': Machine<W> :| StepIsRun(ex, m, ss[0], image, y, next', reports'[0])
        && SectionIsRun(ex, next', ss[1..], None, after', reports'[1..]);
      StepRunsOnce(ex, m, ss[0], image, x, next, reports[0], y, next', reports'[0]);
      SectionRunsOnce(ex, next, ss[1..], None, after, reports[1..], after', reports'[1..]);
      assert reports == [reports[0]] + reports[1..] && reports' == [reports'[0]] + reports'[1..];
    }
  }

  // A corpus has at most one run: these laws leave nothing open.
  lemma {:induction false} CorpusRunsOnce<W(!new)>(ex: Exports<W>, m: Machine<W>, sections: seq<Section>,
                                                   after: Machine<W>, reports: seq<Report>, after': Machine<W>,
                                                   reports': seq<Report>)
    requires CorpusIsRun(ex, m, sections, after, reports) && CorpusIsRun(ex, m, sections, after', reports')
    ensures after == after' && reports == reports'
    decreases |sections|
  {
    if sections != [] {
      var n := |sections[0].steps|;
      var next: Machine<W> :| SectionIsRun(ex, m, sections[0].steps, Some(sections[0].initial), next, reports[..n])
        && CorpusIsRun(ex, next, sections[1..], after, reports[n..]);
      var next': Machine<W> :| SectionIsRun(ex, m, sections[0].steps, Some(sections[0].initial), next', reports'[..n])
        && CorpusIsRun(ex, next', sections[1..], after', reports'[n..]);
      SectionRunsOnce(ex, m, sections[0].steps, Some(sections[0].initial), next, reports[..n], next', reports'[..n]);
      CorpusRunsOnce(ex, next, sections[1..], after, reports[n..], after', reports'[n..]);
      assert reports == reports[..n] + reports[n..] && reports' == reports'[..n] + reports'[n..];
    }
  }
}
