// xamgen's corpora: laying a scenario out, compiling it for the executor and
// decoding the results (tools/xamgen/xamgen.py). Building the title, import
// resolution and files are not part of this model.
module Xamgen {
  import opened Wrappers
  import opened XamgenFormat
  import opened XamgenRuns
  import opened XamgenExecutor

  predicate AllValid(sections: seq<Section>) {
    forall i :: 0 <= i < |sections| ==> sections[i].Valid()
  }

  // --- What is run ---

  function WithInitial(s: Step, initial: seq<Byte>): Step {
    s.(patches := [Patch(0, initial)] + s.patches)
  }

  // The steps of a scenario that run. The first writes the image.
  function PlanSteps(ss: seq<Step>, initial: seq<Byte>, first: bool): seq<Step> {
    if ss == [] then []
    else if ss[0].faults then PlanSteps(ss[1..], initial, first)
    else [if first then WithInitial(ss[0], initial) else ss[0]] + PlanSteps(ss[1..], initial, false)
  }

  function Plan(sections: seq<Section>): seq<Step> {
    if sections == [] then []
    else PlanSteps(sections[0].steps, sections[0].initial, true) + Plan(sections[1..])
  }

  // What decoding needs of a step.
  datatype Description = Description(faults: bool, wait: bool, void: bool, captures: seq<Capture>)

  function Describe(s: Step): Description {
    Description(s.faults, s.wait.Some?, s.void, s.captures)
  }

  function DescribeSteps(ss: seq<Step>): seq<Description> {
    if ss == [] then [] else [Describe(ss[0])] + DescribeSteps(ss[1..])
  }

  function DescribeAll(sections: seq<Section>): seq<Description> {
    if sections == [] then [] else DescribeSteps(sections[0].steps) + DescribeAll(sections[1..])
  }

  function StepCount(sections: seq<Section>): nat {
    if sections == [] then 0 else |sections[0].steps| + StepCount(sections[1..])
  }

  ghost predicate Knows(known: set<nat>, sections: seq<Section>) {
    forall i, j :: 0 <= i < |sections| && 0 <= j < |sections[i].steps| ==> sections[i].steps[j].callee in known
  }

  // --- Compiling ---

  datatype Compiled = Compiled(thunks: seq<nat>, blob: seq<Byte>, resultsSize: nat, meta: seq<Description>)

  method EmitPatches(ps: seq<Patch>) returns (out: seq<Byte>)
    ensures out == Counted(PatchBytes, ps)
  {
    var body: seq<Byte> := [];
    for k := 0 to |ps|
      invariant body == All(PatchBytes, ps[..k])
    {
      AllAppends(PatchBytes, ps[..k], ps[k]);
      assert ps[..k + 1] == ps[..k] + [ps[k]];
      body := body + (Word(ps[k].offset) + Word(|ps[k].data|) + ps[k].data + Zeros(Pad(|ps[k].data|, 4)));
    }
    assert ps[..|ps|] == ps;
    out := Word(|ps|) + body;
  }

  method EmitArg(a: Arg) returns (out: seq<Byte>)
    ensures out == TripleBytes(LowerArg(a))
  {
    match a {
      case Number(value) =>
        var v := value % (TWO32 * TWO32);
        out := Word(TAG_IMMEDIATE) + Word(v / TWO32) + Word(v % TWO32);
      case Pointer(offset) => out := Word(TAG_ARENA) + Word(0) + Word(offset);
      case Variable(index, delta) => out := Word(TAG_VARIABLE) + Word(delta % TWO32) + Word(index);
      case Recorder(address) => out := Word(TAG_IMMEDIATE) + Word(0) + Word(address);
    }
  }

  method EmitArgs(args: seq<Arg>) returns (out: seq<Byte>)
    ensures out == Counted(TripleBytes, LowerArgs(args))
  {
    ghost var ts := LowerArgs(args);
    var body: seq<Byte> := [];
    for k := 0 to |args|
      invariant body == All(TripleBytes, ts[..k])
    {
      AllAppends(TripleBytes, ts[..k], ts[k]);
      assert ts[..k + 1] == ts[..k] + [ts[k]];
      var bytes := EmitArg(args[k]);
      body := body + bytes;
    }
    assert ts[..|ts|] == ts;
    out := Word(|args|) + body;
  }

  method EmitCaptures(cs: seq<Capture>) returns (out: seq<Byte>)
    ensures out == Counted(CaptureBytes, cs)
  {
    var body: seq<Byte> := [];
    for k := 0 to |cs|
      invariant body == All(CaptureBytes, cs[..k])
    {
      AllAppends(CaptureBytes, cs[..k], cs[k]);
      assert cs[..k + 1] == cs[..k] + [cs[k]];
      body := body + (Word(cs[k].offset) + Word(cs[k].size));
    }
    assert cs[..|cs|] == cs;
    out := Word(|cs|) + body;
  }

  method EmitStores(ss: seq<Store>) returns (out: seq<Byte>)
    ensures out == Counted(TripleBytes, LowerStores(ss))
  {
    ghost var ts := LowerStores(ss);
    var body: seq<Byte> := [];
    for k := 0 to |ss|
      invariant body == All(TripleBytes, ts[..k])
    {
      AllAppends(TripleBytes, ts[..k], ts[k]);
      assert ts[..k + 1] == ts[..k] + [ts[k]];
      match ss[k].source {
        case R3 => body := body + (Word(ss[k].index) + Word(FROM_R3) + Word(0));
        case InArena(offset, size) =>
          body := body + (Word(ss[k].index) + Word(offset) + Word(if size == 8 then 8 else 4));
      }
    }
    assert ts[..|ts|] == ts;
    out := Word(|ss|) + body;
  }

  method EmitStep(s: Step, thunk: nat) returns (out: seq<Byte>)
    ensures out == RecordBytes(Lower(s, thunk))
  {
    var patches := EmitPatches(s.patches);
    var args := EmitArgs(s.args);
    var captures := EmitCaptures(s.captures);
    var stores := EmitStores(s.stores);
    out := Word(thunk) + patches + args + Word(if s.wait.Some? then s.wait.value else NO_WAIT) + captures + stores;
  }

  method SizeOfCaptures(cs: seq<Capture>) returns (size: nat)
    ensures size == CapturesSize(cs)
  {
    size := 0;
    var k := |cs|;
    assert cs[k..] == [];
    while k > 0
      invariant 0 <= k <= |cs| && size == CapturesSize(cs[k..])
    {
      k := k - 1;
      assert cs[k..][1..] == cs[k + 1..];
      size := cs[k].size + Pad(cs[k].size, 8) + size;
    }
    assert cs[0..] == cs;
  }

  // Each export has one thunk, which `index` finds.
  ghost predicate ThunksOk(thunks: seq<nat>, index: map<nat, nat>) {
    && (forall e :: e in index ==> index[e] < |thunks| && thunks[index[e]] == e)
    && (forall i :: 0 <= i < |thunks| ==> thunks[i] in index && index[thunks[i]] == i)
  }

  method FindThunk(thunks: seq<nat>, index: map<nat, nat>, callee: nat)
    returns (thunks': seq<nat>, index': map<nat, nat>, i: nat)
    requires ThunksOk(thunks, index)
    ensures ThunksOk(thunks', index') && i < |thunks'| && thunks'[i] == callee
    ensures |thunks| <= |thunks'| <= |thunks| + 1 && thunks'[..|thunks|] == thunks
  {
    thunks', index' := thunks, index;
    if callee !in index' {
      index' := index'[callee := |thunks'|];
      thunks' := thunks' + [callee];
    }
    i := index'[callee];
  }

  ghost predicate CallsThunks(plan: seq<Step>, indexes: seq<nat>, thunks: seq<nat>) {
    && |indexes| == |plan| && |thunks| <= |plan|
    && forall i :: 0 <= i < |plan| ==>
         plan[i].Valid() && indexes[i] < |thunks| && thunks[indexes[i]] == plan[i].callee
  }

  // What is compiled so far: the steps of `plan`.
  ghost predicate Emitted(c: Compiled, index: map<nat, nat>, plan: seq<Step>, indexes: seq<nat>) {
    && CallsThunks(plan, indexes, c.thunks) && ThunksOk(c.thunks, index)
    && c.blob == All(RecordBytes, Lowered(plan, indexes))
    && c.resultsSize == 0x10 + StepsSize(plan)
  }

  method CompileStep(c: Compiled, index: map<nat, nat>, s: Step, ghost plan: seq<Step>, ghost indexes: seq<nat>)
    returns (c': Compiled, index': map<nat, nat>, ghost indexes': seq<nat>)
    requires s.Valid() && Emitted(c, index, plan, indexes)
    ensures Emitted(c', index', plan + [s], indexes') && c'.meta == c.meta
  {
    var thunks, i;
    thunks, index', i := FindThunk(c.thunks, index, s.callee);
    var record := EmitStep(s, i);
    var size := SizeOfCaptures(s.captures);
    indexes' := indexes + [i];
    CallAppends(plan, indexes, c.thunks, s, i, thunks);
    LoweredAppends(plan, indexes, s, i);
    SizeAppends(plan, s);
    c' := Compiled(thunks, c.blob + record, c.resultsSize + 16 + size, c.meta);
  }

  lemma CallAppends(plan: seq<Step>, indexes: seq<nat>, thunks: seq<nat>, s: Step, i: nat, more: seq<nat>)
    requires CallsThunks(plan, indexes, thunks) && s.Valid() && i < |more| && more[i] == s.callee
    requires |thunks| <= |more| <= |thunks| + 1 && more[..|thunks|] == thunks
    ensures CallsThunks(plan + [s], indexes + [i], more)
  {
    forall k | 0 <= k < |thunks| ensures more[k] == thunks[k] {
      assert more[..|thunks|][k] == more[k];
    }
  }

  lemma LoweredAppends(plan: seq<Step>, indexes: seq<nat>, s: Step, i: nat)
    requires |indexes| == |plan|
    ensures All(RecordBytes, Lowered(plan + [s], indexes + [i])) ==
            All(RecordBytes, Lowered(plan, indexes)) + RecordBytes(Lower(s, i))
  {
    LoweredSnoc(plan, indexes, s, i);
    AllAppends(RecordBytes, Lowered(plan, indexes), Lower(s, i));
  }

  lemma LoweredSnoc(plan: seq<Step>, indexes: seq<nat>, s: Step, i: nat)
    requires |indexes| == |plan|
    ensures Lowered(plan + [s], indexes + [i]) == Lowered(plan, indexes) + [Lower(s, i)]
  {
  }

  lemma {:induction false} SizeAppends(plan: seq<Step>, s: Step)
    ensures StepsSize(plan + [s]) == StepsSize(plan) + 16 + CapturesSize(s.captures)
  {
    if plan != [] {
      SizeAppends(plan[1..], s);
      assert (plan + [s])[1..] == plan[1..] + [s];
    } else {
      assert [s][1..] == [];
    }
  }

  // The first `k` steps of a scenario are in `done` and `meta`, after what was
  // there before. The first of the rest to run is to write the image.
  ghost predicate SectionTo(section: Section, plan: seq<Step>, before: seq<Description>, done: seq<Step>,
                            meta: seq<Description>, first: bool, k: nat)
  {
    && k <= |section.steps|
    && done + PlanSteps(section.steps[k..], section.initial, first) ==
       plan + PlanSteps(section.steps, section.initial, true)
    && meta + DescribeSteps(section.steps[k..]) == before + DescribeSteps(section.steps)
  }

  function RunAs(s: Step, initial: seq<Byte>, first: bool): Step {
    if first then WithInitial(s, initial) else s
  }

  lemma SectionStarts(section: Section, plan: seq<Step>, before: seq<Description>)
    ensures SectionTo(section, plan, before, plan, before, true, 0)
  {
    assert section.steps[0..] == section.steps;
  }

  lemma SectionStep(section: Section, plan: seq<Step>, before: seq<Description>, done: seq<Step>,
                    meta: seq<Description>, first: bool, k: nat)
    requires k < |section.steps| && SectionTo(section, plan, before, done, meta, first, k)
    ensures var step := section.steps[k];
      SectionTo(section, plan, before, if step.faults then done else done + [RunAs(step, section.initial, first)],
                meta + [Describe(step)], first && step.faults, k + 1)
  {
    assert section.steps[k..][1..] == section.steps[k + 1..];
  }

  lemma SectionEnds(section: Section, plan: seq<Step>, before: seq<Description>, done: seq<Step>,
                    meta: seq<Description>, first: bool)
    requires SectionTo(section, plan, before, done, meta, first, |section.steps|)
    ensures done == plan + PlanSteps(section.steps, section.initial, true)
    ensures meta == before + DescribeSteps(section.steps)
  {
    assert section.steps[|section.steps|..] == [] && done + [] == done && meta + [] == meta;
  }

  lemma RunIsValid(section: Section, k: nat, first: bool)
    requires section.Valid() && k < |section.steps|
    ensures RunAs(section.steps[k], section.initial, first).Valid()
  {
    var s := section.steps[k];
    var w := WithInitial(s, section.initial);
    forall i | 0 <= i < |w.patches| ensures w.patches[i].offset + |w.patches[i].data| <= ARENA_SIZE {
      assert i > 0 ==> w.patches[i] == s.patches[i - 1];
    }
  }

  // A scenario's steps. A step that faults is described and not compiled.
  method CompileSection(section: Section, known: set<nat>, c: Compiled, index: map<nat, nat>,
                        ghost plan: seq<Step>, ghost indexes: seq<nat>)
    returns (ok: bool, c': Compiled, index': map<nat, nat>, ghost indexes': seq<nat>)
    requires section.Valid() && Emitted(c, index, plan, indexes) && |section.initial| <= ARENA_SIZE
    ensures ok <==> forall i :: 0 <= i < |section.steps| ==> section.steps[i].callee in known
    ensures ok ==> Emitted(c', index', plan + PlanSteps(section.steps, section.initial, true), indexes')
    ensures ok ==> c'.meta == c.meta + DescribeSteps(section.steps)
  {
    c', index', indexes' := c, index, indexes;
    var first := true;
    ghost var done := plan;
    var k := 0;
    SectionStarts(section, plan, c.meta);
    while k < |section.steps|
      invariant 0 <= k <= |section.steps|
      invariant Emitted(c', index', done, indexes')
      invariant SectionTo(section, plan, c.meta, done, c'.meta, first, k)
      invariant forall i :: 0 <= i < k ==> section.steps[i].callee in known
    {
      var step := section.steps[k];
      if step.callee !in known {
        return false, c', index', indexes';
      }
      SectionStep(section, plan, c.meta, done, c'.meta, first, k);
      c' := c'.(meta := c'.meta + [Describe(step)]);
      if !step.faults {
        RunIsValid(section, k, first);
        var run := RunAs(step, section.initial, first);
        c', index', indexes' := CompileStep(c', index', run, done, indexes');
        done := done + [run];
        first := false;
      }
      k := k + 1;
    }
    SectionEnds(section, plan, c.meta, done, c'.meta, first);
    ok := true;
  }

  ghost predicate CorpusTo(sections: seq<Section>, done: seq<Step>, meta: seq<Description>, k: nat) {
    && k <= |sections| && done + Plan(sections[k..]) == Plan(sections)
    && meta + DescribeAll(sections[k..]) == DescribeAll(sections)
  }

  lemma CorpusStarts(sections: seq<Section>)
    ensures CorpusTo(sections, [], [], 0) && Emitted(Compiled([], [], 0x10, []), map[], [], [])
  {
    assert sections[0..] == sections && Lowered([], []) == [];
  }

  lemma CorpusStep(sections: seq<Section>, done: seq<Step>, meta: seq<Description>, k: nat)
    requires k < |sections| && CorpusTo(sections, done, meta, k)
    ensures CorpusTo(sections, done + PlanSteps(sections[k].steps, sections[k].initial, true),
                     meta + DescribeSteps(sections[k].steps), k + 1)
  {
    assert sections[k..][1..] == sections[k + 1..];
  }

  lemma CorpusEnds(sections: seq<Section>, done: seq<Step>, meta: seq<Description>)
    requires CorpusTo(sections, done, meta, |sections|)
    ensures done == Plan(sections) && meta == DescribeAll(sections)
  {
    assert sections[|sections|..] == [] && done + [] == done && meta + [] == meta;
  }

  // Compiles the sections one after another, and gives up at the first step that
  // calls an export nobody knows.
  method CompileCorpus(sections: seq<Section>, known: set<nat>)
    returns (compiled: Option<Compiled>, ghost indexes: seq<nat>)
    requires AllValid(sections)
    ensures compiled.Some? <==> Knows(known, sections)
    ensures compiled.Some? ==>
              var c, plan := compiled.value, Plan(sections);
              && CallsThunks(plan, indexes, c.thunks)
              && c.blob == All(RecordBytes, Lowered(plan, indexes))
              && c.resultsSize == 0x10 + StepsSize(plan)
              && c.meta == DescribeAll(sections)
  {
    var c, index := Compiled([], [], 0x10, []), map[];
    indexes := [];
    ghost var done: seq<Step> := [];
    var k := 0;
    CorpusStarts(sections);
    while k < |sections|
      invariant 0 <= k <= |sections|
      invariant Emitted(c, index, done, indexes) && CorpusTo(sections, done, c.meta, k)
      invariant Knows(known, sections[..k])
    {
      var ok, more, index', indexes' := CompileSection(sections[k], known, c, index, done, indexes);
      KnowsMore(known, sections, k);
      if !ok {
        return None, indexes;
      }
      CorpusStep(sections, done, c.meta, k);
      done := done + PlanSteps(sections[k].steps, sections[k].initial, true);
      c, index, indexes := more, index', indexes';
      k := k + 1;
    }
    CorpusEnds(sections, done, c.meta);
    assert sections[..k] == sections;
    compiled := Some(c);
  }

  lemma KnowsMore(known: set<nat>, sections: seq<Section>, k: nat)
    requires k < |sections| && Knows(known, sections[..k])
    ensures Knows(known, sections[..k + 1]) <==>
      forall j :: 0 <= j < |sections[k].steps| ==> sections[k].steps[j].callee in known
    ensures Knows(known, sections) ==> Knows(known, sections[..k + 1])
  {
    assert sections[..k + 1] == sections[..k] + [sections[k]];
  }

  // --- Decoding ---

  datatype Decoded = Decoded(done: nat, reports: seq<Report>)

  // Captured ranges by name. A later range of a step takes the name of an
  // earlier one.
  function ByName(cs: seq<Capture>, ranges: seq<seq<Byte>>): map<string, seq<Byte>>
    requires |ranges| == |cs|
  {
    var n := |cs| - 1;
    if cs == [] then map[] else ByName(cs[..n], ranges[..n])[cs[n].name := ranges[n]]
  }

  function ReportOf(d: Description, o: Observation): Report
    requires |o.captured| == |d.captures|
  {
    Ran(if d.void then None else Some(o.r3), if d.wait then Some(o.left) else None, ByName(d.captures, o.captured))
  }

  // The observations a run of described steps makes.
  predicate Fits(meta: seq<Description>, os: seq<Observation>) {
    if meta == [] then os == []
    else if meta[0].faults then Fits(meta[1..], os)
    else os != [] && RangesFit(meta[0].captures, os[0].captured) && Fits(meta[1..], os[1..])
  }

  predicate RangesFit(cs: seq<Capture>, ranges: seq<seq<Byte>>) {
    |ranges| == |cs| && forall i :: 0 <= i < |cs| ==> |ranges[i]| == cs[i].size
  }

  function Reports(meta: seq<Description>, os: seq<Observation>): seq<Report>
    requires Fits(meta, os)
  {
    if meta == [] then []
    else if meta[0].faults then [Faulted] + Reports(meta[1..], os)
    else [ReportOf(meta[0], os[0])] + Reports(meta[1..], os[1..])
  }

  function RunCount(meta: seq<Description>): nat {
    if meta == [] then 0 else (if meta[0].faults then 0 else 1) + RunCount(meta[1..])
  }

  lemma {:induction false} FitsCounts(meta: seq<Description>, os: seq<Observation>)
    requires Fits(meta, os)
    ensures |os| == RunCount(meta)
  {
    if meta != [] {
      FitsCounts(meta[1..], if meta[0].faults then os else os[1..]);
    }
  }

  // A captured range is decoded unless a later one of the step has its name.
  lemma {:induction false} RangeIsDecoded(cs: seq<Capture>, ranges: seq<seq<Byte>>, k: nat)
    requires RangesFit(cs, ranges) && k < |cs| && forall j :: k < j < |cs| ==> cs[j].name != cs[k].name
    ensures cs[k].name in ByName(cs, ranges) && ByName(cs, ranges)[cs[k].name] == ranges[k]
  {
    var n := |cs| - 1;
    if k < n {
      RangeIsDecoded(cs[..n], ranges[..n], k);
    }
  }

  // Where a later one has, it is lost, unless the two happen to be alike.
  lemma SharedNameIsLost(cs: seq<Capture>, ranges: seq<seq<Byte>>, k: nat, last: nat)
    requires RangesFit(cs, ranges) && k < last < |cs| && cs[last].name == cs[k].name && ranges[last] != ranges[k]
    requires forall j :: last < j < |cs| ==> cs[j].name != cs[k].name
    ensures cs[k].name in ByName(cs, ranges) && ByName(cs, ranges)[cs[k].name] != ranges[k]
  {
    RangeIsDecoded(cs, ranges, last);
  }

  function Slice(data: seq<Byte>, from: nat, length: nat): seq<Byte> {
    if from >= |data| then [] else if from + length > |data| then data[from..] else data[from..from + length]
  }

  method DecodeCaptures(data: seq<Byte>, p: nat, cs: seq<Capture>, ghost ranges: seq<seq<Byte>>, ghost rest: seq<Byte>)
    returns (next: nat, captured: map<string, seq<Byte>>)
    ensures p <= |data| && RangesFit(cs, ranges) && data[p..] == All(RangeBytes, ranges) + rest ==>
              next <= |data| && data[next..] == rest && captured == ByName(cs, ranges)
    ensures next == p + CapturesSize(cs)
  {
    ghost var good := p <= |data| && RangesFit(cs, ranges) && data[p..] == All(RangeBytes, ranges) + rest;
    next, captured := p, map[];
    var k := 0;
    assert ranges[0..] == ranges && cs[0..] == cs;
    while k < |cs|
      invariant 0 <= k <= |cs| && next + CapturesSize(cs[k..]) == p + CapturesSize(cs)
      invariant good ==> next <= |data| && data[next..] == All(RangeBytes, ranges[k..]) + rest
      invariant good ==> captured == ByName(cs[..k], ranges[..k])
    {
      if good {
        TakeRange(data, next, ranges, k, rest);
        NamesAppend(cs, ranges, k);
      }
      assert cs[k..][1..] == cs[k + 1..];
      captured := captured[cs[k].name := Slice(data, next, cs[k].size)];
      next, k := next + cs[k].size + Pad(cs[k].size, 8), k + 1;
    }
    if good {
      assert ranges[k..] == [] && ranges[..k] == ranges && cs[..k] == cs;
    }
  }

  lemma TakeRange(data: seq<Byte>, p: nat, ranges: seq<seq<Byte>>, k: nat, rest: seq<Byte>)
    requires p <= |data| && k < |ranges| && data[p..] == All(RangeBytes, ranges[k..]) + rest
    ensures var size := |ranges[k]|;
      && p + size + Pad(size, 8) <= |data| && Slice(data, p, size) == ranges[k]
      && data[p + size + Pad(size, 8)..] == All(RangeBytes, ranges[k + 1..]) + rest
  {
    AllPeels(RangeBytes, ranges, k, rest);
    var pad, more := Zeros(Pad(|ranges[k]|, 8)), All(RangeBytes, ranges[k + 1..]) + rest;
    Regroup(ranges[k], pad, more);
    TakeBytes(data, p, ranges[k], pad + more);
    TakeBytes(data, p + |ranges[k]|, pad, more);
  }

  lemma NamesAppend(cs: seq<Capture>, ranges: seq<seq<Byte>>, k: nat)
    requires |ranges| == |cs| && k < |cs|
    ensures ByName(cs[..k + 1], ranges[..k + 1]) == ByName(cs[..k], ranges[..k])[cs[k].name := ranges[k]]
  {
    assert cs[..k + 1][..k] == cs[..k] && ranges[..k + 1][..k] == ranges[..k];
  }

  // --- Results ---

  // The reports of a results file, or nothing where it is cut short or of
  // another build.
  method Decode(meta: seq<Description>, resultsSize: nat, data: seq<Byte>, ghost os: seq<Observation>)
    returns (decoded: Option<Decoded>)
    ensures IsResults(meta, resultsSize, data, os) ==>
              Fits(meta, os) && decoded == Some(Decoded(|os|, Reports(meta, os)))
    ensures decoded.Some? ==>
              && |data| >= 16 && WordAt(data, 0) == RESULTS_MAGIC && WordAt(data, 4) == VERSION
              && WordAt(data, 8) == decoded.value.done <= RunCount(meta)
              && WordAt(data, 12) <= resultsSize && WordAt(data, 12) <= |data|
  {
    ghost var good := IsResults(meta, resultsSize, data, os);
    if good {
      ResultsStart(meta, resultsSize, data, os);
    }
    if |data| < 16 {
      return None;
    }
    var done, size := WordAt(data, 8), WordAt(data, 12);
    if WordAt(data, 0) != RESULTS_MAGIC || WordAt(data, 4) != VERSION {
      return None;
    }
    var runs := CountRuns(meta);
    if size > resultsSize || size > |data| || done > runs {
      return None;
    }
    var ok, p, out := DecodeSteps(meta, data, done, os, good);
    if !ok || p != size {
      return None;
    }
    decoded := Some(Decoded(done, out));
  }

  // The steps after the header, up to the first of those that run past `done`.
  method DecodeSteps(meta: seq<Description>, data: seq<Byte>, done: nat, ghost os: seq<Observation>, ghost good: bool)
    returns (ok: bool, p: nat, out: seq<Report>)
    requires good ==> DecodedTo(meta, os, data, 0x10, [], 0, 0) && done == |os|
    ensures good ==> ok && p == |data| && out == Reports(meta, os)
  {
    ok, p, out := true, 0x10, [];
    var k, run := 0, 0;
    while k < |meta|
      invariant 0 <= k <= |meta|
      invariant good ==> DecodedTo(meta, os, data, p, out, k, run)
    {
      if good && !meta[k].faults {
        RunsRemain(meta, os, k, run);
      }
      if meta[k].faults {
        if good {
          DecodeFault(meta, os, data, p, out, k, run);
        }
        out := out + [Faulted];
      } else if run == done {
        break;
      } else {
        var next, report;
        ok, next, report := DecodeStep(meta[k], data, p, if run < |os| then Some(os[run]) else None);
        if good {
          DecodeRun(meta, os, data, p, out, k, run);
        }
        if !ok {
          return;
        }
        p, run, out := next, run + 1, out + [report];
      }
      k := k + 1;
    }
    if good {
      DecodeEnds(meta, os, data, p, out, run);
    }
  }

  // What the header of a run's results says.
  lemma ResultsStart(meta: seq<Description>, resultsSize: nat, data: seq<Byte>, os: seq<Observation>)
    requires IsResults(meta, resultsSize, data, os)
    ensures |data| >= 16 && WordAt(data, 0) == RESULTS_MAGIC && WordAt(data, 4) == VERSION
    ensures WordAt(data, 8) == |os| == RunCount(meta) && WordAt(data, 12) == |data| <= resultsSize
    ensures DecodedTo(meta, os, data, 0x10, [], 0, 0)
  {
    ObservationsSize(os);
    HeaderReads(data, os);
    FitsCounts(meta, os);
    DecodeStarts(meta, os, data);
  }

  // The results file of a run of the described steps.
  ghost predicate IsResults(meta: seq<Description>, resultsSize: nat, data: seq<Byte>, os: seq<Observation>) {
    Fits(meta, os) && data == ResultsBytes(os) && |data| <= resultsSize && |data| < TWO32
  }

  method CountRuns(meta: seq<Description>) returns (n: nat)
    ensures n == RunCount(meta)
  {
    n := 0;
    var k := |meta|;
    assert meta[k..] == [];
    while k > 0
      invariant 0 <= k <= |meta| && n == RunCount(meta[k..])
    {
      k := k - 1;
      assert meta[k..][1..] == meta[k + 1..];
      if !meta[k].faults {
        n := n + 1;
      }
    }
    assert meta[0..] == meta;
  }

  lemma {:induction false} ObservationsSize(os: seq<Observation>)
    ensures |All(ObservationBytes, os)| >= 16 * |os|
  {
    if os != [] {
      ObservationsSize(os[1..]);
    }
  }

  lemma HeaderReads(data: seq<Byte>, os: seq<Observation>)
    requires data == ResultsBytes(os) && |data| < TWO32 && |os| < TWO32
    ensures |data| >= 16 && data[16..] == All(ObservationBytes, os)
    ensures WordAt(data, 0) == RESULTS_MAGIC && WordAt(data, 4) == VERSION
    ensures WordAt(data, 8) == |os| && WordAt(data, 12) == |data|
  {
    FourWords(data, RESULTS_MAGIC, VERSION, |os|, 0x10 + |All(ObservationBytes, os)|, All(ObservationBytes, os));
  }

  lemma FourWords(data: seq<Byte>, w: nat, x: nat, y: nat, z: nat, body: seq<Byte>)
    requires w < TWO32 && x < TWO32 && y < TWO32 && z < TWO32
    requires data == Word(w) + Word(x) + Word(y) + Word(z) + body
    ensures |data| == 16 + |body| && data[16..] == body
    ensures WordAt(data, 0) == w && WordAt(data, 4) == x && WordAt(data, 8) == y && WordAt(data, 12) == z
  {
    FourParts(Word(w), Word(x), Word(y), Word(z), body);
    assert data[0..] == data;
    TakeWord(data, 0, w, Word(x) + (Word(y) + (Word(z) + body)));
    TakeWord(data, 4, x, Word(y) + (Word(z) + body));
    TakeWord(data, 8, y, Word(z) + body);
    TakeWord(data, 12, z, body);
  }

  // What is decoded and what is left to decode make up the whole.
  ghost predicate DecodedTo(meta: seq<Description>, os: seq<Observation>, data: seq<Byte>, p: nat, out: seq<Report>,
                            k: nat, run: nat)
  {
    && Fits(meta, os) && k <= |meta| && run <= |os| && p <= |data|
    && data[p..] == All(ObservationBytes, os[run..])
    && Fits(meta[k..], os[run..])
    && out + Reports(meta[k..], os[run..]) == Reports(meta, os)
  }

  lemma DecodeStarts(meta: seq<Description>, os: seq<Observation>, data: seq<Byte>)
    requires Fits(meta, os) && |data| >= 16 && data[16..] == All(ObservationBytes, os)
    ensures DecodedTo(meta, os, data, 16, [], 0, 0)
  {
    assert meta[0..] == meta && os[0..] == os;
  }

  lemma DecodeFault(meta: seq<Description>, os: seq<Observation>, data: seq<Byte>, p: nat, out: seq<Report>, k: nat,
                    run: nat)
    requires k < |meta| && meta[k].faults && DecodedTo(meta, os, data, p, out, k, run)
    ensures DecodedTo(meta, os, data, p, out + [Faulted], k + 1, run)
  {
    assert meta[k..][1..] == meta[k + 1..];
  }

  lemma RunsRemain(meta: seq<Description>, os: seq<Observation>, k: nat, run: nat)
    requires k < |meta| && run <= |os| && !meta[k].faults && Fits(meta[k..], os[run..])
    ensures run < |os| && RangesFit(meta[k].captures, os[run].captured)
  {
    assert meta[k..][0] == meta[k] && os[run..] != [];
  }

  lemma DecodeRun(meta: seq<Description>, os: seq<Observation>, data: seq<Byte>, p: nat, out: seq<Report>, k: nat,
                  run: nat)
    requires k < |meta| && !meta[k].faults && DecodedTo(meta, os, data, p, out, k, run)
    ensures run < |os| && RangesFit(meta[k].captures, os[run].captured)
    ensures data[p..] == ObservationBytes(os[run]) + All(ObservationBytes, os[run + 1..])
    ensures var next := p + |ObservationBytes(os[run])|;
      next <= |data| && DecodedTo(meta, os, data, next, out + [ReportOf(meta[k], os[run])], k + 1, run + 1)
  {
    RunsRemain(meta, os, k, run);
    ReportsPeel(meta, os, out, k, run);
    assert os[run..][1..] == os[run + 1..];
    TakeBytes(data, p, ObservationBytes(os[run]), All(ObservationBytes, os[run + 1..]));
  }

  lemma ReportsPeel(meta: seq<Description>, os: seq<Observation>, out: seq<Report>, k: nat, run: nat)
    requires k < |meta| && run < |os| && !meta[k].faults && Fits(meta[k..], os[run..])
    requires RangesFit(meta[k].captures, os[run].captured)
    ensures Fits(meta[k + 1..], os[run + 1..])
    ensures out + Reports(meta[k..], os[run..]) ==
            out + [ReportOf(meta[k], os[run])] + Reports(meta[k + 1..], os[run + 1..])
  {
    assert meta[k..][1..] == meta[k + 1..] && os[run..][1..] == os[run + 1..];
  }

  lemma DecodeEnds(meta: seq<Description>, os: seq<Observation>, data: seq<Byte>, p: nat, out: seq<Report>, run: nat)
    requires DecodedTo(meta, os, data, p, out, |meta|, run)
    ensures p == |data| && out == Reports(meta, os)
  {
    assert meta[|meta|..] == [] && os[run..] == [] && out + [] == out;
  }

  // One step's results. Without what it saw nothing is known of them.
  method DecodeStep(d: Description, data: seq<Byte>, p: nat, ghost o: Option<Observation>)
    returns (ok: bool, next: nat, report: Report)
    ensures o.Some? && p <= |data| && RangesFit(d.captures, o.value.captured) &&
            ObservationBytes(o.value) <= data[p..] ==>
              ok && next == p + |ObservationBytes(o.value)| && report == ReportOf(d, o.value)
  {
    next, report := p, Faulted;
    if p + 12 > |data| {
      return false, next, report;
    }
    ghost var good := o.Some? && p <= |data| && RangesFit(d.captures, o.value.captured) &&
                      ObservationBytes(o.value) <= data[p..];
    ghost var rest: seq<Byte> := [];
    if good {
      rest := data[p..][|ObservationBytes(o.value)|..];
      ObservationReads(data, p, o.value, rest);
    }
    var r3, left := DoubleAt(data, p), WordAt(data, p + 8);
    var captured;
    next, captured := DecodeCaptures(data, p + 16, d.captures, if o.Some? then o.value.captured else [], rest);
    report := Ran(if d.void then None else Some(r3), if d.wait then Some(left) else None, captured);
    ok := true;
  }

  lemma ObservationReads(data: seq<Byte>, p: nat, o: Observation, rest: seq<Byte>)
    requires p <= |data| && data[p..] == ObservationBytes(o) + rest
    ensures p + 16 <= |data| && DoubleAt(data, p) == o.r3 && WordAt(data, p + 8) == o.left
    ensures data[p + 16..] == All(RangeBytes, o.captured) + rest
    ensures |data| == p + |ObservationBytes(o)| + |rest|
  {
    var ranges := All(RangeBytes, o.captured) + rest;
    assert data[p..] == Double(o.r3) + (Word(o.left) + (Word(0) + ranges));
    TakeDouble(data, p, o.r3, Word(o.left) + (Word(0) + ranges));
    TakeWord(data, p + 8, o.left, Word(0) + ranges);
    TakeWord(data, p + 12, 0, ranges);
  }

  // --- Compiling, running and decoding ---

  // A plan is what the descriptions describe, in order, less the faults.
  predicate Describes(meta: seq<Description>, plan: seq<Step>) {
    if meta == [] then plan == []
    else if meta[0].faults then Describes(meta[1..], plan)
    else plan != [] && plan[0].captures == meta[0].captures && Describes(meta[1..], plan[1..])
  }

  lemma DescribesMore(d: Description, meta: seq<Description>, ran: seq<Step>, plan: seq<Step>)
    requires Describes(meta, plan)
    requires if d.faults then ran == [] else |ran| == 1 && ran[0].captures == d.captures
    ensures Describes([d] + meta, ran + plan)
  {
    assert ([d] + meta)[1..] == meta;
    if d.faults {
      assert ran + plan == plan;
    } else {
      assert (ran + plan)[1..] == plan;
    }
  }

  lemma {:induction false} StepsDescribed(ss: seq<Step>, initial: seq<Byte>, first: bool, meta: seq<Description>,
                                          plan: seq<Step>)
    requires Describes(meta, plan)
    ensures Describes(DescribeSteps(ss) + meta, PlanSteps(ss, initial, first) + plan)
    decreases |ss|
  {
    if ss == [] {
      assert [] + meta == meta && [] + plan == plan;
    } else {
      var ran := if ss[0].faults then [] else [RunAs(ss[0], initial, first)];
      var rest := PlanSteps(ss[1..], initial, first && ss[0].faults);
      StepsDescribed(ss[1..], initial, first && ss[0].faults, meta, plan);
      DescribesMore(Describe(ss[0]), DescribeSteps(ss[1..]) + meta, ran, rest + plan);
      assert [Describe(ss[0])] + (DescribeSteps(ss[1..]) + meta) == DescribeSteps(ss) + meta;
      PlanParts(ss, initial, first);
      assert ran + (rest + plan) == (ran + rest) + plan;
    }
  }

  lemma PlanParts(ss: seq<Step>, initial: seq<Byte>, first: bool)
    requires ss != []
    ensures PlanSteps(ss, initial, first) ==
            (if ss[0].faults then [] else [RunAs(ss[0], initial, first)])
            + PlanSteps(ss[1..], initial, first && ss[0].faults)
  {
  }

  lemma {:induction false} CorpusDescribed(sections: seq<Section>)
    ensures Describes(DescribeAll(sections), Plan(sections))
  {
    if sections != [] {
      CorpusDescribed(sections[1..]);
      StepsDescribed(sections[0].steps, sections[0].initial, true, DescribeAll(sections[1..]), Plan(sections[1..]));
    }
  }

  // What running a plan observes fits its descriptions and its results size.
  lemma {:induction false} RunFits<W>(ex: Exports<W>, m: Machine<W>, meta: seq<Description>, plan: seq<Step>)
    requires Describes(meta, plan) && forall i :: 0 <= i < |plan| ==> plan[i].Valid()
    ensures Fits(meta, RunSteps(ex, m, plan).1)
    decreases |meta|
  {
    if meta != [] {
      if meta[0].faults {
        RunFits(ex, m, meta[1..], plan);
      } else {
        var (m', o) := RunStep(ex, m, plan[0]);
        RunFits(ex, m', meta[1..], plan[1..]);
        assert RunSteps(ex, m, plan).1[1..] == RunSteps(ex, m', plan[1..]).1;
      }
    }
  }

  lemma {:induction false} RunSize<W>(ex: Exports<W>, m: Machine<W>, plan: seq<Step>)
    requires forall i :: 0 <= i < |plan| ==> plan[i].Valid()
    ensures |All(ObservationBytes, RunSteps(ex, m, plan).1)| == StepsSize(plan)
    decreases |plan|
  {
    if plan != [] {
      var (m', o) := RunStep(ex, m, plan[0]);
      RunSize(ex, m', plan[1..]);
      assert RunSteps(ex, m, plan).1[1..] == RunSteps(ex, m', plan[1..]).1;
      RangesSize(plan[0].captures, o.captured);
    }
  }

  lemma {:induction false} RangesSize(cs: seq<Capture>, ranges: seq<seq<Byte>>)
    requires RangesFit(cs, ranges)
    ensures |All(RangeBytes, ranges)| == CapturesSize(cs)
  {
    if cs != [] {
      RangesSize(cs[1..], ranges[1..]);
    }
  }

  // --- A plan's run is the corpus's ---

  // A step of a plan run directly, with the image it may have to write.
  lemma StepRuns<W>(ex: Exports<W>, m: Machine<W>, s: Step, initial: seq<Byte>, first: bool) returns (x: Moment<W>)
    requires s.Valid() && |s.patches| + 1 < TWO32 && |initial| <= ARENA_SIZE
    ensures RunAs(s, initial, first).Valid()
    ensures var (after, o) := RunStep(ex, m, RunAs(s, initial, first));
      StepIsRun(ex, m, s, if first then Some(initial) else None, x, after, ReportOf(Describe(s), o))
  {
    RunIsValid(Section(initial, [s]), 0, first);
    var run := RunAs(s, initial, first);
    var arrived := m.(arena := Patched(m.arena, run.patches));
    StepSees(m.arena, s, initial, first);
    SlotsAreArgs(m.vars, s.args);
    var (r3, called) := ex.call(s.callee, ArgSlots(m.vars, s.args), arrived);
    var left, waited, sleeps := NO_WAIT, called, 0;
    if s.wait.Some? {
      sleeps := WaitedAfter(ex, called, s.wait.value, WAIT_STEPS);
      left, waited := Waited(ex, called, s.wait.value, WAIT_STEPS).0, Waited(ex, called, s.wait.value, WAIT_STEPS).1;
    }
    x := Moment(arrived, ArgSlots(m.vars, s.args), r3, called, sleeps, left, waited);
    StoresRun(waited.vars, waited.arena, r3, s.stores);
    CapturesRun(waited.arena, s.captures);
  }

  lemma StepSees(a: Arena, s: Step, initial: seq<Byte>, first: bool)
    requires PatchesFit(s.patches) && |initial| <= ARENA_SIZE && PatchesFit(RunAs(s, initial, first).patches)
    ensures CallSees(a, Patched(a, RunAs(s, initial, first).patches), if first then Some(initial) else None, s.patches)
  {
    if first {
      ImageIsSeen(a, initial, s.patches);
      assert RunAs(s, initial, first).patches[1..] == s.patches;
    } else {
      PatchesAreSeen(a, s.patches);
    }
  }

  lemma SlotsAreArgs(vars: Variables, args: seq<Arg>)
    requires forall i :: 0 <= i < |args| ==> ArgFits(args[i])
    ensures AreSlots(vars, args, ArgSlots(vars, args))
  {
    forall i | 0 <= i < MAX_ARGS && i < |args| ensures IsArg(vars, args[i], ArgSlots(vars, args)[i]) {
      ArgIsValue(vars, args[i]);
    }
  }

  lemma StoresRun(vars: Variables, a: Arena, r3: Word64, ss: seq<Store>)
    requires forall i :: 0 <= i < |ss| ==> StoreFits(ss[i])
    ensures StoresLeave(vars, Stored(vars, a, r3, ss), a, r3, ss)
  {
    forall v: nat | v < VARIABLES ensures VariableIs(vars, Stored(vars, a, r3, ss), a, r3, ss, v) {
      StoredVariable(vars, a, r3, ss, v);
    }
  }

  lemma CapturesRun(a: Arena, cs: seq<Capture>)
    requires forall i :: 0 <= i < |cs| ==> cs[i].offset + cs[i].size <= ARENA_SIZE
    ensures AreCaptured(a, cs, ByName(cs, Captured(a, cs)))
  {
    var ranges := Captured(a, cs);
    forall k: nat | k < |cs| && NamesLast(cs, k, cs[k].name)
      ensures cs[k].name in ByName(cs, ranges) && ByName(cs, ranges)[cs[k].name] == ranges[k]
    {
      RangeIsDecoded(cs, ranges, k);
    }
    NamedByLast(cs, ranges);
  }

  lemma {:induction false} NamedByLast(cs: seq<Capture>, ranges: seq<seq<Byte>>)
    requires |ranges| == |cs|
    ensures forall name :: name in ByName(cs, ranges) ==> exists k: nat :: NamesLast(cs, k, name)
  {
    if cs != [] {
      var n := |cs| - 1;
      NamedByLast(cs[..n], ranges[..n]);
      forall name | name in ByName(cs, ranges) ensures exists k: nat :: NamesLast(cs, k, name) {
        if name == cs[n].name {
          assert NamesLast(cs, n, name);
        } else {
          assert name in ByName(cs[..n], ranges[..n]);
          var k: nat :| NamesLast(cs[..n], k, name);
          assert NamesLast(cs, k, name);
        }
      }
    }
  }

  ghost predicate StepsFit(ss: seq<Step>) {
    forall i :: 0 <= i < |ss| ==> ss[i].Valid() && |ss[i].patches| + 1 < TWO32
  }

  ghost predicate PlanFits(plan: seq<Step>) {
    forall i :: 0 <= i < |plan| ==> plan[i].Valid()
  }

  lemma {:induction false} PlanStepsFit(ss: seq<Step>, initial: seq<Byte>, first: bool)
    requires StepsFit(ss) && |initial| <= ARENA_SIZE
    ensures PlanFits(PlanSteps(ss, initial, first))
  {
    if ss != [] {
      PlanStepsFit(ss[1..], initial, first && ss[0].faults);
      RunIsValid(Section(initial, ss), 0, first);
    }
  }

  // The plan `all`, of a scenario's steps and then `plan`, runs as the steps do
  // from `m` to `next` and then as `plan` does.
  ghost predicate SplitsAt<W(!new)>(ex: Exports<W>, m: Machine<W>, ss: seq<Step>, image: Option<seq<Byte>>,
                                    next: Machine<W>, all: seq<Step>, meta: seq<Description>, plan: seq<Step>)
    requires PlanFits(all) && PlanFits(plan)
  {
    var (end, os) := RunSteps(ex, m, all);
    var (last, more) := RunSteps(ex, next, plan);
    && Fits(DescribeSteps(ss) + meta, os) && Fits(meta, more) && end == last
    && var reports := Reports(DescribeSteps(ss) + meta, os);
       && |ss| <= |reports| && SectionIsRun(ex, m, ss, image, next, reports[..|ss|])
       && reports[|ss|..] == Reports(meta, more)
  }

  lemma {:induction false} SectionRuns<W(!new)>(ex: Exports<W>, m: Machine<W>, ss: seq<Step>, initial: seq<Byte>,
                                                first: bool, meta: seq<Description>, plan: seq<Step>)
    returns (next: Machine<W>)
    requires StepsFit(ss) && |initial| <= ARENA_SIZE && PlanFits(plan) && Describes(meta, plan)
    ensures PlanFits(PlanSteps(ss, initial, first) + plan)
    ensures SplitsAt(ex, m, ss, if first then Some(initial) else None, next, PlanSteps(ss, initial, first) + plan,
                     meta, plan)
    decreases |ss|
  {
    var all, image := PlanSteps(ss, initial, first) + plan, if first then Some(initial) else None;
    PlanStepsFit(ss, initial, first);
    StepsDescribed(ss, initial, first, meta, plan);
    RunFits(ex, m, DescribeSteps(ss) + meta, all);
    if ss == [] {
      assert all == plan && DescribeSteps(ss) + meta == meta;
      next := m;
    } else if ss[0].faults {
      next := SectionRuns(ex, m, ss[1..], initial, first, meta, plan);
      FaultRuns(ex, m, ss, image, next, all, meta, plan);
    } else {
      PlanPeels(ss, initial, first, plan);
      next := SectionRuns(ex, RunStep(ex, m, all[0]).0, ss[1..], initial, false, meta, plan);
      var x := StepRuns(ex, m, ss[0], initial, first);
      StepThenRuns(ex, m, ss, image, x, next, all, meta, plan);
    }
  }

  lemma PlanPeels(ss: seq<Step>, initial: seq<Byte>, first: bool, plan: seq<Step>)
    requires ss != [] && !ss[0].faults
    ensures var all := PlanSteps(ss, initial, first) + plan;
      all != [] && all[0] == RunAs(ss[0], initial, first) && all[1..] == PlanSteps(ss[1..], initial, false) + plan
  {
    FrontOf(RunAs(ss[0], initial, first), PlanSteps(ss[1..], initial, false), plan);
  }

  lemma FaultRuns<W(!new)>(ex: Exports<W>, m: Machine<W>, ss: seq<Step>, image: Option<seq<Byte>>, next: Machine<W>,
                           all: seq<Step>, meta: seq<Description>, plan: seq<Step>)
    requires ss != [] && ss[0].faults && PlanFits(all) && PlanFits(plan)
    requires SplitsAt(ex, m, ss[1..], image, next, all, meta, plan)
    ensures SplitsAt(ex, m, ss, image, next, all, meta, plan)
  {
    var os := RunSteps(ex, m, all).1;
    DescribedParts(ss, meta);
    var reports, rest := Reports(DescribeSteps(ss) + meta, os), Reports(DescribeSteps(ss[1..]) + meta, os);
    PastFirst(Faulted, rest, |ss[1..]|);
    assert reports == [Faulted] + rest;
  }

  lemma DescribedParts(ss: seq<Step>, meta: seq<Description>)
    requires ss != []
    ensures (DescribeSteps(ss) + meta)[0] == Describe(ss[0])
    ensures (DescribeSteps(ss) + meta)[1..] == DescribeSteps(ss[1..]) + meta
  {
    FrontOf(Describe(ss[0]), DescribeSteps(ss[1..]), meta);
  }

  lemma FrontOf<T>(x: T, s: seq<T>, t: seq<T>)
    ensures ([x] + s + t)[0] == x && ([x] + s + t)[1..] == s + t
  {
  }

  // What is left of the first `n` elements, and what comes after them, past the
  // first.
  lemma PastFirst<T>(x: T, s: seq<T>, n: nat)
    requires n <= |s|
    ensures |[x] + s| == |s| + 1 && ([x] + s)[..n + 1][0] == x && ([x] + s)[..n + 1][1..] == s[..n]
    ensures ([x] + s)[n + 1..] == s[n..]
  {
  }

  lemma StepThenRuns<W(!new)>(ex: Exports<W>, m: Machine<W>, ss: seq<Step>, image: Option<seq<Byte>>, x: Moment<W>,
                              next: Machine<W>, all: seq<Step>, meta: seq<Description>, plan: seq<Step>)
    requires ss != [] && !ss[0].faults && all != [] && PlanFits(all) && PlanFits(plan)
    requires all[0].captures == ss[0].captures
    requires StepIsRun(ex, m, ss[0], image, x, RunStep(ex, m, all[0]).0,
                       ReportOf(Describe(ss[0]), RunStep(ex, m, all[0]).1))
    requires SplitsAt(ex, RunStep(ex, m, all[0]).0, ss[1..], None, next, all[1..], meta, plan)
    ensures SplitsAt(ex, m, ss, image, next, all, meta, plan)
  {
    var (m', o) := RunStep(ex, m, all[0]);
    var os := RunSteps(ex, m', all[1..]).1;
    RunsOne(ex, m, all);
    ReportsOne(ss, meta, o, os);
    var report, rest := ReportOf(Describe(ss[0]), o), Reports(DescribeSteps(ss[1..]) + meta, os);
    PastFirst(report, rest, |ss[1..]|);
    SectionRunsOne(ex, m, ss, image, x, m', next, ([report] + rest)[..|ss|]);
  }

  lemma ReportsOne(ss: seq<Step>, meta: seq<Description>, o: Observation, os: seq<Observation>)
    requires ss != [] && !ss[0].faults && RangesFit(ss[0].captures, o.captured)
    requires Fits(DescribeSteps(ss[1..]) + meta, os)
    ensures Fits(DescribeSteps(ss) + meta, [o] + os)
    ensures Reports(DescribeSteps(ss) + meta, [o] + os) ==
            [ReportOf(Describe(ss[0]), o)] + Reports(DescribeSteps(ss[1..]) + meta, os)
  {
    DescribedParts(ss, meta);
    assert ([o] + os)[1..] == os;
  }

  lemma SectionRunsOne<W(!new)>(ex: Exports<W>, m: Machine<W>, ss: seq<Step>, image: Option<seq<Byte>>, x: Moment<W>,
                                mid: Machine<W>, next: Machine<W>, reports: seq<Report>)
    requires ss != [] && !ss[0].faults && reports != []
    requires StepIsRun(ex, m, ss[0], image, x, mid, reports[0])
    requires SectionIsRun(ex, mid, ss[1..], None, next, reports[1..])
    ensures SectionIsRun(ex, m, ss, image, next, reports)
  {
  }

  lemma RunsOne<W>(ex: Exports<W>, m: Machine<W>, all: seq<Step>)
    requires all != [] && PlanFits(all)
    ensures var (m', o) := RunStep(ex, m, all[0]);
      var (end, os) := RunSteps(ex, m', all[1..]);
      RunSteps(ex, m, all) == (end, [o] + os) && ([o] + os)[1..] == os
      && RangesFit(all[0].captures, o.captured)
  {
  }

  // The plan of a corpus, run directly, is the corpus's run.
  lemma {:induction false} PlanRuns<W(!new)>(ex: Exports<W>, m: Machine<W>, sections: seq<Section>)
    requires AllValid(sections)
    ensures PlanFits(Plan(sections))
    ensures var (end, os) := RunSteps(ex, m, Plan(sections));
      Fits(DescribeAll(sections), os) && CorpusIsRun(ex, m, sections, end, Reports(DescribeAll(sections), os))
    decreases |sections|
  {
    if sections != [] {
      var section, rest := sections[0], sections[1..];
      assert section.Valid();
      PlanRuns(ex, m, rest);
      CorpusDescribed(rest);
      var next := SectionRuns(ex, m, section.steps, section.initial, true, DescribeAll(rest), Plan(rest));
      PlanRuns(ex, next, rest);
    }
  }

  // A corpus of known exports, compiled, run by the executor and decoded, does
  // to the machine what running it does and reports what that does. The results
  // file is of the size the compiler gave.
  method RunCorpus<W(!new)>(sections: seq<Section>, known: set<nat>, ex: Exports<W>, machine: Machine<W>)
    returns (decoded: Option<Decoded>, m: Machine<W>)
    requires AllValid(sections) && 0x10 + StepsSize(Plan(sections)) < TWO32
    ensures decoded.Some? <==> Knows(known, sections)
    ensures decoded.Some? ==>
              var plan, meta := Plan(sections), DescribeAll(sections);
              && (forall i :: 0 <= i < |plan| ==> plan[i].Valid())
              && var (end, os) := RunSteps(ex, machine, plan);
                 m == end && Fits(meta, os) && decoded.value == Decoded(|plan|, Reports(meta, os))
    ensures decoded.Some? ==> CorpusIsRun(ex, machine, sections, m, decoded.value.reports)
  {
    var compiled, indexes := CompileCorpus(sections, known);
    if compiled == None {
      return None, machine;
    }
    var c := compiled.value;
    CorpusRuns(sections, ex, machine);
    PlanRuns(ex, machine, sections);
    decoded, m := RunCompiled(c, ex, machine, Plan(sections), indexes);
  }

  // A compiled corpus executed, and its results decoded.
  method RunCompiled<W>(c: Compiled, ex: Exports<W>, machine: Machine<W>, ghost plan: seq<Step>,
                        ghost indexes: seq<nat>)
    returns (decoded: Option<Decoded>, m: Machine<W>)
    requires CallsThunks(plan, indexes, c.thunks) && |plan| < TWO32
    requires c.blob == All(RecordBytes, Lowered(plan, indexes)) && RunCount(c.meta) == |plan|
    requires var os := RunSteps(ex, machine, plan).1; IsResults(c.meta, c.resultsSize, ResultsBytes(os), os)
    ensures var (end, os) := RunSteps(ex, machine, plan);
      m == end && decoded == Some(Decoded(|plan|, Reports(c.meta, os)))
  {
    var count := CountRuns(c.meta);
    var cursor, results;
    cursor, m, results := Execute(ex, c.thunks, c.blob, count, machine, plan, indexes);
    decoded := Decode(c.meta, c.resultsSize, results, RunSteps(ex, machine, plan).1);
  }

  // What running a corpus observes is as its descriptions say, and of the size
  // the compiler gives.
  lemma CorpusRuns<W>(sections: seq<Section>, ex: Exports<W>, machine: Machine<W>)
    requires forall i :: 0 <= i < |Plan(sections)| ==> Plan(sections)[i].Valid()
    requires 0x10 + StepsSize(Plan(sections)) < TWO32
    ensures var plan, meta := Plan(sections), DescribeAll(sections);
      var os := RunSteps(ex, machine, plan).1;
      && RunCount(meta) == |os| == |plan| && Fits(meta, os)
      && IsResults(meta, 0x10 + StepsSize(plan), ResultsBytes(os), os)
      && 16 * |plan| <= StepsSize(plan)
  {
    var plan, meta := Plan(sections), DescribeAll(sections);
    var os := RunSteps(ex, machine, plan).1;
    RunSize(ex, machine, plan);
    CorpusDescribed(sections);
    RunFits(ex, machine, meta, plan);
    ResultsOf(meta, os, StepsSize(plan));
  }

  lemma ResultsOf(meta: seq<Description>, os: seq<Observation>, size: nat)
    requires Fits(meta, os) && |All(ObservationBytes, os)| == size && 0x10 + size < TWO32
    ensures IsResults(meta, 0x10 + size, ResultsBytes(os), os)
    ensures RunCount(meta) == |os| && 16 * |os| <= size
  {
    ObservationsSize(os);
    FitsCounts(meta, os);
    HeaderSize(|os|, All(ObservationBytes, os));
  }

  lemma HeaderSize(count: nat, body: seq<Byte>)
    ensures |WithHeader(count, body)| == 0x10 + |body|
  {
  }

  // --- Laying a scenario out ---

  // A range a scenario has laid out.
  datatype Range = Range(offset: nat, size: nat)

  class Scenario {
    const fill: Byte
    var used: nat
    var initial: seq<Byte>
    var pending: seq<Patch>
    var steps: seq<Step>

    ghost predicate Valid()
      reads this
    {
      && |initial| == used <= ARENA_SIZE
      && (forall i :: 0 <= i < |pending| ==> pending[i].offset + |pending[i].data| <= used)
      && Section(initial, steps).Valid()
    }

    constructor (fill: Byte)
      ensures Valid() && this.fill == fill && used == 0 && steps == [] && pending == []
    {
      this.fill := fill;
      used, initial, pending, steps := 0, [], [], [];
    }

    // Lays out `size` bytes, aligned to eight and after all laid out before,
    // holding `data` and then a fill. Nothing changes where there is no room.
    method Alloc(size: nat, data: seq<Byte>, rest: Option<Byte>) returns (range: Option<Range>)
      requires Valid()
      modifies `used, `initial
      ensures Valid()
      ensures range.Some? <==> old(used) + Pad(old(used), 8) + size <= ARENA_SIZE && |data| <= size
      ensures range == None ==> used == old(used) && initial == old(initial)
      ensures range.Some? ==>
                var r, value := range.value, if rest.Some? then rest.value else fill;
                && r == Range(old(used) + Pad(old(used), 8), size) && used == r.offset + size && r.offset % 8 == 0
                && initial[..old(used)] == old(initial)
                && (forall i :: old(used) <= i < r.offset ==> initial[i] == fill)
                && initial[r.offset..r.offset + |data|] == data
                && (forall i :: r.offset + |data| <= i < used ==> initial[i] == value)
    {
      var offset := used + Pad(used, 8);
      if offset + size > ARENA_SIZE || |data| > size {
        return None;
      }
      AlignedUp(used);
      var value := if rest.Some? then rest.value else fill;
      initial := initial + seq(offset - |initial|, _ => fill) + data + seq(size - |data|, _ => value);
      used := offset + size;
      range := Some(Range(offset, size));
    }

    // Writes data to a range before the next call that runs.
    method Write(range: Range, data: seq<Byte>) returns (ok: bool)
      requires Valid() && range.offset + range.size <= used
      modifies `pending
      ensures Valid() && ok == (|data| <= range.size)
      ensures pending == if ok then old(pending) + [Patch(range.offset, data)] else old(pending)
    {
      if |data| > range.size {
        return false;
      }
      pending := pending + [Patch(range.offset, data)];
      ok := true;
    }

    // Adds a call with what is pending. What a step that faults was to write is
    // left for the next.
    method Call(callee: nat, args: seq<Arg>, wait: Option<nat>, captures: seq<Capture>, stores: seq<Store>,
                faults: bool, void: bool)
      returns (ok: bool)
      requires Valid() && |pending| + 1 < TWO32
      requires |args| <= MAX_ARGS ==> Step(callee, args, [], wait, captures, stores, faults, void).Valid()
      modifies `pending, `steps
      ensures Valid() && ok == (|args| <= MAX_ARGS)
      ensures steps == if ok then old(steps) + [Step(callee, args, old(pending), wait, captures, stores, faults, void)]
                       else old(steps)
      ensures pending == if ok && !faults then [] else old(pending)
    {
      if |args| > MAX_ARGS {
        return false;
      }
      steps := steps + [Step(callee, args, pending, wait, captures, stores, faults, void)];
      if !faults {
        pending := [];
      }
      ok := true;
    }
  }

  lemma AlignedUp(n: nat)
    ensures (n + Pad(n, 8)) % 8 == 0
  {
  }
}
