// Requests to relaunch or reset the title: each takes a number, queues on one
// recursive lock, and is dropped if a newer one came while it waited
// (emulator.cc). A state machine over the counter, the lock, the flag and where
// each request is.
module Relaunch {
  // A request, by its number. A relaunch that fails resets from inside, which
  // takes a second number.
  datatype Request =
    | Waiting(number: nat, reset: bool) // for the lock
    | Checking(number: nat) // a relaunch that has the lock
    | Relaunching(number: nat)
    | Failed(number: nat) // about to look for a newer request
    | Renewing(number: nat) // about to reset from inside
    | NestedReset(number: nat, inner: nat)
    | Resetting(number: nat)
    | LaunchWaiting // a plain launch, which has no number
    | Launching
    | Skipped(number: nat)
    | Done(number: nat, inner: nat)
    | Launched
  {
    // Whether the request has the lock.
    predicate Holds() {
      Checking? || Relaunching? || Failed? || Renewing? || NestedReset? || Resetting? || Launching?
    }

    predicate Over() {
      Skipped? || Done? || Launched?
    }

    // Whether it is between titles.
    predicate TearsDown() {
      Relaunching? || Failed? || Renewing? || NestedReset? || Resetting?
    }

    predicate Has(n: nat) {
      match this
      case LaunchWaiting => false
      case Launching => false
      case Launched => false
      case NestedReset(number, inner) => n == number || n == inner
      case Done(number, inner) => n == number || n == inner
      case _ => n == this.number
    }
  }

  datatype State = State(counter: nat, relaunching: bool, depth: nat, requests: seq<Request>) {
    predicate At(i: nat, r: Request) {
      i < |requests| && requests[i] == r
    }

    function With(i: nat, r: Request): State
      requires i < |requests|
    {
      this.(requests := requests[i := r])
    }
  }

  ghost predicate Init(s: State) {
    s == State(0, false, 0, [])
  }

  // --- The steps ---

  // A request takes its number before it has the lock.
  ghost predicate Arrives(s: State, n: State, reset: bool) {
    n == s.(counter := s.counter + 1, requests := s.requests + [Waiting(s.counter + 1, reset)])
  }

  ghost predicate LaunchArrives(s: State, n: State) {
    n == s.(requests := s.requests + [LaunchWaiting])
  }

  // A request gets the lock. A reset raises the flag under it at once.
  ghost predicate Locks(s: State, n: State, i: nat) {
    && i < |s.requests| && s.depth == 0
    && match s.requests[i]
       case Waiting(k, reset) =>
         if reset then n == s.With(i, Resetting(k)).(depth := 1, relaunching := true)
         else n == s.With(i, Checking(k)).(depth := 1)
       case LaunchWaiting => n == s.With(i, Launching).(depth := 1)
       case _ => false
  }

  // A relaunch starts, or is skipped for a newer request.
  ghost predicate Decides(s: State, n: State, i: nat) {
    && i < |s.requests| && s.requests[i].Checking?
    && var k := s.requests[i].number;
       if k != s.counter then n == s.With(i, Skipped(k)).(depth := 0)
       else n == s.With(i, Relaunching(k)).(relaunching := true)
  }

  ghost predicate Succeeds(s: State, n: State, i: nat) {
    && i < |s.requests| && s.requests[i].Relaunching?
    && var k := s.requests[i].number; n == s.With(i, Done(k, k)).(relaunching := false, depth := 0)
  }

  ghost predicate Fails(s: State, n: State, i: nat) {
    && i < |s.requests| && s.requests[i].Relaunching?
    && n == s.With(i, Failed(s.requests[i].number))
  }

  // A failed relaunch resets, or leaves that to a newer request, which finds the
  // flag up.
  ghost predicate FailDecides(s: State, n: State, i: nat) {
    && i < |s.requests| && s.requests[i].Failed?
    && var k := s.requests[i].number;
       if k == s.counter then n == s.With(i, Renewing(k)) else n == s.With(i, Done(k, k)).(depth := 0)
  }

  // ResetTitle from inside takes a number and the lock once more.
  ghost predicate FailResets(s: State, n: State, i: nat) {
    && i < |s.requests| && s.requests[i].Renewing?
    && n == s.With(i, NestedReset(s.requests[i].number, s.counter + 1)).(
              counter := s.counter + 1, depth := s.depth + 1, relaunching := true)
  }

  // A reset ends, and with a nested one its relaunch.
  ghost predicate ResetEnds(s: State, n: State, i: nat) {
    && i < |s.requests|
    && match s.requests[i]
       case Resetting(k) => n == s.With(i, Done(k, k)).(relaunching := false, depth := 0)
       case NestedReset(k, inner) => s.depth == 2 && n == s.With(i, Done(k, inner)).(relaunching := false, depth := 0)
       case _ => false
  }

  ghost predicate LaunchEnds(s: State, n: State, i: nat) {
    s.At(i, Launching) && n == s.With(i, Launched).(depth := 0)
  }

  ghost predicate RequestStep(s: State, n: State, i: nat) {
    || Locks(s, n, i) || Decides(s, n, i) || Succeeds(s, n, i) || Fails(s, n, i) || FailDecides(s, n, i)
    || FailResets(s, n, i) || ResetEnds(s, n, i) || LaunchEnds(s, n, i)
  }

  ghost predicate Step(s: State, n: State) {
    Arrives(s, n, false) || Arrives(s, n, true) || LaunchArrives(s, n) || exists i: nat :: RequestStep(s, n, i)
  }

  // --- The invariant ---

  // One request at a time has the lock, twice where it resets from inside.
  ghost predicate LockOk(s: State) {
    && (forall i, j :: 0 <= i < j < |s.requests| ==> !(s.requests[i].Holds() && s.requests[j].Holds()))
    && (forall i :: 0 <= i < |s.requests| && s.requests[i].Holds() ==>
          s.depth == if s.requests[i].NestedReset? then 2 else 1)
    && (s.depth > 0 ==> exists i :: 0 <= i < |s.requests| && s.requests[i].Holds())
  }

  // A request that waits for the lock, or has just got it, with the newest
  // number.
  ghost predicate NewestWaits(s: State) {
    exists i :: 0 <= i < |s.requests| && IsNewest(s, s.requests[i])
  }

  predicate IsNewest(s: State, r: Request) {
    (r.Waiting? || r.Checking?) && r.number == s.counter
  }

  // The flag is up only while a title is torn down or the newest request is yet
  // to run, which takes it down.
  ghost predicate FlagOk(s: State) {
    s.relaunching ==> (exists i :: 0 <= i < |s.requests| && s.requests[i].TearsDown()) || NewestWaits(s)
  }

  // It is up while one is.
  ghost predicate FlagCovers(s: State) {
    forall i :: 0 <= i < |s.requests| && s.requests[i].TearsDown() ==> s.relaunching
  }

  // A relaunch that is not the newest any more has a newer one waiting.
  ghost predicate ReplacedOk(s: State) {
    forall i :: 0 <= i < |s.requests| && MayBeReplaced(s.requests[i]) ==>
      s.requests[i].number == s.counter || NewestWaits(s)
  }

  predicate MayBeReplaced(r: Request) {
    r.Relaunching? || r.Failed? || r.Renewing?
  }

  // Each number up to the counter is some request's, and none is above it. What
  // was skipped is not the newest.
  ghost predicate NumbersOk(s: State) {
    && (forall m: nat :: 0 < m <= s.counter ==> Taken(s, m))
    && (forall i, m: nat :: 0 <= i < |s.requests| && s.requests[i].Has(m) ==> m <= s.counter)
    && (forall i :: 0 <= i < |s.requests| && s.requests[i].Skipped? ==> s.requests[i].number < s.counter)
  }

  ghost predicate Taken(s: State, m: nat) {
    exists i :: 0 <= i < |s.requests| && s.requests[i].Has(m)
  }

  ghost predicate Invariant(s: State) {
    LockOk(s) && FlagOk(s) && FlagCovers(s) && ReplacedOk(s) && NumbersOk(s)
  }

  // --- Each step keeps it ---

  lemma ArrivesHolds(s: State, n: State)
    requires Invariant(s) && (Arrives(s, n, false) || Arrives(s, n, true) || LaunchArrives(s, n))
    ensures Invariant(n)
  {
    var i := |s.requests|;
    assert forall j :: 0 <= j < i ==> n.requests[j] == s.requests[j];
    assert n.counter == s.counter + 1 ==> IsNewest(n, n.requests[i]) && n.requests[i].Has(n.counter);
    Grows(s, n);
  }

  // Numbers taken stay taken where requests only arrive.
  lemma Grows(s: State, n: State)
    requires NumbersOk(s) && |s.requests| <= |n.requests|
    requires forall j :: 0 <= j < |s.requests| ==> n.requests[j] == s.requests[j]
    ensures forall m: nat :: 0 < m <= s.counter ==> Taken(n, m)
  {
    forall m: nat | 0 < m <= s.counter ensures Taken(n, m) {
      assert Taken(s, m);
      var j :| 0 <= j < |s.requests| && s.requests[j].Has(m);
      assert n.requests[j].Has(m);
    }
  }

  // One request moves on, keeping its number.
  ghost predicate Moves(s: State, n: State, i: nat) {
    && i < |s.requests| == |n.requests| && n.requests == s.requests[i := n.requests[i]]
    && forall m: nat :: s.requests[i].Has(m) ==> n.requests[i].Has(m)
  }

  lemma StepMoves(s: State, n: State, i: nat)
    requires RequestStep(s, n, i)
    ensures Moves(s, n, i)
  {
  }

  // The lock passes from free to one request, stays or is given up.
  lemma LockStep(s: State, n: State, i: nat)
    requires LockOk(s) && RequestStep(s, n, i)
    ensures LockOk(n)
  {
    StepMoves(s, n, i);
    assert s.requests[i].Holds() || s.depth == 0;
    forall j | 0 <= j < |n.requests| && j != i ensures n.requests[j] == s.requests[j] && !s.requests[j].Holds() {
      assert n.requests[j] == s.requests[j];
    }
    assert n.depth > 0 ==> n.requests[i].Holds();
  }

  lemma NumbersStep(s: State, n: State, i: nat)
    requires NumbersOk(s) && RequestStep(s, n, i)
    ensures NumbersOk(n)
  {
    StepMoves(s, n, i);
    forall m: nat | 0 < m <= n.counter ensures Taken(n, m) {
      if m <= s.counter {
        assert Taken(s, m);
        var j :| 0 <= j < |s.requests| && s.requests[j].Has(m);
        assert n.requests[j].Has(m);
      } else {
        assert n.requests[i].Has(m);
      }
    }
    NumbersBounded(s, n, i);
  }

  lemma NumbersBounded(s: State, n: State, i: nat)
    requires NumbersOk(s) && RequestStep(s, n, i)
    ensures forall j, m: nat :: 0 <= j < |n.requests| && n.requests[j].Has(m) ==> m <= n.counter
    ensures forall j :: 0 <= j < |n.requests| && n.requests[j].Skipped? ==> n.requests[j].number < n.counter
  {
    StepMoves(s, n, i);
    forall j, m: nat | 0 <= j < |n.requests| && n.requests[j].Has(m) ensures m <= n.counter {
      assert m <= s.counter ==> m <= n.counter;
      assert j != i ==> s.requests[j].Has(m);
      assert j == i && !s.requests[i].Has(m) ==> FailResets(s, n, i);
    }
    if Decides(s, n, i) {
      assert s.requests[i].Has(s.requests[i].number);
    }
  }

  // A newest request that waits goes on waiting while another moves.
  lemma NewestStillWaits(s: State, n: State, i: nat)
    requires RequestStep(s, n, i) && n.counter == s.counter && NewestWaits(s)
    ensures NewestWaits(n) || IsNewest(s, s.requests[i])
  {
    StepMoves(s, n, i);
    var j :| 0 <= j < |s.requests| && IsNewest(s, s.requests[j]);
    if j != i {
      assert IsNewest(n, n.requests[j]);
    }
  }

  lemma ReplacedStep(s: State, n: State, i: nat)
    requires LockOk(s) && ReplacedOk(s) && RequestStep(s, n, i)
    ensures ReplacedOk(n)
  {
    StepMoves(s, n, i);
    forall j | 0 <= j < |n.requests| && MayBeReplaced(n.requests[j])
      ensures n.requests[j].number == n.counter || NewestWaits(n)
    {
      HolderMoves(s, n, i, j);
      if !Decides(s, n, i) && n.requests[j].number != n.counter {
        assert s.requests[i].number == s.requests[j].number;
        NewestStillWaits(s, n, i);
      }
    }
  }

  // While a request has the lock no other moves on.
  lemma HolderMoves(s: State, n: State, i: nat, j: nat)
    requires LockOk(s) && RequestStep(s, n, i) && j < |n.requests| && n.requests[j].TearsDown()
    ensures i == j
  {
    StepMoves(s, n, i);
    assert j != i ==> n.requests[j] == s.requests[j];
    assert s.requests[i].Holds() || s.depth == 0;
  }

  lemma FlagStep(s: State, n: State, i: nat)
    requires LockOk(s) && FlagOk(s) && ReplacedOk(s) && RequestStep(s, n, i)
    ensures FlagOk(n)
  {
    StepMoves(s, n, i);
    if n.relaunching && !n.requests[i].TearsDown() {
      if s.requests[i].TearsDown() {
        assert FailDecides(s, n, i) && s.requests[i].number != s.counter;
        assert NewestWaits(s);
      } else {
        forall j | 0 <= j < |s.requests| ensures !s.requests[j].TearsDown() {
          if s.requests[j].TearsDown() {
            assert j != i && n.requests[j] == s.requests[j];
            HolderMoves(s, n, i, j);
          }
        }
        assert NewestWaits(s);
      }
      NewestStillWaits(s, n, i);
      if IsNewest(s, s.requests[i]) {
        assert IsNewest(n, n.requests[i]);
      }
    }
  }

  lemma FlagStaysUp(s: State, n: State, i: nat)
    requires LockOk(s) && FlagCovers(s) && RequestStep(s, n, i)
    ensures FlagCovers(n)
  {
    forall j | 0 <= j < |n.requests| && n.requests[j].TearsDown() ensures n.relaunching {
      HolderMoves(s, n, i, j);
      assert Decides(s, n, i) || Locks(s, n, i) || FailResets(s, n, i) || s.requests[i].TearsDown();
    }
  }

  lemma StepHolds(s: State, n: State)
    requires Invariant(s) && Step(s, n)
    ensures Invariant(n)
  {
    if Arrives(s, n, false) || Arrives(s, n, true) || LaunchArrives(s, n) {
      ArrivesHolds(s, n);
    } else {
      var i: nat :| RequestStep(s, n, i);
      LockStep(s, n, i);
      NumbersStep(s, n, i);
      ReplacedStep(s, n, i);
      FlagStep(s, n, i);
      FlagStaysUp(s, n, i);
    }
  }

  // --- Runs ---

  ghost predicate IsRun(run: seq<State>) {
    run != [] && Init(run[0]) && forall k :: 0 < k < |run| ==> Step(run[k - 1], run[k])
  }

  lemma {:induction false} RunHolds(run: seq<State>)
    requires IsRun(run)
    ensures Invariant(run[|run| - 1])
  {
    var k := |run| - 1;
    if k > 0 {
      RunHolds(run[..k]);
      StepHolds(run[k - 1], run[k]);
    }
  }

  // A request is skipped only for one with a higher number.
  lemma SkippedIsReplaced(run: seq<State>, i: nat)
    requires IsRun(run) && i < |run[|run| - 1].requests| && run[|run| - 1].requests[i].Skipped?
    ensures var s := run[|run| - 1];
      exists j: nat, m: nat :: j < |s.requests| && s.requests[j].Has(m) && m > s.requests[i].number
  {
    RunHolds(run);
    var s := run[|run| - 1];
    assert s.requests[i].number < s.counter && Taken(s, s.counter);
    var j :| 0 <= j < |s.requests| && s.requests[j].Has(s.counter);
  }

  ghost predicate AllOver(s: State) {
    forall i :: 0 <= i < |s.requests| ==> s.requests[i].Over()
  }

  // Whenever every request is over the flag is down, even where a failed
  // relaunch left it up for a newer request.
  lemma QuietIsNotRelaunching(run: seq<State>)
    requires IsRun(run) && AllOver(run[|run| - 1])
    ensures !run[|run| - 1].relaunching && run[|run| - 1].depth == 0
  {
    RunHolds(run);
  }

  // While the flag is up, the request that will take it down has the lock or
  // waits for it with the newest number.
  lemma FlagHasOwner(run: seq<State>)
    requires IsRun(run) && run[|run| - 1].relaunching
    ensures var s := run[|run| - 1];
      exists i :: 0 <= i < |s.requests| && (s.requests[i].TearsDown() || IsNewest(s, s.requests[i]))
  {
    RunHolds(run);
  }

  // No title is torn down with the flag down.
  lemma TearsDownWithFlag(run: seq<State>, i: nat)
    requires IsRun(run) && i < |run[|run| - 1].requests| && run[|run| - 1].requests[i].TearsDown()
    ensures run[|run| - 1].relaunching
  {
    RunHolds(run);
  }

  // --- When the last relaunch asked for is dropped ---

  // A failed relaunch has looked at the counter and is about to reset.
  ghost predicate AnyRenewing(s: State) {
    exists j :: 0 <= j < |s.requests| && s.requests[j].Renewing?
  }

  // Nothing is asked for after step k of a run, though titles may be launched.
  ghost predicate LastAsked(run: seq<State>, k: nat) {
    && 0 < k < |run| && Arrives(run[k - 1], run[k], false)
    && forall t :: k < t < |run| ==> !Arrives(run[t - 1], run[t], false) && !Arrives(run[t - 1], run[t], true)
  }

  // Request `i` with number `c`, which came while a failure was about to reset.
  ghost predicate Overtaken(s: State, i: nat, c: nat) {
    && i < |s.requests|
    && if s.counter > c then s.requests[i] in {Waiting(c, false), Checking(c), Skipped(c)}
       else s.requests[i] == Waiting(c, false) && AnyRenewing(s)
  }

  // One that did not.
  ghost predicate StaysNewest(s: State, i: nat, c: nat) {
    && i < |s.requests| && s.requests[i].Has(c)
    && if s.counter == c then
         && s.requests[i] in {Waiting(c, false), Checking(c), Relaunching(c), Failed(c), Renewing(c), Done(c, c)}
         && forall j :: 0 <= j < |s.requests| && j != i ==> !s.requests[j].Renewing? && !s.requests[j].Has(c)
       else s.requests[i].NestedReset? || s.requests[i].Done?
  }

  lemma OvertakenStep(s: State, n: State, i: nat, c: nat, x: nat)
    requires LockOk(s) && RequestStep(s, n, x) && Overtaken(s, i, c) && s.counter >= c
    ensures Overtaken(n, i, c)
  {
    StepMoves(s, n, x);
    if s.counter == c {
      var j :| 0 <= j < |s.requests| && s.requests[j].Renewing?;
      assert s.requests[x].Holds() || s.depth == 0;
    }
  }

  lemma StaysNewestStep(s: State, n: State, i: nat, c: nat, x: nat)
    requires RequestStep(s, n, x) && StaysNewest(s, i, c) && s.counter >= c
    ensures StaysNewest(n, i, c)
  {
    StepMoves(s, n, x);
    if s.counter == c == n.counter {
      forall j | 0 <= j < |n.requests| && j != i ensures !n.requests[j].Renewing? && !n.requests[j].Has(c) {
        assert !s.requests[j].Renewing? && !s.requests[j].Has(c);
      }
    }
  }

  ghost predicate Tracked(s: State, i: nat, c: nat, renewing: bool) {
    s.counter >= c && if renewing then Overtaken(s, i, c) else StaysNewest(s, i, c)
  }

  lemma TrackedFromArrival(s: State, n: State)
    requires Invariant(s) && Arrives(s, n, false)
    ensures Tracked(n, |s.requests|, n.counter, AnyRenewing(s))
  {
    assert forall j :: 0 <= j < |s.requests| ==> n.requests[j] == s.requests[j];
    if AnyRenewing(s) {
      var j :| 0 <= j < |s.requests| && s.requests[j].Renewing?;
      assert n.requests[j].Renewing?;
    }
  }

  lemma TrackedStep(s: State, n: State, i: nat, c: nat, renewing: bool)
    requires Invariant(s) && Step(s, n) && !Arrives(s, n, false) && !Arrives(s, n, true)
    requires Tracked(s, i, c, renewing)
    ensures Tracked(n, i, c, renewing)
  {
    if LaunchArrives(s, n) {
      assert forall j :: 0 <= j < |s.requests| ==> n.requests[j] == s.requests[j];
      assert AnyRenewing(s) ==> AnyRenewing(n);
    } else {
      var x: nat :| RequestStep(s, n, x);
      if renewing {
        OvertakenStep(s, n, i, c, x);
      } else {
        StaysNewestStep(s, n, i, c, x);
      }
    }
  }

  lemma {:induction false} TrackedRun(run: seq<State>, k: nat)
    requires IsRun(run) && LastAsked(run, k)
    ensures Tracked(run[|run| - 1], |run[k - 1].requests|, run[k].counter, AnyRenewing(run[k - 1]))
  {
    var last := |run| - 1;
    RunHolds(run[..last]);
    if k == last {
      TrackedFromArrival(run[k - 1], run[k]);
    } else {
      TrackedRun(run[..last], k);
      TrackedStep(run[last - 1], run[last], |run[k - 1].requests|, run[k].counter, AnyRenewing(run[k - 1]));
    }
  }

  // A reset from inside a failed relaunch takes a number, so it counts as a newer
  // request. The last relaunch asked for is dropped exactly when it came between
  // a failure's look at the counter and its reset: then it never runs, and
  // otherwise it is never skipped.
  lemma WhenLastIsDropped(run: seq<State>, k: nat)
    requires IsRun(run) && LastAsked(run, k)
    ensures |run[k - 1].requests| < |run[|run| - 1].requests|
    ensures var r := run[|run| - 1].requests[|run[k - 1].requests|];
      && (r.Skipped? ==> AnyRenewing(run[k - 1]))
      && (AnyRenewing(run[k - 1]) ==> r.Waiting? || r.Checking? || r.Skipped?)
      && (r.Over() ==> (r.Skipped? <==> AnyRenewing(run[k - 1])))
  {
    TrackedRun(run, k);
  }

  // Such a run: the second relaunch comes after the first failed, and is skipped
  // with nothing asked for since.
  lemma FailureDropsLast() returns (run: seq<State>)
    ensures IsRun(run) && LastAsked(run, 6) && AnyRenewing(run[5])
    ensures run[|run| - 1] == State(3, false, 0, [Done(1, 3), Skipped(2)])
  {
    run := seq(11, (k: nat) => Race(k));
    RaceBegins();
    RaceEnds();
    RaceIsRun(run);
    RaceIsLastAsked(run);
  }

  lemma RaceIsLastAsked(run: seq<State>)
    requires |run| == 11 && forall k :: 0 <= k < 11 ==> run[k] == Race(k)
    ensures LastAsked(run, 6) && AnyRenewing(run[5])
  {
    assert run[5].requests[0].Renewing?;
    forall t | 6 < t < 11 ensures !Arrives(run[t - 1], run[t], false) && !Arrives(run[t - 1], run[t], true) {
      assert |Race(t - 1).requests| == 2 == |Race(t).requests|;
    }
  }

  lemma RaceIsRun(run: seq<State>)
    requires |run| == 11 && forall k :: 0 <= k < 11 ==> run[k] == Race(k)
    requires forall k {:trigger Race(k)} :: 0 < k <= 10 ==> Step(Race(k - 1), Race(k))
    ensures IsRun(run)
  {
    forall k | 0 < k < |run| ensures Step(run[k - 1], run[k]) {
      assert run[k] == Race(k) && run[k - 1] == Race(k - 1);
    }
  }

  function Race(k: nat): State {
    if k == 0 then State(0, false, 0, [])
    else if k == 1 then State(1, false, 0, [Waiting(1, false)])
    else if k == 2 then State(1, false, 1, [Checking(1)])
    else if k == 3 then State(1, true, 1, [Relaunching(1)])
    else if k == 4 then State(1, true, 1, [Failed(1)])
    else if k == 5 then State(1, true, 1, [Renewing(1)])
    else if k == 6 then State(2, true, 1, [Renewing(1), Waiting(2, false)])
    else if k == 7 then State(3, true, 2, [NestedReset(1, 3), Waiting(2, false)])
    else if k == 8 then State(3, false, 0, [Done(1, 3), Waiting(2, false)])
    else if k == 9 then State(3, false, 1, [Done(1, 3), Checking(2)])
    else State(3, false, 0, [Done(1, 3), Skipped(2)])
  }

  lemma RaceBegins()
    ensures forall k {:trigger Race(k)} :: 0 < k <= 5 ==> Step(Race(k - 1), Race(k))
  {
    assert Arrives(Race(0), Race(1), false);
    assert RequestStep(Race(1), Race(2), 0) && RequestStep(Race(2), Race(3), 0);
    assert RequestStep(Race(3), Race(4), 0) && RequestStep(Race(4), Race(5), 0);
  }

  lemma RaceEnds()
    ensures forall k {:trigger Race(k)} :: 5 < k <= 10 ==> Step(Race(k - 1), Race(k))
  {
    assert Arrives(Race(5), Race(6), false);
    assert RequestStep(Race(6), Race(7), 0) && RequestStep(Race(7), Race(8), 0);
    assert RequestStep(Race(8), Race(9), 1) && RequestStep(Race(9), Race(10), 1);
  }

  // --- The code between the points where others can run ---

  class Emulator {
    var relaunchRequests: nat
    var relaunching: bool
    ghost var depth: nat
    ghost var requests: seq<Request>

    ghost function Now(): State
      reads this
    {
      State(relaunchRequests, relaunching, depth, requests)
    }

    ghost predicate Valid()
      reads this
    {
      Invariant(Now())
    }

    constructor ()
      ensures Valid() && Init(Now())
    {
      relaunchRequests, relaunching, depth, requests := 0, false, 0, [];
    }

    // RelaunchTitle and ResetTitle up to their lock.
    method TakeNumber(reset: bool) returns (request: nat)
      requires Valid()
      modifies this
      ensures Valid() && Arrives(old(Now()), Now(), reset)
      ensures request == relaunchRequests && requests[|requests| - 1] == Waiting(request, reset)
    {
      ghost var s := Now();
      relaunchRequests := relaunchRequests + 1;
      request := relaunchRequests;
      requests := requests + [Waiting(request, reset)];
      StepHolds(s, Now());
    }

    // A relaunch with the lock drops out for a newer request, or raises the
    // flag.
    method StartRelaunch(ghost i: nat, request: nat) returns (started: bool)
      requires Valid() && Now().At(i, Waiting(request, false)) && depth == 0
      modifies this
      ensures Valid() && started == (request == relaunchRequests)
      ensures relaunchRequests == old(relaunchRequests)
      ensures Now() == if started
                       then old(Now()).With(i, Relaunching(request)).(relaunching := true, depth := 1)
                       else old(Now()).With(i, Skipped(request))
    {
      ghost var s := Now();
      requests, depth := requests[i := Checking(request)], 1;
      assert RequestStep(s, Now(), i);
      StepHolds(s, Now());
      s := Now();
      started := request == relaunchRequests;
      if started {
        relaunching := true;
        requests := requests[i := Relaunching(request)];
      } else {
        requests, depth := requests[i := Skipped(request)], 0;
      }
      assert RequestStep(s, Now(), i);
      StepHolds(s, Now());
    }

    // A relaunch that worked.
    method FinishRelaunch(ghost i: nat, request: nat)
      requires Valid() && Now().At(i, Relaunching(request))
      modifies this
      ensures Valid() && Succeeds(old(Now()), Now(), i)
    {
      ghost var s := Now();
      relaunching := false;
      requests, depth := requests[i := Done(request, request)], 0;
      assert RequestStep(s, Now(), i);
      StepHolds(s, Now());
    }

    // One that failed, with no other request between its look at the counter
    // and its reset. Returns whether it reports the failure.
    method FailRelaunch(ghost i: nat, request: nat) returns (reports: bool)
      requires Valid() && Now().At(i, Relaunching(request)) && depth == 1
      modifies this
      ensures Valid() && depth == 0
      ensures reports == (request == old(relaunchRequests))
      ensures reports ==> !relaunching && relaunchRequests == request + 1
      ensures !reports ==> relaunching == old(relaunching) && NewestWaits(Now())
    {
      ghost var s := Now();
      requests := requests[i := Failed(request)];
      assert RequestStep(s, Now(), i);
      StepHolds(s, Now());
      s := Now();
      reports := request == relaunchRequests;
      if reports {
        requests := requests[i := Renewing(request)];
      } else {
        requests, depth := requests[i := Done(request, request)], 0;
      }
      assert RequestStep(s, Now(), i);
      StepHolds(s, Now());
      if reports {
        ResetFromInside(i, request);
      } else {
        FailureLeavesNewest(s, Now(), i);
      }
    }

    // ResetTitle called with the lock held.
    method ResetFromInside(ghost i: nat, ghost request: nat)
      requires Valid() && Now().At(i, Renewing(request)) && depth == 1
      modifies this
      ensures Valid() && !relaunching && depth == 0 && relaunchRequests == old(relaunchRequests) + 1
      ensures requests == old(requests)[i := Done(request, relaunchRequests)]
    {
      ghost var s := Now();
      relaunchRequests := relaunchRequests + 1;
      relaunching := true;
      requests, depth := requests[i := NestedReset(request, relaunchRequests)], depth + 1;
      assert RequestStep(s, Now(), i);
      StepHolds(s, Now());
      s := Now();
      relaunching := false;
      requests, depth := requests[i := Done(request, relaunchRequests)], 0;
      assert RequestStep(s, Now(), i);
      StepHolds(s, Now());
    }

    // ResetTitle from its lock on.
    method Reset(ghost i: nat, ghost request: nat)
      requires Valid() && Now().At(i, Waiting(request, true)) && depth == 0
      modifies this
      ensures Valid() && !relaunching && depth == 0 && relaunchRequests == old(relaunchRequests)
      ensures requests == old(requests)[i := Done(request, request)]
    {
      ghost var s := Now();
      relaunching := true;
      requests, depth := requests[i := Resetting(request)], 1;
      assert RequestStep(s, Now(), i);
      StepHolds(s, Now());
      s := Now();
      relaunching := false;
      requests, depth := requests[i := Done(request, request)], 0;
      assert RequestStep(s, Now(), i);
      StepHolds(s, Now());
    }
  }

  lemma FailureLeavesNewest(s: State, n: State, i: nat)
    requires Invariant(s) && FailDecides(s, n, i) && s.requests[i].number != s.counter
    ensures NewestWaits(n)
  {
    assert RequestStep(s, n, i) && NewestWaits(s);
    NewestStillWaits(s, n, i);
  }
}
