// The directory scanner's work queue: workers take directories, push the
// subdirectories they find and stop when nothing is queued and nobody is
// scanning (app/directory_scanner.cc). A state machine over the shared queue
// and where each worker is, with the critical sections as methods over it.
module Scanner {
  // A directory of a finite tree. `stops` is whether a scan of it queues
  // nothing: it holds a default executable, can't be opened or throws.
  datatype Dir = Dir(name: nat, stops: bool, subdirs: seq<Dir>)

  function Queues(d: Dir): seq<Dir> {
    if d.stops then [] else d.subdirs
  }

  // A directory and all that scanning it leads to.
  function Reached(d: Dir): multiset<Dir>
    decreases d, 1
  {
    multiset{d} + Below(d)
  }

  function Below(d: Dir): multiset<Dir>
    decreases d, 0
  {
    if d.stops then multiset{} else ReachedFrom(d.subdirs)
  }

  function ReachedFrom(ds: seq<Dir>): multiset<Dir>
    decreases ds
  {
    if ds == [] then multiset{} else ReachedFrom(ds[..|ds| - 1]) + Reached(ds[|ds| - 1])
  }

  // The directory a path of subdirectory numbers leads to, through scans that
  // queue what they find.
  predicate LeadsTo(d: Dir, path: seq<nat>, x: Dir)
    decreases path
  {
    if path == [] then x == d
    else !d.stops && path[0] < |d.subdirs| && LeadsTo(d.subdirs[path[0]], path[1..], x)
  }

  ghost predicate HasPath(d: Dir, x: Dir) {
    exists path: seq<nat> :: LeadsTo(d, path, x)
  }

  // A directory is reached exactly where a path leads to it.
  lemma ReachedByPath(d: Dir, x: Dir)
    ensures x in Reached(d) <==> HasPath(d, x)
  {
    if x in Reached(d) {
      var path := PathTo(d, x);
    }
    if HasPath(d, x) {
      var path: seq<nat> :| LeadsTo(d, path, x);
      PathIsReached(d, path, x);
    }
  }

  lemma {:induction false} PathIsReached(d: Dir, path: seq<nat>, x: Dir)
    requires LeadsTo(d, path, x)
    ensures x in Reached(d)
    decreases path
  {
    if path != [] {
      PathIsReached(d.subdirs[path[0]], path[1..], x);
      SomeIsReached(d.subdirs, path[0], x);
    }
  }

  lemma {:induction false} SomeIsReached(ds: seq<Dir>, i: nat, x: Dir)
    requires i < |ds| && x in Reached(ds[i])
    ensures x in ReachedFrom(ds)
    decreases |ds|
  {
    if i < |ds| - 1 {
      SomeIsReached(ds[..|ds| - 1], i, x);
    }
  }

  lemma {:induction false} PathTo(d: Dir, x: Dir) returns (path: seq<nat>)
    requires x in Reached(d)
    ensures LeadsTo(d, path, x)
    decreases d
  {
    if x == d {
      path := [];
    } else {
      var i := ReachedFromSome(d.subdirs, x);
      var rest := PathTo(d.subdirs[i], x);
      path := [i] + rest;
      assert path[1..] == rest;
    }
  }

  lemma {:induction false} ReachedFromSome(ds: seq<Dir>, x: Dir) returns (i: nat)
    requires x in ReachedFrom(ds)
    ensures i < |ds| && x in Reached(ds[i])
    decreases |ds|
  {
    i := |ds| - 1;
    if x !in Reached(ds[i]) {
      i := ReachedFromSome(ds[..i], x);
    }
  }

  // Where a worker is. One that waits has seen nothing to do and holds the lock
  // until it sleeps. One that pushed is about to notify.
  datatype Worker =
    | Ready
    | Waiting
    | Asleep
    | Scanning(dir: Dir)
    | Pushed
    | Scanned
    | Gone(cancelled: bool)
  {
    predicate Busy() {
      Scanning? || Pushed? || Scanned?
    }
  }

  datatype State = State(
    pending: seq<Dir>,
    inflight: nat,
    cancel: bool,
    cancelers: nat, // threads that set the flag and have yet to notify
    workers: seq<Worker>,
    taken: multiset<Dir>)
  {
    // Whether a worker holds the lock between two steps.
    predicate Locked() {
      Waiting in workers
    }

    predicate At(i: nat, w: Worker) {
      i < |workers| && workers[i] == w
    }

    // What the wait is for.
    predicate MayGo() {
      cancel || pending != [] || inflight == 0
    }
  }

  function Woken(ws: seq<Worker>): (r: seq<Worker>)
    ensures |r| == |ws|
    ensures forall i :: 0 <= i < |ws| ==> r[i] == if ws[i].Asleep? then Ready else ws[i]
  {
    seq(|ws|, i requires 0 <= i < |ws| => if ws[i].Asleep? then Ready else ws[i])
  }

  // --- The steps ---

  ghost predicate Init(s: State, root: Dir) {
    && s.pending == [root] && s.inflight == 0 && s.taken == multiset{}
    && |s.workers| > 0 && forall i :: 0 <= i < |s.workers| ==> s.workers[i] == Ready
  }

  // A worker finds the wait over: it leaves, waking the rest, or takes the
  // oldest directory.
  ghost predicate Goes(s: State, n: State, i: nat) {
    && s.At(i, Ready) && !s.Locked() && s.MayGo()
    && if s.cancel then n == s.(workers := Woken(s.workers[i := Gone(true)]))
       else if s.pending == [] then n == s.(workers := Woken(s.workers[i := Gone(false)]))
       else n == s.(pending := s.pending[1..], inflight := s.inflight + 1,
                    workers := s.workers[i := Scanning(s.pending[0])], taken := s.taken + multiset{s.pending[0]})
  }

  ghost predicate Waits(s: State, n: State, i: nat) {
    s.At(i, Ready) && !s.Locked() && !s.MayGo() && n == s.(workers := s.workers[i := Waiting])
  }

  ghost predicate Sleeps(s: State, n: State, i: nat) {
    s.At(i, Waiting) && n == s.(workers := s.workers[i := Asleep])
  }

  // A wait can end with no notification.
  ghost predicate Wakes(s: State, n: State, i: nat) {
    s.At(i, Asleep) && n == s.(workers := s.workers[i := Ready])
  }

  // A scan ends. It queues what it found, unless it found none or saw the flag.
  ghost predicate Pushes(s: State, n: State, i: nat) {
    && i < |s.workers| && s.workers[i].Scanning? && !s.Locked()
    && Queues(s.workers[i].dir) != []
    && n == s.(pending := s.pending + Queues(s.workers[i].dir), workers := s.workers[i := Pushed])
  }

  ghost predicate FindsNone(s: State, n: State, i: nat) {
    && i < |s.workers| && s.workers[i].Scanning?
    && (Queues(s.workers[i].dir) == [] || s.cancel)
    && n == s.(workers := s.workers[i := Scanned])
  }

  ghost predicate Notifies(s: State, n: State, i: nat) {
    s.At(i, Pushed) && n == s.(workers := Woken(s.workers[i := Scanned]))
  }

  ghost predicate Finishes(s: State, n: State, i: nat) {
    && s.At(i, Scanned) && !s.Locked() && s.inflight > 0
    && var ws := s.workers[i := Ready];
       n == s.(inflight := s.inflight - 1,
               workers := if s.pending == [] && s.inflight == 1 then Woken(ws) else ws)
  }

  // Cancel sets the flag without the lock and notifies under it.
  ghost predicate Cancels(s: State, n: State) {
    n == s.(cancel := true, cancelers := s.cancelers + 1)
  }

  ghost predicate CancelNotifies(s: State, n: State) {
    s.cancelers > 0 && !s.Locked() && n == s.(cancelers := s.cancelers - 1, workers := Woken(s.workers))
  }

  ghost predicate WorkerStep(s: State, n: State, i: nat) {
    || Goes(s, n, i) || Waits(s, n, i) || Sleeps(s, n, i) || Wakes(s, n, i)
    || Pushes(s, n, i) || FindsNone(s, n, i) || Notifies(s, n, i) || Finishes(s, n, i)
  }

  ghost predicate Step(s: State, n: State) {
    Cancels(s, n) || CancelNotifies(s, n) || exists i: nat :: WorkerStep(s, n, i)
  }

  // --- What the workers hold ---

  function BusyCount(ws: seq<Worker>): nat {
    if ws == [] then 0 else BusyCount(ws[..|ws| - 1]) + if ws[|ws| - 1].Busy() then 1 else 0
  }

  // What a worker's scan has yet to queue.
  function Unqueued(w: Worker): multiset<Dir> {
    if w.Scanning? then Below(w.dir) else multiset{}
  }

  function AllUnqueued(ws: seq<Worker>): multiset<Dir> {
    if ws == [] then multiset{} else AllUnqueued(ws[..|ws| - 1]) + Unqueued(ws[|ws| - 1])
  }

  lemma {:induction false} WorkerChanges(ws: seq<Worker>, i: nat, w: Worker)
    requires i < |ws|
    ensures BusyCount(ws[i := w]) + (if ws[i].Busy() then 1 else 0) == BusyCount(ws) + if w.Busy() then 1 else 0
    ensures ws[i].Busy() ==> BusyCount(ws) > 0
  {
    var n := |ws| - 1;
    if i < n {
      WorkerChanges(ws[..n], i, w);
      assert ws[i := w][..n] == ws[..n][i := w];
    } else {
      assert ws[i := w][..n] == ws[..n];
    }
  }

  lemma {:induction false} ScanChanges(ws: seq<Worker>, i: nat, w: Worker)
    requires i < |ws|
    ensures AllUnqueued(ws[i := w]) + Unqueued(ws[i]) == AllUnqueued(ws) + Unqueued(w)
  {
    var n := |ws| - 1;
    if i < n {
      ScanChanges(ws[..n], i, w);
      assert ws[i := w][..n] == ws[..n][i := w];
      Regroup(AllUnqueued(ws[..n][i := w]), Unqueued(ws[n]), Unqueued(ws[i]));
      Regroup(AllUnqueued(ws[..n]), Unqueued(ws[n]), Unqueued(w));
    } else {
      assert ws[i := w][..n] == ws[..n];
      Regroup(AllUnqueued(ws[..n]), Unqueued(ws[i]), Unqueued(w));
    }
  }

  // A worker that scans neither before nor after.
  lemma NoScanChanges(ws: seq<Worker>, i: nat, w: Worker)
    requires i < |ws| && !ws[i].Scanning? && !w.Scanning?
    ensures AllUnqueued(ws[i := w]) == AllUnqueued(ws)
  {
    ScanChanges(ws, i, w);
    assert AllUnqueued(ws) + multiset{} == AllUnqueued(ws);
    assert AllUnqueued(ws[i := w]) + multiset{} == AllUnqueued(ws[i := w]);
  }

  lemma Regroup(a: multiset<Dir>, b: multiset<Dir>, c: multiset<Dir>)
    ensures (a + b) + c == (a + c) + b
  {
  }

  lemma {:induction false} WakingChangesNothing(ws: seq<Worker>)
    ensures BusyCount(Woken(ws)) == BusyCount(ws) && AllUnqueued(Woken(ws)) == AllUnqueued(ws)
  {
    if ws != [] {
      var n := |ws| - 1;
      WakingChangesNothing(ws[..n]);
      assert Woken(ws)[..n] == Woken(ws[..n]);
    }
  }

  lemma {:induction false} BusyWorker(ws: seq<Worker>) returns (i: nat)
    requires BusyCount(ws) > 0
    ensures i < |ws| && ws[i].Busy()
  {
    i := |ws| - 1;
    if !ws[i].Busy() {
      i := BusyWorker(ws[..i]);
    }
  }

  lemma {:induction false} ReachedFromJoined(a: seq<Dir>, b: seq<Dir>)
    ensures ReachedFrom(a + b) == ReachedFrom(a) + ReachedFrom(b)
  {
    if b == [] {
      assert a + b == a;
    } else {
      var n := |b| - 1;
      ReachedFromJoined(a, b[..n]);
      assert (a + b)[..|a + b| - 1] == a + b[..n] && (a + b)[|a + b| - 1] == b[n];
      Grouped(ReachedFrom(a), ReachedFrom(b[..n]), Reached(b[n]));
    }
  }

  lemma Grouped(a: multiset<Dir>, b: multiset<Dir>, c: multiset<Dir>)
    ensures (a + b) + c == a + (b + c)
  {
  }

  lemma ReachedFromFirst(ds: seq<Dir>)
    requires ds != []
    ensures ReachedFrom(ds) == Reached(ds[0]) + ReachedFrom(ds[1..])
  {
    ReachedFromJoined(ds[..1], ds[1..]);
    assert ds == ds[..1] + ds[1..] && ds[..1][..0] == [];
    assert ReachedFrom(ds[..1]) == ReachedFrom(ds[..1][..0]) + Reached(ds[0]);
  }

  // --- The invariant ---

  // No worker sleeps through what it waits for: a directory queued has its
  // notification to come, somebody is at work whose end wakes the rest, and a
  // cancelling thread has yet to notify.
  ghost predicate NoneForgotten(s: State) {
    forall i :: 0 <= i < |s.workers| && (s.workers[i].Asleep? || s.workers[i].Waiting?) ==>
      IsRemembered(s, s.workers[i])
  }

  ghost predicate IsRemembered(s: State, w: Worker) {
    && (s.pending == [] || (w.Asleep? && Pushed in s.workers))
    && s.inflight > 0 && (s.cancel ==> s.cancelers > 0)
  }

  // What is taken, what is queued and what the scans have yet to queue.
  function Accounted(s: State): multiset<Dir> {
    s.taken + ReachedFrom(s.pending) + AllUnqueued(s.workers)
  }

  // Every directory is in one of the three, once, and without a cancel none is
  // lost.
  ghost predicate Conserves(s: State, root: Dir) {
    Accounted(s) <= Reached(root) && (!s.cancel ==> Accounted(s) == Reached(root))
  }

  // A worker that left with no cancel left when all was done.
  ghost predicate LeavesWhenDone(s: State, root: Dir) {
    Gone(false) in s.workers ==> s.pending == [] && s.inflight == 0 && s.taken == Reached(root)
  }

  // At most one worker holds the lock.
  ghost predicate OneHolds(s: State) {
    forall i, j :: 0 <= i < j < |s.workers| ==> !(s.workers[i].Waiting? && s.workers[j].Waiting?)
  }

  ghost predicate InOrder(s: State) {
    s.inflight == BusyCount(s.workers) && OneHolds(s) && NoneForgotten(s)
  }

  ghost predicate Invariant(s: State, root: Dir) {
    InOrder(s) && Conserves(s, root) && LeavesWhenDone(s, root)
  }

  lemma InitHolds(s: State, root: Dir)
    requires Init(s, root)
    ensures Invariant(s, root)
  {
    AllReady(s.workers);
    ReachedFromFirst(s.pending);
  }

  lemma {:induction false} AllReady(ws: seq<Worker>)
    requires forall i :: 0 <= i < |ws| ==> ws[i] == Ready
    ensures BusyCount(ws) == 0 && AllUnqueued(ws) == multiset{}
  {
    if ws != [] {
      AllReady(ws[..|ws| - 1]);
    }
  }

  lemma {:induction false} NoneBusy(ws: seq<Worker>)
    requires BusyCount(ws) == 0
    ensures AllUnqueued(ws) == multiset{}
  {
    if ws != [] {
      NoneBusy(ws[..|ws| - 1]);
    }
  }

  // --- Each step keeps the queue in order ---

  // Steps that wake every sleeper, with none left holding the lock.
  lemma WakingKeepsOrder(s: State, n: State, ws: seq<Worker>)
    requires n.workers == Woken(ws) && Waiting !in ws && n.inflight == BusyCount(ws)
    ensures InOrder(n)
  {
    WakingChangesNothing(ws);
    forall i | 0 <= i < |n.workers| ensures !n.workers[i].Asleep? && !n.workers[i].Waiting? {
      assert ws[i] in ws;
    }
  }

  lemma NoneWaits(s: State, i: nat, w: Worker)
    requires !s.Locked() && i < |s.workers| && w != Waiting
    ensures Waiting !in s.workers[i := w]
  {
  }

  lemma WorkerStepKeepsOrder(s: State, n: State, i: nat)
    requires InOrder(s) && WorkerStep(s, n, i)
    ensures InOrder(n)
  {
    if Goes(s, n, i) && (s.cancel || s.pending == []) {
      NoneWaits(s, i, Gone(s.cancel));
      WorkerChanges(s.workers, i, Gone(s.cancel));
      WakingKeepsOrder(s, n, s.workers[i := Gone(s.cancel)]);
    } else if Goes(s, n, i) {
      WorkerChanges(s.workers, i, n.workers[i]);
      StillPushing(s, n, i);
    } else if Notifies(s, n, i) {
      WorkerChanges(s.workers, i, Scanned);
      NotifiesKeepsOrder(s, n, i);
    } else if Finishes(s, n, i) {
      FinishesKeepsOrder(s, n, i);
    } else if Pushes(s, n, i) {
      WorkerChanges(s.workers, i, Pushed);
      assert n.workers[i] == Pushed;
    } else {
      WorkerChanges(s.workers, i, n.workers[i]);
      StillPushing(s, n, i);
    }
  }

  // A step of a worker that was not about to notify leaves the others that are.
  lemma StillPushing(s: State, n: State, i: nat)
    requires i < |s.workers| == |n.workers| && s.workers[i] != Pushed && n.workers == s.workers[i := n.workers[i]]
    ensures Pushed in s.workers ==> Pushed in n.workers
  {
    if Pushed in s.workers {
      var j :| 0 <= j < |s.workers| && s.workers[j] == Pushed;
      assert n.workers[j] == Pushed;
    }
  }

  lemma NotifiesKeepsOrder(s: State, n: State, i: nat)
    requires InOrder(s) && Notifies(s, n, i)
    ensures InOrder(n)
  {
    var ws := s.workers[i := Scanned];
    WorkerChanges(s.workers, i, Scanned);
    WakingChangesNothing(ws);
    forall k | 0 <= k < |n.workers| && (n.workers[k].Asleep? || n.workers[k].Waiting?)
      ensures IsRemembered(n, n.workers[k])
    {
      assert s.workers[k] == Waiting;
    }
  }

  lemma FinishesKeepsOrder(s: State, n: State, i: nat)
    requires InOrder(s) && Finishes(s, n, i)
    ensures InOrder(n)
  {
    WorkerChanges(s.workers, i, Ready);
    var ws := s.workers[i := Ready];
    NoneWaits(s, i, Ready);
    if s.pending == [] && s.inflight == 1 {
      WakingKeepsOrder(s, n, ws);
    } else {
      StillPushing(s, n, i);
      if s.inflight == 1 && Pushed in n.workers {
        var j: nat :| j < |n.workers| && n.workers[j] == Pushed;
        WorkerChanges(n.workers, j, Ready);
      }
    }
  }

  lemma CancelKeepsOrder(s: State, n: State)
    requires InOrder(s) && (Cancels(s, n) || CancelNotifies(s, n))
    ensures InOrder(n)
  {
    if !Cancels(s, n) {
      WakingKeepsOrder(s, n, s.workers);
    }
  }

  // --- Each step accounts for every directory ---

  lemma GoesAccounts(s: State, n: State, i: nat)
    requires Goes(s, n, i)
    ensures Accounted(n) == Accounted(s)
  {
    if s.cancel || s.pending == [] {
      NoScanChanges(s.workers, i, Gone(s.cancel));
      WakingChangesNothing(s.workers[i := Gone(s.cancel)]);
    } else {
      var d := s.pending[0];
      ScanChanges(s.workers, i, Scanning(d));
      ReachedFromFirst(s.pending);
      Moved(s.taken, d, ReachedFrom(n.pending), AllUnqueued(s.workers));
    }
  }

  lemma Moved(taken: multiset<Dir>, d: Dir, pending: multiset<Dir>, unqueued: multiset<Dir>)
    ensures (taken + multiset{d}) + pending + (unqueued + Below(d)) == taken + (Reached(d) + pending) + unqueued
  {
  }

  lemma PushesAccounts(s: State, n: State, i: nat)
    requires Pushes(s, n, i)
    ensures Accounted(n) == Accounted(s)
  {
    var d := s.workers[i].dir;
    ScanChanges(s.workers, i, Pushed);
    ReachedFromJoined(s.pending, d.subdirs);
    assert AllUnqueued(n.workers) + Below(d) == AllUnqueued(s.workers);
    Queued(s.taken, ReachedFrom(s.pending), Below(d), AllUnqueued(n.workers));
  }

  lemma Queued(taken: multiset<Dir>, pending: multiset<Dir>, below: multiset<Dir>, unqueued: multiset<Dir>)
    ensures taken + (pending + below) + unqueued == taken + pending + (unqueued + below)
  {
  }

  lemma FindsNoneAccounts(s: State, n: State, i: nat)
    requires FindsNone(s, n, i)
    ensures Accounted(n) <= Accounted(s) && (!s.cancel ==> Accounted(n) == Accounted(s))
  {
    var d := s.workers[i].dir;
    ScanChanges(s.workers, i, Scanned);
    assert AllUnqueued(n.workers) + Below(d) == AllUnqueued(s.workers);
    assert Queues(d) == [] ==> Below(d) == multiset{};
  }

  lemma OthersAccount(s: State, n: State, i: nat)
    requires Waits(s, n, i) || Sleeps(s, n, i) || Wakes(s, n, i) || Notifies(s, n, i) || Finishes(s, n, i)
    ensures Accounted(n) == Accounted(s)
  {
    var w := if Notifies(s, n, i) then Scanned else if Finishes(s, n, i) then Ready else n.workers[i];
    NoScanChanges(s.workers, i, w);
    WakingChangesNothing(s.workers[i := w]);
  }

  lemma StepAccounts(s: State, n: State, i: nat, root: Dir)
    requires Conserves(s, root) && WorkerStep(s, n, i)
    ensures Conserves(n, root)
  {
    if Goes(s, n, i) {
      GoesAccounts(s, n, i);
    } else if Pushes(s, n, i) {
      PushesAccounts(s, n, i);
    } else if FindsNone(s, n, i) {
      FindsNoneAccounts(s, n, i);
    } else {
      OthersAccount(s, n, i);
    }
  }

  // --- The workers leave when all is done, and nothing follows ---

  lemma StepLeaves(s: State, n: State, i: nat, root: Dir)
    requires Invariant(s, root) && WorkerStep(s, n, i)
    ensures LeavesWhenDone(n, root)
  {
    if Gone(false) in s.workers {
      NothingFollows(s, n, i);
    } else if Goes(s, n, i) && !s.cancel && s.pending == [] {
      NoneBusy(s.workers);
      assert s.taken + multiset{} + multiset{} == s.taken;
    } else {
      NoneLeaves(s, n, i);
    }
  }

  lemma NoneLeaves(s: State, n: State, i: nat)
    requires WorkerStep(s, n, i) && Gone(false) !in s.workers && !(Goes(s, n, i) && !s.cancel && s.pending == [])
    ensures Gone(false) !in n.workers
  {
    forall j | 0 <= j < |n.workers| ensures n.workers[j] != Gone(false) {
      assert s.workers[j] in s.workers;
    }
  }

  lemma NothingFollows(s: State, n: State, i: nat)
    requires InOrder(s) && s.pending == [] && s.inflight == 0 && WorkerStep(s, n, i)
    ensures n.pending == [] && n.inflight == 0 && n.taken == s.taken
  {
    WorkerChanges(s.workers, i, Ready);
  }

  lemma StepHolds(s: State, n: State, root: Dir)
    requires Invariant(s, root) && Step(s, n)
    ensures Invariant(n, root)
  {
    if Cancels(s, n) || CancelNotifies(s, n) {
      CancelKeepsOrder(s, n);
      WakingChangesNothing(s.workers);
      assert Gone(false) in n.workers ==> Gone(false) in s.workers;
    } else {
      var i: nat :| WorkerStep(s, n, i);
      WorkerStepKeepsOrder(s, n, i);
      StepAccounts(s, n, i, root);
      StepLeaves(s, n, i, root);
    }
  }

  // --- Runs ---

  ghost predicate IsRun(run: seq<State>, root: Dir) {
    && run != [] && Init(run[0], root)
    && forall k :: 0 < k < |run| ==> Step(run[k - 1], run[k])
  }

  lemma {:induction false} RunHolds(run: seq<State>, root: Dir)
    requires IsRun(run, root)
    ensures Invariant(run[|run| - 1], root)
  {
    var k := |run| - 1;
    if k == 0 {
      InitHolds(run[0], root);
    } else {
      RunHolds(run[..k], root);
      StepHolds(run[k - 1], run[k], root);
    }
  }

  // A worker that leaves uncancelled leaves when every directory of the tree
  // has been taken, each as often as the tree has it, whatever happens after.
  lemma ScanIsComplete(run: seq<State>, root: Dir)
    requires IsRun(run, root)
    ensures var s := run[|run| - 1];
      && (Gone(false) in s.workers ==> s.taken == Reached(root) && s.pending == [] && s.inflight == 0)
      && s.taken + ReachedFrom(s.pending) <= Reached(root)
      && (!s.cancel ==> s.taken + ReachedFrom(s.pending) + AllUnqueued(s.workers) == Reached(root))
      && (Gone(false) in s.workers ==> forall path: seq<nat>, d: Dir :: LeadsTo(root, path, d) ==> d in s.taken)
  {
    RunHolds(run, root);
    forall path: seq<nat>, d: Dir | LeadsTo(root, path, d) ensures d in Reached(root) {
      PathIsReached(root, path, d);
    }
  }

  // While any worker is left, one can go on that is not asleep: no run ends with
  // the workers waiting for each other.
  lemma NeverAllAsleep(run: seq<State>, root: Dir)
    requires IsRun(run, root)
    ensures var s := run[|run| - 1];
      (forall i :: 0 <= i < |s.workers| ==> s.workers[i].Asleep? || s.workers[i].Gone?) ==>
      forall i :: 0 <= i < |s.workers| ==> s.workers[i].Gone?
  {
    RunHolds(run, root);
    var s := run[|run| - 1];
    if s.inflight > 0 {
      var i := BusyWorker(s.workers);
    }
  }

  ghost predicate CanStep(s: State, i: nat) {
    exists n: State :: WorkerStep(s, n, i) && !Wakes(s, n, i)
  }

  ghost predicate HolderCan(s: State) {
    exists i: nat :: i < |s.workers| && s.workers[i] == Waiting && CanStep(s, i)
  }

  lemma TakesStep(s: State, n: State, i: nat)
    requires WorkerStep(s, n, i) && i < |s.workers| && !s.workers[i].Asleep?
    ensures CanStep(s, i)
  {
    assert !Wakes(s, n, i);
  }

  // A worker that is neither asleep nor gone has a step, or whoever holds the
  // lock it needs does.
  lemma AwakeCanStep(run: seq<State>, root: Dir, i: nat)
    requires IsRun(run, root)
    requires i < |run[|run| - 1].workers| && !run[|run| - 1].workers[i].Asleep? && !run[|run| - 1].workers[i].Gone?
    ensures CanStep(run[|run| - 1], i) || HolderCan(run[|run| - 1])
  {
    RunHolds(run, root);
    var s := run[|run| - 1];
    if s.Locked() {
      var j: nat :| j < |s.workers| && s.workers[j] == Waiting;
      HolderCanStep(s, j);
    } else if s.workers[i] == Ready {
      ReadyCanStep(s, i);
    } else {
      WorkerChanges(s.workers, i, Ready);
      BusyCanStep(s, i);
    }
  }

  lemma HolderCanStep(s: State, i: nat)
    requires s.At(i, Waiting)
    ensures CanStep(s, i)
  {
    TakesStep(s, s.(workers := s.workers[i := Asleep]), i);
  }

  lemma ReadyCanStep(s: State, i: nat)
    requires s.At(i, Ready) && !s.Locked()
    ensures CanStep(s, i)
  {
    if !s.MayGo() {
      TakesStep(s, s.(workers := s.workers[i := Waiting]), i);
    } else if s.cancel {
      TakesStep(s, s.(workers := Woken(s.workers[i := Gone(true)])), i);
    } else if s.pending == [] {
      TakesStep(s, s.(workers := Woken(s.workers[i := Gone(false)])), i);
    } else {
      var n := s.(pending := s.pending[1..], inflight := s.inflight + 1,
                  workers := s.workers[i := Scanning(s.pending[0])], taken := s.taken + multiset{s.pending[0]});
      TakesStep(s, n, i);
    }
  }

  lemma BusyCanStep(s: State, i: nat)
    requires i < |s.workers| && s.workers[i].Busy() && !s.Locked() && s.inflight > 0
    ensures CanStep(s, i)
  {
    match s.workers[i]
    case Scanning(d) =>
      if Queues(d) == [] {
        TakesStep(s, s.(workers := s.workers[i := Scanned]), i);
      } else {
        TakesStep(s, s.(pending := s.pending + Queues(d), workers := s.workers[i := Pushed]), i);
      }
    case Pushed =>
      TakesStep(s, s.(workers := Woken(s.workers[i := Scanned])), i);
    case Scanned =>
      var ws := s.workers[i := Ready];
      TakesStep(s, s.(inflight := s.inflight - 1,
                      workers := if s.pending == [] && s.inflight == 1 then Woken(ws) else ws), i);
  }

  // --- The critical sections ---

  // What a worker does when its turn at the queue comes.
  datatype Turn = Take(dir: Dir) | Leave | Wait

  class DirectoryScanner {
    ghost const root: Dir
    var pending: seq<Dir>
    var inflight: nat
    var cancelRequested: bool
    ghost var cancelers: nat
    ghost var workers: seq<Worker>
    ghost var taken: multiset<Dir>

    ghost function Now(): State
      reads this
    {
      State(pending, inflight, cancelRequested, cancelers, workers, taken)
    }

    ghost predicate Valid()
      reads this
    {
      Invariant(Now(), root)
    }

    // Run, with the workers it spawns.
    constructor (start: Dir, count: nat)
      requires count > 0
      ensures Valid() && root == start && Init(Now(), start) && |workers| == count
    {
      root := start;
      pending, inflight, cancelRequested := [start], 0, false;
      cancelers, workers, taken := 0, seq(count, _ => Ready), multiset{};
      new;
      InitHolds(Now(), start);
    }

    method NotifyAll()
      modifies `workers
      ensures workers == Woken(old(workers))
    {
      workers := Woken(workers);
    }

    // The critical section at the head of WorkerLoop, up to a sleep.
    method TakeTurn(ghost i: nat) returns (turn: Turn)
      requires Valid() && Now().At(i, Ready) && !Now().Locked()
      modifies this
      ensures Valid()
      ensures match turn
              case Take(dir) => Goes(old(Now()), Now(), i) && Now().At(i, Scanning(dir)) && !cancelRequested
              case Leave => Goes(old(Now()), Now(), i)
                        && (cancelRequested || (old(pending) == [] && old(inflight) == 0))
              case Wait => Waits(old(Now()), Now(), i)
    {
      ghost var s := Now();
      if !(cancelRequested || pending != [] || inflight == 0) {
        workers := workers[i := Waiting];
        turn := Wait;
      } else if cancelRequested {
        workers := workers[i := Gone(true)];
        NotifyAll();
        turn := Leave;
      } else if pending == [] {
        workers := workers[i := Gone(false)];
        NotifyAll();
        turn := Leave;
      } else {
        var dir := pending[0];
        pending := pending[1..];
        inflight := inflight + 1;
        workers, taken := workers[i := Scanning(dir)], taken + multiset{dir};
        turn := Take(dir);
      }
      assert WorkerStep(s, Now(), i);
      StepHolds(s, Now(), root);
    }

    // What a scan found goes to the back of the queue, which is then about to be
    // notified.
    method EnqueueSubdirs(ghost i: nat, dir: Dir)
      requires Valid() && Now().At(i, Scanning(dir)) && !Now().Locked() && Queues(dir) != []
      modifies this
      ensures Valid() && Pushes(old(Now()), Now(), i)
    {
      ghost var s := Now();
      var subdirs := Queues(dir);
      var k := 0;
      while k < |subdirs|
        invariant 0 <= k <= |subdirs|
        invariant Now() == s.(pending := s.pending + subdirs[..k])
      {
        pending := pending + [subdirs[k]];
        k := k + 1;
      }
      assert subdirs[..k] == subdirs;
      workers := workers[i := Pushed];
      assert WorkerStep(s, Now(), i);
      StepHolds(s, Now(), root);
    }

    // The critical section at the foot of WorkerLoop.
    method Finish(ghost i: nat)
      requires Valid() && Now().At(i, Scanned) && !Now().Locked()
      modifies this
      ensures Valid() && Finishes(old(Now()), Now(), i)
    {
      ghost var s := Now();
      WorkerChanges(workers, i, Ready);
      workers := workers[i := Ready];
      inflight := inflight - 1;
      if pending == [] && inflight == 0 {
        NotifyAll();
      }
      assert WorkerStep(s, Now(), i);
      StepHolds(s, Now(), root);
    }

    // Cancel up to its lock, and under it.
    method RequestCancel()
      requires Valid()
      modifies this
      ensures Valid() && Cancels(old(Now()), Now())
    {
      ghost var s := Now();
      cancelRequested := true;
      cancelers := cancelers + 1;
      StepHolds(s, Now(), root);
    }

    method NotifyCancel()
      requires Valid() && cancelers > 0 && !Now().Locked()
      modifies this
      ensures Valid() && CancelNotifies(old(Now()), Now())
    {
      ghost var s := Now();
      cancelers := cancelers - 1;
      NotifyAll();
      StepHolds(s, Now(), root);
    }
  }
}
