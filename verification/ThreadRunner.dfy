/** The batch processor: worker threads, one caller, a mutex and two condition variables,
    as a state machine whose steps are the sections that the mutex or a notification make
    atomic. */
module ThreadRunner {
  import opened Basics

  /** Where a worker is. `Check` and `Scan` hold the mutex. */
  datatype Worker =
    | Top              // about to look at the kill flag, without the mutex
    | Loop             // about to take the mutex and look at the wait predicate
    | Check            // looks at the wait predicate
    | Asleep           // waits for a new batch
    | Scan(k: nat)     // looks at argument `k`
    | Call(k: nat)     // runs the function on argument `k`, without the mutex
    | Relock(k: nat)   // is back from argument `k` and about to take the mutex again
    | Notify           // was the last one and is about to notify the caller
    | Exited           // has returned

  /** Where the caller is. `CallerCheck` holds the mutex. */
  datatype Caller =
    | Idle             // not in a call
    | NotifyAll        // has published a batch and is about to notify the workers
    | CallerLoop       // about to take the mutex and look at the wait predicate
    | CallerCheck      // looks at the wait predicate
    | CallerAsleep     // waits for the last worker
    | Joining(k: nat)  // in the destructor, and has joined the first `k` workers

  datatype Mutex = Free | HeldBy(i: nat) | HeldByCaller

  /** The shared fields, the positions of all threads and a record of the calls of the
      current batch: how often each argument was passed to the function, how often that
      returned, and which worker took it. `batch` is the size of the argument vector that
      the batch pointers lead to, or nothing when they are null. */
  datatype State = State(
    workers: seq<Worker>, caller: Caller, mutex: Mutex, toKill: bool,
    batch: Option<nat>, done: seq<bool>, active: seq<bool>, numberActive: int,
    calls: seq<nat>, returned: seq<nat>, runner: seq<nat>)

  datatype Step =
    | Publish(m: nat)
    | CallerNotifies
    | CallerLocks
    | CallerSleeps
    | CallerFinishes
    | CallerKills
    | CallerJoins
    | WorkerEnters(i: nat)
    | WorkerExits(i: nat)
    | WorkerQuits(i: nat)
    | WorkerLocks(i: nat)
    | WorkerSleeps(i: nat)
    | WorkerStarts(i: nat)
    | WorkerSkips(i: nat)
    | WorkerTakes(i: nat)
    | WorkerReturns(i: nat)
    | WorkerRelocks(i: nat)
    | WorkerLeaves(i: nat)
    | WorkerNotifies(i: nat)
    | CallerWakesUp
    | WorkerWakesUp(i: nat)

  function Repeat<T>(n: nat, x: T): seq<T> {
    seq(n, _ => x)
  }

  function Resized(done: seq<bool>, m: nat): seq<bool> {
    if m <= |done| then done[..m] else done + Repeat(m - |done|, false)
  }

  function Init(n: nat): State {
    State(Repeat(n, Top), Idle, Free, false, None, [], Repeat(n, false), 0, [], [], [])
  }

  predicate At(s: State, i: nat, w: Worker) {
    i < |s.workers| && s.workers[i] == w
  }

  predicate Scanning(s: State, i: nat) {
    i < |s.workers| && s.workers[i].Scan? && s.mutex == HeldBy(i) && s.batch.Some? && |s.done| == s.batch.value
  }

  predicate Enabled(s: State, st: Step) {
    match st
    case Publish(m) => s.caller == Idle && s.mutex == Free
    case CallerNotifies => s.caller == NotifyAll
    case CallerLocks => s.caller == CallerLoop && s.mutex == Free
    case CallerSleeps => s.caller == CallerCheck && s.numberActive != 0
    case CallerFinishes => s.caller == CallerCheck && s.numberActive == 0
    case CallerKills => s.caller == Idle && s.mutex == Free
    case CallerJoins => s.caller.Joining? && At(s, s.caller.k, Exited)
    case WorkerEnters(i) => At(s, i, Top) && !s.toKill
    case WorkerExits(i) => At(s, i, Top) && s.toKill
    case WorkerQuits(i) => At(s, i, Check) && s.toKill
    case WorkerLocks(i) => At(s, i, Loop) && s.mutex == Free
    case WorkerSleeps(i) => At(s, i, Check) && !s.toKill && i < |s.active| && !s.active[i]
    case WorkerStarts(i) => At(s, i, Check) && !s.toKill && i < |s.active| && s.active[i]
    case WorkerSkips(i) => Scanning(s, i) && s.workers[i].k < |s.done| && s.done[s.workers[i].k]
    case WorkerTakes(i) =>
      && Scanning(s, i) && s.workers[i].k < |s.done| && !s.done[s.workers[i].k]
      && s.workers[i].k < |s.calls| && s.workers[i].k < |s.runner|
    case WorkerReturns(i) =>
      i < |s.workers| && s.workers[i].Call? && s.workers[i].k < |s.returned| && s.batch.Some?
    case WorkerRelocks(i) => i < |s.workers| && s.workers[i].Relock? && s.mutex == Free
    case WorkerLeaves(i) => Scanning(s, i) && s.workers[i].k == |s.done| && i < |s.active|
    case WorkerNotifies(i) => At(s, i, Notify)
    case CallerWakesUp => s.caller == CallerAsleep
    case WorkerWakesUp(i) => At(s, i, Asleep)
  }

  function Wake(w: Worker): Worker {
    if w == Asleep then Loop else w
  }

  function AllWake(workers: seq<Worker>): seq<Worker> {
    seq(|workers|, i requires 0 <= i < |workers| => Wake(workers[i]))
  }

  function Do(s: State, st: Step): State
    requires Enabled(s, st)
  {
    match st
    case Publish(m) =>
      s.(caller := NotifyAll, batch := Some(m), done := Resized(s.done, m),
         active := Repeat(|s.workers|, true), numberActive := |s.workers|,
         calls := Repeat(m, 0), returned := Repeat(m, 0), runner := Repeat(m, 0))
    case CallerNotifies =>
      s.(caller := CallerLoop, workers := AllWake(s.workers))
    case CallerLocks => s.(caller := CallerCheck, mutex := HeldByCaller)
    case CallerSleeps => s.(caller := CallerAsleep, mutex := Free)
    case CallerFinishes =>
      s.(caller := Idle, mutex := Free, batch := None, done := [], active := Repeat(|s.workers|, false),
         calls := [], returned := [], runner := [])
    case CallerKills => s.(caller := Joining(0), toKill := true, workers := AllWake(s.workers))
    case CallerJoins => s.(caller := Joining(s.caller.k + 1))
    case WorkerEnters(i) => s.(workers := s.workers[i := Loop])
    case WorkerExits(i) => s.(workers := s.workers[i := Exited])
    case WorkerQuits(i) => s.(workers := s.workers[i := Exited], mutex := Free)
    case WorkerLocks(i) => s.(workers := s.workers[i := Check], mutex := HeldBy(i))
    case WorkerSleeps(i) => s.(workers := s.workers[i := Asleep], mutex := Free)
    case WorkerStarts(i) => s.(workers := s.workers[i := Scan(0)])
    case WorkerSkips(i) => s.(workers := s.workers[i := Scan(s.workers[i].k + 1)])
    case WorkerTakes(i) =>
      var k := s.workers[i].k;
      s.(workers := s.workers[i := Call(k)], mutex := Free, done := s.done[k := true],
         calls := s.calls[k := s.calls[k] + 1], runner := s.runner[k := i])
    case WorkerReturns(i) =>
      var k := s.workers[i].k;
      s.(workers := s.workers[i := Relock(k)], returned := s.returned[k := s.returned[k] + 1])
    case WorkerRelocks(i) => s.(workers := s.workers[i := Scan(s.workers[i].k + 1)], mutex := HeldBy(i))
    case WorkerLeaves(i) =>
      s.(workers := s.workers[i := if s.numberActive - 1 == 0 then Notify else Top], mutex := Free,
         active := s.active[i := false], numberActive := s.numberActive - 1)
    case WorkerNotifies(i) =>
      s.(workers := s.workers[i := Top], caller := if s.caller == CallerAsleep then CallerLoop else s.caller)
    case CallerWakesUp => s.(caller := CallerLoop)
    case WorkerWakesUp(i) => s.(workers := s.workers[i := Loop])
  }

  // ---------- counting active workers ----------

  ghost function Count(active: seq<bool>): nat {
    if active == [] then 0 else Count(active[..|active| - 1]) + if active[|active| - 1] then 1 else 0
  }

  lemma {:induction false} CountUpdate(active: seq<bool>, i: nat)
    requires i < |active| && active[i]
    ensures Count(active[i := false]) == Count(active) - 1
  {
    var n := |active| - 1;
    if i < n {
      CountUpdate(active[..n], i);
      assert active[i := false][..n] == active[..n][i := false];
    } else {
      assert active[i := false][..n] == active[..n];
    }
  }

  lemma {:induction false} CountRepeat(n: nat, b: bool)
    ensures Count(Repeat(n, b)) == if b then n else 0
  {
    if n > 0 {
      CountRepeat(n - 1, b);
      assert Repeat(n, b)[..n - 1] == Repeat(n - 1, b);
    }
  }

  lemma {:induction false} CountZero(active: seq<bool>)
    ensures Count(active) == 0 <==> forall i :: 0 <= i < |active| ==> !active[i]
  {
    if active != [] {
      var n := |active| - 1;
      CountZero(active[..n]);
      if Count(active) == 0 {
        forall i | 0 <= i < |active| ensures !active[i] {
          assert i < n ==> active[i] == active[..n][i];
        }
      }
    }
  }

  // ---------- the invariant ----------

  predicate Holds(w: Worker) {
    w == Check || w.Scan?
  }

  predicate Busy(w: Worker) {
    w.Scan? || w.Call? || w.Relock?
  }

  /** Arguments below this position have been taken when the worker is at `w`. */
  function Passed(w: Worker): nat {
    match w
    case Scan(k) => k
    case Call(k) => k + 1
    case Relock(k) => k + 1
    case _ => 0
  }

  ghost predicate Shapes(s: State) {
    && |s.active| == |s.workers| && s.numberActive == Count(s.active)
    && (s.batch.Some? <==> InCall(s.caller)) && (s.toKill <==> s.caller.Joining?)
    && |s.done| == |s.calls| == |s.returned| == |s.runner| == (if s.batch.Some? then s.batch.value else 0)
    && (!InCall(s.caller) ==> forall i :: 0 <= i < |s.active| ==> !s.active[i])
  }

  predicate InCall(c: Caller) {
    c != Idle && !c.Joining?
  }

  /** The mutex is held by exactly the thread whose position says so. */
  ghost predicate Exclusion(s: State) {
    && (forall i: nat :: i < |s.workers| ==> (Holds(s.workers[i]) <==> s.mutex == HeldBy(i)))
    && (s.caller == CallerCheck <==> s.mutex == HeldByCaller)
    && (s.mutex.HeldBy? ==> s.mutex.i < |s.workers|)
  }

  ghost predicate TakenBefore(s: State, k: nat) {
    k <= |s.done| && forall j :: 0 <= j < k ==> s.done[j]
  }

  ghost predicate WorkerOk(s: State, i: nat)
    requires i < |s.workers| && |s.active| == |s.workers|
  {
    var w := s.workers[i];
    && (Busy(w) ==> s.active[i] && s.batch.Some? && TakenBefore(s, Passed(w)))
    && (w == Asleep && s.active[i] ==> s.caller == NotifyAll)
    && (!s.active[i] && s.batch.Some? ==> TakenBefore(s, s.batch.value))
    && (w.Call? ==> w.k < |s.runner| && s.runner[w.k] == i)
    && (if s.toKill then w != Asleep else w != Exited)
  }

  /** Argument `j` was passed on once if it is taken, and that call has returned unless the
      worker that took it is still in it. */
  ghost predicate ArgumentOk(s: State, j: nat)
    requires j < |s.done| && |s.done| == |s.calls| == |s.returned| == |s.runner|
  {
    && s.calls[j] == (if s.done[j] then 1 else 0)
    && (s.done[j] ==> s.runner[j] < |s.workers|)
    && s.returned[j] == (if s.done[j] && s.runner[j] < |s.workers| && s.workers[s.runner[j]] != Call(j) then 1 else 0)
  }

  /** A sleeping caller will be notified: someone is active, or about to notify. */
  ghost predicate CallerOk(s: State) {
    && (s.caller == CallerAsleep ==> s.numberActive > 0 || exists i: nat :: At(s, i, Notify))
    && (s.caller.Joining? ==> s.caller.k <= |s.workers| && forall i: nat :: i < s.caller.k ==> At(s, i, Exited))
  }

  ghost predicate Inv(s: State) {
    && Shapes(s) && Exclusion(s) && CallerOk(s)
    && (forall i: nat :: i < |s.workers| ==> WorkerOk(s, i))
    && (forall j: nat :: j < |s.done| ==> ArgumentOk(s, j))
  }

  lemma InitInv(n: nat)
    ensures Inv(Init(n)) && |Init(n).workers| == n
  {
    CountRepeat(n, false);
  }

  // ---------- every step keeps the invariant ----------

  lemma PublishInv(s: State, m: nat)
    requires Inv(s) && Enabled(s, Publish(m))
    ensures Inv(Do(s, Publish(m)))
  {
    CountRepeat(|s.workers|, true);
    var t := Do(s, Publish(m));
    assert t.done == Repeat(m, false);
    forall i: nat | i < |t.workers| ensures WorkerOk(t, i) {
      assert WorkerOk(s, i);
    }
  }

  lemma CallerStepInv(s: State, st: Step)
    requires Inv(s) && Enabled(s, st)
    requires st == CallerNotifies || st == CallerLocks || st == CallerSleeps || st == CallerWakesUp || st == CallerJoins
    ensures Inv(Do(s, st))
  {
    hide Count;
    var t := Do(s, st);
    forall i: nat | t.caller.Joining? && i < t.caller.k ensures At(t, i, Exited) {
      assert i < s.caller.k ==> At(s, i, Exited);
    }
    forall i: nat | i < |t.workers| ensures WorkerOk(t, i) {
      assert WorkerOk(s, i);
    }
    forall j: nat | j < |t.done| ensures ArgumentOk(t, j) {
      assert ArgumentOk(s, j);
    }
  }

  lemma FinishInv(s: State)
    requires Inv(s) && Enabled(s, CallerFinishes)
    ensures Inv(Do(s, CallerFinishes))
  {
    CountRepeat(|s.workers|, false);
    CountZero(s.active);
    var t := Do(s, CallerFinishes);
    forall i: nat | i < |t.workers| ensures WorkerOk(t, i) {
      assert WorkerOk(s, i);
    }
  }

  /** The destructor sets the flag and wakes all workers while it has the mutex. */
  lemma KillInv(s: State)
    requires Inv(s) && Enabled(s, CallerKills)
    ensures Inv(Do(s, CallerKills))
  {
    hide Count;
    var t := Do(s, CallerKills);
    forall i: nat | i < |t.workers| ensures WorkerOk(t, i) {
      assert WorkerOk(s, i);
    }
  }

  lemma StillNotified(s: State, t: State, i: nat)
    requires CallerOk(s) && t.caller == s.caller && t.numberActive == s.numberActive && |t.workers| == |s.workers|
    requires forall h: nat :: h < |s.workers| && h != i ==> t.workers[h] == s.workers[h]
    requires i < |s.workers| && s.workers[i] != Notify && s.workers[i] != Exited
    ensures CallerOk(t)
  {
    if t.caller.Joining? {
      forall h: nat | h < t.caller.k ensures At(t, h, Exited) {
        assert At(s, h, Exited);
      }
    }
    if t.caller == CallerAsleep && s.numberActive <= 0 {
      var h: nat :| At(s, h, Notify);
      assert At(t, h, Notify);
    }
  }

  /** Steps of a worker that is not on an argument. */
  lemma WaitInv(s: State, st: Step)
    requires Inv(s) && Enabled(s, st)
    requires st.WorkerLocks? || st.WorkerSleeps? || st.WorkerStarts? || st.WorkerWakesUp?
    ensures Inv(Do(s, st))
  {
    hide Count;
    var t := Do(s, st);
    StillNotified(s, t, st.i);
    hide CallerOk;
    forall i: nat | i < |t.workers| ensures WorkerOk(t, i) {
      assert WorkerOk(s, i);
    }
    forall j: nat | j < |t.done| ensures ArgumentOk(t, j) {
      assert ArgumentOk(s, j);
    }
  }

  /** Steps of a worker that looks at the kill flag. */
  lemma FlagInv(s: State, st: Step)
    requires Inv(s) && Enabled(s, st)
    requires st.WorkerEnters? || st.WorkerExits? || st.WorkerQuits?
    ensures Inv(Do(s, st))
  {
    hide Count;
    var t := Do(s, st);
    StillNotified(s, t, st.i);
    hide CallerOk;
    forall i: nat | i < |t.workers| ensures WorkerOk(t, i) {
      assert WorkerOk(s, i);
    }
    forall j: nat | j < |t.done| ensures ArgumentOk(t, j) {
      assert ArgumentOk(s, j);
    }
  }

  /** Steps of a worker to its next argument. */
  lemma AdvanceInv(s: State, st: Step)
    requires Inv(s) && Enabled(s, st)
    requires st.WorkerSkips? || st.WorkerRelocks?
    ensures Inv(Do(s, st))
  {
    hide Count;
    var t := Do(s, st);
    assert WorkerOk(s, st.i);
    StillNotified(s, t, st.i);
    hide CallerOk;
    forall i: nat | i < |t.workers| ensures WorkerOk(t, i) {
      assert WorkerOk(s, i);
    }
    forall j: nat | j < |t.done| ensures ArgumentOk(t, j) {
      assert ArgumentOk(s, j);
    }
  }

  lemma TakeInv(s: State, i: nat)
    requires Inv(s) && Enabled(s, WorkerTakes(i))
    ensures Inv(Do(s, WorkerTakes(i)))
  {
    hide Count;
    var t := Do(s, WorkerTakes(i));
    forall h: nat | h < |t.workers| ensures WorkerOk(t, h) {
      assert WorkerOk(s, h);
    }
    forall j: nat | j < |t.done| ensures ArgumentOk(t, j) {
      assert ArgumentOk(s, j);
    }
    StillNotified(s, t, i);
  }

  lemma ReturnInv(s: State, i: nat)
    requires Inv(s) && Enabled(s, WorkerReturns(i))
    ensures Inv(Do(s, WorkerReturns(i)))
  {
    hide Count;
    var t := Do(s, WorkerReturns(i));
    assert WorkerOk(s, i);
    forall h: nat | h < |t.workers| ensures WorkerOk(t, h) {
      assert WorkerOk(s, h);
    }
    forall j: nat | j < |t.done| ensures ArgumentOk(t, j) {
      assert ArgumentOk(s, j);
    }
    StillNotified(s, t, i);
  }

  lemma LeaveInv(s: State, i: nat)
    requires Inv(s) && Enabled(s, WorkerLeaves(i))
    ensures Inv(Do(s, WorkerLeaves(i)))
  {
    var t := Do(s, WorkerLeaves(i));
    assert WorkerOk(s, i);
    CountUpdate(s.active, i);
    hide Count;
    forall h: nat | h < |t.workers| ensures WorkerOk(t, h) {
      assert WorkerOk(s, h);
    }
    forall j: nat | j < |t.done| ensures ArgumentOk(t, j) {
      assert ArgumentOk(s, j);
    }
    assert t.numberActive == 0 ==> At(t, i, Notify);
  }

  lemma NotifyInv(s: State, i: nat)
    requires Inv(s) && Enabled(s, WorkerNotifies(i))
    ensures Inv(Do(s, WorkerNotifies(i)))
  {
    hide Count;
    var t := Do(s, WorkerNotifies(i));
    forall h: nat | t.caller.Joining? && h < t.caller.k ensures At(t, h, Exited) {
      assert At(s, h, Exited);
    }
    forall h: nat | h < |t.workers| ensures WorkerOk(t, h) {
      assert WorkerOk(s, h);
    }
    forall j: nat | j < |t.done| ensures ArgumentOk(t, j) {
      assert ArgumentOk(s, j);
    }
  }

  lemma StepInv(s: State, st: Step)
    requires Inv(s) && Enabled(s, st)
    ensures Inv(Do(s, st))
  {
    hide Inv;
    match st
    case Publish(m) => PublishInv(s, m);
    case CallerNotifies => CallerStepInv(s, st);
    case CallerLocks => CallerStepInv(s, st);
    case CallerSleeps => CallerStepInv(s, st);
    case CallerWakesUp => CallerStepInv(s, st);
    case CallerJoins => CallerStepInv(s, st);
    case CallerKills => KillInv(s);
    case CallerFinishes => FinishInv(s);
    case WorkerEnters(i) => FlagInv(s, st);
    case WorkerExits(i) => FlagInv(s, st);
    case WorkerQuits(i) => FlagInv(s, st);
    case WorkerTakes(i) => TakeInv(s, i);
    case WorkerReturns(i) => ReturnInv(s, i);
    case WorkerLeaves(i) => LeaveInv(s, i);
    case WorkerNotifies(i) => NotifyInv(s, i);
    case WorkerSkips(i) => AdvanceInv(s, st);
    case WorkerRelocks(i) => AdvanceInv(s, st);
    case _ => WaitInv(s, st);
  }

  // ---------- safety over all runs ----------

  /** A run: it starts in the initial state and step `i` leads from state `i` to the next. */
  ghost predicate IsRun(n: nat, run: seq<State>, steps: seq<Step>) {
    && |run| == |steps| + 1 && run[0] == Init(n)
    && forall i :: 0 <= i < |steps| ==> Enabled(run[i], steps[i]) && run[i + 1] == Do(run[i], steps[i])
  }

  lemma {:induction false} RunInv(n: nat, run: seq<State>, steps: seq<Step>, i: nat)
    requires IsRun(n, run, steps) && i < |run|
    ensures Inv(run[i]) && |run[i].workers| == n
  {
    hide *;
    RunStarts(n, run, steps);
    if i == 0 {
      InitInv(n);
    } else {
      RunInv(n, run, steps, i - 1);
      RunStep(n, run, steps, i - 1);
      StepInv(run[i - 1], steps[i - 1]);
      ThreadsStay(run[i - 1], steps[i - 1]);
    }
  }

  lemma RunStarts(n: nat, run: seq<State>, steps: seq<Step>)
    requires IsRun(n, run, steps)
    ensures |run| == |steps| + 1 && run[0] == Init(n)
  {
  }

  lemma RunStep(n: nat, run: seq<State>, steps: seq<Step>, i: nat)
    requires IsRun(n, run, steps) && i < |steps|
    ensures |run| == |steps| + 1 && Enabled(run[i], steps[i]) && run[i + 1] == Do(run[i], steps[i])
  {
  }

  lemma ThreadsStay(s: State, st: Step)
    requires Enabled(s, st)
    ensures |Do(s, st).workers| == |s.workers|
  {
  }

  // ---------- the calls of a batch, counted along the run ----------

  /** A worker passes argument `j` to the function. */
  predicate Starts(s: State, st: Step, j: nat) {
    st.WorkerTakes? && At(s, st.i, Scan(j))
  }

  /** A worker is back from argument `j`. */
  predicate Ends(s: State, st: Step, j: nat) {
    st.WorkerReturns? && At(s, st.i, Call(j))
  }

  /** How many of the steps from `a` up to `b` pass argument `j` to the function. */
  ghost function Started(run: seq<State>, steps: seq<Step>, a: nat, b: nat, j: nat): nat
    requires a <= b <= |steps| <= |run|
  {
    if a == b then 0 else Started(run, steps, a, b - 1, j) + if Starts(run[b - 1], steps[b - 1], j) then 1 else 0
  }

  ghost function Ended(run: seq<State>, steps: seq<Step>, a: nat, b: nat, j: nat): nat
    requires a <= b <= |steps| <= |run|
  {
    if a == b then 0 else Ended(run, steps, a, b - 1, j) + if Ends(run[b - 1], steps[b - 1], j) then 1 else 0
  }

  /** The record says that argument `j` was passed on and came back so many times in a batch of
      `m`; nothing else was passed on. */
  ghost predicate Recorded(s: State, m: nat, j: nat, started: nat, ended: nat) {
    && s.batch == Some(m) && |s.calls| == |s.returned| == m
    && (if j < m then s.calls[j] == started && s.returned[j] == ended else started == 0)
  }

  lemma RecordStep(s: State, st: Step, m: nat, j: nat, started: nat, ended: nat)
    requires Inv(s) && Enabled(s, st) && st != CallerFinishes && Recorded(s, m, j, started, ended)
    ensures var more, back := if Starts(s, st, j) then 1 else 0, if Ends(s, st, j) then 1 else 0;
      Recorded(Do(s, st), m, j, started + more, ended + back)
  {
    hide Count;
  }

  lemma PublishRecords(s: State, m: nat, j: nat)
    requires Enabled(s, Publish(m))
    ensures Recorded(Do(s, Publish(m)), m, j, 0, 0)
  {
  }

  /** The call that step `i` starts with `m` arguments is still going on at state `k`. */
  ghost predicate InBatch(steps: seq<Step>, i: nat, m: nat, k: nat) {
    i < k <= |steps| && steps[i] == Publish(m) && forall x :: i < x < k ==> steps[x] != CallerFinishes
  }

  /** Until the call is over, the batch is the one that was handed over and the record counts
      what the workers have done since. */
  lemma {:induction false} RecordCounts(n: nat, run: seq<State>, steps: seq<Step>, i: nat, m: nat, k: nat, j: nat)
    requires IsRun(n, run, steps) && InBatch(steps, i, m, k)
    ensures Recorded(run[k], m, j, Started(run, steps, i, k, j), Ended(run, steps, i, k, j))
    decreases k
  {
    hide Inv, Enabled, Do, IsRun, Recorded;
    var before := k - 1;
    RunStep(n, run, steps, before);
    if k == i + 1 {
      PublishRecords(run[i], m, j);
    } else {
      RunInv(n, run, steps, before);
      RecordCounts(n, run, steps, i, m, before, j);
      hide Starts, Ends;
      RecordStep(run[before], steps[before], m, j, Started(run, steps, i, before, j), Ended(run, steps, i, before, j));
    }
  }

  /** In every state of every run: no argument is passed on twice in a batch, and a worker
      that looks at arguments or runs the function finds the batch pointers set. */
  lemma AtMostOnce(n: nat, run: seq<State>, steps: seq<Step>, i: nat)
    requires IsRun(n, run, steps) && i < |run|
    ensures forall j :: 0 <= j < |run[i].calls| ==> run[i].calls[j] <= 1
    ensures forall h :: 0 <= h < |run[i].workers| && Busy(run[i].workers[h]) ==>
      run[i].batch.Some? && Passed(run[i].workers[h]) <= run[i].batch.value
  {
    RunInv(n, run, steps, i);
    var s := run[i];
    forall j | 0 <= j < |s.calls| ensures s.calls[j] <= 1 {
      assert ArgumentOk(s, j);
    }
    forall h | 0 <= h < n && Busy(s.workers[h]) ensures s.batch.Some? && Passed(s.workers[h]) <= s.batch.value {
      assert WorkerOk(s, h);
    }
  }

  lemma FinishedState(s: State)
    requires Inv(s) && Enabled(s, CallerFinishes) && |s.workers| >= 1
    ensures s.batch.Some? && |s.calls| == |s.returned| == s.batch.value
    ensures forall j :: 0 <= j < s.batch.value ==> s.calls[j] == 1 && s.returned[j] == 1
    ensures forall h :: 0 <= h < |s.workers| ==> !Busy(s.workers[h])
  {
    CountZero(s.active);
    assert WorkerOk(s, 0);
    forall h: nat | h < |s.workers| ensures !Busy(s.workers[h]) {
      assert WorkerOk(s, h);
    }
    forall j | 0 <= j < s.batch.value ensures s.calls[j] == 1 && s.returned[j] == 1 {
      assert ArgumentOk(s, j);
    }
  }

  /** When the call that handed over `m` arguments gets past its wait, each of them has been
      passed on exactly once since, and nothing else has; all those calls have returned, and no
      worker is left on the batch. */
  lemma BatchIsComplete(n: nat, run: seq<State>, steps: seq<Step>, i: nat, m: nat, k: nat)
    requires IsRun(n, run, steps) && InBatch(steps, i, m, k) && Enabled(run[k], CallerFinishes) && n >= 1
    ensures run[k].batch == Some(m) && |run[k].calls| == |run[k].returned| == m
    ensures forall j :: 0 <= j < m ==> run[k].calls[j] == 1 && run[k].returned[j] == 1
    ensures forall j: nat :: Started(run, steps, i, k, j) == if j < m then 1 else 0
    ensures forall j: nat :: j < m ==> Ended(run, steps, i, k, j) == 1
    ensures forall h :: 0 <= h < |run[k].workers| ==> !Busy(run[k].workers[h])
  {
    hide Inv, Enabled, Started, Ended;
    RunInv(n, run, steps, k);
    FinishedState(run[k]);
    RecordCounts(n, run, steps, i, m, k, 0);
    forall j: nat
      ensures Started(run, steps, i, k, j) == if j < m then 1 else 0
      ensures j < m ==> Ended(run, steps, i, k, j) == 1
    {
      RecordCounts(n, run, steps, i, m, k, j);
    }
  }

  /** The destructor is past its last join only when every worker has returned, and no worker
      is then on a batch or holds the mutex. */
  lemma DestructorWaits(n: nat, run: seq<State>, steps: seq<Step>, i: nat)
    requires IsRun(n, run, steps) && i < |run| && run[i].caller == Joining(n)
    ensures forall h :: 0 <= h < |run[i].workers| ==> run[i].workers[h] == Exited
    ensures run[i].mutex == Free && run[i].batch.None?
  {
    RunInv(n, run, steps, i);
    var s := run[i];
    forall h: nat | h < n ensures s.workers[h] == Exited {
      assert At(s, h, Exited);
    }
  }

  /** Without workers a call returns at once, whatever the batch: nothing is run. */
  lemma NoWorkersNothingRun(m: nat)
    ensures var steps := [Publish(m), CallerNotifies, CallerLocks];
      var s1 := Do(Init(0), steps[0]);
      Enabled(s1, steps[1]) && Enabled(Do(s1, steps[1]), steps[2])
      && var s := Do(Do(s1, steps[1]), steps[2]);
        Enabled(s, CallerFinishes) && |s.calls| == m && forall j :: 0 <= j < m ==> s.calls[j] == 0
  {
  }

  // ---------- a call and the destructor always return ----------

  /** Steps inside a batch or the destructor that some thread takes by itself: not the start
      and end of a batch, not the start of the destructor, and no wake-up that nobody asked
      for. */
  predicate Productive(st: Step) {
    !st.Publish? && !st.CallerKills? && !st.CallerFinishes? && !st.CallerWakesUp? && !st.WorkerWakesUp?
  }

  lemma WorkerCanMove(s: State, i: nat) returns (st: Step)
    requires Inv(s) && i < |s.workers| && s.workers[i] != Asleep && s.workers[i] != Exited
    requires s.mutex == Free || s.mutex == HeldBy(i)
    ensures Enabled(s, st) && Productive(st)
  {
    hide Count;
    assert WorkerOk(s, i);
    match s.workers[i]
    case Top => st := if s.toKill then WorkerExits(i) else WorkerEnters(i);
    case Loop => st := WorkerLocks(i);
    case Check => st := if s.toKill then WorkerQuits(i) else if s.active[i] then WorkerStarts(i) else WorkerSleeps(i);
    case Scan(k) =>
      st := if k == |s.done| then WorkerLeaves(i) else if s.done[k] then WorkerSkips(i) else WorkerTakes(i);
    case Call(k) => st := WorkerReturns(i);
    case Relock(k) => st := WorkerRelocks(i);
    case Notify => st := WorkerNotifies(i);
  }

  /** No lost wake-up and no deadlock: inside a call, and inside the destructor until all
      workers are joined, some thread can always move. */
  lemma NoDeadlock(s: State) returns (st: Step)
    requires Inv(s) && s.caller != Idle && s.caller != Joining(|s.workers|)
    ensures Enabled(s, st) && (Productive(st) || st == CallerFinishes)
  {
    match s.mutex
    case HeldBy(i) =>
      assert Holds(s.workers[i]);
      st := WorkerCanMove(s, i);
    case HeldByCaller =>
      st := if s.numberActive == 0 then CallerFinishes else CallerSleeps;
    case Free =>
      match s.caller
      case NotifyAll => st := CallerNotifies;
      case CallerLoop => st := CallerLocks;
      case Joining(k) =>
        assert WorkerOk(s, k);
        if s.workers[k] == Exited {
          st := CallerJoins;
        } else {
          st := WorkerCanMove(s, k);
        }
      case CallerAsleep =>
        CountZero(s.active);
        hide Count;
        if s.numberActive > 0 {
          var i: nat :| i < |s.active| && s.active[i];
          assert WorkerOk(s, i);
          st := WorkerCanMove(s, i);
        } else {
          var i: nat :| At(s, i, Notify);
          st := WorkerNotifies(i);
        }
  }

  /** An upper bound on the steps that a worker still takes in the batch. */
  function Weight(w: Worker, active: bool, m: nat): int {
    match w
    case Scan(k) => 3 * (m - k) + 7
    case Call(k) => 3 * (m - k) + 6
    case Relock(k) => 3 * (m - k) + 5
    case Notify => if active then 3 * m + 13 else 6
    case Asleep => if active then 3 * m + 10 else 0
    case Top => if active then 3 * m + 10 else 3
    case Loop => if active then 3 * m + 9 else 2
    case Check => if active then 3 * m + 8 else 1
    case Exited => 0
  }

  ghost function WeightOf(s: State, i: nat): int
    requires i < |s.workers| && |s.active| == |s.workers|
  {
    Weight(s.workers[i], s.active[i], |s.done|)
  }

  ghost function Sum(s: State, n: nat): int
    requires n <= |s.workers| && |s.active| == |s.workers|
  {
    if n == 0 then 0 else Sum(s, n - 1) + WeightOf(s, n - 1)
  }

  function CallerWeight(s: State): nat {
    match s.caller
    case Idle => 0
    case NotifyAll => 3 + 2 * |s.workers|
    case CallerLoop => 2
    case CallerCheck => 1
    case CallerAsleep => 0
    case Joining(k) => if k <= |s.workers| then |s.workers| - k else 0
  }

  ghost function Remaining(s: State): int
    requires |s.active| == |s.workers|
  {
    CallerWeight(s) + Sum(s, |s.workers|)
  }

  lemma {:induction false} SumOneMoves(s: State, t: State, i: nat, n: nat)
    requires n <= |s.workers| && |s.active| == |s.workers| == |t.workers| == |t.active| && i < |s.workers|
    requires forall h: nat :: h < |s.workers| && h != i ==> WeightOf(t, h) == WeightOf(s, h)
    ensures Sum(t, n) == Sum(s, n) + if i < n then WeightOf(t, i) - WeightOf(s, i) else 0
  {
    if n > 0 {
      SumOneMoves(s, t, i, n - 1);
    }
    hide WeightOf;
  }

  lemma {:induction false} SumGrows(s: State, t: State, n: nat, d: nat)
    requires n <= |s.workers| && |s.active| == |s.workers| == |t.workers| == |t.active|
    requires forall h: nat :: h < |s.workers| ==> WeightOf(t, h) <= WeightOf(s, h) + d
    ensures Sum(t, n) <= Sum(s, n) + d * n
  {
    if n > 0 {
      SumGrows(s, t, n - 1, d);
      assert d * n == d * (n - 1) + d;
    }
    hide WeightOf;
  }

  lemma {:induction false} SumNonNegative(s: State, n: nat)
    requires Inv(s) && n <= |s.workers|
    ensures Sum(s, n) >= 0
  {
    if n > 0 {
      SumNonNegative(s, n - 1);
      assert WorkerOk(s, n - 1);
    }
  }

  /** The weight of the worker that moves drops; what it does to the caller is covered. */
  lemma MoverLosesWeight(s: State, st: Step, i: nat)
    requires Inv(s) && Enabled(s, st) && Productive(st)
    requires st.CallerNotifies? || st.CallerLocks? || st.CallerSleeps? || st.CallerJoins? || st.i == i
    requires !(st.CallerNotifies? || st.CallerLocks? || st.CallerSleeps? || st.CallerJoins?)
    ensures var t := Do(s, st);
      && i < |s.workers| == |t.workers| == |t.active| && |t.done| == |s.done|
      && (forall h: nat :: h < |s.workers| && h != i ==> t.workers[h] == s.workers[h] && t.active[h] == s.active[h])
      && WeightOf(t, i) + CallerWeight(t) < WeightOf(s, i) + CallerWeight(s)
  {
    hide Count;
    assert WorkerOk(s, i);
  }

  /** Every step inside a batch uses up some of what remains. */
  lemma StepUsesUp(s: State, st: Step)
    requires Inv(s) && Enabled(s, st) && Productive(st)
    ensures |Do(s, st).active| == |Do(s, st).workers| && Remaining(Do(s, st)) < Remaining(s)
  {
    hide Count;
    var t, n := Do(s, st), |s.workers|;
    if st.CallerNotifies? {
      forall h: nat | h < n ensures WeightOf(t, h) <= WeightOf(s, h) + 2 {
        assert WorkerOk(s, h);
      }
      SumGrows(s, t, n, 2);
    } else if st.CallerLocks? || st.CallerSleeps? || st.CallerJoins? {
      forall h: nat | h < n ensures WeightOf(t, h) <= WeightOf(s, h) + 0 {
      }
      SumGrows(s, t, n, 0);
    } else {
      MoverLosesWeight(s, st, st.i);
      hide Do, Inv, Enabled, CallerWeight;
      SumOneMoves(s, t, st.i, n);
    }
  }

  ghost predicate Works(s: State, t: State) {
    exists st :: Enabled(s, st) && Productive(st) && Do(s, st) == t
  }

  /** Inside a batch or the destructor, whatever the schedule, no more than a bounded number of
      steps can be taken before the caller passes its wait or its last join. */
  lemma {:induction false} BatchIsBounded(run: seq<State>)
    requires run != [] && Inv(run[0])
    requires forall i :: 0 <= i < |run| - 1 ==> Works(run[i], run[i + 1])
    ensures |run| - 1 <= Remaining(run[0])
    decreases |run|
  {
    var s := run[0];
    if |run| == 1 {
      SumNonNegative(s, |s.workers|);
    } else {
      assert Works(run[0], run[0 + 1]);
      var st :| Enabled(s, st) && Productive(st) && Do(s, st) == run[1];
      hide Inv, Enabled, Do, Remaining, Works;
      StepInv(s, st);
      StepUsesUp(s, st);
      var rest := run[1..];
      forall i | 0 <= i < |rest| - 1 ensures Works(rest[i], rest[i + 1]) {
        assert Works(run[i + 1], run[i + 1 + 1]);
      }
      BatchIsBounded(rest);
    }
  }

  /** The steps lead from one state to the other. */
  ghost predicate Leads(s: State, steps: seq<Step>, t: State)
    decreases |steps|
  {
    if steps == [] then s == t else Enabled(s, steps[0]) && Leads(Do(s, steps[0]), steps[1..], t)
  }

  lemma StaysInCall(s: State, st: Step)
    requires Enabled(s, st) && Productive(st) && InCall(s.caller)
    ensures InCall(Do(s, st).caller)
  {
  }

  lemma FinishLeaves(s: State)
    requires Enabled(s, CallerFinishes)
    ensures Leads(s, [CallerFinishes], Do(s, CallerFinishes)) && Do(s, CallerFinishes).caller == Idle
  {
    assert [CallerFinishes][1..] == [];
    assert Leads(Do(s, CallerFinishes), [], Do(s, CallerFinishes));
  }

  /** From every state inside a call there is a way to its end. */
  lemma {:induction false} CallCanReturn(s: State) returns (steps: seq<Step>, t: State)
    requires Inv(s) && InCall(s.caller)
    ensures Leads(s, steps, t) && t.caller == Idle
    ensures |steps| > 0 && steps[|steps| - 1] == CallerFinishes
    ensures forall i :: 0 <= i < |steps| - 1 ==> Productive(steps[i])
    decreases Remaining(s)
  {
    SumNonNegative(s, |s.workers|);
    assert Remaining(s) >= 0;
    var st := NoDeadlock(s);
    hide Inv, Enabled, Do, Remaining, Productive;
    if st == CallerFinishes {
      FinishLeaves(s);
      return [st], Do(s, st);
    }
    StepInv(s, st);
    StepUsesUp(s, st);
    StaysInCall(s, st);
    var rest;
    rest, t := CallCanReturn(Do(s, st));
    steps := [st] + rest;
    assert steps[1..] == rest;
  }

  /** Between calls any batch can be handed over, and the destructor can start, after at most one
      step of a worker. */
  lemma IdleCanGoOn(s: State, m: nat) returns (steps: seq<Step>, t: State)
    requires Inv(s) && s.caller == Idle
    ensures Leads(s, steps, t) && |steps| <= 1 && |t.workers| == |s.workers|
    ensures Enabled(t, Publish(m)) && Enabled(t, CallerKills)
  {
    hide Count;
    if s.mutex == Free {
      assert Leads(s, [], s);
      return [], s;
    }
    var i := s.mutex.i;
    assert WorkerOk(s, i) && Holds(s.workers[i]);
    var st := WorkerSleeps(i);
    assert [st][1..] == [] && Leads(Do(s, st), [], Do(s, st));
    return [st], Do(s, st);
  }
}
