/**
 The dispatcher/worker rendezvous as a transition system: one step is one section under a
 lock.  A wait on a condition variable is two steps, falling asleep (test and release of the
 lock are one section) and being woken; wakeups without a signal are allowed.  `due` and
 `log` are history: the batches a worker was notified of, and those it has gone through.
 */
module Rendezvous {
  datatype Pc = Ready | Asleep | Running | Done

  datatype Worker = Worker(pc: Pc, isWait: bool, due: seq<nat>, log: seq<nat>)

  datatype Phase =
    | Idle
    | Notifying(todo: set<nat>, sent: nat)
    | Checking(num: nat)
    | Sleeping(num: nat)

  datatype State = State(workers: seq<Worker>, count: nat, threadCount: nat, batch: nat, phase: Phase)

  datatype Step =
    | Publish(targets: set<nat>)
    | Notify(i: nat)
    | StartWait
    | Check
    | Test(i: nat)
    | Process(i: nat)
    | Over(i: nat)
    | WakeWorker(i: nat)
    | WakeDispatcher

  predicate Enabled(s: State, step: Step) {
    match step
    case Publish(targets) => s.phase.Idle? && forall i | i in targets :: i < |s.workers|
    case Notify(i) => s.phase.Notifying? && i in s.phase.todo && i < |s.workers|
    case StartWait => s.phase.Notifying? && s.phase.todo == {}
    case Check => s.phase.Checking?
    case Test(i) => i < |s.workers| && s.workers[i].pc == Ready
    case Process(i) => i < |s.workers| && s.workers[i].pc == Running
    case Over(i) => i < |s.workers| && s.workers[i].pc == Done
    case WakeWorker(i) => i < |s.workers| && s.workers[i].pc == Asleep
    case WakeDispatcher => s.phase.Sleeping?
  }

  function Apply(s: State, step: Step): State
    requires Enabled(s, step)
  {
    match step
    // net_thread_con_broadcast: the batch is published before anyone is notified
    case Publish(targets) => s.(batch := s.batch + 1, phase := Notifying(targets, 0))
    // _net_thread_con_nofity: clear the flag and signal
    case Notify(i) =>
      var w := s.workers[i];
      var woken := w.(isWait := false, pc := if w.pc == Asleep then Ready else w.pc, due := w.due + [s.batch]);
      s.(workers := s.workers[i := woken], phase := Notifying(s.phase.todo - {i}, s.phase.sent + 1))
    // the awaited number is the smaller of the notified and the counted threads; nothing to wait for at 0
    case StartWait =>
      var num := if s.threadCount < s.phase.sent then s.threadCount else s.phase.sent;
      s.(phase := if num > 0 then Checking(num) else Idle)
    // _net_thread_con_wait_timeout: one round of its loop, or the reset after it
    case Check =>
      if s.count < s.phase.num then s.(phase := Sleeping(s.phase.num))
      else s.(count := 0, phase := Idle)
    // _net_thread_wait: one round of its loop, or the re-arming after it
    case Test(i) =>
      var w := s.workers[i];
      s.(workers := s.workers[i := if w.isWait then w.(pc := Asleep) else w.(isWait := true, pc := Running)])
    // the pass over the published batch
    case Process(i) =>
      var w := s.workers[i];
      s.(workers := s.workers[i := w.(pc := Done, log := w.log + [s.batch])])
    // _net_thread_con_over: count up and signal
    case Over(i) =>
      var w := s.workers[i];
      s.(workers := s.workers[i := w.(pc := Ready)], count := s.count + 1,
         phase := if s.phase.Sleeping? then Checking(s.phase.num) else s.phase)
    case WakeWorker(i) => s.(workers := s.workers[i := s.workers[i].(pc := Ready)])
    case WakeDispatcher => s.(phase := Checking(s.phase.num))
  }

  // ----- the invariant -----

  /** A worker that has been notified and has not yet counted up. */
  predicate Active(w: Worker) {
    !w.isWait || w.pc == Running || w.pc == Done
  }

  function Sum(ws: seq<Worker>, f: Worker -> nat): nat {
    if ws == [] then 0 else Sum(ws[..|ws| - 1], f) + f(ws[|ws| - 1])
  }

  lemma {:induction false} SumUpdate(ws: seq<Worker>, f: Worker -> nat, i: nat, w: Worker)
    requires i < |ws|
    ensures Sum(ws[i := w], f) + f(ws[i]) == Sum(ws, f) + f(w)
  {
    var last := |ws| - 1;
    if i < last {
      assert ws[i := w][..last] == ws[..last][i := w];
      SumUpdate(ws[..last], f, i, w);
    } else {
      assert ws[i := w][..last] == ws[..last];
    }
  }

  function ActiveOne(w: Worker): nat {
    if Active(w) then 1 else 0
  }

  function ActiveCount(ws: seq<Worker>): nat {
    Sum(ws, ActiveOne)
  }

  lemma {:induction false} SomeActive(ws: seq<Worker>) returns (i: nat)
    requires ActiveCount(ws) > 0
    ensures i < |ws| && Active(ws[i])
  {
    i := |ws| - 1;
    if !Active(ws[i]) {
      assert ActiveOne(ws[i]) == 0;
      i := SomeActive(ws[..i]);
    }
  }

  lemma {:induction false} NoneActive(ws: seq<Worker>)
    requires ActiveCount(ws) == 0
    ensures forall i | 0 <= i < |ws| :: !Active(ws[i])
  {
    if ws != [] {
      assert ActiveOne(ws[|ws| - 1]) == 0;
      NoneActive(ws[..|ws| - 1]);
    }
  }

  /** Notified or not, a worker owes at most the current batch, and never sleeps through a notification. */
  predicate WorkerOk(w: Worker, batch: nat) {
    && (!w.isWait ==> w.pc == Ready)
    && w.due == w.log + (if !w.isWait || w.pc == Running then [batch] else [])
    && (forall j, k | 0 <= j < k < |w.due| :: w.due[j] < w.due[k])
    && forall j | 0 <= j < |w.due| :: w.due[j] <= batch
  }

  /** A worker whose turn to be notified is still to come. */
  predicate Fresh(w: Worker, batch: nat) {
    !Active(w) && forall j | 0 <= j < |w.due| :: w.due[j] < batch
  }

  predicate Inv(s: State) {
    && (forall i | 0 <= i < |s.workers| :: WorkerOk(s.workers[i], s.batch))
    && match s.phase
       case Idle => s.count == 0 && ActiveCount(s.workers) == 0
       case Notifying(todo, sent) =>
         && s.count + ActiveCount(s.workers) == sent
         && sent + |todo| <= s.threadCount
         && forall i | i in todo :: i < |s.workers| && Fresh(s.workers[i], s.batch)
       case Checking(num) => 0 < num && s.count + ActiveCount(s.workers) == num
       case Sleeping(num) => s.count < num && s.count + ActiveCount(s.workers) == num
  }

  /** The threads counted at a priority are at least as many as a broadcast notifies, so that the number it
      awaits is the number it notified. */
  predicate Counted(s: State, step: Step) {
    step.Publish? ==> |step.targets| <= s.threadCount
  }

  lemma PublishKeepsInv(s: State, targets: set<nat>)
    requires Inv(s) && Enabled(s, Publish(targets)) && |targets| <= s.threadCount
    ensures Inv(Apply(s, Publish(targets)))
  {
    NoneActive(s.workers);
    forall i | 0 <= i < |s.workers| ensures WorkerOk(s.workers[i], s.batch + 1) && Fresh(s.workers[i], s.batch + 1) {
      assert WorkerOk(s.workers[i], s.batch);
    }
  }

  lemma NotifiedOk(w: Worker, batch: nat)
    requires WorkerOk(w, batch) && Fresh(w, batch)
    ensures WorkerOk(w.(isWait := false, pc := if w.pc == Asleep then Ready else w.pc, due := w.due + [batch]), batch)
  {
  }

  lemma NotifyKeepsInv(s: State, i: nat)
    requires Inv(s) && Enabled(s, Notify(i))
    ensures Inv(Apply(s, Notify(i)))
  {
    hide Sum;
    NotifiedOk(s.workers[i], s.batch);
    SumUpdate(s.workers, ActiveOne, i, Apply(s, Notify(i)).workers[i]);
    hide WorkerOk, Fresh;
  }

  /** A step of worker `i` alone. */
  predicate IsWorkerStep(step: Step, i: nat) {
    step == Test(i) || step == Process(i) || step == Over(i) || step == WakeWorker(i)
  }

  lemma WorkerStepOk(s: State, step: Step, i: nat)
    requires IsWorkerStep(step, i) && Enabled(s, step) && WorkerOk(s.workers[i], s.batch)
    ensures var w := Apply(s, step).workers[i];
      && WorkerOk(w, s.batch)
      && (Active(w) <==> Active(s.workers[i]) && !step.Over?)
      && w.due == s.workers[i].due
      && (step.Over? ==> Active(s.workers[i]))
  {
  }

  lemma WorkerStepKeepsInv(s: State, step: Step, i: nat)
    requires Inv(s) && IsWorkerStep(step, i) && Enabled(s, step)
    ensures Inv(Apply(s, step))
  {
    hide Sum, Active;
    WorkerStepOk(s, step, i);
    SumUpdate(s.workers, ActiveOne, i, Apply(s, step).workers[i]);
    hide WorkerOk;
  }

  lemma StepKeepsInv(s: State, step: Step)
    requires Inv(s) && Enabled(s, step) && Counted(s, step)
    ensures Inv(Apply(s, step))
  {
    match step
    case Publish(targets) => PublishKeepsInv(s, targets);
    case Notify(i) => NotifyKeepsInv(s, i);
    case Test(i) => WorkerStepKeepsInv(s, step, i);
    case Process(i) => WorkerStepKeepsInv(s, step, i);
    case Over(i) => WorkerStepKeepsInv(s, step, i);
    case WakeWorker(i) => WorkerStepKeepsInv(s, step, i);
    case StartWait => hide ActiveCount, WorkerOk;
    case Check => hide ActiveCount, WorkerOk;
    case WakeDispatcher => hide ActiveCount, WorkerOk;
  }

  // ----- runs -----

  predicate CanRun(s: State, steps: seq<Step>)
    decreases |steps|
  {
    steps == [] || (Enabled(s, steps[0]) && CanRun(Apply(s, steps[0]), steps[1..]))
  }

  function RunTo(s: State, steps: seq<Step>): State
    requires CanRun(s, steps)
    decreases |steps|
  {
    if steps == [] then s else RunTo(Apply(s, steps[0]), steps[1..])
  }

  /** `n` worker threads, none notified yet, of which `threadCount` have been counted. */
  function Init(n: nat, threadCount: nat): State {
    State(seq(n, _ => Worker(Ready, true, [], [])), 0, threadCount, 0, Idle)
  }

  lemma {:induction false} RunKeepsInv(s: State, steps: seq<Step>)
    requires Inv(s) && CanRun(s, steps) && forall j | 0 <= j < |steps| :: Counted(s, steps[j])
    ensures Inv(RunTo(s, steps))
    decreases |steps|
  {
    hide Inv, Enabled;
    if steps != [] {
      StepKeepsInv(s, steps[0]);
      RunKeepsInv(Apply(s, steps[0]), steps[1..]);
    }
  }

  lemma InitInv(n: nat, threadCount: nat)
    ensures Inv(Init(n, threadCount))
  {
    NoActiveAtStart(Init(n, threadCount).workers);
  }

  lemma {:induction false} NoActiveAtStart(ws: seq<Worker>)
    requires forall i | 0 <= i < |ws| :: !Active(ws[i])
    ensures ActiveCount(ws) == 0
  {
    if ws != [] {
      NoActiveAtStart(ws[..|ws| - 1]);
    }
  }

  /** Between broadcasts, after any run whose broadcasts are counted, every worker waits, the count is zero, and each
      worker has gone through exactly the batches it was notified of, once each and in order. */
  lemma SafeBetweenRounds(n: nat, threadCount: nat, steps: seq<Step>)
    requires CanRun(Init(n, threadCount), steps) && RunTo(Init(n, threadCount), steps).phase.Idle?
    requires forall j | 0 <= j < |steps| :: Counted(Init(n, threadCount), steps[j])
    ensures var s := RunTo(Init(n, threadCount), steps);
      && s.count == 0
      && forall i | 0 <= i < |s.workers| ::
           var w := s.workers[i];
           && w.isWait && (w.pc == Ready || w.pc == Asleep)
           && w.log == w.due
           && forall j, k | 0 <= j < k < |w.log| :: w.log[j] < w.log[k]
  {
    InitInv(n, threadCount);
    RunKeepsInv(Init(n, threadCount), steps);
    AtRest(RunTo(Init(n, threadCount), steps));
  }

  lemma AtRest(s: State)
    requires Inv(s) && s.phase.Idle?
    ensures s.count == 0
    ensures forall i | 0 <= i < |s.workers| ::
           var w := s.workers[i];
           && w.isWait && (w.pc == Ready || w.pc == Asleep)
           && w.log == w.due
           && forall j, k | 0 <= j < k < |w.log| :: w.log[j] < w.log[k]
  {
    NoneActive(s.workers);
    forall i | 0 <= i < |s.workers|
      ensures var w := s.workers[i];
        && w.isWait && (w.pc == Ready || w.pc == Asleep)
        && w.log == w.due
        && forall j, k | 0 <= j < k < |w.log| :: w.log[j] < w.log[k]
    {
      assert WorkerOk(s.workers[i], s.batch);
    }
  }

  // ----- one round -----

  predicate Pending(s: State, i: nat) {
    s.phase.Notifying? && i in s.phase.todo
  }

  /** `s` is inside the round that `s0` opened for `targets`, or just after it. */
  predicate InRound(s0: State, targets: set<nat>, s: State) {
    && s.batch == s0.batch + 1
    && |s.workers| == |s0.workers|
    && (s.phase.Notifying? ==> s.phase.todo <= targets)
    && forall i | 0 <= i < |s.workers| ::
         s.workers[i].due == s0.workers[i].due + if i in targets && !Pending(s, i) then [s.batch] else []
  }

  lemma StepKeepsRound(s0: State, targets: set<nat>, s: State, step: Step)
    requires InRound(s0, targets, s) && Enabled(s, step) && !step.Publish?
    requires forall i | i in targets :: i < |s0.workers|
    requires s.phase.Notifying? ==> forall i | i in s.phase.todo :: i < |s.workers|
    ensures InRound(s0, targets, Apply(s, step))
  {
    var t := Apply(s, step);
    forall i | 0 <= i < |t.workers|
      ensures t.workers[i].due == s0.workers[i].due + if i in targets && !Pending(t, i) then [t.batch] else []
    {
      assert s.workers[i].due == s0.workers[i].due + if i in targets && !Pending(s, i) then [s.batch] else [];
    }
  }

  lemma {:induction false} RunKeepsRound(s0: State, targets: set<nat>, s: State, steps: seq<Step>)
    requires Inv(s) && InRound(s0, targets, s) && CanRun(s, steps)
    requires forall i | i in targets :: i < |s0.workers|
    requires forall j | 0 <= j < |steps| :: !steps[j].Publish?
    ensures InRound(s0, targets, RunTo(s, steps)) && Inv(RunTo(s, steps))
    decreases |steps|
  {
    hide Enabled, Apply, InRound;
    if steps != [] {
      StepKeepsRound(s0, targets, s, steps[0]);
      StepKeepsInv(s, steps[0]);
      hide Inv;
      RunKeepsRound(s0, targets, Apply(s, steps[0]), steps[1..]);
    }
  }

  /** A round from a state of the invariant. */
  lemma RoundReturns(s0: State, targets: set<nat>, steps: seq<Step>)
    requires Inv(s0) && s0.phase.Idle? && CanRun(s0, [Publish(targets)] + steps)
    requires |targets| <= s0.threadCount
    requires forall j | 0 <= j < |steps| :: !steps[j].Publish?
    ensures var s := RunTo(s0, [Publish(targets)] + steps);
      s.phase.Idle? ==>
        && s.count == 0
        && |s.workers| == |s0.workers|
        && forall i | 0 <= i < |s.workers| ::
             && s.workers[i].log == s0.workers[i].log + (if i in targets then [s0.batch + 1] else [])
             && s.workers[i].isWait && (s.workers[i].pc == Ready || s.workers[i].pc == Asleep)
  {
    var all := [Publish(targets)] + steps;
    assert all[0] == Publish(targets) && all[1..] == steps;
    var s1 := Apply(s0, Publish(targets));
    StepKeepsInv(s0, Publish(targets));
    AtRest(s0);
    assert InRound(s0, targets, s1);
    RunKeepsRound(s0, targets, s1, steps);
    var s := RunTo(s1, steps);
    if s.phase.Idle? {
      AtRest(s);
    }
  }

  /** `s` went through the same steps as `t`, which started where `s0` is, without a history. */
  predicate SameSince(s0: State, s: State, t: State) {
    && |s.workers| == |t.workers| == |s0.workers|
    && s == t.(workers := s.workers)
    && forall i | 0 <= i < |s.workers| ::
         && s.workers[i].pc == t.workers[i].pc && s.workers[i].isWait == t.workers[i].isWait
         && s.workers[i].log == s0.workers[i].log + t.workers[i].log
  }

  lemma StepKeepsSame(s0: State, s: State, t: State, step: Step)
    requires SameSince(s0, s, t) && Enabled(s, step)
    ensures Enabled(t, step) && SameSince(s0, Apply(s, step), Apply(t, step))
  {
  }

  lemma {:induction false} RunKeepsSame(s0: State, s: State, t: State, steps: seq<Step>)
    requires SameSince(s0, s, t) && CanRun(s, steps)
    ensures CanRun(t, steps) && SameSince(s0, RunTo(s, steps), RunTo(t, steps))
    decreases |steps|
  {
    hide Enabled, Apply, SameSince;
    if steps != [] {
      StepKeepsSame(s0, s, t, steps[0]);
      RunKeepsSame(s0, Apply(s, steps[0]), Apply(t, steps[0]), steps[1..]);
    }
  }

  /** `s` as if nothing had happened before. */
  function Forget(s: State): State {
    s.(workers := seq(|s.workers|, i requires 0 <= i < |s.workers| => s.workers[i].(due := [], log := [])))
  }

  lemma ForgetInv(s: State)
    requires s.phase.Idle? && Settled(s)
    ensures Inv(Forget(s)) && SameSince(s, s, Forget(s))
  {
    NoneActive(s.workers);
    NoActiveAtStart(Forget(s).workers);
  }

  /** The count is zero and nobody is on the way to count up. */
  predicate Settled(s: State) {
    s.count == 0 && ActiveCount(s.workers) == 0
  }

  /** A broadcast from a settled state, whatever went before: however its steps interleave with the workers', when
      it returns every notified worker has finished exactly one pass over its batch, no other worker has run, all
      wait again, and the state is settled. */
  lemma BroadcastReturns(s0: State, targets: set<nat>, steps: seq<Step>)
    requires s0.phase.Idle? && Settled(s0) && CanRun(s0, [Publish(targets)] + steps)
    requires |targets| <= s0.threadCount
    requires forall j | 0 <= j < |steps| :: !steps[j].Publish?
    ensures var s := RunTo(s0, [Publish(targets)] + steps);
      s.phase.Idle? ==>
        && Settled(s)
        && |s.workers| == |s0.workers|
        && forall i | 0 <= i < |s.workers| ::
             && s.workers[i].log == s0.workers[i].log + (if i in targets then [s0.batch + 1] else [])
             && s.workers[i].isWait && (s.workers[i].pc == Ready || s.workers[i].pc == Asleep)
  {
    hide CanRun, RunTo, Inv, ActiveCount;
    ForgetInv(s0);
    RunKeepsSame(s0, s0, Forget(s0), [Publish(targets)] + steps);
    RoundReturns(Forget(s0), targets, steps);
    var s := RunTo(s0, [Publish(targets)] + steps);
    if s.phase.Idle? {
      NoActiveAtStart(s.workers);
    }
  }

  // ----- what every run keeps, counted or not -----

  /** No worker sleeps through a notification, or has seen a batch that is still to come. */
  predicate SaneWorker(w: Worker, batch: nat) {
    (w.pc == Asleep ==> w.isWait) && forall j | 0 <= j < |w.log| :: w.log[j] <= batch
  }

  /** Those still to be notified who are on their way from an earlier round. */
  function Behind(ws: seq<Worker>, todo: set<nat>): set<nat> {
    set i | i in todo && i < |ws| && Active(ws[i])
  }

  /** The counts there are and those on the way, leaving out whoever is still to be notified, are enough for what the
      dispatcher awaits. */
  predicate Enough(s: State) {
    match s.phase
    case Idle => true
    case Notifying(todo, sent) =>
      && (forall i | i in todo :: i < |s.workers|)
      && sent + |Behind(s.workers, todo)| <= s.count + ActiveCount(s.workers)
    case Checking(num) => num <= s.count + ActiveCount(s.workers)
    case Sleeping(num) => s.count < num <= s.count + ActiveCount(s.workers)
  }

  predicate Sane(s: State) {
    (forall i | 0 <= i < |s.workers| :: SaneWorker(s.workers[i], s.batch)) && Enough(s)
  }

  lemma StepKeepsSaneWorkers(s: State, step: Step)
    requires Sane(s) && Enabled(s, step)
    ensures var t := Apply(s, step); forall i | 0 <= i < |t.workers| :: SaneWorker(t.workers[i], t.batch)
  {
    hide Enough;
    var t := Apply(s, step);
    forall i | 0 <= i < |t.workers| ensures SaneWorker(t.workers[i], t.batch) {
      assert SaneWorker(s.workers[i], s.batch);
    }
  }

  lemma NotifyKeepsEnough(s: State, i: nat)
    requires Sane(s) && Enabled(s, Notify(i))
    ensures Enough(Apply(s, Notify(i)))
  {
    hide Sum, SaneWorker;
    var t := Apply(s, Notify(i));
    SumUpdate(s.workers, ActiveOne, i, t.workers[i]);
    assert Behind(t.workers, t.phase.todo) == Behind(s.workers, s.phase.todo) - {i};
  }

  /** Whoever is on the way stays so until it counts up. */
  lemma WorkerStepActive(s: State, step: Step, i: nat)
    requires IsWorkerStep(step, i) && Enabled(s, step) && SaneWorker(s.workers[i], s.batch)
    ensures var t := Apply(s, step);
      && t.workers == s.workers[i := t.workers[i]]
      && (Active(t.workers[i]) ==> Active(s.workers[i]))
      && (Active(s.workers[i]) && !Active(t.workers[i]) ==> step.Over?)
      && t.count == s.count + (if step.Over? then 1 else 0)
      && t.phase == if step.Over? && s.phase.Sleeping? then Checking(s.phase.num) else s.phase
  {
  }

  lemma BehindUpdate(ws: seq<Worker>, i: nat, w: Worker, todo: set<nat>)
    requires i < |ws| && (Active(w) ==> Active(ws[i]))
    ensures |Behind(ws[i := w], todo)| <= |Behind(ws, todo)|
  {
    hide Active;
    if Active(w) || !Active(ws[i]) {
      assert Behind(ws[i := w], todo) == Behind(ws, todo);
    } else {
      assert Behind(ws[i := w], todo) == Behind(ws, todo) - {i};
    }
  }

  lemma WorkerStepKeepsEnough(s: State, step: Step, i: nat)
    requires Sane(s) && IsWorkerStep(step, i) && Enabled(s, step)
    ensures Enough(Apply(s, step))
  {
    hide Sum, Apply, Active, SaneWorker, Behind;
    var t := Apply(s, step);
    WorkerStepActive(s, step, i);
    SumUpdate(s.workers, ActiveOne, i, t.workers[i]);
    if s.phase.Notifying? {
      BehindUpdate(s.workers, i, t.workers[i], s.phase.todo);
    }
  }

  lemma StepKeepsSane(s: State, step: Step)
    requires Sane(s) && Enabled(s, step)
    ensures Sane(Apply(s, step))
  {
    StepKeepsSaneWorkers(s, step);
    match step
    case Publish(targets) => PublishKeepsEnough(s, targets);
    case Notify(i) => NotifyKeepsEnough(s, i);
    case Test(i) => WorkerStepKeepsEnough(s, step, i);
    case Process(i) => WorkerStepKeepsEnough(s, step, i);
    case Over(i) => WorkerStepKeepsEnough(s, step, i);
    case WakeWorker(i) => WorkerStepKeepsEnough(s, step, i);
    case StartWait => hide ActiveCount, SaneWorker;
    case Check => hide ActiveCount, SaneWorker;
    case WakeDispatcher => hide ActiveCount, SaneWorker;
  }

  lemma PublishKeepsEnough(s: State, targets: set<nat>)
    requires Enabled(s, Publish(targets))
    ensures Enough(Apply(s, Publish(targets)))
  {
    EveryoneBehind(s.workers, Behind(s.workers, targets));
  }

  /** Distinct active workers are no more than the active ones. */
  lemma {:induction false} EveryoneBehind(ws: seq<Worker>, some: set<nat>)
    requires forall i | i in some :: i < |ws| && Active(ws[i])
    ensures |some| <= ActiveCount(ws)
  {
    if ws != [] {
      EveryoneBehind(ws[..|ws| - 1], some - {|ws| - 1});
    } else {
      assert some == {};
    }
  }

  lemma {:induction false} RunKeepsSane(s: State, steps: seq<Step>)
    requires Sane(s) && CanRun(s, steps)
    ensures Sane(RunTo(s, steps))
    decreases |steps|
  {
    hide Enabled, Apply, Sane;
    if steps != [] {
      StepKeepsSane(s, steps[0]);
      RunKeepsSane(Apply(s, steps[0]), steps[1..]);
    }
  }

  // ----- no thread is held up -----

  /** A worker always has a next step, and only one. */
  lemma WorkerGoesOn(s: State, i: nat) returns (step: Step)
    requires i < |s.workers|
    ensures IsWorkerStep(step, i) && Enabled(s, step)
    ensures forall other | IsWorkerStep(other, i) && Enabled(s, other) :: other == step
  {
    step := match s.workers[i].pc
      case Ready => Test(i)
      case Asleep => WakeWorker(i)
      case Running => Process(i)
      case Done => Over(i);
  }

  /** The dispatcher always has a next step, and in the order of its program: it publishes, notifies everyone, waits. */
  lemma DispatcherGoesOn(s: State, targets: set<nat>)
    requires Sane(s) && forall i | i in targets :: i < |s.workers|
    ensures match s.phase
      case Idle => Enabled(s, Publish(targets)) && Apply(s, Publish(targets)).phase == Notifying(targets, 0)
      case Notifying(todo, sent) =>
        if todo == {} then Enabled(s, StartWait) && !Apply(s, StartWait).phase.Notifying?
        else forall i | i in todo ::
          Enabled(s, Notify(i)) && Apply(s, Notify(i)).phase == Notifying(todo - {i}, sent + 1)
      case Checking(num) => Enabled(s, Check) && Apply(s, Check).phase == if s.count < num then Sleeping(num) else Idle
      case Sleeping(num) => Enabled(s, WakeDispatcher) && Apply(s, WakeDispatcher).phase == Checking(num)
  {
    hide ActiveCount, Behind, SaneWorker;
  }

  // ----- progress, counted or not -----

  /** Steps that are not spurious wakeups and open no new round. */
  predicate Working(step: Step) {
    !step.Publish? && !step.WakeWorker? && !step.WakeDispatcher?
  }

  function Potential(w: Worker): nat {
    (if w.isWait then 0 else 4) +
    match w.pc
    case Running => 4
    case Done => 3
    case Ready => 1
    case Asleep => 0
  }

  /** What is left to do in the round. */
  function Measure(s: State): nat {
    Sum(s.workers, Potential) +
    match s.phase
    case Idle => 0
    case Notifying(todo, _) => 2 + 7 * |todo|
    case Checking(_) => 1
    case Sleeping(_) => 0
  }

  lemma WorkingStepDecreases(s: State, step: Step)
    requires Enabled(s, step) && Working(step)
    ensures Measure(Apply(s, step)) < Measure(s)
  {
    hide Sum;
    match step
    case Notify(i) => SumUpdate(s.workers, Potential, i, Apply(s, step).workers[i]);
    case Test(i) => SumUpdate(s.workers, Potential, i, Apply(s, step).workers[i]);
    case Process(i) => SumUpdate(s.workers, Potential, i, Apply(s, step).workers[i]);
    case Over(i) => SumUpdate(s.workers, Potential, i, Apply(s, step).workers[i]);
    case StartWait =>
    case Check =>
  }

  /** No wakeup is lost: while a round is open, some step other than a spurious wakeup can be taken. */
  lemma OpenRoundMoves(s: State) returns (step: Step)
    requires Sane(s) && !s.phase.Idle?
    ensures Working(step) && Enabled(s, step)
  {
    hide ActiveCount, Behind;
    match s.phase
    case Notifying(todo, sent) =>
      if todo == {} {
        step := StartWait;
      } else {
        var i :| i in todo;
        step := Notify(i);
      }
    case Checking(num) =>
      step := Check;
    case Sleeping(num) =>
      var i := SomeActive(s.workers);
      assert SaneWorker(s.workers[i], s.batch);
      step := match s.workers[i].pc case Running => Process(i) case Done => Over(i) case _ => Test(i);
  }

  lemma {:induction false} RoundEndsFrom(s: State, steps: seq<Step>)
    requires Sane(s) && CanRun(s, steps) && forall j | 0 <= j < |steps| :: Working(steps[j])
    ensures |steps| <= Measure(s)
    ensures (forall step | Working(step) :: !Enabled(RunTo(s, steps), step)) ==> RunTo(s, steps).phase.Idle?
    decreases |steps|
  {
    if steps == [] {
      if !s.phase.Idle? {
        var step := OpenRoundMoves(s);
      }
    } else {
      hide Sane, Enabled, Apply, Measure, Working;
      StepKeepsSane(s, steps[0]);
      assert Working(steps[0]);
      WorkingStepDecreases(s, steps[0]);
      RoundEndsFrom(Apply(s, steps[0]), steps[1..]);
    }
  }

  /** Every round ends, whatever happened before, rounds that returned too early included: without spurious wakeups no
      run is longer than its measure, and a run that can go no further has returned from the broadcast. */
  lemma RoundEnds(n: nat, threadCount: nat, history: seq<Step>, steps: seq<Step>)
    requires CanRun(Init(n, threadCount), history) && CanRun(RunTo(Init(n, threadCount), history), steps)
    requires forall j | 0 <= j < |steps| :: Working(steps[j])
    ensures var s := RunTo(Init(n, threadCount), history);
      && |steps| <= Measure(s)
      && ((forall step | Working(step) :: !Enabled(RunTo(s, steps), step)) ==> RunTo(s, steps).phase.Idle?)
  {
    RunKeepsSane(Init(n, threadCount), history);
    RoundEndsFrom(RunTo(Init(n, threadCount), history), steps);
  }

  // ----- runs without spurious wakeups, put together -----

  ghost predicate Leads(s: State, steps: seq<Step>, t: State) {
    && CanRun(s, steps) && RunTo(s, steps) == t
    && forall j | 0 <= j < |steps| :: Working(steps[j])
  }

  /** Some run of working steps goes from `s` to `t`. */
  ghost predicate Reaches(s: State, t: State) {
    exists steps :: Leads(s, steps, t)
  }

  lemma {:induction false} RunConcat(s: State, a: seq<Step>, b: seq<Step>)
    requires CanRun(s, a) && CanRun(RunTo(s, a), b)
    ensures CanRun(s, a + b) && RunTo(s, a + b) == RunTo(RunTo(s, a), b)
    decreases |a|
  {
    hide Enabled, Apply;
    if a == [] {
      assert a + b == b;
    } else {
      assert (a + b)[1..] == a[1..] + b;
      RunConcat(Apply(s, a[0]), a[1..], b);
    }
  }

  lemma RunStep(s: State, step: Step, rest: seq<Step>)
    requires Enabled(s, step) && CanRun(Apply(s, step), rest)
    ensures CanRun(s, [step] + rest) && RunTo(s, [step] + rest) == RunTo(Apply(s, step), rest)
  {
    assert ([step] + rest)[1..] == rest;
  }

  lemma Stays(s: State)
    ensures Reaches(s, s)
  {
    assert Leads(s, [], s);
  }

  lemma Then(s: State, t: State, u: State)
    requires Reaches(s, t) && Reaches(t, u)
    ensures Reaches(s, u)
  {
    hide CanRun, RunTo, Working;
    var a :| Leads(s, a, t);
    var b :| Leads(t, b, u);
    RunConcat(s, a, b);
    assert Leads(s, a + b, u);
  }

  lemma ThenStep(s: State, t: State, step: Step)
    requires Reaches(s, t) && Enabled(t, step) && Working(step)
    ensures Reaches(s, Apply(t, step))
  {
    hide Enabled, Apply, Working;
    RunStep(t, step, []);
    assert Leads(t, [step] + [], Apply(t, step));
    Then(s, t, Apply(t, step));
  }

  /** A worker on its way counts up: through a pass, unless its pass is already over. */
  lemma FinishOne(s: State, i: nat) returns (t: State)
    requires i < |s.workers| && Active(s.workers[i]) && s.workers[i].pc != Asleep && !s.phase.Sleeping?
    ensures Reaches(s, t)
    ensures |t.workers| == |s.workers|
    ensures t == s.(workers := s.workers[i := t.workers[i]], count := s.count + 1)
    ensures t.workers[i].pc == Ready
    ensures t.workers[i].log == s.workers[i].log + if s.workers[i].pc == Done then [] else [s.batch]
  {
    hide Reaches;
    Stays(s);
    t := s;
    if t.workers[i].pc == Ready {
      ThenStep(s, t, Test(i));
      t := Apply(t, Test(i));
    }
    if t.workers[i].pc == Running {
      ThenStep(s, t, Process(i));
      t := Apply(t, Process(i));
    }
    ThenStep(s, t, Over(i));
    t := Apply(t, Over(i));
  }

  /** Called, and nothing keeps it from its pass. */
  predicate Called(w: Worker) {
    !w.isWait && w.pc != Asleep
  }

  /** All the called workers of `some` count up, and nothing else happens. */
  lemma {:induction false} FinishSome(s: State, some: set<nat>) returns (t: State)
    requires !s.phase.Sleeping? && forall i | i in some :: i < |s.workers| && Called(s.workers[i])
    ensures Reaches(s, t)
    ensures t == s.(workers := t.workers, count := s.count + |some|) && |t.workers| == |s.workers|
    ensures forall i | 0 <= i < |s.workers| && i !in some :: t.workers[i] == s.workers[i]
    decreases |some|
  {
    hide Reaches;
    if some == {} {
      Stays(s);
      t := s;
    } else {
      var i :| i in some;
      var s1 := FinishOne(s, i);
      t := FinishSome(s1, some - {i});
      Then(s, s1, t);
    }
  }

  /** The dispatcher notifies all who are left, and nothing else happens. */
  lemma {:induction false} NotifyAll(s: State) returns (t: State)
    requires s.phase.Notifying? && forall i | i in s.phase.todo :: i < |s.workers|
    ensures Reaches(s, t)
    ensures t == s.(workers := t.workers, phase := Notifying({}, s.phase.sent + |s.phase.todo|))
    ensures |t.workers| == |s.workers|
    ensures forall i | i in s.phase.todo :: Called(t.workers[i]) && t.workers[i].log == s.workers[i].log
    ensures forall i | 0 <= i < |s.workers| && i !in s.phase.todo :: t.workers[i] == s.workers[i]
    decreases |s.phase.todo|
  {
    hide Reaches;
    Stays(s);
    if s.phase.todo == {} {
      t := s;
    } else {
      var i :| i in s.phase.todo;
      var s1 := Apply(s, Notify(i));
      ThenStep(s, s, Notify(i));
      t := NotifyAll(s1);
      Then(s, s1, t);
    }
  }

  /** With everyone notified and enough counts already there, the broadcast returns. */
  lemma ReturnNow(s: State) returns (t: State)
    requires s.phase.Notifying? && s.phase.todo == {}
    requires s.threadCount <= s.count || s.phase.sent <= s.count
    ensures Reaches(s, t) && t.phase == Idle && t.workers == s.workers
  {
    hide Reaches;
    Stays(s);
    ThenStep(s, s, StartWait);
    t := Apply(s, StartWait);
    if t.phase.Checking? {
      ThenStep(s, t, Check);
      t := Apply(t, Check);
    }
  }

  // ----- broadcasts that do not wait for everyone -----

  /** The others of `todo` and the counts already there are as many as the broadcast awaits: it returns over `v`. */
  lemma ReturnOver(s: State, v: nat) returns (t: State)
    requires s.phase.Notifying? && s.phase.sent == 0 && v in s.phase.todo
    requires forall i | i in s.phase.todo :: i < |s.workers|
    requires s.threadCount < s.count + |s.phase.todo| || s.count > 0
    ensures Reaches(s, t) && t.phase == Idle && v < |t.workers| && t.workers[v].log == s.workers[v].log
  {
    hide Reaches;
    var s1 := NotifyAll(s);
    var s2 := FinishSome(s1, s.phase.todo - {v});
    Then(s, s1, s2);
    t := ReturnNow(s2);
    Then(s, s2, t);
  }

  /** A worker still on its way from an earlier round counts up during this one. */
  lemma StragglerHidesAnother(s: State, u: nat, v: nat) returns (t: State)
    requires Sane(s) && s.phase.Notifying? && s.phase.sent == 0 && v in s.phase.todo
    requires forall i | i in s.phase.todo :: i < |s.workers|
    requires u < |s.workers| && u != v && Active(s.workers[u])
    ensures Reaches(s, t) && t.phase == Idle && v < |t.workers| && t.workers[v].log == s.workers[v].log
  {
    hide Reaches;
    assert SaneWorker(s.workers[u], s.batch);
    var s1 := FinishOne(s, u);
    t := ReturnOver(s1, v);
    Then(s, s1, t);
  }

  /** A worker still on its way from an earlier round counts up for that round, and the broadcast takes it for
      this one; if its pass was still to come, it goes through the batch twice. */
  lemma StragglerCountsTwice(s: State, u: nat) returns (t: State)
    requires Sane(s) && s.phase == Notifying({u}, 0)
    requires u < |s.workers| && Active(s.workers[u])
    ensures Reaches(s, t) && t.phase == Idle && u < |t.workers|
    ensures t.workers[u].log == s.workers[u].log + if s.workers[u].pc == Done then [] else [s.batch, s.batch]
  {
    hide Reaches;
    assert SaneWorker(s.workers[u], s.batch);
    var s1 := FinishOne(s, u);
    ThenStep(s, s1, Notify(u));
    var s2 := Apply(s1, Notify(u));
    if s.workers[u].pc != Done {
      var s3 := FinishOne(s2, u);
      Then(s, s2, s3);
      s2 := s3;
    }
    t := ReturnNow(s2);
    Then(s, s2, t);
  }

  /** With fewer threads counted than notified, or with counts left over, a broadcast can return over any of its
      targets: that worker has not moved. */
  lemma UncountedThreadIsLeftBehind(s0: State, targets: set<nat>, v: nat) returns (steps: seq<Step>)
    requires Sane(s0) && s0.phase.Idle? && Enabled(s0, Publish(targets)) && v in targets
    requires s0.threadCount < |targets| || s0.count > 0
    ensures Returns(s0, targets, steps) && forall j | 0 <= j < |steps| :: Working(steps[j])
    ensures var s := RunTo(s0, [Publish(targets)] + steps);
      v < |s.workers| && s.workers[v].log == s0.workers[v].log && s0.batch + 1 !in s.workers[v].log
  {
    assert SaneWorker(s0.workers[v], s0.batch);
    var t := ReturnOver(Apply(s0, Publish(targets)), v);
    steps := Publishing(s0, targets, t);
  }

  lemma Publishing(s0: State, targets: set<nat>, t: State) returns (steps: seq<Step>)
    requires Enabled(s0, Publish(targets)) && Reaches(Apply(s0, Publish(targets)), t) && t.phase == Idle
    ensures Returns(s0, targets, steps) && RunTo(s0, [Publish(targets)] + steps) == t
    ensures forall j | 0 <= j < |steps| :: Working(steps[j])
  {
    hide CanRun, RunTo, Enabled, Apply;
    steps :| Leads(Apply(s0, Publish(targets)), steps, t);
    RunStep(s0, Publish(targets), steps);
    forall j | 0 <= j < |steps| ensures !steps[j].Publish? {
      assert Working(steps[j]);
    }
  }

  /** A run that publishes to `targets` and ends with the return from that broadcast. */
  predicate Returns(s0: State, targets: set<nat>, steps: seq<Step>) {
    && CanRun(s0, [Publish(targets)] + steps)
    && (forall j | 0 <= j < |steps| :: !steps[j].Publish?)
    && RunTo(s0, [Publish(targets)] + steps).phase.Idle?
  }

  /** Every target has gone through the batch that `s0` publishes, once, and through nothing else since. */
  predicate AllPassed(s0: State, targets: set<nat>, s: State) {
    forall i | i in targets ::
      i < |s0.workers| && i < |s.workers| && s.workers[i].log == s0.workers[i].log + [s0.batch + 1]
  }

  /** What a caller can check before a broadcast. */
  predicate AllCounted(s0: State, targets: set<nat>) {
    targets == {} || (|targets| <= s0.threadCount && Settled(s0))
  }

  /** A target whose log shows that the broadcast did not wait for its pass. */
  lemma SomeoneIsMissed(s0: State, targets: set<nat>) returns (steps: seq<Step>)
    requires Sane(s0) && s0.phase.Idle? && Enabled(s0, Publish(targets)) && !AllCounted(s0, targets)
    ensures Returns(s0, targets, steps) && !AllPassed(s0, targets, RunTo(s0, [Publish(targets)] + steps))
  {
    hide Reaches, CanRun, RunTo, Returns;
    var v :| v in targets;
    if s0.threadCount < |targets| || s0.count > 0 {
      steps := UncountedThreadIsLeftBehind(s0, targets, v);
      assert s0.batch + 1 in [s0.batch + 1];
    } else {
      var u := SomeActive(s0.workers);
      var s1 := Apply(s0, Publish(targets));
      StepKeepsSane(s0, Publish(targets));
      var t;
      if targets == {u} {
        t := StragglerCountsTwice(s1, u);
      } else {
        v :| v in targets && v != u;
        t := StragglerHidesAnother(s1, u, v);
      }
      steps := Publishing(s0, targets, t);
    }
  }

  /** Between any two broadcasts, whatever happened before, rounds that returned too early included: the next
      broadcast waits for all its targets, however its steps interleave with the workers' and whatever wakes up without
      a signal, exactly when at least as many threads are counted, no count is left over and nobody is still on the
      way to count up. */
  lemma WaitsForAllIffCounted(n: nat, threadCount: nat, history: seq<Step>, targets: set<nat>)
    requires CanRun(Init(n, threadCount), history)
    requires var s0 := RunTo(Init(n, threadCount), history); s0.phase.Idle? && Enabled(s0, Publish(targets))
    ensures var s0 := RunTo(Init(n, threadCount), history);
      (forall steps | Returns(s0, targets, steps) ::
         AllPassed(s0, targets, RunTo(s0, [Publish(targets)] + steps)))
      <==> targets == {} || (|targets| <= s0.threadCount && s0.count == 0 && ActiveCount(s0.workers) == 0)
  {
    RunKeepsSane(Init(n, threadCount), history);
    WaitsForAllIffSettled(RunTo(Init(n, threadCount), history), targets);
  }

  lemma WaitsForAllIffSettled(s0: State, targets: set<nat>)
    requires Sane(s0) && s0.phase.Idle? && Enabled(s0, Publish(targets))
    ensures (forall steps | Returns(s0, targets, steps) ::
               AllPassed(s0, targets, RunTo(s0, [Publish(targets)] + steps)))
            <==> AllCounted(s0, targets)
  {
    hide Sane, Settled;
    if AllCounted(s0, targets) {
      forall steps | Returns(s0, targets, steps)
        ensures AllPassed(s0, targets, RunTo(s0, [Publish(targets)] + steps))
      {
        if targets != {} {
          BroadcastReturns(s0, targets, steps);
        }
      }
    } else {
      var steps := SomeoneIsMissed(s0, targets);
    }
  }

  // ----- a short round and the next one -----

  /** The run goes on from `t` with the last step of `steps`, to `u`. */
  lemma OneMore(s: State, t: State, steps: seq<Step>, u: State)
    requires steps != [] && CanRun(s, steps[..|steps| - 1]) && RunTo(s, steps[..|steps| - 1]) == t
    requires Enabled(t, steps[|steps| - 1]) && Apply(t, steps[|steps| - 1]) == u
    ensures CanRun(s, steps) && RunTo(s, steps) == u
  {
    hide Enabled, Apply;
    var step := steps[|steps| - 1];
    assert [step][1..] == [];
    assert CanRun(t, [step]) && RunTo(t, [step]) == u;
    RunConcat(s, steps[..|steps| - 1], [step]);
    assert steps[..|steps| - 1] + [step] == steps;
  }

  /** Two workers, one counted: a broadcast to both returns after the pass of worker 0. */
  function ShortRound(): seq<Step> {
    [Publish({0, 1}), Notify(0), Notify(1), StartWait, Test(0), Process(0), Over(0), Check]
  }

  function AfterShortRound(): State {
    State([Worker(Ready, true, [1], [1]), Worker(Ready, false, [1], [])], 0, 1, 1, Idle)
  }

  lemma ShortRoundRuns()
    ensures CanRun(Init(2, 1), ShortRound()) && RunTo(Init(2, 1), ShortRound()) == AfterShortRound()
  {
    hide CanRun, RunTo;
    var s := Init(2, 1);
    var w := Worker(Ready, true, [], []);
    assert s == State([w, w], 0, 1, 0, Idle);
    ShortRoundOpens(s);
    OnePass(RunTo(s, ShortRound()[..4]), 0);
    RunConcat(s, ShortRound()[..4], [Test(0), Process(0), Over(0)]);
    assert ShortRound()[..4] + [Test(0), Process(0), Over(0)] == ShortRound()[..7];
    assert w.log + [1] == [1];
    assert RunTo(s, ShortRound()[..7]).workers == AfterShortRound().workers;
    OneMore(s, RunTo(s, ShortRound()[..7]), ShortRound(), AfterShortRound());
  }

  lemma ShortRoundOpens(s: State)
    requires var w := Worker(Ready, true, [], []); s == State([w, w], 0, 1, 0, Idle)
    ensures CanRun(s, ShortRound()[..4])
    ensures var c := Worker(Ready, false, [1], []);
      RunTo(s, ShortRound()[..4]) == State([c, c], 0, 1, 1, Checking(1))
  {
    hide CanRun, RunTo;
    Starts(s);
    var a := ShortRound();
    var w, c := Worker(Ready, true, [], []), Worker(Ready, false, [1], []);
    var s1 := State([w, w], 0, 1, 1, Notifying({0, 1}, 0));
    var s2 := State([c, w], 0, 1, 1, Notifying({1}, 1));
    var s3 := State([c, c], 0, 1, 1, Notifying({}, 2));
    assert a[..0] == a[..1][..0] == [] && a[..2][..1] == a[..1] && a[..3][..2] == a[..2] && a[..4][..3] == a[..3];
    assert w.due + [1] == c.due && [w, w][0 := c] == [c, w] && [c, w][1 := c] == [c, c];
    assert {0, 1} - {0} == {1} && {1} - {1} == {};
    OneMore(s, s, a[..1], s1);
    OneMore(s, s1, a[..2], s2);
    OneMore(s, s2, a[..3], s3);
    OneMore(s, s3, a[..4], State([c, c], 0, 1, 1, Checking(1)));
  }

  lemma Starts(s: State)
    ensures CanRun(s, []) && RunTo(s, []) == s
  {
  }

  /** A called worker goes through its pass. */
  lemma OnePass(s: State, i: nat)
    requires i < |s.workers| && s.workers[i].pc == Ready && !s.workers[i].isWait && !s.phase.Sleeping?
    ensures var steps := [Test(i), Process(i), Over(i)];
      var w := s.workers[i];
      && CanRun(s, steps)
      && RunTo(s, steps) ==
           s.(workers := s.workers[i := w.(isWait := true, log := w.log + [s.batch])], count := s.count + 1)
  {
    hide CanRun, RunTo;
    Starts(s);
    var a := [Test(i), Process(i), Over(i)];
    assert a[..1][..0] == [] && a[..2][..1] == a[..1] && a[..2] == [Test(i), Process(i)];
    var w := s.workers[i];
    var w1 := w.(isWait := true, pc := Running);
    var w2 := w1.(pc := Done, log := w.log + [s.batch]);
    var s1, s2 := s.(workers := s.workers[i := w1]), s.(workers := s.workers[i := w2]);
    OneMore(s, s, a[..1], s1);
    OneMore(s, s1, a[..2], s2);
    OneMore(s, s2, a, s.(workers := s.workers[i := w2.(pc := Ready)], count := s.count + 1));
  }

  /** The late pass of worker 1 leaves a count behind: then a broadcast to worker 0 alone, with one thread counted and
      everyone at rest, returns before worker 0 has seen its batch. */
  lemma ShortRoundSpoilsTheNext()
    ensures var history := ShortRound() + [Test(1), Process(1), Over(1)];
      CanRun(Init(2, 1), history) &&
      var s0 := RunTo(Init(2, 1), history);
      && s0.phase.Idle? && s0.threadCount == 1 && ActiveCount(s0.workers) == 0 && s0.count == 1
      && Returns(s0, {0}, [Notify(0), StartWait, Check])
      && !AllPassed(s0, {0}, RunTo(s0, [Publish({0})] + [Notify(0), StartWait, Check]))
  {
    hide CanRun, RunTo;
    ShortRoundRuns();
    OnePass(AfterShortRound(), 1);
    RunConcat(Init(2, 1), ShortRound(), [Test(1), Process(1), Over(1)]);
    var w := Worker(Ready, true, [1], [1]);
    var s := State([w, w], 1, 1, 1, Idle);
    assert AfterShortRound().workers[1].log + [1] == w.log && AfterShortRound().workers[1 := w] == s.workers;
    NoActiveAtStart(s.workers);
    NextRound(s);
    assert ([1] + [2])[1] == 2;
  }

  lemma NextRound(s: State)
    requires var w := Worker(Ready, true, [1], [1]); s == State([w, w], 1, 1, 1, Idle)
    ensures var a := [Publish({0})] + [Notify(0), StartWait, Check];
      CanRun(s, a) &&
      RunTo(s, a) == State([Worker(Ready, false, [1, 2], [1]), Worker(Ready, true, [1], [1])], 0, 1, 2, Idle)
  {
    hide CanRun, RunTo;
    Starts(s);
    var w, c := Worker(Ready, true, [1], [1]), Worker(Ready, false, [1, 2], [1]);
    var a := [Publish({0})] + [Notify(0), StartWait, Check];
    var s1 := State([w, w], 1, 1, 2, Notifying({0}, 0));
    var s2 := State([c, w], 1, 1, 2, Notifying({}, 1));
    var s3 := State([c, w], 1, 1, 2, Checking(1));
    assert a[..1][..0] == [] && a[..2][..1] == a[..1] && a[..3][..2] == a[..2];
    assert w.due + [2] == c.due && [w, w][0 := c] == [c, w] && {0} - {0} == {};
    OneMore(s, s, a[..1], s1);
    OneMore(s, s1, a[..2], s2);
    OneMore(s, s2, a[..3], s3);
    OneMore(s, s3, a, State([c, w], 0, 1, 2, Idle));
  }
}
