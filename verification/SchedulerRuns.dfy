/** What holds over whole runs of the scheduler: the queue partition, termination for good, resume modes,
    mutex ownership and order, exact wake-up, and the bound on waiting. */
module SchedulerRuns {
  import opened Machine
  import opened Options
  import opened SchedulerModel
  import opened SchedulerInvariant

  ghost predicate Run<T, M>(states: seq<Sched<T, M>>, ops: seq<Op<T, M>>) {
    && |states| == |ops| + 1 && Inv(states[0])
    && forall i :: 0 <= i < |ops| ==> Enabled(states[i], ops[i]) && states[i + 1] == Apply(states[i], ops[i])
  }

  lemma {:induction false} RunInv<T, M>(states: seq<Sched<T, M>>, ops: seq<Op<T, M>>, n: nat)
    requires Run(states, ops) && n <= |ops|
    ensures Inv(states[n])
  {
    hide Inv, Apply, Enabled;
    if n > 0 {
      RunInv(states, ops, n - 1);
      StepInv(states[n - 1], ops[n - 1]);
    }
  }

  // ----- the partition -----

  datatype Place<M> = InReady | InBlocked | InSleep | InWait(m: M)

  ghost predicate In<T, M>(s: Sched<T, M>, t: T, place: Place<M>) {
    match place
    case InReady => t in s.ready
    case InBlocked => t in s.blocked
    case InSleep => t in s.sleep
    case InWait(m) => m in s.mutexes && t in s.mutexes[m].wait
  }

  /** No task is in two lists, although all lists share one link field. */
  lemma OnePlace<T, M>(s: Sched<T, M>, t: T, p: Place<M>, q: Place<M>)
    requires Queued(s) && MutexesOk(s) && In(s, t, p) && In(s, t, q)
    ensures p == q && t in s.tasks
  {
    if p.InWait? {
      assert Consistent(s, p.m);
    }
    if q.InWait? {
      assert Consistent(s, q.m);
    }
  }

  /** A task is in some list exactly when its state says so; running and terminated tasks are in none. */
  lemma SomePlace<T, M>(s: Sched<T, M>, t: T)
    requires Inv(s) && t in s.tasks
    ensures (exists p :: In(s, t, p)) <==>
              s.tasks[t].state == Ready || s.tasks[t].state == Blocked || s.tasks[t].state == Sleeping
    ensures s.tasks[t].state == Running <==> s.current == On(t)
  {
    var state := s.tasks[t].state;
    assert Placed(s, t);
    if state == Ready {
      assert In(s, t, InReady);
    } else if state == Sleeping {
      assert In(s, t, InSleep);
    } else if state == Blocked && s.tasks[t].waiting == None {
      assert In(s, t, InBlocked);
    } else if state == Blocked {
      assert In(s, t, InWait(s.tasks[t].waiting.value));
    } else {
      forall p ensures !In(s, t, p) {
        if p.InWait? && p.m in s.mutexes {
          assert Consistent(s, p.m);
        }
      }
    }
  }

  // ----- terminated tasks -----

  /** A task in no list that is not running is left alone. */
  ghost predicate Nowhere<T, M>(s: Sched<T, M>, t: T) {
    && t in s.tasks && s.tasks[t].state == Terminated && s.current != On(t)
    && t !in s.ready && t !in s.sleep
  }

  lemma DispatchElsewhere<T, M>(s: Sched<T, M>, t: T)
    requires t in s.tasks && t !in s.ready
    ensures var u := Dispatch(s); t in u.tasks && u.tasks[t] == s.tasks[t] && u.current != On(t)
  {
  }

  lemma YieldElsewhere<T, M>(s: Sched<T, M>, t: T)
    requires t in s.tasks && t !in s.ready && s.current != On(t)
    ensures var u := Yield(s); t in u.tasks && u.tasks[t] == s.tasks[t] && u.current != On(t)
  {
    if OnTask(s) && Me(s).state == Running {
      var c := s.current.task;
      DispatchElsewhere(Update(s, c, Readied(Me(s)).(out := Voluntary)).(ready := s.ready + [c]), t);
    } else {
      DispatchElsewhere(s, t);
    }
  }

  lemma ServeElsewhere<T, M>(s: Sched<T, M>, frame: nat, t: T)
    requires t in s.tasks && t !in s.ready && s.current != On(t)
    ensures var u := Serve(s, frame); t in u.tasks && u.tasks[t] == s.tasks[t] && u.current != On(t)
  {
    hide Dispatch;
    if OnTask(s) && s.slice + 1 >= TIME_SLICE && s.ready != [] {
      var saved := Save(s.(slice := 0), frame);
      var c := saved.current.task;
      DispatchElsewhere(saved, t);
      var requeued := Update(saved, c, Me(saved).(state := Ready, out := Preempted(frame)));
      DispatchElsewhere(requeued.(ready := saved.ready + [c]), t);
    }
  }

  lemma TickElsewhere<T, M>(s: Sched<T, M>, frame: nat, t: T)
    requires Nowhere(s, t)
    ensures var u := Tick(s, frame); t in u.tasks && u.tasks[t] == s.tasks[t] && u.current != On(t)
  {
    hide Serve;
    var now := s.(ticks := (s.ticks + 1) % U64_LIMIT);
    DueMember(s.sleep, s.tasks, now.ticks, true, t);
    ServeElsewhere(Sweep(now), frame, t);
  }

  lemma TerminatedStep<T, M>(s: Sched<T, M>, op: Op<T, M>, t: T)
    requires Nowhere(s, t) && Enabled(s, op)
    ensures var u := Apply(s, op); t in u.tasks && u.tasks[t] == s.tasks[t] && u.current != On(t)
  {
    hide Yield, Tick;
    if OnTask(s) {
      var c := s.current.task;
      match op
      case DoYield => YieldElsewhere(s, t);
      case DoSleep(n) =>
        YieldElsewhere(Update(s, c, Left(s, Sleeping).(wake := (s.ticks + n) % U64_LIMIT)).(sleep := s.sleep + [c]), t);
      case DoBlock => YieldElsewhere(Update(s, c, Left(s, Blocked)).(blocked := s.blocked + [c]), t);
      case DoExit => YieldElsewhere(Update(s, c, Left(s, Terminated)), t);
      case DoTick(frame) => TickElsewhere(s, frame, t);
      case DoLock(m) => LockElsewhere(s, m, t);
      case DoRetry => LockElsewhere(s, Me(s).waiting.value, t);
      case _ =>
    } else {
      match op
      case DoYield => YieldElsewhere(s, t);
      case DoTick(frame) => TickElsewhere(s, frame, t);
      case _ =>
    }
  }

  lemma LockElsewhere<T, M>(s: Sched<T, M>, m: M, t: T)
    requires Nowhere(s, t)
    ensures var u := LockTurn(s, m); t in u.tasks && u.tasks[t] == s.tasks[t] && u.current != On(t)
  {
    hide Yield;
    if OnTask(s) && m in s.mutexes {
      YieldElsewhere(Enqueue(s, m), t);
    }
  }

  /** A terminated task never runs again. */
  lemma {:induction false} TerminatedForever<T, M>(states: seq<Sched<T, M>>, ops: seq<Op<T, M>>, n: nat, t: T)
    requires Run(states, ops) && n <= |ops| && t in states[0].tasks && states[0].tasks[t].state == Terminated
    ensures t in states[n].tasks && states[n].tasks[t].state == Terminated && states[n].current != On(t)
  {
    if n > 0 {
      TerminatedForever(states, ops, n - 1, t);
      RunInv(states, ops, n - 1);
      assert Nowhere(states[n - 1], t);
      TerminatedStep(states[n - 1], ops[n - 1], t);
    } else {
      RunInv(states, ops, 0);
    }
  }

  // ----- how a task lost the processor -----

  /** What a step records about `t`: how it lost the processor if it did, and nothing if it did not have it. */
  ghost predicate Recorded<T, M>(s: Sched<T, M>, u: Sched<T, M>, t: T, how: SwitchOut) {
    && t in s.tasks && t in u.tasks
    && (s.current == On(t) && u.current != On(t) ==> u.tasks[t].out == how)
    && (s.current != On(t) ==> u.tasks[t].out == s.tasks[t].out)
  }

  lemma YieldOut<T, M>(s: Sched<T, M>, t: T)
    requires t in s.tasks
    ensures var u := Yield(s);
            && t in u.tasks
            && u.tasks[t].out == if s.current == On(t) && s.tasks[t].state == Running then Voluntary else s.tasks[t].out
  {
    hide Dispatch;
  }

  lemma LockRecorded<T, M>(s: Sched<T, M>, m: M, t: T)
    requires OnTask(s) && t in s.tasks && m in s.mutexes
    ensures Recorded(s, LockTurn(s, m), t, Voluntary)
  {
    hide Yield;
    YieldOut(Enqueue(s, m), t);
  }

  lemma UnlockRecorded<T, M>(s: Sched<T, M>, m: M, t: T)
    requires t in s.tasks
    ensures Recorded(s, Unlock(s, m), t, Voluntary)
  {
  }

  /** The history variable is right: a task that loses the processor to a tick is recorded as preempted with
      the frame of that interrupt, one that loses it to its own call as having left, and no other changes. */
  lemma SwitchOutRecorded<T, M>(s: Sched<T, M>, op: Op<T, M>, t: T)
    requires Inv(s) && Enabled(s, op) && t in s.tasks
    ensures Recorded(s, Apply(s, op), t, if op.DoTick? then Preempted(op.frame) else Voluntary)
  {
    hide Inv, Yield, Tick, LockTurn, Unlock;
    CurrentKnown(s);
    match op
    case DoTick(frame) => TickRecorded(s, frame, t);
    case DoYield => YieldOut(s, t);
    case DoSleep(n) =>
      var c := s.current.task;
      YieldOut(Update(s, c, Left(s, Sleeping).(wake := (s.ticks + n) % U64_LIMIT)).(sleep := s.sleep + [c]), t);
    case DoBlock =>
      YieldOut(Update(s, s.current.task, Left(s, Blocked)).(blocked := s.blocked + [s.current.task]), t);
    case DoExit => YieldOut(Update(s, s.current.task, Left(s, Terminated)), t);
    case DoLock(m) => LockRecorded(s, m, t);
    case DoRetry => RetryOwns(s); LockRecorded(s, Me(s).waiting.value, t);
    case DoUnlock(m) => UnlockRecorded(s, m, t);
    case _ =>
  }

  lemma CurrentKnown<T, M>(s: Sched<T, M>)
    requires Inv(s)
    ensures s.current.On? ==> OnTask(s) && Me(s).state == Running && s.current.task !in s.sleep
  {
  }

  lemma TickRecorded<T, M>(s: Sched<T, M>, frame: nat, t: T)
    requires t in s.tasks
    requires s.current.On? ==> OnTask(s) && Me(s).state == Running && s.current.task !in s.sleep
    ensures Recorded(s, Tick(s, frame), t, Preempted(frame))
  {
    hide Serve;
    var swept := Sweep(s.(ticks := (s.ticks + 1) % U64_LIMIT));
    assert t in swept.tasks && swept.tasks[t].out == s.tasks[t].out;
    ServeRecorded(swept, frame, t);
  }

  lemma ServeRecorded<T, M>(s: Sched<T, M>, frame: nat, t: T)
    requires t in s.tasks && (s.current.On? ==> OnTask(s) && Me(s).state == Running)
    ensures Recorded(s, Serve(s, frame), t, Preempted(frame))
  {
    hide Dispatch;
  }

  lemma {:induction false} OutStays<T, M>(states: seq<Sched<T, M>>, ops: seq<Op<T, M>>, i: nat, n: nat, t: T)
    requires Run(states, ops) && i <= n <= |ops| && t in states[i].tasks
    requires forall k :: i <= k < n ==> states[k].current != On(t)
    ensures t in states[n].tasks && states[n].tasks[t].out == states[i].tasks[t].out
    decreases n
  {
    hide Inv, Apply, Enabled;
    if i < n {
      OutStays(states, ops, i, n - 1, t);
      RunInv(states, ops, n - 1);
      SwitchOutRecorded(states[n - 1], ops[n - 1], t);
    }
  }

  /** The resume mode matches the suspension, in every run: a ready task that last lost the processor at
      step `i` is to be resumed by the frame of that interrupt if the step was a tick, and by its saved
      context if it was the task's own call. */
  lemma ResumeMatches<T, M>(states: seq<Sched<T, M>>, ops: seq<Op<T, M>>, i: nat, n: nat, t: T)
    requires Run(states, ops) && i < n <= |ops| && states[i].current == On(t) && t in states[n].ready
    requires forall k :: i < k <= n ==> states[k].current != On(t)
    ensures t in states[n].tasks
    ensures var r := states[n].tasks[t];
            if ops[i].DoTick? then r.mode == Interrupt && r.frame == ops[i].frame != 0
            else r.mode == Context && r.frame == 0
  {
    hide Apply, Enabled;
    RunInv(states, ops, i);
    RunInv(states, ops, n);
    SwitchOutRecorded(states[i], ops[i], t);
    OutStays(states, ops, i + 1, n, t);
    assert Resumable(states[n].tasks[t]);
  }

  // ----- mutexes -----

  ghost predicate Owns<T, M>(s: Sched<T, M>, m: M, t: T) {
    m in s.mutexes && s.mutexes[m].owner == Some(t)
  }

  lemma LockKeepsOwner<T, M>(s: Sched<T, M>, n: M, m: M, t: T)
    requires Owns(s, m, t) && Consistent(s, m)
    ensures Owns(LockTurn(s, n), m, t)
  {
    hide Yield;
  }

  lemma UnlockKeepsOwner<T, M>(s: Sched<T, M>, n: M, m: M, t: T)
    requires Owns(s, m, t) && !(n == m && s.current == On(t))
    ensures Owns(Unlock(s, n), m, t)
  {
  }

  /** Ownership ends only by the owner's own unlock. */
  lemma OwnerStays<T, M>(s: Sched<T, M>, op: Op<T, M>, m: M, t: T)
    requires Inv(s) && Enabled(s, op) && Owns(s, m, t)
    requires !(op == DoUnlock(m) && s.current == On(t))
    ensures Owns(Apply(s, op), m, t)
  {
    hide Inv, Yield, Tick, LockTurn, Unlock;
    assert Consistent(s, m) by {
      ConsistentNow(s, m);
    }
    match op
    case DoLock(n) => LockKeepsOwner(s, n, m, t);
    case DoRetry => LockKeepsOwner(s, Me(s).waiting.value, m, t);
    case DoUnlock(n) => UnlockKeepsOwner(s, n, m, t);
    case _ =>
  }

  lemma ConsistentNow<T, M>(s: Sched<T, M>, m: M)
    requires Inv(s) && m in s.mutexes
    ensures Consistent(s, m)
  {
  }

  /** Over a run: the owner keeps the mutex until its own unlock. */
  lemma {:induction false} OwnerStaysUntilUnlock<T, M>(states: seq<Sched<T, M>>, ops: seq<Op<T, M>>, n: nat, m: M, t: T)
    requires Run(states, ops) && n <= |ops| && Owns(states[0], m, t)
    requires forall i :: 0 <= i < n ==> !(ops[i] == DoUnlock(m) && states[i].current == On(t))
    ensures Owns(states[n], m, t)
  {
    hide Inv, Apply, Enabled;
    if n > 0 {
      OwnerStaysUntilUnlock(states, ops, n - 1, m, t);
      RunInv(states, ops, n - 1);
      OwnerStays(states[n - 1], ops[n - 1], m, t);
    }
  }

  /** mutex_lock returns only to the owner; and once handed the mutex, it returns on the next turn. */
  lemma LockReturns<T, M>(s: Sched<T, M>, op: Op<T, M>)
    requires Inv(s) && Enabled(s, op) && (op.DoLock? || op.DoRetry?)
    ensures
      var t, u := s.current.task, Apply(s, op);
      var m := if op.DoLock? then op.m else Me(s).waiting.value;
      && m in u.mutexes && t in u.tasks
      && (u.tasks[t].waiting == None ==> u.mutexes[m].owner == Some(t) && u.current == On(t))
      && (u.tasks[t].waiting != None ==> u.tasks[t].state == Blocked && t in u.mutexes[m].wait)
      && (op.DoRetry? ==> u.tasks[t].waiting == None)
  {
    StepInv(s, op);
    if op == DoRetry {
      RetryOwns(s);
    }
  }

  /** No barging: while tasks wait, a newcomer does not get the mutex but goes to the end of the line. */
  lemma NoBarging<T, M>(s: Sched<T, M>, m: M)
    requires Inv(s) && Enabled(s, DoLock(m)) && s.mutexes[m].wait != [] && s.mutexes[m].owner != Some(s.current.task)
    ensures
      var u := Apply(s, DoLock(m));
      && u.mutexes[m].owner == s.mutexes[m].owner
      && u.mutexes[m].wait == s.mutexes[m].wait + [s.current.task]
  {
    assert Consistent(s, m);
  }

  /** Histories only grow. */
  lemma HistoryStep<T, M>(s: Sched<T, M>, op: Op<T, M>, m: M)
    requires m in s.mutexes
    ensures var u := Apply(s, op);
            && m in u.mutexes
            && s.mutexes[m].arrivals <= u.mutexes[m].arrivals && s.mutexes[m].grants <= u.mutexes[m].grants
  {
    hide Yield, Tick, LockTurn, Unlock;
    match op
    case DoLock(n) => LockHistory(s, n, m);
    case DoRetry =>
      if OnTask(s) && Me(s).waiting.Some? {
        LockHistory(s, Me(s).waiting.value, m);
      }
    case DoUnlock(n) => UnlockHistory(s, n, m);
    case _ =>
  }

  lemma LockHistory<T, M>(s: Sched<T, M>, n: M, m: M)
    requires m in s.mutexes
    ensures var u := LockTurn(s, n);
            && m in u.mutexes
            && s.mutexes[m].arrivals <= u.mutexes[m].arrivals && s.mutexes[m].grants <= u.mutexes[m].grants
  {
    hide Yield;
  }

  lemma UnlockHistory<T, M>(s: Sched<T, M>, n: M, m: M)
    requires m in s.mutexes
    ensures var u := Unlock(s, n);
            && m in u.mutexes
            && s.mutexes[m].arrivals <= u.mutexes[m].arrivals && s.mutexes[m].grants <= u.mutexes[m].grants
  {
  }

  /** Grants follow arrivals: over a run, the tasks that queue after the start are handed the mutex in the
      order in which they came. */
  lemma {:induction false} GrantsFollowArrivals<T, M>(states: seq<Sched<T, M>>, ops: seq<Op<T, M>>, n: nat, m: M)
    requires Run(states, ops) && n <= |ops| && m in states[0].mutexes
    ensures m in states[n].mutexes && states[n].mutexes[m].grants <= states[n].mutexes[m].arrivals
    ensures states[0].mutexes[m].grants <= states[n].mutexes[m].grants
    ensures states[0].mutexes[m].arrivals <= states[n].mutexes[m].arrivals
  {
    hide Apply, Enabled;
    RunInv(states, ops, n);
    if n > 0 {
      GrantsFollowArrivals(states, ops, n - 1, m);
      HistoryStep(states[n - 1], ops[n - 1], m);
    }
    assert Consistent(states[n], m);
  }

  // ----- sleeping -----

  /** The tick at which a sleeper is due. */
  ghost predicate Wakes<T, M>(u: Sched<T, M>, op: Op<T, M>, wake: nat) {
    op.DoTick? && u.ticks >= wake
  }

  /** A sleeper leaves the sleep queue at a due tick and at no other step; it is then ready, or running if
      the same interrupt dispatched it. */
  lemma SleeperStep<T, M>(s: Sched<T, M>, op: Op<T, M>, t: T)
    requires Inv(s) && Enabled(s, op) && t in s.sleep
    ensures var u := Apply(s, op);
            && t in u.tasks && (t in u.sleep <==> !Wakes(u, op, s.tasks[t].wake))
            && (t in u.sleep ==> u.tasks[t].wake == s.tasks[t].wake)
            && (t !in u.sleep ==> u.tasks[t].state == Ready || u.tasks[t].state == Running)
  {
    hide Inv, Tick, Yield;
    assert t in s.tasks && s.tasks[t].state == Sleeping && s.current != On(t) && t !in s.ready by {
      SleeperFacts(s, t);
    }
    match op
    case DoTick(frame) => SleeperTick(s, frame, t);
    case DoYield => YieldSleep(s, t);
    case DoSleep(n) =>
      var c := s.current.task;
      YieldSleep(Update(s, c, Left(s, Sleeping).(wake := (s.ticks + n) % U64_LIMIT)).(sleep := s.sleep + [c]), t);
    case DoBlock =>
      YieldSleep(Update(s, s.current.task, Left(s, Blocked)).(blocked := s.blocked + [s.current.task]), t);
    case DoExit => YieldSleep(Update(s, s.current.task, Left(s, Terminated)), t);
    case DoUnblock(x) =>
      if x in s.blocked {
        BlockedNotAsleep(s, x, t);
      }
    case DoLock(m) => LockSleep(s, m, t);
    case DoRetry => LockSleep(s, Me(s).waiting.value, t);
    case DoUnlock(m) => assert s.mutexes[m].wait != [] ==> s.mutexes[m].wait[0] != t by { WaiterNotAsleep(s, m, t); }
    case _ =>
  }

  lemma SleeperFacts<T, M>(s: Sched<T, M>, t: T)
    requires Inv(s) && t in s.sleep
    ensures t in s.tasks && s.tasks[t].state == Sleeping && s.current != On(t) && t !in s.ready
  {
  }

  lemma BlockedNotAsleep<T, M>(s: Sched<T, M>, x: T, t: T)
    requires Inv(s) && x in s.blocked && t in s.sleep
    ensures x != t
  {
  }

  lemma WaiterNotAsleep<T, M>(s: Sched<T, M>, m: M, t: T)
    requires Inv(s) && m in s.mutexes && t in s.sleep
    ensures s.mutexes[m].wait != [] ==> s.mutexes[m].wait[0] != t
  {
    assert Consistent(s, m);
    assert s.mutexes[m].wait != [] ==> s.mutexes[m].wait[0] in s.mutexes[m].wait;
  }

  lemma YieldSleep<T, M>(s: Sched<T, M>, t: T)
    requires t in s.tasks && t in s.sleep && s.current != On(t) && t !in s.ready
    ensures var u := Yield(s); t in u.tasks && u.tasks[t] == s.tasks[t] && t in u.sleep
  {
    hide Dispatch;
    YieldElsewhere(s, t);
  }

  lemma LockSleep<T, M>(s: Sched<T, M>, m: M, t: T)
    requires t in s.tasks && t in s.sleep && s.current != On(t) && t !in s.ready
    ensures var u := LockTurn(s, m); t in u.tasks && u.tasks[t] == s.tasks[t] && t in u.sleep
  {
    hide Yield;
    if OnTask(s) && m in s.mutexes {
      YieldSleep(Enqueue(s, m), t);
    }
  }

  lemma SleeperTick<T, M>(s: Sched<T, M>, frame: nat, t: T)
    requires t in s.tasks && t in s.sleep && s.current != On(t) && s.tasks[t].state == Sleeping
    ensures var u := Tick(s, frame);
            && t in u.tasks && (t in u.sleep <==> !(u.ticks >= s.tasks[t].wake))
            && (t in u.sleep ==> u.tasks[t].wake == s.tasks[t].wake)
            && (t !in u.sleep ==> u.tasks[t].state == Ready || u.tasks[t].state == Running)
  {
    hide Serve;
    var now := s.(ticks := (s.ticks + 1) % U64_LIMIT);
    var swept := Sweep(now);
    DueMember(s.sleep, s.tasks, now.ticks, false, t);
    ServeSleep(swept, frame, t);
  }

  lemma ServeSleep<T, M>(s: Sched<T, M>, frame: nat, t: T)
    requires t in s.tasks && s.current != On(t)
    ensures var u := Serve(s, frame);
            && t in u.tasks && u.sleep == s.sleep && u.ticks == s.ticks && u.tasks[t].wake == s.tasks[t].wake
            && (u.tasks[t].state == s.tasks[t].state || u.tasks[t].state == Running)
  {
  }

  /** Never earlier: until the first due tick the sleeper stays in the sleep queue with its wake-up time. */
  lemma {:induction false} SleepsUntilDue<T, M>(states: seq<Sched<T, M>>, ops: seq<Op<T, M>>, n: nat, t: T)
    requires Run(states, ops) && n <= |ops| && t in states[0].sleep && t in states[0].tasks
    requires forall i :: 0 <= i < n ==> !Wakes(states[i + 1], ops[i], states[0].tasks[t].wake)
    ensures t in states[n].sleep && t in states[n].tasks && states[n].tasks[t].wake == states[0].tasks[t].wake
  {
    hide Inv, Apply, Enabled, Wakes;
    if n > 0 {
      SleepsUntilDue(states, ops, n - 1, t);
      RunInv(states, ops, n - 1);
      SleeperStep(states[n - 1], ops[n - 1], t);
      assert !Wakes(states[n], ops[n - 1], states[0].tasks[t].wake);
    }
  }

  /** Exact wake-up: at the first due tick it leaves the queue. */
  lemma WokenWhenDue<T, M>(states: seq<Sched<T, M>>, ops: seq<Op<T, M>>, n: nat, t: T)
    requires Run(states, ops) && n < |ops| && t in states[0].sleep && t in states[0].tasks
    requires forall i :: 0 <= i < n ==> !Wakes(states[i + 1], ops[i], states[0].tasks[t].wake)
    requires Wakes(states[n + 1], ops[n], states[0].tasks[t].wake)
    ensures t !in states[n + 1].sleep && t in states[n + 1].tasks
    ensures states[n + 1].tasks[t].state == Ready || states[n + 1].tasks[t].state == Running
  {
    hide Inv, Apply, Enabled, Wakes;
    SleepsUntilDue(states, ops, n, t);
    RunInv(states, ops, n);
    SleeperStep(states[n], ops[n], t);
  }

  // ----- waiting for the processor -----

  /** Ticks that a task at position `k` of the ready queue may still have to wait. */
  ghost function Budget(k: nat, slice: nat): int {
    TIME_SLICE * k + TIME_SLICE - slice
  }

  /** The task is at position `k` behind a running task. */
  ghost predicate Behind<T, M>(s: Sched<T, M>, t: T, k: nat) {
    s.current.On? && k < |s.ready| && s.ready[k] == t && s.slice < TIME_SLICE
  }

  /** Either the task got the processor, or it is still behind one, within the budget. */
  ghost predicate Nearer<T, M>(u: Sched<T, M>, t: T, budget: int) {
    u.current == On(t) || exists k: nat :: Behind(u, t, k) && Budget(k, u.slice) <= budget
  }

  lemma DispatchNearer<T, M>(s: Sched<T, M>, t: T, k: nat)
    requires k < |s.ready| && s.ready[k] == t
    ensures Nearer(Dispatch(s), t, TIME_SLICE * k)
  {
    if k > 0 {
      assert Behind(Dispatch(s), t, k - 1);
    }
  }

  lemma YieldNearer<T, M>(s: Sched<T, M>, t: T, k: nat)
    requires k < |s.ready| && s.ready[k] == t
    ensures Nearer(Yield(s), t, TIME_SLICE * k)
  {
    hide Dispatch, Nearer;
    if OnTask(s) && Me(s).state == Running {
      var c := s.current.task;
      DispatchNearer(Update(s, c, Readied(Me(s)).(out := Voluntary)).(ready := s.ready + [c]), t, k);
    } else {
      DispatchNearer(s, t, k);
    }
  }

  lemma StayNearer<T, M>(s: Sched<T, M>, u: Sched<T, M>, t: T, k: nat)
    requires Behind(s, t, k) && u.current == s.current && s.ready <= u.ready && u.slice == s.slice
    ensures Nearer(u, t, Budget(k, s.slice))
  {
    assert Behind(u, t, k);
  }

  lemma ServeNearer<T, M>(s: Sched<T, M>, frame: nat, t: T, k: nat)
    requires Behind(s, t, k) && OnTask(s)
    ensures Nearer(Serve(s, frame), t, Budget(k, s.slice) - 1)
  {
    hide Dispatch;
    if s.slice + 1 < TIME_SLICE {
      assert Behind(Serve(s, frame), t, k);
    } else {
      hide Nearer;
      var saved := Save(s.(slice := 0), frame);
      var c := saved.current.task;
      DispatchNearer(saved, t, k);
      var requeued := Update(saved, c, Me(saved).(state := Ready, out := Preempted(frame)));
      DispatchNearer(requeued.(ready := saved.ready + [c]), t, k);
    }
  }

  lemma TickNearer<T, M>(s: Sched<T, M>, frame: nat, t: T, k: nat)
    requires Behind(s, t, k) && OnTask(s)
    ensures Nearer(Tick(s, frame), t, Budget(k, s.slice) - 1)
  {
    hide Serve, Nearer;
    ServeNearer(Sweep(s.(ticks := (s.ticks + 1) % U64_LIMIT)), frame, t, k);
  }

  /** Whatever any task does, a ready task comes nearer or gets the processor, and every tick counts. */
  lemma StepNearer<T, M>(s: Sched<T, M>, op: Op<T, M>, t: T, k: nat)
    requires Inv(s) && Enabled(s, op) && Behind(s, t, k)
    ensures Nearer(Apply(s, op), t, Budget(k, s.slice) - (if op.DoTick? then 1 else 0))
  {
    hide Inv, Yield, Tick, Nearer, LockTurn;
    assert OnTask(s) by {
      RunningKnown(s);
    }
    var c := s.current.task;
    match op
    case DoYield => YieldNearer(s, t, k); Relax(Yield(s), t, TIME_SLICE * k, Budget(k, s.slice));
    case DoSleep(n) =>
      var p := Update(s, c, Left(s, Sleeping).(wake := (s.ticks + n) % U64_LIMIT)).(sleep := s.sleep + [c]);
      YieldNearer(p, t, k); Relax(Yield(p), t, TIME_SLICE * k, Budget(k, s.slice));
    case DoBlock =>
      var p := Update(s, c, Left(s, Blocked)).(blocked := s.blocked + [c]);
      YieldNearer(p, t, k); Relax(Yield(p), t, TIME_SLICE * k, Budget(k, s.slice));
    case DoExit =>
      var p := Update(s, c, Left(s, Terminated));
      YieldNearer(p, t, k); Relax(Yield(p), t, TIME_SLICE * k, Budget(k, s.slice));
    case DoTick(frame) => TickNearer(s, frame, t, k);
    case DoLock(m) => LockNearer(s, m, t, k);
    case DoRetry => LockNearer(s, Me(s).waiting.value, t, k);
    case _ => StayNearer(s, Apply(s, op), t, k);
  }

  lemma RunningKnown<T, M>(s: Sched<T, M>)
    requires Inv(s) && s.current.On?
    ensures OnTask(s)
  {
  }

  lemma Relax<T, M>(u: Sched<T, M>, t: T, low: int, high: int)
    requires Nearer(u, t, low) && low <= high
    ensures Nearer(u, t, high)
  {
  }

  lemma LockNearer<T, M>(s: Sched<T, M>, m: M, t: T, k: nat)
    requires Behind(s, t, k)
    ensures Nearer(LockTurn(s, m), t, Budget(k, s.slice))
  {
    hide Yield, Nearer;
    if OnTask(s) && m in s.mutexes && s.mutexes[m].owner != Some(s.current.task) && s.mutexes[m].locked {
      YieldNearer(Enqueue(s, m), t, k);
      Relax(Yield(Enqueue(s, m)), t, TIME_SLICE * k, Budget(k, s.slice));
    } else {
      StayNearer(s, LockTurn(s, m), t, k);
    }
  }

  ghost function Ticks<T, M>(ops: seq<Op<T, M>>): nat {
    if ops == [] then 0 else (if ops[0].DoTick? then 1 else 0) + Ticks(ops[1..])
  }

  /** The bound on waiting: with a task running, the task at position `k` of the ready queue gets the
      processor within 10 * (k + 1) timer ticks, in every run that is long enough. */
  lemma {:induction false} WaitingBound<T, M>(states: seq<Sched<T, M>>, ops: seq<Op<T, M>>, t: T, k: nat)
      returns (i: nat)
    requires Run(states, ops) && Behind(states[0], t, k) && Ticks(ops) >= 10 * (k + 1)
    ensures 0 < i <= |ops| && states[i].current == On(t) && Ticks(ops[..i]) <= 10 * (k + 1)
  {
    i := WaitingBudget(states, ops, t, k);
  }

  lemma {:induction false} WaitingBudget<T, M>(states: seq<Sched<T, M>>, ops: seq<Op<T, M>>, t: T, k: nat)
      returns (i: nat)
    requires Run(states, ops) && Behind(states[0], t, k) && Ticks(ops) >= Budget(k, states[0].slice)
    ensures 0 < i <= |ops| && states[i].current == On(t) && Ticks(ops[..i]) <= Budget(k, states[0].slice)
    decreases |ops|
  {
    hide Inv, Apply, Enabled;
    var s, u := states[0], states[1];
    StepNearer(s, ops[0], t, k);
    assert Inv(u) by {
      RunInv(states, ops, 1);
    }
    var tick := if ops[0].DoTick? then 1 else 0;
    if u.current == On(t) {
      i := 1;
      assert ops[..1] == [ops[0]];
    } else {
      var k' :| Behind(u, t, k') && Budget(k', u.slice) <= Budget(k, s.slice) - tick;
      var j := WaitingBudget(states[1..], ops[1..], t, k');
      i := j + 1;
      assert ops[..i][1..] == ops[1..][..j];
    }
  }
}
