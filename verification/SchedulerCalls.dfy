/** What each call of the scheduler and of the mutexes does to the state, and what follows over whole runs:
    sleeping for the time asked, a full slice before preemption, mutexes that become free and lines that move. */
module SchedulerCalls {
  import opened Machine
  import opened Options
  import opened SchedulerModel
  import opened SchedulerInvariant
  import opened SchedulerRuns

  // ----- one call -----

  /** The head of `q` runs now with a new slice, or idle if there is none; among the task records only its
      state changes. */
  ghost predicate Dispatched<T, M>(q: seq<T>, tasks: map<T, Task<M>>, u: Sched<T, M>) {
    && u.slice == 0
    && if q == [] then u.current == Idle && u.ready == [] && u.tasks == tasks
       else u.current == On(q[0]) && u.ready == q[1..] && q[0] in tasks
            && u.tasks == tasks[q[0] := tasks[q[0]].(state := Running)]
  }

  /** The queues, mutexes and clock that most calls leave alone. */
  ghost predicate SameRest<T, M>(s: Sched<T, M>, u: Sched<T, M>) {
    u.blocked == s.blocked && u.sleep == s.sleep && u.mutexes == s.mutexes && u.ticks == s.ticks
  }

  lemma ReadyKnown<T, M>(s: Sched<T, M>)
    requires Inv(s)
    ensures forall t :: t in s.ready ==> t in s.tasks && s.current != On(t)
    ensures s.current.On? ==> OnTask(s) && Me(s).state == Running && s.current.task !in s.ready
    ensures s.current.On? ==> s.current.task !in s.sleep && s.current.task !in s.blocked
    ensures s.slice < 10
  {
  }

  /** scheduler_yield puts the caller at the end of the ready queue, to be resumed by its context, and runs
      the head; a caller that is alone goes on. */
  lemma YieldEffect<T, M>(s: Sched<T, M>)
    requires Inv(s) && OnTask(s)
    ensures
      var t, u := s.current.task, Apply(s, DoYield);
      && SameRest(s, u)
      && Dispatched(s.ready + [t],
                    s.tasks[t := Me(s).(state := Ready, mode := Context, frame := 0, out := Voluntary)], u)
  {
    hide Inv;
    ReadyKnown(s);
  }

  /** scheduler_sleep queues the caller for the tick that lies `n` ahead, as far as the counter does not wrap. */
  lemma SleepEffect<T, M>(s: Sched<T, M>, n: nat)
    requires Inv(s) && Enabled(s, DoSleep(n)) && n < U64_LIMIT && s.ticks < U64_LIMIT
    ensures
      var t, u := s.current.task, Apply(s, DoSleep(n));
      && u.sleep == s.sleep + [t] && u.blocked == s.blocked && u.mutexes == s.mutexes && u.ticks == s.ticks
      && u.current != On(t) && t in u.tasks && u.tasks[t].state == Sleeping
      && u.tasks[t].wake == (if s.ticks + n < U64_LIMIT then s.ticks + n else s.ticks + n - U64_LIMIT)
      && (u.tasks[t].wake == s.ticks + n <==> s.ticks + n < U64_LIMIT)
      && Dispatched(s.ready, s.tasks[t := Me(s).(state := Sleeping, out := Voluntary, wake := u.tasks[t].wake)], u)
  {
    hide Inv;
    ReadyKnown(s);
  }

  /** scheduler_block_current moves the caller to the end of the blocked queue. */
  lemma BlockEffect<T, M>(s: Sched<T, M>)
    requires Inv(s) && Enabled(s, DoBlock)
    ensures
      var t, u := s.current.task, Apply(s, DoBlock);
      && u.blocked == s.blocked + [t] && u.sleep == s.sleep && u.mutexes == s.mutexes && u.ticks == s.ticks
      && u.current != On(t) && t in u.tasks && u.tasks[t].state == Blocked
      && Dispatched(s.ready, s.tasks[t := Me(s).(state := Blocked, out := Voluntary)], u)
  {
    hide Inv;
    ReadyKnown(s);
  }

  /** task_exit leaves the caller terminated and in no queue. */
  lemma ExitEffect<T, M>(s: Sched<T, M>)
    requires Inv(s) && Enabled(s, DoExit)
    ensures
      var t, u := s.current.task, Apply(s, DoExit);
      && SameRest(s, u) && u.current != On(t) && t in u.tasks && u.tasks[t].state == Terminated
      && t !in u.ready && t !in u.sleep && t !in u.blocked
      && Dispatched(s.ready, s.tasks[t := Me(s).(state := Terminated, out := Voluntary)], u)
  {
    hide Inv;
    ReadyKnown(s);
  }

  /** scheduler_unblock takes a blocked task out of its queue and appends it to the ready one, to be resumed
      by its context; any other task is left alone, and the caller goes on. */
  lemma UnblockEffect<T, M>(s: Sched<T, M>, t: T)
    requires Inv(s) && Enabled(s, DoUnblock(t))
    ensures
      var u := Apply(s, DoUnblock(t));
      if s.tasks[t].state != Blocked then u == s
      else
        && t in s.blocked && u.ready == s.ready + [t] && (forall x :: x in u.blocked <==> x in s.blocked && x != t)
        && u.tasks == s.tasks[t := s.tasks[t].(state := Ready, mode := Context, frame := 0)]
        && u.current == s.current && u.slice == s.slice && u.sleep == s.sleep && u.mutexes == s.mutexes
        && u.ticks == s.ticks
  {
    RemoveMembers(s.blocked, t);
  }

  /** A new task is appended to the ready queue, to be started by its context. */
  lemma AddEffect<T, M>(s: Sched<T, M>, t: T)
    requires Enabled(s, DoAdd(t))
    ensures
      var u := Apply(s, DoAdd(t));
      && SameRest(s, u) && u.current == s.current && u.slice == s.slice && u.ready == s.ready + [t]
      && u.tasks == s.tasks[t := Task(Ready, Context, 0, 0, None, Never)]
  {
  }

  /** An interrupt that is not the timer's only notes where the running task was stopped. */
  lemma IrqEffect<T, M>(s: Sched<T, M>, frame: nat)
    ensures
      var u := Apply(s, DoIrq(frame));
      if OnTask(s) then u == s.(tasks := s.tasks[s.current.task := Me(s).(mode := Interrupt, frame := frame)])
      else u == s
  {
  }

  /** mutex_lock: the owner goes on; on a free mutex the caller becomes the owner and goes on; otherwise it
      joins the end of the line, blocked, and the next task runs. No other mutex changes. */
  lemma LockEffect<T, M>(s: Sched<T, M>, m: M)
    requires Inv(s) && Enabled(s, DoLock(m))
    ensures
      var t, x, u := s.current.task, s.mutexes[m], Apply(s, DoLock(m));
      && u.mutexes.Keys == s.mutexes.Keys && (forall n :: n in s.mutexes && n != m ==> u.mutexes[n] == s.mutexes[n])
      && u.sleep == s.sleep && u.blocked == s.blocked && u.ticks == s.ticks
      && if x.owner == Some(t) then u == s
         else if !x.locked then
           u.mutexes[m] == x.(locked := true, owner := Some(t)) && u == s.(mutexes := u.mutexes)
         else
           && u.mutexes[m] == x.(wait := x.wait + [t], arrivals := x.arrivals + [t])
           && Dispatched(s.ready, s.tasks[t := Me(s).(state := Blocked, out := Voluntary, waiting := Some(m))], u)
  {
    hide Inv;
    ReadyKnown(s);
  }

  /** mutex_unlock. Only the owner's call does anything. With nobody waiting the mutex is free; otherwise the
      first of the line owns it and is ready at the end of the queue. No other mutex changes. */
  lemma UnlockEffect<T, M>(s: Sched<T, M>, m: M)
    requires Inv(s) && Enabled(s, DoUnlock(m))
    ensures
      var t, x, u := s.current.task, s.mutexes[m], Apply(s, DoUnlock(m));
      && u.mutexes.Keys == s.mutexes.Keys && (forall n :: n in s.mutexes && n != m ==> u.mutexes[n] == s.mutexes[n])
      && u.current == s.current && u.slice == s.slice && u.ticks == s.ticks
      && u.sleep == s.sleep && u.blocked == s.blocked
      && if x.owner != Some(t) then u == s
         else if x.wait == [] then
           && !u.mutexes[m].locked && u.mutexes[m].owner == None && u.mutexes[m].wait == []
           && u.tasks == s.tasks && u.ready == s.ready
         else
           var next := x.wait[0];
           && u.mutexes[m].locked && u.mutexes[m].owner == Some(next) && u.mutexes[m].wait == x.wait[1..]
           && u.ready == s.ready + [next] && next in s.tasks
           && u.tasks == s.tasks[next := s.tasks[next].(state := Ready, mode := Context, frame := 0)]
  {
    var t, x := s.current.task, s.mutexes[m];
    assert Consistent(s, m);
    if x.owner == Some(t) && x.wait != [] {
      assert x.wait[0] in x.wait;
      RemoveAbsent(s.blocked, x.wait[0]);
    }
  }

  /** The ready queue that a tick finds: the due sleepers have joined it. */
  ghost function ReadyAtTick<T, M>(s: Sched<T, M>): seq<T> {
    s.ready + Due(s.sleep, s.tasks, (s.ticks + 1) % U64_LIMIT, true)
  }

  /** What a tick that finds the ready queue `q` does to the running task. */
  ghost predicate Ticked<T, M>(s: Sched<T, M>, q: seq<T>, frame: nat, u: Sched<T, M>)
    requires OnTask(s)
  {
    var t := s.current.task;
    && u.mutexes == s.mutexes && u.blocked == s.blocked
    && t in u.tasks && u.tasks[t].mode == Interrupt && u.tasks[t].frame == frame
    && (u.current != s.current <==> s.slice + 1 >= 10 && q != [])
    && if s.slice + 1 >= 10 && q != []
       then u.current == On(q[0]) && u.ready == q[1..] + [t] && u.slice == 0 && u.tasks[t].state == Ready
       else u.ready == q && u.slice == (if s.slice + 1 >= 10 then 0 else s.slice + 1) && u.tasks[t].state == Running
  }

  /** A timer tick takes the processor from the running task exactly when it is the tenth of the slice and
      some task is ready; the task then goes to the end of the queue, its head runs with a new slice, and the
      interrupt's frame is what resumes the task. Otherwise it keeps the processor. */
  lemma TickEffect<T, M>(s: Sched<T, M>, frame: nat)
    requires Inv(s) && OnTask(s) && frame != 0
    ensures var u := Apply(s, DoTick(frame));
            Ticked(s, ReadyAtTick(s), frame, u) && u.ticks == (s.ticks + 1) % U64_LIMIT
  {
    hide Inv, Serve, Ticked;
    ReadyKnown(s);
    var swept := Sweep(s.(ticks := (s.ticks + 1) % U64_LIMIT));
    SweptReady(s);
    assert Apply(s, DoTick(frame)) == Serve(swept, frame);
    ServeEffect(swept, frame);
    TickedAlike(s, swept, frame, Serve(swept, frame));
  }

  /** With no task on the processor a tick only wakes sleepers, and the idle loop's yield runs the head of the
      ready queue if there is one. */
  lemma IdleEffect<T, M>(s: Sched<T, M>, frame: nat)
    requires Inv(s) && !s.current.On?
    ensures var u := Apply(s, DoTick(frame));
            && u.current == s.current && u.ready == ReadyAtTick(s) && u.ticks == (s.ticks + 1) % U64_LIMIT
            && u.mutexes == s.mutexes && u.blocked == s.blocked && u.slice == s.slice
    ensures SameRest(s, Apply(s, DoYield)) && Dispatched(s.ready, s.tasks, Apply(s, DoYield))
  {
    hide Inv, Due;
    ReadyKnown(s);
  }

  lemma TickedAlike<T, M>(s: Sched<T, M>, swept: Sched<T, M>, frame: nat, u: Sched<T, M>)
    requires OnTask(s) && OnTask(swept) && Ticked(swept, swept.ready, frame, u)
    requires swept.current == s.current && swept.slice == s.slice
    requires swept.mutexes == s.mutexes && swept.blocked == s.blocked
    ensures Ticked(s, swept.ready, frame, u)
  {
  }

  lemma SweptReady<T, M>(s: Sched<T, M>)
    requires Inv(s) && OnTask(s)
    ensures var swept := Sweep(s.(ticks := (s.ticks + 1) % U64_LIMIT));
            && OnTask(swept) && Me(swept).state == Running && s.current.task !in swept.ready
            && swept.ready == ReadyAtTick(s) && forall x :: x in swept.ready ==> x in swept.tasks
  {
    hide Inv;
    ReadyKnown(s);
    var now := (s.ticks + 1) % U64_LIMIT;
    var swept := Sweep(s.(ticks := now));
    DueMembers(s.sleep, s.tasks, now, true);
    var due := Due(s.sleep, s.tasks, now, true);
    assert swept.ready == s.ready + due;
    forall x | x in swept.ready ensures x in swept.tasks {
      if x !in s.ready {
        assert x in due;
        DueMember(s.sleep, s.tasks, now, true, x);
      }
    }
  }

  lemma ServeEffect<T, M>(s: Sched<T, M>, frame: nat)
    requires OnTask(s) && Me(s).state == Running && s.current.task !in s.ready && s.slice < 10
    requires forall x :: x in s.ready ==> x in s.tasks
    ensures Ticked(s, s.ready, frame, Serve(s, frame)) && Serve(s, frame).ticks == s.ticks
  {
    var t, q := s.current.task, s.ready;
    if s.slice + 1 >= 10 && q != [] {
      hide Dispatch;
      var saved := Save(s.(slice := 0), frame);
      var requeued := Update(saved, t, Me(saved).(state := Ready, out := Preempted(frame))).(ready := q + [t]);
      assert Serve(s, frame) == Dispatch(requeued);
      DispatchEffect(requeued);
      assert (q + [t])[1..] == q[1..] + [t] && (q + [t])[0] == q[0] && q[0] in q;
    }
  }

  lemma DispatchEffect<T, M>(s: Sched<T, M>)
    requires s.ready != [] && s.ready[0] in s.tasks
    ensures SameRest(s, Dispatch(s)) && Dispatched(s.ready, s.tasks, Dispatch(s))
  {
  }

  // ----- runs -----

  lemma Suffix<T, M>(states: seq<Sched<T, M>>, ops: seq<Op<T, M>>, i: nat)
    requires Run(states, ops) && i <= |ops|
    ensures Run(states[i..], ops[i..])
  {
    hide Inv, Enabled, Apply;
    RunInv(states, ops, i);
    forall j | 0 <= j < |ops[i..]|
      ensures Enabled(states[i..][j], ops[i..][j]) && states[i..][j + 1] == Apply(states[i..][j], ops[i..][j])
    {
      assert states[i..][j + 1] == states[i + j + 1] && ops[i..][j] == ops[i + j];
    }
  }

  lemma {:induction false} TicksSnoc<T, M>(ops: seq<Op<T, M>>, op: Op<T, M>)
    ensures Ticks(ops + [op]) == Ticks(ops) + if op.DoTick? then 1 else 0
  {
    if ops == [] {
      assert ops + [op] == [op];
    } else {
      assert (ops + [op])[1..] == ops[1..] + [op];
      TicksSnoc(ops[1..], op);
    }
  }

  lemma TicksNext<T, M>(ops: seq<Op<T, M>>, i: nat, j: nat)
    requires i <= j < |ops|
    ensures Ticks(ops[i..j + 1]) == Ticks(ops[i..j]) + if ops[j].DoTick? then 1 else 0
  {
    assert ops[i..j + 1] == ops[i..j] + [ops[j]];
    TicksSnoc(ops[i..j], ops[j]);
  }

  lemma {:induction false} TicksGrow<T, M>(ops: seq<Op<T, M>>, i: nat, j: nat, k: nat)
    requires i <= j <= k <= |ops|
    ensures Ticks(ops[i..j]) <= Ticks(ops[i..k])
  {
    if j < k {
      TicksGrow(ops, i, j, k - 1);
      TicksNext(ops, i, k - 1);
    }
  }

  // ----- the clock and sleeping -----

  lemma ClockStep<T, M>(s: Sched<T, M>, op: Op<T, M>)
    ensures Apply(s, op).ticks == if op.DoTick? then (s.ticks + 1) % U64_LIMIT else s.ticks
  {
    hide Due;
  }

  /** The clock counts the ticks of the run, modulo 2^64. */
  lemma {:induction false} ClockCounts<T, M>(states: seq<Sched<T, M>>, ops: seq<Op<T, M>>, i: nat, j: nat)
    requires Run(states, ops) && i <= j <= |ops| && states[i].ticks < U64_LIMIT
    ensures states[j].ticks == (states[i].ticks + Ticks(ops[i..j])) % U64_LIMIT
  {
    hide Inv, Apply, Enabled;
    if i < j {
      ClockCounts(states, ops, i, j - 1);
      ClockStep(states[j - 1], ops[j - 1]);
      TicksNext(ops, i, j - 1);
    }
  }

  /** For how many ticks sleep(n) lasts when it is called at tick `now`. */
  function SleptTicks(now: nat, n: nat): nat {
    if n == 0 then (if now + 1 < U64_LIMIT then 1 else U64_LIMIT)
    else if now + n < U64_LIMIT || now + 1 == U64_LIMIT then n else 1
  }

  /** That is as long as asked, and at least one tick, in exactly these cases. */
  lemma SleptAsAsked(now: nat, n: nat)
    requires now < U64_LIMIT && n < U64_LIMIT
    ensures SleptTicks(now, n) == (if n == 0 then 1 else n) <==>
            if n == 0 then now + 1 < U64_LIMIT else n == 1 || now + n < U64_LIMIT || now + 1 == U64_LIMIT
  {
  }

  /** The first tick at which the counter, wrapping, reaches the wake-up time, which may have wrapped. */
  lemma FirstDue(now: nat, n: nat, k: nat)
    requires now < U64_LIMIT && n < U64_LIMIT && 1 <= k <= SleptTicks(now, n)
    ensures (now + k) % U64_LIMIT >= (now + n) % U64_LIMIT <==> k == SleptTicks(now, n)
  {
    if now + k < U64_LIMIT {
      assert (now + k) % U64_LIMIT == now + k;
    } else {
      assert (now + k) % U64_LIMIT == now + k - U64_LIMIT;
    }
  }

  /** Step `i` is a call sleep(n) of `t`. */
  ghost predicate FallsAsleep<T, M>(states: seq<Sched<T, M>>, ops: seq<Op<T, M>>, i: nat, t: T, n: nat) {
    && Run(states, ops) && i < |ops| && ops[i] == DoSleep(n) && states[i].current == On(t)
    && n < U64_LIMIT && states[i].ticks < U64_LIMIT
  }

  lemma Asleep<T, M>(states: seq<Sched<T, M>>, ops: seq<Op<T, M>>, i: nat, t: T, n: nat)
    requires FallsAsleep(states, ops, i, t, n)
    ensures var u := states[i + 1];
            && t in u.sleep && t in u.tasks && u.ticks == states[i].ticks
            && u.tasks[t].wake == (states[i].ticks + n) % U64_LIMIT
  {
    hide Inv, Apply, Enabled;
    RunInv(states, ops, i);
    EnabledSleep(states[i], n);
    SleepEffect(states[i], n);
  }

  lemma EnabledSleep<T, M>(s: Sched<T, M>, n: nat)
    requires Enabled(s, DoSleep(n))
    ensures OnTask(s)
  {
  }

  /** A tick is due for that sleeper exactly when it is the last that the sleep lasts. */
  lemma DueWhen<T, M>(states: seq<Sched<T, M>>, ops: seq<Op<T, M>>, i: nat, j: nat, t: T, n: nat)
    requires FallsAsleep(states, ops, i, t, n) && i < j < |ops|
    requires Ticks(ops[i + 1..j]) < SleptTicks(states[i].ticks, n)
    ensures Wakes(states[j + 1], ops[j], (states[i].ticks + n) % U64_LIMIT) <==>
            ops[j].DoTick? && Ticks(ops[i + 1..j]) + 1 == SleptTicks(states[i].ticks, n)
  {
    hide Inv, Apply, Enabled;
    Asleep(states, ops, i, t, n);
    if ops[j].DoTick? {
      ClockCounts(states, ops, i + 1, j + 1);
      TicksNext(ops, i + 1, j);
      FirstDue(states[i].ticks, n, Ticks(ops[i + 1..j + 1]));
    }
  }

  /** Never earlier: a task that calls sleep(n) stays in the sleep queue while fewer ticks have come. */
  lemma SleepsLongEnough<T, M>(states: seq<Sched<T, M>>, ops: seq<Op<T, M>>, i: nat, j: nat, t: T, n: nat)
    requires FallsAsleep(states, ops, i, t, n) && i < j <= |ops|
    requires Ticks(ops[i + 1..j]) < SleptTicks(states[i].ticks, n)
    ensures t in states[j].sleep && t in states[j].tasks && states[j].tasks[t].state == Sleeping
  {
    hide Inv, Apply, Enabled, Wakes;
    var later, rest, wake := states[i + 1..], ops[i + 1..], (states[i].ticks + n) % U64_LIMIT;
    Suffix(states, ops, i + 1);
    Asleep(states, ops, i, t, n);
    forall q | 0 <= q < j - i - 1 ensures !Wakes(later[q + 1], rest[q], wake) {
      TicksGrow(ops, i + 1, i + 1 + q, j);
      TicksGrow(ops, i + 1, i + 2 + q, j);
      TicksNext(ops, i + 1, i + 1 + q);
      DueWhen(states, ops, i, i + 1 + q, t, n);
      assert later[q + 1] == states[i + 2 + q] && rest[q] == ops[i + 1 + q];
    }
    SleepsUntilDue(later, rest, j - i - 1, t);
    RunInv(states, ops, j);
    SleeperFacts(states[j], t);
  }

  /** Never later: right after the last of those ticks it is ready or running. */
  lemma WakesInTime<T, M>(states: seq<Sched<T, M>>, ops: seq<Op<T, M>>, i: nat, j: nat, t: T, n: nat)
    requires FallsAsleep(states, ops, i, t, n) && i < j < |ops| && ops[j].DoTick?
    requires Ticks(ops[i + 1..j]) + 1 == SleptTicks(states[i].ticks, n)
    ensures t !in states[j + 1].sleep && t in states[j + 1].tasks
    ensures states[j + 1].tasks[t].state == Ready || states[j + 1].tasks[t].state == Running
  {
    hide Inv, Apply, Enabled, Wakes;
    var later, rest := states[i + 1..], ops[i + 1..];
    Suffix(states, ops, i + 1);
    Asleep(states, ops, i, t, n);
    forall q | 0 <= q < j - i - 1 ensures !Wakes(later[q + 1], rest[q], (states[i].ticks + n) % U64_LIMIT) {
      TicksGrow(ops, i + 1, i + 1 + q, j);
      TicksGrow(ops, i + 1, i + 2 + q, j);
      TicksNext(ops, i + 1, i + 1 + q);
      DueWhen(states, ops, i, i + 1 + q, t, n);
      assert later[q + 1] == states[i + 2 + q] && rest[q] == ops[i + 1 + q];
    }
    DueWhen(states, ops, i, j, t, n);
    assert later[j - i] == states[j + 1] && rest[j - i - 1] == ops[j];
    WokenWhenDue(later, rest, j - i - 1, t);
  }

  // ----- a full slice -----

  /** A task that comes on the processor starts a slice, and only ticks use it up. */
  lemma SliceStep<T, M>(s: Sched<T, M>, op: Op<T, M>)
    requires Inv(s) && Enabled(s, op)
    ensures var u := Apply(s, op);
            && (u.current != s.current ==> u.slice == 0)
            && u.slice <= s.slice + if op.DoTick? then 1 else 0
  {
    hide Inv, Due;
  }

  /** Nobody is preempted early: between coming on the processor and losing it to a tick lie ten ticks. */
  lemma FullSlice<T, M>(states: seq<Sched<T, M>>, ops: seq<Op<T, M>>, i: nat, j: nat, t: T)
    requires Run(states, ops) && 0 < i <= j < |ops|
    requires states[i - 1].current != On(t) && forall k :: i <= k <= j ==> states[k].current == On(t)
    requires ops[j].DoTick? && states[j + 1].current != On(t)
    ensures Ticks(ops[i..j + 1]) >= 10 && ReadyAtTick(states[j]) != []
  {
    hide Inv, Apply, Enabled, Ticked, ReadyAtTick;
    RunInv(states, ops, i - 1);
    SliceStep(states[i - 1], ops[i - 1]);
    SliceUsed(states, ops, i, j);
    RunInv(states, ops, j);
    ReadyKnown(states[j]);
    TickFrame(states[j], ops[j].frame);
    TickEffect(states[j], ops[j].frame);
    TicksNext(ops, i, j);
    LosesWhen(states[j], ops[j].frame, states[j + 1]);
  }

  lemma TickFrame<T, M>(s: Sched<T, M>, frame: nat)
    requires Enabled(s, DoTick(frame))
    ensures frame != 0
  {
  }

  lemma LosesWhen<T, M>(s: Sched<T, M>, frame: nat, u: Sched<T, M>)
    requires OnTask(s) && Ticked(s, ReadyAtTick(s), frame, u) && u.current != s.current
    ensures s.slice + 1 >= 10 && ReadyAtTick(s) != []
  {
  }

  lemma {:induction false} SliceUsed<T, M>(states: seq<Sched<T, M>>, ops: seq<Op<T, M>>, i: nat, j: nat)
    requires Run(states, ops) && i <= j <= |ops| && states[i].slice == 0
    ensures states[j].slice <= Ticks(ops[i..j])
  {
    hide Inv, Apply, Enabled;
    if i < j {
      SliceUsed(states, ops, i, j - 1);
      RunInv(states, ops, j - 1);
      SliceStep(states[j - 1], ops[j - 1]);
      TicksNext(ops, i, j - 1);
    }
  }

  // ----- mutexes over runs -----

  /** The mutex is free and nobody waits for it. */
  ghost predicate Open<T, M>(s: Sched<T, M>, m: M) {
    m in s.mutexes && !s.mutexes[m].locked && s.mutexes[m].owner == None && s.mutexes[m].wait == []
  }

  /** Only mutex_lock on it takes a free mutex. */
  lemma OpenStays<T, M>(s: Sched<T, M>, op: Op<T, M>, m: M)
    requires Inv(s) && Enabled(s, op) && Open(s, m) && op != DoLock(m)
    ensures Open(Apply(s, op), m)
  {
    hide Inv, Tick, Yield;
    if op == DoRetry {
      RetryOwns(s);
    }
  }

  lemma {:induction false} StaysOpen<T, M>(states: seq<Sched<T, M>>, ops: seq<Op<T, M>>, i: nat, j: nat, m: M)
    requires Run(states, ops) && i <= j <= |ops| && Open(states[i], m)
    requires forall k :: i <= k < j ==> ops[k] != DoLock(m)
    ensures Open(states[j], m)
  {
    hide Inv, Apply, Enabled, Open;
    if i < j {
      StaysOpen(states, ops, i, j - 1, m);
      RunInv(states, ops, j - 1);
      OpenStays(states[j - 1], ops[j - 1], m);
    }
  }

  /** The step is an unlock by the owner. */
  ghost predicate Serves<T, M>(s: Sched<T, M>, op: Op<T, M>, m: M) {
    op == DoUnlock(m) && s.current.On? && Owns(s, m, s.current.task)
  }

  /** After the owner's unlock with nobody waiting, the next mutex_lock returns at once to its caller, as owner. */
  lemma NextLockTakes<T, M>(states: seq<Sched<T, M>>, ops: seq<Op<T, M>>, i: nat, j: nat, m: M)
    requires Run(states, ops) && i < j < |ops| && Serves(states[i], ops[i], m) && states[i].mutexes[m].wait == []
    requires ops[j] == DoLock(m) && forall k :: i < k < j ==> ops[k] != DoLock(m)
    ensures var t, u := states[j].current, states[j + 1];
            t.On? && u.current == t && Owns(u, m, t.task) && t.task in u.tasks && u.tasks[t.task].waiting == None
  {
    hide Inv, Apply, Enabled;
    RunInv(states, ops, i);
    UnlockEnabled(states[i], m);
    UnlockEffect(states[i], m);
    StaysOpen(states, ops, i + 1, j, m);
    RunInv(states, ops, j);
    LockEnabled(states[j], m);
    LockEffect(states[j], m);
  }

  lemma UnlockEnabled<T, M>(s: Sched<T, M>, m: M)
    requires Enabled(s, DoUnlock(m))
    ensures OnTask(s) && m in s.mutexes
  {
  }

  lemma LockEnabled<T, M>(s: Sched<T, M>, m: M)
    requires Enabled(s, DoLock(m))
    ensures OnTask(s) && m in s.mutexes && Me(s).waiting == None
  {
  }

  /** How the line of a mutex moves: the owner's unlock takes its head off and hands it the mutex; every
      other step keeps the line or appends to it. */
  lemma LineStep<T, M>(s: Sched<T, M>, op: Op<T, M>, m: M)
    requires Inv(s) && Enabled(s, op) && m in s.mutexes && s.mutexes[m].wait != []
    ensures var x, u := s.mutexes[m], Apply(s, op);
            && m in u.mutexes
            && if Serves(s, op, m) then u.mutexes[m].wait == x.wait[1..] && u.mutexes[m].owner == Some(x.wait[0])
               else x.wait <= u.mutexes[m].wait
  {
    hide Inv, Tick, Yield;
  }

  /** The unlocks of the mutex by its owners among the first `n` steps. */
  ghost function Served<T, M>(states: seq<Sched<T, M>>, ops: seq<Op<T, M>>, n: nat, m: M): nat
    requires n <= |ops| && n < |states|
  {
    if n == 0 then 0
    else Served(states, ops, n - 1, m) + if Serves(states[n - 1], ops[n - 1], m) then 1 else 0
  }

  /** The line is served in order and nobody is passed over: the task at position `k` moves up by one with
      every unlock by an owner, and the unlock number k + 1 hands it the mutex. */
  lemma {:induction false} WaiterServed<T, M>(states: seq<Sched<T, M>>, ops: seq<Op<T, M>>, n: nat, m: M, k: nat)
    requires Run(states, ops) && n <= |ops| && m in states[0].mutexes && k < |states[0].mutexes[m].wait|
    requires Served(states, ops, n, m) <= k + 1
    ensures var t, c := states[0].mutexes[m].wait[k], Served(states, ops, n, m);
            && m in states[n].mutexes
            && (c <= k ==> k - c < |states[n].mutexes[m].wait| && states[n].mutexes[m].wait[k - c] == t)
            && (c == k + 1 && Serves(states[n - 1], ops[n - 1], m) ==> Owns(states[n], m, t))
  {
    hide Inv, Apply, Enabled, Serves;
    if n > 0 {
      WaiterServed(states, ops, n - 1, m, k);
      RunInv(states, ops, n - 1);
      if Served(states, ops, n - 1, m) <= k {
        LineStep(states[n - 1], ops[n - 1], m);
      } else {
        MutexStays(states[n - 1], ops[n - 1], m);
      }
    }
  }

  lemma MutexStays<T, M>(s: Sched<T, M>, op: Op<T, M>, m: M)
    requires m in s.mutexes
    ensures m in Apply(s, op).mutexes
  {
    HistoryStep(s, op, m);
  }
}
