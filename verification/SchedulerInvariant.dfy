/** The invariant of the scheduler: the queues partition the tasks, the mutexes are consistent, and every
    ready task can be resumed the way it was suspended. Every step keeps it. */
module SchedulerInvariant {
  import opened Machine
  import opened Options
  import opened SchedulerModel

  /** The queues hold each task once, in the queue that its state names, and nowhere else. */
  ghost predicate Queued<T, M>(s: Sched<T, M>) {
    && Distinct(s.ready) && Distinct(s.blocked) && Distinct(s.sleep)
    && (forall t :: t in s.ready ==> t in s.tasks && s.tasks[t].state == Ready)
    && (forall t :: t in s.blocked ==> t in s.tasks && s.tasks[t].state == Blocked && s.tasks[t].waiting == None)
    && (forall t :: t in s.sleep ==> t in s.tasks && s.tasks[t].state == Sleeping)
    && (forall t :: t in s.tasks && s.tasks[t].state == Ready ==> t in s.ready)
    && (forall t :: t in s.tasks && s.tasks[t].state == Blocked && s.tasks[t].waiting == None ==> t in s.blocked)
    && (forall t :: t in s.tasks && s.tasks[t].state == Sleeping ==> t in s.sleep && s.tasks[t].waiting == None)
  }

  /** One mutex: locked exactly when owned, waiters only behind an owner, hand-offs in arrival order. */
  ghost predicate Consistent<T, M>(s: Sched<T, M>, m: M)
    requires m in s.mutexes
  {
    var x := s.mutexes[m];
    && (x.locked <==> x.owner.Some?) && (x.wait != [] ==> x.locked)
    && Distinct(x.wait) && x.arrivals == x.grants + x.wait
    && (forall t :: t in x.wait ==> t in s.tasks && s.tasks[t].state == Blocked && s.tasks[t].waiting == Some(m))
    && (x.owner.Some? ==> x.owner.value in s.tasks && x.owner.value !in x.wait)
  }

  /** A task inside mutex_lock is queued on that mutex, or has been handed it. */
  ghost predicate Placed<T, M>(s: Sched<T, M>, t: T)
    requires t in s.tasks
  {
    s.tasks[t].waiting.Some? ==>
      var m := s.tasks[t].waiting.value;
      && m in s.mutexes
      && (if s.tasks[t].state == Blocked then t in s.mutexes[m].wait
          else s.mutexes[m].owner == Some(t) && (s.tasks[t].state == Ready || s.tasks[t].state == Running))
  }

  ghost predicate MutexesOk<T, M>(s: Sched<T, M>) {
    && (forall m :: m in s.mutexes ==> Consistent(s, m))
    && (forall t :: t in s.tasks ==> Placed(s, t))
  }

  /** A ready task resumes by its context exactly when it left of its own accord or never ran, and by the
      frame of its interrupt exactly when it was preempted. */
  ghost predicate Resumable<M>(task: Task<M>) {
    && (task.state == Blocked || task.state == Sleeping ==> task.out == Voluntary)
    && (task.state == Ready ==>
          match task.out
          case Preempted(frame) => task.mode == Interrupt && task.frame == frame != 0
          case _ => task.mode == Context && task.frame == 0)
  }

  ghost predicate Core<T, M>(s: Sched<T, M>) {
    && Queued(s) && MutexesOk(s) && s.slice < TIME_SLICE
    && (forall t :: t in s.tasks ==> Resumable(s.tasks[t]))
  }

  ghost predicate NoneRunning<T, M>(s: Sched<T, M>) {
    forall t :: t in s.tasks ==> s.tasks[t].state != Running
  }

  /** The invariant between steps: the running task is the current one, and only it. */
  ghost predicate Inv<T, M>(s: Sched<T, M>) {
    && Core(s)
    && (s.current.On? ==> s.current.task in s.tasks && s.tasks[s.current.task].state == Running)
    && (forall t :: t in s.tasks && s.tasks[t].state == Running ==> s.current == On(t))
  }

  /** The state that scheduler_init leaves. */
  ghost function Initial<T, M>(mutexes: set<M>): Sched<T, M> {
    Sched([], [], [], Boot, map[], map m | m in mutexes :: Mutex(false, None, [], [], []), 0, 0)
  }

  lemma InitialInv<T, M>(mutexes: set<M>)
    ensures Inv(Initial<T, M>(mutexes))
  {
  }

  lemma TailDistinct<T>(q: seq<T>)
    requires Distinct(q) && q != []
    ensures Distinct(q[1..]) && q[0] !in q[1..] && (forall x :: x in q <==> x == q[0] || x in q[1..])
  {
    assert q == [q[0]] + q[1..];
  }

  lemma SnocDistinct<T>(q: seq<T>, t: T)
    requires Distinct(q) && t !in q
    ensures Distinct(q + [t])
  {
  }

  /** The queues are right for every task but `t`, which is in none of them. */
  ghost predicate QueuedBut<T, M>(s: Sched<T, M>, t: T) {
    && Distinct(s.ready) && Distinct(s.blocked) && Distinct(s.sleep)
    && t !in s.ready && t !in s.blocked && t !in s.sleep
    && (forall x :: x in s.ready ==> x in s.tasks && s.tasks[x].state == Ready)
    && (forall x :: x in s.blocked ==> x in s.tasks && s.tasks[x].state == Blocked && s.tasks[x].waiting == None)
    && (forall x :: x in s.sleep ==> x in s.tasks && s.tasks[x].state == Sleeping)
    && (forall x :: x in s.tasks && x != t && s.tasks[x].state == Ready ==> x in s.ready)
    && (forall x :: x in s.tasks && x != t && s.tasks[x].state == Blocked && s.tasks[x].waiting == None ==>
        x in s.blocked)
    && (forall x :: x in s.tasks && x != t && s.tasks[x].state == Sleeping ==>
        x in s.sleep && s.tasks[x].waiting == None)
  }

  lemma Detach<T, M>(s: Sched<T, M>, t: T)
    requires Queued(s)
    requires t in s.tasks ==> s.tasks[t].state == Running || (s.tasks[t].state == Blocked && s.tasks[t].waiting.Some?)
    ensures QueuedBut(s, t)
  {
  }

  lemma DetachHead<T, M>(s: Sched<T, M>)
    requires Queued(s) && s.ready != []
    ensures QueuedBut(s.(ready := s.ready[1..]), s.ready[0])
  {
    TailDistinct(s.ready);
  }

  lemma DetachBlocked<T, M>(s: Sched<T, M>, t: T)
    requires Queued(s) && t in s.tasks && s.tasks[t].state == Blocked
    ensures QueuedBut(s.(blocked := Remove(s.blocked, t)), t)
  {
    RemoveMembers(s.blocked, t);
    var u := s.(blocked := Remove(s.blocked, t));
    forall x | x in u.blocked ensures x in u.tasks && u.tasks[x].state == Blocked && u.tasks[x].waiting == None {
      RemoveMember(s.blocked, t, x);
    }
    forall x | x in s.blocked && x != t ensures x in u.blocked {
      RemoveMember(s.blocked, t, x);
    }
  }

  /** Giving `t` its new record and its place. */
  lemma Attach<T, M>(s: Sched<T, M>, t: T, task: Task<M>)
    requires QueuedBut(s, t)
    ensures task.state == Ready ==> Queued(Update(s, t, task).(ready := s.ready + [t]))
    ensures task.state == Blocked && task.waiting == None ==> Queued(Update(s, t, task).(blocked := s.blocked + [t]))
    ensures task.state == Sleeping && task.waiting == None ==> Queued(Update(s, t, task).(sleep := s.sleep + [t]))
    ensures task.state == Running || task.state == Terminated || (task.state == Blocked && task.waiting.Some?) ==>
              Queued(Update(s, t, task))
  {
    SnocDistinct(s.ready, t);
    SnocDistinct(s.blocked, t);
    SnocDistinct(s.sleep, t);
  }

  /** Changing one task that waits on no mutex queue leaves the mutexes consistent. */
  lemma MutexesKept<T, M>(s: Sched<T, M>, u: Sched<T, M>, t: T)
    requires MutexesOk(s) && u.mutexes == s.mutexes && t in u.tasks && u.tasks == s.tasks[t := u.tasks[t]]
    requires t in s.tasks ==> s.tasks[t].state != Blocked || s.tasks[t].waiting == None
    requires Placed(u, t)
    ensures MutexesOk(u)
  {
    forall m | m in u.mutexes ensures Consistent(u, m) {
      assert Consistent(s, m);
    }
    forall x | x in u.tasks ensures Placed(u, x) {
      assert x != t ==> Placed(s, x);
    }
  }

  lemma DispatchQueued<T, M>(s: Sched<T, M>)
    requires Queued(s)
    ensures Queued(Dispatch(s))
  {
    if s.ready != [] {
      assert s.ready[0] in s.ready;
      DetachHead(s);
      Attach(s.(ready := s.ready[1..]), s.ready[0], s.tasks[s.ready[0]].(state := Running));
    }
  }

  lemma DispatchMutexes<T, M>(s: Sched<T, M>)
    requires Queued(s) && MutexesOk(s)
    ensures MutexesOk(Dispatch(s))
  {
    if s.ready == [] {
      MutexesSame(s, Dispatch(s));
    } else {
      assert s.ready[0] in s.ready;
      assert Placed(s, s.ready[0]);
      MutexesKept(s, Dispatch(s), s.ready[0]);
    }
  }

  lemma MutexesSame<T, M>(s: Sched<T, M>, u: Sched<T, M>)
    requires MutexesOk(s) && u.mutexes == s.mutexes && u.tasks == s.tasks
    ensures MutexesOk(u)
  {
    forall m | m in u.mutexes ensures Consistent(u, m) {
      assert Consistent(s, m);
    }
    forall t | t in u.tasks ensures Placed(u, t) {
      assert Placed(s, t);
    }
  }

  lemma HeadKnown<T, M>(s: Sched<T, M>)
    requires Queued(s) && s.ready != []
    ensures s.ready[0] in s.tasks && s.tasks[s.ready[0]].state == Ready
  {
    assert s.ready[0] in s.ready;
  }

  /** Handing the processor on restores the invariant. */
  lemma DispatchInv<T, M>(s: Sched<T, M>)
    requires Core(s) && NoneRunning(s)
    ensures Inv(Dispatch(s))
  {
    hide Queued, MutexesOk;
    DispatchQueued(s);
    DispatchMutexes(s);
    if s.ready != [] {
      HeadKnown(s);
    }
  }

  /** The running task leaves with a new record, to the queue that the record names. */
  lemma YieldInv<T, M>(s: Sched<T, M>)
    requires Inv(s)
    ensures Inv(Yield(s))
  {
    if OnTask(s) {
      var t := s.current.task;
      var task := Readied(Me(s)).(out := Voluntary);
      var u := Update(s, t, task).(ready := s.ready + [t]);
      Detach(s, t);
      Attach(s, t, task);
      assert Placed(s, t);
      MutexesKept(s, u, t);
      DispatchInv(u);
    } else {
      DispatchInv(s);
    }
  }

  /** A step that parks the running task with a record that is neither ready nor running, then yields. */
  lemma ParkInv<T, M>(s: Sched<T, M>, u: Sched<T, M>, task: Task<M>)
    requires Inv(s) && OnTask(s) && u.current == s.current && u.slice == s.slice
    requires u.tasks == s.tasks[s.current.task := task] && task.state != Ready && task.state != Running
    requires Queued(u) && MutexesOk(u) && Resumable(task)
    ensures Inv(Yield(u))
  {
    assert Core(u) && NoneRunning(u);
    DispatchInv(u);
  }

  lemma SleepInv<T, M>(s: Sched<T, M>, wake: nat)
    requires Inv(s) && OnTask(s) && Me(s).waiting == None
    ensures Inv(SleepUntil(s, wake))
  {
    var t := s.current.task;
    var task := Left(s, Sleeping).(wake := wake);
    var u := Update(s, t, task).(sleep := s.sleep + [t]);
    Detach(s, t);
    Attach(s, t, task);
    MutexesKept(s, u, t);
    ParkInv(s, u, task);
  }

  lemma BlockInv<T, M>(s: Sched<T, M>)
    requires Inv(s) && Enabled(s, DoBlock)
    ensures Inv(Block(s))
  {
    var t := s.current.task;
    var task := Me(s).(state := Blocked, out := Voluntary);
    var u := Update(s, t, task).(blocked := s.blocked + [t]);
    Detach(s, t);
    Attach(s, t, task);
    MutexesKept(s, u, t);
    ParkInv(s, u, task);
  }

  lemma ExitInv<T, M>(s: Sched<T, M>)
    requires Inv(s) && Enabled(s, DoExit)
    ensures Inv(Exit(s))
  {
    var t := s.current.task;
    var task := Me(s).(state := Terminated, out := Voluntary);
    var u := Update(s, t, task);
    Detach(s, t);
    Attach(s, t, task);
    MutexesKept(s, u, t);
    ParkInv(s, u, task);
  }

  lemma AddInv<T, M>(s: Sched<T, M>, t: T)
    requires Inv(s) && t !in s.tasks
    ensures Inv(Add(s, t))
  {
    var task := Task(Ready, Context, 0, 0, None, Never);
    Detach(s, t);
    Attach(s, t, task);
    MutexesKept(s, Add(s, t), t);
  }

  lemma SaveInv<T, M>(s: Sched<T, M>, frame: nat)
    requires Inv(s)
    ensures Inv(Save(s, frame))
  {
    if OnTask(s) {
      var t := s.current.task;
      Detach(s, t);
      Attach(s, t, Me(s).(frame := frame, mode := Interrupt));
      assert Placed(s, t);
      MutexesKept(s, Save(s, frame), t);
    }
  }

  lemma UnblockInv<T, M>(s: Sched<T, M>, t: T)
    requires Inv(s) && Enabled(s, DoUnblock(t))
    ensures Inv(Unblock(s, t))
  {
    if s.tasks[t].state != Blocked {
      return;
    }
    var u := Unblock(s, t);
    assert Queued(u) by {
      DetachBlocked(s, t);
      Attach(s.(blocked := Remove(s.blocked, t)), t, Readied(s.tasks[t]));
    }
    MutexesKept(s, u, t);
  }

  lemma PreemptInv<T, M>(s: Sched<T, M>, frame: nat)
    requires Inv(s) && OnTask(s) && s.ready != [] && frame != 0
    requires Me(s).frame == frame && Me(s).mode == Interrupt
    ensures Inv(Preempt(s, frame))
  {
    var t := s.current.task;
    var task := Me(s).(state := Ready, out := Preempted(frame));
    var u := Update(s, t, task).(ready := s.ready + [t]);
    Detach(s, t);
    Attach(s, t, task);
    assert Placed(s, t);
    MutexesKept(s, u, t);
    DispatchInv(u);
  }

  lemma SweepQueued<T, M>(s: Sched<T, M>)
    requires Queued(s)
    ensures Queued(Sweep(s))
  {
    var u := Sweep(s);
    var due := Due(s.sleep, s.tasks, s.ticks, true);
    DueMembers(s.sleep, s.tasks, s.ticks, true);
    DueMembers(s.sleep, s.tasks, s.ticks, false);
    forall t | t in due ensures t !in s.ready && t in u.tasks && u.tasks[t].state == Ready {
      DueMember(s.sleep, s.tasks, s.ticks, true, t);
    }
    ConcatDistinct(s.ready, due);
    forall t | t in u.sleep ensures t in u.tasks && u.tasks[t].state == Sleeping {
      DueMember(s.sleep, s.tasks, s.ticks, false, t);
    }
    forall t | t in u.tasks
      ensures u.tasks[t].state == Ready ==> t in u.ready
      ensures u.tasks[t].state == Sleeping ==> t in u.sleep && u.tasks[t].waiting == None
    {
      DueMember(s.sleep, s.tasks, s.ticks, true, t);
      DueMember(s.sleep, s.tasks, s.ticks, false, t);
    }
  }

  lemma ConcatDistinct<T>(p: seq<T>, q: seq<T>)
    requires Distinct(p) && Distinct(q) && forall x :: x in q ==> x !in p
    ensures Distinct(p + q)
  {
    var r := p + q;
    forall i, j | 0 <= i < j < |r| ensures r[i] != r[j] {
      if j >= |p| {
        assert r[j] in q;
      }
    }
  }

  lemma SweepInv<T, M>(s: Sched<T, M>)
    requires Inv(s)
    ensures Inv(Sweep(s))
  {
    var u := Sweep(s);
    SweepQueued(s);
    assert MutexesOk(u) by {
      forall m | m in u.mutexes ensures Consistent(u, m) {
        assert Consistent(s, m);
      }
      forall x | x in u.tasks ensures Placed(u, x) {
        assert Placed(s, x);
      }
    }
    forall t | t in u.tasks ensures Resumable(u.tasks[t]) {
      assert Resumable(s.tasks[t]);
    }
  }

  lemma TickInv<T, M>(s: Sched<T, M>, frame: nat)
    requires Inv(s) && frame != 0
    ensures Inv(Tick(s, frame))
  {
    hide Inv, Sweep, Serve;
    var now := s.(ticks := (s.ticks + 1) % U64_LIMIT);
    ClockKept(s, now.ticks);
    SweepInv(now);
    ServeInv(Sweep(now), frame);
  }

  lemma ServeInv<T, M>(s: Sched<T, M>, frame: nat)
    requires Inv(s) && frame != 0
    ensures Inv(Serve(s, frame))
  {
    hide Inv, Preempt;
    if OnTask(s) {
      var slice := if s.slice + 1 < TIME_SLICE then s.slice + 1 else 0;
      SliceKept(s, slice);
      SaveInv(s.(slice := slice), frame);
      if slice == 0 && s.ready != [] {
        PreemptInv(Save(s.(slice := 0), frame), frame);
      }
    }
  }

  lemma ClockKept<T, M>(s: Sched<T, M>, ticks: nat)
    requires Inv(s)
    ensures Inv(s.(ticks := ticks))
  {
    var u := s.(ticks := ticks);
    forall m | m in u.mutexes ensures Consistent(u, m) {
      assert Consistent(s, m);
    }
    forall t | t in u.tasks ensures Placed(u, t) {
      assert Placed(s, t);
    }
  }

  lemma SliceKept<T, M>(s: Sched<T, M>, slice: nat)
    requires Inv(s) && slice < TIME_SLICE
    ensures Inv(s.(slice := slice))
  {
    var u := s.(slice := slice);
    forall m | m in u.mutexes ensures Consistent(u, m) {
      assert Consistent(s, m);
    }
    forall t | t in u.tasks ensures Placed(u, t) {
      assert Placed(s, t);
    }
  }

  lemma TakeQueued<T, M>(s: Sched<T, M>, m: M)
    requires Inv(s) && OnTask(s) && m in s.mutexes
    requires s.mutexes[m].owner == Some(s.current.task) || !s.mutexes[m].locked
    ensures Queued(LockTurn(s, m))
  {
    hide MutexesOk;
    Detach(s, s.current.task);
    Attach(s, s.current.task, Me(s).(waiting := None));
  }

  lemma TakeConsistent<T, M>(s: Sched<T, M>, m: M, n: M)
    requires Inv(s) && OnTask(s) && m in s.mutexes && n in s.mutexes
    requires s.mutexes[m].owner == Some(s.current.task) || !s.mutexes[m].locked
    ensures n in LockTurn(s, m).mutexes && Consistent(LockTurn(s, m), n)
  {
    hide Queued, Enqueue, Yield, Placed;
    assert Consistent(s, n) && Consistent(s, m);
  }

  lemma TakePlaced<T, M>(s: Sched<T, M>, m: M, y: T)
    requires Inv(s) && OnTask(s) && m in s.mutexes && y in s.tasks
    requires s.mutexes[m].owner == Some(s.current.task) || !s.mutexes[m].locked
    ensures y in LockTurn(s, m).tasks && Placed(LockTurn(s, m), y)
  {
    hide Queued, Enqueue, Yield;
    assert Placed(s, y) && Consistent(s, m);
  }

  lemma TakeMutexes<T, M>(s: Sched<T, M>, m: M)
    requires Inv(s) && OnTask(s) && m in s.mutexes
    requires s.mutexes[m].owner == Some(s.current.task) || !s.mutexes[m].locked
    ensures MutexesOk(LockTurn(s, m))
  {
    hide Queued, Enqueue, Yield, Placed, Consistent, Inv;
    var u := LockTurn(s, m);
    forall n | n in u.mutexes ensures Consistent(u, n) {
      TakeConsistent(s, m, n);
    }
    forall y | y in u.tasks ensures Placed(u, y) {
      TakePlaced(s, m, y);
    }
  }

  /** Acquiring a free mutex, or finding it handed over: the task is out of the loop. */
  lemma TakeInv<T, M>(s: Sched<T, M>, m: M)
    requires Inv(s) && OnTask(s) && m in s.mutexes && (Me(s).waiting == None || Me(s).waiting == Some(m))
    requires s.mutexes[m].owner == Some(s.current.task) || !s.mutexes[m].locked
    ensures Inv(LockTurn(s, m))
  {
    hide Queued, MutexesOk, Yield, Enqueue;
    TakeQueued(s, m);
    TakeMutexes(s, m);
  }

  lemma EnqueueQueued<T, M>(s: Sched<T, M>, m: M)
    requires Inv(s) && OnTask(s) && m in s.mutexes
    ensures Queued(Enqueue(s, m))
  {
    hide MutexesOk;
    Detach(s, s.current.task);
    Attach(s, s.current.task, Left(s, Blocked).(waiting := Some(m)));
  }

  lemma EnqueueMutexes<T, M>(s: Sched<T, M>, m: M)
    requires Inv(s) && OnTask(s) && m in s.mutexes && Me(s).waiting == None
    requires s.mutexes[m].owner != Some(s.current.task) && s.mutexes[m].locked
    ensures MutexesOk(Enqueue(s, m))
  {
    hide Queued;
    var u := Enqueue(s, m);
    forall n | n in u.mutexes ensures Consistent(u, n) {
      assert Consistent(s, n);
      if n == m {
        SnocDistinct(s.mutexes[m].wait, s.current.task);
      }
    }
    forall y | y in u.tasks ensures Placed(u, y) {
      assert Placed(s, y);
    }
  }

  /** Queuing on a held mutex. */
  lemma WaitInv<T, M>(s: Sched<T, M>, m: M)
    requires Inv(s) && OnTask(s) && m in s.mutexes && Me(s).waiting == None
    requires s.mutexes[m].owner != Some(s.current.task) && s.mutexes[m].locked
    ensures Inv(LockTurn(s, m))
  {
    hide Queued, MutexesOk, Yield;
    EnqueueQueued(s, m);
    EnqueueMutexes(s, m);
    ParkInv(s, Enqueue(s, m), Left(s, Blocked).(waiting := Some(m)));
  }

  /** A task that was queued and is running again owns the mutex: the retry never queues twice. */
  lemma RetryOwns<T, M>(s: Sched<T, M>)
    requires Inv(s) && OnTask(s) && Me(s).waiting.Some?
    ensures Me(s).waiting.value in s.mutexes && s.mutexes[Me(s).waiting.value].owner == Some(s.current.task)
  {
    assert Placed(s, s.current.task);
  }

  lemma UnlockInv<T, M>(s: Sched<T, M>, m: M)
    requires Inv(s) && Enabled(s, DoUnlock(m))
    ensures Inv(Unlock(s, m))
  {
    var x := s.mutexes[m];
    if x.owner == Some(s.current.task) {
      assert Consistent(s, m);
      if x.wait == [] {
        ReleaseInv(s, m);
      } else {
        HandOffInv(s, m);
      }
    }
  }

  lemma ReleaseInv<T, M>(s: Sched<T, M>, m: M)
    requires Inv(s) && Enabled(s, DoUnlock(m)) && s.mutexes[m].owner == Some(s.current.task) && s.mutexes[m].wait == []
    ensures Inv(Unlock(s, m))
  {
    var u := Unlock(s, m);
    forall n | n in u.mutexes ensures Consistent(u, n) {
      assert Consistent(s, n);
    }
    forall y | y in u.tasks ensures Placed(u, y) {
      assert Placed(s, y);
    }
  }

  lemma HandOffInv<T, M>(s: Sched<T, M>, m: M)
    requires Inv(s) && Enabled(s, DoUnlock(m)) && s.mutexes[m].owner == Some(s.current.task) && s.mutexes[m].wait != []
    ensures Inv(Unlock(s, m))
  {
    var x, u := s.mutexes[m], Unlock(s, m);
    var next := x.wait[0];
    assert Consistent(s, m) && next in x.wait;
    assert Queued(u) by {
      Detach(s, next);
      RemoveAbsent(s.blocked, next);
      Attach(s, next, Readied(s.tasks[next]));
    }
    assert MutexesOk(u) by {
      HandOffMutexes(s, m);
    }
    assert Resumable(s.tasks[next]);
  }

  lemma HandOffMutexes<T, M>(s: Sched<T, M>, m: M)
    requires MutexesOk(s) && Enabled(s, DoUnlock(m)) && Me(s).state == Running
    requires s.mutexes[m].owner == Some(s.current.task) && s.mutexes[m].wait != []
    ensures MutexesOk(Unlock(s, m))
  {
    var x, u := s.mutexes[m], Unlock(s, m);
    var next := x.wait[0];
    assert Consistent(s, m) && next in x.wait;
    TailDistinct(x.wait);
    assert x.grants + x.wait == (x.grants + [next]) + x.wait[1..];
    forall n | n in u.mutexes ensures Consistent(u, n) {
      assert Consistent(s, n);
    }
    forall y | y in u.tasks ensures Placed(u, y) {
      assert Placed(s, y);
    }
  }

  /** Every enabled step keeps the invariant. */
  lemma StepInv<T, M>(s: Sched<T, M>, op: Op<T, M>)
    requires Inv(s) && Enabled(s, op)
    ensures Inv(Apply(s, op))
  {
    hide Inv;
    match op
    case DoYield => YieldInv(s);
    case DoSleep(n) => SleepInv(s, (s.ticks + n) % U64_LIMIT);
    case DoBlock => BlockInv(s);
    case DoExit => ExitInv(s);
    case DoUnblock(t) => UnblockInv(s, t);
    case DoAdd(t) => AddInv(s, t);
    case DoTick(frame) => TickInv(s, frame);
    case DoIrq(frame) => SaveInv(s, frame);
    case DoLock(m) => LockInv(s, m);
    case DoRetry => RetryOwns(s); LockInv(s, Me(s).waiting.value);
    case DoUnlock(m) => UnlockInv(s, m);
  }

  lemma LockInv<T, M>(s: Sched<T, M>, m: M)
    requires Inv(s) && OnTask(s) && m in s.mutexes
    requires Me(s).waiting == None || (Me(s).waiting == Some(m) && s.mutexes[m].owner == Some(s.current.task))
    ensures Inv(LockTurn(s, m))
  {
    if s.mutexes[m].owner == Some(s.current.task) || !s.mutexes[m].locked {
      TakeInv(s, m);
    } else {
      WaitInv(s, m);
    }
  }
}
