/** The scheduler, its queues and the mutexes of kernel/src/scheduler/scheduler.c and kernel/src/sync/mutex.c
    as a step system over values: `T` names tasks, `M` names mutexes. */
module SchedulerModel {
  import opened Machine
  import opened Options

  const TIME_SLICE: nat := 10

  datatype TaskState = Ready | Running | Blocked | Sleeping | Terminated
  datatype ResumeMode = Context | Interrupt

  /** How a task last lost the processor. */
  datatype SwitchOut = Never | Voluntary | Preempted(frame: nat)

  /** `frame` is `interrupt_rsp`, with 0 for NULL. `waiting` says that the task is inside the loop of
      mutex_lock on that mutex; `out` is history. */
  datatype Task<M> = Task(state: TaskState, mode: ResumeMode, frame: nat, wake: nat, waiting: Option<M>, out: SwitchOut)

  /** `arrivals` and `grants` are history: every task that ever queued and every hand-off, in order. */
  datatype Mutex<T> = Mutex(locked: bool, owner: Option<T>, wait: seq<T>, arrivals: seq<T>, grants: seq<T>)

  datatype Current<T> = Boot | Idle | On(task: T)

  datatype Sched<T, M> = Sched(
    ready: seq<T>, blocked: seq<T>, sleep: seq<T>, current: Current<T>,
    tasks: map<T, Task<M>>, mutexes: map<M, Mutex<T>>, ticks: nat, slice: nat)

  // ----- queues -----

  ghost predicate Distinct<T>(q: seq<T>) {
    forall i, j :: 0 <= i < j < |q| ==> q[i] != q[j]
  }

  /** `task_queue_remove`: the first occurrence goes. */
  ghost function Remove<T>(q: seq<T>, t: T): seq<T> {
    if q == [] then [] else if q[0] == t then q[1..] else [q[0]] + Remove(q[1..], t)
  }

  lemma {:induction false} RemoveMembers<T>(q: seq<T>, t: T)
    requires Distinct(q)
    ensures Distinct(Remove(q, t))
    ensures forall x :: x in Remove(q, t) <==> x in q && x != t
  {
    if q != [] {
      var rest := q[1..];
      assert q == [q[0]] + rest;
      RemoveMembers(rest, t);
      assert forall x :: x in rest ==> x != q[0];
      assert q[0] !in Remove(rest, t);
      forall x ensures x in Remove(q, t) <==> x in q && x != t {
        if q[0] == t {
          assert x in rest <==> x in q && x != t;
        }
      }
    }
  }

  lemma RemoveMember<T>(q: seq<T>, t: T, x: T)
    requires Distinct(q)
    ensures x in Remove(q, t) <==> x in q && x != t
  {
    RemoveMembers(q, t);
  }

  lemma RemoveAbsent<T>(q: seq<T>, t: T)
    requires t !in q
    ensures Remove(q, t) == q
  {
    if q != [] {
      RemoveAbsent(q[1..], t);
    }
  }

  /** The elements of `q` whose wake-up is due (or is not), in order. */
  ghost function Due<T, M>(q: seq<T>, tasks: map<T, Task<M>>, now: nat, due: bool): seq<T> {
    if q == [] then []
    else
      var rest := Due(q[1..], tasks, now, due);
      if q[0] in tasks && (now >= tasks[q[0]].wake) == due then [q[0]] + rest else rest
  }

  lemma {:induction false} DueMembers<T, M>(q: seq<T>, tasks: map<T, Task<M>>, now: nat, due: bool)
    ensures forall x :: x in Due(q, tasks, now, due) <==> x in q && x in tasks && (now >= tasks[x].wake) == due
    ensures Distinct(q) ==> Distinct(Due(q, tasks, now, due))
  {
    if q != [] {
      assert q == [q[0]] + q[1..];
      DueMembers(q[1..], tasks, now, due);
    }
  }

  lemma DueMember<T, M>(q: seq<T>, tasks: map<T, Task<M>>, now: nat, due: bool, x: T)
    ensures x in Due(q, tasks, now, due) <==> x in q && x in tasks && (now >= tasks[x].wake) == due
  {
    DueMembers(q, tasks, now, due);
  }

  lemma {:induction false} DuePlace<T, M>(q: seq<T>, tasks: map<T, Task<M>>, now: nat, due: bool, i: nat)
      returns (a: nat)
    requires i < |Due(q, tasks, now, due)|
    ensures a < |q| && q[a] == Due(q, tasks, now, due)[i]
  {
    var rest := Due(q[1..], tasks, now, due);
    if Due(q, tasks, now, due) == rest {
      a := DuePlace(q[1..], tasks, now, due, i);
      a := a + 1;
    } else if i > 0 {
      a := DuePlace(q[1..], tasks, now, due, i - 1);
      a := a + 1;
    } else {
      a := 0;
    }
  }

  /** The selection keeps the order of the queue. */
  lemma {:induction false} DueInOrder<T, M>(q: seq<T>, tasks: map<T, Task<M>>, now: nat, due: bool, i: nat, j: nat)
      returns (a: nat, b: nat)
    requires i < j < |Due(q, tasks, now, due)|
    ensures a < b < |q| && q[a] == Due(q, tasks, now, due)[i] && q[b] == Due(q, tasks, now, due)[j]
  {
    var rest := Due(q[1..], tasks, now, due);
    if Due(q, tasks, now, due) == rest {
      a, b := DueInOrder(q[1..], tasks, now, due, i, j);
      a, b := a + 1, b + 1;
    } else if i > 0 {
      a, b := DueInOrder(q[1..], tasks, now, due, i - 1, j - 1);
      a, b := a + 1, b + 1;
    } else {
      b := DuePlace(q[1..], tasks, now, due, j - 1);
      a, b := 0, b + 1;
    }
  }

  // ----- the functions of the scheduler -----

  ghost function Readied<M>(task: Task<M>): Task<M> {
    task.(state := Ready, mode := Context, frame := 0)
  }

  /** `scheduler_schedule` and `scheduler_switch_to`: the head of the ready queue, or idle. */
  ghost function Dispatch<T, M>(s: Sched<T, M>): (u: Sched<T, M>)
    ensures u.mutexes == s.mutexes && u.sleep == s.sleep && u.blocked == s.blocked && u.ticks == s.ticks
    ensures forall t :: t in s.tasks ==> t in u.tasks && u.tasks[t] == s.tasks[t].(state := u.tasks[t].state)
  {
    if s.ready == [] then s.(current := Idle, slice := 0)
    else
      var t := s.ready[0];
      s.(ready := s.ready[1..], current := On(t), slice := 0,
         tasks := if t in s.tasks then s.tasks[t := s.tasks[t].(state := Running)] else s.tasks)
  }

  ghost function Update<T, M>(s: Sched<T, M>, t: T, task: Task<M>): Sched<T, M> {
    s.(tasks := s.tasks[t := task])
  }

  ghost predicate OnTask<T, M>(s: Sched<T, M>) {
    s.current.On? && s.current.task in s.tasks
  }

  ghost function Me<T, M>(s: Sched<T, M>): Task<M>
    requires OnTask(s)
  {
    s.tasks[s.current.task]
  }

  /** `scheduler_yield`: a running task goes to the tail of the ready queue, to be resumed by its context. */
  ghost function Yield<T, M>(s: Sched<T, M>): (u: Sched<T, M>)
    ensures u.mutexes == s.mutexes
  {
    if OnTask(s) && Me(s).state == Running then
      var t := s.current.task;
      Dispatch(Update(s, t, Readied(Me(s)).(out := Voluntary)).(ready := s.ready + [t]))
    else Dispatch(s)
  }

  /** The record of the running task once it gives up the processor in another state. */
  ghost function Left<T, M>(s: Sched<T, M>, state: TaskState): Task<M>
    requires OnTask(s)
  {
    Me(s).(state := state, out := Voluntary)
  }

  /** `scheduler_sleep`, with the wrap-around of the 64-bit tick count. */
  ghost function Sleep<T, M>(s: Sched<T, M>, n: nat): Sched<T, M> {
    SleepUntil(s, (s.ticks + n) % U64_LIMIT)
  }

  ghost function SleepUntil<T, M>(s: Sched<T, M>, wake: nat): Sched<T, M> {
    if !OnTask(s) then s
    else
      var t := s.current.task;
      Yield(Update(s, t, Left(s, Sleeping).(wake := wake)).(sleep := s.sleep + [t]))
  }

  /** `scheduler_block_current` */
  ghost function Block<T, M>(s: Sched<T, M>): Sched<T, M> {
    if !OnTask(s) then s
    else Yield(Update(s, s.current.task, Left(s, Blocked)).(blocked := s.blocked + [s.current.task]))
  }

  /** `task_exit` */
  ghost function Exit<T, M>(s: Sched<T, M>): Sched<T, M> {
    if !OnTask(s) then s else Yield(Update(s, s.current.task, Left(s, Terminated)))
  }

  /** `scheduler_unblock` */
  ghost function Unblock<T, M>(s: Sched<T, M>, t: T): Sched<T, M> {
    if t !in s.tasks || s.tasks[t].state != Blocked then s
    else Update(s, t, Readied(s.tasks[t])).(blocked := Remove(s.blocked, t), ready := s.ready + [t])
  }

  /** `scheduler_add_task` on a task fresh from task_create. */
  ghost function Add<T, M>(s: Sched<T, M>, t: T): Sched<T, M> {
    Update(s, t, Task(Ready, Context, 0, 0, None, Never)).(ready := s.ready + [t])
  }

  /** `scheduler_check_sleeping_tasks` */
  ghost function Sweep<T, M>(s: Sched<T, M>): Sched<T, M> {
    s.(sleep := Due(s.sleep, s.tasks, s.ticks, false),
       ready := s.ready + Due(s.sleep, s.tasks, s.ticks, true),
       tasks := map t | t in s.tasks ::
         if t in s.sleep && s.ticks >= s.tasks[t].wake then Readied(s.tasks[t]) else s.tasks[t])
  }

  /** `scheduler_save_interrupt_context` */
  ghost function Save<T, M>(s: Sched<T, M>, frame: nat): Sched<T, M> {
    if !OnTask(s) then s else Update(s, s.current.task, Me(s).(frame := frame, mode := Interrupt))
  }

  /** `scheduler_get_next_interrupt_rsp` and `scheduler_commit_pending_task` when preemption is due: the head
      of the ready queue takes over and the interrupted task goes to the tail. */
  ghost function Preempt<T, M>(s: Sched<T, M>, frame: nat): Sched<T, M>
    requires OnTask(s) && s.ready != []
  {
    var t := s.current.task;
    var s1 := if Me(s).state == Running
              then Update(s, t, Me(s).(state := Ready, out := Preempted(frame))).(ready := s.ready + [t]) else s;
    Dispatch(s1)
  }

  /** A timer interrupt: pit_irq_handler, then the exit path of common_isr_entry. */
  ghost function Tick<T, M>(s: Sched<T, M>, frame: nat): (u: Sched<T, M>)
    ensures u.mutexes == s.mutexes
  {
    Serve(Sweep(s.(ticks := (s.ticks + 1) % U64_LIMIT)), frame)
  }

  /** The rest of the interrupt, after the sleeping tasks have been looked at. */
  ghost function Serve<T, M>(swept: Sched<T, M>, frame: nat): (u: Sched<T, M>)
    ensures u.mutexes == swept.mutexes
  {
    if !OnTask(swept) then swept
    else if swept.slice + 1 < TIME_SLICE then Save(swept.(slice := swept.slice + 1), frame)
    else if swept.ready == [] then Save(swept.(slice := 0), frame)
    else Preempt(Save(swept.(slice := 0), frame), frame)
  }

  /** mutex.c:48-51: the caller joins the line of the mutex and is marked blocked, still on the processor. */
  ghost function Enqueue<T, M>(s: Sched<T, M>, m: M): Sched<T, M>
    requires OnTask(s) && m in s.mutexes
  {
    var t, x := s.current.task, s.mutexes[m];
    Update(s, t, Left(s, Blocked).(waiting := Some(m)))
      .(mutexes := s.mutexes[m := x.(wait := x.wait + [t], arrivals := x.arrivals + [t])])
  }

  /** One turn of the loop of `mutex_lock`, with mutex.c:48-53 as one step. */
  ghost function LockTurn<T, M>(s: Sched<T, M>, m: M): Sched<T, M> {
    if !OnTask(s) || m !in s.mutexes then s
    else
      var t, x := s.current.task, s.mutexes[m];
      if x.owner == Some(t) then Update(s, t, Me(s).(waiting := None))
      else if !x.locked then
        Update(s, t, Me(s).(waiting := None)).(mutexes := s.mutexes[m := x.(locked := true, owner := Some(t))])
      else Yield(Enqueue(s, m))
  }

  /** `mutex_unlock` with its direct hand-off. */
  ghost function Unlock<T, M>(s: Sched<T, M>, m: M): Sched<T, M> {
    if !OnTask(s) || m !in s.mutexes || s.mutexes[m].owner != Some(s.current.task) then s
    else
      var x := s.mutexes[m];
      if x.wait == [] then s.(mutexes := s.mutexes[m := x.(locked := false, owner := None)])
      else
        var next := x.wait[0];
        var handed := x.(wait := x.wait[1..], owner := Some(next), grants := x.grants + [next]);
        Unblock(s.(mutexes := s.mutexes[m := handed]), next)
  }

  // ----- steps -----

  datatype Op<T, M> =
    | DoYield | DoSleep(n: nat) | DoBlock | DoExit | DoUnblock(t: T) | DoAdd(t: T)
    | DoTick(frame: nat) | DoIrq(frame: nat)
    | DoLock(m: M) | DoRetry | DoUnlock(m: M)

  /** What may happen next. A task inside mutex_lock can only go on with its loop or be interrupted, and is
      unblocked by the hand-off alone; idle only yields; frames of interrupted code are not NULL. */
  ghost predicate Enabled<T, M>(s: Sched<T, M>, op: Op<T, M>) {
    var free := OnTask(s) && Me(s).waiting == None;
    match op
    case DoYield => free || !s.current.On?
    case DoSleep(_) => free
    case DoBlock => free
    case DoExit => free
    case DoUnblock(t) => t in s.tasks && (s.tasks[t].state == Blocked ==> t in s.blocked)
    case DoAdd(t) => t !in s.tasks
    case DoTick(frame) => frame != 0
    case DoIrq(frame) => frame != 0
    case DoLock(m) => free && m in s.mutexes
    case DoRetry => OnTask(s) && Me(s).waiting.Some?
    case DoUnlock(m) => free && m in s.mutexes
  }

  ghost function Apply<T, M>(s: Sched<T, M>, op: Op<T, M>): Sched<T, M> {
    match op
    case DoYield => Yield(s)
    case DoSleep(n) => Sleep(s, n)
    case DoBlock => Block(s)
    case DoExit => Exit(s)
    case DoUnblock(t) => Unblock(s, t)
    case DoAdd(t) => Add(s, t)
    case DoTick(frame) => Tick(s, frame)
    case DoIrq(frame) => Save(s, frame)
    case DoLock(m) => LockTurn(s, m)
    case DoRetry => if OnTask(s) && Me(s).waiting.Some? then LockTurn(s, Me(s).waiting.value) else s
    case DoUnlock(m) => Unlock(s, m)
  }

  // ----- the sweep, one sleeper at a time -----

  /** The state once the first `i` sleepers have been looked at. */
  ghost function SweepTo<T, M>(s: Sched<T, M>, i: nat): Sched<T, M>
    requires i <= |s.sleep|
  {
    s.(sleep := Due(s.sleep[..i], s.tasks, s.ticks, false) + s.sleep[i..],
       ready := s.ready + Due(s.sleep[..i], s.tasks, s.ticks, true),
       tasks := map t | t in s.tasks ::
         if t in s.sleep[..i] && s.ticks >= s.tasks[t].wake then Readied(s.tasks[t]) else s.tasks[t])
  }

  lemma {:induction false} DueSnoc<T, M>(q: seq<T>, t: T, tasks: map<T, Task<M>>, now: nat, due: bool)
    ensures Due(q + [t], tasks, now, due)
         == Due(q, tasks, now, due) + (if t in tasks && (now >= tasks[t].wake) == due then [t] else [])
  {
    if q == [] {
      assert q + [t] == [t];
    } else {
      assert (q + [t])[1..] == q[1..] + [t];
      DueSnoc(q[1..], t, tasks, now, due);
    }
  }

  lemma SweepBounds<T, M>(s: Sched<T, M>)
    ensures SweepTo(s, 0) == s && SweepTo(s, |s.sleep|) == Sweep(s)
  {
    assert s.sleep[..0] == [] && s.sleep[0..] == s.sleep && s.sleep[..|s.sleep|] == s.sleep;
    assert SweepTo(s, 0).tasks == s.tasks;
  }

  lemma {:induction false} RemoveMiddle<T>(p: seq<T>, t: T, q: seq<T>)
    requires t !in p
    ensures Remove(p + [t] + q, t) == p + q
  {
    if p == [] {
      assert p + [t] + q == [t] + q;
    } else {
      assert (p + [t] + q)[1..] == p[1..] + [t] + q;
      RemoveMiddle(p[1..], t, q);
      assert [p[0]] + (p[1..] + q) == p + q;
    }
  }

  /** Looking at sleeper `i`: a due one moves to the ready queue, another one stays. */
  lemma SweepStep<T, M>(s: Sched<T, M>, i: nat)
    requires i < |s.sleep| && Distinct(s.sleep) && s.sleep[i] in s.tasks
    ensures
      var t, w := s.sleep[i], SweepTo(s, i);
      var k := |Due(s.sleep[..i], s.tasks, s.ticks, false)|;
      && k < |w.sleep| && w.sleep[k] == t && w.sleep[k + 1..] == s.sleep[i + 1..]
      && t in w.tasks && w.tasks[t] == s.tasks[t] && w.ticks == s.ticks
      && SweepTo(s, i + 1) ==
           if s.ticks >= s.tasks[t].wake
           then Update(w, t, Readied(w.tasks[t])).(sleep := Remove(w.sleep, t), ready := w.ready + [t])
           else w
  {
    hide Due, Remove;
    var t, w := s.sleep[i], SweepTo(s, i);
    var late, q := Due(s.sleep[..i], s.tasks, s.ticks, false), s.sleep[i + 1..];
    SweepLists(s, i);
    SweepTasks(s, i);
    assert w.sleep[|late| + 1..] == q;
    assert t !in s.sleep[..i];
    DueMember(s.sleep[..i], s.tasks, s.ticks, false, t);
    RemoveMiddle(late, t, q);
  }

  lemma SweepLists<T, M>(s: Sched<T, M>, i: nat)
    requires i < |s.sleep| && s.sleep[i] in s.tasks
    ensures
      var t, w, u := s.sleep[i], SweepTo(s, i), SweepTo(s, i + 1);
      var late, q := Due(s.sleep[..i], s.tasks, s.ticks, false), s.sleep[i + 1..];
      var due := s.ticks >= s.tasks[t].wake;
      && w.sleep == late + [t] + q && u.sleep == (if due then late + q else w.sleep)
      && u.ready == (if due then w.ready + [t] else w.ready)
  {
    hide Due;
    var t, p, q := s.sleep[i], s.sleep[..i], s.sleep[i + 1..];
    var late := Due(p, s.tasks, s.ticks, false);
    assert s.sleep[..i + 1] == p + [t] && s.sleep[i..] == [t] + q;
    DueSnoc(p, t, s.tasks, s.ticks, false);
    DueSnoc(p, t, s.tasks, s.ticks, true);
    assert late + ([t] + q) == late + [t] + q;
    var early := Due(p, s.tasks, s.ticks, true);
    assert s.ready + (early + [t]) == (s.ready + early) + [t] && early + [] == early && late + [] == late;
  }

  lemma SweepTasks<T, M>(s: Sched<T, M>, i: nat)
    requires i < |s.sleep| && Distinct(s.sleep) && s.sleep[i] in s.tasks
    ensures
      var t, w := s.sleep[i], SweepTo(s, i);
      SweepTo(s, i + 1).tasks ==
        if s.ticks >= s.tasks[t].wake then w.tasks[t := Readied(s.tasks[t])] else w.tasks
  {
    hide Due;
    assert s.sleep[..i + 1] == s.sleep[..i] + [s.sleep[i]];
  }
}
