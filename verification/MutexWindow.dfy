/** The window of mutex_lock: between mutex.c:51 and mutex.c:53 the waiter is queued and marked blocked but
    still on the processor. What timer ticks there do to the way in which it will be resumed. */
module MutexWindow {
  import opened Machine
  import opened Options
  import opened SchedulerModel
  import opened SchedulerInvariant
  import opened SchedulerRuns

  /** The state that the tick after `s` sees, before the slice is looked at. */
  ghost function NextTick<T, M>(s: Sched<T, M>): Sched<T, M> {
    Sweep(s.(ticks := (s.ticks + 1) % U64_LIMIT))
  }

  /** The next tick takes the processor away: the slice is used up, and a task is ready or wakes up. */
  ghost predicate SliceEnds<T, M>(s: Sched<T, M>) {
    s.slice + 1 >= TIME_SLICE && NextTick(s).ready != []
  }

  /** One of the next `n` ticks takes the processor away. */
  ghost predicate EndsWithin<T, M>(s: Sched<T, M>, n: nat)
    decreases n
  {
    n > 0 && (SliceEnds(s) || EndsWithin(Onward(s), n - 1))
  }

  /** The clock, the queues and the slice after a tick that leaves the current task running. */
  ghost function Onward<T, M>(s: Sched<T, M>): Sched<T, M> {
    NextTick(s).(slice := if s.slice + 1 < TIME_SLICE then s.slice + 1 else 0)
  }

  /** The ticks that fall into the window, up to one that takes the processor from `t`. */
  ghost function Ticks<T, M>(s: Sched<T, M>, t: T, frames: seq<nat>): Sched<T, M>
    decreases |frames|
  {
    if frames == [] || s.current != On(t) then s else Ticks(Tick(s, frames[0]), t, frames[1..])
  }

  /** A waiter that the ticks of the window leave running goes on to its yield. */
  ghost function AfterWindow<T, M>(s: Sched<T, M>, m: M, frames: seq<nat>): Sched<T, M>
    requires OnTask(s) && m in s.mutexes
  {
    var u := Ticks(Enqueue(s, m), s.current.task, frames);
    if u.current == s.current then Yield(u) else u
  }

  /** The waiter was stopped by an interrupt, so that only its frame says where. */
  ghost predicate StoppedByTick<T, M>(s: Sched<T, M>, m: M, frames: seq<nat>)
    requires OnTask(s) && m in s.mutexes
  {
    Ticks(Enqueue(s, m), s.current.task, frames).current != s.current
  }

  /** After the hand-off the mode says how the waiter was stopped. */
  ghost predicate ResumesRight<T, M>(s: Sched<T, M>, m: M, frames: seq<nat>)
    requires OnTask(s) && m in s.mutexes
  {
    var t, h := s.current.task, Unblock(AfterWindow(s, m, frames), s.current.task);
    t in h.tasks && h.tasks[t].mode == if StoppedByTick(s, m, frames) then Interrupt else Context
  }

  ghost predicate Waits<T, M>(s: Sched<T, M>, m: M) {
    && Inv(s) && Enabled(s, DoLock(m))
    && s.mutexes[m].locked && s.mutexes[m].owner != Some(s.current.task)
  }

  /** The tasks of the queue wake up at the same times in both. */
  ghost predicate SameWakes<T, M>(q: seq<T>, a: map<T, Task<M>>, b: map<T, Task<M>>) {
    forall x :: x in q ==> (x in a <==> x in b) && (x in a ==> a[x].wake == b[x].wake)
  }

  lemma {:induction false} DueAlike<T, M>(q: seq<T>, a: map<T, Task<M>>, b: map<T, Task<M>>, now: nat, due: bool)
    requires SameWakes(q, a, b)
    ensures Due(q, a, now, due) == Due(q, b, now, due)
  {
    if q != [] {
      assert q[0] in q;
      DueAlike(q[1..], a, b, now, due);
    }
  }

  /** `w` has the clock, the queues and the slice of `s`, with `t` marked blocked on the processor. */
  ghost predicate Alike<T, M>(s: Sched<T, M>, w: Sched<T, M>, t: T) {
    && w.ready == s.ready && w.sleep == s.sleep && w.ticks == s.ticks && w.slice == s.slice < TIME_SLICE
    && SameWakes(s.sleep, s.tasks, w.tasks)
    && w.current == On(t) && t in w.tasks && w.tasks[t].state == Blocked && w.tasks[t].out == Voluntary
    && t !in s.ready && t !in s.sleep
  }

  lemma WaiterAlike<T, M>(s: Sched<T, M>, m: M)
    requires Waits(s, m)
    ensures OnTask(s) && m in s.mutexes && Alike(s, Enqueue(s, m), s.current.task)
  {
    WaiterFacts(s, m);
  }

  lemma WaiterFacts<T, M>(s: Sched<T, M>, m: M)
    requires Waits(s, m)
    ensures OnTask(s) && m in s.mutexes && s.current.task !in s.ready && s.current.task !in s.sleep
    ensures s.slice < TIME_SLICE
  {
  }

  /** The sweep of a tick does not touch the waiter, and wakes whom it would have woken anyway. */
  lemma AlikeSwept<T, M>(s: Sched<T, M>, w: Sched<T, M>, t: T)
    requires Alike(s, w, t)
    ensures Alike(NextTick(s), NextTick(w), t)
  {
    hide Due;
    var now := (s.ticks + 1) % U64_LIMIT;
    DueAlike(s.sleep, s.tasks, w.tasks, now, true);
    DueAlike(s.sleep, s.tasks, w.tasks, now, false);
    DueMembers(s.sleep, s.tasks, now, true);
    DueMembers(s.sleep, s.tasks, now, false);
  }

  lemma ServeBlocked<T, M>(s: Sched<T, M>, frame: nat)
    requires OnTask(s) && Me(s).state == Blocked && s.current.task !in s.ready && s.slice < TIME_SLICE
    ensures
      var t, u := s.current.task, Serve(s, frame);
      && (u.current != s.current <==> s.slice + 1 >= TIME_SLICE && s.ready != [])
      && t in u.tasks && t !in u.ready && u.tasks[t] == Me(s).(frame := frame, mode := Interrupt)
      && (u.current == s.current ==>
            && u.ready == s.ready && u.sleep == s.sleep && u.ticks == s.ticks
            && u.tasks == s.tasks[t := u.tasks[t]]
            && u.slice == if s.slice + 1 < TIME_SLICE then s.slice + 1 else 0)
  {
  }

  /** One tick: it stops the waiter exactly when the slice ends, and otherwise both go on alike. */
  lemma AlikeTick<T, M>(s: Sched<T, M>, w: Sched<T, M>, t: T, frame: nat)
    requires Alike(s, w, t)
    ensures var u := Tick(w, frame);
            && (u.current != On(t) <==> SliceEnds(s))
            && t in u.tasks && u.tasks[t].state == Blocked && u.tasks[t].out == Voluntary
            && (!SliceEnds(s) ==> Alike(Onward(s), u, t))
  {
    hide Sweep, Serve;
    AlikeSwept(s, w, t);
    SweepSlice(s);
    ServeBlocked(NextTick(w), frame);
    assert Tick(w, frame) == Serve(NextTick(w), frame);
  }

  lemma SweepSlice<T, M>(s: Sched<T, M>)
    ensures NextTick(s).slice == s.slice
  {
  }

  /** Any number of ticks. */
  lemma {:induction false} AlikeTicks<T, M>(s: Sched<T, M>, w: Sched<T, M>, t: T, frames: seq<nat>)
    requires Alike(s, w, t)
    ensures var u := Ticks(w, t, frames);
            && (u.current != On(t) <==> EndsWithin(s, |frames|))
            && t in u.tasks && u.tasks[t].state == Blocked && u.tasks[t].out == Voluntary
            && (u.current == On(t) ==> t !in u.ready)
    decreases |frames|
  {
    hide Tick, SliceEnds, Onward;
    if frames != [] {
      AlikeTick(s, w, t, frames[0]);
      if !SliceEnds(s) {
        AlikeTicks(Onward(s), Tick(w, frames[0]), t, frames[1..]);
      }
    }
  }

  lemma YieldBlocked<T, M>(s: Sched<T, M>)
    requires OnTask(s) && Me(s).state == Blocked && s.current.task !in s.ready
    ensures var t, u := s.current.task, Yield(s); u.current != s.current && t in u.tasks && u.tasks[t] == s.tasks[t]
  {
  }

  /** The exact effect of any number of ticks in the window. They stop the waiter exactly when the slice ends
      at one of them; either way the waiter is then off the processor and blocked, and the hand-off makes it
      ready in context mode. That is right exactly when the slice does not end: otherwise the frame of the
      interrupt, which alone says where the waiter stopped, is thrown away. */
  lemma WindowResume<T, M>(s: Sched<T, M>, m: M, frames: seq<nat>)
    requires Waits(s, m)
    ensures StoppedByTick(s, m, frames) <==> EndsWithin(s, |frames|)
    ensures var t, v := s.current.task, AfterWindow(s, m, frames);
            && t in v.tasks && v.current != s.current && v.tasks[t].state == Blocked && v.tasks[t].out == Voluntary
            && var r := Unblock(v, t).tasks[t]; r.state == Ready && r.mode == Context && r.frame == 0 && Resumable(r)
    ensures ResumesRight(s, m, frames) <==> !EndsWithin(s, |frames|)
  {
    hide Inv, Ticks, Yield, EndsWithin;
    WaiterAlike(s, m);
    AlikeTicks(s, Enqueue(s, m), s.current.task, frames);
    var u := Ticks(Enqueue(s, m), s.current.task, frames);
    if u.current == s.current {
      YieldBlocked(u);
    }
  }

  // ----- such a state is reached -----

  /** Tasks 1 and 2 on mutex 7: task 1 holds it and is ready, task 2 has run for `i` ticks. */
  ghost function Contended(i: nat): Sched<nat, nat> {
    Sched([1], [], [], On(2),
          map[1 := Task(Ready, Context, 0, 0, None, Voluntary),
              2 := if i == 0 then Task(Running, Context, 0, 0, None, Never)
                  else Task(Running, Interrupt, 1, 0, None, Never)],
          map[7 := Mutex(true, Some(1), [], [], [])], i, i)
  }

  lemma ContendedTick(i: nat)
    requires i < 9
    ensures Enabled(Contended(i), DoTick(1)) && Apply(Contended(i), DoTick(1)) == Contended(i + 1)
  {
    var s := Contended(i);
    var swept := NextTick(s);
    assert swept.ready == s.ready && swept.sleep == [];
    assert swept.tasks == s.tasks;
    assert Serve(swept, 1).tasks == Contended(i + 1).tasks;
  }

  /** The calls that lead there: two tasks start, the first takes the mutex and yields. */
  ghost function OpeningOp(i: nat): Op<nat, nat> {
    if i == 0 then DoAdd(1) else if i == 1 then DoAdd(2) else if i == 3 then DoLock(7) else DoYield
  }

  ghost function Opening(i: nat): Sched<nat, nat> {
    var born := Task(Ready, Context, 0, 0, None, Never);
    var open: map<nat, Mutex<nat>> := map[7 := Mutex(false, None, [], [], [])];
    if i == 0 then Initial<nat, nat>({7})
    else if i == 1 then Sched([1], [], [], Boot, map[1 := born], open, 0, 0)
    else if i == 2 then Sched([1, 2], [], [], Boot, map[1 := born, 2 := born], open, 0, 0)
    else if i == 3 then Sched([2], [], [], On(1), map[1 := born.(state := Running), 2 := born], open, 0, 0)
    else if i == 4 then Sched([2], [], [], On(1), map[1 := born.(state := Running), 2 := born],
                              map[7 := Mutex(true, Some(1), [], [], [])], 0, 0)
    else Contended(0)
  }

  lemma TasksStart(i: nat)
    requires i < 3
    ensures Enabled(Opening(i), OpeningOp(i)) && Apply(Opening(i), OpeningOp(i)) == Opening(i + 1)
  {
  }

  lemma MutexTaken(i: nat)
    requires 3 <= i < 5
    ensures Enabled(Opening(i), OpeningOp(i)) && Apply(Opening(i), OpeningOp(i)) == Opening(i + 1)
  {
  }

  ghost function StateAt(i: nat): Sched<nat, nat> {
    if i < 5 then Opening(i) else Contended(i - 5)
  }

  ghost function OpAt(i: nat): Op<nat, nat> {
    if i < 5 then OpeningOp(i) else DoTick(1)
  }

  lemma StepAt(i: nat)
    requires i < 14
    ensures Enabled(StateAt(i), OpAt(i)) && Apply(StateAt(i), OpAt(i)) == StateAt(i + 1)
  {
    hide Enabled, Apply, OpeningOp, Contended;
    if i < 3 {
      TasksStart(i);
    } else if i < 5 {
      MutexTaken(i);
    } else {
      ContendedTick(i - 5);
    }
  }

  lemma Endpoints()
    ensures StateAt(0) == Initial<nat, nat>({7}) && StateAt(14) == Contended(9)
  {
  }

  lemma ContendedWaits()
    requires Inv(Contended(9))
    ensures Waits(Contended(9), 7) && EndsWithin(Contended(9), 1)
  {
    hide Inv;
    var s := Contended(9);
    assert NextTick(s).ready == s.ready + [];
  }

  /** From the initial state a run leads to a state in which a task waits on a held mutex and the tick in its
      window loses the frame. */
  lemma WindowReached() returns (states: seq<Sched<nat, nat>>, ops: seq<Op<nat, nat>>)
    ensures Run(states, ops) && states[0] == Initial<nat, nat>({7})
    ensures var s := states[|ops|]; Waits(s, 7) && EndsWithin(s, 1) && !ResumesRight(s, 7, [1])
  {
    hide Enabled, Apply, Inv, StateAt, OpAt, EndsWithin, ResumesRight, Waits, Initial, Contended;
    Endpoints();
    states := seq(15, i requires 0 <= i < 15 => StateAt(i));
    ops := seq(14, i requires 0 <= i < 14 => OpAt(i));
    InitialInv<nat, nat>({7});
    assert states[0] == StateAt(0) && states[14] == StateAt(14);
    forall i | 0 <= i < |ops| ensures Enabled(states[i], ops[i]) && states[i + 1] == Apply(states[i], ops[i]) {
      StepAt(i);
    }
    assert Inv(states[0]);
    assert Run(states, ops);
    RunInv(states, ops, |ops|);
    ContendedWaits();
    WindowResume(Contended(9), 7, [1]);
  }
}
