/** kernel/src/scheduler/scheduler.c and kernel/src/sync/mutex.c as code over linked tasks. Every operation is
    proved to compute the function of the same name in SchedulerModel. */
module Schedulers {
  import opened Machine
  import opened Options
  import opened SchedulerModel
  import opened SchedulerInvariant
  import opened TaskQueues

  class MutexObject {
    var locked: bool
    var owner: TaskObject?
    var waitQueue: TaskObject?

    /** `mutex_init` */
    constructor ()
      ensures !locked && owner == null && waitQueue == null
    {
      locked, owner, waitQueue := false, null, null;
    }
  }

  type Abstract = Sched<TaskObject, MutexObject>

  /** Every queued task has a record. */
  ghost predicate Known(s: Abstract) {
    && (forall t :: t in s.ready ==> t in s.tasks) && (forall t :: t in s.blocked ==> t in s.tasks)
    && (forall t :: t in s.sleep ==> t in s.tasks)
    && (forall m, t :: m in s.mutexes && t in s.mutexes[m].wait ==> t in s.tasks)
  }

  /** No task is in two lists. */
  ghost predicate Apart(s: Abstract) {
    && (forall t :: t in s.ready ==> t !in s.blocked && t !in s.sleep)
    && (forall t :: t in s.blocked ==> t !in s.sleep)
    && (forall m, t :: m in s.mutexes && t in s.mutexes[m].wait ==> t !in s.ready && t !in s.blocked && t !in s.sleep)
    && (forall m, n, t :: m in s.mutexes && n in s.mutexes && m != n && t in s.mutexes[m].wait ==>
        t !in s.mutexes[n].wait)
  }

  ghost predicate Unlisted(s: Abstract, t: TaskObject) {
    && t !in s.ready && t !in s.blocked && t !in s.sleep
    && (forall m :: m in s.mutexes ==> t !in s.mutexes[m].wait)
  }

  /** Every list of the state is threaded through the links. */
  ghost predicate Threaded(links: Links, s: Abstract) {
    && Thread(links, s.ready) && Thread(links, s.blocked) && Thread(links, s.sleep)
    && (forall m :: m in s.mutexes ==> Thread(links, s.mutexes[m].wait))
  }

  lemma ThreadedPushReady(links: Links, s: Abstract, t: TaskObject)
    requires Threaded(links, s) && Apart(s) && Known(s) && Unlisted(s, t) && t in s.tasks
    ensures Thread(links, s.ready) && t !in s.ready
    ensures var u := s.(ready := s.ready + [t]); Threaded(PushLinks(links, s.ready, t), u) && Apart(u) && Known(u)
  {
    var l := PushLinks(links, s.ready, t);
    ThreadPush(links, s.ready, t);
    ThreadKept(links, l, s.blocked);
    ThreadKept(links, l, s.sleep);
    forall m | m in s.mutexes ensures Thread(l, s.mutexes[m].wait) {
      ThreadKept(links, l, s.mutexes[m].wait);
    }
  }

  lemma ThreadedPushBlocked(links: Links, s: Abstract, t: TaskObject)
    requires Threaded(links, s) && Apart(s) && Known(s) && Unlisted(s, t) && t in s.tasks
    ensures Thread(links, s.blocked) && t !in s.blocked
    ensures var u := s.(blocked := s.blocked + [t]); Threaded(PushLinks(links, s.blocked, t), u) && Apart(u) && Known(u)
  {
    var l := PushLinks(links, s.blocked, t);
    ThreadPush(links, s.blocked, t);
    ThreadKept(links, l, s.ready);
    ThreadKept(links, l, s.sleep);
    forall m | m in s.mutexes ensures Thread(l, s.mutexes[m].wait) {
      ThreadKept(links, l, s.mutexes[m].wait);
    }
  }

  lemma ThreadedPushSleep(links: Links, s: Abstract, t: TaskObject)
    requires Threaded(links, s) && Apart(s) && Known(s) && Unlisted(s, t) && t in s.tasks
    ensures Thread(links, s.sleep) && t !in s.sleep
    ensures var u := s.(sleep := s.sleep + [t]); Threaded(PushLinks(links, s.sleep, t), u) && Apart(u) && Known(u)
  {
    var l := PushLinks(links, s.sleep, t);
    ThreadPush(links, s.sleep, t);
    ThreadKept(links, l, s.ready);
    ThreadKept(links, l, s.blocked);
    forall m | m in s.mutexes ensures Thread(l, s.mutexes[m].wait) {
      ThreadKept(links, l, s.mutexes[m].wait);
    }
  }

  ghost function WithMutex(s: Abstract, m: MutexObject, x: Mutex<TaskObject>): Abstract {
    s.(mutexes := s.mutexes[m := x])
  }

  lemma ThreadedPushWait(links: Links, s: Abstract, m: MutexObject, t: TaskObject, x: Mutex<TaskObject>)
    requires Threaded(links, s) && Apart(s) && Known(s) && Unlisted(s, t) && t in s.tasks && m in s.mutexes
    requires x.wait == s.mutexes[m].wait + [t]
    ensures Thread(links, s.mutexes[m].wait) && t !in s.mutexes[m].wait
    ensures var u := WithMutex(s, m, x); Threaded(PushLinks(links, s.mutexes[m].wait, t), u) && Apart(u) && Known(u)
  {
    var q := s.mutexes[m].wait;
    var l := PushLinks(links, q, t);
    ThreadPush(links, q, t);
    ThreadKept(links, l, s.ready);
    ThreadKept(links, l, s.blocked);
    ThreadKept(links, l, s.sleep);
    forall n | n in s.mutexes && n != m ensures Thread(l, s.mutexes[n].wait) {
      ThreadKept(links, l, s.mutexes[n].wait);
    }
  }

  lemma ThreadedRemoveReady(links: Links, s: Abstract, k: nat)
    requires Threaded(links, s) && Apart(s) && Known(s) && k < |s.ready|
    ensures var t := s.ready[k]; var u := s.(ready := Remove(s.ready, t));
            Threaded(RemoveLinks(links, s.ready, k), u) && Apart(u) && Known(u) && Unlisted(u, t)
    ensures k == 0 ==> Remove(s.ready, s.ready[0]) == s.ready[1..]
    ensures k == 0 ==> s.ready[0] in links && links[s.ready[0]] == Head(s.ready[1..]) && Head(s.ready) == s.ready[0]
    ensures k == 0 ==> RemoveLinks(links, s.ready, k) == links[s.ready[0] := null]
  {
    ThreadAt(links, s.ready, 0);
    var l := RemoveLinks(links, s.ready, k);
    ThreadRemove(links, s.ready, k);
    RemovedFrom(s.ready, s.ready[k]);
    ThreadKept(links, l, s.blocked);
    ThreadKept(links, l, s.sleep);
    forall m | m in s.mutexes ensures Thread(l, s.mutexes[m].wait) {
      ThreadKept(links, l, s.mutexes[m].wait);
    }
  }

  lemma ThreadedRemoveBlocked(links: Links, s: Abstract, k: nat)
    requires Threaded(links, s) && Apart(s) && Known(s) && k < |s.blocked|
    ensures var t := s.blocked[k]; var u := s.(blocked := Remove(s.blocked, t));
            Threaded(RemoveLinks(links, s.blocked, k), u) && Apart(u) && Known(u) && Unlisted(u, t)
    ensures Thread(links, s.blocked)
  {
    var l := RemoveLinks(links, s.blocked, k);
    ThreadRemove(links, s.blocked, k);
    RemovedFrom(s.blocked, s.blocked[k]);
    ThreadKept(links, l, s.ready);
    ThreadKept(links, l, s.sleep);
    forall m | m in s.mutexes ensures Thread(l, s.mutexes[m].wait) {
      ThreadKept(links, l, s.mutexes[m].wait);
    }
  }

  lemma ThreadedRemoveSleep(links: Links, s: Abstract, k: nat)
    requires Threaded(links, s) && Apart(s) && Known(s) && k < |s.sleep|
    ensures var t := s.sleep[k]; var u := s.(sleep := Remove(s.sleep, t));
            Threaded(RemoveLinks(links, s.sleep, k), u) && Apart(u) && Known(u) && Unlisted(u, t)
    ensures Thread(links, s.sleep)
  {
    var l := RemoveLinks(links, s.sleep, k);
    ThreadRemove(links, s.sleep, k);
    RemovedFrom(s.sleep, s.sleep[k]);
    ThreadKept(links, l, s.ready);
    ThreadKept(links, l, s.blocked);
    forall m | m in s.mutexes ensures Thread(l, s.mutexes[m].wait) {
      ThreadKept(links, l, s.mutexes[m].wait);
    }
  }

  lemma ThreadedTakeWaiter(links: Links, s: Abstract, m: MutexObject, x: Mutex<TaskObject>)
    requires Threaded(links, s) && Apart(s) && Known(s) && m in s.mutexes && s.mutexes[m].wait != []
    requires x.wait == s.mutexes[m].wait[1..]
    ensures Thread(links, s.mutexes[m].wait) && Remove(s.mutexes[m].wait, s.mutexes[m].wait[0]) == x.wait
    ensures var q := s.mutexes[m].wait; var u := WithMutex(s, m, x);
            Threaded(RemoveLinks(links, q, 0), u) && Apart(u) && Known(u) && Unlisted(u, q[0])
  {
    var q := s.mutexes[m].wait;
    var l := RemoveLinks(links, q, 0);
    ThreadRemove(links, q, 0);
    RemovedFrom(q, q[0]);
    ThreadKept(links, l, s.ready);
    ThreadKept(links, l, s.blocked);
    ThreadKept(links, l, s.sleep);
    forall n | n in s.mutexes && n != m ensures Thread(l, s.mutexes[n].wait) {
      ThreadKept(links, l, s.mutexes[n].wait);
    }
  }

  lemma RemovedFrom(q: seq<TaskObject>, t: TaskObject)
    requires Distinct(q)
    ensures forall x :: x in Remove(q, t) ==> x in q && x != t
  {
    RemoveMembers(q, t);
    forall x | x in Remove(q, t) ensures x in q && x != t {
      RemoveMember(q, t, x);
    }
  }

  lemma UpdateTwice(s: Abstract, t: TaskObject, a: Task<MutexObject>, b: Task<MutexObject>)
    ensures Update(Update(s, t, a), t, b) == Update(s, t, b)
  {
    assert s.tasks[t := a][t := b] == s.tasks[t := b];
  }

  ghost function OrNull(owner: Option<TaskObject>): TaskObject? {
    if owner.Some? then owner.value else null
  }

  /** The fields of the task object are the record. */
  ghost predicate TaskIs(t: TaskObject, r: Task<MutexObject>)
    reads t`state, t`resumeMode, t`interruptRsp, t`wakeTick
  {
    t.state == r.state && t.resumeMode == r.mode && t.interruptRsp == r.frame && t.wakeTick == r.wake
  }

  ghost predicate MutexIs(m: MutexObject, x: Mutex<TaskObject>)
    reads m
  {
    m.locked == x.locked && m.owner == OrNull(x.owner) && m.waitQueue == Head(x.wait)
  }

  ghost predicate TasksAre(tasks: map<TaskObject, Task<MutexObject>>)
    reads tasks.Keys`state, tasks.Keys`resumeMode, tasks.Keys`interruptRsp, tasks.Keys`wakeTick
  {
    forall t :: t in tasks ==> TaskIs(t, tasks[t])
  }

  ghost predicate MutexesAre(mutexes: map<MutexObject, Mutex<TaskObject>>)
    reads mutexes.Keys
  {
    forall m :: m in mutexes ==> MutexIs(m, mutexes[m])
  }

  lemma MutexFields(m: MutexObject, x: Mutex<TaskObject>)
    requires MutexIs(m, x)
    ensures m.locked == x.locked && m.owner == OrNull(x.owner) && m.waitQueue == Head(x.wait)
  {
  }

  /** Changing a mutex but not its line. */
  lemma SameWait(links: Links, s: Abstract, m: MutexObject, x: Mutex<TaskObject>)
    requires m in s.mutexes && x.wait == s.mutexes[m].wait && Threaded(links, s) && Apart(s) && Known(s)
    ensures var u := WithMutex(s, m, x); Threaded(links, u) && Apart(u) && Known(u)
  {
  }

  lemma WaiterFacts(s: Abstract, m: MutexObject)
    requires Inv(s) && m in s.mutexes && s.mutexes[m].wait != []
    ensures var next := s.mutexes[m].wait[0];
            next in s.tasks && s.tasks[next].state == Blocked && Remove(s.blocked, next) == s.blocked
  {
    var next := s.mutexes[m].wait[0];
    assert Consistent(s, m) && next in s.mutexes[m].wait;
    RemoveAbsent(s.blocked, next);
  }

  lemma SavedUnlisted(s: Abstract, u: Abstract)
    requires OnTask(s) && Unlisted(s, s.current.task)
    requires u.ready == s.ready && u.blocked == s.blocked && u.sleep == s.sleep && u.mutexes == s.mutexes
    requires u.current == s.current
    ensures Unlisted(u, s.current.task)
  {
  }

  lemma SweepUnlisted(s: Abstract, ticks: nat)
    requires Inv(s)
    ensures var u := Sweep(s.(ticks := ticks)); OnTask(u) ==> Unlisted(u, u.current.task)
  {
    if OnTask(s) {
      RunningUnlisted(s);
      DueMember(s.sleep, s.tasks, ticks, true, s.current.task);
      DueMember(s.sleep, s.tasks, ticks, false, s.current.task);
    }
  }

  lemma StillUnlisted(s: Abstract, t: TaskObject)
    requires Unlisted(s, t) && s.ready != []
    ensures Unlisted(s.(ready := s.ready[1..]), t) && s.ready[0] != t
  {
  }

  /** Popping first and appending then, as the code does, is appending first and popping then. */
  lemma PreemptParts(s: Abstract, frame: nat)
    requires OnTask(s) && s.ready != [] && s.ready[0] in s.tasks && s.ready[0] != s.current.task
    ensures
      var t, next := s.current.task, s.ready[0];
      var r := Me(s).(state := Ready, out := Preempted(frame));
      var popped := s.(ready := s.ready[1..]);
      var u := if Me(s).state == Running then Update(popped, t, r).(ready := s.ready[1..] + [t]) else popped;
      Preempt(s, frame) == Update(u, next, u.tasks[next].(state := Running)).(current := On(next), slice := 0)
  {
    assert (s.ready + [s.current.task])[1..] == s.ready[1..] + [s.current.task];
  }

  lemma NewTask(links: Links, s: Abstract, t: TaskObject, r: Task<MutexObject>)
    requires Threaded(links, s) && Apart(s) && Known(s) && t !in s.tasks && links.Keys == s.tasks.Keys
    ensures var u, l := Update(s, t, r), links[t := null];
            Threaded(l, u) && Apart(u) && Known(u) && Unlisted(u, t) && l.Keys == u.tasks.Keys
  {
    var l := links[t := null];
    ThreadKept(links, l, s.ready);
    ThreadKept(links, l, s.blocked);
    ThreadKept(links, l, s.sleep);
    forall m | m in s.mutexes ensures Thread(l, s.mutexes[m].wait) {
      ThreadKept(links, l, s.mutexes[m].wait);
    }
  }

  lemma RunningUnlisted(s: Abstract)
    requires Inv(s) && OnTask(s)
    ensures Unlisted(s, s.current.task) && Me(s).state == Running
  {
    forall m | m in s.mutexes ensures s.current.task !in s.mutexes[m].wait {
      assert Consistent(s, m);
    }
  }

  /** The lists of the two states are the same. */
  lemma SameLists(links: Links, s: Abstract, u: Abstract)
    requires u.ready == s.ready && u.blocked == s.blocked && u.sleep == s.sleep && u.mutexes == s.mutexes
    requires s.tasks.Keys <= u.tasks.Keys && Threaded(links, s) && Apart(s) && Known(s)
    ensures Threaded(links, u) && Apart(u) && Known(u)
    ensures forall t: TaskObject :: Unlisted(s, t) ==> Unlisted(u, t)
  {
  }

  class Scheduler {
    const idle: TaskObject
    var readyQueue: TaskObject?
    var blockedQueue: TaskObject?
    var sleepQueue: TaskObject?
    var currentTask: TaskObject?
    var preemptionTicks: nat
    var systemTicks: nat
    ghost var abs: Abstract
    /** The `next` fields of all tasks. */
    ghost var links: Links

    /** `scheduler_init`, with the idle task that it creates. */
    constructor (idle: TaskObject, ghost mutexes: set<MutexObject>)
      requires forall m :: m in mutexes ==> !m.locked && m.owner == null && m.waitQueue == null
      ensures Valid() && abs == Initial(mutexes) && this.idle == idle
    {
      this.idle := idle;
      readyQueue, blockedQueue, sleepQueue, currentTask := null, null, null, null;
      preemptionTicks, systemTicks := 0, 0;
      abs, links := Initial(mutexes), map[];
      new;
      InitialInv<TaskObject, MutexObject>(mutexes);
    }

    ghost predicate CurrentMatches()
      reads this
    {
      match abs.current
      case Boot => currentTask == null
      case Idle => currentTask == idle
      case On(t) => currentTask == t && t in abs.tasks
    }

    ghost predicate Tied()
      reads this, links.Keys
    {
      forall t :: t in links ==> t.next == links[t]
    }

    /** The links are those of the tasks and spell all lists. */
    ghost predicate Linked()
      reads this, links.Keys
    {
      links.Keys == abs.tasks.Keys && Tied() && Threaded(links, abs) && Apart(abs) && Known(abs)
    }

    /** The queue heads, the task fields and the globals are exactly the abstract state. */
    ghost predicate Matches()
      reads this, abs.tasks.Keys, abs.mutexes.Keys
    {
      && idle !in abs.tasks && CurrentMatches()
      && preemptionTicks == abs.slice && systemTicks == abs.ticks
      && readyQueue == Head(abs.ready) && blockedQueue == Head(abs.blocked) && sleepQueue == Head(abs.sleep)
      && MutexesAre(abs.mutexes) && TasksAre(abs.tasks)
    }

    ghost predicate Valid()
      reads this, abs.tasks.Keys, abs.mutexes.Keys, links.Keys
    {
      Linked() && Matches() && Inv(abs)
    }

    /** `task_queue_push` on one of the lists. */
    method Append(head: TaskObject?, t: TaskObject, ghost q: seq<TaskObject>) returns (h: TaskObject?)
      requires Tied() && Thread(links, q) && head == Head(q) && t in links && t !in q
      modifies this`links, links.Keys`next
      ensures links == PushLinks(old(links), q, t) && links.Keys == old(links.Keys) && Tied() && h == Head(q + [t])
    {
      forall i | 0 <= i < |q| ensures q[i] in links && LinksOn(q, i) {
        ThreadAt(links, q, i);
      }
      ghost var r := q + [t];
      h := Push(head, t, q);
      links := PushLinks(links, q, t);
      ThreadPush(old(links), q, t);
      forall x | x in links ensures x.next == links[x] {
        if x in r {
          ghost var i :| 0 <= i < |r| && r[i] == x;
          ThreadAt(links, r, i);
          assert LinksOn(r, i);
        }
      }
    }

    /** `task_queue_remove` on one of the lists that holds the task. */
    method Unlink(head: TaskObject?, t: TaskObject, ghost q: seq<TaskObject>, ghost k: nat) returns (h: TaskObject?)
      requires Tied() && Thread(links, q) && head == Head(q) && k < |q| && q[k] == t
      modifies this`links, links.Keys`next
      ensures links == RemoveLinks(old(links), q, k) && links.Keys == old(links.Keys) && Tied()
      ensures h == Head(Remove(q, t))
    {
      hide Remove;
      forall i | 0 <= i < |q| ensures q[i] in links && LinksOn(q, i) {
        ThreadAt(links, q, i);
      }
      ghost var r := Remove(q, t);
      h := RemoveFrom(head, t, q);
      links := RemoveLinks(links, q, k);
      ThreadRemove(old(links), q, k);
      forall x | x in links ensures x.next == links[x] {
        RemoveMember(q, t, x);
        if x in r {
          ghost var i :| 0 <= i < |r| && r[i] == x;
          ThreadAt(links, r, i);
          assert LinksOn(r, i);
        } else if x in q {
          assert x == t;
        }
      }
    }

    /** Appending to the ready queue a task that is in no list. */
    method PushReady(t: TaskObject)
      requires Linked() && Matches() && t in abs.tasks && Unlisted(abs, t)
      modifies this`readyQueue, this`abs, this`links, links.Keys`next
      ensures Linked() && Matches() && abs == old(abs).(ready := old(abs).ready + [t])
    {
      hide Thread, Threaded, Apart, Known, PushLinks, Unlisted, TaskIs, MutexIs, TasksAre, MutexesAre;
      ThreadedPushReady(links, abs, t);
      readyQueue := Append(readyQueue, t, abs.ready);
      abs := abs.(ready := abs.ready + [t]);
    }

    method PushBlocked(t: TaskObject)
      requires Linked() && Matches() && t in abs.tasks && Unlisted(abs, t)
      modifies this`blockedQueue, this`abs, this`links, links.Keys`next
      ensures Linked() && Matches() && abs == old(abs).(blocked := old(abs).blocked + [t])
    {
      hide Thread, Threaded, Apart, Known, PushLinks, Unlisted, TaskIs, MutexIs, TasksAre, MutexesAre;
      ThreadedPushBlocked(links, abs, t);
      blockedQueue := Append(blockedQueue, t, abs.blocked);
      abs := abs.(blocked := abs.blocked + [t]);
    }

    /** `scheduler_sleep_queue_add` */
    method PushSleep(t: TaskObject)
      requires Linked() && Matches() && t in abs.tasks && Unlisted(abs, t)
      modifies this`sleepQueue, this`abs, this`links, links.Keys`next
      ensures Linked() && Matches() && abs == old(abs).(sleep := old(abs).sleep + [t])
    {
      hide Thread, Threaded, Apart, Known, PushLinks, Unlisted, TaskIs, MutexIs, TasksAre, MutexesAre;
      ThreadedPushSleep(links, abs, t);
      sleepQueue := Append(sleepQueue, t, abs.sleep);
      abs := abs.(sleep := abs.sleep + [t]);
    }

    /** `scheduler_ready_queue_pop` on a queue that is not empty. */
    method PopReady() returns (t: TaskObject)
      requires Linked() && Matches() && abs.ready != []
      modifies this`readyQueue, this`abs, this`links, links.Keys`next
      ensures Linked() && Matches() && t == old(abs).ready[0] && abs == old(abs).(ready := old(abs).ready[1..])
    {
      hide Thread, Threaded, Apart, Known, Unlisted, TaskIs, MutexIs, Head, Remove, RemoveLinks, TasksAre, MutexesAre;
      ghost var s := abs;
      ThreadedRemoveReady(links, s, 0);
      t := readyQueue;
      readyQueue := t.next;
      t.next := null;
      links := links[t := null];
      abs := s.(ready := s.ready[1..]);
    }

    method RemoveBlocked(t: TaskObject, ghost k: nat)
      requires Linked() && Matches() && k < |abs.blocked| && abs.blocked[k] == t
      modifies this`blockedQueue, this`abs, this`links, links.Keys`next
      ensures Linked() && Matches() && abs == old(abs).(blocked := Remove(old(abs).blocked, t)) && Unlisted(abs, t)
    {
      hide Thread, Threaded, Apart, Known, Unlisted, TaskIs, MutexIs, Remove, RemoveLinks, TasksAre, MutexesAre;
      ThreadedRemoveBlocked(links, abs, k);
      blockedQueue := Unlink(blockedQueue, t, abs.blocked, k);
      abs := abs.(blocked := Remove(abs.blocked, t));
    }

    method RemoveSleep(t: TaskObject, ghost k: nat)
      requires Linked() && Matches() && k < |abs.sleep| && abs.sleep[k] == t
      modifies this`sleepQueue, this`abs, this`links, links.Keys`next
      ensures Linked() && Matches() && abs == old(abs).(sleep := Remove(old(abs).sleep, t)) && Unlisted(abs, t)
    {
      hide Thread, Threaded, Apart, Known, Unlisted, TaskIs, MutexIs, Remove, RemoveLinks, TasksAre, MutexesAre;
      ThreadedRemoveSleep(links, abs, k);
      sleepQueue := Unlink(sleepQueue, t, abs.sleep, k);
      abs := abs.(sleep := Remove(abs.sleep, t));
    }

    method SetState(t: TaskObject, state: TaskState, ghost out: SwitchOut)
      requires Linked() && Matches() && t in abs.tasks
      modifies this`abs, t`state
      ensures Linked() && Matches()
      ensures abs == Update(old(abs), t, old(abs).tasks[t].(state := state, out := out))
      ensures Unlisted(old(abs), t) ==> Unlisted(abs, t)
    {
      hide Thread, Threaded, Apart, Known, Unlisted, MutexIs, Head, MutexesAre;
      ghost var s := abs;
      t.state := state;
      abs := Update(s, t, s.tasks[t].(state := state, out := out));
      SameLists(links, s, abs);
    }

    static method WriteResume(t: TaskObject, mode: ResumeMode, frame: nat,
                              ghost tasks: map<TaskObject, Task<MutexObject>>)
      requires TasksAre(tasks) && t in tasks
      modifies t`interruptRsp, t`resumeMode
      ensures TasksAre(tasks[t := tasks[t].(mode := mode, frame := frame)])
    {
      t.interruptRsp := frame;
      t.resumeMode := mode;
    }

    /** `scheduler_reset_resume_state` */
    method ResetResumeState(t: TaskObject)
      requires Linked() && Matches() && t in abs.tasks
      modifies this`abs, t`interruptRsp, t`resumeMode
      ensures Linked() && Matches()
      ensures abs == Update(old(abs), t, old(abs).tasks[t].(mode := Context, frame := 0))
      ensures Unlisted(old(abs), t) ==> Unlisted(abs, t)
    {
      hide Thread, Threaded, Apart, Known, Unlisted, MutexIs, Head, MutexesAre, TasksAre;
      ghost var s := abs;
      WriteResume(t, Context, 0, s.tasks);
      abs := Update(s, t, s.tasks[t].(mode := Context, frame := 0));
      SameLists(links, s, abs);
    }

    /** `scheduler_switch_to` */
    method SwitchTo(next: TaskObject)
      requires Linked() && Matches() && (next == idle || next in abs.tasks)
      modifies this`abs, this`currentTask, this`preemptionTicks, (if next == idle then {} else {next})`state
      ensures Linked() && Matches()
      ensures next == idle ==> abs == old(abs).(current := Idle, slice := 0)
      ensures next != idle ==>
        abs == Update(old(abs), next, old(abs).tasks[next].(state := Running)).(current := On(next), slice := 0)
    {
      hide Thread, Threaded, Apart, Known, Unlisted, MutexIs, TaskIs, Head, TasksAre, MutexesAre;
      if next != idle {
        SetState(next, Running, abs.tasks[next].out);
      }
      ghost var s := abs;
      currentTask := next;
      preemptionTicks := 0;
      abs := s.(current := if next == idle then Idle else On(next), slice := 0);
      SameLists(links, s, abs);
    }

    /** `scheduler_schedule` */
    method Schedule()
      requires Linked() && Matches()
      modifies this, abs.tasks.Keys
      ensures Linked() && Matches() && abs == SchedulerModel.Dispatch(old(abs))
    {
      hide Thread, Threaded, Apart, Unlisted, MutexIs, TaskIs, TasksAre, MutexesAre;
      var next := if readyQueue != null then readyQueue else idle;
      if next != idle {
        assert abs.ready[0] in abs.ready;
        next := PopReady();
      }
      SwitchTo(next);
    }

    /** `scheduler_yield` */
    method Yield()
      requires Linked() && Matches()
      requires OnTask(abs) && Me(abs).state == Running ==> Unlisted(abs, abs.current.task)
      modifies this, abs.tasks.Keys
      ensures Linked() && Matches() && abs == SchedulerModel.Yield(old(abs))
    {
      hide Thread, Threaded, Apart, Unlisted, MutexIs, Dispatch, MutexesAre;
      var previous := currentTask;
      if previous != null && previous != idle && previous.state == Running {
        ghost var s, r := abs, abs.tasks[previous];
        SetState(previous, Ready, Voluntary);
        ResetResumeState(previous);
        UpdateTwice(s, previous, r.(state := Ready, out := Voluntary), Readied(r).(out := Voluntary));
        PushReady(previous);
      }
      Schedule();
    }

    /** `scheduler_sleep` */
    method Sleep(n: nat)
      requires Valid() && Enabled(abs, DoSleep(n))
      modifies this, abs.tasks.Keys
      ensures Valid() && abs == Apply(old(abs), DoSleep(n))
    {
      hide Inv, SchedulerModel.SleepUntil;
      StepInv(abs, DoSleep(n));
      SleepUntil((systemTicks + n) % U64_LIMIT);
    }

    method SleepUntil(wake: nat)
      requires Linked() && Matches() && Inv(abs) && OnTask(abs)
      modifies this, abs.tasks.Keys
      ensures Linked() && Matches() && abs == SchedulerModel.SleepUntil(old(abs), wake)
    {
      hide Thread, Threaded, Apart, Unlisted, MutexIs, Inv, SchedulerModel.Yield, MutexesAre;
      ghost var s := abs;
      RunningUnlisted(s);
      var t := currentTask;
      ghost var r := s.tasks[t].(wake := wake);
      SetWake(t, wake);
      SetState(t, Sleeping, Voluntary);
      UpdateTwice(s, t, r, r.(state := Sleeping, out := Voluntary));
      PushSleep(t);
      Yield();
    }

    method SetWake(t: TaskObject, wake: nat)
      requires Linked() && Matches() && t in abs.tasks
      modifies this`abs, t`wakeTick
      ensures Linked() && Matches() && abs == Update(old(abs), t, old(abs).tasks[t].(wake := wake))
      ensures Unlisted(old(abs), t) ==> Unlisted(abs, t)
    {
      hide Thread, Threaded, Apart, Known, Unlisted, MutexIs, Head, MutexesAre;
      ghost var s := abs;
      t.wakeTick := wake;
      abs := Update(s, t, s.tasks[t].(wake := wake));
      SameLists(links, s, abs);
    }

    /** `scheduler_block_current` */
    method Block()
      requires Valid() && Enabled(abs, DoBlock)
      modifies this, abs.tasks.Keys
      ensures Valid() && abs == Apply(old(abs), DoBlock)
    {
      hide Thread, Threaded, Apart, Unlisted, MutexIs, Inv, SchedulerModel.Yield, MutexesAre;
      StepInv(abs, DoBlock);
      RunningUnlisted(abs);
      var t := currentTask;
      SetState(t, Blocked, Voluntary);
      PushBlocked(t);
      Yield();
    }

    /** `task_exit` */
    method Exit()
      requires Valid() && Enabled(abs, DoExit)
      modifies this, abs.tasks.Keys
      ensures Valid() && abs == Apply(old(abs), DoExit)
    {
      hide Thread, Threaded, Apart, Unlisted, MutexIs, Inv, SchedulerModel.Yield, MutexesAre;
      StepInv(abs, DoExit);
      SetState(currentTask, Terminated, Voluntary);
      Yield();
    }

    /** `scheduler_yield` as a task, idle or the boot code calls it. */
    method YieldStep()
      requires Valid() && Enabled(abs, DoYield)
      modifies this, abs.tasks.Keys
      ensures Valid() && abs == Apply(old(abs), DoYield)
    {
      hide Inv, Unlisted, SchedulerModel.Yield;
      StepInv(abs, DoYield);
      if OnTask(abs) {
        RunningUnlisted(abs);
      }
      Yield();
    }

    /** `scheduler_unblock` on a task of the blocked queue. */
    method Unblock(t: TaskObject)
      requires Valid() && Enabled(abs, DoUnblock(t))
      modifies this, abs.tasks.Keys
      ensures Valid() && abs == Apply(old(abs), DoUnblock(t))
    {
      hide Thread, Threaded, Apart, Unlisted, MutexIs, Inv, Remove, MutexesAre;
      ghost var s := abs;
      StepInv(s, DoUnblock(t));
      assert TaskIs(t, s.tasks[t]);
      if t.state != Blocked {
        return;
      }
      ghost var k :| 0 <= k < |s.blocked| && s.blocked[k] == t;
      RemoveBlocked(t, k);
      MakeReady(t);
    }

    /** The wake-up that unblocking, the hand-off and the sleep sweep share: ready, context mode, last in line. */
    method MakeReady(t: TaskObject)
      requires Linked() && Matches() && t in abs.tasks && Unlisted(abs, t)
      modifies this`abs, this`links, this`readyQueue, t`state, t`interruptRsp, t`resumeMode, links.Keys`next
      ensures Linked() && Matches()
      ensures abs == Update(old(abs), t, Readied(old(abs).tasks[t])).(ready := old(abs).ready + [t])
    {
      hide Thread, Threaded, Apart, Unlisted, MutexIs, TaskIs, TasksAre, MutexesAre;
      ghost var s, r := abs, abs.tasks[t];
      SetState(t, Ready, r.out);
      ResetResumeState(t);
      UpdateTwice(s, t, r.(state := Ready), Readied(r));
      PushReady(t);
    }

    /** `scheduler_add_task` on a task fresh from task_create. */
    method AddTask(t: TaskObject)
      requires Valid() && Enabled(abs, DoAdd(t)) && t != idle
      requires t.next == null && TaskIs(t, Task(Ready, Context, 0, 0, None, Never))
      modifies this, abs.tasks.Keys, t
      ensures Valid() && abs == Apply(old(abs), DoAdd(t))
    {
      hide Inv, Matches, Unlisted, TaskIs, Threaded, Apart, Known, TasksAre;
      StepInv(abs, DoAdd(t));
      Register(t);
      PushReady(t);
    }

    static method WriteReady(t: TaskObject, ghost tasks: map<TaskObject, Task<MutexObject>>, ghost r: Task<MutexObject>)
      requires TasksAre(tasks) && t !in tasks && TaskIs(t, r) && r.state == Ready
      modifies t`state
      ensures TasksAre(tasks[t := r])
    {
      t.state := Ready;
    }

    /** The fresh task gets its record. */
    method Register(t: TaskObject)
      requires Linked() && Matches() && t !in abs.tasks && t != idle
      requires t.next == null && TaskIs(t, Task(Ready, Context, 0, 0, None, Never))
      modifies this`abs, this`links, t`state
      ensures Linked() && Matches() && abs == Update(old(abs), t, Task(Ready, Context, 0, 0, None, Never))
      ensures Unlisted(abs, t) && links == old(links)[t := null]
    {
      hide Thread, MutexIs, Head, Threaded, Apart, Known, Unlisted, MutexesAre, TasksAre;
      ghost var s := abs;
      ghost var r: Task<MutexObject> := Task(Ready, Context, 0, 0, None, Never);
      NewTask(links, s, t, r);
      WriteReady(t, s.tasks, r);
      links := links[t := null];
      abs := Update(s, t, r);
    }

    /** `scheduler_save_interrupt_context` */
    method SaveInterruptContext(frame: nat)
      requires Linked() && Matches()
      modifies this`abs, abs.tasks.Keys`interruptRsp, abs.tasks.Keys`resumeMode
      ensures Linked() && Matches() && abs == Save(old(abs), frame)
    {
      hide Thread, Threaded, Apart, Known, Unlisted, MutexIs, Head, MutexesAre, TasksAre;
      if currentTask == null || currentTask == idle {
        return;
      }
      ghost var s := abs;
      WriteResume(currentTask, Interrupt, frame, s.tasks);
      abs := Save(s, frame);
      SameLists(links, s, abs);
    }

    /** An interrupt that is not the timer's. */
    method OtherInterrupt(frame: nat)
      requires Valid() && Enabled(abs, DoIrq(frame))
      modifies this, abs.tasks.Keys
      ensures Valid() && abs == Apply(old(abs), DoIrq(frame))
    {
      hide Inv, Save;
      StepInv(abs, DoIrq(frame));
      SaveInterruptContext(frame);
    }

    /** `scheduler_preempt`: whether the time slice is used up and somebody is waiting. */
    method CheckSlice() returns (requested: bool)
      requires Linked() && Matches()
      modifies this`abs, this`preemptionTicks
      ensures Linked() && Matches()
      ensures !OnTask(old(abs)) ==> !requested && abs == old(abs)
      ensures OnTask(old(abs)) ==>
        var used := old(abs).slice + 1 >= TIME_SLICE;
        && abs == old(abs).(slice := if used then 0 else old(abs).slice + 1)
        && (requested <==> used && old(abs).ready != [])
    {
      hide Thread, Threaded, Apart, Known, Unlisted, MutexIs, TaskIs, TasksAre, MutexesAre;
      if currentTask == null || currentTask == idle {
        return false;
      }
      ghost var s := abs;
      preemptionTicks := preemptionTicks + 1;
      if preemptionTicks < TIME_SLICE {
        abs := s.(slice := s.slice + 1);
        SameLists(links, s, abs);
        return false;
      }
      preemptionTicks := 0;
      abs := s.(slice := 0);
      SameLists(links, s, abs);
      return readyQueue != null;
    }

    /** `scheduler_get_next_interrupt_rsp` after a request, and `scheduler_commit_pending_task`. Every kernel
        task has a frame or a context to build one from, so the switch always happens. */
    method SwitchInInterrupt(ghost frame: nat)
      requires Linked() && Matches() && OnTask(abs) && abs.ready != [] && Unlisted(abs, abs.current.task)
      modifies this, abs.tasks.Keys
      ensures Linked() && Matches() && abs == Preempt(old(abs), frame)
    {
      hide Thread, Threaded, Apart, MutexIs, Unlisted, MutexesAre;
      ghost var s := abs;
      var previous := currentTask;
      assert s.ready[0] in s.ready;
      StillUnlisted(s, previous);
      PreemptParts(s, frame);
      var next := PopReady();
      if previous.state == Running {
        SetState(previous, Ready, Preempted(frame));
        PushReady(previous);
      }
      SwitchTo(next);
    }

    /** `scheduler_check_sleeping_tasks`: removing from the list while walking it. */
    method CheckSleepingTasks()
      requires Linked() && Matches()
      modifies this, abs.tasks.Keys
      ensures Linked() && Matches() && abs == Sweep(old(abs)) && abs.tasks.Keys == old(abs.tasks.Keys)
    {
      hide Apart, MutexIs, Unlisted, Sweep, SweepTo, Due, MutexesAre;
      ghost var s := abs;
      SweepBounds(s);
      var task := sleepQueue;
      ghost var i := 0;
      while task != null
        invariant Linked() && Matches() && i <= |s.sleep| && abs == SweepTo(s, i) && task == Head(s.sleep[i..])
        invariant abs.tasks.Keys == s.tasks.Keys
        decreases |s.sleep| - i
      {
        task := CheckOne(task, s, i);
        i := i + 1;
      }
    }

    /** One turn of that loop. */
    method CheckOne(task: TaskObject, ghost s: Abstract, ghost i: nat) returns (next: TaskObject?)
      requires Linked() && Matches() && i < |s.sleep| && task == s.sleep[i] && Distinct(s.sleep) && task in s.tasks
      requires abs == SweepTo(s, i)
      modifies this, abs.tasks.Keys
      ensures Linked() && Matches() && abs == SweepTo(s, i + 1) && next == Head(s.sleep[i + 1..])
      ensures abs.tasks.Keys == old(abs.tasks.Keys)
    {
      hide Apart, MutexIs, Unlisted, SweepTo, Remove, MutexesAre;
      SweepStep(s, i);
      ghost var k := |Due(s.sleep[..i], s.tasks, s.ticks, false)|;
      ghost var w := abs;
      ThreadAt(links, w.sleep, k);
      next := task.next;
      assert next == Head(w.sleep[k + 1..]);
      if systemTicks >= task.wakeTick {
        RemoveSleep(task, k);
        MakeReady(task);
      }
    }

    /** The timer interrupt: pit_irq_handler, then the exit path of common_isr_entry. */
    method TimerInterrupt(frame: nat)
      requires Valid() && Enabled(abs, DoTick(frame))
      modifies this, abs.tasks.Keys
      ensures Valid() && abs == Apply(old(abs), DoTick(frame))
    {
      hide Inv, Linked, Sweep, Serve;
      ghost var s := abs;
      StepInv(s, DoTick(frame));
      SweepUnlisted(s, (s.ticks + 1) % U64_LIMIT);
      AdvanceClock();
      CheckSleepingTasks();
      ServeInterrupt(frame);
    }

    method AdvanceClock()
      requires Linked() && Matches()
      modifies this`abs, this`systemTicks
      ensures Linked() && Matches() && abs == old(abs).(ticks := (old(abs).ticks + 1) % U64_LIMIT)
    {
      hide Thread, Threaded, Apart, Known, Unlisted, MutexIs, TaskIs, TasksAre, MutexesAre;
      ghost var s := abs;
      systemTicks := (systemTicks + 1) % U64_LIMIT;
      abs := s.(ticks := (s.ticks + 1) % U64_LIMIT);
      SameLists(links, s, abs);
    }

    /** What the timer interrupt does after the sleepers. */
    method ServeInterrupt(frame: nat)
      requires Linked() && Matches() && (OnTask(abs) ==> Unlisted(abs, abs.current.task))
      modifies this, abs.tasks.Keys
      ensures Linked() && Matches() && abs == Serve(old(abs), frame)
    {
      hide Thread, Threaded, Apart, Known, Unlisted, MutexIs, TaskIs, Preempt, TasksAre, MutexesAre;
      ghost var s := abs;
      var requested := CheckSlice();
      SaveInterruptContext(frame);
      if requested {
        SavedUnlisted(s, abs);
        SwitchInInterrupt(frame);
      }
    }

    /** mutex.c:49: joining the line of a mutex. */
    method PushWait(m: MutexObject, t: TaskObject)
      requires Linked() && Matches() && t in abs.tasks && Unlisted(abs, t) && m in abs.mutexes
      modifies this`abs, this`links, m, links.Keys`next
      ensures Linked() && Matches()
      ensures var x := old(abs).mutexes[m];
              abs == WithMutex(old(abs), m, x.(wait := x.wait + [t], arrivals := x.arrivals + [t]))
    {
      hide Thread, Threaded, Apart, Known, PushLinks, Unlisted, TaskIs, MutexIs, TasksAre;
      ghost var s, x := abs, abs.mutexes[m];
      ghost var y := x.(wait := x.wait + [t], arrivals := x.arrivals + [t]);
      ThreadedPushWait(links, s, m, t, y);
      MutexFields(m, x);
      var head := Append(m.waitQueue, t, x.wait);
      SetMutex(m, m.locked, m.owner, head, y);
    }

    static method WriteMutex(m: MutexObject, locked: bool, owner: TaskObject?, head: TaskObject?,
                             ghost mutexes: map<MutexObject, Mutex<TaskObject>>, ghost y: Mutex<TaskObject>)
      requires MutexesAre(mutexes) && locked == y.locked && owner == OrNull(y.owner) && head == Head(y.wait)
      modifies m
      ensures MutexesAre(mutexes[m := y])
    {
      m.locked, m.owner, m.waitQueue := locked, owner, head;
    }

    method SetMutex(m: MutexObject, locked: bool, owner: TaskObject?, head: TaskObject?, ghost y: Mutex<TaskObject>)
      requires links.Keys == abs.tasks.Keys && Tied() && Matches() && m in abs.mutexes
      requires var u := WithMutex(abs, m, y); Threaded(links, u) && Apart(u) && Known(u)
      requires locked == y.locked && owner == OrNull(y.owner) && head == Head(y.wait)
      modifies this`abs, m
      ensures Linked() && Matches() && abs == WithMutex(old(abs), m, y)
    {
      hide Thread, Threaded, Apart, Known, TaskIs, Head, OrNull, TasksAre, MutexesAre;
      WriteMutex(m, locked, owner, head, abs.mutexes, y);
      abs := WithMutex(abs, m, y);
    }

    /** One turn of the loop of `mutex_lock`. */
    method LockTurn(m: MutexObject)
      requires Linked() && Matches() && Inv(abs) && OnTask(abs) && m in abs.mutexes
      modifies this, abs.tasks.Keys, abs.mutexes.Keys
      ensures Linked() && Matches() && abs == SchedulerModel.LockTurn(old(abs), m)
    {
      hide Thread, Threaded, Apart, Known, Unlisted, Inv, TaskIs, SchedulerModel.Yield, TasksAre;
      RunningUnlisted(abs);
      var t := currentTask;
      assert MutexIs(m, abs.mutexes[m]);
      if m.owner == t {
        SetWaiting(t, None);
        return;
      }
      if !m.locked {
        SetWaiting(t, None);
        Acquire(m, t);
        return;
      }
      WaitOn(m, t);
    }

    /** mutex.c:48-53 */
    method WaitOn(m: MutexObject, t: TaskObject)
      requires Linked() && Matches() && abs.current == On(t) && t in abs.tasks && Unlisted(abs, t) && m in abs.mutexes
      modifies this, abs.tasks.Keys, abs.mutexes.Keys
      ensures Linked() && Matches()
      ensures abs == SchedulerModel.Yield(Enqueue(old(abs), m))
    {
      hide Thread, Threaded, Apart, Known, Unlisted, TaskIs, MutexIs, SchedulerModel.Yield, TasksAre, MutexesAre;
      ghost var s := abs;
      ghost var r := s.tasks[t].(state := Blocked, out := Voluntary);
      SetState(t, Blocked, Voluntary);
      SetWaiting(t, Some(m));
      UpdateTwice(s, t, r, r.(waiting := Some(m)));
      PushWait(m, t);
      Yield();
    }

    /** The program counter of the task moves in or out of the loop; no field changes. */
    ghost method SetWaiting(t: TaskObject, waiting: Option<MutexObject>)
      requires Linked() && Matches() && t in abs.tasks
      modifies this`abs
      ensures Linked() && Matches() && abs == Update(old(abs), t, old(abs).tasks[t].(waiting := waiting))
      ensures Unlisted(old(abs), t) ==> Unlisted(abs, t)
    {
      hide Thread, Threaded, Apart, Known, Unlisted, MutexIs, MutexesAre;
      var s := abs;
      abs := Update(s, t, s.tasks[t].(waiting := waiting));
      SameLists(links, s, abs);
    }

    method Acquire(m: MutexObject, t: TaskObject)
      requires Linked() && Matches() && m in abs.mutexes
      modifies this`abs, m
      ensures Linked() && Matches()
      ensures abs == WithMutex(old(abs), m, old(abs).mutexes[m].(locked := true, owner := Some(t)))
    {
      hide Thread, Threaded, Apart, Known, Unlisted, TaskIs, MutexIs, TasksAre;
      ghost var x := abs.mutexes[m];
      MutexFields(m, x);
      SameWait(links, abs, m, x.(locked := true, owner := Some(t)));
      SetMutex(m, true, t, m.waitQueue, x.(locked := true, owner := Some(t)));
    }

    /** A call of `mutex_lock`, up to its return or its first wait. */
    method Lock(m: MutexObject)
      requires Valid() && Enabled(abs, DoLock(m))
      modifies this, abs.tasks.Keys, abs.mutexes.Keys
      ensures Valid() && abs == Apply(old(abs), DoLock(m))
    {
      hide Inv, SchedulerModel.LockTurn;
      StepInv(abs, DoLock(m));
      LockTurn(m);
    }

    /** A waiter that runs again goes through the loop of `mutex_lock` once more. */
    method Retry(m: MutexObject)
      requires Valid() && Enabled(abs, DoRetry) && Me(abs).waiting == Some(m)
      modifies this, abs.tasks.Keys, abs.mutexes.Keys
      ensures Valid() && abs == Apply(old(abs), DoRetry)
    {
      hide Inv, SchedulerModel.LockTurn;
      StepInv(abs, DoRetry);
      RetryOwns(abs);
      LockTurn(m);
    }

    /** `mutex_unlock` */
    method Unlock(m: MutexObject)
      requires Valid() && Enabled(abs, DoUnlock(m))
      modifies this, abs.tasks.Keys, abs.mutexes.Keys
      ensures Valid() && abs == Apply(old(abs), DoUnlock(m))
    {
      hide Thread, Threaded, Apart, Known, Unlisted, Inv, Remove;
      ghost var s, x := abs, abs.mutexes[m];
      StepInv(s, DoUnlock(m));
      assert MutexIs(m, x);
      if m.owner != currentTask {
        return;
      }
      if m.waitQueue == null {
        Drop(m);
        return;
      }
      HandOff(m);
    }

    method Drop(m: MutexObject)
      requires Linked() && Matches() && m in abs.mutexes
      modifies this`abs, m
      ensures Linked() && Matches()
      ensures abs == WithMutex(old(abs), m, old(abs).mutexes[m].(locked := false, owner := None))
    {
      hide Thread, Threaded, Apart, Known, Unlisted, TaskIs, MutexIs, TasksAre;
      ghost var x := abs.mutexes[m];
      MutexFields(m, x);
      SameWait(links, abs, m, x.(locked := false, owner := None));
      SetMutex(m, false, null, m.waitQueue, x.(locked := false, owner := None));
    }

    /** mutex.c:83-89: the first waiter becomes the owner and is made ready. */
    method HandOff(m: MutexObject)
      requires Linked() && Matches() && Inv(abs) && m in abs.mutexes && abs.mutexes[m].wait != [] && OnTask(abs)
      requires abs.mutexes[m].owner == Some(abs.current.task)
      modifies this, abs.tasks.Keys, abs.mutexes.Keys
      ensures Linked() && Matches() && abs == SchedulerModel.Unlock(old(abs), m)
    {
      hide Thread, Threaded, Apart, Known, Unlisted, Inv, Remove;
      ghost var s := abs;
      assert MutexIs(m, s.mutexes[m]);
      WaiterFacts(s, m);
      var next := m.waitQueue;
      TakeWaiter(m, next);
      MakeReady(next);
    }

    /** mutex.c:85-87 */
    method TakeWaiter(m: MutexObject, next: TaskObject)
      requires Linked() && Matches() && m in abs.mutexes && abs.mutexes[m].wait != [] && abs.mutexes[m].wait[0] == next
      modifies this`abs, this`links, m, links.Keys`next
      ensures Linked() && Matches() && Unlisted(abs, next)
      ensures var x := old(abs).mutexes[m];
              abs == WithMutex(old(abs), m, x.(wait := x.wait[1..], owner := Some(next), grants := x.grants + [next]))
    {
      hide Thread, Threaded, Apart, Known, Unlisted, TaskIs, RemoveLinks, MutexIs, Remove, TasksAre;
      ghost var s, x := abs, abs.mutexes[m];
      ghost var y := x.(wait := x.wait[1..], owner := Some(next), grants := x.grants + [next]);
      ThreadedTakeWaiter(links, s, m, y);
      MutexFields(m, x);
      var head := Unlink(m.waitQueue, next, x.wait, 0);
      SetMutex(m, m.locked, next, head, y);
    }
  }
}
