/** kernel/src/scheduler/queue.c: intrusive singly linked lists through the one `next` field of a task. */
module TaskQueues {
  import opened SchedulerModel

  class TaskObject {
    var next: TaskObject?
    var state: TaskState
    var resumeMode: ResumeMode
    var interruptRsp: nat
    var wakeTick: nat

    /** The fields that `task_create` sets for the scheduler. */
    constructor ()
      ensures next == null && state == Ready && resumeMode == Context && interruptRsp == 0 && wakeTick == 0
    {
      next, state, resumeMode, interruptRsp, wakeTick := null, Ready, Context, 0, 0;
    }
  }

  /** Element `i` links to its successor, the last one to NULL. */
  ghost predicate LinksOn(q: seq<TaskObject>, i: int)
    requires 0 <= i < |q|
    reads q`next
  {
    q[i].next == if i + 1 < |q| then q[i + 1] else null
  }

  ghost function Head(q: seq<TaskObject>): TaskObject? {
    if q == [] then null else q[0]
  }

  /** The list from `head` is exactly `q`: acyclic and without repetition. */
  ghost predicate IsList(head: TaskObject?, q: seq<TaskObject>)
    reads q`next
  {
    && head == Head(q) && Distinct(q)
    && forall i :: 0 <= i < |q| ==> LinksOn(q, i)
  }

  /** `task_queue_push` */
  method Push(head: TaskObject?, task: TaskObject, ghost q: seq<TaskObject>) returns (h: TaskObject?)
    requires IsList(head, q) && task !in q
    modifies task`next, q`next
    ensures IsList(h, q + [task])
  {
    task.next := null;
    ghost var r := q + [task];
    if head == null {
      assert LinksOn(r, 0);
      return task;
    }
    var current := head;
    ghost var i := 0;
    assert LinksOn(q, 0);
    while current.next != null
      invariant i < |q| && current == q[i]
      invariant forall k :: 0 <= k < |q| ==> LinksOn(q, k)
      invariant task.next == null
      decreases |q| - i
    {
      assert LinksOn(q, i);
      current := current.next;
      i := i + 1;
    }
    assert LinksOn(q, i);
    current.next := task;
    forall k | 0 <= k < |r| ensures LinksOn(r, k) {
      if k < |q| - 1 {
        assert q[k] != q[i];
        assert old(LinksOn(q, k));
      }
    }
    return head;
  }

  /** `task_queue_remove` */
  method RemoveFrom(head: TaskObject?, task: TaskObject, ghost q: seq<TaskObject>) returns (h: TaskObject?)
    requires IsList(head, q)
    modifies q`next
    ensures IsList(h, Remove(q, task))
    ensures task in q ==> task.next == null
  {
    ghost var r := Remove(q, task);
    RemoveMembers(q, task);
    if head == null {
      return null;
    }
    assert LinksOn(q, 0);
    if head == task {
      h := task.next;
      task.next := null;
      forall k | 0 <= k < |r| ensures LinksOn(r, k) {
        assert old(LinksOn(q, k + 1));
      }
      return;
    }
    var current := head;
    ghost var i := 0;
    while current.next != null
      invariant i < |q| && current == q[i]
      invariant forall k :: 0 <= k < |q| ==> LinksOn(q, k)
      invariant forall k :: 0 <= k <= i ==> q[k] != task
      decreases |q| - i
    {
      assert LinksOn(q, i);
      if current.next == task {
        assert LinksOn(q, i + 1);
        RemoveAt(q, i + 1);
        current.next := task.next;
        task.next := null;
        forall k | 0 <= k < |r| ensures LinksOn(r, k) {
          if k <= i {
            assert old(LinksOn(q, k));
          } else {
            assert old(LinksOn(q, k + 1));
          }
        }
        return head;
      }
      current := current.next;
      i := i + 1;
    }
    assert LinksOn(q, i);
    RemoveAbsent(q, task);
    return head;
  }

  lemma {:induction false} RemoveAt<T>(q: seq<T>, k: nat)
    requires k < |q| && Distinct(q)
    ensures Remove(q, q[k]) == q[..k] + q[k + 1..]
  {
    if k > 0 {
      assert q[0] != q[k];
      RemoveAt(q[1..], k - 1);
      assert q[1..][..k - 1] == q[1..k] && q[1..][k..] == q[k + 1..];
    }
  }

  // ----- the link fields of all tasks as a value -----

  type Links = map<TaskObject, TaskObject?>

  ghost function Successor(q: seq<TaskObject>, i: int): TaskObject?
    requires 0 <= i < |q|
  {
    if i + 1 < |q| then q[i + 1] else null
  }

  /** Following the links from the first element of `q` gives `q`. */
  ghost predicate Thread(links: Links, q: seq<TaskObject>) {
    Distinct(q) && forall i {:trigger Successor(q, i)} :: 0 <= i < |q| ==>
        q[i] in links && links[q[i]] == Successor(q, i)
  }

  lemma ThreadAt(links: Links, q: seq<TaskObject>, i: nat)
    requires Thread(links, q) && i < |q|
    ensures q[i] in links && links[q[i]] == Successor(q, i) && q[i] in q
  {
  }

  ghost function PushLinks(links: Links, q: seq<TaskObject>, t: TaskObject): Links {
    if q == [] then links[t := null] else links[t := null][q[|q| - 1] := t]
  }

  ghost function RemoveLinks(links: Links, q: seq<TaskObject>, k: nat): Links
    requires k < |q|
  {
    if k == 0 then links[q[0] := null] else links[q[k - 1] := Successor(q, k)][q[k] := null]
  }

  lemma ThreadPush(links: Links, q: seq<TaskObject>, t: TaskObject)
    requires Thread(links, q) && t !in q
    ensures Thread(PushLinks(links, q, t), q + [t])
  {
    var r := q + [t];
    forall i | 0 <= i < |r| ensures r[i] in PushLinks(links, q, t) && PushLinks(links, q, t)[r[i]] == Successor(r, i) {
      if i < |q| {
        ThreadAt(links, q, i);
      }
    }
  }

  /** The list without its element `k`. */
  ghost function Without<T>(q: seq<T>, k: nat): seq<T>
    requires k < |q|
  {
    q[..k] + q[k + 1..]
  }

  lemma WithoutDistinct<T>(q: seq<T>, k: nat)
    requires Distinct(q) && k < |q|
    ensures Distinct(Without(q, k))
  {
    var r := Without(q, k);
    forall i, j | 0 <= i < j < |r| ensures r[i] != r[j] {
      assert r[i] == q[if i < k then i else i + 1] && r[j] == q[if j < k then j else j + 1];
    }
  }

  lemma WithoutFirst(links: Links, q: seq<TaskObject>, i: nat)
    requires Thread(links, q) && 0 < |q| && i < |q| - 1
    ensures var r, l := Without(q, 0), RemoveLinks(links, q, 0); r[i] in l && l[r[i]] == Successor(r, i)
  {
    ThreadAt(links, q, i + 1);
    ElementsDiffer(links, q, 0, i + 1);
  }

  lemma WithoutLater(links: Links, q: seq<TaskObject>, k: nat, i: nat)
    requires Thread(links, q) && 0 < k < |q| && i < |q| - 1
    ensures var r, l := Without(q, k), RemoveLinks(links, q, k); r[i] in l && l[r[i]] == Successor(r, i)
  {
    hide Distinct;
    var j := if i < k then i else i + 1;
    ThreadAt(links, q, j);
    ElementsDiffer(links, q, k, j);
    if j != k - 1 {
      ElementsDiffer(links, q, k - 1, j);
    }
  }

  lemma ElementsDiffer(links: Links, q: seq<TaskObject>, i: nat, j: nat)
    requires Thread(links, q) && i < |q| && j < |q| && i != j
    ensures q[i] != q[j]
  {
  }

  lemma ThreadRemove(links: Links, q: seq<TaskObject>, k: nat)
    requires Thread(links, q) && k < |q|
    ensures Thread(RemoveLinks(links, q, k), Remove(q, q[k]))
  {
    hide Remove, RemoveLinks, Successor;
    RemoveAt(q, k);
    WithoutDistinct(q, k);
    forall i | 0 <= i < |q| - 1
      ensures var r, l := Without(q, k), RemoveLinks(links, q, k); r[i] in l && l[r[i]] == Successor(r, i)
    {
      if k == 0 {
        WithoutFirst(links, q, i);
      } else {
        WithoutLater(links, q, k, i);
      }
    }
  }

  /** Links of other tasks do not matter to a list. */
  lemma ThreadKept(links: Links, l: Links, q: seq<TaskObject>)
    requires Thread(links, q) && forall t :: t in q && t in links ==> t in l && l[t] == links[t]
    ensures Thread(l, q)
  {
    forall i | 0 <= i < |q| ensures q[i] in l && l[q[i]] == Successor(q, i) {
      ThreadAt(links, q, i);
    }
  }
}
