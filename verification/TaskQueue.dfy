/** The linked list of the tasks that wait in a group, and its counter. */
module TaskQueue {

  class Task {
    const arg: nat
    var next: Task?
    var prev: Task?

    constructor (arg: nat)
      ensures this.arg == arg && next == prev == null
    {
      this.arg := arg;
      next, prev := null, null;
    }
  }

  class TaskGroup {
    var head: Task?
    var tail: Task?
    var currentWaitingTasks: nat
    ghost var tasks: seq<Task>  // in the order in which they will be taken

    /** Head, tail, `next` and the counter describe the same list.  `prev` is never read. */
    ghost predicate Valid()
      reads this, tasks
    {
      && (forall i, j | 0 <= i < j < |tasks| :: tasks[i] != tasks[j])
      && (forall i | 0 <= i < |tasks| - 1 :: tasks[i].next == tasks[i + 1])
      && (if tasks == [] then head == tail == null
          else head == tasks[0] && tail == tasks[|tasks| - 1] && tail.next == null)
      && currentWaitingTasks == |tasks|
    }

    constructor ()
      ensures Valid() && tasks == []
    {
      head, tail, currentWaitingTasks, tasks := null, null, 0, [];
    }

    /** The critical section of task_enqueue. */
    method Enqueue(newTask: Task, atHead: bool)
      requires Valid() && newTask !in tasks && newTask.next == null
      modifies this, newTask, tasks
      ensures Valid() && tasks == if atHead then [newTask] + old(tasks) else old(tasks) + [newTask]
    {
      if tail != null {
        if atHead {
          head.prev := newTask;
          newTask.next := head;
          head := newTask;
        } else {
          tail.next := newTask;
          newTask.prev := tail;
          tail := newTask;
        }
      } else {
        assert head == null;
        head, tail := newTask, newTask;
      }
      currentWaitingTasks := currentWaitingTasks + 1;
      tasks := if atHead then [newTask] + tasks else tasks + [newTask];
    }

    /** task_group_get_next_task, with its assertions. */
    method GetNextTask() returns (assignedTask: Task?)
      requires Valid()
      modifies this
      ensures Valid()
      ensures old(tasks) == [] ==> assignedTask == null && tasks == []
      ensures old(tasks) != [] ==> assignedTask != null && old(tasks) == [assignedTask] + tasks
    {
      if currentWaitingTasks == 0 {
        return null;
      }
      assert head != null && tail != null;
      var outstandingTasks := currentWaitingTasks;
      currentWaitingTasks := currentWaitingTasks - 1;
      assignedTask := head;
      assert |tasks| > 1 ==> tasks[0].next == tasks[1];
      head := head.next;
      if head == null {
        assert tail == assignedTask;
        tail := null;
        assert outstandingTasks == 1;
      }
      tasks := tasks[1..];
    }
  }

  /** Tasks that are enqueued at the tail are taken first in, first out. */
  method EnqueueAndTakeAll(group: TaskGroup, args: seq<nat>) returns (taken: seq<nat>)
    requires group.Valid() && group.tasks == []
    modifies group
    ensures group.Valid() && group.tasks == [] && taken == args
  {
    var i := 0;
    while i < |args|
      invariant i <= |args| && group.Valid() && fresh(group.tasks)
      invariant Args(group.tasks) == args[..i]
    {
      var task := new Task(args[i]);
      group.Enqueue(task, false);
      assert args[..i + 1] == args[..i] + [args[i]];
      i := i + 1;
    }
    assert args[..i] == args;
    taken := [];
    while group.currentWaitingTasks != 0
      invariant group.Valid() && taken + Args(group.tasks) == args
      decreases |group.tasks|
    {
      var task := group.GetNextTask();
      taken := taken + [task.arg];
    }
  }

  ghost function Args(tasks: seq<Task>): (args: seq<nat>)
    ensures |args| == |tasks| && forall i | 0 <= i < |tasks| :: args[i] == tasks[i].arg
  {
    seq(|tasks|, i requires 0 <= i < |tasks| => tasks[i].arg)
  }
}
