/** The thread pool's shared state, and the regions of code that read and change it. */
module ThreadPool {
  import opened TaskMask

  const SHUTDOWN := 1
  const WAIT := 2

  /** What to run, and the mask bit that keeps it from being added twice; negative for none. */
  datatype Task = Task(process: int, maskBit: int)

  type BitTask = t: Task | t.maskBit < BITS witness Task(0, -1)

  datatype State = State(queue: seq<BitTask>, size: int, sem: nat, mask: set<nat>, doflag: int, threads: nat)

  const NEW := State([], 0, 0, {}, 0, 0)

  /** What a worker comes out of the lock with. */
  datatype Taken = Exit | Nothing | Got(task: BitTask)

  function Pushed(s: State, t: BitTask): State {
    s.(queue := s.queue + [t], size := s.size + 1)
  }

  function Take(s: State): (Taken, State) {
    if s.size == 0 && s.doflag == SHUTDOWN then (Exit, s)
    else if s.queue == [] then (Nothing, s)
    else (Got(s.queue[0]), s.(queue := s.queue[1..]))
  }

  predicate Present(s: State, t: BitTask) {
    t.maskBit >= 0 && t.maskBit in s.mask
  }

  function Marked(s: State, t: BitTask): State {
    if t.maskBit >= 0 then s.(mask := s.mask + {t.maskBit}) else s
  }

  function Cleaned(s: State, t: BitTask): State {
    if t.maskBit >= 0 then s.(mask := s.mask - {t.maskBit}) else s
  }

  class TaskNode {
    const task: BitTask
    var next: TaskNode?

    constructor (task: BitTask)
      ensures this.task == task && next == null
    {
      this.task := task;
      next := null;
    }
  }

  function Tasks(nodes: seq<TaskNode>): (tasks: seq<BitTask>)
    ensures |tasks| == |nodes| && forall i | 0 <= i < |nodes| :: tasks[i] == nodes[i].task
  {
    if nodes == [] then [] else [nodes[0].task] + Tasks(nodes[1..])
  }

  function After(nodes: seq<TaskNode>, i: nat): TaskNode? {
    if i + 1 < |nodes| then nodes[i + 1] else null
  }

  class Pool {
    var queueHead: TaskNode?
    var queueTail: TaskNode?
    var curQueueSize: int
    var queueSem: nat
    var taskMask: array<bv32>
    var doflag: int
    var threadQty: nat
    ghost var nodes: seq<TaskNode>

    ghost predicate Valid()
      reads this, nodes
    {
      && taskMask.Length == WORDS
      && queueHead == (if nodes == [] then null else nodes[0])
      && queueTail == (if nodes == [] then null else nodes[|nodes| - 1])
      && (forall i | 0 <= i < |nodes| :: nodes[i].next == After(nodes, i))
      && (forall i, j | 0 <= i < j < |nodes| :: nodes[i] != nodes[j])
    }

    ghost function Abs(): State
      requires taskMask.Length == WORDS
      reads this, taskMask
    {
      State(Tasks(nodes), curQueueSize, queueSem, Members(taskMask[..]), doflag, threadQty)
    }

    /** create_thread_pool. */
    constructor ()
      ensures Valid() && Abs() == NEW && fresh(taskMask)
    {
      queueHead, queueTail, nodes := null, null, [];
      curQueueSize, queueSem, doflag, threadQty := 0, 0, 0, 0;
      taskMask := new bv32[WORDS](_ => 0);
      new;
      NoMembers(taskMask[..]);
    }

    /** A worker that starts counts itself. */
    method CountThread()
      requires Valid()
      modifies this`threadQty
      ensures Valid() && Abs() == old(Abs()).(threads := old(Abs()).threads + 1)
    {
      threadQty := threadQty + 1;
    }

    method SetDoflag(flag: int)
      requires Valid()
      modifies this`doflag
      ensures Valid() && Abs() == old(Abs()).(doflag := flag)
    {
      doflag := flag;
    }

    /** The test in front of an addition. */
    method CheckTask(t: BitTask) returns (present: bool)
      requires Valid()
      ensures present == Present(Abs(), t)
    {
      present := false;
      if t.maskBit >= 0 {
        var r := CheckTaskMaskbit(taskMask, t.maskBit);
        present := r != 0;
      }
    }

    method MarkTask(t: BitTask)
      requires Valid()
      modifies taskMask
      ensures Valid() && Abs() == Marked(old(Abs()), t)
    {
      if t.maskBit >= 0 {
        SetTaskMaskbit(taskMask, t.maskBit);
      }
    }

    /** The region that puts a task at the end of the queue. */
    method Enqueue(t: BitTask)
      requires Valid()
      modifies this`queueHead, this`queueTail, this`curQueueSize, this`nodes, nodes
      ensures Valid() && Abs() == Pushed(old(Abs()), t)
    {
      var newworker := new TaskNode(t);
      if queueHead != null {
        queueTail.next := newworker;
      } else {
        queueHead := newworker;
      }
      queueTail := newworker;
      nodes := nodes + [newworker];
      curQueueSize := curQueueSize + 1;
    }

    /** sem_post. */
    method Post()
      requires Valid()
      modifies this`queueSem
      ensures Valid() && Abs() == old(Abs()).(sem := old(Abs()).sem + 1)
    {
      queueSem := queueSem + 1;
    }

    /** sem_trywait. */
    method TryWait() returns (ret: int)
      requires Valid()
      modifies this`queueSem
      ensures Valid() && (ret == 0 <==> old(Abs()).sem > 0)
      ensures Abs() == if ret == 0 then old(Abs()).(sem := old(Abs()).sem - 1) else old(Abs())
    {
      if queueSem > 0 {
        queueSem := queueSem - 1;
        ret := 0;
      } else {
        ret := -1;
      }
    }

    /** The region in which a worker leaves, finds nothing, or takes the first task. */
    method Dequeue() returns (r: Taken)
      requires Valid()
      modifies this`queueHead, this`queueTail, this`nodes
      ensures Valid() && (r, Abs()) == Take(old(Abs()))
    {
      if curQueueSize == 0 && doflag == SHUTDOWN {
        return Exit;
      }
      var worker := queueHead;
      if worker == null {
        return Nothing;
      }
      queueHead := worker.next;
      if queueHead == null {
        queueTail := null;
      }
      nodes := nodes[1..];
      r := Got(worker.task);
    }

    method CleanTask(t: BitTask)
      requires Valid()
      modifies taskMask
      ensures Valid() && Abs() == Cleaned(old(Abs()), t)
    {
      if t.maskBit >= 0 {
        CleanTaskMaskbit(taskMask, t.maskBit);
      }
    }

    method Finish()
      requires Valid()
      modifies this`curQueueSize
      ensures Valid() && Abs() == old(Abs()).(size := old(Abs()).size - 1)
    {
      curQueueSize := curQueueSize - 1;
    }

    /** thread_pool_add_task, when nothing else runs in between. */
    method AddTask(t: BitTask) returns (r: int)
      requires Valid()
      modifies this`queueHead, this`queueTail, this`curQueueSize, this`queueSem, this`nodes, nodes, taskMask
      ensures Valid() && r == if Present(old(Abs()), t) then 1 else 0
      ensures Abs() == if r == 1 then old(Abs()) else
                var s := Pushed(Marked(old(Abs()), t), t); s.(sem := s.sem + 1)
    {
      var present := CheckTask(t);
      if present {
        return 1;
      }
      MarkTask(t);
      Enqueue(t);
      Post();
      r := 0;
    }

    /** The end of thread_pool_destroy: what is left in the queue is thrown away. */
    method Discard()
      requires Valid()
      modifies this`queueHead, this`queueTail, this`nodes
      ensures Valid() && Abs() == old(Abs()).(queue := [])
    {
      while queueHead != null
        invariant queueHead == (if nodes == [] then null else nodes[0])
        invariant forall i | 0 <= i < |nodes| :: nodes[i].next == After(nodes, i)
        decreases |nodes|
      {
        queueHead := queueHead.next;
        nodes := nodes[1..];
      }
      queueTail := null;
    }
  }
}
