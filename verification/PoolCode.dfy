/** The steps of workers, adders and the master, carried out on the pool itself. */
module PoolCode {
  import opened PoolRuns
  import opened ThreadPool

  /** One step of thread_routine. Taking a task off the queue makes it the next one taken. */
  method WorkerStep(pool: Pool, worker: Worker, taken: nat, ghost w: World, ghost i: nat) returns (worker': Worker)
    requires pool.Valid() && pool.Abs() == w.pool && i < |w.workers| && w.workers[i] == worker && taken == w.taken
    modifies pool`threadQty, pool`queueSem, pool`queueHead, pool`queueTail, pool`nodes, pool`curQueueSize, pool.taskMask
    ensures pool.Valid() && pool.Abs() == StepWorker(w, i).pool && worker' == StepWorker(w, i).workers[i]
  {
    worker' := worker;
    match worker {
      case Starting =>
        pool.CountThread();
        worker' := Testing;
      case Testing =>
        worker' := if pool.doflag != SHUTDOWN then TryWaiting else Ready(false);
      case TryWaiting =>
        var ret := pool.TryWait();
        worker' := if ret == 0 then Ready(true) else Testing;
      case Ready(_) =>
        var r := pool.Dequeue();
        match r {
          case Exit => worker' := Exited;
          case Nothing => worker' := Testing;
          case Got(t) => worker' := Running(taken, t);
        }
      case Running(k, t) =>
        worker' := Ran(k, t);
      case Ran(k, t) =>
        pool.CleanTask(t);
        worker' := Unmarked(k, t);
      case Unmarked(_, _) =>
        pool.Finish();
        worker' := Testing;
      case Exited =>
    }
  }

  /** One step of thread_pool_add_task; an idle adder starts to add `task`. */
  method AdderStep(pool: Pool, adder: Adder, task: BitTask, ghost w: World, ghost j: nat) returns (adder': Adder)
    requires pool.Valid() && pool.Abs() == w.pool && j < |w.adders| && w.adders[j] == adder
    modifies pool`queueHead, pool`queueTail, pool`curQueueSize, pool`nodes, pool`queueSem, pool.nodes, pool.taskMask
    ensures pool.Valid() && pool.Abs() == StepAdder(w, j, task).pool && adder' == StepAdder(w, j, task).adders[j]
  {
    match adder {
      case Idle =>
        var present := pool.CheckTask(task);
        adder' := if present then Idle else Checked(task);
      case Checked(t) =>
        pool.MarkTask(t);
        adder' := Unpushed(t);
      case Unpushed(t) =>
        pool.Enqueue(t);
        adder' := Unposted;
      case Unposted =>
        pool.Post();
        adder' := Idle;
    }
  }

  /** One step of thread_pool_wait or thread_pool_destroy; `destroy` says which one a free master calls. */
  method MasterStep(pool: Pool, master: Master, destroy: bool, ghost w: World) returns (master': Master)
    requires pool.Valid() && pool.Abs() == w.pool && w.master == master
    modifies pool`doflag, pool`queueHead, pool`queueTail, pool`nodes
    ensures pool.Valid() && pool.Abs() == StepMaster(w, destroy).pool && master' == StepMaster(w, destroy).master
  {
    master' := master;
    match master {
      case Free =>
        if pool.doflag == 0 {
          if destroy {
            pool.SetDoflag(SHUTDOWN);
            master' := Joining(0);
          } else {
            pool.SetDoflag(WAIT);
            master' := Waiting;
          }
        }
      case Waiting =>
        if pool.curQueueSize <= 0 {
          master' := Leaving;
        }
      case Leaving =>
        pool.SetDoflag(0);
        master' := Free;
      case Joining(n) =>
        if n < pool.threadQty {
          master' := Joining(n + 1);
        } else {
          pool.Discard();
          master' := Destroyed(n);
        }
      case Destroyed(_) =>
    }
  }
}
