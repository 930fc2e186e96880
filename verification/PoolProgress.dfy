/** The pool makes progress: queued work can always be finished, and waiting and destroying can always end. */
module PoolProgress {
  import opened PoolRuns
  import opened ThreadPool

  // Sums over the threads

  function Sum<T>(s: seq<T>, f: T -> nat): nat {
    if s == [] then 0 else f(s[0]) + Sum(s[1..], f)
  }

  lemma {:induction false} SumUpdate<T>(s: seq<T>, i: nat, x: T, f: T -> nat)
    requires i < |s|
    ensures Sum(s[i := x], f) + f(s[i]) == Sum(s, f) + f(x)
  {
    if i > 0 {
      assert s[i := x][1..] == s[1..][i - 1 := x];
      SumUpdate(s[1..], i - 1, x, f);
    } else {
      assert s[i := x][1..] == s[1..];
    }
  }

  /** How far a worker is from its next task or from being done with the one it has. */
  function WorkerWeight(worker: Worker): nat {
    match worker
    case Starting => 3
    case Testing => 2
    case TryWaiting => 1
    case Ready(_) => 0
    case Running(_, _) => 5
    case Ran(_, _) => 4
    case Unmarked(_, _) => 3
    case Exited => 0
  }

  function AdderWeight(adder: Adder): nat {
    match adder
    case Idle => 0
    case Unposted => 1
    case Unpushed(_) => 12
    case Checked(_) => 13
  }

  function Left(w: World): nat {
    10 * |w.pool.queue| + Sum(w.workers, WorkerWeight) + Sum(w.adders, AdderWeight)
  }

  predicate AllIdle(w: World) {
    forall j | 0 <= j < |w.adders| :: w.adders[j].Idle?
  }

  predicate ShuttingDown(w: World) {
    w.master.Joining? || w.master.Destroyed?
  }

  ghost predicate Useful(w: World, a: Action) {
    !a.Control? && Enabled(w, a) && Left(Step(w, a)) < Left(w) && Step(w, a).master == w.master
    && |Step(w, a).workers| == |w.workers|
  }

  lemma AdderGoesOn(w: World, j: nat, t: BitTask)
    requires Inv(w) && !ShuttingDown(w) && j < |w.adders| && !w.adders[j].Idle?
    ensures Useful(w, Add(j, t))
  {
    hide Sum, Inv;
    SumUpdate(w.adders, j, StepAdder(w, j, t).adders[j], AdderWeight);
  }

  /** A worker that can do something before shutdown. */
  predicate Able(w: World, i: nat)
    requires i < |w.workers|
  {
    match w.workers[i]
    case TryWaiting => w.pool.sem > 0
    case Ready(_) => w.pool.queue != []
    case Exited => false
    case _ => true
  }

  lemma WorkerGoesOn(w: World, i: nat)
    requires Inv(w) && !ShuttingDown(w) && i < |w.workers| && Able(w, i)
    ensures Useful(w, Work(i))
  {
    hide Sum, InOrder, SizeIs, TokensAre, NoRepeats, OwnTasks, NoneLost, ThreadsAre;
    SumUpdate(w.workers, i, StepWorker(w, i).workers[i], WorkerWeight);
  }

  /** While an addition is under way or a task is not finished, somebody can do something. */
  lemma SomebodyCan(w: World) returns (a: Action)
    requires Inv(w) && !ShuttingDown(w) && w.workers != [] && !(AllIdle(w) && w.pool.size == 0)
    ensures Useful(w, a)
  {
    hide Useful, Count, NoRepeats, OwnTasks, NoneLost, ThreadsAre, InOrder;
    if !AllIdle(w) {
      var j :| 0 <= j < |w.adders| && !w.adders[j].Idle?;
      var t: BitTask := Task(0, -1);
      AdderGoesOn(w, j, t);
      return Add(j, t);
    }
    CountSome(w.workers, Holds);
    CountSome(w.workers, HasToken);
    CountSome(w.adders, Posting);
    var i: nat := 0;
    if x: nat :| x < |w.workers| && Holds(w.workers[x]) {
      i := x;
    } else if x: nat :| x < |w.workers| && HasToken(w.workers[x]) {
      i := x;
    }
    WorkerGoesOn(w, i);
    a := Work(i);
  }

  predicate NoControl(run: seq<Action>) {
    forall a | a in run :: !a.Control?
  }

  /** From any state before shutdown, with at least one worker, the workers and the adders on their own can come to
      where every task is done. */
  lemma {:induction false} Finish(w: World) returns (run: seq<Action>)
    requires Inv(w) && !ShuttingDown(w) && w.workers != []
    ensures Legal(w, run) && NoControl(run)
    ensures var w' := Execute(w, run);
            Inv(w') && AllDone(w') && w'.pool.size == 0 && w'.pool.queue == [] && AllIdle(w') && w'.master == w.master
    decreases Left(w)
  {
    hide Inv, AllIdle, Step, Left, AllDone, Enabled;
    if AllIdle(w) && w.pool.size == 0 {
      NothingLeft(w);
      run := [];
    } else {
      var a := SomebodyCan(w);
      StepInv(w, a);
      var more := Finish(Step(w, a));
      Before(w, a, more);
      run := [a] + more;
    }
  }

  /** Every task runs: from every reachable state with a worker, while nobody destroys the pool, there is a way on,
      without anything being waited for or destroyed, to where all tasks are done. */
  lemma EveryTaskCanRun(w: World, workers: nat, adders: nat, run: seq<Action>) returns (more: seq<Action>)
    requires Reachable(w, workers, adders, run) && workers > 0 && !ShuttingDown(w)
    ensures Legal(w, more) && NoControl(more)
    ensures var w' := Execute(w, more); AllDone(w') && w'.pool.size == 0 && w'.pool.queue == []
  {
    ReachableInv(w, workers, adders, run);
    SameWorkers(Start(workers, adders), run);
    hide Inv, Legal, Execute, AllDone;
    more := Finish(w);
  }

  lemma {:induction false} SameWorkers(w: World, run: seq<Action>)
    requires Legal(w, run)
    ensures |Execute(w, run).workers| == |w.workers|
    decreases |run|
  {
    if run != [] {
      SameWorkers(Step(w, run[0]), run[1..]);
    }
  }

  /** A wait can always end. */
  lemma WaitCanEnd(w: World, workers: nat, adders: nat, run: seq<Action>) returns (more: seq<Action>)
    requires Reachable(w, workers, adders, run) && workers > 0 && w.master.Waiting?
    ensures Legal(w, more) && Control(true) !in more
    ensures var w' := Execute(w, more); w'.master.Free? && AllDone(w') && w'.pool.doflag == 0
  {
    ReachableInv(w, workers, adders, run);
    SameWorkers(Start(workers, adders), run);
    hide Inv, Legal, Execute;
    var work := Finish(w);
    var done := Execute(w, work);
    var over := Control(false);
    var leaving := Step(done, over);
    Before(leaving, over, []);
    Before(done, over, [over]);
    Append(w, work, [over] + [over]);
    Ends(Step(leaving, over));
    more := work + ([over] + [over]);
  }

  lemma Ends(w: World)
    ensures Legal(w, []) && Execute(w, []) == w
  {
  }

  lemma {:induction false} Append(w: World, a: seq<Action>, b: seq<Action>)
    requires Legal(w, a) && Legal(Execute(w, a), b)
    ensures Legal(w, a + b) && Execute(w, a + b) == Execute(Execute(w, a), b)
    decreases |a|
  {
    hide Step, Enabled;
    if a == [] {
      assert a + b == b;
    } else {
      Append(Step(w, a[0]), a[1..], b);
      assert (a + b)[1..] == a[1..] + b;
    }
  }

  // After shutdown

  /** How far a worker is from leaving. */
  function LeavingWeight(worker: Worker): nat {
    match worker
    case Starting => 4
    case TryWaiting => 4
    case Testing => 3
    case Ready(_) => 2
    case Running(_, _) => 7
    case Ran(_, _) => 6
    case Unmarked(_, _) => 5
    case Exited => 0
  }

  function ToLeave(w: World): nat {
    10 * |w.pool.queue| + Sum(w.workers, LeavingWeight)
  }

  predicate AllLeft(w: World) {
    forall i | 0 <= i < |w.workers| :: w.workers[i].Exited?
  }

  lemma WorkerLeaves(w: World, i: nat)
    requires Inv(w) && w.master.Joining? && i < |w.workers| && !w.workers[i].Exited?
    requires Holds(w.workers[i]) || w.pool.size == |w.pool.queue|
    ensures Enabled(w, Work(i)) && ToLeave(Step(w, Work(i))) < ToLeave(w) && Step(w, Work(i)).master == w.master
  {
    hide Sum, InOrder, SizeIs, TokensAre, NoRepeats, OwnTasks, NoneLost, ThreadsAre;
    SumUpdate(w.workers, i, StepWorker(w, i).workers[i], LeavingWeight);
  }

  lemma SomebodyLeaves(w: World) returns (a: Action)
    requires Inv(w) && w.master.Joining? && !AllLeft(w)
    ensures a.Work? && Enabled(w, a) && ToLeave(Step(w, a)) < ToLeave(w) && Step(w, a).master == w.master
  {
    hide Enabled, Step, ToLeave, Count, NoRepeats, OwnTasks, NoneLost, ThreadsAre, InOrder, TokensAre, Flags;
    CountSome(w.workers, Holds);
    var i: nat :| i < |w.workers| && !w.workers[i].Exited?;
    if x: nat :| x < |w.workers| && Holds(w.workers[x]) {
      i := x;
    }
    WorkerLeaves(w, i);
    a := Work(i);
  }

  /** After shutdown the workers on their own can finish everything that is queued and leave. */
  lemma {:induction false} WorkersLeave(w: World) returns (run: seq<Action>)
    requires Inv(w) && w.master.Joining?
    ensures Legal(w, run) && Inv(Execute(w, run)) && AllLeft(Execute(w, run)) && Execute(w, run).master == w.master
    decreases ToLeave(w)
  {
    hide Inv, AllLeft, Step, ToLeave, Enabled;
    if AllLeft(w) {
      run := [];
    } else {
      var a := SomebodyLeaves(w);
      StepInv(w, a);
      var more := WorkersLeave(Step(w, a));
      Before(w, a, more);
      run := [a] + more;
    }
  }

  lemma {:induction false} CountAtMost<T>(s: seq<T>, p: T -> bool)
    ensures Count(s, p) <= |s|
  {
    if s != [] {
      CountAtMost(s[1..], p);
    }
  }

  /** Once they have left, every pthread_join returns. */
  lemma {:induction false} JoinAll(w: World) returns (run: seq<Action>)
    requires Inv(w) && w.master.Joining? && AllLeft(w)
    ensures Legal(w, run)
    ensures var w' := Execute(w, run); Inv(w') && w'.master.Destroyed? && AllLeft(w')
    decreases w.pool.threads - w.master.joined
  {
    var over := Control(true);
    JoinStep(w);
    StepInv(w, over);
    hide Inv, AllLeft, Step, Enabled;
    if w.master.joined < w.pool.threads {
      var more := JoinAll(Step(w, over));
      Before(w, over, more);
      run := [over] + more;
    } else {
      Before(w, over, []);
      Ends(Step(w, over));
      run := [over] + [];
    }
  }

  lemma JoinStep(w: World)
    requires Inv(w) && w.master.Joining? && AllLeft(w)
    ensures Enabled(w, Control(true)) && AllLeft(Step(w, Control(true)))
    ensures var w' := Step(w, Control(true));
            if w.master.joined < w.pool.threads then w'.master == Joining(w.master.joined + 1) && w'.pool.threads == w.pool.threads
            else w'.master.Destroyed?
  {
    hide Count, NoRepeats, OwnTasks, NoneLost, InOrder, TokensAre, SizeIs;
    CountAtMost(w.workers, Counted);
  }

  /** thread_pool_destroy can always return, with all workers gone: from every reachable state in which it joins. */
  lemma DestroyCanEnd(w: World, workers: nat, adders: nat, run: seq<Action>) returns (more: seq<Action>)
    requires Reachable(w, workers, adders, run) && w.master.Joining?
    ensures Legal(w, more)
    ensures var w' := Execute(w, more);
            && w'.master.Destroyed? && AllLeft(w') && w'.pool.size == |w'.discarded|
            && (workers > 0 ==> AllDone(w') && w'.discarded == [])
  {
    ReachableInv(w, workers, adders, run);
    SameWorkers(Start(workers, adders), run);
    hide Inv, Legal, Execute, AllDone;
    var leave := WorkersLeave(w);
    var joins := JoinAll(Execute(w, leave));
    Append(w, leave, joins);
    more := leave + joins;
    var w' := Execute(w, more);
    SameWorkers(w, more);
    NobodyHolds(w');
    if workers > 0 {
      LeftIsDone(w');
    }
  }

  lemma NobodyHolds(w: World)
    requires Inv(w) && w.master.Destroyed? && AllLeft(w)
    ensures w.pool.size == |w.discarded|
  {
    CountSome(w.workers, Holds);
  }

  lemma LeftIsDone(w: World)
    requires Inv(w) && w.master.Destroyed? && AllLeft(w) && w.workers != []
    ensures AllDone(w) && w.discarded == []
  {
    assert w.workers[0].Exited?;
    assert w.pool.size == 0;
    hide Count, TokensAre, NoRepeats, OwnTasks, NoneLost;
    NothingLeft(w);
  }

  // Adding

  /** The steps of an addition that nothing interrupts: refused if the mask bit is set, and otherwise what
      thread_pool_add_task does, with the new task the last one pushed. */
  lemma StepsOfAdd(w: World, j: nat, t: BitTask)
    requires j < |w.adders| && w.adders[j].Idle? && !w.master.Destroyed? && w.pool.doflag != SHUTDOWN
    ensures var add := Add(j, t);
            if Present(w.pool, t) then Legal(w, [add]) && Execute(w, [add]) == w
            else
              && Legal(w, [add] + ([add] + ([add] + ([add] + []))))
              && var p := Pushed(Marked(w.pool, t), t);
                 Execute(w, [add] + ([add] + ([add] + ([add] + [])))) == w.(pool := p.(sem := p.sem + 1), pushed := w.pushed + [t])
  {
    var add := Add(j, t);
    var w1 := Step(w, add);
    if Present(w.pool, t) {
      Before(w, add, []);
      assert [add] + [] == [add];
    } else {
      var w2 := Step(w1, add);
      var w3 := Step(w2, add);
      var w4 := Step(w3, add);
      assert w4.adders == w.adders;
      hide Step, Enabled, Pushed, Marked;
      Before(w3, add, []);
      Before(w2, add, [add] + []);
      Before(w1, add, [add] + ([add] + []));
      Before(w, add, [add] + ([add] + ([add] + [])));
    }
  }
}
