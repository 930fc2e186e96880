/** Runs of a thread pool: workers, adders and one master, interleaved at every region and every update. */
module PoolRuns {
  import opened ThreadPool

  /** Where a worker is. While it has a task it knows which one it took: the k-th that was pushed. */
  datatype Worker =
    | Starting
    | Testing
    | TryWaiting
    | Ready(token: bool)
    | Running(k: nat, task: BitTask)
    | Ran(k: nat, task: BitTask)
    | Unmarked(k: nat, task: BitTask)
    | Exited

  datatype Adder = Idle | Checked(task: BitTask) | Unpushed(task: BitTask) | Unposted

  /** The thread that waits for the pool or destroys it. */
  datatype Master = Free | Waiting | Leaving | Joining(joined: nat) | Destroyed(joined: nat)

  datatype World = World(
    pool: State,
    workers: seq<Worker>,
    adders: seq<Adder>,
    master: Master,
    pushed: seq<BitTask>,
    taken: nat,
    ran: seq<nat>,
    discarded: seq<BitTask>)

  datatype Action = Work(i: nat) | Add(j: nat, task: BitTask) | Control(destroy: bool)

  function Start(workers: nat, adders: nat): World {
    World(NEW, seq(workers, _ => Starting), seq(adders, _ => Idle), Free, [], 0, [], [])
  }

  predicate Adding(a: Adder) {
    a.Checked? || a.Unpushed?
  }

  /** Destroying a pool is for when nobody is about to add to it or will. */
  predicate Enabled(w: World, a: Action) {
    && !w.master.Destroyed?
    && match a
       case Work(i) => i < |w.workers| && !w.workers[i].Exited?
       case Add(j, t) => j < |w.adders| && (w.adders[j].Idle? ==> w.pool.doflag != SHUTDOWN)
       case Control(destroy) =>
         && (w.master.Free? && destroy ==> forall j | 0 <= j < |w.adders| :: !Adding(w.adders[j]))
         && (w.master.Joining? && w.master.joined < w.pool.threads ==>
               w.master.joined < |w.workers| && w.workers[w.master.joined].Exited?)
  }

  function At(w: World, i: nat, worker: Worker): World
    requires i < |w.workers|
  {
    w.(workers := w.workers[i := worker])
  }

  function StepWorker(w: World, i: nat): World
    requires i < |w.workers|
  {
    var p := w.pool;
    match w.workers[i]
    case Starting => At(w, i, Testing).(pool := p.(threads := p.threads + 1))
    case Testing => At(w, i, if p.doflag != SHUTDOWN then TryWaiting else Ready(false))
    case TryWaiting => if p.sem > 0 then At(w, i, Ready(true)).(pool := p.(sem := p.sem - 1)) else At(w, i, Testing)
    case Ready(_) =>
      var (r, p') := Take(p);
      (match r
       case Exit => At(w, i, Exited)
       case Nothing => At(w, i, Testing)
       case Got(t) => At(w, i, Running(w.taken, t)).(pool := p', taken := w.taken + 1))
    case Running(k, t) => At(w, i, Ran(k, t)).(ran := w.ran + [k])
    case Ran(k, t) => At(w, i, Unmarked(k, t)).(pool := Cleaned(p, t))
    case Unmarked(k, t) => At(w, i, Testing).(pool := p.(size := p.size - 1))
    case Exited => w
  }

  function StepAdder(w: World, j: nat, task: BitTask): World
    requires j < |w.adders|
  {
    var p := w.pool;
    match w.adders[j]
    case Idle => if Present(p, task) then w else w.(adders := w.adders[j := Checked(task)])
    case Checked(t) => w.(adders := w.adders[j := Unpushed(t)], pool := Marked(p, t))
    case Unpushed(t) => w.(adders := w.adders[j := Unposted], pool := Pushed(p, t), pushed := w.pushed + [t])
    case Unposted => w.(adders := w.adders[j := Idle], pool := p.(sem := p.sem + 1))
  }

  function StepMaster(w: World, destroy: bool): World {
    var p := w.pool;
    match w.master
    case Free =>
      if p.doflag != 0 then w
      else if destroy then w.(master := Joining(0), pool := p.(doflag := SHUTDOWN))
      else w.(master := Waiting, pool := p.(doflag := WAIT))
    case Waiting => if p.size > 0 then w else w.(master := Leaving)
    case Leaving => w.(master := Free, pool := p.(doflag := 0))
    case Joining(n) =>
      if n < p.threads then w.(master := Joining(n + 1))
      else w.(master := Destroyed(n), pool := p.(queue := []), discarded := p.queue)
    case Destroyed(_) => w
  }

  function Step(w: World, a: Action): World
    requires Enabled(w, a)
  {
    match a
    case Work(i) => StepWorker(w, i)
    case Add(j, t) => StepAdder(w, j, t)
    case Control(destroy) => StepMaster(w, destroy)
  }

  predicate Legal(w: World, run: seq<Action>)
    decreases |run|
  {
    run == [] || (Enabled(w, run[0]) && Legal(Step(w, run[0]), run[1..]))
  }

  function Execute(w: World, run: seq<Action>): World
    requires Legal(w, run)
    decreases |run|
  {
    if run == [] then w else Execute(Step(w, run[0]), run[1..])
  }

  // Counting

  function Count<T>(s: seq<T>, p: T -> bool): nat {
    if s == [] then 0 else (if p(s[0]) then 1 else 0) + Count(s[1..], p)
  }

  function One(b: bool): nat {
    if b then 1 else 0
  }

  lemma {:induction false} CountUpdate<T>(s: seq<T>, i: nat, x: T, p: T -> bool)
    requires i < |s|
    ensures Count(s[i := x], p) + One(p(s[i])) == Count(s, p) + One(p(x))
  {
    if i > 0 {
      assert s[i := x][1..] == s[1..][i - 1 := x];
      CountUpdate(s[1..], i - 1, x, p);
    } else {
      assert s[i := x][1..] == s[1..];
    }
  }

  lemma {:induction false} CountSome<T>(s: seq<T>, p: T -> bool)
    ensures Count(s, p) == 0 <==> forall i | 0 <= i < |s| :: !p(s[i])
  {
    if s != [] {
      CountSome(s[1..], p);
      assert forall i | 1 <= i < |s| :: s[i] == s[1..][i - 1];
    }
  }

  lemma {:induction false} CountAppend<T>(s: seq<T>, x: T, p: T -> bool)
    ensures Count(s + [x], p) == Count(s, p) + One(p(x))
  {
    if s == [] {
      assert (s + [x])[1..] == [];
    } else {
      assert (s + [x])[1..] == s[1..] + [x];
      CountAppend(s[1..], x, p);
    }
  }

  predicate Holds(worker: Worker) {
    worker.Running? || worker.Ran? || worker.Unmarked?
  }

  predicate HasToken(worker: Worker) {
    worker == Ready(true)
  }

  predicate Counted(worker: Worker) {
    !worker.Starting?
  }

  predicate Posting(adder: Adder) {
    adder.Unposted?
  }

  // What every step keeps

  /** Tasks leave the queue in the order in which they were pushed. */
  predicate InOrder(w: World) {
    && w.taken <= |w.pushed|
    && w.pushed[w.taken..] == (if w.master.Destroyed? then w.discarded else w.pool.queue)
    && (w.master.Destroyed? ==> w.pool.queue == [])
  }

  /** cur_queue_size counts what is queued and what is taken but not finished. */
  predicate SizeIs(w: World) {
    w.pool.size == Count(w.workers, Holds) + if w.master.Destroyed? then |w.discarded| else |w.pool.queue|
  }

  /** Before shutdown the queue is as long as the semaphore, the tokens and the missing posts together. */
  predicate TokensAre(w: World) {
    w.pool.doflag != SHUTDOWN ==>
      && |w.pool.queue| == w.pool.sem + Count(w.workers, HasToken) + Count(w.adders, Posting)
      && forall i | 0 <= i < |w.workers| :: w.workers[i] != Ready(false)
  }

  /** Nothing runs twice. */
  predicate NoRepeats(w: World) {
    && (forall a, b | 0 <= a < b < |w.ran| :: w.ran[a] != w.ran[b])
    && (forall k | k in w.ran :: k < w.taken)
    && (w.ran != [] ==> w.taken > 0)
  }

  /** What worker i took is at its place among the tasks pushed; it has run unless the worker is just about to run it. */
  predicate HasTask(w: World, i: nat)
    requires i < |w.workers|
  {
    Holds(w.workers[i]) ==>
      var k := w.workers[i].k;
      k < w.taken && k < |w.pushed| && w.workers[i].task == w.pushed[k] && (k in w.ran <==> !w.workers[i].Running?)
  }

  /** No two workers have the same task. */
  predicate OwnTasks(w: World) {
    && (forall i | 0 <= i < |w.workers| :: HasTask(w, i))
    && (forall i, j | 0 <= i < j < |w.workers| && Holds(w.workers[i]) && Holds(w.workers[j]) :: w.workers[i].k != w.workers[j].k)
  }

  predicate AboutToRun(w: World, k: nat) {
    exists i | 0 <= i < |w.workers| :: w.workers[i].Running? && w.workers[i].k == k
  }

  /** What was taken has run, or is about to. */
  predicate NoneLost(w: World) {
    forall k | 0 <= k < w.taken && k !in w.ran :: AboutToRun(w, k)
  }

  predicate Flags(w: World) {
    && (w.pool.doflag == SHUTDOWN <==> w.master.Joining? || w.master.Destroyed?)
    && (w.pool.doflag == WAIT <==> w.master.Waiting? || w.master.Leaving?)
    && (w.master.Free? ==> w.pool.doflag == 0)
    && (w.pool.doflag == SHUTDOWN ==> forall j | 0 <= j < |w.adders| :: !Adding(w.adders[j]))
    && (forall i | 0 <= i < |w.workers| :: w.workers[i].Exited? ==> w.pool.doflag == SHUTDOWN && w.pool.size == 0)
    && ((w.master.Joining? || w.master.Destroyed?) && w.master.joined > 0 ==> w.pool.size == 0)
  }

  /** thread_qty counts the workers that have started; only they take anything. */
  predicate ThreadsAre(w: World) {
    && w.pool.threads == Count(w.workers, Counted)
    && (w.taken > 0 ==> w.pool.threads > 0)
    && (w.master.Destroyed? && w.master.joined == 0 ==> w.pool.threads == 0)
  }

  predicate Inv(w: World) {
    InOrder(w) && SizeIs(w) && TokensAre(w) && NoRepeats(w) && OwnTasks(w) && NoneLost(w) && Flags(w) && ThreadsAre(w)
  }

  // Workers

  lemma WorkerKeepsOrder(w: World, i: nat)
    requires Inv(w) && Enabled(w, Work(i))
    ensures InOrder(StepWorker(w, i))
  {
    hide Count, SizeIs, TokensAre, NoRepeats, OwnTasks, NoneLost, Flags, ThreadsAre;
    OthersStay(w, i);
    assert w.taken < |w.pushed| ==> w.pushed[w.taken..][1..] == w.pushed[w.taken + 1..];
    if !w.workers[i].Ready? {
      assert StepWorker(w, i).pool.queue == w.pool.queue;
    }
  }

  lemma WorkerKeepsSize(w: World, i: nat)
    requires Inv(w) && Enabled(w, Work(i))
    ensures SizeIs(StepWorker(w, i))
  {
    hide Count, InOrder, TokensAre, NoRepeats, OwnTasks, NoneLost, Flags, ThreadsAre;
    CountUpdate(w.workers, i, StepWorker(w, i).workers[i], Holds);
  }

  lemma WorkerKeepsTokens(w: World, i: nat)
    requires Inv(w) && Enabled(w, Work(i))
    ensures TokensAre(StepWorker(w, i))
  {
    hide Count, NoRepeats, OwnTasks, NoneLost, InOrder, SizeIs, ThreadsAre;
    CountUpdate(w.workers, i, StepWorker(w, i).workers[i], HasToken);
  }

  lemma WorkerKeepsFlags(w: World, i: nat)
    requires Inv(w) && Enabled(w, Work(i))
    ensures Flags(StepWorker(w, i))
  {
    hide Count, NoRepeats, OwnTasks, NoneLost, InOrder, TokensAre, ThreadsAre;
    CountSome(w.workers, Holds);
  }

  lemma WorkerKeepsThreads(w: World, i: nat)
    requires Inv(w) && Enabled(w, Work(i))
    ensures ThreadsAre(StepWorker(w, i))
  {
    hide Count, NoRepeats, OwnTasks, NoneLost, InOrder, TokensAre, SizeIs, Flags;
    CountUpdate(w.workers, i, StepWorker(w, i).workers[i], Counted);
    CountSome(w.workers, Counted);
  }

  lemma WorkerKeepsRuns(w: World, i: nat)
    requires Inv(w) && Enabled(w, Work(i))
    ensures NoRepeats(StepWorker(w, i))
  {
    hide Count, SizeIs, Flags, ThreadsAre, TokensAre, NoneLost, InOrder;
    assert HasTask(w, i);
  }

  /** A worker that has a task keeps it for as long as it has one. */
  lemma KeepsItsTask(w: World, i: nat)
    requires Enabled(w, Work(i)) && Holds(w.workers[i]) && Holds(StepWorker(w, i).workers[i])
    ensures var now := StepWorker(w, i).workers[i]; now.k == w.workers[i].k && now.task == w.workers[i].task && !now.Running?
  {
  }

  /** A worker that gets a task gets the next one from the queue. */
  lemma TakesNext(w: World, i: nat)
    requires InOrder(w) && NoRepeats(w) && Enabled(w, Work(i)) && !Holds(w.workers[i]) && Holds(StepWorker(w, i).workers[i])
    ensures var now := StepWorker(w, i).workers[i];
            && now.Running? && now.k == w.taken < |w.pushed| && now.task == w.pushed[w.taken] && w.taken !in w.ran
            && StepWorker(w, i).taken == w.taken + 1
  {
    assert w.workers[i].Ready? && w.pool.queue != [];
    assert w.pool.queue[0] == w.pushed[w.taken];
  }

  lemma SameTask(w: World, i: nat)
    requires Inv(w) && Enabled(w, Work(i)) && Holds(StepWorker(w, i).workers[i])
    ensures var now := StepWorker(w, i).workers[i];
            if Holds(w.workers[i]) then now.k == w.workers[i].k && now.task == w.workers[i].task
            else now.k == w.taken < |w.pushed| && now.task == w.pushed[w.taken] && w.taken !in w.ran
    ensures StepWorker(w, i).workers[i].Running? <==> !Holds(w.workers[i])
    ensures !Holds(w.workers[i]) ==> StepWorker(w, i).taken == w.taken + 1
  {
    hide InOrder, NoRepeats, Count, SizeIs, TokensAre, NoneLost, OwnTasks, Flags, ThreadsAre;
    if Holds(w.workers[i]) {
      KeepsItsTask(w, i);
    } else {
      TakesNext(w, i);
    }
  }

  lemma OthersStay(w: World, i: nat)
    requires Enabled(w, Work(i))
    ensures var w' := StepWorker(w, i);
            && |w'.workers| == |w.workers| && (forall j | 0 <= j < |w.workers| && j != i :: w'.workers[j] == w.workers[j])
            && w'.pushed == w.pushed && w'.taken >= w.taken
            && w'.ran == if w.workers[i].Running? then w.ran + [w.workers[i].k] else w.ran
  {
  }

  lemma OtherKeepsTask(w: World, i: nat, j: nat)
    requires Inv(w) && Enabled(w, Work(i)) && j < |w.workers| && j != i
    ensures j < |StepWorker(w, i).workers| && HasTask(StepWorker(w, i), j)
  {
    hide StepWorker, Count, SizeIs, Flags, ThreadsAre, TokensAre, NoneLost, InOrder, NoRepeats;
    assert HasTask(w, j) && HasTask(w, i);
    OthersStay(w, i);
  }

  lemma SelfKeepsTask(w: World, i: nat)
    requires Inv(w) && Enabled(w, Work(i))
    ensures HasTask(StepWorker(w, i), i)
  {
    hide StepWorker, Count, SizeIs, Flags, ThreadsAre, TokensAre, NoneLost, NoRepeats, InOrder;
    assert HasTask(w, i);
    OthersStay(w, i);
    if Holds(StepWorker(w, i).workers[i]) {
      SameTask(w, i);
    }
  }

  lemma WorkerKeepsTasks(w: World, i: nat)
    requires Inv(w) && Enabled(w, Work(i))
    ensures OwnTasks(StepWorker(w, i))
  {
    hide StepWorker, Count, SizeIs, Flags, ThreadsAre, TokensAre, NoneLost, InOrder, NoRepeats;
    var w' := StepWorker(w, i);
    OthersStay(w, i);
    forall j | 0 <= j < |w'.workers|
      ensures HasTask(w', j)
    {
      if j == i {
        SelfKeepsTask(w, i);
      } else {
        OtherKeepsTask(w, i, j);
      }
    }
    forall a, b | 0 <= a < b < |w'.workers| && Holds(w'.workers[a]) && Holds(w'.workers[b])
      ensures w'.workers[a].k != w'.workers[b].k
    {
      if i == a || i == b {
        SameTask(w, i);
        assert HasTask(w, a) && HasTask(w, b);
      }
    }
  }

  lemma WorkerLosesNone(w: World, i: nat)
    requires Inv(w) && Enabled(w, Work(i))
    ensures NoneLost(StepWorker(w, i))
  {
    hide Count, SizeIs, Flags, ThreadsAre, TokensAre, InOrder, OwnTasks;
    var w' := StepWorker(w, i);
    forall k | 0 <= k < w'.taken && k !in w'.ran
      ensures AboutToRun(w', k)
    {
      if k < w.taken {
        assert AboutToRun(w, k);
        var j :| 0 <= j < |w.workers| && w.workers[j].Running? && w.workers[j].k == k;
        assert w'.workers[j] == w.workers[j];
      } else {
        assert w'.workers[i].Running? && w'.workers[i].k == k;
      }
    }
  }

  lemma WorkerInv(w: World, i: nat)
    requires Inv(w) && Enabled(w, Work(i))
    ensures Inv(StepWorker(w, i))
  {
    var w' := StepWorker(w, i);
    hide *;
    WorkerKeepsOrder(w, i);
    WorkerKeepsSize(w, i);
    WorkerKeepsTokens(w, i);
    WorkerKeepsFlags(w, i);
    WorkerKeepsThreads(w, i);
    WorkerKeepsRuns(w, i);
    WorkerKeepsTasks(w, i);
    WorkerLosesNone(w, i);
    InvIs(w');
  }

  lemma InvIs(w: World)
    ensures Inv(w) <==> InOrder(w) && SizeIs(w) && TokensAre(w) && NoRepeats(w) && OwnTasks(w) && NoneLost(w) && Flags(w) && ThreadsAre(w)
  {
  }

  // Adders and the master

  lemma SameWorkers(w: World, w': World)
    requires OwnTasks(w) && NoneLost(w) && NoRepeats(w)
    requires w'.workers == w.workers && w'.ran == w.ran && w'.taken == w.taken && w.pushed <= w'.pushed
    ensures OwnTasks(w') && NoneLost(w') && NoRepeats(w')
  {
    forall i | 0 <= i < |w'.workers|
      ensures HasTask(w', i)
    {
      assert HasTask(w, i);
    }
    forall k | 0 <= k < w'.taken && k !in w'.ran
      ensures AboutToRun(w', k)
    {
      assert AboutToRun(w, k);
    }
  }

  lemma AdderKeepsTokens(w: World, j: nat, t: BitTask)
    requires Inv(w) && Enabled(w, Add(j, t))
    ensures TokensAre(StepAdder(w, j, t))
  {
    hide Count, NoRepeats, OwnTasks, NoneLost, InOrder, SizeIs, Flags, ThreadsAre;
    CountUpdate(w.adders, j, StepAdder(w, j, t).adders[j], Posting);
  }

  lemma AdderKeepsOrder(w: World, j: nat, t: BitTask)
    requires Inv(w) && Enabled(w, Add(j, t))
    ensures InOrder(StepAdder(w, j, t)) && SizeIs(StepAdder(w, j, t))
  {
    hide Count, NoRepeats, OwnTasks, NoneLost, TokensAre, Flags, ThreadsAre;
  }

  lemma AdderKeepsFlags(w: World, j: nat, t: BitTask)
    requires Inv(w) && Enabled(w, Add(j, t))
    ensures Flags(StepAdder(w, j, t)) && ThreadsAre(StepAdder(w, j, t))
  {
    hide Count, NoRepeats, OwnTasks, NoneLost, TokensAre, InOrder, SizeIs;
  }

  lemma AdderInv(w: World, j: nat, t: BitTask)
    requires Inv(w) && Enabled(w, Add(j, t))
    ensures Inv(StepAdder(w, j, t))
  {
    SameWorkers(w, StepAdder(w, j, t));
    hide Count, InOrder, SizeIs, TokensAre, NoRepeats, OwnTasks, NoneLost, Flags, ThreadsAre, StepAdder;
    AdderKeepsOrder(w, j, t);
    AdderKeepsTokens(w, j, t);
    AdderKeepsFlags(w, j, t);
  }

  lemma MasterInv(w: World, destroy: bool)
    requires Inv(w) && Enabled(w, Control(destroy))
    ensures Inv(StepMaster(w, destroy))
  {
    hide Count;
    SameWorkers(w, StepMaster(w, destroy));
    hide NoRepeats, OwnTasks, NoneLost;
  }

  lemma StartInv(workers: nat, adders: nat)
    ensures Inv(Start(workers, adders))
  {
    var w := Start(workers, adders);
    CountSome(w.workers, Holds);
    CountSome(w.workers, HasToken);
    CountSome(w.workers, Counted);
    CountSome(w.adders, Posting);
  }

  lemma StepInv(w: World, a: Action)
    requires Inv(w) && Enabled(w, a)
    ensures Inv(Step(w, a))
  {
    hide Inv, StepWorker, StepAdder, StepMaster;
    match a
    case Work(i) => WorkerInv(w, i);
    case Add(j, t) => AdderInv(w, j, t);
    case Control(destroy) => MasterInv(w, destroy);
  }

  /** Every run keeps the invariant. */
  lemma {:induction false} ExecuteInv(w: World, run: seq<Action>)
    requires Inv(w) && Legal(w, run)
    ensures Inv(Execute(w, run))
    decreases |run|
  {
    hide Inv, Step;
    if run != [] {
      StepInv(w, run[0]);
      ExecuteInv(Step(w, run[0]), run[1..]);
    }
  }

  // What follows for every run

  /** Every task that was ever pushed has run, exactly once, and its worker is done with it. */
  predicate AllDone(w: World) {
    && w.taken == |w.pushed|
    && (forall k | k in w.ran :: k < |w.pushed|) && (forall k | 0 <= k < |w.pushed| :: k in w.ran)
    && (forall a, b | 0 <= a < b < |w.ran| :: w.ran[a] != w.ran[b])
    && (forall i | 0 <= i < |w.workers| :: !Holds(w.workers[i]))
  }

  lemma NothingLeft(w: World)
    requires Inv(w) && w.pool.size == 0
    ensures AllDone(w) && w.pool.queue == [] && (w.master.Destroyed? ==> w.discarded == [])
  {
    hide Count, TokensAre, Flags, OwnTasks;
    CountSome(w.workers, Holds);
    forall k | 0 <= k < w.taken
      ensures k in w.ran
    {
      assert !AboutToRun(w, k);
    }
  }

  predicate Reachable(w: World, workers: nat, adders: nat, run: seq<Action>) {
    Legal(Start(workers, adders), run) && w == Execute(Start(workers, adders), run)
  }

  lemma ReachableInv(w: World, workers: nat, adders: nat, run: seq<Action>)
    requires Reachable(w, workers, adders, run)
    ensures Inv(w)
  {
    hide Inv;
    StartInv(workers, adders);
    ExecuteInv(Start(workers, adders), run);
  }

  /** cur_queue_size counts exactly the tasks pushed but not finished: those queued, in the order they were
      pushed, and those that workers hold. Every task taken has run once, or the worker that took it is about
      to run it. */
  lemma Conservation(w: World, workers: nat, adders: nat, run: seq<Action>)
    requires Reachable(w, workers, adders, run)
    ensures w.taken <= |w.pushed| && w.pushed[w.taken..] == w.pool.queue + w.discarded
    ensures w.pool.size == |w.pool.queue| + |w.discarded| + Count(w.workers, Holds)
    ensures forall a, b | 0 <= a < b < |w.ran| :: w.ran[a] != w.ran[b]
    ensures forall k | 0 <= k < w.taken :: (k in w.ran) != AboutToRun(w, k)
    ensures forall k | k in w.ran :: k < w.taken
  {
    hide Count, TokensAre, Flags;
    ReachableInv(w, workers, adders, run);
    DiscardedAtEnd(w, workers, adders, run);
    forall k | 0 <= k < w.taken
      ensures (k in w.ran) != AboutToRun(w, k)
    {
      if AboutToRun(w, k) {
        var i :| 0 <= i < |w.workers| && w.workers[i].Running? && w.workers[i].k == k;
        assert HasTask(w, i);
      }
    }
  }

  lemma {:induction false} DiscardedLater(w: World, run: seq<Action>)
    requires Legal(w, run) && (!w.master.Destroyed? ==> w.discarded == [])
    ensures !Execute(w, run).master.Destroyed? ==> Execute(w, run).discarded == []
    decreases |run|
  {
    if run != [] {
      DiscardedLater(Step(w, run[0]), run[1..]);
    }
  }

  lemma DiscardedAtEnd(w: World, workers: nat, adders: nat, run: seq<Action>)
    requires Reachable(w, workers, adders, run)
    ensures !w.master.Destroyed? ==> w.discarded == []
  {
    DiscardedLater(Start(workers, adders), run);
  }

  /** Before shutdown a worker with a token never finds the queue empty. */
  lemma TokenMeansTask(w: World, workers: nat, adders: nat, run: seq<Action>, i: nat)
    requires Reachable(w, workers, adders, run) && w.pool.doflag != SHUTDOWN
    ensures |w.pool.queue| == w.pool.sem + Count(w.workers, HasToken) + Count(w.adders, Posting)
    ensures i < |w.workers| && w.workers[i].Ready? ==> w.pool.queue != [] && Take(w.pool).0 == Got(w.pool.queue[0])
  {
    ReachableInv(w, workers, adders, run);
    hide Count;
    CountSome(w.workers, HasToken);
  }

  /** thread_pool_wait stops waiting only when everything pushed so far is done. */
  lemma WaitSeesAllDone(w: World, workers: nat, adders: nat, run: seq<Action>, destroy: bool)
    requires Reachable(w, workers, adders, run) && w.master.Waiting?
    ensures StepMaster(w, destroy).master.Leaving? ==> AllDone(w) && w.pool.queue == []
  {
    ReachableInv(w, workers, adders, run);
    hide Inv, AllDone;
    if w.pool.size <= 0 {
      SizeNotNegative(w);
      NothingLeft(w);
    }
  }

  lemma SizeNotNegative(w: World)
    requires Inv(w)
    ensures w.pool.size >= 0
  {
  }

  /** Once destroyed, every task is done and nothing was thrown away if a worker had counted itself by the time
      thread_pool_destroy looked; if none had, nothing has run and all that was pushed is thrown away. */
  lemma DestroyFinishes(w: World)
    requires Inv(w) && w.master.Destroyed?
    ensures w.master.joined > 0 ==> AllDone(w) && w.discarded == []
    ensures w.master.joined == 0 ==> w.ran == [] && w.discarded == w.pushed
    ensures AllDone(w) <==> w.master.joined > 0 || w.pushed == []
  {
    if w.master.joined > 0 {
      assert w.pool.size == 0;
      NothingLeft(w);
    } else {
      hide Count;
      CountSome(w.workers, Counted);
      assert w.taken == 0;
    }
  }

  /** After shutdown nothing more is pushed, and workers are never counted out. */
  lemma {:induction false} AfterShutdown(w: World, run: seq<Action>)
    requires Inv(w) && Legal(w, run) && w.pool.doflag == SHUTDOWN
    ensures Execute(w, run).pushed == w.pushed && Execute(w, run).pool.threads >= w.pool.threads
    decreases |run|
  {
    if run != [] {
      ShutdownStep(w, run[0]);
      StepInv(w, run[0]);
      hide Inv, Step;
      AfterShutdown(Step(w, run[0]), run[1..]);
    }
  }

  lemma ShutdownStep(w: World, a: Action)
    requires Inv(w) && Enabled(w, a) && w.pool.doflag == SHUTDOWN
    ensures var w' := Step(w, a); w'.pushed == w.pushed && w'.pool.threads >= w.pool.threads && w'.pool.doflag == SHUTDOWN
  {
    hide Count, InOrder, SizeIs, TokensAre, NoRepeats, OwnTasks, NoneLost;
  }

  lemma Before(w: World, a: Action, rest: seq<Action>)
    requires Enabled(w, a) && Legal(Step(w, a), rest)
    ensures Legal(w, [a] + rest) && Execute(w, [a] + rest) == Execute(Step(w, a), rest)
  {
    assert ([a] + rest)[1..] == rest;
  }

  /** What calling thread_pool_destroy in state w leads to, however the workers go on. */
  ghost predicate DestroyLoses(w: World, more: seq<Action>)
    requires Enabled(w, Control(true))
  {
    var w1 := Step(w, Control(true));
    Legal(w1, more) && Execute(w1, more).master.Destroyed? && !AllDone(Execute(w1, more))
  }

  /** A caller can tell: if a worker has counted itself when thread_pool_destroy is called, it always returns
      with every task done and an empty queue; if none has, and something was pushed, it can throw all of it
      away. */
  lemma DestroyAtCall(w: World, workers: nat, adders: nat, run: seq<Action>)
    requires Reachable(w, workers, adders, run) && w.master.Free? && Enabled(w, Control(true))
    ensures (forall more :: !DestroyLoses(w, more)) <==> w.pool.threads > 0 || w.pushed == []
    ensures forall more |
              Legal(Step(w, Control(true)), more) && Execute(Step(w, Control(true)), more).master.Destroyed? && w.pool.threads > 0 ::
              Execute(Step(w, Control(true)), more).discarded == []
    ensures w.pool.threads == 0 ==> exists more ::
              && Legal(Step(w, Control(true)), more)
              && var last := Execute(Step(w, Control(true)), more); last.master.Destroyed? && last.discarded == w.pushed && last.ran == []
  {
    ReachableInv(w, workers, adders, run);
    assert w.pool.doflag == 0;
    var end := Control(true);
    StepInv(w, end);
    var w1 := Step(w, end);
    hide Inv, AllDone;
    forall more | Legal(w1, more) && Execute(w1, more).master.Destroyed?
      ensures Execute(w1, more).pushed == w.pushed
      ensures w.pool.threads > 0 || w.pushed == [] ==> AllDone(Execute(w1, more))
      ensures w.pool.threads > 0 ==> Execute(w1, more).discarded == []
    {
      var last := Execute(w1, more);
      AfterShutdown(w1, more);
      ExecuteInv(w1, more);
      DestroyFinishes(last);
      NoneCounted(last);
    }
    if w.pool.threads == 0 {
      assert w1.master == Joining(0);
      var last := Step(w1, end);
      assert last.master == Destroyed(0);
      Before(w1, end, []);
      StepInv(w1, end);
      DestroyFinishes(last);
      assert Legal(w1, [end] + []) && Execute(w1, [end] + []) == last;
      assert w.pushed != [] ==> DestroyLoses(w, [end] + []);
    }
  }

  lemma NoneCounted(w: World)
    requires Inv(w) && w.master.Destroyed?
    ensures w.master.joined == 0 ==> w.pool.threads == 0
  {
  }

  /** It does happen: a task is thrown away when destroy is faster than the only worker. */
  lemma DestroyCanDiscard(t: BitTask) returns (run: seq<Action>)
    ensures Legal(Start(1, 1), run)
    ensures var w := Execute(Start(1, 1), run); w.master == Destroyed(0) && w.discarded == [t] && w.ran == []
  {
    var add, end := Add(0, t), Control(true);
    var w0 := Start(1, 1);
    var w1 := Step(w0, add);
    assert w1 == w0.(adders := [Checked(t)]);
    var w2 := Step(w1, add);
    assert w2.adders == [Unpushed(t)];
    var w3 := Step(w2, add);
    assert w3.adders == [Unposted] && w3.pool.queue == [t];
    var w4 := Step(w3, add);
    assert w4.adders == [Idle];
    var w5 := Step(w4, end);
    assert w5.master == Joining(0);
    var w6 := Step(w5, end);
    assert w6.master == Destroyed(0) && w6.discarded == [t] && w6.ran == [];
    hide Step, Enabled;
    Before(w5, end, []);
    Before(w4, end, [end]);
    Before(w3, add, [end] + [end]);
    Before(w2, add, [add] + ([end] + [end]));
    Before(w1, add, [add] + ([add] + ([end] + [end])));
    Before(w0, add, [add] + ([add] + ([add] + ([end] + [end]))));
    run := [add] + ([add] + ([add] + ([add] + ([end] + [end]))));
  }
}
