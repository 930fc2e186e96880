/** With at most one adder, and only then, the mask keeps a task from being queued or running twice. */
module PoolMask {
  import opened PoolRuns
  import opened ThreadPool

  function HasBit(n: nat): BitTask -> bool {
    (t: BitTask) => t.maskBit == n
  }

  /** Busy with a task of this bit, which is not clear yet. */
  function BusyWith(n: nat): Worker -> bool {
    (worker: Worker) => (worker.Running? || worker.Ran?) && worker.task.maskBit == n
  }

  /** About to push a task of this bit, which is set already. */
  function PushesBit(n: nat): Adder -> bool {
    (adder: Adder) => adder.Unpushed? && adder.task.maskBit == n
  }

  /** How many tasks of a bit are queued or running, or marked and about to be queued. */
  function Carriers(w: World, n: nat): nat {
    Count(w.pool.queue, HasBit(n)) + Count(w.discarded, HasBit(n)) + Count(w.workers, BusyWith(n)) + Count(w.adders, PushesBit(n))
  }

  ghost predicate MaskInv(w: World) {
    && |w.adders| <= 1
    && (forall n: nat :: Carriers(w, n) == One(n in w.pool.mask))
    && (forall j | 0 <= j < |w.adders| :: w.adders[j].Checked? ==> !Present(w.pool, w.adders[j].task))
    && (!w.master.Destroyed? ==> w.discarded == [])
  }

  lemma WorkerKeepsCarriers(w: World, i: nat, n: nat)
    requires MaskInv(w) && Enabled(w, Work(i))
    ensures Carriers(StepWorker(w, i), n) == One(n in StepWorker(w, i).pool.mask)
  {
    hide Count;
    assert Carriers(w, n) == One(n in w.pool.mask);
    hide MaskInv;
    CountUpdate(w.workers, i, StepWorker(w, i).workers[i], BusyWith(n));
    if w.pool.queue != [] {
      FirstCounts(w.pool.queue, HasBit(n));
    }
    SomeBusy(w.workers, i, n);
  }

  lemma FirstCounts<T>(s: seq<T>, p: T -> bool)
    requires s != []
    ensures Count(s, p) == One(p(s[0])) + Count(s[1..], p)
  {
  }

  lemma SomeBusy(workers: seq<Worker>, i: nat, n: nat)
    requires i < |workers|
    ensures BusyWith(n)(workers[i]) ==> Count(workers, BusyWith(n)) > 0
  {
    CountSome(workers, BusyWith(n));
  }

  lemma AdderKeepsCarriers(w: World, t: BitTask, n: nat)
    requires MaskInv(w) && Enabled(w, Add(0, t))
    ensures Carriers(StepAdder(w, 0, t), n) == One(n in StepAdder(w, 0, t).pool.mask)
  {
    hide Count;
    assert Carriers(w, n) == One(n in w.pool.mask);
    CountUpdate(w.adders, 0, StepAdder(w, 0, t).adders[0], PushesBit(n));
    if w.adders[0].Unpushed? {
      CountAppend(w.pool.queue, w.adders[0].task, HasBit(n));
    }
  }

  lemma MasterKeepsCarriers(w: World, destroy: bool, n: nat)
    requires MaskInv(w) && Enabled(w, Control(destroy))
    ensures Carriers(StepMaster(w, destroy), n) == One(n in StepMaster(w, destroy).pool.mask)
  {
    assert Carriers(w, n) == One(n in w.pool.mask);
    hide Carriers, MaskInv;
    assert Count<BitTask>([], HasBit(n)) == 0;
    SameCarriers(w, StepMaster(w, destroy), n);
  }

  lemma SameCarriers(w: World, w': World, n: nat)
    requires w'.workers == w.workers && w'.adders == w.adders
    requires w'.pool.queue + w'.discarded == w.pool.queue + w.discarded
    requires w.discarded == [] && (w'.discarded == [] || w'.pool.queue == [])
    ensures Carriers(w', n) == Carriers(w, n)
  {
    assert w.pool.queue + [] == w.pool.queue;
    assert w'.pool.queue + [] == w'.pool.queue && [] + w'.discarded == w'.discarded;
  }

  lemma StepKeepsMask(w: World, a: Action)
    requires MaskInv(w) && Enabled(w, a)
    ensures MaskInv(Step(w, a))
  {
    hide Carriers, Count;
    forall n: nat
      ensures Carriers(Step(w, a), n) == One(n in Step(w, a).pool.mask)
    {
      match a
      case Work(i) => WorkerKeepsCarriers(w, i, n);
      case Add(_, t) => AdderKeepsCarriers(w, t, n);
      case Control(destroy) => MasterKeepsCarriers(w, destroy, n);
    }
  }

  lemma {:induction false} RunKeepsMask(w: World, run: seq<Action>)
    requires MaskInv(w) && Legal(w, run)
    ensures MaskInv(Execute(w, run))
    decreases |run|
  {
    hide MaskInv, Step;
    if run != [] {
      StepKeepsMask(w, run[0]);
      RunKeepsMask(Step(w, run[0]), run[1..]);
    }
  }

  /** With one adder a bit is set exactly when one task that carries it is queued or running, there is never a
      second one, and an addition is refused exactly in that case. */
  lemma SingleAdder(w: World, workers: nat, run: seq<Action>, t: BitTask)
    requires Reachable(w, workers, 1, run) && t.maskBit >= 0
    ensures Carriers(w, t.maskBit) <= 1
    ensures Carriers(w, t.maskBit) == 1 <==> t.maskBit in w.pool.mask
    ensures |w.adders| == 1
    ensures w.adders[0].Idle? ==>
              StepAdder(w, 0, t) == if Carriers(w, t.maskBit) == 1 then w else w.(adders := [Checked(t)])
  {
    hide Carriers, Count;
    StartKeepsMask(workers, 1);
    RunKeepsMask(Start(workers, 1), run);
    SameAdders(Start(workers, 1), run);
    assert Carriers(w, t.maskBit) == One(t.maskBit in w.pool.mask);
  }

  lemma {:induction false} SameAdders(w: World, run: seq<Action>)
    requires Legal(w, run)
    ensures |Execute(w, run).adders| == |w.adders|
    decreases |run|
  {
    if run != [] {
      SameAdders(Step(w, run[0]), run[1..]);
    }
  }

  lemma StartKeepsMask(workers: nat, adders: nat)
    requires adders <= 1
    ensures MaskInv(Start(workers, adders))
  {
    var w := Start(workers, adders);
    forall n: nat
      ensures Carriers(w, n) == 0
    {
      CountSome(w.workers, BusyWith(n));
      CountSome(w.adders, PushesBit(n));
    }
  }

  /** Two adders can both pass the test before either sets the bit, however many there are. */
  lemma TwoAddersCanDouble(workers: nat, adders: nat, t: BitTask)
    requires t.maskBit >= 0 && adders >= 2
    ensures exists run :: Legal(Start(workers, adders), run) && Execute(Start(workers, adders), run).pool.queue == [t, t]
  {
    var w0 := Start(workers, adders);
    var a, b := Add(0, t), Add(1, t);
    var w1 := Step(w0, a);
    var w2 := Step(w1, b);
    assert w2.adders[0] == w2.adders[1] == Checked(t);
    var w3 := Step(w2, a);
    var w4 := Step(w3, b);
    assert w4.adders[0] == w4.adders[1] == Unpushed(t);
    var w5 := Step(w4, a);
    var w6 := Step(w5, b);
    Before(w5, b, []);
    Before(w4, a, [b]);
    Before(w3, b, [a] + [b]);
    Before(w2, a, [b] + ([a] + [b]));
    Before(w1, b, [a] + ([b] + ([a] + [b])));
    Before(w0, a, [b] + ([a] + ([b] + ([a] + [b]))));
  }

  /** A second task of a bit is impossible in every run if and only if there is at most one adder. */
  lemma NoDoublesIff(workers: nat, adders: nat, t: BitTask)
    requires t.maskBit >= 0
    ensures (forall run :: Legal(Start(workers, adders), run) ==> Carriers(Execute(Start(workers, adders), run), t.maskBit) <= 1)
       <==> adders <= 1
  {
    hide Carriers, Legal, Execute;
    if adders <= 1 {
      StartKeepsMask(workers, adders);
      forall run | Legal(Start(workers, adders), run)
        ensures Carriers(Execute(Start(workers, adders), run), t.maskBit) <= 1
      {
        RunKeepsMask(Start(workers, adders), run);
        var w := Execute(Start(workers, adders), run);
        assert Carriers(w, t.maskBit) == One(t.maskBit in w.pool.mask);
      }
    } else {
      TwoAddersCanDouble(workers, adders, t);
      var run :| Legal(Start(workers, adders), run) && Execute(Start(workers, adders), run).pool.queue == [t, t];
      TwoCarry(Execute(Start(workers, adders), run), t);
    }
  }

  lemma TwoCarry(w: World, t: BitTask)
    requires w.pool.queue == [t, t] && t.maskBit >= 0
    ensures Carriers(w, t.maskBit) >= 2
  {
    var q := w.pool.queue;
    assert q[1..] == [t];
    FirstCounts(q, HasBit(t.maskBit));
    FirstCounts([t], HasBit(t.maskBit));
  }
}
