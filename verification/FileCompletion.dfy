/** The runs in which packets may be lost but everything that arrives is answered in time. */
module FileCompletion {
  import opened Packets
  import opened FileTransfer
  import S = FileSender
  import R = FileReceiver

  /** Which transmissions arrive: packet number and how many times it has been sent. */
  type Fate = (int, int) -> bool

  /** The sender is about to send a packet the receiver does not have yet. */
  ghost predicate Fresh(w: World) {
    Inv(w) && w.s.phase == S.Sending && (w.r.count == 0 || w.r.count == w.s.count + 1)
  }

  /** The sender will wait for an answer to this transmission. */
  predicate Again(w: World) {
    w.s.count > 1 && w.s.resends < S.MAX_RESENDS
  }

  /** One transmission and what it leads to: the packet may arrive; if the receiver answers, the answer
      arrives before the time-out, and otherwise the sender times out. */
  ghost function Round(w: World, fate: Fate): (acts: seq<Action>)
    requires Fresh(w)
  {
    var hears := ReceiverHears(Got(Packet(w.s.file, w.s.count)));
    if fate(w.s.count, w.s.resends + 1) then
      if Again(w) then [Send, hears, SenderHears(Got(Ack(w.s.count)))] else [Send, hears]
    else
      if Again(w) then [Send, SenderHears(Timeout)] else [Send]
  }

  lemma Run1(w: World, a: Action)
    requires Enabled(w, a)
    ensures Legal(w, [a]) && Execute(w, [a]) == Step(w, a)
  {
    assert [a][1..] == [];
  }

  lemma Run2(w: World, a: Action, b: Action)
    requires Enabled(w, a) && Enabled(Step(w, a), b)
    ensures Legal(w, [a, b]) && Execute(w, [a, b]) == Step(Step(w, a), b)
  {
    Run1(Step(w, a), b);
    assert [a, b][1..] == [b];
  }

  lemma Run3(w: World, a: Action, b: Action, c: Action)
    requires Enabled(w, a) && Enabled(Step(w, a), b) && Enabled(Step(Step(w, a), b), c)
    ensures Legal(w, [a, b, c]) && Execute(w, [a, b, c]) == Step(Step(Step(w, a), b), c)
  {
    Run2(Step(w, a), b, c);
    assert [a, b, c][1..] == [b, c];
  }

  lemma Transmitted(w: World)
    requires Fresh(w)
    ensures Enabled(w, Send)
    ensures var w1 := Step(w, Send);
            && Inv(w1) && w1.r == w.r && w1.acks == w.acks
            && w1.s.file == w.s.file && w1.s.count == w.s.count && w1.s.resends == w.s.resends + 1
            && w1.s.phase == (if Again(w) then S.Waiting else if w.s.count == 1 then S.Complete else S.Failed)
            && Packet(w.s.file, w.s.count) in w1.packets
  {
    SendInv(w);
    S.TransmitSound(w.s);
    var w1 := Step(w, Send);
    assert w1.packets[|w1.packets| - 1] == Packet(w.s.file, w.s.count);
  }

  lemma Delivered(w1: World)
    requires Inv(w1) && w1.s.count >= 1 && (w1.r.count == 0 || w1.r.count == w1.s.count + 1)
    requires Packet(w1.s.file, w1.s.count) in w1.packets
    ensures var act := ReceiverHears(Got(Packet(w1.s.file, w1.s.count)));
            && Enabled(w1, act)
            && var w2 := Step(w1, act);
               Inv(w2) && w2.s == w1.s && w2.r.count == w1.s.count && Ack(w1.s.count) in w2.acks
  {
    var d := Packet(w1.s.file, w1.s.count);
    FrameParts(w1.s.count, Chunk(w1.s.file, w1.s.count));
    R.NoRepeatedAck(w1.r, Got(d));
    hide S.Sound, Packet, Frame, Number, PacketLog, AckLog, R.Hear;
    ReceiverHearsInv(w1, Got(d));
  }

  lemma Acknowledged(w2: World)
    requires Inv(w2) && w2.s.phase == S.Waiting && w2.r.count == w2.s.count && Ack(w2.s.count) in w2.acks
    ensures var act := SenderHears(Got(Ack(w2.s.count)));
            && Enabled(w2, act)
            && var w3 := Step(w2, act);
               Fresh(w3) && w3.r == w2.r && w3.s.file == w2.s.file && w3.s.count == w2.s.count - 1 && w3.s.resends == 0
  {
    FrameParts(w2.s.count, []);
    SenderHearsInv(w2, Got(Ack(w2.s.count)));
  }

  lemma TimedOut(w1: World)
    requires Inv(w1) && w1.s.phase == S.Waiting && (w1.r.count == 0 || w1.r.count == w1.s.count + 1)
    ensures var act := SenderHears(Timeout);
            && Enabled(w1, act)
            && var w2 := Step(w1, act);
               Fresh(w2) && w2.r == w1.r && w2.s == w1.s.(phase := S.Sending)
  {
    SenderHearsInv(w1, Timeout);
  }

  /** Where a round leads. */
  ghost predicate Outcome(w: World, fate: Fate, w': World) {
    var arrived := fate(w.s.count, w.s.resends + 1);
    && Inv(w') && w'.s.file == w.s.file
    && (if arrived then w'.r.count == w.s.count else w'.r == w.r)
    && if Again(w) then
         && Fresh(w')
         && w'.s.count == (if arrived then w.s.count - 1 else w.s.count)
         && w'.s.resends == (if arrived then 0 else w.s.resends + 1)
       else w'.s.phase == if w.s.count == 1 then S.Complete else S.Failed
  }

  /** A round is a legal piece of a run. Afterwards the sender has moved on if the packet arrived, is about
      to repeat it if it did not, or has returned. */
  lemma RoundOutcome(w: World, fate: Fate)
    requires Fresh(w)
    ensures Legal(w, Round(w, fate)) && Outcome(w, fate, Execute(w, Round(w, fate)))
  {
    if fate(w.s.count, w.s.resends + 1) {
      RoundArrives(w, fate);
    } else {
      RoundLost(w, fate);
    }
  }

  lemma RoundArrives(w: World, fate: Fate)
    requires Fresh(w) && fate(w.s.count, w.s.resends + 1)
    ensures Legal(w, Round(w, fate)) && Outcome(w, fate, Execute(w, Round(w, fate)))
  {
    var d := Packet(w.s.file, w.s.count);
    assert Round(w, fate) == if Again(w) then [Send, ReceiverHears(Got(d)), SenderHears(Got(Ack(w.s.count)))]
                             else [Send, ReceiverHears(Got(d))];
    hide Inv, Step, S.Sound, Enabled, Legal, Execute, Packet, Round;
    Transmitted(w);
    Delivered(Step(w, Send));
    if Again(w) {
      ArrivesAndAgain(w, fate, d);
    } else {
      Run2(w, Send, ReceiverHears(Got(d)));
    }
  }

  lemma ArrivesAndAgain(w: World, fate: Fate, d: Datagram)
    requires Fresh(w) && Again(w) && d == Packet(w.s.file, w.s.count)
    ensures var acts := [Send, ReceiverHears(Got(d)), SenderHears(Got(Ack(w.s.count)))];
            && Legal(w, acts)
            && var w' := Execute(w, acts);
               Fresh(w') && w'.s.file == w.s.file && w'.r.count == w.s.count
               && w'.s.count == w.s.count - 1 && w'.s.resends == 0
  {
    hide Inv, Step, S.Sound, Enabled, Legal, Execute, Packet;
    Transmitted(w);
    var w1 := Step(w, Send);
    Delivered(w1);
    var w2 := Step(w1, ReceiverHears(Got(d)));
    Acknowledged(w2);
    Run3(w, Send, ReceiverHears(Got(d)), SenderHears(Got(Ack(w.s.count))));
  }

  lemma RoundLost(w: World, fate: Fate)
    requires Fresh(w) && !fate(w.s.count, w.s.resends + 1)
    ensures Legal(w, Round(w, fate)) && Outcome(w, fate, Execute(w, Round(w, fate)))
  {
    hide Inv, Step, S.Sound, Enabled, Legal, Execute;
    Transmitted(w);
    var w1 := Step(w, Send);
    if Again(w) {
      TimedOut(w1);
      Run2(w, Send, SenderHears(Timeout));
    } else {
      Run1(w, Send);
    }
  }

  /** The whole lock-step run from a fresh state. */
  ghost function Lockstep(w: World, fate: Fate): World
    requires Fresh(w)
    decreases w.s.count, S.MAX_RESENDS - w.s.resends
  {
    RoundOutcome(w, fate);
    var w' := Execute(w, Round(w, fate));
    if Again(w) then Lockstep(w', fate) else w'
  }

  lemma {:induction false} ExecuteAppend(w: World, a: seq<Action>, b: seq<Action>)
    requires Legal(w, a) && Legal(Execute(w, a), b)
    ensures Legal(w, a + b) && Execute(w, a + b) == Execute(Execute(w, a), b)
    decreases |a|
  {
    if a == [] {
      assert a + b == b;
    } else {
      ExecuteAppend(Step(w, a[0]), a[1..], b);
      assert (a + b)[1..] == a[1..] + b;
    }
  }

  /** The lock-step run is one of the runs of the two parties. */
  lemma {:induction false} LockstepIsARun(w: World, fate: Fate) returns (acts: seq<Action>)
    requires Fresh(w)
    ensures Legal(w, acts) && Execute(w, acts) == Lockstep(w, fate)
    decreases w.s.count, S.MAX_RESENDS - w.s.resends
  {
    RoundOutcome(w, fate);
    acts := Round(w, fate);
    if Again(w) {
      var more := LockstepIsARun(Execute(w, acts), fate);
      ExecuteAppend(w, acts, more);
      acts := acts + more;
    }
  }

  predicate GetsThrough(fate: Fate, number: int, attempt: int) {
    exists k | attempt <= k <= S.MAX_RESENDS :: fate(number, k)
  }

  /** The remaining packets above 1 get through: the one being sent from this attempt on, the others from
      their first. */
  predicate AllGetThrough(fate: Fate, count: int, attempt: int) {
    && (count > 1 ==> GetsThrough(fate, count, attempt))
    && (forall k | 1 < k < count :: GetsThrough(fate, k, 1))
  }

  /** One more attempt, or one packet fewer. */
  lemma GetThroughStep(fate: Fate, count: int, attempt: int)
    requires count > 1 && attempt <= S.MAX_RESENDS
    ensures AllGetThrough(fate, count, attempt)
            <==> if fate(count, attempt) then AllGetThrough(fate, count - 1, 1) else AllGetThrough(fate, count, attempt + 1)
  {
    if fate(count, attempt) {
      assert GetsThrough(fate, count, attempt);
    } else {
      assert GetsThrough(fate, count, attempt) <==> GetsThrough(fate, count, attempt + 1);
    }
  }

  ghost predicate Succeeded(w: World, file: File) {
    w.s.phase == S.Complete && w.r.done && w.r.file == file
  }

  /** The sender completes if the packets above 1 get through; packet 1 is sent once. */
  ghost predicate Ends(w: World, fate: Fate, last: World) {
    && (last.s.phase == S.Complete <==> AllGetThrough(fate, w.s.count, w.s.resends + 1))
    && (Succeeded(last, w.s.file) <==> AllGetThrough(fate, w.s.count, w.s.resends + 1) && fate(1, 1))
  }

  lemma {:induction false} LockstepOutcome(w: World, fate: Fate)
    requires Fresh(w)
    ensures Ends(w, fate, Lockstep(w, fate))
    decreases w.s.count, S.MAX_RESENDS - w.s.resends
  {
    if Again(w) {
      RoundOutcome(w, fate);
      var w' := Execute(w, Round(w, fate));
      LockstepOutcome(w', fate);
      assert Lockstep(w, fate) == Lockstep(w', fate);
      hide *;
      MoreRounds(w, fate, w', Lockstep(w', fate));
    } else {
      LastRound(w, fate);
    }
  }

  lemma MoreRounds(w: World, fate: Fate, w': World, last: World)
    requires Fresh(w) && Again(w) && Outcome(w, fate, w') && Ends(w', fate, last)
    ensures Ends(w, fate, last)
  {
    hide Inv, Succeeded, AllGetThrough;
    GetThroughStep(fate, w.s.count, w.s.resends + 1);
  }

  lemma LastRound(w: World, fate: Fate)
    requires Fresh(w) && !Again(w)
    ensures Legal(w, Round(w, fate)) && Ends(w, fate, Execute(w, Round(w, fate)))
  {
    hide Legal, Execute, Round;
    RoundOutcome(w, fate);
    if w.s.count > 1 {
      assert !GetsThrough(fate, w.s.count, w.s.resends + 1);
    }
  }

  /** When a packet that arrives is always answered in time, one after the other, the run ends, and it ends
      with the sender "complete" and the receiver holding the whole file exactly when each packet above 1
      arrives within its first 30 transmissions and packet 1 arrives. */
  lemma LockstepCompletion(file: File, fate: Fate) returns (acts: seq<Action>)
    requires file != []
    ensures Fresh(Start(file)) && Legal(Start(file), acts)
    ensures var w := Execute(Start(file), acts);
            && w == Lockstep(Start(file), fate)
            && (w.s.phase == S.Complete || w.s.phase == S.Failed)
            && (w.s.phase == S.Complete <==> forall k | 1 < k <= Total(file) :: GetsThrough(fate, k, 1))
            && (Succeeded(w, file) <==> (forall k | 1 < k <= Total(file) :: GetsThrough(fate, k, 1)) && fate(1, 1))
  {
    StartInv(file);
    var w := Start(file);
    hide Inv, Legal, Execute;
    acts := LockstepIsARun(w, fate);
    LockstepOutcome(w, fate);
    LockstepEnds(w, fate);
  }

  lemma {:induction false} LockstepEnds(w: World, fate: Fate)
    requires Fresh(w)
    ensures Lockstep(w, fate).s.phase == S.Complete || Lockstep(w, fate).s.phase == S.Failed
    decreases w.s.count, S.MAX_RESENDS - w.s.resends
  {
    RoundOutcome(w, fate);
    if Again(w) {
      LockstepEnds(Execute(w, Round(w, fate)), fate);
    }
  }
}
