/** How the file transfer ends, in every run over every network. */
module FileOutcome {
  import Bytes
  import opened Packets
  import opened FileCompletion
  import opened FileTransfer
  import S = FileSender
  import R = FileReceiver

  // What the parties have heard

  /** The sender was handed the acknowledgement of packet k. */
  predicate AckHeard(acts: seq<Action>, k: nat)
    requires k <= Bytes.INT_MAX
  {
    SenderHears(Got(Ack(k))) in acts
  }

  /** The receiver was handed packet k. */
  predicate PacketHeard(file: File, acts: seq<Action>, k: nat)
    requires 1 <= k <= Total(file)
  {
    ReceiverHears(Got(Packet(file, k))) in acts
  }

  lemma FirstOf(acts: seq<Action>, a: Action)
    requires acts != []
    ensures a in acts <==> a == acts[0] || a in acts[1..]
  {
    assert acts == [acts[0]] + acts[1..];
  }

  lemma StepKeeps(w: World, a: Action)
    requires Inv(w) && Enabled(w, a)
    ensures Inv(Step(w, a)) && Step(w, a).s.file == w.s.file
  {
    match a
    case Send => SendInv(w);
    case SenderHears(x) => SenderHearsInv(w, x);
    case ReceiverHears(x) => ReceiverHearsInv(w, x);
  }

  /** The sender passes packet k at the step at which it hears its acknowledgement. */
  lemma AckStep(w: World, a: Action, k: nat)
    requires Inv(w) && Enabled(w, a) && 1 < k <= w.s.count
    ensures a == SenderHears(Got(Ack(k))) <==> Step(w, a).s.count < k
  {
    hide S.Sound, PacketLog;
    match a
    case Send => SendInv(w); S.TransmitSound(w.s);
    case SenderHears(x) =>
      if x == Got(Ack(k)) {
        AckInLog(w, k);
      } else if x != Got(Ack(w.s.count)) {
        OnlyTheAck(w, x);
      }
      FrameParts(w.s.count, []);
    case ReceiverHears(x) =>
  }

  lemma AckInLog(w: World, k: nat)
    requires Inv(w) && 1 < k <= w.s.count && Deliverable(Got(Ack(k)), w.acks)
    ensures w.s.count == k
  {
    FrameParts(k, []);
    var i :| 0 <= i < |w.acks| && w.acks[i] == Ack(k);
    FrameParts(Total(w.s.file) - i, []);
  }

  lemma {:induction false} AcksHeard(w: World, acts: seq<Action>, k: nat)
    requires Inv(w) && Legal(w, acts) && 1 < k <= w.s.count
    ensures AckHeard(acts, k) <==> Execute(w, acts).s.count < k
    decreases |acts|
  {
    if acts != [] {
      FirstOf(acts, SenderHears(Got(Ack(k))));
      hide Inv, Step, Enabled, S.Sound, Ack;
      var w' := Step(w, acts[0]);
      StepKeeps(w, acts[0]);
      AckStep(w, acts[0], k);
      if k <= w'.s.count {
        AcksHeard(w', acts[1..], k);
      } else {
        CountFalls(w', acts[1..]);
      }
    }
  }

  lemma {:induction false} CountFalls(w: World, acts: seq<Action>)
    requires Inv(w) && Legal(w, acts)
    ensures Execute(w, acts).s.count <= w.s.count
    decreases |acts|
  {
    if acts != [] {
      StepKeeps(w, acts[0]);
      CountFalls(Step(w, acts[0]), acts[1..]);
    }
  }

  /** The receiver holds packet k. */
  predicate Holding(w: World, k: nat) {
    0 < w.r.count <= k
  }

  lemma HearingTakes(w: World, k: nat)
    requires Inv(w) && 1 <= k <= Total(w.s.file) && !Holding(w, k) && Packet(w.s.file, k) in w.packets
    ensures var d := Packet(w.s.file, k);
            !Foreign(d) && k == w.s.count && (w.r.count == 0 || w.r.count == Bytes.Wrap(Number(d) + 1))
  {
    FrameParts(k, Chunk(w.s.file, k));
    hide Packet, Number, S.Sound, AckLog, ReceiverSound;
    assert Number(Packet(w.s.file, k)) == k;
  }

  lemma TakingHears(w: World, d: Datagram, k: nat)
    requires Inv(w) && 1 <= k <= Total(w.s.file) && !Holding(w, k) && d in w.packets && Number(d) == w.s.count <= k
    requires w.r.count == 0 || w.r.count == w.s.count + 1
    ensures d == Packet(w.s.file, k)
  {
    hide Packet, Number, S.Sound, AckLog, ReceiverSound;
  }

  /** The receiver takes packet k at the step at which it hears it. */
  lemma PacketStep(w: World, a: Action, k: nat)
    requires Inv(w) && Enabled(w, a) && 1 <= k <= Total(w.s.file) && !Holding(w, k)
    ensures a == ReceiverHears(Got(Packet(w.s.file, k))) <==> Holding(Step(w, a), k)
  {
    if a.ReceiverHears? {
      FrameParts(k, Chunk(w.s.file, k));
      ReceiverHearsInv(w, a.a);
      R.NoRepeatedAck(w.r, a.a);
      var r', ack := R.Hear(w.r, a.a).0, R.Hear(w.r, a.a).1;
      assert Step(w, a).r == r' && w.r.idle == 0;
      if a == ReceiverHears(Got(Packet(w.s.file, k))) {
        HearingTakes(w, k);
      }
      if ack.Some? && w.s.count <= k {
        TakingHears(w, a.a.d, k);
      }
      hide R.Hear, Packet, Number, Inv, Foreign, Step, Enabled;
    }
  }

  lemma {:induction false} HoldingStays(w: World, acts: seq<Action>, k: nat)
    requires Inv(w) && Legal(w, acts) && Holding(w, k)
    ensures Holding(Execute(w, acts), k)
    decreases |acts|
  {
    if acts != [] {
      StepKeeps(w, acts[0]);
      if acts[0].ReceiverHears? {
        ReceiverHearsInv(w, acts[0].a);
      }
      HoldingStays(Step(w, acts[0]), acts[1..], k);
    }
  }

  lemma {:induction false} PacketsHeard(w: World, acts: seq<Action>, k: nat)
    requires Inv(w) && Legal(w, acts) && 1 <= k <= Total(w.s.file) && !Holding(w, k)
    ensures PacketHeard(w.s.file, acts, k) <==> Holding(Execute(w, acts), k)
    decreases |acts|
  {
    if acts != [] {
      FirstOf(acts, ReceiverHears(Got(Packet(w.s.file, k))));
      hide Inv, Step, Enabled, Holding, S.Sound, Packet;
      var w' := Step(w, acts[0]);
      StepKeeps(w, acts[0]);
      PacketStep(w, acts[0], k);
      if Holding(w', k) {
        HoldingStays(w', acts[1..], k);
      } else {
        PacketsHeard(w', acts[1..], k);
      }
    }
  }

  // How often a packet is transmitted

  ghost function Sent(w: World, k: nat): nat
    requires 1 <= k <= Total(w.s.file)
  {
    multiset(w.packets)[Packet(w.s.file, k)]
  }

  /** Packets not reached yet have not been sent, those passed were sent 1 to 30 times, and the retry counter
      counts the transmissions of the packet in between. */
  ghost predicate SentIsCounted(w: World) {
    forall k | 1 <= k <= Total(w.s.file) ::
      if k < w.s.count then Sent(w, k) == 0
      else if k == w.s.count then Sent(w, k) == w.s.resends
      else 1 <= Sent(w, k) <= S.MAX_RESENDS
  }

  lemma SendCounts(w: World)
    requires Inv(w) && Enabled(w, Send) && SentIsCounted(w)
    ensures SentIsCounted(Step(w, Send))
  {
    S.TransmitSound(w.s);
    var w' := Step(w, Send);
    assert w'.packets == w.packets + [Packet(w.s.file, w.s.count)];
    forall k | 1 <= k <= Total(w.s.file)
      ensures Sent(w', k) == Sent(w, k) + if k == w.s.count then 1 else 0
    {
      if k < w.s.count {
        S.PacketsDiffer(w.s.file, k, w.s.count);
      } else if k > w.s.count {
        S.PacketsDiffer(w.s.file, w.s.count, k);
      }
    }
    hide Packet, Sent, PacketLog, ReceiverSound, AckLog;
  }

  lemma StepCounts(w: World, a: Action)
    requires Inv(w) && Enabled(w, a) && SentIsCounted(w)
    ensures SentIsCounted(Step(w, a))
  {
    if a.Send? {
      SendCounts(w);
    } else {
      StepKeeps(w, a);
      var w' := Step(w, a);
      assert forall k | 1 <= k <= Total(w.s.file) :: Sent(w', k) == Sent(w, k);
      hide Packet, Sent, PacketLog, ReceiverSound, AckLog, R.Hear, S.IsAckFor;
    }
  }

  lemma {:induction false} RunCounts(w: World, acts: seq<Action>)
    requires Inv(w) && Legal(w, acts) && SentIsCounted(w)
    ensures SentIsCounted(Execute(w, acts))
    decreases |acts|
  {
    hide Inv, SentIsCounted;
    if acts != [] {
      StepKeeps(w, acts[0]);
      StepCounts(w, acts[0]);
      RunCounts(Step(w, acts[0]), acts[1..]);
    }
  }

  /** How often the sender timed out. */
  function TimeoutsIn(acts: seq<Action>): nat {
    if acts == [] then 0 else (if acts[0] == SenderHears(Timeout) then 1 else 0) + TimeoutsIn(acts[1..])
  }

  function DueToSend(w: World): nat {
    if w.s.phase == S.Sending then 1 else 0
  }

  lemma StepSends(w: World, a: Action)
    requires Inv(w) && Enabled(w, a)
    ensures var w' := Step(w, a);
            |w'.packets| + DueToSend(w') + w'.s.count == |w.packets| + DueToSend(w) + w.s.count + if a == SenderHears(Timeout) then 1 else 0
  {
    match a
    case Send => S.TransmitSound(w.s);
    case SenderHears(x) => S.HearsOnlyItsAck(w.s, x);
    case ReceiverHears(_) =>
  }

  lemma {:induction false} RunSends(w: World, acts: seq<Action>)
    requires Inv(w) && Legal(w, acts)
    ensures var last := Execute(w, acts);
            |last.packets| + DueToSend(last) + last.s.count == |w.packets| + DueToSend(w) + w.s.count + TimeoutsIn(acts)
    decreases |acts|
  {
    hide Inv, Step, Enabled, DueToSend;
    if acts != [] {
      StepKeeps(w, acts[0]);
      StepSends(w, acts[0]);
      RunSends(Step(w, acts[0]), acts[1..]);
    }
  }

  /** In every run over every network: the first transmission apart, a packet is sent exactly once for each time-out
      and for each packet acknowledged. Stray datagrams lead to nothing. */
  lemma TransmissionsExactly(file: File, acts: seq<Action>)
    requires file != [] && Legal(Start(file), acts)
    ensures var w := Execute(Start(file), acts);
            |w.packets| + (if w.s.phase == S.Sending then 1 else 0) == 1 + TimeoutsIn(acts) + Total(file) - w.s.count
  {
    StartInv(file);
    RunSends(Start(file), acts);
  }

  // The outcome of every run

  ghost predicate Over(w: World) {
    w.s.phase == S.Complete || w.s.phase == S.Failed
  }

  /** Whatever the network does: once the sender has returned, it returned "complete" exactly if it heard every
      acknowledgement above 1, and the transfer succeeded exactly if besides the receiver heard packet 1. No
      packet is sent more than 31 times, packet 1 at most once, and the sender fails exactly if one is sent
      a 31st time. */
  lemma Completion(file: File, acts: seq<Action>)
    requires file != [] && Legal(Start(file), acts) && Over(Execute(Start(file), acts))
    ensures var w := Execute(Start(file), acts);
            && (w.s.phase == S.Complete <==> forall k | 1 < k <= Total(file) :: AckHeard(acts, k))
            && (Succeeded(w, file) <==> (forall k | 1 < k <= Total(file) :: AckHeard(acts, k)) && PacketHeard(file, acts, 1))
            && w.s.file == file
            && (w.s.phase == S.Failed <==> exists k | 1 < k <= Total(file) :: Sent(w, k) == 31)
            && (forall k | 1 < k <= Total(file) :: Sent(w, k) <= 31) && Sent(w, 1) <= 1
  {
    StartInv(file);
    var w0 := Start(file);
    var w := Execute(w0, acts);
    ExecuteInv(w0, acts);
    forall k | 1 < k <= Total(file)
      ensures AckHeard(acts, k) <==> w.s.count < k
    {
      AcksHeard(w0, acts, k);
    }
    PacketsHeard(w0, acts, 1);
    RunCounts(w0, acts);
    EndOfRun(w);
    hide AckHeard, PacketHeard, Legal, Execute, Inv, SentIsCounted, Holding;
    if w.s.phase == S.Failed {
      assert !AckHeard(acts, w.s.count);
    }
  }

  lemma EndOfRun(w: World)
    requires Inv(w) && SentIsCounted(w) && Over(w) && w.s.file != []
    ensures w.s.phase == S.Complete <==> w.s.count <= 1
    ensures Succeeded(w, w.s.file) <==> w.s.phase == S.Complete && Holding(w, 1)
    ensures w.s.phase == S.Failed <==> exists k | 1 < k <= Total(w.s.file) :: Sent(w, k) == S.MAX_RESENDS + 1
    ensures w.s.phase == S.Failed ==> 1 < w.s.count <= Total(w.s.file)
    ensures (forall k | 1 < k <= Total(w.s.file) :: Sent(w, k) <= S.MAX_RESENDS + 1) && Sent(w, 1) <= 1
  {
    hide Sent, PacketLog, AckLog;
    if w.s.phase == S.Failed {
      assert Sent(w, w.s.count) == S.MAX_RESENDS + 1;
    }
  }

  /** If every acknowledgement above 1 that was sent is heard, the transfer succeeds exactly if every packet is
      heard. */
  lemma CompletionWithoutLostAcks(file: File, acts: seq<Action>)
    requires file != [] && Legal(Start(file), acts) && Over(Execute(Start(file), acts))
    requires forall k | 1 < k <= Total(file) && PacketHeard(file, acts, k) :: AckHeard(acts, k)
    ensures Succeeded(Execute(Start(file), acts), file) <==> forall k | 1 <= k <= Total(file) :: PacketHeard(file, acts, k)
  {
    Completion(file, acts);
    StartInv(file);
    ExecuteInv(Start(file), acts);
    var w := Execute(Start(file), acts);
    forall k | 1 <= k <= Total(file)
      ensures PacketHeard(file, acts, k) <==> Holding(w, k)
    {
      PacketsHeard(Start(file), acts, k);
    }
    hide AckHeard, PacketHeard, Legal, Execute, Sent;
  }

  // Both ways to fail do happen

  predicate AboveOne(number: int, attempt: int) {
    number > 1
  }

  lemma UnfinishedDiffers(w: World)
    requires Inv(w) && !w.r.done && w.s.file != []
    ensures w.r.file != w.s.file
  {
    hide S.Sound, PacketLog, AckLog;
  }

  /** For every file there is a run in which the sender returns "complete" and the receiver never gets the last
      packet. */
  lemma CompleteWithoutLastPacket(file: File) returns (acts: seq<Action>)
    requires file != []
    ensures Legal(Start(file), acts)
    ensures var w := Execute(Start(file), acts); w.s.phase == S.Complete && !w.r.done && w.r.file != file
  {
    acts := LockstepCompletion(file, AboveOne);
    forall k: int | 1 < k <= Total(file)
      ensures GetsThrough(AboveOne, k, 1)
    {
      assert AboveOne(k, 1);
    }
    StartInv(file);
    ExecuteInv(Start(file), acts);
    var w := Execute(Start(file), acts);
    hide Inv, Legal, Execute, Fresh;
    if w.r.done {
      DoneIsWhole(w);
    } else {
      UnfinishedDiffers(w);
    }
  }

  lemma DoneIsWhole(w: World)
    requires Inv(w) && w.r.done
    ensures w.r.file == w.s.file
  {
    hide S.Sound, PacketLog, AckLog;
  }

  predicate Unanswered(acts: seq<Action>) {
    forall a | a in acts :: a == Send || a == SenderHears(Timeout)
  }

  /** One more transmission without an answer: the sender fails, or is about to send the packet once more. */
  lemma Retry(w: World) returns (acts: seq<Action>)
    requires Inv(w) && w.s.phase == S.Sending && w.s.count > 1
    ensures Legal(w, acts) && Unanswered(acts)
    ensures var w' := Execute(w, acts);
            && Inv(w') && w'.r == w.r
            && (w'.s.phase == S.Failed
                || (w'.s.phase == S.Sending && w'.s.count == w.s.count && w'.s.resends == w.s.resends + 1))
  {
    SendInv(w);
    S.TransmitSound(w.s);
    var w1 := Step(w, Send);
    hide PacketLog, AckLog, ReceiverSound, Legal, Execute;
    if w1.s.phase == S.Failed {
      Run1(w, Send);
      acts := [Send];
    } else {
      SenderHearsInv(w1, Timeout);
      Run2(w, Send, SenderHears(Timeout));
      acts := [Send, SenderHears(Timeout)];
    }
  }

  /** The acknowledgement lost, the sender can run into its limit. */
  lemma {:induction false} GivesUp(w: World) returns (acts: seq<Action>)
    requires Inv(w) && w.s.phase == S.Sending && w.s.count > 1 && w.s.resends <= S.MAX_RESENDS
    ensures Legal(w, acts) && Execute(w, acts).s.phase == S.Failed && Execute(w, acts).r == w.r && Unanswered(acts)
    decreases S.MAX_RESENDS - w.s.resends
  {
    hide Inv, Legal, Execute;
    acts := Retry(w);
    var w' := Execute(w, acts);
    if w'.s.phase != S.Failed {
      NotYet(w');
      var more := GivesUp(w');
      ExecuteAppend(w, acts, more);
      acts := acts + more;
    }
  }

  lemma NotYet(w: World)
    requires Inv(w) && w.s.phase == S.Sending
    ensures w.s.resends <= S.MAX_RESENDS
  {
  }

  lemma HeardThenTimeout(w: World)
    requires Inv(w) && w.s.phase == S.Waiting
    ensures Enabled(w, SenderHears(Timeout))
    ensures var w' := Step(w, SenderHears(Timeout));
            Inv(w') && w'.s.phase == S.Sending && w'.s.count == w.s.count && w'.s.resends <= S.MAX_RESENDS && w'.r == w.r
  {
    SenderHearsInv(w, Timeout);
  }

  /** A packet arrives and its answer does not. */
  lemma HeardUnanswered(w: World) returns (acts: seq<Action>)
    requires Fresh(w) && Again(w)
    ensures Legal(w, acts) && acts == [Send, ReceiverHears(Got(Packet(w.s.file, w.s.count))), SenderHears(Timeout)]
    ensures var w' := Execute(w, acts);
            && Inv(w') && w'.s.phase == S.Sending && w'.s.count == w.s.count && w'.s.resends <= S.MAX_RESENDS
            && w'.r.count == w.s.count
  {
    var hears := ReceiverHears(Got(Packet(w.s.file, w.s.count)));
    acts := [Send, hears, SenderHears(Timeout)];
    hide Inv, S.Sound, Legal, Execute, Step, Enabled, Packet, R.Hear;
    Transmitted(w);
    hide Fresh;
    var w1 := Step(w, Send);
    Delivered(w1);
    var w2 := Step(w1, hears);
    HeardThenTimeout(w2);
    Run3(w, Send, hears, SenderHears(Timeout));
  }

  lemma StartFresh(file: File)
    requires file != []
    ensures Fresh(Start(file))
  {
    StartInv(file);
  }

  lemma NotDone(w: World)
    requires Inv(w) && w.r.count > 1
    ensures !w.r.done
  {
    hide S.Sound, PacketLog, AckLog;
  }

  lemma UnansweredFails(w: World) returns (acts: seq<Action>)
    requires Fresh(w) && Again(w)
    ensures Legal(w, acts) && ReceiverHears(Got(Packet(w.s.file, w.s.count))) in acts
    ensures forall a | a in acts :: a.SenderHears? ==> a.a == Timeout
    ensures var w' := Execute(w, acts); w'.s.phase == S.Failed && w'.r.count == w.s.count && !w'.r.done
  {
    hide Legal, Execute, Inv, Fresh, Packet, S.Sound;
    var first := HeardUnanswered(w);
    assert first[1] in first;
    var w' := Execute(w, first);
    var more := GivesUp(w');
    ExecuteAppend(w, first, more);
    acts := first + more;
    NotDone(w');
  }

  /** For every file of at least two packets there is a run in which the receiver hears the first one, its
      acknowledgement is lost, and the sender fails. */
  lemma LostAckCanHappen(file: File) returns (acts: seq<Action>)
    requires Total(file) > 1
    ensures Legal(Start(file), acts) && PacketHeard(file, acts, Total(file)) && !AckHeard(acts, Total(file))
    ensures var w := Execute(Start(file), acts); w.s.phase == S.Failed && w.r.count == Total(file) && !w.r.done
  {
    StartFresh(file);
    hide Legal, Execute, Inv, Fresh, Packet, Ack, Pieces;
    acts := UnansweredFails(Start(file));
  }
}
