/** UdpFileSend and UdpFileRecv together, over a network that loses, repeats and reorders datagrams. */
module FileTransfer {
  import opened Bytes
  import opened Packets
  import S = FileSender
  import R = FileReceiver

  /** The two parties and everything either has put on the network, in order. The network may deliver
      any datagram of the log at any later time, any number of times or never. */
  datatype World = World(s: S.Sender, r: R.Receiver, packets: seq<Datagram>, acks: seq<Datagram>)

  datatype Action = Send | SenderHears(a: Arrival) | ReceiverHears(a: Arrival)

  function Start(file: File): World {
    World(S.Start(file), R.FRESH, [], [])
  }

  predicate Deliverable(a: Arrival, log: seq<Datagram>) {
    a.Timeout? || a.d in log || Foreign(a.d)
  }

  ghost predicate Enabled(w: World, act: Action) {
    S.Sound(w.s) && match act
    case Send => w.s.phase == S.Sending
    case SenderHears(a) => w.s.phase == S.Waiting && Deliverable(a, w.acks)
    case ReceiverHears(a) => !w.r.done && Deliverable(a, w.packets)
  }

  ghost function Step(w: World, act: Action): World
    requires Enabled(w, act)
  {
    match act
    case Send => var (s, d) := S.Transmit(w.s); w.(s := s, packets := w.packets + [d])
    case SenderHears(a) => w.(s := S.Hear(w.s, a))
    case ReceiverHears(a) =>
      var (r, ack) := R.Hear(w.r, a);
      w.(r := r, acks := w.acks + if ack.Some? then [ack.value] else [])
  }

  ghost predicate Legal(w: World, acts: seq<Action>)
    decreases |acts|
  {
    acts != [] ==> Enabled(w, acts[0]) && Legal(Step(w, acts[0]), acts[1..])
  }

  ghost function Execute(w: World, acts: seq<Action>): World
    requires Legal(w, acts)
    decreases |acts|
  {
    if acts == [] then w else Execute(Step(w, acts[0]), acts[1..])
  }

  /** The network: whatever either party has ever sent may arrive at the other at any time it listens, and so may
      stray datagrams; or nothing may. */
  lemma AnythingMayArrive(w: World, d: Datagram)
    requires S.Sound(w.s)
    ensures w.s.phase == S.Waiting ==>
              Enabled(w, SenderHears(Timeout)) && (Enabled(w, SenderHears(Got(d))) <==> d in w.acks || |d| < 5 || d[0] != 1)
    ensures !w.r.done ==>
              Enabled(w, ReceiverHears(Timeout)) && (Enabled(w, ReceiverHears(Got(d))) <==> d in w.packets || |d| < 5 || d[0] != 1)
  {
  }

  /** How many packets the receiver has taken. */
  function Taken(w: World): int {
    if w.r.count == 0 then 0 else Total(w.s.file) - w.r.count + 1
  }

  /** Only packets of the file numbered down to `low` are on the network. */
  ghost predicate PacketLog(file: File, low: int, log: seq<Datagram>) {
    forall d | d in log ::
      |d| >= 5 && low <= Number(d) && 1 <= Number(d) <= Total(file) && d == Packet(file, Number(d))
  }

  /** The acknowledgements of n, n - 1, ..., each once. */
  ghost predicate AckLog(n: nat, log: seq<Datagram>) {
    |log| <= n <= INT_MAX && forall i | 0 <= i < |log| :: log[i] == Ack(n - i)
  }

  ghost predicate ReceiverSound(r: R.Receiver, file: File) {
    && 0 <= r.count <= Total(file) && r.idle == 0
    && r.done == (r.count == 1)
    && r.file == if r.count == 0 then [] else Prefix(file, r.count)
  }

  /** What every reachable state satisfies. */
  ghost predicate Inv(w: World) {
    && S.Sound(w.s)
    && ReceiverSound(w.r, w.s.file)
    && PacketLog(w.s.file, w.s.count, w.packets)
    && AckLog(Total(w.s.file), w.acks)
    && |w.packets| <= S.MAX_RESENDS * (Total(w.s.file) - w.s.count) + w.s.resends
    && |w.acks| == Taken(w)
    && (w.r.count == 0 ==> w.s.count == Total(w.s.file))
    && (w.r.count > 0 ==> w.r.count - 1 <= w.s.count <= w.r.count)
  }

  lemma StartInv(file: File)
    ensures Inv(Start(file))
  {
    S.StartSound(file);
  }

  lemma SendInv(w: World)
    requires Inv(w) && Enabled(w, Send)
    ensures Inv(Step(w, Send)) && Step(w, Send).s.file == w.s.file
  {
    S.TransmitSound(w.s);
    FrameParts(w.s.count, Chunk(w.s.file, w.s.count));
  }

  /** The acknowledgement the sender is waiting for is on the network only if the receiver took the packet. */
  lemma AckMeansTaken(w: World, d: Datagram)
    requires Inv(w) && (d in w.acks || Foreign(d)) && w.s.count > 1 && S.IsAckFor(w.s.count, d)
    ensures w.r.count == w.s.count
  {
    var i :| 0 <= i < |w.acks| && w.acks[i] == d;
    FrameParts(Total(w.s.file) - i, []);
  }

  lemma SenderHearsInv(w: World, a: Arrival)
    requires Inv(w) && Enabled(w, SenderHears(a))
    ensures Inv(Step(w, SenderHears(a))) && Step(w, SenderHears(a)).s.file == w.s.file
  {
    S.HearSound(w.s, a);
    if a.Got? && S.IsAckFor(w.s.count, a.d) {
      AckMeansTaken(w, a.d);
    }
  }

  /** A packet the receiver takes is the next one of the file. */
  lemma TakeChunk(r: R.Receiver, file: File, d: Datagram)
    requires ReceiverSound(r, file) && !r.done
    requires |d| >= 5 && 1 <= Number(d) <= Total(file) && d == Packet(file, Number(d))
    requires r.count == (if Number(d) == Total(file) then 0 else Number(d) + 1)
    ensures var r' := R.Receiver(Number(d), 0, r.file + d[5..], Number(d) == 1); ReceiverSound(r', file)
  {
    var k: int := Number(d);
    FrameParts(k, Chunk(file, k));
    PrefixGrows(file, k);
  }

  lemma ReceiverHearsInv(w: World, a: Arrival)
    requires Inv(w) && Enabled(w, ReceiverHears(a))
    ensures Inv(Step(w, ReceiverHears(a))) && Step(w, ReceiverHears(a)).s.file == w.s.file
    ensures R.Hear(w.r, a).1.None? ==> Step(w, ReceiverHears(a)) == w
    ensures R.Hear(w.r, a).1.Some? ==>
              && (w.r.count == 0 || w.r.count == w.s.count + 1)
              && Step(w, ReceiverHears(a)).r.count == w.s.count
              && Step(w, ReceiverHears(a)).acks == w.acks + [Ack(w.s.count)]
  {
    R.NoRepeatedAck(w.r, a);
    if R.Hear(w.r, a).1.None? {
      assert w.acks + [] == w.acks;
    } else {
      ReceiverTakes(w, a.d);
    }
  }

  lemma AckLogGrows(n: nat, log: seq<Datagram>, k: nat)
    requires AckLog(n, log) && |log| < n && k == n - |log|
    ensures AckLog(n, log + [Ack(k)])
  {
  }

  /** A packet that is taken is the first one or the one the sender is at. */
  lemma NextPacket(w: World, d: Datagram)
    requires Inv(w) && !w.r.done && d in w.packets
    requires w.r.count == 0 || w.r.count == Wrap(Number(d) + 1)
    ensures Number(d) == w.s.count && 1 <= w.s.count <= Total(w.s.file)
    ensures w.r.count == 0 || w.r.count == w.s.count + 1
    ensures |w.acks| == Total(w.s.file) - w.s.count
  {
  }

  lemma ReceiverTakes(w: World, d: Datagram)
    requires Inv(w) && !w.r.done && d in w.packets
    requires w.r.count == 0 || w.r.count == Wrap(Number(d) + 1)
    ensures Number(d) == w.s.count && 1 <= w.s.count <= Total(w.s.file)
    ensures w.r.count == 0 || w.r.count == w.s.count + 1
    ensures ReceiverSound(R.Receiver(w.s.count, 0, w.r.file + d[5..], w.s.count == 1), w.s.file)
    ensures AckLog(Total(w.s.file), w.acks + [Ack(w.s.count)])
    ensures |w.acks| == Total(w.s.file) - w.s.count
  {
    NextPacket(w, d);
    hide S.Sound, Wrap;
    TakeChunk(w.r, w.s.file, d);
    AckLogGrows(Total(w.s.file), w.acks, w.s.count);
  }

  lemma {:induction false} ExecuteInv(w: World, acts: seq<Action>)
    requires Inv(w) && Legal(w, acts)
    ensures Inv(Execute(w, acts)) && Execute(w, acts).s.file == w.s.file
    decreases |acts|
  {
    if acts != [] {
      match acts[0] {
        case Send => SendInv(w);
        case SenderHears(a) => SenderHearsInv(w, a);
        case ReceiverHears(a) => ReceiverHearsInv(w, a);
      }
      ExecuteInv(Step(w, acts[0]), acts[1..]);
    }
  }

  lemma AcksDiffer(n: nat, log: seq<Datagram>, i: nat, j: nat)
    requires AckLog(n, log) && i < j < |log|
    ensures log[i] != log[j]
  {
    FrameParts(n - i, []);
    FrameParts(n - j, []);
  }

  /** Safety, in every run from an empty network: the received file is always what packets
      Total, ..., count carry, the parties are at most one packet apart, a finished receiver holds the
      file, each packet is acknowledged at most once, and the sender returns "complete" only when
      the receiver holds at least everything but the last packet. */
  lemma Safety(file: File, acts: seq<Action>)
    requires Legal(Start(file), acts)
    ensures var w := Execute(Start(file), acts);
            && (w.r.count > 0 ==>
                  && w.r.count <= Total(file)
                  && w.r.file == file[..Min(|file|, (Total(file) - w.r.count + 1) * 1019)]
                  && (w.s.count == w.r.count || w.s.count == w.r.count - 1))
            && (w.r.count == 0 ==> w.r.file == [] && w.s.count == Total(file))
            && (w.r.done ==> w.r.file == file)
            && (forall i, j | 0 <= i < j < |w.acks| :: w.acks[i] != w.acks[j])
            && |w.packets| <= 30 * (Total(file) - w.s.count) + 30 + 1
            && (w.s.phase == S.Complete && file != [] ==>
                  |w.packets| <= 30 * (Total(file) - 1) + 1
                  && |w.r.file| >= (Total(file) - 1) * 1019 && w.r.file <= file)
  {
    StartInv(file);
    ExecuteInv(Start(file), acts);
    hide Legal, Execute, Inv, Prefix, S.Sound, Pieces;
    InvMeans(Execute(Start(file), acts));
  }

  lemma InvMeans(w: World)
    requires Inv(w)
    ensures var file := w.s.file;
            && (w.r.count > 0 ==>
                  && w.r.count <= Total(file)
                  && w.r.file == file[..Min(|file|, (Total(file) - w.r.count + 1) * 1019)]
                  && (w.s.count == w.r.count || w.s.count == w.r.count - 1))
            && (w.r.count == 0 ==> w.r.file == [] && w.s.count == Total(file))
            && (w.r.done ==> w.r.file == file)
            && (forall i, j | 0 <= i < j < |w.acks| :: w.acks[i] != w.acks[j])
            && |w.packets| <= 30 * (Total(file) - w.s.count) + 30 + 1
            && (w.s.phase == S.Complete && file != [] ==>
                  |w.packets| <= 30 * (Total(file) - 1) + 1
                  && |w.r.file| >= (Total(file) - 1) * 1019 && w.r.file <= file)
  {
    forall i, j | 0 <= i < j < |w.acks|
      ensures w.acks[i] != w.acks[j]
    {
      AcksDiffer(Total(w.s.file), w.acks, i, j);
    }
    hide PacketLog, AckLog;
  }

  // What a lost acknowledgement does

  /** Every acknowledgement of packet k the sender could be handed is lost from here on. */
  predicate LosesAck(acts: seq<Action>, k: nat)
    requires k <= INT_MAX
  {
    SenderHears(Got(Ack(k))) !in acts
  }

  lemma OnlyTheAck(w: World, a: Arrival)
    requires Inv(w) && w.s.count > 1 && Deliverable(a, w.acks) && a != Got(Ack(w.s.count))
    ensures a.Got? ==> !S.IsAckFor(w.s.count, a.d)
  {
    if a.Got? && S.IsAckFor(w.s.count, a.d) {
      EncodeDecode(a.d[1..5]);
    }
  }

  /** A packet is acknowledged once: if that acknowledgement is lost, the sender never gets past the
      packet and the receiver never finishes, whatever else the network does. */
  lemma {:induction false} LostAckIsFatal(w: World, acts: seq<Action>)
    requires Inv(w) && Legal(w, acts)
    requires w.s.count > 1 && w.r.count == w.s.count && LosesAck(acts, w.s.count)
    ensures var w' := Execute(w, acts);
            w'.s.count == w.s.count && w'.s.phase != S.Complete && w'.r == w.r && w'.acks == w.acks
    decreases |acts|
  {
    if acts != [] {
      var w' := Step(w, acts[0]);
      assert acts[0] != SenderHears(Got(Ack(w.s.count)));
      match acts[0] {
        case Send => SendInv(w);
        case SenderHears(a) =>
          SenderHearsInv(w, a);
          OnlyTheAck(w, a);
        case ReceiverHears(a) => ReceiverHearsInv(w, a);
      }
      LostAckIsFatal(w', acts[1..]);
    }
  }
}
