/** UdpFileSend: the sending side of the stop-and-wait file transfer. */
module FileSender {
  import opened Bytes
  import opened Packets

  /** Retries of one packet after which the sender gives up. */
  const MAX_RESENDS := 30

  /** Where the sender is: about to transmit, waiting for the acknowledgement, or returned. */
  datatype Phase = Sending | Waiting | Complete | Failed

  datatype Sender = Sender(file: File, count: int, sendlen: int, resends: int, phase: Phase)

  /** The test at the head of the outer loop. */
  function LoopTop(count: int): Phase {
    if count > 0 then Sending else Complete
  }

  function Start(file: File): Sender {
    Sender(file, Total(file), 0, 0, LoopTop(Total(file)))
  }

  function PayloadLength(s: Sender): int {
    if |s.file| - s.sendlen > DATA_LEN then DATA_LEN else |s.file| - s.sendlen
  }

  /** The datagram is built from sendlen and count; it is sent before the retry limit is looked at. */
  function Transmit(s: Sender): (r: (Sender, Datagram))
    requires Sound(s) && s.phase == Sending
  {
    var d := Frame(s.count, s.file[s.sendlen..s.sendlen + PayloadLength(s)]);
    var resends := if s.resends < 100 then s.resends + 1 else s.resends;
    var phase := if resends > MAX_RESENDS then Failed else if s.count == 1 then Complete else Waiting;
    (s.(resends := resends, phase := phase), d)
  }

  predicate IsAckFor(count: int, d: Datagram) {
    |d| == 5 && Number(d) == count && d[0] == 1
  }

  function Hear(s: Sender, a: Arrival): Sender
    requires Sound(s) && s.phase == Waiting
  {
    match a
    case Timeout => s.(phase := LoopTop(s.count))
    case Got(d) =>
      if IsAckFor(s.count, d) then
        Sender(s.file, s.count - 1, s.sendlen + PayloadLength(s), 0, LoopTop(s.count - 1))
      else s
  }

  /** What holds at every point of UdpFileSend. */
  ghost predicate Sound(s: Sender) {
    && 0 <= s.count <= Total(s.file)
    && s.sendlen == (Total(s.file) - s.count) * DATA_LEN
    && (s.count == 0 ==> Total(s.file) == 0 && s.phase == Complete)
    && match s.phase
       case Sending => 0 <= s.resends <= MAX_RESENDS && (s.count == 1 ==> s.resends == 0)
       case Waiting => s.count > 1 && 1 <= s.resends <= MAX_RESENDS
       case Complete => s.count <= 1 && s.resends == s.count
       case Failed => s.count > 1 && s.resends == MAX_RESENDS + 1
  }

  lemma StartSound(file: File)
    ensures Sound(Start(file))
  {
  }

  /** One transmission keeps the invariant, stays inside the file and sends the packet of its number. */
  lemma TransmitSound(s: Sender)
    requires Sound(s) && s.phase == Sending
    ensures var (s', d) := Transmit(s);
            && Sound(s') && s'.file == s.file && s'.count == s.count
            && s'.resends == s.resends + 1
            && s.sendlen < |s.file|
            && d == Packet(s.file, s.count)
  {
    assert s.file[s.sendlen..s.sendlen + PayloadLength(s)] == Chunk(s.file, s.count);
  }

  lemma HearSound(s: Sender, a: Arrival)
    requires Sound(s) && s.phase == Waiting
    ensures Sound(Hear(s, a)) && Hear(s, a).file == s.file
  {
  }

  /** Only one datagram is the acknowledgement of a packet. */
  lemma OnlyOneAck(count: nat, d: Datagram)
    requires count <= INT_MAX
    ensures IsAckFor(count, d) <==> d == Ack(count)
  {
    FrameParts(count, []);
    if IsAckFor(count, d) {
      EncodeDecode(d[1..5]);
      assert d == [d[0]] + d[1..5];
    }
  }

  /** A waiting sender moves on exactly on the acknowledgement it waits for, sends again exactly on a time-out,
      and takes no notice of any other datagram. */
  lemma HearsOnlyItsAck(s: Sender, a: Arrival)
    requires Sound(s) && s.phase == Waiting
    ensures var s' := Hear(s, a);
            && s.count <= INT_MAX
            && (a == Got(Ack(s.count)) ==> s'.count == s.count - 1 && s'.phase == Sending && s'.resends == 0)
            && (a == Timeout ==> s' == s.(phase := Sending))
            && (a != Got(Ack(s.count)) && a != Timeout ==> s' == s)
  {
    HearSound(s, a);
    if a.Got? {
      OnlyOneAck(s.count, a.d);
    }
  }

  /** The whole run: the state it stops in and everything it sent, for the given arrivals. */
  function Run(s: Sender, arrivals: seq<Arrival>): (r: (Sender, seq<Datagram>))
    requires Sound(s)
    decreases |arrivals|, s.phase == Sending
  {
    match s.phase
    case Sending =>
      TransmitSound(s);
      var (s', d) := Transmit(s);
      var (last, sent) := Run(s', arrivals);
      (last, [d] + sent)
    case Waiting =>
      HearSound(s, if arrivals == [] then Timeout else arrivals[0]);
      if arrivals == [] then (s, []) else Run(Hear(s, arrivals[0]), arrivals[1..])
    case _ => (s, [])
  }

  /** Every state a run stops in is sound, and transmissions are bounded by the packets acknowledged. */
  lemma {:induction false} RunSound(s: Sender, arrivals: seq<Arrival>)
    requires Sound(s)
    ensures var (last, sent) := Run(s, arrivals);
            && Sound(last) && last.file == s.file && last.count <= s.count && last.phase != Sending
            && |sent| <= MAX_RESENDS * (s.count - last.count) + last.resends - s.resends
    decreases |arrivals|, s.phase == Sending
  {
    match s.phase
    case Sending =>
      TransmitSound(s);
      RunSound(Transmit(s).0, arrivals);
    case Waiting =>
      if arrivals != [] {
        HearSound(s, arrivals[0]);
        RunSound(Hear(s, arrivals[0]), arrivals[1..]);
      }
    case _ =>
  }

  // Exactly how much is sent

  function Timeouts(arrivals: seq<Arrival>): nat {
    if arrivals == [] then 0 else (if arrivals[0] == Timeout then 1 else 0) + Timeouts(arrivals[1..])
  }

  /** How many arrivals a run takes before the sender returns. */
  function Used(s: Sender, arrivals: seq<Arrival>): (n: nat)
    requires Sound(s)
    ensures n <= |arrivals|
    decreases |arrivals|, s.phase == Sending
  {
    match s.phase
    case Sending =>
      TransmitSound(s);
      Used(Transmit(s).0, arrivals)
    case Waiting =>
      HearSound(s, if arrivals == [] then Timeout else arrivals[0]);
      if arrivals == [] then 0 else 1 + Used(Hear(s, arrivals[0]), arrivals[1..])
    case _ => 0
  }

  /** The first transmission apart, each is the answer to a time-out or to the acknowledgement of a packet. */
  lemma {:induction false} SentExactly(s: Sender, arrivals: seq<Arrival>)
    requires Sound(s)
    ensures var (last, sent) := Run(s, arrivals);
            && |sent| == (if s.phase == Sending then 1 else 0) + Timeouts(arrivals[..Used(s, arrivals)]) + s.count - last.count
            && (last.phase == Waiting ==> Used(s, arrivals) == |arrivals|)
    decreases |arrivals|, s.phase == Sending
  {
    match s.phase
    case Sending =>
      TransmitSound(s);
      SentExactly(Transmit(s).0, arrivals);
    case Waiting =>
      if arrivals != [] {
        HearSound(s, arrivals[0]);
        HearsOnlyItsAck(s, arrivals[0]);
        var s' := Hear(s, arrivals[0]);
        var n := Used(s', arrivals[1..]);
        SentExactly(s', arrivals[1..]);
        assert arrivals[..1 + n][1..] == arrivals[1..][..n];
        hide Sound, Hear, Transmit, Ack;
      }
    case _ =>
  }

  /** The packets from, from - 1, ..., to, each once. */
  function Once(file: File, from: nat, to: nat): seq<Datagram>
    requires from <= Total(file) && 1 <= to
    decreases from
  {
    if from < to then [] else [Packet(file, from)] + Once(file, from - 1, to)
  }

  /** A log without immediate repetitions. */
  function Thin(sent: seq<Datagram>): seq<Datagram> {
    if |sent| <= 1 then sent
    else if sent[0] == sent[1] then Thin(sent[1..])
    else [sent[0]] + Thin(sent[1..])
  }

  function Joined(sent: seq<Datagram>): seq<byte> {
    if sent == [] then [] else (if |sent[0]| >= 5 then sent[0][5..] else []) + Joined(sent[1..])
  }

  lemma ThinCons(d: Datagram, sent: seq<Datagram>)
    requires sent != []
    ensures Thin([d] + sent) == if sent[0] == d then Thin(sent) else [d] + Thin(sent)
  {
    assert ([d] + sent)[1..] == sent;
  }

  lemma PacketsDiffer(file: File, m: nat, n: nat)
    requires 1 <= m < n <= Total(file)
    ensures Packet(file, m) != Packet(file, n)
  {
    FrameParts(m, Chunk(file, m));
    FrameParts(n, Chunk(file, n));
  }

  /** The packets of a run, repetitions apart, counting the one a waiting sender has just sent. */
  lemma {:induction false} ThinRun(s: Sender, arrivals: seq<Arrival>)
    requires Sound(s) && (s.phase == Sending || s.phase == Waiting)
    ensures var (last, sent) := Run(s, arrivals);
            && 1 <= last.count <= s.count
            && (s.phase == Sending ==> sent != [] && sent[0] == Packet(s.file, s.count)
                                       && Thin(sent) == Once(s.file, s.count, last.count))
            && (s.phase == Waiting ==>
                  Thin([Packet(s.file, s.count)] + sent) == Once(s.file, s.count, last.count))
    decreases |arrivals|, s.phase == Sending
  {
    if s.phase == Sending {
      TransmitSound(s);
      var s' := Transmit(s).0;
      hide Sound, Packet;
      if s'.phase == Waiting {
        ThinRun(s', arrivals);
      }
    } else if arrivals != [] {
      HearSound(s, arrivals[0]);
      var s' := Hear(s, arrivals[0]);
      ThinRun(s', arrivals[1..]);
      ThinOn(s, arrivals[0], Run(s', arrivals[1..]).1, Run(s', arrivals[1..]).0.count);
    }
  }

  lemma ThinNext(file: File, count: int, count': int, sent: seq<Datagram>, to: int)
    requires 1 <= to <= count' <= count <= Total(file) && count - 1 <= count'
    requires sent != [] && sent[0] == Packet(file, count') && Thin(sent) == Once(file, count', to)
    ensures Thin([Packet(file, count)] + sent) == Once(file, count, to)
  {
    ThinCons(Packet(file, count), sent);
    if count' < count {
      PacketsDiffer(file, count', count);
    }
    hide Packet, Thin;
  }

  /** What an arrival changes about the packets still to be sent. */
  lemma ThinOn(s: Sender, a: Arrival, sent: seq<Datagram>, to: int)
    requires Sound(s) && s.phase == Waiting && Sound(Hear(s, a)) && 1 <= to <= Hear(s, a).count
    requires var s' := Hear(s, a);
             if s'.phase == Sending then sent != [] && sent[0] == Packet(s'.file, s'.count) && Thin(sent) == Once(s'.file, s'.count, to)
             else s'.phase == Waiting && Thin([Packet(s'.file, s'.count)] + sent) == Once(s'.file, s'.count, to)
    ensures Thin([Packet(s.file, s.count)] + sent) == Once(s.file, s.count, to)
  {
    var s' := Hear(s, a);
    hide Packet, Thin, IsAckFor, Once;
    if s'.phase == Sending {
      ThinNext(s.file, s.count, s'.count, sent, to);
    }
  }

  lemma {:induction false} JoinedOnce(file: File, from: nat, to: nat)
    requires 1 <= to <= from <= Total(file)
    ensures Payloads(file, from + 1) + Joined(Once(file, from, to)) == Payloads(file, to)
    decreases from
  {
    var chunk := Chunk(file, from);
    var rest := Joined(Once(file, from - 1, to));
    assert Joined(Once(file, from, to)) == chunk + rest by {
      FrameParts(from, chunk);
      assert Once(file, from, to)[1..] == Once(file, from - 1, to);
    }
    assert Payloads(file, from + 1) + (chunk + rest) == Payloads(file, from) + rest;
    if from > to {
      JoinedOnce(file, from - 1, to);
    } else {
      assert rest == [];
    }
  }

  /** A whole run of UdpFileSend: retransmissions apart it sends the packets Total, Total - 1, ... in
      order, at most 30 * (Total - 1) + 1 times in all, and when it returns "complete" the payloads it
      sent, in order, are the file. */
  lemma SentIsTheFile(file: File, arrivals: seq<Arrival>)
    requires file != []
    ensures Sound(Start(file))
    ensures var (last, sent) := Run(Start(file), arrivals);
            && 1 <= last.count <= Total(file)
            && Thin(sent) == Once(file, Total(file), last.count)
            && 1 <= |sent| <= 30 * (Total(file) - 1) + 1
            && (last.phase == Complete ==> Joined(Thin(sent)) == file)
  {
    var s := Start(file);
    var (last, sent) := Run(s, arrivals);
    RunSound(s, arrivals);
    ThinRun(s, arrivals);
    assert [] + sent == sent;
    if last.phase == Complete {
      JoinedOnce(file, Total(file), 1);
      PayloadsAreTheFile(file);
    }
  }

  /** A whole run: the state it stops in, what it sent, and how many arrivals it took. */
  type Outcome = (Sender, seq<Datagram>, nat)

  /** `whole` is what remains to run from s, after `used` arrivals were taken and `sent` was sent. */
  ghost predicate Continues(whole: Outcome, sent: seq<Datagram>, s: Sender, arrivals: seq<Arrival>, used: nat) {
    && used <= |arrivals| && Sound(s)
    && whole == (Run(s, arrivals[used..]).0, sent + Run(s, arrivals[used..]).1, used + Used(s, arrivals[used..]))
  }

  lemma ContinueTransmit(whole: Outcome, sent: seq<Datagram>, s: Sender, arrivals: seq<Arrival>, used: nat)
    requires Continues(whole, sent, s, arrivals, used) && s.phase == Sending
    ensures Continues(whole, sent + [Transmit(s).1], Transmit(s).0, arrivals, used)
    ensures 0 <= s.sendlen < |s.file| && s.count <= INT_MAX
  {
    TransmitSound(s);
    var (s', d) := Transmit(s);
    assert sent + ([d] + Run(s', arrivals[used..]).1) == sent + [d] + Run(s', arrivals[used..]).1;
  }

  lemma ContinueHear(whole: Outcome, sent: seq<Datagram>, s: Sender, arrivals: seq<Arrival>, used: nat)
    requires used < |arrivals| && Continues(whole, sent, s, arrivals, used) && s.phase == Waiting
    ensures Continues(whole, sent, Hear(s, arrivals[used]), arrivals, used + 1)
  {
    HearSound(s, arrivals[used]);
    assert arrivals[used..][0] == arrivals[used] && arrivals[used..][1..] == arrivals[used + 1..];
  }

  lemma NothingRemains(whole: Outcome, sent: seq<Datagram>, s: Sender, arrivals: seq<Arrival>, used: nat)
    requires Continues(whole, sent, s, arrivals, used)
    requires s.phase == Complete || s.phase == Failed || (s.phase == Waiting && used == |arrivals|)
    ensures whole == (s, sent, used)
  {
    assert sent + [] == sent;
  }

  /** UdpFileSend, for the arrivals recvfrom will report, of which it takes the first `used`. It stops waiting when
      they run out. */
  method UdpFileSend(file: File, arrivals: seq<Arrival>) returns (sent: seq<Datagram>, last: Sender, used: nat)
    ensures Sound(Start(file)) && (last, sent) == Run(Start(file), arrivals)
    ensures used <= |arrivals| && (last.phase == Waiting ==> used == |arrivals|)
    ensures file != [] ==> |sent| == 1 + Timeouts(arrivals[..used]) + Total(file) - last.count
  {
    hide Sound, Run, Used, Frame, Number, Pieces, Timeouts;
    StartSound(file);
    SentExactly(Start(file), arrivals);
    PiecesRoundsUp(|file|);
    ghost var whole := (Run(Start(file), arrivals).0, Run(Start(file), arrivals).1, Used(Start(file), arrivals));
    assert arrivals[0..] == arrivals && [] + whole.1 == whole.1;
    var resends, sendlen := 0, 0;
    used := 0;
    var count: int := |file| / DATA_LEN;
    if |file| % DATA_LEN > 0 {
      count := count + 1;
    }
    sent := [];
    while count > 0
      invariant 0 <= used <= |arrivals|
      invariant Continues(whole, sent, Sender(file, count, sendlen, resends, LoopTop(count)), arrivals, used)
      decreases |arrivals| - used, 1
    {
      ContinueTransmit(whole, sent, Sender(file, count, sendlen, resends, Sending), arrivals, used);
      var len1 := if |file| - sendlen > DATA_LEN then DATA_LEN else |file| - sendlen;
      sent := sent + [Frame(count, file[sendlen..sendlen + len1])];
      if resends < 100 {
        resends := resends + 1;
      }
      if resends > MAX_RESENDS {
        last := Sender(file, count, sendlen, resends, Failed);
        NothingRemains(whole, sent, last, arrivals, used);
        return;
      }
      if count == 1 {
        last := Sender(file, count, sendlen, resends, Complete);
        NothingRemains(whole, sent, last, arrivals, used);
        return;
      }
      var before := used;
      while true
        invariant before <= used <= |arrivals|
        invariant Continues(whole, sent, Sender(file, count, sendlen, resends, Waiting), arrivals, used)
        decreases |arrivals| - used
      {
        if used == |arrivals| {
          last := Sender(file, count, sendlen, resends, Waiting);
          NothingRemains(whole, sent, last, arrivals, used);
          return;
        }
        var a := arrivals[used];
        ContinueHear(whole, sent, Sender(file, count, sendlen, resends, Waiting), arrivals, used);
        used := used + 1;
        if a.Timeout? {
          break;
        }
        if |a.d| < 5 {
          continue;
        }
        if |a.d| == 5 && Number(a.d) == count && a.d[0] == 1 {
          count := count - 1;
          resends := 0;
          sendlen := sendlen + len1;
          break;
        }
      }
    }
    last := Sender(file, count, sendlen, resends, Complete);
    NothingRemains(whole, sent, last, arrivals, used);
  }
}
