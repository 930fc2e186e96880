/** UdpFileRecv: the receiving side of the stop-and-wait file transfer. */
module FileReceiver {
  import opened Bytes
  import opened Packets
  import opened Wrappers

  /** Idle rounds after which the last acknowledgement would be repeated. */
  const IDLE_LIMIT := 1000

  datatype Receiver = Receiver(count: int32, idle: int, file: seq<byte>, done: bool)

  /** The old file is removed before the first datagram is read. */
  const FRESH := Receiver(0, 0, [], false)

  /** What one round of the loop makes of an arrival, and the acknowledgement it sends, if any. */
  function Hear(r: Receiver, a: Arrival): (Receiver, Option<Datagram>) {
    if a.Got? && |a.d| > 0 then
      if Foreign(a.d) then (r, None)
      else if r.count == 0 || r.count == Wrap(Number(a.d) + 1) then
        Acknowledge(r.(count := Number(a.d), file := r.file + a.d[5..]))
      else (r, None)
    else if r.idle + 1 < IDLE_LIMIT then (r.(idle := 0), None)
    else Acknowledge(r.(idle := r.idle + 1))
  }

  function Acknowledge(r: Receiver): (Receiver, Option<Datagram>) {
    (r.(done := r.count == 1), Some(Frame(r.count, [])))
  }

  /** The whole run: the state it stops in and the acknowledgements it sends. */
  function Run(r: Receiver, arrivals: seq<Arrival>): (Receiver, seq<Datagram>)
    decreases |arrivals|
  {
    if r.done || arrivals == [] then (r, [])
    else
      var (r', ack) := Hear(r, arrivals[0]);
      var (last, acks) := Run(r', arrivals[1..]);
      (last, (if ack.Some? then [ack.value] else []) + acks)
  }

  /** The idle counter never leaves 0, so a time-out never repeats an acknowledgement; and a receiver
      that has taken a packet never acknowledges that packet again. */
  lemma NoRepeatedAck(r: Receiver, a: Arrival)
    requires r.idle == 0
    ensures var (r', ack) := Hear(r, a);
            && r'.idle == 0
            && (ack.Some? <==> a.Got? && !Foreign(a.d) && (r.count == 0 || r.count == Wrap(Number(a.d) + 1)))
            && (ack.Some? ==> r'.count == Number(a.d) && ack.value == Frame(Number(a.d), [])
                              && r'.file == r.file + a.d[5..] && r'.done == (r'.count == 1))
            && (ack.None? ==> r' == r)
  {
  }

  /** `whole` is what remains to run from r, after `acks`. */
  ghost predicate Continues(whole: (Receiver, seq<Datagram>), acks: seq<Datagram>, r: Receiver, arrivals: seq<Arrival>) {
    whole == (Run(r, arrivals).0, acks + Run(r, arrivals).1)
  }

  lemma ContinueHear(whole: (Receiver, seq<Datagram>), acks: seq<Datagram>, r: Receiver, arrivals: seq<Arrival>, used: nat)
    requires used < |arrivals| && Continues(whole, acks, r, arrivals[used..]) && !r.done
    ensures var (r', ack) := Hear(r, arrivals[used]);
            Continues(whole, acks + (if ack.Some? then [ack.value] else []), r', arrivals[used + 1..])
  {
    var (r', ack) := Hear(r, arrivals[used]);
    assert arrivals[used..][0] == arrivals[used] && arrivals[used..][1..] == arrivals[used + 1..];
    var sent, more := if ack.Some? then [ack.value] else [], Run(r', arrivals[used + 1..]).1;
    assert acks + (sent + more) == acks + sent + more;
  }

  lemma NothingRemains(whole: (Receiver, seq<Datagram>), acks: seq<Datagram>, r: Receiver, arrivals: seq<Arrival>)
    requires Continues(whole, acks, r, arrivals) && (r.done || arrivals == [])
    ensures whole == (r, acks)
  {
    assert acks + [] == acks;
  }

  /** UdpFileRecv, for the arrivals recvfrom will report; the file is the one it writes. */
  method UdpFileRecv(arrivals: seq<Arrival>) returns (file: seq<byte>, acks: seq<Datagram>, done: bool)
    ensures var (last, sent) := Run(FRESH, arrivals); file == last.file && acks == sent && done == last.done
  {
    ghost var whole := Run(FRESH, arrivals);
    var count: int32, idle := 0, 0;
    var used := 0;
    file, acks, done := [], [], false;
    assert arrivals[0..] == arrivals && [] + whole.1 == whole.1;
    hide Run;
    while used < |arrivals|
      invariant 0 <= used <= |arrivals|
      invariant !done && Continues(whole, acks, Receiver(count, idle, file, false), arrivals[used..])
    {
      var a := arrivals[used];
      ContinueHear(whole, acks, Receiver(count, idle, file, false), arrivals, used);
      assert acks + [] == acks;
      used := used + 1;
      if a.Got? && |a.d| > 0 {
        if |a.d| < 5 {
          continue;
        }
        if a.d[0] != 1 {
          continue;
        }
        var received: int := Number(a.d);
        if count == 0 {
          count := received;
          file := file + a.d[5..];
        } else if count != Wrap(received + 1) {
          continue;
        } else {
          count := received;
          file := file + a.d[5..];
        }
      } else {
        idle := idle + 1;
        if idle < IDLE_LIMIT {
          idle := 0;
          continue;
        }
      }
      acks := acks + [Frame(count, [])];
      if count == 1 {
        done := true;
        break;
      }
    }
    NothingRemains(whole, acks, Receiver(count, idle, file, done), arrivals[used..]);
  }
}
