/** The datagrams of the file transfer and how a file is cut into them. */
module Packets {
  import opened Bytes

  /** Largest file part in one datagram: a 1024-byte buffer less the 5-byte header. */
  const DATA_LEN := 1019

  type Datagram = seq<byte>

  /** What one call of recvfrom gives: nothing before the time-out, or a datagram. */
  datatype Arrival = Timeout | Got(d: Datagram)

  /** Byte 1, the packet number, the payload. An acknowledgement has no payload. */
  function Frame(number: int32, payload: seq<byte>): (d: Datagram)
    ensures |d| == 5 + |payload|
  {
    [1] + EncodeInt(number) + payload
  }

  function Number(d: Datagram): int32
    requires |d| >= 5
  {
    DecodeInt(d[1..5])
  }

  lemma FrameParts(number: int32, payload: seq<byte>)
    ensures var d := Frame(number, payload); d[0] == 1 && Number(d) == number && d[5..] == payload
  {
    var d := Frame(number, payload);
    assert d[1..5] == EncodeInt(number);
    DecodeEncode(number);
  }

  /** A datagram that is too short or does not carry the file-transfer header byte. */
  predicate Foreign(d: Datagram) {
    |d| < 5 || d[0] != 1
  }

  /** The sender's file length is an int. */
  type File = f: seq<byte> | |f| <= INT_MAX

  /** The number of datagrams a length takes: the length over DATA_LEN, rounded up. */
  function Pieces(length: nat): (n: nat)
    ensures n <= length
    ensures (n - 1) * DATA_LEN < length <= n * DATA_LEN || n == length == 0
  {
    if length <= DATA_LEN then (if length == 0 then 0 else 1) else Pieces(length - DATA_LEN) + 1
  }

  function Total(file: File): (n: nat) {
    Pieces(|file|)
  }

  lemma PiecesRoundsUp(length: nat)
    ensures Pieces(length) == length / 1019 + if length % 1019 > 0 then 1 else 0
  {
    var n, q := Pieces(length), length / DATA_LEN;
    assert q * DATA_LEN <= length < (q + 1) * DATA_LEN;
  }

  /** What has been transferred once the packets Total, ..., number have. */
  function Prefix(file: File, number: nat): seq<byte>
    requires 1 <= number <= Total(file) + 1
  {
    file[..Min(|file|, (Total(file) - number + 1) * DATA_LEN)]
  }

  /** The part of the file that packet `number` carries; packets count down to 1. */
  function Chunk(file: File, number: nat): (c: seq<byte>)
    requires 1 <= number <= Total(file)
    ensures 1 <= |c| <= 1019
    ensures number > 1 ==> |c| == 1019
  {
    var start := (Total(file) - number) * DATA_LEN;
    file[start..Min(|file|, start + DATA_LEN)]
  }

  function Packet(file: File, number: nat): Datagram
    requires 1 <= number <= Total(file)
  {
    Frame(number, Chunk(file, number))
  }

  function Ack(number: nat): Datagram
    requires number <= INT_MAX
  {
    Frame(number, [])
  }

  lemma PrefixGrows(file: File, number: nat)
    requires 1 <= number <= Total(file)
    ensures Prefix(file, number) == Prefix(file, number + 1) + Chunk(file, number)
  {
  }

  /** The payloads of the packets Total, ..., number in the order they are sent. */
  function Payloads(file: File, number: nat): seq<byte>
    requires 1 <= number <= Total(file) + 1
    decreases Total(file) - number
  {
    if number == Total(file) + 1 then [] else Payloads(file, number + 1) + Chunk(file, number)
  }

  lemma {:induction false} PayloadsArePrefix(file: File, number: nat)
    requires 1 <= number <= Total(file) + 1
    ensures Payloads(file, number) == Prefix(file, number)
    decreases Total(file) - number
  {
    if number <= Total(file) {
      PayloadsArePrefix(file, number + 1);
      PrefixGrows(file, number);
    }
  }

  /** The payloads in the order they are sent are the file. */
  lemma PayloadsAreTheFile(file: File)
    ensures Payloads(file, 1) == file
  {
    PayloadsArePrefix(file, 1);
  }
}
