/** A message built by any sequence of calls, sent, and read on the other side. */
module IpcRoundTrip {
  import opened Bytes
  import opened IpcMessage
  import opened IpcBuilder
  import opened Wrappers

  datatype Call = Fill(dataType: int32, flags: Flags, data: seq<byte>) | Attach(data: seq<byte>)

  /** What one call does to the items, oldest first. */
  function After(items: seq<Item>, call: Call, sideType: int): seq<Item> {
    match call
    case Fill(t, f, data) => items + [Item(t % 0x100_0000, Kept(Sided(f, sideType)), data)]
    case Attach(data) => Extended(items, data)
  }

  function AfterAll(items: seq<Item>, calls: seq<Call>, sideType: int): seq<Item>
    decreases |calls|
  {
    if calls == [] then items else AfterAll(After(items, calls[0], sideType), calls[1..], sideType)
  }

  /** All the data of some attachments. */
  function Attached(data: seq<seq<byte>>): seq<byte> {
    if data == [] then [] else data[0] + Attached(data[1..])
  }

  function Attachments(data: seq<seq<byte>>): seq<Call> {
    if data == [] then [] else [Attach(data[0])] + Attachments(data[1..])
  }

  /** An item is its own data and then everything attached before the next one; the items before it are not touched. */
  lemma {:induction false} OwnDataAndAttached(items: seq<Item>, item: Item, data: seq<seq<byte>>, rest: seq<Call>, sideType: int)
    ensures AfterAll(items + [item], Attachments(data) + rest, sideType)
         == AfterAll(items + [item.(payload := item.payload + Attached(data))], rest, sideType)
    decreases |data|
  {
    hide Kept, Sided;
    var calls := Attachments(data) + rest;
    if data == [] {
      assert calls == rest && item.payload + [] == item.payload;
    } else {
      var longer := item.(payload := item.payload + data[0]);
      assert calls[0] == Attach(data[0]) && calls[1..] == Attachments(data[1..]) + rest;
      assert (items + [item])[..|items|] == items;
      assert After(items + [item], calls[0], sideType) == items + [longer];
      OwnDataAndAttached(items, longer, data[1..], rest, sideType);
      assert item.payload + data[0] + Attached(data[1..]) == item.payload + Attached(data);
    }
  }

  /** Every item says which side it comes from: 1 from a server, 0 from a client. */
  predicate SaysSide(items: seq<Item>, sideType: int) {
    forall i | 0 <= i < |items| ::
      (sideType == 1 ==> items[i].flags.infoType == 1) && (sideType == 2 ==> items[i].flags.infoType == 0)
  }

  lemma {:induction false} SidesAreSaid(items: seq<Item>, calls: seq<Call>, sideType: int)
    requires SaysSide(items, sideType)
    ensures SaysSide(AfterAll(items, calls, sideType), sideType)
    decreases |calls|
  {
    if calls != [] {
      SidesAreSaid(After(items, calls[0], sideType), calls[1..], sideType);
    }
  }

  /** Room for the calls: data, alignment and a catalogue entry for each. */
  function Room(calls: seq<Call>): nat {
    if calls == [] then 4 else |calls[0].data| + 3 + ENTRY + Room(calls[1..])
  }

  /** Build, send, receive: the reader's list is the items in their original order, each with the low 24
      bits of its type, its flag bits and its own data followed by everything attached before the next one. */
  method BuildSendReceive(calls: seq<Call>, sideType: int) returns (received: seq<Item>)
    requires HEADER + Room(calls) <= INT_MAX
    ensures received == AfterAll([], calls, sideType) && SaysSide(received, sideType)
  {
    hide Kept, Sided, Extended, Tidy, ItemsOf, Written, Readable, Separate, EntryAt, CatalogOffset, Count, SaysSide;
    var m := new IpcMsg(sideType, HEADER + Room(calls));
    var i := 0;
    assert calls[0..] == calls;
    while i < |calls|
      invariant 0 <= i <= |calls| && m.Valid() && fresh(m) && fresh(m.sendBuf) && m.sideType == sideType
      invariant m.dataOffset + ENTRY * |m.catalogItems| + Room(calls[i..]) <= m.sendBuf.Length
      invariant AfterAll(m.Items(), calls[i..], sideType) == AfterAll([], calls, sideType)
    {
      assert calls[i..][0] == calls[i] && calls[i..][1..] == calls[i + 1..];
      match calls[i] {
        case Fill(t, f, data) =>
          assert data[..|data|] == data;
          var _ := m.FillMsgData(t, f, Some(data), |data|);
        case Attach(data) =>
          var _ := m.AttachMsgData(data);
      }
      i := i + 1;
    }
    assert calls[|calls|..] == [];
    var len := m.SendIpcMsg();
    var rcvBuf := new byte[len](p requires 0 <= p < len && len <= m.sendBuf.Length reads m, m.sendBuf => m.sendBuf[p]);
    assert rcvBuf[..] == m.sendBuf[..len];
    received := GetRxDataItemList(rcvBuf);
    assert received == AfterAll([], calls, sideType);
    SidesAreSaid([], calls, sideType);
  }
}
