/** The IPC message: data items packed into one buffer with a catalogue behind them, and read back. */
module IpcMessage {
  import opened Bytes
  import opened Wrappers

  const HEADER := 8
  const ENTRY := 12

  const SERVER_SIDE := 1
  const CLIENT_SIDE := 2

  /** The flag fields are plain chars, which are unsigned on the target. */
  datatype Flags = Flags(infoType: byte, requestType: byte, needFeedback: byte, responseType: byte, doFlag: byte)

  type Word32 = w: nat | w < 0x1_0000_0000

  /** One catalogue entry; typ is the type word. */
  datatype Entry = Entry(typ: Word32, offset: nat, len: nat)

  /** A data item as it is received. */
  datatype Item = Item(dataType: nat, flags: Flags, payload: seq<byte>)

  // The type word

  /** The flag byte: one bit each for four fields, four bits for the action. */
  function FlagByte(f: Flags): (b: nat)
    ensures b < 0x100
  {
    f.infoType % 2 + 2 * (f.requestType % 2 + 2 * (f.needFeedback % 2 + 2 * (f.responseType % 2 + 2 * (f.doFlag % 16))))
  }

  /** (data_type << 8) | do_flag in 32 bits: the top byte of the type is lost. */
  function TypeWord(dataType: int32, f: Flags): (w: Word32)
  {
    dataType % 0x100_0000 * 0x100 + FlagByte(f)
  }

  function TypeOf(w: nat): (t: nat)
    ensures t < 0x100_0000
  {
    w / 0x100 % 0x100_0000
  }

  function FlagsOf(w: nat): Flags {
    Flags(w % 2, w / 2 % 2, w / 4 % 2, w / 8 % 2, w / 16 % 16)
  }

  /** What survives of the flag fields. */
  function Kept(f: Flags): Flags {
    Flags(f.infoType % 2, f.requestType % 2, f.needFeedback % 2, f.responseType % 2, f.doFlag % 16)
  }

  /** Splitting one bit off the low end. */
  lemma LowBit(bit: nat, rest: nat)
    requires bit < 2
    ensures (bit + 2 * rest) % 2 == bit && (bit + 2 * rest) / 2 == rest
  {
  }

  /** The bits of a type word over the low eight. */
  function Word(f: Flags, t: nat): (w: nat) {
    f.infoType % 2 + 2 * (f.requestType % 2 + 2 * (f.needFeedback % 2 + 2 * (f.responseType % 2 + 2 * (f.doFlag % 16 + 16 * t))))
  }

  lemma WordParts(f: Flags, t: nat)
    ensures var w := Word(f, t);
            && w % 2 == f.infoType % 2 && w / 2 % 2 == f.requestType % 2 && w / 4 % 2 == f.needFeedback % 2
            && w / 8 % 2 == f.responseType % 2 && w / 16 % 16 == f.doFlag % 16 && w / 0x100 == t
  {
    var w4: nat := f.doFlag % 16 + 16 * t;
    var w3: nat := f.responseType % 2 + 2 * w4;
    var w2: nat := f.needFeedback % 2 + 2 * w3;
    var w1: nat := f.requestType % 2 + 2 * w2;
    var w := Word(f, t);
    LowBit(f.infoType % 2, w1);
    LowBit(f.requestType % 2, w2);
    LowBit(f.needFeedback % 2, w3);
    LowBit(f.responseType % 2, w4);
    Halvings(w);
  }

  lemma Halvings(w: nat)
    ensures w / 4 == w / 2 / 2 && w / 8 == w / 2 / 2 / 2 && w / 16 == w / 2 / 2 / 2 / 2 && w / 0x100 == w / 16 / 16
  {
  }

  /** Packing keeps the low 24 bits of the type, one bit of each flag and four bits of the action. */
  lemma TypeWordParts(dataType: int32, f: Flags)
    ensures TypeOf(TypeWord(dataType, f)) == dataType % 0x100_0000
    ensures FlagsOf(TypeWord(dataType, f)) == Kept(f)
    ensures f.infoType <= 1 && f.requestType <= 1 && f.needFeedback <= 1 && f.responseType <= 1 && f.doFlag < 16 ==>
              FlagsOf(TypeWord(dataType, f)) == f
    ensures var w := TypeWord(dataType, f);
            && w % 2 == f.infoType % 2 && w / 2 % 2 == f.requestType % 2 && w / 4 % 2 == f.needFeedback % 2
            && w / 8 % 2 == f.responseType % 2 && w / 16 % 16 == f.doFlag % 16 && w / 0x100 == dataType % 0x100_0000
  {
    TypeWordIs(dataType, f);
    SmallFlagsKept(f);
    hide TypeWord, Word;
    WordParts(f, dataType % 0x100_0000);
  }

  lemma TypeWordIs(dataType: int32, f: Flags)
    ensures TypeWord(dataType, f) == Word(f, dataType % 0x100_0000)
  {
  }

  lemma SmallFlagsKept(f: Flags)
    ensures f.infoType <= 1 && f.requestType <= 1 && f.needFeedback <= 1 && f.responseType <= 1 && f.doFlag < 16 ==> Kept(f) == f
  {
  }

  // What a catalogue means

  /** Newest entry first: payloads are aligned, do not overlap, and lie between the header and `end`. */
  ghost predicate Tidy(catalog: seq<Entry>, end: int)
    decreases |catalog|
  {
    if catalog == [] then HEADER <= end
    else
      var e := catalog[0];
      e.offset % 4 == 0 && e.offset + e.len <= end && Tidy(catalog[1..], e.offset)
  }

  function ItemAt(buf: seq<byte>, e: Entry): Item
    requires e.offset + e.len <= |buf|
  {
    Item(TypeOf(e.typ), FlagsOf(e.typ), buf[e.offset..e.offset + e.len])
  }

  lemma {:induction false} TidyBounds(catalog: seq<Entry>, end: int, i: nat)
    requires Tidy(catalog, end) && i < |catalog|
    ensures HEADER <= catalog[i].offset && catalog[i].offset % 4 == 0 && catalog[i].offset + catalog[i].len <= end
    ensures forall j | i < j < |catalog| :: catalog[j].offset + catalog[j].len <= catalog[i].offset
    decreases |catalog|
  {
    if i > 0 {
      TidyBounds(catalog[1..], catalog[0].offset, i - 1);
    } else {
      TidyHeader(catalog[1..], catalog[0].offset);
      forall j | 0 < j < |catalog|
        ensures catalog[j].offset + catalog[j].len <= catalog[0].offset
      {
        TidyBounds(catalog[1..], catalog[0].offset, j - 1);
      }
    }
  }

  lemma {:induction false} TidyHeader(catalog: seq<Entry>, end: int)
    requires Tidy(catalog, end)
    ensures HEADER <= end
    decreases |catalog|
  {
    if catalog != [] {
      TidyHeader(catalog[1..], catalog[0].offset);
    }
  }

  /** The items of a catalogue, oldest first. */
  ghost function ItemsOf(buf: seq<byte>, catalog: seq<Entry>, end: int): (items: seq<Item>)
    requires Tidy(catalog, end) && end <= |buf|
    ensures |items| == |catalog|
    decreases |catalog|
  {
    if catalog == [] then []
    else ItemsOf(buf, catalog[1..], catalog[0].offset) + [ItemAt(buf, catalog[0])]
  }

  /** Only the bytes in front of `end` matter. */
  lemma {:induction false} ItemsUnchanged(buf: seq<byte>, buf': seq<byte>, catalog: seq<Entry>, end: int)
    requires Tidy(catalog, end) && 0 <= end <= |buf| && end <= |buf'| && buf[..end] == buf'[..end]
    ensures ItemsOf(buf, catalog, end) == ItemsOf(buf', catalog, end)
    decreases |catalog|
  {
    if catalog != [] {
      var e := catalog[0];
      TidyHeader(catalog[1..], e.offset);
      assert buf[..end][..e.offset] == buf[..e.offset] && buf'[..end][..e.offset] == buf'[..e.offset];
      ItemsUnchanged(buf, buf', catalog[1..], e.offset);
      assert buf[..end][e.offset..e.offset + e.len] == buf[e.offset..e.offset + e.len];
      assert buf'[..end][e.offset..e.offset + e.len] == buf'[e.offset..e.offset + e.len];
    }
  }

  lemma {:induction false} ItemsIndex(buf: seq<byte>, catalog: seq<Entry>, end: int, j: nat)
    requires Tidy(catalog, end) && end <= |buf| && j < |catalog|
    ensures var e := catalog[|catalog| - 1 - j];
            e.offset + e.len <= |buf| && ItemsOf(buf, catalog, end)[j] == ItemAt(buf, e)
    decreases |catalog|
  {
    if j < |catalog| - 1 {
      ItemsIndex(buf, catalog[1..], catalog[0].offset, j);
    }
  }

  // Reading a message

  function Count(msg: seq<byte>): int32
    requires |msg| >= HEADER
  {
    ReadInt(msg, 0)
  }

  function CatalogOffset(msg: seq<byte>): int32
    requires |msg| >= HEADER
  {
    ReadInt(msg, 4)
  }

  /** Entry i of the catalogue is inside the message, and so is the payload it describes. */
  predicate EntryInside(msg: seq<byte>, i: nat)
    requires |msg| >= HEADER
  {
    var at := CatalogOffset(msg) + ENTRY * i;
    && 0 <= at && at + ENTRY <= |msg|
    && 0 <= ReadInt(msg, at + 4) && 0 <= ReadInt(msg, at + 8)
    && ReadInt(msg, at + 4) + ReadInt(msg, at + 8) <= |msg|
  }

  predicate Readable(msg: seq<byte>) {
    |msg| >= HEADER && forall i: nat | i < Count(msg) :: EntryInside(msg, i)
  }

  /** Payloads are aligned, do not overlap, and lie between the header and the catalogue. */
  ghost predicate Separate(msg: seq<byte>)
    requires Readable(msg)
  {
    && (forall i: nat | i < Count(msg) ::
          var e := EntryAt(msg, i);
          HEADER <= e.offset && e.offset % 4 == 0 && e.offset + e.len <= CatalogOffset(msg))
    && (forall i: nat, j: nat | i < j < Count(msg) :: EntryAt(msg, j).offset + EntryAt(msg, j).len <= EntryAt(msg, i).offset)
  }

  lemma UnsignedFits(s: seq<byte>)
    requires |s| == 4
    ensures Unsigned(s) < 0x1_0000_0000
  {
    LittleEndianUnsigned(s);
    assert Power(4) == 0x1_0000_0000;
  }

  function EntryAt(msg: seq<byte>, i: nat): Entry
    requires |msg| >= HEADER && EntryInside(msg, i)
  {
    var at := CatalogOffset(msg) + ENTRY * i;
    UnsignedFits(msg[at..at + 4]);
    Entry(Unsigned(msg[at..at + 4]), ReadInt(msg, at + 4), ReadInt(msg, at + 8))
  }

  /** The list after the first n entries: each new item goes to the front. */
  function Listed(msg: seq<byte>, n: nat): (items: seq<Item>)
    requires Readable(msg) && n <= Count(msg)
    ensures |items| == n
  {
    if n == 0 then [] else [ItemAt(msg, EntryAt(msg, n - 1))] + Listed(msg, n - 1)
  }

  /** The items of a message, in the order both readers give them. */
  function Received(msg: seq<byte>): seq<Item>
    requires Readable(msg)
  {
    if Count(msg) <= 0 then [] else Listed(msg, Count(msg))
  }

  lemma {:induction false} ListedIndex(msg: seq<byte>, n: nat, j: nat)
    requires Readable(msg) && j < n <= Count(msg)
    ensures EntryInside(msg, n - 1 - j) && Listed(msg, n)[j] == ItemAt(msg, EntryAt(msg, n - 1 - j))
    decreases n
  {
    hide EntryInside, EntryAt, ItemAt, Count;
    if j > 0 {
      ListedIndex(msg, n - 1, j - 1);
    }
  }

  /** A message whose catalogue holds the entries of a tidy catalogue gives back that catalogue's items. */
  lemma ReceivedItems(msg: seq<byte>, catalog: seq<Entry>, end: int)
    requires Tidy(catalog, end) && end <= |msg| && |msg| >= HEADER && Count(msg) == |catalog|
    requires forall i: nat | i < |catalog| :: EntryInside(msg, i) && EntryAt(msg, i) == catalog[i]
    ensures Readable(msg) && Received(msg) == ItemsOf(msg, catalog, end)
  {
    hide EntryAt, EntryInside, ItemAt, Tidy, ItemsOf;
    assert Readable(msg);
    assert |Received(msg)| == |catalog|;
    forall j: nat | j < |catalog|
      ensures Received(msg)[j] == ItemsOf(msg, catalog, end)[j]
    {
      hide Listed;
      ListedIndex(msg, |catalog|, j);
      ItemsIndex(msg, catalog, end, j);
    }
  }

  lemma TidyIsSeparate(msg: seq<byte>, catalog: seq<Entry>, end: int)
    requires Readable(msg) && Tidy(catalog, end) && end <= CatalogOffset(msg) && Count(msg) == |catalog|
    requires forall i: nat | i < |catalog| :: EntryAt(msg, i) == catalog[i]
    ensures Separate(msg)
  {
    hide EntryAt, EntryInside, Tidy;
    forall i: nat | i < |catalog|
      ensures HEADER <= catalog[i].offset && catalog[i].offset % 4 == 0 && catalog[i].offset + catalog[i].len <= end
      ensures forall j | i < j < |catalog| :: catalog[j].offset + catalog[j].len <= catalog[i].offset
    {
      TidyBounds(catalog, end, i);
    }
  }

  /** get_ipcmsg_rx_dataitem_list. */
  method GetRxDataItemList(rcvBuf: array<byte>) returns (items: seq<Item>)
    requires Readable(rcvBuf[..])
    ensures items == Received(rcvBuf[..])
  {
    ghost var msg := rcvBuf[..];
    var catalogCount: int := Count(rcvBuf[..]);
    items := [];
    var i := 0;
    while i < catalogCount
      invariant 0 <= i && (i <= catalogCount || catalogCount < 0)
      invariant 0 <= i <= catalogCount ==> items == Listed(msg, i)
      invariant catalogCount < 0 ==> items == []
    {
      items := [ItemAt(rcvBuf[..], EntryAt(rcvBuf[..], i))] + items;
      i := i + 1;
    }
  }

  /** A registered handler: the type it is for and which function it is. */
  datatype Handler = Handler(dataType: int, id: nat)

  function HandlerFor(handlers: seq<Handler>, dataType: int): Option<nat> {
    if handlers == [] then None
    else if handlers[0].dataType == dataType then Some(handlers[0].id)
    else HandlerFor(handlers[1..], dataType)
  }

  /** register_data_handler: from now on this handler is the one for its type; a null handler changes nothing. */
  method RegisterDataHandler(handlers: seq<Handler>, dataType: int, handler: Option<nat>) returns (handlers': seq<Handler>)
    ensures handlers' == Register(handlers, Registration(dataType, handler))
    ensures forall t :: HandlerFor(handlers', t) == if t == dataType && handler.Some? then handler else HandlerFor(handlers, t)
  {
    if handler.None? {
      return handlers;
    }
    handlers' := [Handler(dataType, handler.value)] + handlers;
    assert handlers'[1..] == handlers;
  }

  datatype Registration = Registration(dataType: int, handler: Option<nat>)

  /** New handlers go to the front. */
  function Register(handlers: seq<Handler>, r: Registration): seq<Handler> {
    if r.handler.Some? then [Handler(r.dataType, r.handler.value)] + handlers else handlers
  }

  /** The list after these registrations, first one first. */
  function Registered(rs: seq<Registration>): seq<Handler> {
    if rs == [] then [] else Register(Registered(rs[..|rs| - 1]), rs[|rs| - 1])
  }

  predicate IsFor(r: Registration, dataType: int) {
    r.dataType == dataType && r.handler.Some?
  }

  /** The handler that is found is the one registered last for the type, and none is found exactly if none was
      registered for it. */
  lemma {:induction false} LatestHandler(rs: seq<Registration>, dataType: int)
    ensures HandlerFor(Registered(rs), dataType) == None <==> forall i | 0 <= i < |rs| :: !IsFor(rs[i], dataType)
    ensures forall i | 0 <= i < |rs| && IsFor(rs[i], dataType) && (forall j | i < j < |rs| :: !IsFor(rs[j], dataType)) ::
              HandlerFor(Registered(rs), dataType) == rs[i].handler
    decreases |rs|
  {
    if rs != [] {
      var n := |rs| - 1;
      LatestHandler(rs[..n], dataType);
      assert Register(Registered(rs[..n]), rs[n])[if rs[n].handler.Some? then 1 else 0..] == Registered(rs[..n]);
      assert forall j | 0 <= j < n :: rs[..n][j] == rs[j];
      if IsFor(rs[n], dataType) {
        assert HandlerFor(Registered(rs), dataType) == rs[n].handler;
      } else {
        assert HandlerFor(Registered(rs), dataType) == HandlerFor(Registered(rs[..n]), dataType);
      }
    }
  }

  /** find_ipcmsg_data_handler. */
  method FindDataHandler(handlers: seq<Handler>, dataType: int) returns (found: Option<nat>)
    ensures found == HandlerFor(handlers, dataType)
  {
    var i := 0;
    while i < |handlers|
      invariant 0 <= i <= |handlers|
      invariant HandlerFor(handlers[i..], dataType) == HandlerFor(handlers, dataType)
    {
      if handlers[i].dataType == dataType {
        return Some(handlers[i].id);
      }
      assert handlers[i..][1..] == handlers[i + 1..];
      i := i + 1;
    }
    found := None;
  }

  /** The calls for one item: none if its type has no handler. */
  function CallsFor(item: Item, handlers: seq<Handler>): seq<(nat, Item)> {
    var h := HandlerFor(handlers, item.dataType);
    if h.Some? then [(h.value, item)] else []
  }

  function Dispatched(items: seq<Item>, handlers: seq<Handler>): seq<(nat, Item)> {
    if items == [] then [] else CallsFor(items[0], handlers) + Dispatched(items[1..], handlers)
  }

  lemma {:induction false} DispatchedAppend(a: seq<Item>, b: seq<Item>, handlers: seq<Handler>)
    ensures Dispatched(a + b, handlers) == Dispatched(a, handlers) + Dispatched(b, handlers)
    decreases |a|
  {
    if a == [] {
      assert a + b == b;
    } else {
      assert (a + b)[1..] == a[1..] + b;
      DispatchedAppend(a[1..], b, handlers);
      hide CallsFor;
    }
  }

  /** An item among others: handed to the handler for its type, between the calls for the items before and behind
      it, and passed over if there is none. */
  lemma DispatchedAmongOthers(a: seq<Item>, x: Item, b: seq<Item>, handlers: seq<Handler>)
    ensures var h := HandlerFor(handlers, x.dataType);
            Dispatched(a + [x] + b, handlers)
            == if h.Some? then Dispatched(a, handlers) + [(h.value, x)] + Dispatched(b, handlers) else Dispatched(a + b, handlers)
  {
    hide HandlerFor, CallsFor, Dispatched;
    DispatchedAppend(a + [x], b, handlers);
    DispatchedAppend(a, [x], handlers);
    DispatchedAppend(a, b, handlers);
    OneDispatched(x, handlers);
    assert Dispatched(a, handlers) + [] == Dispatched(a, handlers);
  }

  lemma OneDispatched(x: Item, handlers: seq<Handler>)
    ensures var h := HandlerFor(handlers, x.dataType);
            Dispatched([x], handlers) == if h.Some? then [(h.value, x)] else []
  {
    hide HandlerFor;
    assert [x][1..] == [];
  }

  predicate HasHandler(item: Item, handlers: seq<Handler>) {
    exists i | 0 <= i < |handlers| :: handlers[i].dataType == item.dataType
  }

  lemma {:induction false} HandlerExists(handlers: seq<Handler>, dataType: int)
    ensures HandlerFor(handlers, dataType).Some? <==> exists i | 0 <= i < |handlers| :: handlers[i].dataType == dataType
  {
    if handlers != [] {
      HandlerExists(handlers[1..], dataType);
      if handlers[0].dataType != dataType {
        assert forall i | 1 <= i < |handlers| :: handlers[i] == handlers[1..][i - 1];
      }
    }
  }

  /** How many items have a handler. */
  function Handled(items: seq<Item>, handlers: seq<Handler>): nat {
    if items == [] then 0 else (if HasHandler(items[0], handlers) then 1 else 0) + Handled(items[1..], handlers)
  }

  /** As many calls as items with a handler, each for a received item with the handler for its type. */
  lemma {:induction false} DispatchedMeans(items: seq<Item>, handlers: seq<Handler>)
    ensures |Dispatched(items, handlers)| == Handled(items, handlers)
    ensures forall c | c in Dispatched(items, handlers) :: c.1 in items && HandlerFor(handlers, c.1.dataType) == Some(c.0)
  {
    if items != [] {
      HandlerExists(handlers, items[0].dataType);
      DispatchedMeans(items[1..], handlers);
      assert HasHandler(items[0], handlers) <==> HandlerFor(handlers, items[0].dataType).Some?;
      hide HasHandler, HandlerFor;
    }
  }

  /** process_ipcmsg_received: the handler calls it makes, in order; one for every item that has a handler. */
  method ProcessReceived(rcvBuf: array<byte>, handlers: seq<Handler>) returns (calls: seq<(nat, Item)>, doCount: nat)
    requires Readable(rcvBuf[..])
    ensures calls == Dispatched(Received(rcvBuf[..]), handlers)
    ensures doCount == Handled(Received(rcvBuf[..]), handlers)
    ensures forall c | c in calls :: c.1 in Received(rcvBuf[..]) && HandlerFor(handlers, c.1.dataType) == Some(c.0)
  {
    hide *;
    calls, doCount := CallHandlers(rcvBuf, handlers);
    DispatchedMeans(Received(rcvBuf[..]), handlers);
  }

  /** The loop over the catalogue, from its last entry down. */
  method CallHandlers(rcvBuf: array<byte>, handlers: seq<Handler>) returns (calls: seq<(nat, Item)>, doCount: nat)
    requires Readable(rcvBuf[..])
    ensures calls == Dispatched(Received(rcvBuf[..]), handlers) && doCount == |calls|
  {
    hide ItemAt, HandlerFor;
    ghost var msg := rcvBuf[..];
    var catalogCount: int := Count(rcvBuf[..]);
    calls, doCount := [], 0;
    var i := catalogCount - 1;
    ghost var whole := Dispatched(Received(msg), handlers);
    assert [] + whole == whole;
    while i >= 0
      invariant i < catalogCount && doCount == |calls|
      invariant i >= -1 ==> calls + Dispatched(Listed(msg, i + 1), handlers) == whole
      invariant i < -1 ==> calls == whole
    {
      var item := ItemAt(rcvBuf[..], EntryAt(rcvBuf[..], i));
      DispatchFirst(item, Listed(msg, i), handlers, calls);
      var handler := FindDataHandler(handlers, item.dataType);
      if handler.Some? {
        doCount := doCount + 1;
        calls := calls + [(handler.value, item)];
      }
      i := i - 1;
    }
    assert calls + [] == calls;
  }

  lemma DispatchFirst(item: Item, rest: seq<Item>, handlers: seq<Handler>, calls: seq<(nat, Item)>)
    ensures calls + Dispatched([item] + rest, handlers) == calls + CallsFor(item, handlers) + Dispatched(rest, handlers)
    ensures calls + [] == calls
  {
    assert ([item] + rest)[1..] == rest;
  }
}
