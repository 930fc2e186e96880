/** Building an IPC message: fill_msg_data, attach_msg_data and send_ipc_msg. */
module IpcBuilder {
  import opened Bytes
  import opened IpcMessage
  import opened Wrappers

  function Aligned(offset: nat): (a: nat)
    ensures a % 4 == 0 && offset <= a < offset + 4
  {
    offset + (4 - offset % 4) % 4
  }

  /** A buffer with a piece of it overwritten. */
  function Written(buf: seq<byte>, at: nat, s: seq<byte>): (r: seq<byte>)
    requires at + |s| <= |buf|
    ensures |r| == |buf|
  {
    buf[..at] + s + buf[at + |s|..]
  }

  /** memcpy into the buffer. */
  method WriteBytes(buf: array<byte>, at: nat, s: seq<byte>)
    requires at + |s| <= buf.Length
    modifies buf
    ensures buf[..] == Written(old(buf[..]), at, s)
  {
    for i := 0 to |s|
      invariant forall j | 0 <= j < buf.Length :: buf[j] == if at <= j < at + i then s[j - at] else old(buf[j])
    {
      buf[at + i] := s[i];
    }
  }

  /** The newest item with more bytes attached to it; nothing to attach to if there is none. */
  function Extended(items: seq<Item>, data: seq<byte>): seq<Item> {
    if items == [] then []
    else
      var n := |items| - 1;
      items[..n] + [items[n].(payload := items[n].payload + data)]
  }

  /** An entry as it lies in the message. */
  function EntryBytes(e: Entry): (s: seq<byte>)
    requires e.offset <= INT_MAX && e.len <= INT_MAX
    ensures |s| == ENTRY
  {
    LittleEndian(e.typ, 4) + EncodeInt(e.offset) + EncodeInt(e.len)
  }

  /** The information type is set by the side that sends. */
  function Sided(f: Flags, sideType: int): Flags {
    if sideType == SERVER_SIDE then f.(infoType := 1)
    else if sideType == CLIENT_SIDE then f.(infoType := 0)
    else f
  }

  lemma WrittenPrefix(buf: seq<byte>, at: nat, s: seq<byte>, end: nat)
    requires at + |s| <= |buf| && end <= at
    ensures Written(buf, at, s)[..end] == buf[..end]
  {
  }

  class IpcMsg {
    var sideType: int
    var dataOffset: int
    var catalogCount: int
    var catalogItems: seq<Entry>
    var sendBuf: array<byte>
    // The request condition being built: where its head, its current group and its current condition are.
    var condHead: nat
    var curCondGp: nat
    var curCond: nat

    ghost predicate Valid()
      reads this
    {
      && sendBuf.Length <= INT_MAX
      && HEADER <= dataOffset <= sendBuf.Length
      && catalogCount == |catalogItems|
      && Tidy(catalogItems, dataOffset)
      && (catalogItems != [] ==> catalogItems[0].offset + catalogItems[0].len == dataOffset)
    }

    /** The items put together so far, oldest first. */
    ghost function Items(): seq<Item>
      requires Valid()
      reads this, sendBuf
    {
      ItemsOf(sendBuf[..], catalogItems, dataOffset)
    }

    constructor (sideType: int, size: nat)
      requires HEADER <= size <= INT_MAX
      ensures Valid() && fresh(sendBuf) && sendBuf.Length == size
      ensures Items() == [] && dataOffset == HEADER && this.sideType == sideType
    {
      this.sideType := sideType;
      dataOffset := HEADER;
      catalogCount := 0;
      catalogItems := [];
      sendBuf := new byte[size];
      condHead, curCondGp, curCond := 0, 0, 0;
    }

    /** fill_msg_data: a new item. Without data its payload is what the buffer holds. */
    method FillMsgData(dataType: int32, flags: Flags, data: Option<seq<byte>>, dataLen: nat) returns (count: int)
      requires Valid() && Aligned(dataOffset) + dataLen <= sendBuf.Length
      requires data.Some? ==> dataLen <= |data.value|
      modifies this`dataOffset, this`catalogCount, this`catalogItems, sendBuf
      ensures Valid() && sendBuf == old(sendBuf) && dataOffset == Aligned(old(dataOffset)) + dataLen
      ensures var at := Aligned(old(dataOffset));
              var payload := OwnData(data, dataLen, old(sendBuf[..]), at);
              && Items() == old(Items()) + [Item(dataType % 0x100_0000, Kept(Sided(flags, sideType)), payload)]
              && sendBuf[..] == Written(old(sendBuf[..]), at, payload)
      ensures |catalogItems| == |old(catalogItems)| + 1 && catalogItems[0].offset == Aligned(old(dataOffset))
      ensures count == |Items()|
    {
      hide TypeWord, Kept, Sided, TypeOf, FlagsOf, Written, OwnData;
      ghost var before, end := sendBuf[..], dataOffset;
      var f := Sided(flags, sideType);
      dataOffset := dataOffset + (4 - dataOffset % 4) % 4;
      ghost var payload := OwnData(data, dataLen, before, dataOffset);
      var catalog := Entry(TypeWord(dataType, f), dataOffset, dataLen);
      TypeWordParts(dataType, f);
      OwnDataWritten(data, dataLen, before, dataOffset);
      if data.Some? && dataLen > 0 {
        WriteBytes(sendBuf, catalog.offset, data.value[..dataLen]);
      }
      FillKeepsItems(before, catalogItems, end, catalog, payload);
      dataOffset := dataOffset + dataLen;
      catalogItems := [catalog] + catalogItems;
      catalogCount := catalogCount + 1;
      count := catalogCount;
    }

    /** attach_msg_data: more bytes for the newest item. */
    method AttachMsgData(data: seq<byte>) returns (offset: int)
      requires Valid() && dataOffset + |data| <= sendBuf.Length
      modifies this`dataOffset, this`catalogItems, sendBuf
      ensures Valid() && sendBuf == old(sendBuf) && dataOffset == old(dataOffset) + |data| == offset
      ensures sendBuf[..] == Written(old(sendBuf[..]), old(dataOffset), data)
      ensures Items() == Extended(old(Items()), data)
      ensures catalogItems == if old(catalogItems) == [] then [] else
                [old(catalogItems[0]).(len := old(catalogItems[0].len) + |data|)] + old(catalogItems[1..])
    {
      ghost var before := sendBuf[..];
      WriteBytes(sendBuf, dataOffset, data);
      AttachExtends(before, catalogItems, dataOffset, data);
      dataOffset := dataOffset + |data|;
      if catalogItems != [] {
        catalogItems := [catalogItems[0].(len := catalogItems[0].len + |data|)] + catalogItems[1..];
      }
      offset := dataOffset;
    }

    /** send_ipc_msg: the finished message is the first len bytes of the buffer. */
    method SendIpcMsg() returns (len: nat)
      requires Valid() && Aligned(dataOffset) + ENTRY * |catalogItems| <= sendBuf.Length
      modifies this`dataOffset, this`catalogCount, this`catalogItems, sendBuf
      ensures Valid() && sendBuf == old(sendBuf) && Items() == [] && dataOffset == HEADER
      ensures len == Aligned(old(dataOffset)) + ENTRY * |old(catalogItems)| <= sendBuf.Length
      ensures var msg := sendBuf[..len];
              && Readable(msg) && Separate(msg) && Received(msg) == old(Items())
              && CatalogOffset(msg) == Aligned(old(dataOffset)) && Count(msg) == |old(catalogItems)|
              && forall i: nat | i < Count(msg) :: EntryAt(msg, i) == old(catalogItems)[i]
    {
      hide EncodeInt, EntryBytes, Readable, Received, EntryInside, EntryAt, DecodeInt, Separate;
      ghost var before, end, entries := sendBuf[..], dataOffset, catalogItems;
      dataOffset := dataOffset + (4 - dataOffset % 4) % 4;
      ghost var at := dataOffset;
      EntriesBounded(entries, end);
      WriteMessage(before, end);
      len := dataOffset;
      MessageIsReadable(before, sendBuf[..], entries, end, at, len);
      TidyIsSeparate(sendBuf[..len], entries, end);
      catalogItems := [];
      catalogCount := 0;
      dataOffset := HEADER;
    }

    /** The header and the catalogue. */
    method WriteMessage(ghost before: seq<byte>, ghost end: nat)
      requires 0 <= catalogCount == |catalogItems| && HEADER <= end <= dataOffset && sendBuf.Length <= INT_MAX
      requires dataOffset + ENTRY * |catalogItems| <= sendBuf.Length && before == sendBuf[..]
      requires forall j | 0 <= j < |catalogItems| :: catalogItems[j].offset <= INT_MAX && catalogItems[j].len <= INT_MAX
      modifies this`dataOffset, sendBuf
      ensures dataOffset == old(dataOffset) + ENTRY * |catalogItems|
      ensures sendBuf[0..4] == EncodeInt(|catalogItems|) && sendBuf[4..8] == EncodeInt(old(dataOffset))
      ensures sendBuf[HEADER..end] == before[HEADER..end]
      ensures forall j | 0 <= j < |catalogItems| ::
                sendBuf[old(dataOffset) + ENTRY * j..old(dataOffset) + ENTRY * j + ENTRY] == EntryBytes(catalogItems[j])
    {
      hide EncodeInt, EntryBytes, Written;
      ghost var was := sendBuf[..];
      WriteBytes(sendBuf, 0, EncodeInt(catalogCount));
      WriteBytes(sendBuf, 4, EncodeInt(dataOffset));
      HeaderIs(was, EncodeInt(catalogCount), EncodeInt(dataOffset), end);
      WriteCatalog();
    }

    /** The catalogue, newest entry first. */
    method WriteCatalog()
      requires HEADER <= dataOffset && dataOffset + ENTRY * |catalogItems| <= sendBuf.Length
      requires forall j | 0 <= j < |catalogItems| :: catalogItems[j].offset <= INT_MAX && catalogItems[j].len <= INT_MAX
      modifies this`dataOffset, sendBuf
      ensures dataOffset == old(dataOffset) + ENTRY * |catalogItems|
      ensures forall a, b | 0 <= a <= b <= old(dataOffset) :: sendBuf[a..b] == old(sendBuf[a..b])
      ensures forall j | 0 <= j < |catalogItems| ::
                sendBuf[old(dataOffset) + ENTRY * j..old(dataOffset) + ENTRY * j + ENTRY] == EntryBytes(catalogItems[j])
    {
      hide EncodeInt, EntryBytes, Written;
      ghost var at := dataOffset;
      var i := 0;
      while i < |catalogItems|
        invariant 0 <= i <= |catalogItems| && dataOffset == at + ENTRY * i
        invariant forall a, b | 0 <= a <= b <= at :: sendBuf[..][a..b] == old(sendBuf[..])[a..b]
        invariant forall j | 0 <= j < i :: sendBuf[..][at + ENTRY * j..at + ENTRY * j + ENTRY] == EntryBytes(catalogItems[j])
      {
        ghost var was := sendBuf[..];
        WriteBytes(sendBuf, dataOffset, EntryBytes(catalogItems[i]));
        EntriesWritten(was, sendBuf[..], at, catalogItems, i);
        dataOffset := dataOffset + ENTRY;
        i := i + 1;
      }
    }
  }

  /** One more entry behind those already written. */
  lemma EntriesWritten(was: seq<byte>, buf: seq<byte>, at: nat, items: seq<Entry>, i: nat)
    requires forall j | 0 <= j < |items| :: items[j].offset <= INT_MAX && items[j].len <= INT_MAX
    requires i < |items| && at + ENTRY * i + ENTRY <= |was| && buf == Written(was, at + ENTRY * i, EntryBytes(items[i]))
    requires forall j | 0 <= j < i :: was[at + ENTRY * j..at + ENTRY * j + ENTRY] == EntryBytes(items[j])
    ensures forall j | 0 <= j < i + 1 :: buf[at + ENTRY * j..at + ENTRY * j + ENTRY] == EntryBytes(items[j])
    ensures forall a, b | 0 <= a <= b <= at :: buf[a..b] == was[a..b]
  {
    hide EntryBytes, Written;
    WriteKeeps(was, at + ENTRY * i, EntryBytes(items[i]), buf);
  }

  lemma HeaderIs(was: seq<byte>, a: seq<byte>, b: seq<byte>, end: nat)
    requires |a| == |b| == 4 && HEADER <= end <= |was|
    ensures var buf := Written(Written(was, 0, a), 4, b);
            buf[0..4] == a && buf[4..8] == b && buf[HEADER..end] == was[HEADER..end]
  {
    var buf := Written(Written(was, 0, a), 4, b);
    assert |buf| == |was| && forall i | HEADER <= i < end :: buf[i] == was[i];
  }

  /** The bytes an item starts with. */
  function OwnData(data: Option<seq<byte>>, dataLen: nat, buf: seq<byte>, at: nat): (s: seq<byte>)
    requires at + dataLen <= |buf| && (data.Some? ==> dataLen <= |data.value|)
    ensures |s| == dataLen
  {
    if data.Some? then data.value[..dataLen] else buf[at..at + dataLen]
  }

  lemma OwnDataWritten(data: Option<seq<byte>>, dataLen: nat, buf: seq<byte>, at: nat)
    requires at + dataLen <= |buf| && (data.Some? ==> dataLen <= |data.value|)
    ensures var s := OwnData(data, dataLen, buf, at);
            if data.Some? && dataLen > 0 then s == data.value[..dataLen] else Written(buf, at, s) == buf
  {
  }

  lemma FillKeepsItems(before: seq<byte>, catalog: seq<Entry>, end: nat, e: Entry, payload: seq<byte>)
    requires Tidy(catalog, end) && end <= e.offset && e.offset % 4 == 0
    requires e.len == |payload| && e.offset + e.len <= |before|
    ensures var end' := e.offset + e.len;
            && Tidy([e] + catalog, end')
            && ItemsOf(Written(before, e.offset, payload), [e] + catalog, end')
               == ItemsOf(before, catalog, end) + [Item(TypeOf(e.typ), FlagsOf(e.typ), payload)]
  {
    hide TypeOf, FlagsOf;
    var buf := Written(before, e.offset, payload);
    assert ([e] + catalog)[1..] == catalog;
    TidyHeader(catalog, end);
    TidyGrows(catalog, end, e.offset);
    WrittenPrefix(before, e.offset, payload, end);
    ItemsUnchanged(before, buf, catalog, end);
    ItemsEnd(buf, catalog, end, e.offset);
    assert buf[e.offset..e.offset + e.len] == payload;
  }

  lemma TidyGrows(catalog: seq<Entry>, end: int, end': int)
    requires Tidy(catalog, end) && end <= end'
    ensures Tidy(catalog, end')
  {
  }

  lemma ItemsEnd(buf: seq<byte>, catalog: seq<Entry>, end: int, end': int)
    requires Tidy(catalog, end) && Tidy(catalog, end') && end <= |buf| && end' <= |buf|
    ensures ItemsOf(buf, catalog, end) == ItemsOf(buf, catalog, end')
  {
  }

  lemma AttachExtends(before: seq<byte>, catalog: seq<Entry>, end: nat, data: seq<byte>)
    requires Tidy(catalog, end) && end + |data| <= |before|
    requires catalog != [] ==> catalog[0].offset + catalog[0].len == end
    ensures var longer := if catalog == [] then [] else [catalog[0].(len := catalog[0].len + |data|)] + catalog[1..];
            && Tidy(longer, end + |data|)
            && ItemsOf(Written(before, end, data), longer, end + |data|) == Extended(ItemsOf(before, catalog, end), data)
  {
    if catalog != [] {
      var buf := Written(before, end, data);
      var e, rest := catalog[0], catalog[1..];
      var e' := e.(len := e.len + |data|);
      assert ([e'] + rest)[1..] == rest;
      WrittenPrefix(before, end, data, e.offset);
      TidyHeader(rest, e.offset);
      ItemsUnchanged(before, buf, rest, e.offset);
      assert buf[e.offset..end + |data|] == before[e.offset..end] + data;
    }
  }

  lemma EntriesBounded(catalog: seq<Entry>, end: int)
    requires Tidy(catalog, end)
    ensures forall j | 0 <= j < |catalog| :: HEADER <= catalog[j].offset && catalog[j].offset + catalog[j].len <= end
  {
    forall j | 0 <= j < |catalog|
      ensures HEADER <= catalog[j].offset && catalog[j].offset + catalog[j].len <= end
    {
      TidyBounds(catalog, end, j);
    }
  }

  lemma WriteKeeps(was: seq<byte>, at: nat, s: seq<byte>, buf: seq<byte>)
    requires at + |s| <= |was| && buf == Written(was, at, s)
    ensures buf[at..at + |s|] == s
    ensures forall a, b | 0 <= a <= b <= at :: buf[a..b] == was[a..b]
  {
  }

  /** The bytes of an entry read back. */
  lemma EntryReads(msg: seq<byte>, i: nat, e: Entry)
    requires |msg| >= HEADER && CatalogOffset(msg) >= 0
    requires e.offset + e.len <= |msg| <= INT_MAX
    requires CatalogOffset(msg) + ENTRY * i + ENTRY <= |msg|
    requires msg[CatalogOffset(msg) + ENTRY * i..CatalogOffset(msg) + ENTRY * i + ENTRY] == EntryBytes(e)
    ensures EntryInside(msg, i) && EntryAt(msg, i) == e
  {
    var at := CatalogOffset(msg) + ENTRY * i;
    assert Power(4) == 0x1_0000_0000;
    UnsignedLittleEndian(e.typ, 4);
    DecodeEncode(e.offset);
    DecodeEncode(e.len);
    hide LittleEndian, Unsigned, EncodeInt, DecodeInt, Power;
    Slice(msg, at, at + ENTRY, 0, 4);
    Slice(msg, at, at + ENTRY, 4, 8);
    Slice(msg, at, at + ENTRY, 8, 12);
    EntryParts(e);
  }

  lemma EntryParts(e: Entry)
    requires e.offset <= INT_MAX && e.len <= INT_MAX
    ensures var s := EntryBytes(e);
            s[0..4] == LittleEndian(e.typ, 4) && s[4..8] == EncodeInt(e.offset) && s[8..12] == EncodeInt(e.len)
  {
    hide LittleEndian, EncodeInt;
  }

  lemma Slice<T>(s: seq<T>, a: nat, b: nat, c: nat, d: nat)
    requires a <= b <= |s| && c <= d <= b - a
    ensures s[a..b][c..d] == s[a + c..a + d]
  {
    var l, r := s[a..b][c..d], s[a + c..a + d];
    assert |l| == |r| && forall i | 0 <= i < |l| :: l[i] == s[a + c + i] == r[i];
  }

  lemma MessageIsReadable(before: seq<byte>, buf: seq<byte>, catalog: seq<Entry>, end: nat, at: nat, len: nat)
    requires Tidy(catalog, end) && HEADER <= end <= at && len == at + ENTRY * |catalog|
    requires len <= |buf| == |before| <= INT_MAX
    requires buf[0..4] == EncodeInt(|catalog|) && buf[4..8] == EncodeInt(at)
    requires buf[HEADER..end] == before[HEADER..end]
    requires forall j | 0 <= j < |catalog| :: catalog[j].offset + catalog[j].len <= end
    requires forall j | 0 <= j < |catalog| :: buf[at + ENTRY * j..at + ENTRY * j + ENTRY] == EntryBytes(catalog[j])
    ensures var msg := buf[..len];
            && Readable(msg) && Received(msg) == ItemsOf(before, catalog, end)
            && CatalogOffset(msg) == at && Count(msg) == |catalog|
            && forall i: nat | i < |catalog| :: EntryAt(msg, i) == catalog[i]
  {
    hide EncodeInt, DecodeInt, EntryBytes, EntryInside, EntryAt, Received;
    var msg := buf[..len];
    assert msg[0..4] == buf[0..4] && msg[4..8] == buf[4..8];
    DecodeEncode(|catalog|);
    DecodeEncode(at);
    forall i: nat | i < |catalog|
      ensures EntryInside(msg, i) && EntryAt(msg, i) == catalog[i]
    {
      assert msg[at + ENTRY * i..at + ENTRY * i + ENTRY] == buf[at + ENTRY * i..at + ENTRY * i + ENTRY];
      EntryReads(msg, i, catalog[i]);
    }
    ReceivedItems(msg, catalog, end);
    SamePayloads(before, msg, catalog, end);
  }

  /** The payloads do not reach into the header. */
  lemma {:induction false} SamePayloads(before: seq<byte>, msg: seq<byte>, catalog: seq<Entry>, end: nat)
    requires Tidy(catalog, end) && HEADER <= end <= |msg| && end <= |before|
    requires msg[HEADER..end] == before[HEADER..end]
    ensures ItemsOf(msg, catalog, end) == ItemsOf(before, catalog, end)
    decreases |catalog|
  {
    if catalog != [] {
      var e := catalog[0];
      TidyHeader(catalog[1..], e.offset);
      var a, b := e.offset - HEADER, e.offset + e.len - HEADER;
      Slice(msg, HEADER, end, 0, a);
      Slice(before, HEADER, end, 0, a);
      SamePayloads(before, msg, catalog[1..], e.offset);
      Slice(msg, HEADER, end, a, b);
      Slice(before, HEADER, end, a, b);
    }
  }
}
