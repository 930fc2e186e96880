/** Building query conditions inside a message: counts are patched in place as groups and conditions arrive. */
module QueryBuilder {
  import opened Bytes
  import opened IpcBuilder
  import opened IpcMessage
  import opened QueryCondition
  import opened Wrappers

  const VA_ARG_END: int32 := -1

  // Patching and appending bytes

  lemma Patched(buf: seq<byte>, start: nat, end: nat, a: seq<byte>, b: seq<byte>, c: seq<byte>, b': seq<byte>)
    requires start <= end <= |buf| && buf[start..end] == a + b + c && |b'| == |b|
    ensures start + |a| + |b'| <= |buf|
    ensures var buf' := Written(buf, start + |a|, b');
            buf'[start..end] == a + b' + c && buf'[..start] == buf[..start]
  {
    var buf' := Written(buf, start + |a|, b');
    assert |buf[start..end]| == |a| + |b| + |c|;
    var l, r := buf'[start..end], a + b' + c;
    assert |l| == |r|;
    forall i | 0 <= i < |l|
      ensures l[i] == r[i]
    {
      assert buf[start + i] == buf[start..end][i];
    }
  }

  lemma Appended(buf: seq<byte>, start: nat, end: nat, s: seq<byte>)
    requires start <= end && end + |s| <= |buf|
    ensures var buf' := Written(buf, end, s);
            buf'[start..end + |s|] == buf[start..end] + s && buf'[..start] == buf[..start]
  {
  }

  lemma IntInside(buf: seq<byte>, start: nat, end: nat, a: seq<byte>, v: int32, c: seq<byte>)
    requires start <= end <= |buf| && buf[start..end] == a + EncodeInt(v) + c
    ensures start + |a| + 4 <= end && ReadInt(buf, start + |a|) == v
  {
    hide EncodeInt, DecodeInt;
    assert |buf[start..end]| == |a| + 4 + |c|;
    Slice(buf, start, end, |a|, |a| + 4);
    assert buf[start..end][|a|..|a| + 4] == EncodeInt(v);
    DecodeEncode(v);
  }

  // What has been built

  /** Everything in front of the group that follows gs in the newest head. */
  function UpToGroup(before: seq<Head>, gs: Head): seq<byte>
    requires Countable(before) && Small(gs) && |gs| < INT_MAX
  {
    OfHeads(before) + EncodeInt(|gs| + 1) + OfGroups(gs)
  }

  /** The heads when gs and then g are the groups of the newest one. */
  function WithNewest(before: seq<Head>, gs: Head, g: Group): (heads: seq<Head>) {
    before + [gs + [g]]
  }

  lemma GroupLayout(before: seq<Head>, gs: Head, g: Group)
    requires Countable(before) && Small(gs) && |gs| < INT_MAX && |g| <= INT_MAX
    ensures Countable(WithNewest(before, gs, g))
    ensures OfHeads(WithNewest(before, gs, g)) == UpToGroup(before, gs) + EncodeInt(|g|) + OfConditions(g)
  {
    hide EncodeInt, OfHeads, OfGroups, OfConditions, Small, Countable, WithNewest;
    NoneTooMany(gs, g);
    LastGroup(gs, g);
    NewestLayout(before, gs, g);
    Regroup(OfHeads(before), EncodeInt(|gs| + 1), OfGroups(gs), EncodeInt(|g|), OfConditions(g));
  }

  lemma NewestLayout(before: seq<Head>, gs: Head, g: Group)
    requires Countable(before) && Small(gs + [g])
    ensures Countable(WithNewest(before, gs, g))
    ensures OfHeads(WithNewest(before, gs, g)) == OfHeads(before) + EncodeInt(|gs| + 1) + OfGroups(gs + [g])
  {
    hide EncodeInt, OfHeads, OfGroups, Small, Countable;
    LastHead(before, gs + [g]);
  }

  lemma Regroup(a: seq<byte>, b: seq<byte>, c: seq<byte>, d: seq<byte>, e: seq<byte>)
    ensures a + b + (c + d + e) == a + b + c + d + e
  {
  }

  lemma NoneTooMany(gs: Head, g: Group)
    requires Small(gs) && |gs| < INT_MAX && |g| <= INT_MAX
    ensures Small(gs + [g]) && |gs + [g]| == |gs| + 1
  {
  }

  lemma NextCondition(g: Group, c: Condition)
    ensures OfConditions(g + [c]) == OfConditions(g) + OfCondition(c)
  {
    ConditionsAppend(g, [c]);
    assert [c][1..] == [];
  }

  /** The condition bytes of the message run from `start` to its end. */
  ghost predicate Holds(m: IpcMsg, start: nat, bytes: seq<byte>)
    reads m, m.sendBuf
  {
    m.Valid() && start <= m.dataOffset && m.sendBuf[start..m.dataOffset] == bytes
  }

  /** They are the bytes of `heads`, and the places kept for patching are those of the newest head and of
      its newest group. */
  ghost predicate Built(m: IpcMsg, start: nat, heads: seq<Head>)
    reads m, m.sendBuf
  {
    && Countable(heads) && Holds(m, start, OfHeads(heads))
    && (heads != [] ==> Pointed(m, start, heads[..|heads| - 1], heads[|heads| - 1]))
  }

  ghost predicate Pointed(m: IpcMsg, start: nat, before: seq<Head>, h: Head)
    requires Countable(before) && Small(h)
    reads m
  {
    && m.condHead == start + |OfHeads(before)|
    && (h != [] ==> m.curCondGp == start + |UpToGroup(before, h[..|h| - 1])|)
  }

  /** Nothing in front of the condition bytes changes, and the newest item still starts where it did. */
  twostate predicate Undisturbed(m: IpcMsg, start: nat)
    reads m, m.sendBuf
  {
    && m.sendBuf == old(m.sendBuf) && |m.catalogItems| == |old(m.catalogItems)|
    && (start <= m.sendBuf.Length ==> m.sendBuf[..start] == old(m.sendBuf[..start]))
    && (m.catalogItems != [] ==>
          && m.catalogItems[0].offset == old(m.catalogItems[0].offset) && m.catalogItems[0].typ == old(m.catalogItems[0].typ)
          && m.catalogItems[1..] == old(m.catalogItems[1..]))
  }

  method Attach(m: IpcMsg, s: seq<byte>, ghost start: nat, ghost bytes: seq<byte>)
    requires Holds(m, start, bytes) && m.dataOffset + |s| <= m.sendBuf.Length
    modifies m`dataOffset, m`catalogItems, m.sendBuf
    ensures Undisturbed(m, start) && Holds(m, start, bytes + s) && m.dataOffset == old(m.dataOffset) + |s|
  {
    hide Written, Tidy, ItemsOf;
    ghost var was, end := m.sendBuf[..], m.dataOffset;
    Appended(was, start, end, s);
    assert was[start..end] == bytes && was[..start] == m.sendBuf[..start];
    var _ := m.AttachMsgData(s);
    assert m.sendBuf[start..m.dataOffset] == m.sendBuf[..][start..end + |s|] && m.sendBuf[..start] == m.sendBuf[..][..start];
  }

  /** A count among the condition bytes goes up by one. */
  method Increment(m: IpcMsg, at: nat, ghost start: nat, ghost a: seq<byte>, ghost n: nat, ghost c: seq<byte>)
    requires n < INT_MAX && at == start + |a| && Holds(m, start, a + EncodeInt(n) + c)
    modifies m.sendBuf
    ensures Undisturbed(m, start) && Holds(m, start, a + EncodeInt(n + 1) + c)
  {
    hide EncodeInt, DecodeInt, Written, Tidy;
    ghost var was, end := m.sendBuf[..], m.dataOffset;
    assert was[start..end] == m.sendBuf[start..end] && was[..start] == m.sendBuf[..start];
    IntInside(was, start, end, a, n, c);
    Patched(was, start, end, a, EncodeInt(n), c, EncodeInt(n + 1));
    var count := ReadInt(m.sendBuf[..], at);
    WriteBytes(m.sendBuf, at, EncodeInt(Wrap(count + 1)));
    assert m.sendBuf[start..end] == m.sendBuf[..][start..end] && m.sendBuf[..start] == m.sendBuf[..][..start];
  }

  method ReadCount(m: IpcMsg, at: nat, ghost start: nat, ghost a: seq<byte>, ghost n: nat, ghost c: seq<byte>) returns (count: int)
    requires n <= INT_MAX && at == start + |a| && Holds(m, start, a + EncodeInt(n) + c)
    ensures count == n
  {
    hide EncodeInt, DecodeInt;
    assert m.sendBuf[..][start..m.dataOffset] == m.sendBuf[start..m.dataOffset];
    IntInside(m.sendBuf[..], start, m.dataOffset, a, n, c);
    count := ReadInt(m.sendBuf[..], at);
  }

  /** init_request_condition. */
  method InitRequestCondition(m: IpcMsg, ghost start: nat, ghost heads: seq<Head>)
    requires Built(m, start, heads) && m.dataOffset + 4 <= m.sendBuf.Length
    modifies m`condHead, m`curCondGp, m`curCond, m`dataOffset, m`catalogItems, m.sendBuf
    ensures Undisturbed(m, start) && Built(m, start, heads + [[]]) && m.dataOffset == old(m.dataOffset) + 4
  {
    hide EncodeInt, OfHeads, Tidy;
    m.condHead := m.dataOffset;
    assert |m.sendBuf[start..m.dataOffset]| == m.dataOffset - start;
    Attach(m, EncodeInt(0), start, OfHeads(heads));
    LastHead(heads, []);
    assert OfHeads(heads) + EncodeInt(0) + [] == OfHeads(heads) + EncodeInt(0);
    assert (heads + [[]])[..|heads|] == heads;
  }

  /** The bytes up to where the next condition of the newest group goes, its count already including it. */
  function UpToCondition(before: seq<Head>, gs: Head, g: Group): seq<byte>
    requires Countable(before) && Small(gs) && |gs| < INT_MAX && |g| < INT_MAX
  {
    UpToGroup(before, gs) + EncodeInt(|g| + 1) + OfConditions(g)
  }

  lemma ConditionLayout(before: seq<Head>, gs: Head, g: Group, c: Condition)
    requires Countable(before) && Small(gs) && |gs| < INT_MAX && |g| < INT_MAX
    ensures var heads := WithNewest(before, gs, g + [c]);
            Countable(heads) && OfHeads(heads) == UpToCondition(before, gs, g) + OfCondition(c)
  {
    hide EncodeInt, UpToGroup, OfHeads, OfConditions, OfCondition;
    GroupLayout(before, gs, g + [c]);
    NextCondition(g, c);
    var a, b, d, e := UpToGroup(before, gs), EncodeInt(|g| + 1), OfConditions(g), OfCondition(c);
    assert a + b + (d + e) == a + b + d + e;
  }

  /** The newest group, and the places kept for patching. */
  ghost predicate Current(m: IpcMsg, start: nat, before: seq<Head>, gs: Head)
    requires Countable(before) && Small(gs) && |gs| < INT_MAX
    reads m
  {
    m.condHead == start + |OfHeads(before)| && m.curCondGp == start + |UpToGroup(before, gs)|
  }

  lemma Fewer(before: seq<Head>, gs: Head, g: Group)
    requires Countable(WithNewest(before, gs, g))
    ensures Countable(before) && Small(gs + [g]) && Small(gs) && |gs| < INT_MAX && |g| <= INT_MAX
  {
    var h, heads := gs + [g], before + [gs + [g]];
    assert h in heads && g in h;
    assert forall x | x in gs :: x in h;
    assert forall x | x in before :: x in heads;
  }

  lemma Newest<T>(s: seq<T>, x: T)
    ensures |s + [x]| == |s| + 1 && (s + [x])[..|s|] == s && (s + [x])[|s|] == x
  {
  }

  lemma NewestHead(m: IpcMsg, start: nat, heads: seq<Head>, before: seq<Head>, h: Head)
    requires heads == before + [h] && Countable(heads) && Countable(before) && Small(h)
    ensures Built(m, start, heads) <==> Holds(m, start, OfHeads(heads)) && Pointed(m, start, before, h)
  {
    hide OfHeads, Holds, Pointed, Small, Countable;
    Newest(before, h);
  }

  lemma BuiltWithNewest(m: IpcMsg, start: nat, before: seq<Head>, gs: Head, g: Group)
    requires Countable(WithNewest(before, gs, g)) && Countable(before) && Small(gs + [g]) && Small(gs) && |gs| < INT_MAX
    ensures var heads := WithNewest(before, gs, g);
            Built(m, start, heads) <==> Holds(m, start, OfHeads(heads)) && Current(m, start, before, gs)
  {
    hide OfHeads, Built, Holds, UpToGroup, Small, Countable;
    Newest(gs, g);
    NewestHead(m, start, WithNewest(before, gs, g), before, gs + [g]);
  }

  lemma NewestGroup(m: IpcMsg, start: nat, before: seq<Head>, gs: Head, g: Group)
    requires Countable(WithNewest(before, gs, g))
    ensures Countable(before) && Small(gs) && |gs| < INT_MAX && |g| <= INT_MAX
    ensures Built(m, start, WithNewest(before, gs, g)) <==>
            Holds(m, start, UpToGroup(before, gs) + EncodeInt(|g|) + OfConditions(g)) && Current(m, start, before, gs)
  {
    hide *;
    Fewer(before, gs, g);
    BuiltWithNewest(m, start, before, gs, g);
    GroupLayout(before, gs, g);
  }

  /** The bytes around a head's count once an empty group follows its groups h. */
  lemma EmptyGroup(before: seq<Head>, h: Head)
    requires Countable(before) && Small(h) && |h| < INT_MAX
    ensures var heads := WithNewest(before, h, []);
            && Countable(heads)
            && OfHeads(heads) == UpToGroup(before, h) + EncodeInt(0)
            && OfHeads(heads) == OfHeads(before) + EncodeInt(|h| + 1) + (OfGroups(h) + EncodeInt(0))
  {
    hide EncodeInt, OfHeads, OfGroups, WithNewest;
    GroupLayout(before, h, []);
    assert UpToGroup(before, h) + EncodeInt(0) + [] == UpToGroup(before, h) + EncodeInt(0);
  }

  /** add_request_condition_group: an empty group under the newest head; returns how many it has now. */
  method AddRequestConditionGroup(m: IpcMsg, ghost start: nat, ghost before: seq<Head>, ghost h: Head) returns (count: int)
    requires Built(m, start, before + [h]) && m.dataOffset + 4 <= m.sendBuf.Length
    modifies m`condHead, m`curCondGp, m`curCond, m`dataOffset, m`catalogItems, m.sendBuf
    ensures Undisturbed(m, start) && |h| < INT_MAX && Built(m, start, WithNewest(before, h, []))
    ensures m.dataOffset == old(m.dataOffset) + 4 && count == |h| + 1
  {
    hide EncodeInt, OfHeads, OfGroups, OfConditions, Tidy, Built, UpToGroup, WithNewest, Small, Countable;
    NewestOfAll(m, start, before, h);
    EmptyGroup(before, h);
    Increment(m, m.condHead, start, OfHeads(before), |h|, OfGroups(h));
    m.curCondGp := m.dataOffset;
    UpToGroupIs(before, h);
    Attach(m, EncodeInt(0), start, UpToGroup(before, h));
    NoConditions(UpToGroup(before, h) + EncodeInt(0));
    NewestGroup(m, start, before, h, []);
    count := ReadCount(m, m.condHead, start, OfHeads(before), |h| + 1, OfGroups(h) + EncodeInt(0));
  }

  lemma NoConditions(u: seq<byte>)
    ensures u + OfConditions([]) == u
  {
  }

  lemma UpToGroupIs(before: seq<Head>, gs: Head)
    requires Countable(before) && Small(gs) && |gs| < INT_MAX
    ensures UpToGroup(before, gs) == OfHeads(before) + EncodeInt(|gs| + 1) + OfGroups(gs)
  {
  }

  /** The newest head: its bytes, its place, and that there is room for another group to be counted. */
  lemma NewestOfAll(m: IpcMsg, start: nat, before: seq<Head>, h: Head)
    requires Built(m, start, before + [h])
    ensures Countable(before) && Small(h) && |h| < INT_MAX && m.Valid() && start <= m.dataOffset
    ensures Holds(m, start, OfHeads(before) + EncodeInt(|h|) + OfGroups(h)) && m.condHead == start + |OfHeads(before)|
    ensures m.dataOffset == start + |OfHeads(before)| + 4 + |OfGroups(h)|
  {
    hide EncodeInt, OfHeads, OfGroups, Tidy;
    assert (before + [h])[..|before|] == before && h in before + [h];
    LastHead(before, h);
    assert |m.sendBuf[start..m.dataOffset]| == m.dataOffset - start;
  }

  method AttachBytes(m: IpcMsg, level: byte, field: byte, oper: byte, argc: byte, ghost start: nat, ghost p: seq<byte>)
    requires Holds(m, start, p) && m.dataOffset + 4 <= m.sendBuf.Length
    modifies m`dataOffset, m`catalogItems, m.sendBuf
    ensures Undisturbed(m, start) && Holds(m, start, p + [level, field, oper, argc])
    ensures m.dataOffset == old(m.dataOffset) + 4
  {
    hide IpcMsg.Valid;
    Attach(m, [level], start, p);
    Attach(m, [field], start, p + [level]);
    Attach(m, [oper], start, p + [level] + [field]);
    Attach(m, [argc], start, p + [level] + [field] + [oper]);
    FourBytes(p, level, field, oper, argc);
  }

  lemma FourBytes(p: seq<byte>, a: byte, b: byte, c: byte, d: byte)
    ensures p + [a] + [b] + [c] + [d] == p + [a, b, c, d]
  {
  }

  /** The first four bytes of a condition. */
  method StartCondition(m: IpcMsg, level: byte, field: byte, oper: byte, argc: byte,
                        ghost start: nat, ghost before: seq<Head>, ghost gs: Head, ghost g: Group)
    requires Built(m, start, WithNewest(before, gs, g)) && m.dataOffset + 4 <= m.sendBuf.Length
    modifies m`condHead, m`curCondGp, m`curCond, m`dataOffset, m`catalogItems, m.sendBuf
    ensures Undisturbed(m, start) && m.dataOffset == old(m.dataOffset) + 4
    ensures Countable(before) && Small(gs) && |gs| < INT_MAX && |g| < INT_MAX && Current(m, start, before, gs)
    ensures m.curCond == start + |UpToCondition(before, gs, g)|
    ensures Holds(m, start, UpToCondition(before, gs, g) + [level, field, oper, argc])
  {
    hide EncodeInt, OfHeads, OfConditions, UpToGroup, Tidy, Countable, Small;
    NewestGroup(m, start, before, gs, g);
    ghost var front := UpToGroup(before, gs);
    assert |m.sendBuf[start..m.dataOffset]| == m.dataOffset - start == |front| + 4 + |OfConditions(g)|;
    Increment(m, m.curCondGp, start, front, |g|, OfConditions(g));
    m.curCond := m.dataOffset;
    ghost var p := UpToCondition(before, gs, g);
    AttachBytes(m, level, field, oper, argc, start, p);
  }

  /** request_condition_addv: no condition without operands; the level is stored as it is given. */
  method RequestConditionAddv(m: IpcMsg, level: byte, field: byte, oper: byte, argc: byte, valArr: Option<seq<int32>>,
                              ghost start: nat, ghost before: seq<Head>, ghost gs: Head, ghost g: Group)
    requires Built(m, start, WithNewest(before, gs, g))
    requires argc > 0 && valArr.Some? ==> m.dataOffset + 4 + 4 * argc <= m.sendBuf.Length
    requires valArr.Some? ==> argc <= |valArr.value|
    modifies m`condHead, m`curCondGp, m`curCond, m`dataOffset, m`catalogItems, m.sendBuf
    ensures Undisturbed(m, start)
    ensures var added := if argc == 0 || valArr.None? then [] else [Condition(level, field, oper, valArr.value[..argc])];
            && Countable(WithNewest(before, gs, g + added)) && Built(m, start, WithNewest(before, gs, g + added))
            && m.dataOffset == old(m.dataOffset) + |OfConditions(added)|
  {
    hide EncodeInt, OfHeads, OfGroups, UpToGroup, Tidy, Countable, Small;
    if argc == 0 || valArr.None? {
      assert g + [] == g;
      return;
    }
    ghost var args := valArr.value[..argc];
    ghost var c := Condition(level, field, oper, args);
    StartCondition(m, level, field, oper, argc, start, before, gs, g);
    ghost var u := UpToCondition(before, gs, g);
    AttachInts(m, argc, valArr.value, start, u + [level, field, oper, argc]);
    ConditionBytes(u, c);
    Finished(m, start, before, gs, g, c);
  }

  lemma NoInts(p: seq<byte>)
    ensures p + Ints([]) == p
  {
  }

  /** The operands one after the other. */
  method AttachInts(m: IpcMsg, argc: byte, vals: seq<int32>, ghost start: nat, ghost p: seq<byte>)
    requires Holds(m, start, p) && argc <= |vals| && m.dataOffset + 4 * argc <= m.sendBuf.Length
    modifies m`dataOffset, m`catalogItems, m.sendBuf
    ensures Undisturbed(m, start) && Holds(m, start, p + Ints(vals[..argc])) && m.dataOffset == old(m.dataOffset) + 4 * argc
  {
    hide EncodeInt, Tidy, Ints;
    ghost var args := vals[..argc];
    NoInts(p);
    for i := 0 to argc
      invariant Undisturbed(m, start)
      invariant Holds(m, start, p + Ints(args[..i])) && m.dataOffset == old(m.dataOffset) + 4 * i
    {
      Attach(m, EncodeInt(vals[i]), start, p + Ints(args[..i]));
      NextInt(p, args, i);
    }
    assert args[..argc] == args;
  }

  lemma ConditionBytes(u: seq<byte>, c: Condition)
    ensures u + OfCondition(c) == u + [c.level, c.field, c.oper, |c.args| % 0x100] + Ints(c.args)
  {
    hide Ints;
  }

  lemma NextInt(p: seq<byte>, args: seq<int32>, i: nat)
    requires i < |args|
    ensures p + Ints(args[..i]) + EncodeInt(args[i]) == p + Ints(args[..i + 1])
  {
    hide EncodeInt;
    assert args[..i + 1] == args[..i] + [args[i]];
    IntsAppend(args[..i], [args[i]]);
    assert [args[i]][1..] == [];
    assert Ints([args[i]]) == EncodeInt(args[i]) + Ints([]);
    assert p + Ints(args[..i]) + EncodeInt(args[i]) == p + (Ints(args[..i]) + EncodeInt(args[i]));
  }

  lemma Finished(m: IpcMsg, start: nat, before: seq<Head>, gs: Head, g: Group, c: Condition)
    requires Countable(before) && Small(gs) && |gs| < INT_MAX && |g| < INT_MAX
    requires Current(m, start, before, gs) && Holds(m, start, UpToCondition(before, gs, g) + OfCondition(c))
    ensures Countable(WithNewest(before, gs, g + [c])) && Built(m, start, WithNewest(before, gs, g + [c]))
  {
    hide EncodeInt, OfHeads, OfGroups, OfConditions, OfCondition, UpToGroup, Holds;
    ConditionLayout(before, gs, g, c);
    NextCondition(g, c);
    NewestGroup(m, start, before, gs, g + [c]);
    assert UpToGroup(before, gs) + EncodeInt(|g| + 1) + (OfConditions(g) + OfCondition(c))
        == UpToCondition(before, gs, g) + OfCondition(c);
  }

  // The variable-argument form

  /** How many arguments come before the end mark. */
  function UpToEnd(list: seq<int32>): (n: nat)
    ensures n <= |list| && (n < |list| ==> list[n] == VA_ARG_END)
    ensures forall i | 0 <= i < n :: list[i] != VA_ARG_END
  {
    if list == [] || list[0] == VA_ARG_END then 0 else 1 + UpToEnd(list[1..])
  }

  /** The most operands an operator takes; the list operators take any number. */
  function Limit(oper: byte): Option<nat> {
    if oper == OPER_RANGE then Some(2) else if oper < OPER_IN then Some(1) else None
  }

  /** The operands a call takes from its arguments. */
  function Taken(oper: byte, list: seq<int32>): seq<int32> {
    var n := UpToEnd(list);
    if Limit(oper).Some? && Limit(oper).value <= n then list[..Limit(oper).value] else list[..n]
  }

  /** These are the operands a call takes: the list operators take all arguments up to the end mark, the range
      operator two and the others one, or fewer if the end mark comes first. */
  predicate AreTaken(oper: byte, list: seq<int32>, args: seq<int32>) {
    && args <= list && VA_ARG_END !in args
    && (if oper >= 6 then |args| < |list|
        else if oper == 5 then |args| <= 2
        else |args| <= 1)
    && (if oper >= 6 || (oper == 5 && |args| < 2) || |args| < 1 then |args| < |list| && list[|args|] == VA_ARG_END else true)
  }

  /** There is only one such list of operands. */
  lemma TakenAreThese(oper: byte, list: seq<int32>, args: seq<int32>)
    requires Supplied(oper, list)
    ensures AreTaken(oper, list, args) <==> args == Taken(oper, list)
  {
    var n := UpToEnd(list);
    assert forall i | 0 <= i < |args| && args <= list :: list[i] == args[i] && args[i] in args;
    if AreTaken(oper, list, args) {
      assert |args| <= n;
      assert args == list[..|args|];
      assert n < |list| ==> list[n] == VA_ARG_END;
      assert |args| == |Taken(oper, list)|;
    }
  }

  /** The caller passes enough arguments, or marks their end. */
  predicate Supplied(oper: byte, list: seq<int32>) {
    UpToEnd(list) < |list| || (Limit(oper).Some? && Limit(oper).value <= |list|)
  }

  /** The argument after the first k operands. */
  lemma NextTaken(oper: byte, list: seq<int32>, k: nat)
    requires Supplied(oper, list) && k <= |Taken(oper, list)| && (Limit(oper).Some? ==> k < Limit(oper).value)
    ensures k < |list| && (list[k] == VA_ARG_END <==> k == |Taken(oper, list)|)
    ensures k < |Taken(oper, list)| ==> Taken(oper, list)[k] == list[k]
    ensures Limit(oper).Some? ==> |Taken(oper, list)| <= Limit(oper).value
  {
  }

  lemma CountWraps(k: nat)
    ensures (k % 0x100 + 1) % 0x100 == (k + 1) % 0x100
  {
  }

  /** The operands, up to the end mark or to as many as the operator takes; the count wraps around. */
  method AttachOperands(m: IpcMsg, oper: byte, list: seq<int32>, ghost start: nat, ghost p: seq<byte>) returns (argc: byte)
    requires Holds(m, start, p) && Supplied(oper, list)
    requires m.dataOffset + 4 * |Taken(oper, list)| <= m.sendBuf.Length
    modifies m`dataOffset, m`catalogItems, m.sendBuf
    ensures Undisturbed(m, start) && Holds(m, start, p + Ints(Taken(oper, list)))
    ensures AreTaken(oper, list, Taken(oper, list))
    ensures argc == |Taken(oper, list)| % 0x100 && m.dataOffset == old(m.dataOffset) + 4 * |Taken(oper, list)|
  {
    hide EncodeInt, Tidy, Taken, Supplied, Ints, AreTaken;
    ghost var args := Taken(oper, list);
    TakenAreThese(oper, list, args);
    argc := 0;
    NoInts(p);
    var k := 0;
    while true
      invariant 0 <= k <= |args| && argc == k % 0x100 && (Limit(oper).Some? ==> k < Limit(oper).value)
      invariant Undisturbed(m, start) && Holds(m, start, p + Ints(args[..k])) && m.dataOffset == old(m.dataOffset) + 4 * k
      decreases |args| - k
    {
      NextTaken(oper, list, k);
      var v := list[k];
      if v == VA_ARG_END {
        break;
      }
      CountWraps(k);
      argc := (argc + 1) % 0x100;
      Attach(m, EncodeInt(v), start, p + Ints(args[..k]));
      NextInt(p, args, k);
      k := k + 1;
      if oper == OPER_RANGE {
        if argc >= 2 {
          break;
        }
      } else if oper < OPER_IN {
        break;
      }
    }
    assert args[..k] == args;
  }

  method PatchArgc(m: IpcMsg, argc: byte, ghost start: nat, ghost q: seq<byte>, ghost ints: seq<byte>)
    requires Holds(m, start, q + [0] + ints) && m.curCond + 3 == start + |q|
    modifies m.sendBuf
    ensures Undisturbed(m, start) && Holds(m, start, q + [argc] + ints)
  {
    hide Written, Tidy;
    ghost var was, end := m.sendBuf[..], m.dataOffset;
    assert was[start..end] == m.sendBuf[start..end] && was[..start] == m.sendBuf[..start];
    Patched(was, start, end, q, [0], ints, [argc]);
    WriteBytes(m.sendBuf, m.curCond + 3, [argc]);
    assert m.sendBuf[start..end] == m.sendBuf[..][start..end] && m.sendBuf[..start] == m.sendBuf[..][..start];
  }

  /** A call gets its operands from the arguments passed if and only if there are operands to take. */
  lemma SuppliedMeans(oper: byte, list: seq<int32>)
    ensures Supplied(oper, list) <==> exists args :: AreTaken(oper, list, args)
  {
    if Supplied(oper, list) {
      TakenAreThese(oper, list, Taken(oper, list));
    }
    forall args | AreTaken(oper, list, args)
      ensures Supplied(oper, list)
    {
      assert forall i | 0 <= i < |args| :: list[i] == args[i] && args[i] in args;
    }
  }

  /** request_condition_addl: the level is stored less one; the count of operands, kept in one byte, is
      patched in behind them. */
  method RequestConditionAddl(m: IpcMsg, level: byte, field: byte, oper: byte, list: seq<int32>,
                              ghost start: nat, ghost before: seq<Head>, ghost gs: Head, ghost g: Group)
    requires Built(m, start, WithNewest(before, gs, g)) && Supplied(oper, list)
    requires m.dataOffset + 4 + 4 * |Taken(oper, list)| <= m.sendBuf.Length
    modifies m`condHead, m`curCondGp, m`curCond, m`dataOffset, m`catalogItems, m.sendBuf
    ensures Undisturbed(m, start)
    ensures AreTaken(oper, list, Taken(oper, list))
    ensures var c := Condition((level - 1) % 0x100, field, oper, Taken(oper, list));
            && Countable(WithNewest(before, gs, g + [c])) && Built(m, start, WithNewest(before, gs, g + [c]))
            && m.dataOffset == old(m.dataOffset) + |OfCondition(c)|
  {
    hide EncodeInt, OfHeads, OfGroups, UpToGroup, Tidy, Countable, Small, WithNewest, Built, Taken, Supplied, Holds, AreTaken;
    StartCondition(m, (level - 1) % 0x100, field, oper, 0, start, before, gs, g);
    ghost var u := UpToCondition(before, gs, g);
    ghost var q := u + [(level - 1) % 0x100, field, oper];
    assert q + [0] == u + [(level - 1) % 0x100, field, oper, 0];
    var argc := AttachOperands(m, oper, list, start, q + [0]);
    PatchArgc(m, argc, start, q, Ints(Taken(oper, list)));
    ghost var c := Condition((level - 1) % 0x100, field, oper, Taken(oper, list));
    assert u + OfCondition(c) == q + [argc] + Ints(Taken(oper, list));
    Finished(m, start, before, gs, g, c);
  }
}
