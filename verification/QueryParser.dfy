/** Reading query conditions back: parse_query_cond, and the streaming query_and_give_data. */
module QueryParser {
  import opened Bytes
  import opened IpcBuilder
  import opened QueryCondition
  import opened Wrappers

  // What the parsers can read

  /** The slots have room for two levels, and the operand count for 255. */
  predicate Storable(g: Group) {
    forall c | c in g :: |c.args| < 0x100 && (c.field == FIELD_IDX || c.field == FIELD_TYPE ==> c.level < LEVELS)
  }

  predicate AllStorable(groups: seq<Group>) {
    forall g | g in groups :: Storable(g)
  }

  /** One condition as the handlers see it; pv is where its operands start in the message, None a null pointer. */
  datatype Slot = Slot(oper: byte, argc: byte, pv: Option<nat>)

  datatype Level = Level(idx: Slot, typ: Slot)

  type Levels = s: seq<Level> | |s| == LEVELS witness [CLEAR, CLEAR]

  const UNSET := Slot(0, 0, None)
  const CLEAR := Level(UNSET, UNSET)

  function Operands(data: seq<byte>, at: nat, argc: nat): (args: seq<int32>)
    requires at + 4 * argc <= |data|
    ensures |args| == argc
    decreases argc
  {
    if argc == 0 then [] else [ReadInt(data, at)] + Operands(data, at + 4, argc - 1)
  }

  /** The slot holds this condition. */
  predicate SlotIs(data: seq<byte>, slot: Slot, c: Option<Condition>) {
    match c
    case None => slot == UNSET
    case Some(c) =>
      && slot.oper == c.oper && slot.argc == |c.args| && slot.pv.Some?
      && slot.pv.value + 4 * slot.argc <= |data|
      && Operands(data, slot.pv.value, slot.argc) == c.args
  }

  /** Each slot holds the last condition of the group for its level and field. */
  predicate LevelsAre(data: seq<byte>, levels: Levels, g: Group) {
    forall l | 0 <= l < LEVELS ::
      SlotIs(data, levels[l].idx, LastFor(g, l, FIELD_IDX)) && SlotIs(data, levels[l].typ, LastFor(g, l, FIELD_TYPE))
  }

  // Walking the bytes

  lemma Split(data: seq<byte>, at: nat, a: seq<byte>, b: seq<byte>)
    requires at <= |data| && data[at..] == a + b
    ensures at + |a| <= |data| && data[at..at + |a|] == a && data[at + |a|..] == b
  {
    Slice(data, at, |data|, 0, |a|);
    Slice(data, at, |data|, |a|, |data| - at);
    assert |data[at..]| == |a| + |b|;
    assert data[at..][..|a|] == a && data[at..][|a|..] == b;
  }

  lemma SplitInt(data: seq<byte>, at: nat, v: int32, b: seq<byte>)
    requires at <= |data| && data[at..] == EncodeInt(v) + b
    ensures at + 4 <= |data| && ReadInt(data, at) == v && data[at + 4..] == b
  {
    hide EncodeInt, DecodeInt;
    Split(data, at, EncodeInt(v), b);
    DecodeEncode(v);
  }

  lemma NextHead(data: seq<byte>, at: nat, heads: seq<Head>)
    requires at <= |data| && heads != [] && Countable(heads) && data[at..] == OfHeads(heads)
    ensures at + 4 <= |data| && ReadInt(data, at) == |heads[0]|
    ensures Small(heads[0]) && Countable(heads[1..]) && data[at + 4..] == OfGroups(heads[0]) + OfHeads(heads[1..])
  {
    hide EncodeInt, ReadInt, OfHeads, OfGroups;
    OfHeadsStep(heads);
    var a, b, c := EncodeInt(|heads[0]|), OfGroups(heads[0]), OfHeads(heads[1..]);
    assert a + b + c == a + (b + c);
    SplitInt(data, at, |heads[0]|, b + c);
  }

  lemma NextGroup(data: seq<byte>, at: nat, h: Head, rest: seq<byte>)
    requires at <= |data| && h != [] && Small(h) && data[at..] == OfGroups(h) + rest
    ensures at + 4 <= |data| && ReadInt(data, at) == |h[0]| && Small(h[1..])
    ensures data[at + 4..] == OfConditions(h[0]) + (OfGroups(h[1..]) + rest)
  {
    hide EncodeInt, ReadInt, OfConditions, OfGroups;
    OfGroupsStep(h);
    var a, b, c := EncodeInt(|h[0]|), OfConditions(h[0]), OfGroups(h[1..]);
    assert a + b + c + rest == a + (b + (c + rest));
    SplitInt(data, at, |h[0]|, b + (c + rest));
  }

  lemma ConditionBytes(g: Group, rest: seq<byte>)
    requires g != [] && |g[0].args| < 0x100
    ensures var c := g[0];
            var a: seq<byte> := [c.level, c.field, c.oper, |c.args|];
            OfConditions(g) + rest == a + (Ints(c.args) + (OfConditions(g[1..]) + rest))
  {
    hide Ints;
  }

  lemma NextCondition(data: seq<byte>, at: nat, g: Group, rest: seq<byte>)
    requires at <= |data| && g != [] && |g[0].args| < 0x100 && data[at..] == OfConditions(g) + rest
    ensures var c := g[0];
            && at + 4 + 4 * |c.args| <= |data|
            && data[at] == c.level && data[at + 1] == c.field && data[at + 2] == c.oper && data[at + 3] == |c.args|
            && Operands(data, at + 4, |c.args|) == c.args
            && data[at + 4 + 4 * |c.args|..] == OfConditions(g[1..]) + rest
  {
    hide EncodeInt, ReadInt, Operands, OfConditions, Ints;
    var c, more := g[0], OfConditions(g[1..]) + rest;
    var a: seq<byte> := [c.level, c.field, c.oper, |c.args|];
    ConditionBytes(g, rest);
    Split(data, at, a, Ints(c.args) + more);
    var b := data[at..at + 4];
    assert b[0] == data[at] && b[1] == data[at + 1] && b[2] == data[at + 2] && b[3] == data[at + 3];
    OperandsAre(data, at + 4, c.args, more);
    Split(data, at + 4, Ints(c.args), more);
  }

  lemma {:induction false} OperandsAre(data: seq<byte>, at: nat, args: seq<int32>, rest: seq<byte>)
    requires at <= |data| && data[at..] == Ints(args) + rest
    ensures at + 4 * |args| <= |data| && Operands(data, at, |args|) == args
    decreases |args|
  {
    hide EncodeInt, ReadInt;
    assert |data[at..]| == 4 * |args| + |rest|;
    if args != [] {
      var more := Ints(args[1..]) + rest;
      assert Ints(args) + rest == EncodeInt(args[0]) + more;
      SplitInt(data, at, args[0], more);
      OperandsAre(data, at + 4, args[1..], rest);
    }
  }

  lemma OneMore(data: seq<byte>, levels: Levels, levels': Levels, g: Group, c: Condition, at: nat)
    requires LevelsAre(data, levels, g)
    requires |c.args| < 0x100 && at + 4 * |c.args| <= |data| && Operands(data, at, |c.args|) == c.args
    requires c.field == FIELD_IDX || c.field == FIELD_TYPE ==> c.level < LEVELS
    requires var slot := Slot(c.oper, |c.args|, Some(at));
             levels' == if c.field == FIELD_IDX then levels[c.level := levels[c.level].(idx := slot)]
                        else if c.field == FIELD_TYPE then levels[c.level := levels[c.level].(typ := slot)]
                        else levels
    ensures LevelsAre(data, levels', g + [c])
  {
    hide Operands;
    assert (g + [c])[..|g|] == g;
    forall l | 0 <= l < LEVELS
      ensures SlotIs(data, levels'[l].idx, LastFor(g + [c], l, FIELD_IDX))
      ensures SlotIs(data, levels'[l].typ, LastFor(g + [c], l, FIELD_TYPE))
    {
    }
  }

  /** The conditions of one group, stored over what earlier ones left in the slots. */
  method ParseConditions(data: seq<byte>, at: nat, qty: int, levels: Levels, ghost earlier: Group, ghost g: Group, ghost rest: seq<byte>)
    returns (levels': Levels, offset: nat)
    requires at <= |data| && data[at..] == OfConditions(g) + rest && qty == |g| && Storable(g)
    requires LevelsAre(data, levels, earlier)
    ensures LevelsAre(data, levels', earlier + g) && offset <= |data| && data[offset..] == rest
  {
    hide LevelsAre, Operands, OfConditions;
    levels', offset := levels, at;
    assert g[0..] == g && earlier + g[..0] == earlier;
    for j := 0 to qty
      invariant offset <= |data| && data[offset..] == OfConditions(g[j..]) + rest
      invariant LevelsAre(data, levels', earlier + g[..j])
    {
      assert g[j] in g && g[j..][1..] == g[j + 1..];
      NextCondition(data, offset, g[j..], rest);
      var condLv, condField, condOper, condArgc: int := data[offset], data[offset + 1], data[offset + 2], data[offset + 3];
      offset := offset + 4;
      var slot := Slot(condOper, condArgc, Some(offset));
      ghost var was := levels';
      if condField == FIELD_IDX {
        levels' := levels'[condLv := levels'[condLv].(idx := slot)];
      } else if condField == FIELD_TYPE {
        levels' := levels'[condLv := levels'[condLv].(typ := slot)];
      }
      OneMore(data, was, levels', earlier + g[..j], g[j], offset);
      assert earlier + g[..j] + [g[j]] == earlier + g[..j + 1];
      offset := offset + condArgc * 4;
    }
    assert g[qty..] == [] && g[..qty] == g;
    NoneLeft(rest);
  }

  lemma NoneLeft(rest: seq<byte>)
    ensures OfConditions([]) + rest == rest && OfGroups([]) + rest == rest
  {
  }

  // parse_query_cond

  class CondGroup {
    var queryCond: Levels
    var next: CondGroup?

    constructor ()
      ensures queryCond == [CLEAR, CLEAR] && next == null
    {
      queryCond := [CLEAR, CLEAR];
      next := null;
    }
  }

  /** The list from head on consists of these nodes. */
  ghost predicate Chain(head: CondGroup?, nodes: seq<CondGroup>)
    reads nodes
  {
    && head == (if nodes == [] then null else nodes[0])
    && (forall i | 0 <= i < |nodes| :: nodes[i].next == if i + 1 < |nodes| then nodes[i + 1] else null)
    && (forall i, j | 0 <= i < j < |nodes| :: nodes[i] != nodes[j])
  }

  /** One node per group, in order. */
  ghost predicate NodesAre(data: seq<byte>, nodes: seq<CondGroup>, groups: seq<Group>)
    reads nodes
  {
    |nodes| == |groups| && forall i | 0 <= i < |nodes| :: LevelsAre(data, nodes[i].queryCond, groups[i])
  }

  ghost predicate Ends(nodes: seq<CondGroup>, last: CondGroup?) {
    nodes != [] ==> last == nodes[|nodes| - 1]
  }

  /** A new node at the end of the list. */
  method Link(head: CondGroup?, cur: CondGroup?, node: CondGroup, ghost nodes: seq<CondGroup>) returns (head': CondGroup?)
    requires Chain(head, nodes) && node !in nodes && node.next == null
    requires Ends(nodes, cur)
    modifies (if head == null then {} else {cur})`next
    ensures Chain(head', nodes + [node])
  {
    if head == null {
      head' := node;
    } else {
      head' := head;
      cur.next := node;
    }
  }

  /** One more node, for the group that the bytes continue with. */
  method ReadGroup(bytes: seq<byte>, at: nat, head: CondGroup?, cur: CondGroup?,
                   ghost nodes: seq<CondGroup>, ghost groups: seq<Group>, ghost h: Head, ghost rest: seq<byte>)
    returns (head': CondGroup?, node: CondGroup, offset: nat)
    requires at <= |bytes| && h != [] && Small(h) && Storable(h[0]) && bytes[at..] == OfGroups(h) + rest
    requires Chain(head, nodes) && Ends(nodes, cur) && NodesAre(bytes, nodes, groups)
    modifies (if nodes == [] then {} else {cur})`next
    ensures fresh(node) && Chain(head', nodes + [node]) && NodesAre(bytes, nodes + [node], groups + [h[0]])
    ensures Small(h[1..]) && offset <= |bytes| && bytes[offset..] == OfGroups(h[1..]) + rest
  {
    hide OfGroups, OfConditions, ReadInt, Storable;
    NextGroup(bytes, at, h, rest);
    node := new CondGroup();
    head' := Link(head, cur, node, nodes);
    var condQty := ReadInt(bytes, at);
    ClearIs(bytes);
    node.queryCond, offset := ParseConditions(bytes, at + 4, condQty, node.queryCond, [], h[0], OfGroups(h[1..]) + rest);
    assert [] + h[0] == h[0];
  }

  lemma ClearIs(data: seq<byte>)
    ensures LevelsAre(data, [CLEAR, CLEAR], [])
  {
  }

  /** While bytes are left, heads are. */
  lemma MoreHeads(data: seq<byte>, at: nat, heads: seq<Head>)
    requires at < |data| && Countable(heads) && data[at..] == OfHeads(heads)
    ensures heads != [] && at + 4 <= |data| && ReadInt(data, at) == |heads[0]|
    ensures Small(heads[0]) && Countable(heads[1..]) && data[at + 4..] == OfGroups(heads[0]) + OfHeads(heads[1..])
    ensures AllGroups(heads) == heads[0] + AllGroups(heads[1..])
  {
    hide EncodeInt, ReadInt, OfGroups;
    assert heads != [];
    NextHead(data, at, heads);
  }

  lemma NoMoreHeads(heads: seq<Head>)
    requires Countable(heads) && OfHeads(heads) == []
    ensures heads == []
  {
    hide EncodeInt, OfGroups;
    if heads != [] {
      OfHeadsStep(heads);
    }
  }

  lemma EmptyList(data: seq<byte>)
    ensures Chain(null, []) && NodesAre(data, [], [])
  {
  }

  /** The groups of one head. */
  method ReadGroups(bytes: seq<byte>, at: nat, qty: int, head: CondGroup?, last: CondGroup?,
                    ghost nodes: seq<CondGroup>, ghost groups: seq<Group>, ghost h: Head, ghost rest: seq<byte>)
    returns (head': CondGroup?, cur: CondGroup?, offset: nat, ghost nodes': seq<CondGroup>)
    requires at <= |bytes| && qty == |h| && Small(h) && AllStorable(h) && bytes[at..] == OfGroups(h) + rest
    requires Chain(head, nodes) && Ends(nodes, last) && NodesAre(bytes, nodes, groups)
    modifies (if nodes == [] then {} else {last})`next
    ensures nodes <= nodes' && (forall i | |nodes| <= i < |nodes'| :: fresh(nodes'[i])) && Chain(head', nodes') && Ends(nodes', cur)
    ensures NodesAre(bytes, nodes', groups + h)
    ensures offset <= |bytes| && bytes[offset..] == rest
  {
    hide OfGroups, Chain, NodesAre, Storable, Small;
    head', cur, offset, nodes' := head, last, at, nodes;
    assert h[0..] == h && groups + h[..0] == groups;
    for i := 0 to qty
      invariant offset <= |bytes| && Small(h[i..]) && bytes[offset..] == OfGroups(h[i..]) + rest
      invariant nodes <= nodes' && (forall i | |nodes| <= i < |nodes'| :: fresh(nodes'[i])) && Chain(head', nodes') && Ends(nodes', cur)
      invariant NodesAre(bytes, nodes', groups + h[..i])
    {
      assert h[i..][1..] == h[i + 1..] && groups + h[..i] + [h[i]] == groups + h[..i + 1];
      head', cur, offset := ReadGroup(bytes, offset, head', cur, nodes', groups + h[..i], h[i..], rest);
      nodes' := nodes' + [cur];
    }
    assert h[qty..] == [] && h[..qty] == h;
    NoneLeft(rest);
  }

  /** parse_query_cond: one node for each group of each head, in order; `end` is where it stops. */
  method ParseQueryCond(data: Option<seq<byte>>, dataLen: int, ghost heads: seq<Head>)
    returns (headCondGp: CondGroup?, ghost nodes: seq<CondGroup>, ghost end: nat)
    requires data.Some? && dataLen > 0 ==> dataLen <= |data.value| && Countable(heads) && data.value[..dataLen] == OfHeads(heads)
    requires AllStorable(AllGroups(heads))
    ensures Chain(headCondGp, nodes) && fresh(nodes)
    ensures if data.None? || dataLen <= 0 then nodes == []
            else NodesAre(data.value[..dataLen], nodes, AllGroups(heads)) && end == dataLen
  {
    hide OfHeads, OfGroups, ReadInt, EncodeInt, Chain, NodesAre, Storable, Small, Countable;
    headCondGp, nodes, end := null, [], 0;
    EmptyList([]);
    if data.None? || dataLen <= 0 {
      return;
    }
    var bytes := data.value[..dataLen];
    EmptyList(bytes);
    var cur: CondGroup? := null;
    var offset := 0;
    ghost var todo, done: seq<Group> := heads, [];
    while offset < dataLen
      invariant 0 <= offset <= |bytes| && Countable(todo) && bytes[offset..] == OfHeads(todo)
      invariant done + AllGroups(todo) == AllGroups(heads)
      invariant Chain(headCondGp, nodes) && Ends(nodes, cur) && NodesAre(bytes, nodes, done)
      invariant forall i | 0 <= i < |nodes| :: fresh(nodes[i])
      decreases |todo|
    {
      MoreHeads(bytes, offset, todo);
      ghost var rest := OfHeads(todo[1..]);
      var condGpQty := ReadInt(bytes, offset);
      assert forall g | g in todo[0] :: g in AllGroups(heads);
      headCondGp, cur, offset, nodes := ReadGroups(bytes, offset + 4, condGpQty, headCondGp, cur, nodes, done, todo[0], rest);
      Associates(done, todo[0], AllGroups(todo[1..]));
      done, todo := done + todo[0], todo[1..];
    }
    NoMoreHeads(todo);
    assert done + [] == done;
    end := offset;
  }
}
