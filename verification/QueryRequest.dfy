/** A query from one end to the other: built inside a message, sent, received, parsed and answered. */
module QueryRequest {
  import opened Bytes
  import opened IpcBuilder
  import opened IpcMessage
  import opened QueryBuilder
  import opened QueryCondition
  import opened QueryIndex
  import opened QueryParser
  import opened Wrappers

  // The answering side

  /** The handler is called on these indices, with the slots of one group or with none. */
  datatype Run = Run(queryCond: Option<Levels>, visited: seq<int>)

  function Total(runs: seq<Run>): nat {
    if runs == [] then 0 else Total(runs[..|runs| - 1]) + |runs[|runs| - 1].visited|
  }

  /** The group has a first-level index condition with the operands its operator reads. */
  predicate Indexed(g: Group) {
    var c := LastFor(g, 0, FIELD_IDX);
    c.Some? && Enough(c.value.oper, c.value.args)
  }

  /** The run of a group: its slots, and the indices that the ranges of its index condition cover. */
  predicate RunOf(data: seq<byte>, run: Run, g: Group, maxIdx: int32, stale: int32)
    requires Indexed(g)
  {
    var c := LastFor(g, 0, FIELD_IDX).value;
    && run.queryCond.Some? && LevelsAre(data, run.queryCond.value, g)
    && run.visited == Visited(c.oper, c.args, Rounds(c.oper, c.args), maxIdx, stale)
  }

  /** One run per group. */
  predicate RunsOf(data: seq<byte>, runs: seq<Run>, groups: seq<Group>, maxIdx: int32, stale: nat -> int32)
    requires forall g | g in groups :: Indexed(g)
  {
    |runs| == |groups| && forall k | 0 <= k < |runs| :: RunOf(data, runs[k], groups[k], maxIdx, stale(k))
  }

  lemma GroupSlot(data: seq<byte>, levels: Levels, g: Group)
    requires LevelsAre(data, levels, g) && Indexed(g)
    ensures LastFor(g, 0, FIELD_IDX).Some?
    ensures var c := LastFor(g, 0, FIELD_IDX).value;
            && levels[0].idx.oper == c.oper && Fed(data, levels[0].idx, c.oper, c.args)
  {
  }

  lemma WrapSum(a: int, b: int)
    ensures Wrap(Wrap(a) + Wrap(b)) == Wrap(a + b)
  {
    WrapAdd(a, Wrap(b));
    WrapAdd(b, a);
  }

  lemma MoreRuns(data: seq<byte>, runs: seq<Run>, groups: seq<Group>, maxIdx: int32, stale: nat -> int32, run: Run, g: Group)
    requires forall x | x in groups + [g] :: Indexed(x)
    requires RunsOf(data, runs, groups, maxIdx, stale) && g in groups + [g] && RunOf(data, run, g, maxIdx, stale(|runs|))
    ensures RunsOf(data, runs + [run], groups + [g], maxIdx, stale) && Total(runs + [run]) == Total(runs) + |run.visited|
  {
    hide RunOf, Indexed;
    assert (runs + [run])[..|runs|] == runs;
  }

  method RunGroup(data: seq<byte>, levels: Levels, maxIdx: int32, stale: int32, ghost g: Group)
    returns (count: int32, run: Run)
    requires maxIdx < INT_MAX && LevelsAre(data, levels, g) && Indexed(g)
    ensures RunOf(data, run, g, maxIdx, stale) && run.queryCond == Some(levels) && count == Wrap(|run.visited|)
  {
    hide LevelsAre, Visited, Wrap, Indexed;
    GroupSlot(data, levels, g);
    ghost var c := LastFor(g, 0, FIELD_IDX).value;
    var visited;
    count, visited := QueryLevel1Idx(data, Some(levels), maxIdx, stale, c.args);
    run := Run(Some(levels), visited);
  }

  /** The groups of the list, one after the other. */
  method WalkGroups(data: seq<byte>, head: CondGroup?, ghost nodes: seq<CondGroup>, ghost groups: seq<Group>,
                    maxIdx: int32, stale: nat -> int32)
    returns (recordCount: int32, runs: seq<Run>)
    requires maxIdx < INT_MAX && forall g | g in groups :: Indexed(g)
    requires Chain(head, nodes) && NodesAre(data, nodes, groups)
    ensures recordCount == Wrap(Total(runs)) && RunsOf(data, runs, groups, maxIdx, stale)
  {
    hide LevelsAre, Indexed, Wrap, RunsOf, RunOf, Total;
    recordCount, runs := 0, [];
    NoRuns(data, maxIdx, stale);
    var cur := head;
    while cur != null
      invariant Chain(head, nodes) && NodesAre(data, nodes, groups)
      invariant |runs| <= |nodes| && cur == if |runs| < |nodes| then nodes[|runs|] else null
      invariant RunsOf(data, runs, groups[..|runs|], maxIdx, stale) && recordCount == Wrap(Total(runs))
      decreases |nodes| - |runs|
    {
      ghost var k := |runs|;
      assert groups[k] in groups;
      var count, run := RunGroup(data, cur.queryCond, maxIdx, stale(|runs|), groups[k]);
      MoreRuns(data, runs, groups[..k], maxIdx, stale, run, groups[k]);
      assert groups[..k] + [groups[k]] == groups[..k + 1];
      WrapSum(Total(runs), |run.visited|);
      recordCount := Wrap(recordCount + count);
      runs := runs + [run];
      cur := cur.next;
    }
    assert groups[..|groups|] == groups;
  }

  lemma NoRuns(data: seq<byte>, maxIdx: int32, stale: nat -> int32)
    ensures RunsOf(data, [], [], maxIdx, stale) && Wrap(Total([])) == 0
  {
  }

  /** query_and_give_data_by_idx; stale is what each call of query_level_1_idx finds in its range variable. */
  method QueryAndGiveDataByIdx(data: Option<seq<byte>>, dataLen: int, maxIdx: int32, stale: nat -> int32, ghost heads: seq<Head>)
    returns (recordCount: int32, runs: seq<Run>)
    requires maxIdx < INT_MAX
    requires data.Some? && dataLen > 0 ==> dataLen <= |data.value| && Countable(heads) && data.value[..dataLen] == OfHeads(heads)
    requires AllStorable(AllGroups(heads)) && forall g | g in AllGroups(heads) :: Indexed(g)
    ensures recordCount == Wrap(Total(runs))
    ensures if data.None? || dataLen <= 0 || AllGroups(heads) == [] then runs == [Run(None, Numbers(0, maxIdx))]
            else RunsOf(data.value[..dataLen], runs, AllGroups(heads), maxIdx, stale)
  {
    hide OfHeads, LevelsAre, Visited, Numbers, Indexed, Wrap, Storable, Countable, RunOf;
    var headCondGp, nodes, _ := ParseQueryCond(data, dataLen, heads);
    if headCondGp == null {
      var visited;
      recordCount, visited := QueryLevel1Idx([], None, maxIdx, stale(0), []);
      runs := [Run(None, visited)];
      assert runs[..0] == [];
    } else {
      recordCount, runs := WalkGroups(data.value[..dataLen], headCondGp, nodes, AllGroups(heads), maxIdx, stale);
    }
  }

  /** The run visits exactly the indices the group's condition asks for. */
  predicate IsExact(run: Run, g: Group, maxIdx: int32)
    requires Indexed(g)
  {
    var c := LastFor(g, 0, FIELD_IDX).value;
    run.visited == Matching(c.oper, c.args, maxIdx)
  }

  predicate HasGoodOperands(g: Group, maxIdx: int32, stale: int32)
    requires Indexed(g)
  {
    var c := LastFor(g, 0, FIELD_IDX).value;
    GoodOperands(c.oper, c.args, maxIdx, stale)
  }

  /** The runs are exact if and only if the operands are good, group by group. */
  predicate ExactIfGood(runs: seq<Run>, groups: seq<Group>, maxIdx: int32, stale: nat -> int32)
    requires |runs| == |groups| && forall g | g in groups :: Indexed(g)
  {
    forall k | 0 <= k < |runs| :: IsExact(runs[k], groups[k], maxIdx) <==> HasGoodOperands(groups[k], maxIdx, stale(k))
  }

  lemma RunIsExact(data: seq<byte>, run: Run, g: Group, maxIdx: int32, stale: int32)
    requires Indexed(g) && RunOf(data, run, g, maxIdx, stale)
    ensures IsExact(run, g, maxIdx) <==> HasGoodOperands(g, maxIdx, stale)
  {
    hide Visited, Matching, LevelsAre;
    var c := LastFor(g, 0, FIELD_IDX).value;
    Exact(c.oper, c.args, maxIdx, stale);
  }

  /** Every group is answered with exactly the indices its condition asks for if and only if its operands
      are good. */
  lemma RunsAreExact(data: seq<byte>, runs: seq<Run>, groups: seq<Group>, maxIdx: int32, stale: nat -> int32)
    requires (forall g | g in groups :: Indexed(g)) && RunsOf(data, runs, groups, maxIdx, stale)
    ensures ExactIfGood(runs, groups, maxIdx, stale)
  {
    hide RunOf, Indexed;
    forall k | 0 <= k < |runs|
      ensures IsExact(runs[k], groups[k], maxIdx) <==> HasGoodOperands(groups[k], maxIdx, stale(k))
    {
      RunIsExact(data, runs[k], groups[k], maxIdx, stale(k));
    }
  }

  // The asking side

  datatype Step =
    | Init
    | AddGroup
    | Addl(level: byte, field: byte, oper: byte, list: seq<int32>)
    | Addv(level: byte, field: byte, oper: byte, argc: byte, valArr: Option<seq<int32>>)

  /** What the caller of a step owes: a head to put a group in, a group to put a condition in, and operands. */
  predicate Allowed(heads: seq<Head>, step: Step) {
    match step
    case Init => true
    case AddGroup => heads != []
    case Addl(_, _, oper, list) => heads != [] && heads[|heads| - 1] != [] && Supplied(oper, list)
    case Addv(_, _, _, argc, valArr) => heads != [] && heads[|heads| - 1] != [] && (valArr.Some? ==> argc <= |valArr.value|)
  }

  /** The conditions a step adds to the newest group. */
  function Added(step: Step): Group {
    match step
    case Init => []
    case AddGroup => []
    case Addl(level, field, oper, list) => [Condition((level - 1) % 0x100, field, oper, Taken(oper, list))]
    case Addv(level, field, oper, argc, valArr) =>
      if argc == 0 || valArr.None? || argc > |valArr.value| then [] else [Condition(level, field, oper, valArr.value[..argc])]
  }

  function AfterStep(heads: seq<Head>, step: Step): seq<Head>
    requires Allowed(heads, step)
  {
    if step.Init? then heads + [[]]
    else
      var n := |heads| - 1;
      var h := heads[n];
      if step.AddGroup? then WithNewest(heads[..n], h, [])
      else WithNewest(heads[..n], h[..|h| - 1], h[|h| - 1] + Added(step))
  }

  predicate AllAllowed(heads: seq<Head>, steps: seq<Step>)
    decreases |steps|
  {
    steps == [] || (Allowed(heads, steps[0]) && AllAllowed(AfterStep(heads, steps[0]), steps[1..]))
  }

  function AfterSteps(heads: seq<Head>, steps: seq<Step>): seq<Head>
    requires AllAllowed(heads, steps)
    decreases |steps|
  {
    if steps == [] then heads else AfterSteps(AfterStep(heads, steps[0]), steps[1..])
  }

  /** The bytes a step takes. */
  function StepRoom(step: Step): nat {
    if step.Init? || step.AddGroup? then 4 else |OfConditions(Added(step))|
  }

  function Room(steps: seq<Step>): nat {
    if steps == [] then 0 else StepRoom(steps[0]) + Room(steps[1..])
  }

  method PerformStep(m: IpcMsg, step: Step, ghost start: nat, ghost heads: seq<Head>)
    requires Built(m, start, heads) && Allowed(heads, step) && m.dataOffset + StepRoom(step) <= m.sendBuf.Length
    modifies m`condHead, m`curCondGp, m`curCond, m`dataOffset, m`catalogItems, m.sendBuf
    ensures Undisturbed(m, start) && Built(m, start, AfterStep(heads, step))
    ensures m.dataOffset == old(m.dataOffset) + StepRoom(step)
  {
    hide Built, Undisturbed, Supplied, Taken, IpcMsg.Valid;
    ghost var before, h := [], [];
    ghost var gs, g := [], [];
    if heads != [] {
      before, h := heads[..|heads| - 1], heads[|heads| - 1];
      assert heads == before + [h];
      if h != [] {
        gs, g := h[..|h| - 1], h[|h| - 1];
        assert h == gs + [g] && WithNewest(before, gs, g) == heads;
      }
    }
    match step {
      case Init =>
        InitRequestCondition(m, start, heads);
      case AddGroup =>
        var _ := AddRequestConditionGroup(m, start, before, h);
      case Addl(level, field, oper, list) =>
        OneCondition(Condition((level - 1) % 0x100, field, oper, Taken(oper, list)));
        RequestConditionAddl(m, level, field, oper, list, start, before, gs, g);
      case Addv(level, field, oper, argc, valArr) =>
        if argc > 0 && valArr.Some? {
          OneCondition(Condition(level, field, oper, valArr.value[..argc]));
        }
        RequestConditionAddv(m, level, field, oper, argc, valArr, start, before, gs, g);
    }
  }

  lemma OneCondition(c: Condition)
    ensures OfConditions([c]) == OfCondition(c)
  {
    assert [c][1..] == [];
  }

  /** The items once `bytes` lie in the newest, empty one. */
  lemma NewestPayload(buf: seq<byte>, catalog: seq<Entry>, start: nat, buf': seq<byte>, catalog': seq<Entry>, end: nat, bytes: seq<byte>)
    requires catalog != [] && Tidy(catalog, start) && catalog[0].offset == start <= |buf|
    requires catalog' != [] && Tidy(catalog', end) && catalog'[0].offset + catalog'[0].len == end <= |buf'|
    requires catalog'[0].offset == start && catalog'[0].typ == catalog[0].typ && catalog'[1..] == catalog[1..]
    requires buf'[..start] == buf[..start] && buf'[start..end] == bytes
    ensures var items, n := ItemsOf(buf, catalog, start), |catalog| - 1;
            ItemsOf(buf', catalog', end) == items[..n] + [Item(items[n].dataType, items[n].flags, bytes)]
  {
    hide TypeOf, FlagsOf;
    assert buf[..start] == buf'[..start];
    ItemsUnchanged(buf, buf', catalog[1..], start);
  }

  /** A new item that holds the conditions of the steps. */
  method BuildRequest(m: IpcMsg, dataType: int32, flags: Flags, steps: seq<Step>)
    requires m.Valid() && AllAllowed([], steps) && Aligned(m.dataOffset) + Room(steps) <= m.sendBuf.Length
    modifies m`condHead, m`curCondGp, m`curCond, m`dataOffset, m`catalogCount, m`catalogItems, m.sendBuf
    ensures m.Valid() && m.sendBuf == old(m.sendBuf) && m.dataOffset == Aligned(old(m.dataOffset)) + Room(steps)
    ensures |m.catalogItems| == |old(m.catalogItems)| + 1
    ensures Countable(AfterSteps([], steps)) && |OfHeads(AfterSteps([], steps))| == Room(steps)
    ensures m.Items() == old(m.Items())
              + [Item(dataType % 0x100_0000, Kept(Sided(flags, m.sideType)), OfHeads(AfterSteps([], steps)))]
  {
    hide Kept, Sided, Tidy, ItemsOf, Written, OwnData, Allowed, AfterStep, StepRoom, Pointed;
    var _ := m.FillMsgData(dataType, flags, None, 0);
    ghost var start, filled, entries := m.dataOffset, m.sendBuf[..], m.catalogItems;
    ghost var items := m.Items();
    assert items == ItemsOf(filled, entries, start) && items[..|items| - 1] == old(m.Items());
    label Filled:
    ghost var heads: seq<Head> := [];
    assert steps[0..] == steps;
    for i := 0 to |steps|
      invariant Built(m, start, heads) && Undisturbed@Filled(m, start)
      invariant AllAllowed(heads, steps[i..]) && AfterSteps(heads, steps[i..]) == AfterSteps([], steps)
      invariant m.dataOffset + Room(steps[i..]) == start + Room(steps)
    {
      assert steps[i..][0] == steps[i] && steps[i..][1..] == steps[i + 1..];
      PerformStep(m, steps[i], start, heads);
      heads := AfterStep(heads, steps[i]);
    }
    assert steps[|steps|..] == [];
    assert m.sendBuf[..][start..m.dataOffset] == m.sendBuf[start..m.dataOffset];
    assert m.sendBuf[..][..start] == m.sendBuf[..start] == filled[..start];
    NewestPayload(filled, entries, start, m.sendBuf[..], m.catalogItems, m.dataOffset, OfHeads(heads));
    assert m.Items() == ItemsOf(m.sendBuf[..], m.catalogItems, m.dataOffset);
  }

  /** A request on its own in a message, as the other side receives it: the bytes of its conditions. */
  method DeliverRequest(steps: seq<Step>, dataType: int32, flags: Flags, sideType: int) returns (data: seq<byte>)
    requires AllAllowed([], steps) && HEADER + Room(steps) + 4 + ENTRY <= INT_MAX
    ensures Countable(AfterSteps([], steps)) && data == OfHeads(AfterSteps([], steps))
  {
    hide Kept, Sided, Tidy, ItemsOf, Readable, Separate, Received, EntryAt, AfterSteps, AllAllowed, OfHeads;
    var m := new IpcMsg(sideType, HEADER + Room(steps) + 4 + ENTRY);
    BuildRequest(m, dataType, flags, steps);
    var len := m.SendIpcMsg();
    var rcvBuf := new byte[len](p requires 0 <= p < len && len <= m.sendBuf.Length reads m, m.sendBuf => m.sendBuf[p]);
    assert rcvBuf[..] == m.sendBuf[..len];
    var items := GetRxDataItemList(rcvBuf);
    data := items[0].payload;
  }

  /** From the asking side to the answering side. */
  method AskAndAnswer(steps: seq<Step>, dataType: int32, flags: Flags, sideType: int, maxIdx: int32, stale: nat -> int32)
    returns (recordCount: int32, runs: seq<Run>, ghost payload: seq<byte>)
    requires maxIdx < INT_MAX && AllAllowed([], steps) && HEADER + Room(steps) + 4 + ENTRY <= INT_MAX
    requires var groups := AllGroups(AfterSteps([], steps)); AllStorable(groups) && forall g | g in groups :: Indexed(g)
    ensures recordCount == Wrap(Total(runs))
    ensures var groups := AllGroups(AfterSteps([], steps));
            if groups == [] then runs == [Run(None, Numbers(0, maxIdx))]
            else |runs| == |groups| && RunsOf(payload, runs, groups, maxIdx, stale) && ExactIfGood(runs, groups, maxIdx, stale)
  {
    hide AfterSteps, AllAllowed, OfHeads, RunsOf, ExactIfGood, Numbers, Room, Wrap, Total, AllStorable, Indexed;
    var data := DeliverRequest(steps, dataType, flags, sideType);
    ghost var heads := AfterSteps([], steps);
    payload := data[..|data|];
    assert payload == data;
    recordCount, runs := QueryAndGiveDataByIdx(Some(data), |data|, maxIdx, stale, heads);
    if |data| == 0 {
      NoMoreHeads(heads);
    } else if AllGroups(heads) != [] {
      RunsAreExact(payload, runs, AllGroups(heads), maxIdx, stale);
      RunsCount(payload, runs, AllGroups(heads), maxIdx, stale);
    }
  }

  lemma RunsCount(data: seq<byte>, runs: seq<Run>, groups: seq<Group>, maxIdx: int32, stale: nat -> int32)
    requires (forall g | g in groups :: Indexed(g)) && RunsOf(data, runs, groups, maxIdx, stale)
    ensures |runs| == |groups|
  {
  }

  // Queries by index, asked in the plain way

  /** One first-level index condition. */
  datatype Query = Query(oper: byte, args: seq<int32>)

  /** A known operator with as many operands as it takes, none of them the end mark. */
  predicate Sensible(q: Query) {
    && q.oper <= OPER_IN && VA_ARG_END !in q.args
    && (if q.oper == OPER_IN then 1 <= |q.args| <= 255 else if q.oper == OPER_RANGE then |q.args| == 2 else |q.args| == 1)
  }

  /** A group for each query, with one condition added by the variable-argument form. */
  function QuerySteps(qs: seq<Query>): seq<Step> {
    if qs == [] then [] else [AddGroup, Addl(1, FIELD_IDX, qs[0].oper, qs[0].args + [VA_ARG_END])] + QuerySteps(qs[1..])
  }

  function QueryGroups(qs: seq<Query>): (h: Head)
    ensures |h| == |qs|
    ensures forall k | 0 <= k < |qs| :: h[k] == [Condition(0, FIELD_IDX, qs[k].oper, qs[k].args)]
  {
    if qs == [] then [] else [[Condition(0, FIELD_IDX, qs[0].oper, qs[0].args)]] + QueryGroups(qs[1..])
  }

  lemma TakesAll(q: Query)
    requires Sensible(q)
    ensures Supplied(q.oper, q.args + [VA_ARG_END]) && Taken(q.oper, q.args + [VA_ARG_END]) == q.args
  {
    var list := q.args + [VA_ARG_END];
    assert list[|q.args|] == VA_ARG_END && q.args <= list;
    EndIsThere(list, |q.args|);
    TakenAreThese(q.oper, list, q.args);
  }

  lemma {:induction false} EndIsThere(list: seq<int32>, n: nat)
    requires n < |list| && list[n] == VA_ARG_END
    ensures UpToEnd(list) < |list|
  {
    if list[0] != VA_ARG_END {
      EndIsThere(list[1..], n - 1);
    }
  }

  lemma {:induction false} AfterQueries(h: Head, qs: seq<Query>)
    requires forall q | q in qs :: Sensible(q)
    ensures AllAllowed([h], QuerySteps(qs)) && AfterSteps([h], QuerySteps(qs)) == [h + QueryGroups(qs)]
    decreases |qs|
  {
    if qs == [] {
      assert h + [] == h;
    } else {
      var q, steps := qs[0], QuerySteps(qs);
      var c := Condition(0, FIELD_IDX, q.oper, q.args);
      TakesAll(q);
      hide Taken, Supplied;
      assert steps[0] == AddGroup && steps[1..][0] == Addl(1, FIELD_IDX, q.oper, q.args + [VA_ARG_END]);
      assert steps[1..][1..] == QuerySteps(qs[1..]);
      OneQuery(h, q);
      AfterQueries(h + [[c]], qs[1..]);
      assert h + [[c]] + QueryGroups(qs[1..]) == h + QueryGroups(qs);
      hide AfterStep, Allowed;
      assert AllAllowed([h + [[]]], steps[1..]);
    }
  }

  lemma OneQuery(h: Head, q: Query)
    requires Sensible(q)
    ensures var add := Addl(1, FIELD_IDX, q.oper, q.args + [VA_ARG_END]);
            && Allowed([h], AddGroup) && AfterStep([h], AddGroup) == [h + [[]]]
            && Allowed([h + [[]]], add)
            && AfterStep([h + [[]]], add) == [h + [[Condition(0, FIELD_IDX, q.oper, q.args)]]]
  {
    TakesAll(q);
    hide Taken, Supplied;
    var c := Condition(0, FIELD_IDX, q.oper, q.args);
    var add := Addl(1, FIELD_IDX, q.oper, q.args + [VA_ARG_END]);
    var more := h + [[]];
    assert Added(add) == [c];
    GroupAdded(h);
    AfterAddl([more], more, h, [], add);
    assert [] + [c] == [c];
  }

  lemma GroupAdded(h: Head)
    ensures AfterStep([h], AddGroup) == [h + [[]]]
  {
    assert [h][..0] == [];
  }

  lemma AfterAddl(heads: seq<Head>, h: Head, gs: Head, g: Group, add: Step)
    requires heads == [h] && h == gs + [g] && add.Addl? && Supplied(add.oper, add.list)
    ensures Allowed(heads, add) && AfterStep(heads, add) == [gs + [g + Added(add)]]
  {
    hide Supplied, Added;
    assert heads[..0] == [] && h[..|h| - 1] == gs && h[|h| - 1] == g;
  }

  lemma AsksInGroups(qs: seq<Query>)
    requires forall q | q in qs :: Sensible(q)
    ensures var steps := [Init] + QuerySteps(qs);
            && AllAllowed([], steps) && AfterSteps([], steps) == [QueryGroups(qs)]
            && AllGroups(AfterSteps([], steps)) == QueryGroups(qs)
  {
    var steps := [Init] + QuerySteps(qs);
    assert steps[1..] == QuerySteps(qs) && [] + QueryGroups(qs) == QueryGroups(qs);
    assert AfterStep([], Init) == [[]];
    AfterQueries([], qs);
    var heads := [QueryGroups(qs)];
    assert heads[1..] == [] && QueryGroups(qs) + [] == QueryGroups(qs);
  }

  lemma GroupOfQuery(q: Query)
    requires Sensible(q)
    ensures var g := [Condition(0, FIELD_IDX, q.oper, q.args)];
            && Storable(g) && Indexed(g) && LastFor(g, 0, FIELD_IDX) == Some(g[0])
  {
  }

  lemma GroupsOfQueries(qs: seq<Query>)
    requires forall q | q in qs :: Sensible(q)
    ensures AllStorable(QueryGroups(qs)) && forall g | g in QueryGroups(qs) :: Indexed(g)
  {
    forall g | g in QueryGroups(qs)
      ensures Storable(g) && Indexed(g)
    {
      var k :| 0 <= k < |qs| && QueryGroups(qs)[k] == g;
      assert qs[k] in qs;
      GroupOfQuery(qs[k]);
    }
  }

  predicate AllUpTo(args: seq<int32>, maxIdx: int32) {
    forall x | x in args :: 0 <= x <= maxIdx
  }

  lemma AnswerIs(q: Query, run: Run, maxIdx: int32, stale: int32)
    requires Sensible(q) && Indexed([Condition(0, FIELD_IDX, q.oper, q.args)])
    requires var g := [Condition(0, FIELD_IDX, q.oper, q.args)]; IsExact(run, g, maxIdx) <==> HasGoodOperands(g, maxIdx, stale)
    ensures Enough(q.oper, q.args)
    ensures run.visited == Matching(q.oper, q.args, maxIdx) <==> GoodOperands(q.oper, q.args, maxIdx, 0)
    ensures q.oper == OPER_IN && AllUpTo(q.args, maxIdx) ==> run.visited == q.args
  {
    GroupOfQuery(q);
    if q.oper == OPER_IN && AllUpTo(q.args, maxIdx) {
      assert forall i | 0 <= i < |q.args| :: q.args[i] in q.args;
      NonNegativeIsGood(q.oper, q.args, maxIdx, stale);
      FilterAll(q.args, x => 0 <= x <= maxIdx);
    }
  }

  lemma {:induction false} FilterAll(s: seq<int>, p: int -> bool)
    requires forall i | 0 <= i < |s| :: p(s[i])
    ensures Filter(s, p) == s
    decreases |s|
  {
    if s != [] {
      var n := |s| - 1;
      assert p(s[n]);
      FilterAll(s[..n], p);
      assert Filter(s, p) == Filter(s[..n], p) + [s[n]];
      assert s == s[..n] + [s[n]];
    }
  }

  lemma AnswersAre(qs: seq<Query>, runs: seq<Run>, maxIdx: int32, stale: nat -> int32)
    requires |runs| == |qs| && (forall q | q in qs :: Sensible(q)) && forall g | g in QueryGroups(qs) :: Indexed(g)
    requires ExactIfGood(runs, QueryGroups(qs), maxIdx, stale)
    ensures forall k | 0 <= k < |qs| :: Enough(qs[k].oper, qs[k].args)
    ensures forall k | 0 <= k < |qs| ::
              runs[k].visited == Matching(qs[k].oper, qs[k].args, maxIdx) <==> GoodOperands(qs[k].oper, qs[k].args, maxIdx, 0)
    ensures forall k | 0 <= k < |qs| && qs[k].oper == OPER_IN && AllUpTo(qs[k].args, maxIdx) :: runs[k].visited == qs[k].args
  {
    hide Indexed, Sensible, IsExact, HasGoodOperands, Enough, Matching, GoodOperands, AllUpTo;
    forall k | 0 <= k < |qs|
      ensures Enough(qs[k].oper, qs[k].args)
      ensures runs[k].visited == Matching(qs[k].oper, qs[k].args, maxIdx) <==> GoodOperands(qs[k].oper, qs[k].args, maxIdx, 0)
      ensures qs[k].oper == OPER_IN && AllUpTo(qs[k].args, maxIdx) ==> runs[k].visited == qs[k].args
    {
      assert qs[k] in qs && QueryGroups(qs)[k] in QueryGroups(qs);
      AnswerIs(qs[k], runs[k], maxIdx, stale(k));
    }
  }

  /** Plain queries, from one end to the other: each is answered with exactly the indices from 0 to maxIdx that its
      operator accepts, ascending, or those of its list in the order of the list, if and only if its operands are
      good; without queries everything is visited. */
  method AskQueries(qs: seq<Query>, dataType: int32, flags: Flags, sideType: int, maxIdx: int32, stale: nat -> int32)
    returns (recordCount: int32, answers: seq<seq<int>>)
    requires maxIdx < INT_MAX && forall q | q in qs :: Sensible(q)
    requires HEADER + Room([Init] + QuerySteps(qs)) + 4 + ENTRY <= INT_MAX
    ensures |answers| == if qs == [] then 1 else |qs|
    ensures qs == [] ==> answers[0] == Numbers(0, maxIdx)
    ensures forall k | 0 <= k < |qs| :: Enough(qs[k].oper, qs[k].args)
    ensures forall k | 0 <= k < |qs| ::
              answers[k] == Matching(qs[k].oper, qs[k].args, maxIdx) <==> GoodOperands(qs[k].oper, qs[k].args, maxIdx, 0)
    ensures forall k | 0 <= k < |qs| && qs[k].oper == OPER_IN && AllUpTo(qs[k].args, maxIdx) :: answers[k] == qs[k].args
  {
    AsksInGroups(qs);
    GroupsOfQueries(qs);
    hide *;
    var count, runs, _ := AskAndAnswer([Init] + QuerySteps(qs), dataType, flags, sideType, maxIdx, stale);
    recordCount := count;
    answers := seq(|runs|, k requires 0 <= k < |runs| => runs[k].visited);
    if qs != [] {
      AnswersAre(qs, runs, maxIdx, stale);
    }
  }
}
