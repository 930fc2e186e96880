/** query_and_give_data: the groups are handed over one by one, in slots that are cleared once. */
module QueryStream {
  import opened Bytes
  import opened QueryCondition
  import opened QueryParser
  import opened Wrappers

  /** Call i is given everything the groups up to and including i leave in the slots. */
  predicate Handed(data: seq<byte>, calls: seq<Option<Levels>>, groups: seq<Group>) {
    |calls| == |groups|
    && forall i | 0 <= i < |calls| :: calls[i].Some? && LevelsAre(data, calls[i].value, Flat(groups[..i + 1]))
  }

  lemma HandedMore(data: seq<byte>, calls: seq<Option<Levels>>, groups: seq<Group>, levels: Levels, g: Group)
    requires Handed(data, calls, groups) && LevelsAre(data, levels, Flat(groups) + g)
    ensures Handed(data, calls + [Some(levels)], groups + [g]) && Flat(groups + [g]) == Flat(groups) + g
  {
    hide LevelsAre;
    var more := groups + [g];
    assert more[..|groups|] == groups && more[..|more|] == more;
    var longer := calls + [Some(levels)];
    forall i | 0 <= i < |longer|
      ensures longer[i].Some? && LevelsAre(data, longer[i].value, Flat(more[..i + 1]))
    {
      if i < |groups| {
        assert more[..i + 1] == groups[..i + 1];
      }
    }
  }

  /** The groups of one head; answer is what each call of the callback returns. */
  method GiveGroups(bytes: seq<byte>, at: nat, qty: int, levels: Levels, answer: nat -> int, before: seq<Option<Levels>>, result0: int,
                    ghost groups: seq<Group>, ghost h: Head, ghost rest: seq<byte>)
    returns (calls: seq<Option<Levels>>, levels': Levels, result: int, offset: nat)
    requires at <= |bytes| && qty == |h| && Small(h) && AllStorable(h) && bytes[at..] == OfGroups(h) + rest
    requires LevelsAre(bytes, levels, Flat(groups)) && Handed(bytes, before, groups)
    requires result0 == if before == [] then 0 else answer(|before| - 1)
    ensures LevelsAre(bytes, levels', Flat(groups + h)) && Handed(bytes, calls, groups + h)
    ensures result == if calls == [] then 0 else answer(|calls| - 1)
    ensures offset <= |bytes| && bytes[offset..] == rest
  {
    hide OfGroups, LevelsAre, Storable, Small, Handed, Flat, ReadInt, OfConditions;
    calls, levels', result, offset := before, levels, result0, at;
    assert h[0..] == h && groups + h[..0] == groups;
    for i := 0 to qty
      invariant offset <= |bytes| && Small(h[i..]) && bytes[offset..] == OfGroups(h[i..]) + rest
      invariant LevelsAre(bytes, levels', Flat(groups + h[..i])) && Handed(bytes, calls, groups + h[..i])
      invariant result == if calls == [] then 0 else answer(|calls| - 1)
    {
      ghost var done := groups + h[..i];
      assert h[i..][1..] == h[i + 1..] && done + [h[i]] == groups + h[..i + 1];
      NextGroup(bytes, offset, h[i..], rest);
      var condQty := ReadInt(bytes, offset);
      levels', offset := ParseConditions(bytes, offset + 4, condQty, levels', Flat(done), h[i], OfGroups(h[i + 1..]) + rest);
      HandedMore(bytes, calls, done, levels', h[i]);
      result := answer(|calls|);
      calls := calls + [Some(levels')];
    }
    assert h[qty..] == [] && h[..qty] == h;
    NoneLeft(rest);
  }

  lemma NothingHanded(data: seq<byte>)
    ensures Handed(data, [], []) && LevelsAre(data, [CLEAR, CLEAR], Flat([]))
  {
    ClearIs(data);
  }

  /** query_and_give_data: a call per group, and one more without conditions if the last head has no group. */
  method QueryAndGiveData(data: Option<seq<byte>>, dataLen: int, answer: nat -> int, ghost heads: seq<Head>)
    returns (calls: seq<Option<Levels>>, result: int)
    requires data.Some? && dataLen > 0 ==> dataLen <= |data.value| && Countable(heads) && data.value[..dataLen] == OfHeads(heads)
    requires AllStorable(AllGroups(heads))
    ensures calls != [] && result == answer(|calls| - 1)
    ensures if data.None? || dataLen <= 0 then calls == [None]
            else
              && heads != [] && var n := |AllGroups(heads)|;
              && n <= |calls|
              && (forall g | 0 <= g < n ::
                    calls[g].Some? && LevelsAre(data.value[..dataLen], calls[g].value, Flat(AllGroups(heads)[..g + 1])))
              && calls[n..] == if heads[|heads| - 1] == [] then [None] else []
  {
    hide OfHeads, OfGroups, ReadInt, EncodeInt, LevelsAre, Handed, Flat, Storable, Small, Countable;
    if data.None? || dataLen <= 0 {
      return [None], answer(0);
    }
    var bytes := data.value[..dataLen];
    var levels: Levels := [CLEAR, CLEAR];
    var offset, condGpQty := 0, 0;
    calls, result := [], 0;
    ghost var todo, done: seq<Group> := heads, [];
    NothingHanded(bytes);
    while offset < dataLen
      invariant 0 <= offset <= |bytes| && Countable(todo) && bytes[offset..] == OfHeads(todo)
      invariant |todo| <= |heads| && todo == heads[|heads| - |todo|..]
      invariant offset > 0 ==> |todo| < |heads| && condGpQty == |heads[|heads| - |todo| - 1]|
      invariant done + AllGroups(todo) == AllGroups(heads)
      invariant LevelsAre(bytes, levels, Flat(done)) && Handed(bytes, calls, done)
      invariant result == if calls == [] then 0 else answer(|calls| - 1)
      invariant offset > 0 && condGpQty > 0 ==> calls != []
      decreases |todo|
    {
      MoreHeads(bytes, offset, todo);
      condGpQty := ReadInt(bytes, offset);
      assert forall g | g in todo[0] :: g in AllGroups(heads);
      calls, levels, result, offset :=
        GiveGroups(bytes, offset + 4, condGpQty, levels, answer, calls, result, done, todo[0], OfHeads(todo[1..]));
      assert |calls| == |done + todo[0]| by {
        HandedLength(bytes, calls, done + todo[0]);
      }
      Associates(done, todo[0], AllGroups(todo[1..]));
      done, todo := done + todo[0], todo[1..];
    }
    NoMoreHeads(todo);
    HandedLength(bytes, calls, done);
    HandedMeans(bytes, calls, done);
    assert done + [] == done && calls[..|calls|] == calls;
    if condGpQty <= 0 {
      result := answer(|calls|);
      calls := calls + [None];
    }
  }

  lemma HandedMeans(data: seq<byte>, calls: seq<Option<Levels>>, groups: seq<Group>)
    requires Handed(data, calls, groups)
    ensures |calls| == |groups| && forall g | 0 <= g < |groups| ::
              calls[g].Some? && LevelsAre(data, calls[g].value, Flat(groups[..g + 1]))
  {
  }

  lemma HandedLength(data: seq<byte>, calls: seq<Option<Levels>>, groups: seq<Group>)
    requires Handed(data, calls, groups)
    ensures |calls| == |groups|
  {
  }

  // Streaming and parsing compared

  predicate Sets(g: Group, level: nat, field: nat) {
    exists c :: c in g && c.level == level && c.field == field
  }

  /** Two slots a handler cannot tell apart. */
  predicate SameSlot(data: seq<byte>, a: Slot, b: Slot) {
    && a.oper == b.oper && a.argc == b.argc && (a.pv.Some? <==> b.pv.Some?)
    && (a.pv.Some? ==>
          && a.pv.value + 4 * a.argc <= |data| && b.pv.value + 4 * b.argc <= |data|
          && Operands(data, a.pv.value, a.argc) == Operands(data, b.pv.value, b.argc))
  }

  predicate SameLevels(data: seq<byte>, a: Levels, b: Levels) {
    forall l | 0 <= l < LEVELS :: SameSlot(data, a[l].idx, b[l].idx) && SameSlot(data, a[l].typ, b[l].typ)
  }

  lemma {:induction false} LastForSets(g: Group, level: nat, field: nat)
    ensures LastFor(g, level, field).Some? <==> Sets(g, level, field)
    ensures var c := LastFor(g, level, field); c.Some? ==> c.value in g && c.value.level == level && c.value.field == field
    decreases |g|
  {
    if g != [] {
      var n := |g| - 1;
      assert g[n] in g;
      LastForSets(g[..n], level, field);
      assert forall c | c in g :: c in g[..n] || c == g[n];
    }
  }

  lemma {:induction false} FlatSets(groups: seq<Group>, level: nat, field: nat)
    ensures Sets(Flat(groups), level, field) <==> exists j | 0 <= j < |groups| :: Sets(groups[j], level, field)
    decreases |groups|
  {
    if groups != [] {
      var n := |groups| - 1;
      FlatSets(groups[..n], level, field);
      var f, g := Flat(groups[..n]), groups[n];
      assert forall c :: c in f + g <==> c in f || c in g;
      assert Sets(f + g, level, field) <==> Sets(f, level, field) || Sets(g, level, field);
    }
  }

  lemma SameSlots(data: seq<byte>, a: Slot, b: Slot, c: Option<Condition>, d: Option<Condition>)
    requires SlotIs(data, a, c) && SlotIs(data, b, d)
    requires c.Some? && d.Some? ==> c.value.level == d.value.level && c.value.field == d.value.field
    ensures SameSlot(data, a, b) <==> c == d
  {
    hide Operands;
  }

  /** What the callback is given for group i can be told from node i of the parsed list unless group i sets
      every slot that a group before it set: then, and only then, they are the same. */
  lemma StreamingMatchesParsing(data: seq<byte>, groups: seq<Group>, i: nat, given: Levels, node: Levels)
    requires i < |groups| && LevelsAre(data, given, Flat(groups[..i + 1])) && LevelsAre(data, node, groups[i])
    ensures SameLevels(data, given, node) <==>
            forall j, l, f | 0 <= j < i && 0 <= l < LEVELS && (f == FIELD_IDX || f == FIELD_TYPE) ::
              Sets(groups[j], l, f) ==> Sets(groups[i], l, f)
  {
    forall l | 0 <= l < LEVELS
      ensures SameSlot(data, given[l].idx, node[l].idx) <==>
              forall j | 0 <= j < i :: Sets(groups[j], l, FIELD_IDX) ==> Sets(groups[i], l, FIELD_IDX)
      ensures SameSlot(data, given[l].typ, node[l].typ) <==>
              forall j | 0 <= j < i :: Sets(groups[j], l, FIELD_TYPE) ==> Sets(groups[i], l, FIELD_TYPE)
    {
      SlotMatches(data, groups, i, l, FIELD_IDX, given[l].idx, node[l].idx);
      SlotMatches(data, groups, i, l, FIELD_TYPE, given[l].typ, node[l].typ);
    }
    hide SameSlot, Sets, LevelsAre;
  }

  lemma SlotMatches(data: seq<byte>, groups: seq<Group>, i: nat, l: nat, f: nat, given: Slot, node: Slot)
    requires i < |groups|
    requires SlotIs(data, given, LastFor(Flat(groups[..i + 1]), l, f)) && SlotIs(data, node, LastFor(groups[i], l, f))
    ensures SameSlot(data, given, node) <==> forall j | 0 <= j < i :: Sets(groups[j], l, f) ==> Sets(groups[i], l, f)
  {
    hide Sets, SameSlot, SlotIs;
    var earlier := groups[..i];
    assert groups[..i + 1][..i] == earlier;
    LastForAppend(Flat(earlier), groups[i], l, f);
    LastForSets(groups[i], l, f);
    LastForSets(Flat(earlier), l, f);
    LastForSets(Flat(groups[..i + 1]), l, f);
    FlatSets(earlier, l, f);
    SameSlots(data, given, node, LastFor(Flat(groups[..i + 1]), l, f), LastFor(groups[i], l, f));
  }
}
