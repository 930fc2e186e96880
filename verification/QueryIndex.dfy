/** Which indices a query visits: get_idx_query_arg, check_match_the_type and query_level_1_idx. */
module QueryIndex {
  import opened Bytes
  import opened QueryCondition
  import opened QueryParser
  import opened Wrappers

  // What a condition means

  /** The operands an operator reads are there. */
  predicate Enough(oper: byte, args: seq<int32>) {
    && (oper <= OPER_IN ==> |args| >= 1)
    && (oper == OPER_RANGE ==> |args| >= 2)
  }

  /** The meaning of an operator. */
  predicate Accepts(oper: byte, args: seq<int32>, x: int)
    requires Enough(oper, args)
  {
    if oper == OPER_EQ then x == args[0]
    else if oper == OPER_GT then x > args[0]
    else if oper == OPER_GE then x >= args[0]
    else if oper == OPER_LT then x < args[0]
    else if oper == OPER_LE then x <= args[0]
    else if oper == OPER_RANGE then args[0] <= x <= args[1]
    else if oper == OPER_IN then x in args
    else false
  }

  /** How the operators hang together. */
  lemma OperatorLaws(a: int32, b: int32, args: seq<int32>, x: int)
    requires args != []
    ensures Accepts(OPER_EQ, [a], x) <==> x == a
    ensures Accepts(OPER_GE, [a], x) <==> Accepts(OPER_GT, [a], x) || Accepts(OPER_EQ, [a], x)
    ensures Accepts(OPER_LE, [a], x) <==> Accepts(OPER_LT, [a], x) || Accepts(OPER_EQ, [a], x)
    ensures Accepts(OPER_LT, [a], x) <==> !Accepts(OPER_GE, [a], x)
    ensures x > 0 ==> Accepts(OPER_GT, [0], x)
    ensures !Accepts(OPER_GT, [a], a) && !Accepts(OPER_LT, [a], a)
    ensures Accepts(OPER_GT, [a], x) && b < a ==> Accepts(OPER_GT, [b], x)
    ensures Accepts(OPER_RANGE, [a, b], x) <==> Accepts(OPER_GE, [a], x) && Accepts(OPER_LE, [b], x)
    ensures Accepts(OPER_IN, args, x) <==> exists i | 0 <= i < |args| :: Accepts(OPER_EQ, [args[i]], x)
  {
    if Accepts(OPER_IN, args, x) {
      var i :| 0 <= i < |args| && args[i] == x;
      assert Accepts(OPER_EQ, [args[i]], x);
    }
  }

  /** The numbers from a to b. */
  function Numbers(a: int, b: int): (s: seq<int>)
    ensures |s| == if a <= b then b - a + 1 else 0
    ensures forall i | 0 <= i < |s| :: s[i] == a + i
    decreases b - a
  {
    if a > b then [] else Numbers(a, b - 1) + [b]
  }

  function Filter(s: seq<int>, p: int -> bool): seq<int> {
    if s == [] then [] else Filter(s[..|s| - 1], p) + if p(s[|s| - 1]) then [s[|s| - 1]] else []
  }

  /** The indices a query asks for: those of a list in the order of the list, otherwise those that the
      operator accepts, in ascending order. */
  function Matching(oper: byte, args: seq<int32>, maxIdx: int32): seq<int>
    requires Enough(oper, args)
  {
    if oper == OPER_IN then Filter(args, x => 0 <= x <= maxIdx)
    else Filter(Numbers(0, maxIdx), x => Accepts(oper, args, x))
  }

  // What get_idx_query_arg computes

  /** The range of a round. For an unknown operator the start stays what it was. */
  function Range(oper: byte, args: seq<int32>, round: nat, minIdx: int32, maxIdx: int32, stale: int32): (r: (int32, int32))
    requires Enough(oper, args) && (oper == OPER_IN ==> round < |args|)
  {
    var r: (int32, int32) :=
      if oper == OPER_EQ then (args[0], args[0])
      else if oper == OPER_GT then (Wrap(args[0] as int + 1), maxIdx)
      else if oper == OPER_GE then (args[0], maxIdx)
      else if oper == OPER_LT then (minIdx, Wrap(args[0] as int - 1))
      else if oper == OPER_LE then (minIdx, args[0])
      else if oper == OPER_RANGE then (args[0], args[1])
      else if oper == OPER_IN then (args[round], args[round])
      else (stale, -1);
    (r.0, if r.1 > maxIdx then maxIdx else r.1)
  }

  function VisitedIn(oper: byte, args: seq<int32>, round: nat, maxIdx: int32, stale: int32): seq<int>
    requires Enough(oper, args) && (oper == OPER_IN ==> round < |args|)
  {
    var r := Range(oper, args, round, 0, maxIdx, stale);
    Numbers(r.0, r.1)
  }

  function Rounds(oper: byte, args: seq<int32>): nat {
    if oper == OPER_IN then |args| else 1
  }

  /** What the first rounds visit. */
  function Visited(oper: byte, args: seq<int32>, rounds: nat, maxIdx: int32, stale: int32): seq<int>
    requires Enough(oper, args) && rounds <= Rounds(oper, args)
  {
    if rounds == 0 then [] else Visited(oper, args, rounds - 1, maxIdx, stale) + VisitedIn(oper, args, rounds - 1, maxIdx, stale)
  }

  // Exactness

  /** The operands for which the ranges are right: none starts below 0 and reaches up to there, and neither end
      wraps around. */
  predicate GoodOperands(oper: byte, args: seq<int32>, maxIdx: int32, stale: int32)
    requires Enough(oper, args)
  {
    if oper == OPER_EQ || oper == OPER_GE then args[0] >= 0 || args[0] > maxIdx
    else if oper == OPER_GT then args[0] < INT_MAX && (args[0] >= -1 || args[0] + 1 > maxIdx)
    else if oper == OPER_LT then args[0] != INT_MIN || maxIdx < 0
    else if oper == OPER_LE then true
    else if oper == OPER_RANGE then args[0] >= 0 || args[0] > args[1] || args[0] > maxIdx
    else if oper == OPER_IN then forall i | 0 <= i < |args| :: args[i] >= 0 || args[i] > maxIdx
    else stale >= 0 || stale > maxIdx
  }

  lemma {:induction false} FilterNumbers(a: int, b: int, lo: int, hi: int, p: int -> bool)
    requires a <= lo && forall x | a <= x <= b :: p(x) <==> lo <= x <= hi
    ensures Filter(Numbers(a, b), p) == Numbers(lo, if hi < b then hi else b)
    decreases b - a
  {
    if a <= b {
      var s := Numbers(a, b);
      assert s[..|s| - 1] == Numbers(a, b - 1);
      FilterNumbers(a, b - 1, lo, hi, p);
    }
  }

  lemma {:induction false} FilterSubset(s: seq<int>, p: int -> bool)
    ensures forall x :: x in Filter(s, p) <==> x in s && p(x)
    decreases |s|
  {
    if s != [] {
      FilterSubset(s[..|s| - 1], p);
      assert s == s[..|s| - 1] + [s[|s| - 1]];
    }
  }

  /** The numbers from 0 on that an operator accepts are those from Low to High. */
  function Low(oper: byte, args: seq<int32>): int
    requires Enough(oper, args)
  {
    if oper == OPER_LT || oper == OPER_LE || oper > OPER_IN then 0
    else if oper == OPER_GT then args[0] as int + 1
    else args[0]
  }

  function High(oper: byte, args: seq<int32>, maxIdx: int32): int
    requires Enough(oper, args)
  {
    if oper == OPER_EQ || oper == OPER_LE then args[0]
    else if oper == OPER_LT then args[0] as int - 1
    else if oper == OPER_RANGE then args[1]
    else if oper > OPER_IN then -1
    else maxIdx
  }

  lemma GoodRound(oper: byte, args: seq<int32>, maxIdx: int32, stale: int32)
    requires Enough(oper, args) && oper != OPER_IN && GoodOperands(oper, args, maxIdx, stale)
    ensures VisitedIn(oper, args, 0, maxIdx, stale) == Matching(oper, args, maxIdx)
  {
    var accept := x => Accepts(oper, args, x);
    var lo, hi := Low(oper, args), High(oper, args, maxIdx);
    assert forall x | 0 <= x <= maxIdx :: accept(x) <==> lo <= x <= hi;
    SameNumbers(oper, args, maxIdx, stale);
    hide Accepts, GoodOperands, Range, VisitedIn, Low, High;
    FilterNumbers(0, maxIdx, if lo < 0 then 0 else lo, hi, accept);
  }

  lemma SameNumbers(oper: byte, args: seq<int32>, maxIdx: int32, stale: int32)
    requires Enough(oper, args) && oper != OPER_IN && GoodOperands(oper, args, maxIdx, stale)
    ensures var lo, hi := Low(oper, args), High(oper, args, maxIdx);
            VisitedIn(oper, args, 0, maxIdx, stale) == Numbers(if lo < 0 then 0 else lo, if hi < maxIdx then hi else maxIdx)
  {
    hide Numbers;
    var r := Range(oper, args, 0, 0, maxIdx, stale);
    var lo, hi := Low(oper, args), High(oper, args, maxIdx);
    assert Numbers(r.0, r.1) == Numbers(if lo < 0 then 0 else lo, if hi < maxIdx then hi else maxIdx);
  }

  lemma BadRound(oper: byte, args: seq<int32>, maxIdx: int32, stale: int32)
    requires Enough(oper, args) && oper != OPER_IN && !GoodOperands(oper, args, maxIdx, stale)
    ensures VisitedIn(oper, args, 0, maxIdx, stale) != Matching(oper, args, maxIdx)
  {
    hide Numbers, Filter;
    var accept := x => Accepts(oper, args, x);
    var visited := VisitedIn(oper, args, 0, maxIdx, stale);
    FilterSubset(Numbers(0, maxIdx), accept);
    assert visited[0] in visited;
    assert visited[0] < 0 || !Accepts(oper, args, visited[0]);
  }

  /** In one round, an operator other than the list operator. */
  lemma OneRoundExact(oper: byte, args: seq<int32>, maxIdx: int32, stale: int32)
    requires Enough(oper, args) && oper != OPER_IN
    ensures VisitedIn(oper, args, 0, maxIdx, stale) == Matching(oper, args, maxIdx) <==> GoodOperands(oper, args, maxIdx, stale)
  {
    hide *;
    if GoodOperands(oper, args, maxIdx, stale) {
      GoodRound(oper, args, maxIdx, stale);
    } else {
      BadRound(oper, args, maxIdx, stale);
    }
  }

  lemma {:induction false} ListExact(args: seq<int32>, rounds: nat, maxIdx: int32, stale: int32)
    requires |args| >= 1 && rounds <= |args|
    requires forall i | 0 <= i < rounds :: args[i] >= 0 || args[i] > maxIdx
    ensures Visited(OPER_IN, args, rounds, maxIdx, stale) == Filter(args[..rounds], x => 0 <= x <= maxIdx)
  {
    if rounds > 0 {
      ListExact(args, rounds - 1, maxIdx, stale);
      assert args[..rounds][..rounds - 1] == args[..rounds - 1];
    }
  }

  lemma {:induction false} VisitedContains(args: seq<int32>, rounds: nat, i: nat, maxIdx: int32, stale: int32)
    requires i < rounds <= |args| && args[i] <= maxIdx
    ensures args[i] in Visited(OPER_IN, args, rounds, maxIdx, stale)
  {
    if i < rounds - 1 {
      VisitedContains(args, rounds - 1, i, maxIdx, stale);
    } else {
      assert VisitedIn(OPER_IN, args, i, maxIdx, stale) == [args[i]];
    }
  }

  /** All rounds together visit exactly the indices asked for, in order, if and only if the operands are good. */
  lemma Exact(oper: byte, args: seq<int32>, maxIdx: int32, stale: int32)
    requires Enough(oper, args)
    ensures Visited(oper, args, Rounds(oper, args), maxIdx, stale) == Matching(oper, args, maxIdx)
       <==> GoodOperands(oper, args, maxIdx, stale)
  {
    if oper != OPER_IN {
      OneRoundExact(oper, args, maxIdx, stale);
      assert Visited(oper, args, 1, maxIdx, stale) == VisitedIn(oper, args, 0, maxIdx, stale);
    } else if GoodOperands(oper, args, maxIdx, stale) {
      ListExact(args, |args|, maxIdx, stale);
      assert args[..|args|] == args;
    } else {
      var i :| 0 <= i < |args| && args[i] < 0 && args[i] <= maxIdx;
      VisitedContains(args, |args|, i, maxIdx, stale);
      FilterSubset(args, x => 0 <= x <= maxIdx);
    }
  }

  /** For every content of the variable that holds the range: the operator must be a known one. */
  lemma ExactForAnyStart(oper: byte, args: seq<int32>, maxIdx: int32)
    requires Enough(oper, args)
    ensures (forall stale: int32 :: Visited(oper, args, Rounds(oper, args), maxIdx, stale) == Matching(oper, args, maxIdx))
       <==> oper <= OPER_IN && GoodOperands(oper, args, maxIdx, 0)
  {
    hide Visited, Matching;
    forall stale: int32
      ensures Visited(oper, args, Rounds(oper, args), maxIdx, stale) == Matching(oper, args, maxIdx)
         <==> GoodOperands(oper, args, maxIdx, stale)
    {
      Exact(oper, args, maxIdx, stale);
    }
    assert Visited(oper, args, Rounds(oper, args), maxIdx, INT_MIN) == Matching(oper, args, maxIdx)
      <==> GoodOperands(oper, args, maxIdx, INT_MIN);
    assert Visited(oper, args, Rounds(oper, args), maxIdx, 0) == Matching(oper, args, maxIdx)
      <==> GoodOperands(oper, args, maxIdx, 0);
  }

  /** Operands that are not negative are good for every known operator, except the largest int for GT. */
  lemma NonNegativeIsGood(oper: byte, args: seq<int32>, maxIdx: int32, stale: int32)
    requires Enough(oper, args) && oper <= OPER_IN && forall i | 0 <= i < |args| :: args[i] >= 0
    requires oper == OPER_GT ==> args[0] != INT_MAX
    ensures GoodOperands(oper, args, maxIdx, stale)
    ensures Visited(oper, args, Rounds(oper, args), maxIdx, stale) == Matching(oper, args, maxIdx)
  {
    hide Visited, Matching;
    Exact(oper, args, maxIdx, stale);
  }

  lemma InNumbers(a: int, b: int, i: int)
    ensures i in Numbers(a, b) <==> a <= i <= b
  {
    if a <= i <= b {
      assert Numbers(a, b)[i - a] == i;
    }
  }

  /** The indices asked for are those from 0 to the highest one that the operator accepts. */
  lemma MatchingMeans(oper: byte, args: seq<int32>, maxIdx: int32, i: int)
    requires Enough(oper, args)
    ensures i in Matching(oper, args, maxIdx) <==> 0 <= i <= maxIdx && Accepts(oper, args, i)
  {
    if oper == OPER_IN {
      FilterSubset(args, x => 0 <= x <= maxIdx);
    } else {
      hide Accepts;
      FilterSubset(Numbers(0, maxIdx), x => Accepts(oper, args, x));
      InNumbers(0, maxIdx, i);
    }
  }

  /** With good operands an index is visited exactly when check_match_the_type would accept it. */
  lemma VisitedIffAccepted(oper: byte, args: seq<int32>, maxIdx: int32, stale: int32, i: int)
    requires Enough(oper, args) && GoodOperands(oper, args, maxIdx, stale)
    ensures i in Visited(oper, args, Rounds(oper, args), maxIdx, stale) <==> 0 <= i <= maxIdx && Accepts(oper, args, i)
  {
    hide Visited, Matching, Accepts, GoodOperands;
    Exact(oper, args, maxIdx, stale);
    MatchingMeans(oper, args, maxIdx, i);
  }

  // The code

  lemma {:induction false} OperandAt(data: seq<byte>, at: nat, argc: nat, k: nat)
    requires at + 4 * argc <= |data| && k < argc
    ensures ReadInt(data, at + 4 * k) == Operands(data, at, argc)[k]
    decreases argc
  {
    hide ReadInt;
    if k > 0 {
      OperandAt(data, at + 4, argc - 1, k - 1);
    }
  }

  /** A slot that holds a condition with the operands its operator reads. */
  predicate Fed(data: seq<byte>, slot: Slot, oper: byte, args: seq<int32>) {
    && slot.oper == oper && slot.argc == |args| && slot.pv.Some?
    && slot.pv.value + 4 * slot.argc <= |data| && Operands(data, slot.pv.value, slot.argc) == args
    && Enough(oper, args)
  }

  /** p[k] of a slot. */
  method Operand(data: seq<byte>, slot: Slot, k: nat, ghost args: seq<int32>) returns (v: int32)
    requires Fed(data, slot, slot.oper, args) && k < |args|
    ensures v == args[k]
  {
    OperandAt(data, slot.pv.value, slot.argc, k);
    v := ReadInt(data, slot.pv.value + 4 * k);
  }

  class IdxQueryArg {
    var startIdx: int32
    var endIdx: int32
    var queryTimes: int

    /** A variable that nothing has set yet. */
    constructor (stale: int32)
      ensures startIdx == stale
    {
      startIdx, endIdx, queryTimes := stale, 0, 0;
    }
  }

  /** get_idx_query_arg: the range of the next round and how many rounds follow it. The list operator without a
      place in the list leaves the range as it was. */
  method GetIdxQueryArg(p: IdxQueryArg?, data: seq<byte>, queryCond: Option<Levels>, idxTh: Option<nat>, minIdx: int32, maxIdx: int32,
                        ghost args: seq<int32>)
    returns (code: int, idxTh': Option<nat>)
    requires queryCond.Some? ==> var slot := queryCond.value[0].idx; Fed(data, slot, slot.oper, args)
    requires queryCond.Some? && queryCond.value[0].idx.oper == OPER_IN && idxTh.Some? ==> idxTh.value < |args|
    modifies p
    ensures code == if p == null then -1 else if queryCond.None? then 0 else 1
    ensures idxTh' == if p != null && queryCond.Some? && queryCond.value[0].idx.oper == OPER_IN && idxTh.Some?
                      then Some(idxTh.value + 1) else idxTh
    ensures p != null && queryCond.None? ==> p.startIdx == minIdx && p.endIdx == maxIdx && p.queryTimes == 0
    ensures p != null && queryCond.Some? ==>
              var oper := queryCond.value[0].idx.oper;
              if oper == OPER_IN && idxTh.None? then
                && p.startIdx == old(p.startIdx) && p.queryTimes == 0
                && p.endIdx == if old(p.endIdx) > maxIdx then maxIdx else old(p.endIdx)
              else
                && (p.startIdx, p.endIdx) == Range(oper, args, if oper == OPER_IN then idxTh.value else 0, minIdx, maxIdx, old(p.startIdx))
                && p.queryTimes == if oper == OPER_IN then |args| - idxTh.value - 1 else 0
  {
    idxTh' := idxTh;
    if p == null {
      return -1, idxTh';
    }
    p.queryTimes := 0;
    if queryCond.None? {
      p.startIdx, p.endIdx := minIdx, maxIdx;
      return 0, idxTh';
    }
    var slot := queryCond.value[0].idx;
    var first: int32 := 0;
    if slot.oper < OPER_IN {
      first := Operand(data, slot, 0, args);
    }
    if slot.oper == OPER_EQ {
      p.startIdx, p.endIdx := first, first;
    } else if slot.oper == OPER_GT {
      p.startIdx, p.endIdx := Wrap(first as int + 1), maxIdx;
    } else if slot.oper == OPER_GE {
      p.startIdx, p.endIdx := first, maxIdx;
    } else if slot.oper == OPER_LT {
      p.startIdx, p.endIdx := minIdx, Wrap(first as int - 1);
    } else if slot.oper == OPER_LE {
      p.startIdx, p.endIdx := minIdx, first;
    } else if slot.oper == OPER_RANGE {
      p.startIdx := first;
      p.endIdx := Operand(data, slot, 1, args);
    } else if slot.oper == OPER_IN {
      if idxTh.Some? {
        p.startIdx := Operand(data, slot, idxTh.value, args);
        idxTh' := Some(idxTh.value + 1);
        p.endIdx := p.startIdx;
        p.queryTimes := slot.argc - idxTh'.value;
      }
    } else {
      p.endIdx := -1;
      p.queryTimes := 0;
    }
    if p.endIdx > maxIdx {
      p.endIdx := maxIdx;
    }
    code := 1;
  }

  /** check_match_the_type. */
  method CheckMatchTheType(data: seq<byte>, queryCond: Option<Levels>, typ: int32, ghost args: seq<int32>) returns (answer: int)
    requires queryCond.Some? ==> var slot := queryCond.value[0].typ; Fed(data, slot, slot.oper, args)
    ensures answer == 1 || answer == 0
    ensures answer == 1 <==> queryCond.None? || Accepts(queryCond.value[0].typ.oper, args, typ)
  {
    if queryCond.None? {
      return 1;
    }
    var slot := queryCond.value[0].typ;
    if slot.oper == OPER_IN {
      for i := 0 to slot.argc
        invariant typ !in args[..i]
      {
        var v := Operand(data, slot, i, args);
        if typ == v {
          return 1;
        }
        assert args[..i + 1] == args[..i] + [args[i]];
      }
      assert args[..slot.argc] == args;
      return 0;
    }
    if slot.oper > OPER_IN {
      return 0;
    }
    var first := Operand(data, slot, 0, args);
    var yes;
    if slot.oper == OPER_EQ {
      yes := typ == first;
    } else if slot.oper == OPER_GT {
      yes := typ > first;
    } else if slot.oper == OPER_GE {
      yes := typ >= first;
    } else if slot.oper == OPER_LT {
      yes := typ < first;
    } else if slot.oper == OPER_LE {
      yes := typ <= first;
    } else {
      var second := Operand(data, slot, 1, args);
      yes := typ >= first && typ <= second;
    }
    answer := if yes then 1 else 0;
  }

  lemma {:induction false} WrapShift(x: int, k: int)
    ensures Wrap(x + k * 0x1_0000_0000) == Wrap(x)
    decreases if k < 0 then -k else k
  {
    if k > 0 {
      WrapShift(x, k - 1);
      WrapOnce(x + (k - 1) * 0x1_0000_0000);
    } else if k < 0 {
      WrapShift(x, k + 1);
      WrapOnce(x + k * 0x1_0000_0000);
    }
  }

  lemma WrapOnce(x: int)
    ensures Wrap(x + 0x1_0000_0000) == Wrap(x)
  {
    var q, r := x / 0x1_0000_0000, x % 0x1_0000_0000;
    assert x + 0x1_0000_0000 == (q + 1) * 0x1_0000_0000 + r;
    assert (x + 0x1_0000_0000) % 0x1_0000_0000 == r;
  }

  lemma WrapAdd(a: int, b: int)
    ensures Wrap(Wrap(a) + b) == Wrap(a + b)
  {
    var k := (a - Wrap(a)) / 0x1_0000_0000;
    assert a == Wrap(a) + k * 0x1_0000_0000;
    hide Wrap;
    WrapShift(Wrap(a) + b, k);
  }

  /** The handler on every index of a range. */
  method VisitRange(startIdx: int32, endIdx: int32, before: seq<int>, count0: int32) returns (visited: seq<int>, count: int32)
    requires count0 == Wrap(|before|)
    ensures visited == before + Numbers(startIdx, endIdx) && count == Wrap(|visited|)
  {
    hide Wrap;
    visited, count := before, count0;
    var i: int := startIdx;
    while i <= endIdx
      invariant startIdx <= i && (i == startIdx || i <= endIdx + 1)
      invariant visited == before + Numbers(startIdx, i - 1) && count == Wrap(|visited|)
    {
      visited := visited + [i];
      WrapAdd(|visited| - 1, 1);
      count := Wrap(count + 1);
      i := i + 1;
    }
  }

  lemma StaleUnused(args: seq<int32>, round: nat, maxIdx: int32, a: int32, b: int32)
    requires round < |args|
    ensures Range(OPER_IN, args, round, 0, maxIdx, a) == Range(OPER_IN, args, round, 0, maxIdx, b)
  {
  }

  lemma NextRound(oper: byte, args: seq<int32>, rounds: nat, maxIdx: int32, stale: int32)
    requires Enough(oper, args) && rounds < Rounds(oper, args)
    ensures Visited(oper, args, 0, maxIdx, stale) == []
    ensures var r := Range(oper, args, if oper == OPER_IN then rounds else 0, 0, maxIdx, stale);
            Visited(oper, args, rounds + 1, maxIdx, stale) == Visited(oper, args, rounds, maxIdx, stale) + Numbers(r.0, r.1)
  {
    hide Range, Numbers;
  }

  /** query_level_1_idx: the indices the handler is called on, and how many they are, in an int. */
  method QueryLevel1Idx(data: seq<byte>, queryCond: Option<Levels>, maxIdx: int32, stale: int32, ghost args: seq<int32>)
    returns (count: int32, visited: seq<int>)
    requires maxIdx < INT_MAX
    requires queryCond.Some? ==> var slot := queryCond.value[0].idx; Fed(data, slot, slot.oper, args)
    ensures count == Wrap(|visited|)
    ensures visited == if queryCond.None? then Numbers(0, maxIdx)
                       else var oper := queryCond.value[0].idx.oper; Visited(oper, args, Rounds(oper, args), maxIdx, stale)
  {
    hide Wrap, Numbers, Visited, Range;
    var idxArg := new IdxQueryArg(stale);
    if queryCond.None? {
      idxArg.startIdx, idxArg.endIdx, idxArg.queryTimes := 0, maxIdx, 0;
      visited, count := VisitRange(idxArg.startIdx, idxArg.endIdx, [], 0);
      assert [] + Numbers(0, maxIdx) == Numbers(0, maxIdx);
      return;
    }
    var idxTh := 0;
    ghost var round := 0;
    ghost var oper := queryCond.value[0].idx.oper;
    visited, count := [], 0;
    NextRound(oper, args, 0, maxIdx, stale);
    while true
      invariant round < Rounds(oper, args) && (if oper == OPER_IN then idxTh == round else idxArg.startIdx == stale)
      invariant visited == Visited(oper, args, round, maxIdx, stale) && count == Wrap(|visited|)
      decreases Rounds(oper, args) - round
    {
      NextRound(oper, args, round, maxIdx, stale);
      if oper == OPER_IN {
        StaleUnused(args, round, maxIdx, idxArg.startIdx, stale);
      }
      var _, next := GetIdxQueryArg(idxArg, data, queryCond, Some(idxTh), 0, maxIdx, args);
      idxTh := next.value;
      visited, count := VisitRange(idxArg.startIdx, idxArg.endIdx, visited, count);
      round := round + 1;
      if idxArg.queryTimes <= 0 {
        break;
      }
    }
  }
}
