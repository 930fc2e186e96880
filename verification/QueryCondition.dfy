/** Query conditions and their layout in a message. */
module QueryCondition {
  import opened Bytes
  import opened Wrappers

  const FIELD_IDX := 0
  const FIELD_TYPE := 1

  const OPER_EQ := 0
  const OPER_GT := 1
  const OPER_GE := 2
  const OPER_LT := 3
  const OPER_LE := 4
  const OPER_RANGE := 5
  const OPER_IN := 6

  const LEVELS := 2

  datatype Condition = Condition(level: byte, field: byte, oper: byte, args: seq<int32>)

  type Group = seq<Condition>
  type Head = seq<Group>

  function Ints(args: seq<int32>): (s: seq<byte>)
    ensures |s| == 4 * |args|
  {
    if args == [] then [] else EncodeInt(args[0]) + Ints(args[1..])
  }

  /** The operand count is kept in one byte. */
  function OfCondition(c: Condition): (s: seq<byte>)
    ensures |s| == 4 + 4 * |c.args|
  {
    [c.level, c.field, c.oper, |c.args| % 0x100] + Ints(c.args)
  }

  function OfConditions(g: Group): (s: seq<byte>)
    ensures |s| >= 4 * |g|
  {
    if g == [] then [] else OfCondition(g[0]) + OfConditions(g[1..])
  }

  /** Counts fit an int. */
  predicate Small(h: Head) {
    |h| <= INT_MAX && forall g | g in h :: |g| <= INT_MAX
  }

  predicate Countable(heads: seq<Head>) {
    forall h | h in heads :: Small(h)
  }

  function OfGroups(h: Head): (s: seq<byte>)
    requires Small(h)
    ensures |s| >= 4 * |h|
  {
    if h == [] then [] else EncodeInt(|h[0]|) + OfConditions(h[0]) + OfGroups(h[1..])
  }

  function OfHeads(heads: seq<Head>): (s: seq<byte>)
    requires Countable(heads)
    ensures |s| >= 4 * |heads|
  {
    if heads == [] then [] else
      assert Small(heads[0]);
      EncodeInt(|heads[0]|) + OfGroups(heads[0]) + OfHeads(heads[1..])
  }

  // The layout of longer lists

  lemma {:induction false} ConditionsAppend(a: Group, b: Group)
    ensures OfConditions(a + b) == OfConditions(a) + OfConditions(b)
  {
    if a == [] {
      assert a + b == b;
    } else {
      assert (a + b)[1..] == a[1..] + b;
      ConditionsAppend(a[1..], b);
    }
  }

  lemma Associates<T>(a: seq<T>, b: seq<T>, c: seq<T>)
    ensures a + (b + c) == a + b + c
  {
  }

  lemma OfGroupsStep(h: Head)
    requires Small(h) && h != []
    ensures |h[0]| <= INT_MAX && Small(h[1..])
    ensures OfGroups(h) == EncodeInt(|h[0]|) + OfConditions(h[0]) + OfGroups(h[1..])
  {
    hide EncodeInt, OfConditions;
  }

  lemma {:induction false} GroupsAppend(a: Head, b: Head)
    requires Small(a + b)
    ensures Small(a) && Small(b) && OfGroups(a + b) == OfGroups(a) + OfGroups(b)
  {
    SmallParts(a, b);
    hide EncodeInt, OfConditions, Small;
    if a == [] {
      assert a + b == b;
      assert OfGroups(a) + OfGroups(b) == OfGroups(b);
    } else {
      assert (a + b)[1..] == a[1..] + b && (a + b)[0] == a[0];
      OfGroupsStep(a + b);
      OfGroupsStep(a);
      hide OfGroups;
      GroupsAppend(a[1..], b);
      Associates(EncodeInt(|a[0]|) + OfConditions(a[0]), OfGroups(a[1..]), OfGroups(b));
    }
  }

  lemma SmallParts(a: Head, b: Head)
    requires Small(a + b)
    ensures Small(a) && Small(b)
  {
    assert forall g | g in a || g in b :: g in a + b;
  }

  lemma OfHeadsStep(heads: seq<Head>)
    requires Countable(heads) && heads != []
    ensures Small(heads[0]) && Countable(heads[1..])
    ensures OfHeads(heads) == EncodeInt(|heads[0]|) + OfGroups(heads[0]) + OfHeads(heads[1..])
  {
    hide EncodeInt, OfGroups;
  }

  lemma {:induction false} HeadsAppend(a: seq<Head>, b: seq<Head>)
    requires Countable(a) && Countable(b)
    ensures Countable(a + b) && OfHeads(a + b) == OfHeads(a) + OfHeads(b)
  {
    hide EncodeInt, OfGroups;
    forall h | h in a + b
      ensures h in a || h in b
    {
    }
    if a == [] {
      assert a + b == b;
    } else {
      assert (a + b)[1..] == a[1..] + b;
      HeadsAppend(a[1..], b);
      OfHeadsStep(a + b);
      OfHeadsStep(a);
    }
  }

  lemma {:induction false} IntsAppend(a: seq<int32>, b: seq<int32>)
    ensures Ints(a + b) == Ints(a) + Ints(b)
  {
    if a == [] {
      assert a + b == b;
    } else {
      assert (a + b)[1..] == a[1..] + b;
      IntsAppend(a[1..], b);
    }
  }

  /** Operand k of a list of operands. */
  lemma {:induction false} IntAt(args: seq<int32>, k: nat)
    requires k < |args|
    ensures ReadInt(Ints(args), 4 * k) == args[k]
  {
    var s := Ints(args);
    if k == 0 {
      DecodeEncode(args[0]);
      assert s[0..4] == EncodeInt(args[0]);
    } else {
      IntAt(args[1..], k - 1);
      assert s[4 * k..4 * k + 4] == Ints(args[1..])[4 * (k - 1)..4 * (k - 1) + 4];
    }
  }

  /** The last group of the last head, and what precedes it. */
  lemma LastHead(before: seq<Head>, h: Head)
    requires Countable(before) && Small(h)
    ensures Countable(before + [h])
    ensures OfHeads(before + [h]) == OfHeads(before) + EncodeInt(|h|) + OfGroups(h)
  {
    hide EncodeInt, OfGroups;
    HeadsAppend(before, [h]);
    OfHeadsStep([h]);
    assert [h][1..] == [];
  }

  lemma LastGroup(before: Head, g: Group)
    requires Small(before + [g])
    ensures OfGroups(before + [g]) == OfGroups(before) + EncodeInt(|g|) + OfConditions(g)
  {
    hide EncodeInt, OfConditions;
    GroupsAppend(before, [g]);
    OfGroupsStep([g]);
    assert [g][1..] == [];
  }

  // What the conditions of a group mean

  /** The last condition of a group for a level and a field. */
  function LastFor(g: Group, level: nat, field: nat): Option<Condition> {
    if g == [] then None
    else
      var c := g[|g| - 1];
      if c.level == level && c.field == field then Some(c) else LastFor(g[..|g| - 1], level, field)
  }

  function AllGroups(heads: seq<Head>): seq<Group> {
    if heads == [] then [] else heads[0] + AllGroups(heads[1..])
  }

  /** All conditions of several groups, in order. */
  function Flat(groups: seq<Group>): Group {
    if groups == [] then [] else Flat(groups[..|groups| - 1]) + groups[|groups| - 1]
  }

  lemma {:induction false} LastForAppend(a: Group, b: Group, level: nat, field: nat)
    ensures LastFor(a + b, level, field) == if LastFor(b, level, field).Some? then LastFor(b, level, field) else LastFor(a, level, field)
    decreases |b|
  {
    if b == [] {
      assert a + b == a;
    } else {
      var n := |b| - 1;
      assert (a + b)[..|a + b| - 1] == a + b[..n];
      LastForAppend(a, b[..n], level, field);
    }
  }

  /** It is the condition for them that no other one for them follows. */
  lemma {:induction false} LastIsLast(g: Group, level: nat, field: nat, i: nat)
    requires i < |g| && g[i].level == level && g[i].field == field
    requires forall j | i < j < |g| :: g[j].level != level || g[j].field != field
    ensures LastFor(g, level, field) == Some(g[i])
    decreases |g|
  {
    if i < |g| - 1 {
      assert g[..|g| - 1][i] == g[i];
      LastIsLast(g[..|g| - 1], level, field, i);
    }
  }

  /** A condition in the message: level, field, operator and operand count, a byte each, and then the operands. */
  lemma ConditionFormat(c: Condition)
    ensures var s := OfCondition(c);
            && s[0] == c.level && s[1] == c.field && s[2] == c.oper && s[3] == |c.args| % 0x100
            && forall k | 0 <= k < |c.args| :: ReadInt(s, 4 + 4 * k) == c.args[k]
  {
    hide ReadInt, Ints;
    var s, ints := OfCondition(c), Ints(c.args);
    forall k | 0 <= k < |c.args|
      ensures ReadInt(s, 4 + 4 * k) == c.args[k]
    {
      IntAt(c.args, k);
      SameInt(s, 4 + 4 * k, ints, 4 * k);
    }
  }

  lemma SameInt(s: seq<byte>, at: nat, t: seq<byte>, from: nat)
    requires at + 4 <= |s| && from + 4 <= |t| && s[at..at + 4] == t[from..from + 4]
    ensures ReadInt(s, at) == ReadInt(t, from)
  {
    hide DecodeInt;
  }
}
