/** The mask of task bits: 32 words that stand for a set of numbers. */
module TaskMask {

  const WORDS := 32
  const SIZE := 32
  const BITS := 1024

  // One word

  /** 1 << k. */
  function Bit(k: nat): bv32
    requires k < SIZE
  {
    (1 as bv32) << k
  }

  function And(a: bv32, b: bv32): bv32 {
    a & b
  }

  function Or(a: bv32, b: bv32): bv32 {
    a | b
  }

  function AndNot(a: bv32, b: bv32): bv32 {
    a & !b
  }

  predicate InWord(w: bv32, k: nat)
    requires k < SIZE
  {
    And(w, Bit(k)) != 0
  }

  function WithBit(w: bv32, k: nat): bv32
    requires k < SIZE
  {
    Or(w, Bit(k))
  }

  function WithoutBit(w: bv32, k: nat): bv32
    requires k < SIZE
  {
    AndNot(w, Bit(k))
  }

  lemma Apart(k: nat, n: nat)
    requires k < SIZE && n < SIZE
    ensures Bit(k) != 0 && (k != n ==> And(Bit(k), Bit(n)) == 0)
  {
  }

  lemma SetElsewhere(w: bv32, b: bv32, c: bv32)
    requires And(b, c) == 0
    ensures And(Or(w, b), c) == And(w, c)
  {
    OtherBits(w, b, c);
  }

  lemma OtherBits(w: bv32, b: bv32, c: bv32)
    requires b & c == 0
    ensures (w | b) & c == w & c
  {
    assert (w | b) & c == (w & c) | (b & c);
  }

  lemma ClearElsewhere(w: bv32, b: bv32, c: bv32)
    requires And(b, c) == 0
    ensures And(AndNot(w, b), c) == And(w, c)
  {
  }

  lemma SetHere(w: bv32, b: bv32)
    ensures And(Or(w, b), b) == b
  {
  }

  lemma ClearHere(w: bv32, b: bv32)
    ensures And(AndNot(w, b), b) == 0
  {
  }

  lemma WithBitHas(w: bv32, k: nat, n: nat)
    requires k < SIZE && n < SIZE
    ensures InWord(WithBit(w, k), n) <==> InWord(w, n) || n == k
  {
    hide Bit, And, Or, AndNot;
    Apart(k, n);
    if n == k {
      SetHere(w, Bit(k));
    } else {
      SetElsewhere(w, Bit(k), Bit(n));
    }
  }

  lemma WithoutBitHas(w: bv32, k: nat, n: nat)
    requires k < SIZE && n < SIZE
    ensures InWord(WithoutBit(w, k), n) <==> InWord(w, n) && n != k
  {
    hide Bit, And, Or, AndNot;
    Apart(k, n);
    if n == k {
      ClearHere(w, Bit(k));
    } else {
      ClearElsewhere(w, Bit(k), Bit(n));
    }
  }

  // The mask

  predicate Has(mask: seq<bv32>, num: nat)
    requires |mask| == WORDS && num < BITS
  {
    InWord(mask[num / SIZE], num % SIZE)
  }

  /** The numbers whose bit is set. */
  function Members(mask: seq<bv32>): set<nat>
    requires |mask| == WORDS
  {
    set n | 0 <= n < BITS && Has(mask, n)
  }

  lemma BitSet(mask: seq<bv32>, num: nat)
    requires |mask| == WORDS && num < BITS
    ensures Members(mask[num / SIZE := WithBit(mask[num / SIZE], num % SIZE)]) == Members(mask) + {num}
  {
    hide InWord, WithBit;
    var changed := mask[num / SIZE := WithBit(mask[num / SIZE], num % SIZE)];
    forall n | 0 <= n < BITS
      ensures Has(changed, n) <==> Has(mask, n) || n == num
    {
      WithBitHas(mask[num / SIZE], num % SIZE, n % SIZE);
    }
  }

  lemma BitCleared(mask: seq<bv32>, num: nat)
    requires |mask| == WORDS && num < BITS
    ensures Members(mask[num / SIZE := WithoutBit(mask[num / SIZE], num % SIZE)]) == Members(mask) - {num}
  {
    hide InWord, WithoutBit;
    var changed := mask[num / SIZE := WithoutBit(mask[num / SIZE], num % SIZE)];
    forall n | 0 <= n < BITS
      ensures Has(changed, n) <==> Has(mask, n) && n != num
    {
      WithoutBitHas(mask[num / SIZE], num % SIZE, n % SIZE);
    }
  }

  /** A cleared mask has no members. */
  lemma NoMembers(mask: seq<bv32>)
    requires |mask| == WORDS && forall i | 0 <= i < WORDS :: mask[i] == 0
    ensures Members(mask) == {}
  {
    forall n | 0 <= n < BITS
      ensures !Has(mask, n)
    {
      ZeroWord(n % SIZE);
    }
  }

  lemma ZeroWord(k: nat)
    requires k < SIZE
    ensures !InWord(0, k)
  {
    hide Bit;
  }

  /** check_thread_pool_task_maskbit: not zero if the bit is set. */
  method CheckTaskMaskbit(taskMask: array<bv32>, num: nat) returns (r: bv32)
    requires taskMask.Length == WORDS && num < BITS
    ensures r != 0 <==> num in Members(taskMask[..])
  {
    hide Bit;
    r := And(taskMask[num / SIZE], Bit(num % SIZE));
    assert r != 0 <==> Has(taskMask[..], num);
  }

  /** set_thread_pool_task_maskbit. */
  method SetTaskMaskbit(taskMask: array<bv32>, num: nat)
    requires taskMask.Length == WORDS && num < BITS
    modifies taskMask
    ensures Members(taskMask[..]) == Members(old(taskMask[..])) + {num}
  {
    hide WithBit, Members;
    ghost var was := taskMask[..];
    BitSet(was, num);
    taskMask[num / SIZE] := WithBit(taskMask[num / SIZE], num % SIZE);
    assert taskMask[..] == was[num / SIZE := WithBit(was[num / SIZE], num % SIZE)];
  }

  /** clean_thread_pool_task_maskbit. */
  method CleanTaskMaskbit(taskMask: array<bv32>, num: nat)
    requires taskMask.Length == WORDS && num < BITS
    modifies taskMask
    ensures Members(taskMask[..]) == Members(old(taskMask[..])) - {num}
  {
    hide WithoutBit, Members;
    ghost var was := taskMask[..];
    BitCleared(was, num);
    taskMask[num / SIZE] := WithoutBit(taskMask[num / SIZE], num % SIZE);
    assert taskMask[..] == was[num / SIZE := WithoutBit(was[num / SIZE], num % SIZE)];
  }
}
