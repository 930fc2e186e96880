/** The ring buffer between one producer thread and one consumer thread. */
module RingBuffer {
  import opened Bytes

  // Remainders

  lemma RemainderIs(q: nat, size: nat, r: nat)
    requires r < size
    ensures (q * size + r) % size == r
  {
    if q > 0 {
      RemainderIs(q - 1, size, r);
      assert q * size + r == (q - 1) * size + r + size;
      PlusSize((q - 1) * size + r, size);
    }
  }

  lemma PlusSize(n: nat, size: nat)
    requires size > 0
    ensures (n + size) % size == n % size
  {
    var q, p := n / size, (n + size) / size;
    assert (p - q - 1) * size == n % size - (n + size) % size;
    SmallMultiple(p - q - 1, size);
  }

  lemma NextIndex(n: nat, size: nat)
    requires size > 0
    ensures (n % size + 1) % size == (n + 1) % size
  {
    var q, r := n / size, n % size;
    assert n == q * size + r;
    if r + 1 == size {
      assert n + 1 == (q + 1) * size + 0;
      RemainderIs(q + 1, size, 0);
      RemainderIs(1, size, 0);
    } else {
      assert n + 1 == q * size + (r + 1);
      RemainderIs(q, size, r + 1);
      RemainderIs(0, size, r + 1);
    }
  }

  /** Fewer than size consecutive numbers have different remainders. */
  lemma DifferentSlots(i: nat, j: nat, size: nat)
    requires size > 0 && i < j < i + size
    ensures i % size != j % size
  {
    if i % size == j % size {
      SmallMultiple(j / size - i / size, size);
    }
  }

  // The buffer

  /** The fields of struct ring_buffer; size is the length of data. */
  datatype Ring = Ring(data: seq<int>, head: nat, tail: nat)

  predicate Shaped(r: Ring) {
    r.head < |r.data| && r.tail < |r.data|
  }

  /** The values in the buffer, oldest first: from head up to tail, around the end of data. */
  function Contents(r: Ring): seq<int>
    requires Shaped(r)
  {
    if r.head <= r.tail then r.data[r.head..r.tail] else r.data[r.head..] + r.data[..r.tail]
  }

  lemma NextOf(i: nat, size: nat)
    requires i < size
    ensures (i + 1) % size == if i + 1 == size then 0 else i + 1
  {
    if i + 1 < size {
      RemainderIs(0, size, i + 1);
    }
  }

  /** A push that nothing interrupts. */
  function AfterPush(r: Ring, value: int): (Ring, bool)
    requires Shaped(r)
  {
    var next := (r.tail + 1) % |r.data|;
    if next == r.head then (r, false) else (r.(data := r.data[r.tail := value], tail := next), true)
  }

  /** A pop that nothing interrupts. */
  function AfterPop(r: Ring): (Ring, bool, int)
    requires Shaped(r)
  {
    if r.head == r.tail then (r, false, 0)
    else (r.(head := (r.head + 1) % |r.data|), true, r.data[r.head])
  }

  /** A push appends while fewer than size - 1 values are held, and otherwise changes nothing. */
  lemma PushContents(r: Ring, value: int)
    requires Shaped(r)
    ensures var (after, ok) := AfterPush(r, value);
            && Shaped(after) && (ok <==> |Contents(r)| < |r.data| - 1)
            && Contents(after) == if ok then Contents(r) + [value] else Contents(r)
  {
    NextOf(r.tail, |r.data|);
    var after := AfterPush(r, value).0;
    if r.tail + 1 == |r.data| && r.head > 0 {
      assert after.data[r.head..] == r.data[r.head..r.tail] + [value];
      assert after.data[..0] == [];
    } else if r.head <= r.tail && r.tail + 1 < |r.data| {
      assert after.data[r.head..r.tail + 1] == r.data[r.head..r.tail] + [value];
    } else if r.tail + 1 < r.head {
      assert after.data[r.head..] == r.data[r.head..];
      assert after.data[..r.tail + 1] == r.data[..r.tail] + [value];
    }
  }

  /** A pop takes the oldest value off, and changes nothing if there is none. */
  lemma PopContents(r: Ring)
    requires Shaped(r)
    ensures var (after, ok, v) := AfterPop(r);
            && Shaped(after) && (ok <==> Contents(r) != [])
            && (if ok then v == Contents(r)[0] && Contents(after) == Contents(r)[1..] else after == r)
  {
    NextOf(r.head, |r.data|);
    if r.head < r.tail {
      assert r.data[r.head + 1..r.tail] == r.data[r.head..r.tail][1..];
    } else if r.head > r.tail {
      assert r.data[r.head..] == [r.data[r.head]] + r.data[r.head + 1..];
      assert (r.data[r.head..] + r.data[..r.tail])[1..] == r.data[r.head + 1..] + r.data[..r.tail];
      if r.head + 1 == |r.data| {
        assert r.data[r.head + 1..] == [] && r.data[0..r.tail] == r.data[..r.tail];
      }
    }
  }

  class Buffer {
    var data: array<int>
    var size: int
    var head: int
    var tail: int

    ghost predicate Valid()
      reads this
    {
      size == data.Length && 0 <= head < size && 0 <= tail < size
    }

    ghost function Value(): (r: Ring)
      reads this, data
      requires Valid()
      ensures Shaped(r)
    {
      Ring(data[..], head, tail)
    }

    constructor (size: int)
      requires size > 0
      ensures Valid() && fresh(data) && this.size == size
      ensures Contents(Value()) == []
    {
      data := new int[size];
      this.size := size;
      head := 0;
      tail := 0;
    }

    method Push(value: int) returns (code: int)
      requires Valid()
      modifies this`tail, data
      ensures Valid() && data == old(data)
      ensures var (after, ok) := AfterPush(old(Value()), value);
              Value() == after && code == if ok then 0 else -1
      ensures code == if |old(Contents(Value()))| < size - 1 then 0 else -1
      ensures Contents(Value()) == if code == 0 then old(Contents(Value())) + [value] else old(Contents(Value()))
    {
      PushContents(Value(), value);
      var nextTail := (tail + 1) % size;
      if nextTail == head {
        code := -1;
      } else {
        data[tail] := value;
        tail := nextTail;
        code := 0;
      }
    }

    method Pop() returns (code: int, value: int)
      requires Valid()
      modifies this`head
      ensures Valid() && data == old(data) && data[..] == old(data[..])
      ensures var (after, ok, v) := AfterPop(old(Value()));
              Value() == after && code == (if ok then 0 else -1) && (ok ==> value == v)
      ensures code == if old(Contents(Value())) != [] then 0 else -1
      ensures var was := old(Contents(Value()));
              if code == 0 then value == was[0] && Contents(Value()) == was[1..] else Contents(Value()) == was
    {
      PopContents(Value());
      value := 0;
      if head == tail {
        code := -1;
      } else {
        value := data[head];
        head := (head + 1) % size;
        code := 0;
      }
    }
  }

  // One producer and one consumer, interleaved at every shared access

  /** Where the producer is: before a push; with next_tail computed; past the test against head; with
      the value stored. */
  datatype Producer = Outside | Next(value: int, next: nat) | Room(value: int, next: nat) | Stored(value: int, next: nat)

  /** Where the consumer is: before a pop; past the test against tail; with the value read. */
  datatype Consumer = Away | Waiting | Fetched(value: int)

  /** The buffer, the two threads, and the values of the pushes and pops that have succeeded so far. */
  datatype System = System(ring: Ring, producer: Producer, consumer: Consumer, pushed: seq<int>, popped: seq<int>)

  datatype Action =
    | ReadTail(value: int) | TestHead | StoreValue | PublishTail
    | TestTail | FetchValue | AdvanceHead

  predicate Enabled(s: System, a: Action) {
    Shaped(s.ring) && match a
    case ReadTail(_) => s.producer.Outside?
    case TestHead => s.producer.Next?
    case StoreValue => s.producer.Room?
    case PublishTail => s.producer.Stored? && s.producer.next < |s.ring.data|
    case TestTail => s.consumer.Away?
    case FetchValue => s.consumer.Waiting?
    case AdvanceHead => s.consumer.Fetched?
  }

  function Step(s: System, a: Action): System
    requires Enabled(s, a)
  {
    var r, size := s.ring, |s.ring.data|;
    match a
    case ReadTail(v) => s.(producer := Next(v, (r.tail + 1) % size))
    case TestHead =>
      s.(producer := if s.producer.next == r.head then Outside else Room(s.producer.value, s.producer.next))
    case StoreValue =>
      s.(ring := r.(data := r.data[r.tail := s.producer.value]), producer := Stored(s.producer.value, s.producer.next))
    case PublishTail =>
      s.(ring := r.(tail := s.producer.next), producer := Outside, pushed := s.pushed + [s.producer.value])
    case TestTail => s.(consumer := if r.head == r.tail then Away else Waiting)
    case FetchValue => s.(consumer := Fetched(r.data[r.head]))
    case AdvanceHead =>
      s.(ring := r.(head := (r.head + 1) % size), consumer := Away, popped := s.popped + [s.consumer.value])
  }

  /** The slots between the last pop and the last push hold the values pushed there. */
  ghost predicate Holds(s: System)
    requires s.ring.data != []
  {
    forall i | |s.popped| <= i < |s.pushed| :: s.ring.data[i % |s.ring.data|] == s.pushed[i]
  }

  ghost predicate Inv(s: System) {
    var size, h, t := |s.ring.data|, |s.popped|, |s.pushed|;
    && size > 0 && s.ring.head == h % size && s.ring.tail == t % size
    && h <= t <= h + size - 1
    && s.popped == s.pushed[..h]
    && Holds(s)
    && (s.producer.Next? || s.producer.Room? || s.producer.Stored? ==> s.producer.next == (t + 1) % size)
    && (s.producer.Room? || s.producer.Stored? ==> t + 1 <= h + size - 1)
    && (s.producer.Stored? ==> s.ring.data[s.ring.tail] == s.producer.value)
    && (s.consumer.Waiting? || s.consumer.Fetched? ==> h < t)
    && (s.consumer.Fetched? ==> s.consumer.value == s.pushed[h])
  }

  function Start(data: seq<int>): System
    requires data != []
  {
    System(Ring(data, 0, 0), Outside, Away, [], [])
  }

  /** The test that fails a push or a pop is right about the buffer at that moment: the indices meet
      exactly when size - 1 values, or none, are between the last pop and the last push. */
  lemma TestsAreRight(s: System)
    requires Inv(s)
    ensures (s.ring.tail + 1) % |s.ring.data| == s.ring.head <==> |s.pushed| - |s.popped| == |s.ring.data| - 1
    ensures s.ring.head == s.ring.tail <==> |s.pushed| == |s.popped|
  {
    var size, h, t := |s.ring.data|, |s.popped|, |s.pushed|;
    NextIndex(t, size);
    if h < t {
      DifferentSlots(h, t, size);
    }
    if t + 1 < h + size {
      DifferentSlots(t + 1, h + size, size);
    }
    assert (h + size) % size == h % size by {
      PlusSize(h, size);
    }
  }

  /** The slot a push writes is none of those that hold values not yet popped. */
  lemma StoreIsFree(s: System, i: nat)
    requires Inv(s) && s.producer.Room? && |s.popped| <= i < |s.pushed|
    ensures i % |s.ring.data| != s.ring.tail
  {
    DifferentSlots(i, |s.pushed|, |s.ring.data|);
  }

  lemma Around(h: nat, i: nat, size: nat)
    requires i < size
    ensures (h + i) % size == if h % size + i < size then h % size + i else h % size + i - size
  {
    var q, r := h / size, h % size;
    assert h == q * size + r;
    if r + i < size {
      assert h + i == q * size + (r + i);
      RemainderIs(q, size, r + i);
    } else {
      assert h + i == (q + 1) * size + (r + i - size);
      RemainderIs(q + 1, size, r + i - size);
    }
  }

  /** Between the steps the buffer holds exactly the values pushed and not yet popped, oldest first. */
  lemma HoldsTheRest(s: System)
    requires Inv(s)
    ensures Shaped(s.ring) && Contents(s.ring) == s.pushed[|s.popped|..]
  {
    var size, h, t := |s.ring.data|, |s.popped|, |s.pushed|;
    Around(h, t - h, size);
    assert |Contents(s.ring)| == t - h;
    forall i | 0 <= i < t - h
      ensures Contents(s.ring)[i] == s.pushed[h + i]
    {
      Around(h, i, size);
      assert s.ring.data[(h + i) % size] == s.pushed[h + i];
    }
  }

  lemma ProducerInv(s: System, a: Action)
    requires Inv(s) && Enabled(s, a) && (a.ReadTail? || a.TestHead? || a.StoreValue? || a.PublishTail?)
    ensures Inv(Step(s, a))
  {
    var s' := Step(s, a);
    match a
    case ReadTail(_) => NextIndex(|s.pushed|, |s.ring.data|);
    case TestHead =>
      TestsAreRight(s);
      NextIndex(|s.pushed|, |s.ring.data|);
    case StoreValue =>
      forall i | |s'.popped| <= i < |s'.pushed|
        ensures s'.ring.data[i % |s'.ring.data|] == s'.pushed[i]
      {
        StoreIsFree(s, i);
      }
    case PublishTail =>
      assert s'.pushed[..|s'.popped|] == s.pushed[..|s.popped|];
  }

  lemma ConsumerInv(s: System, a: Action)
    requires Inv(s) && Enabled(s, a) && (a.TestTail? || a.FetchValue? || a.AdvanceHead?)
    ensures Inv(Step(s, a))
  {
    match a
    case TestTail => TestsAreRight(s);
    case FetchValue =>
    case AdvanceHead =>
      NextIndex(|s.popped|, |s.ring.data|);
      assert s.pushed[..|s.popped| + 1] == s.pushed[..|s.popped|] + [s.pushed[|s.popped|]];
  }

  ghost predicate Legal(s: System, acts: seq<Action>)
    decreases |acts|
  {
    acts != [] ==> Enabled(s, acts[0]) && Legal(Step(s, acts[0]), acts[1..])
  }

  ghost function Execute(s: System, acts: seq<Action>): System
    requires Legal(s, acts)
    decreases |acts|
  {
    if acts == [] then s else Execute(Step(s, acts[0]), acts[1..])
  }

  lemma {:induction false} ExecuteInv(s: System, acts: seq<Action>)
    requires Inv(s) && Legal(s, acts)
    ensures Inv(Execute(s, acts)) && |Execute(s, acts).ring.data| == |s.ring.data|
    decreases |acts|
  {
    if acts != [] {
      var a := acts[0];
      if a.TestTail? || a.FetchValue? || a.AdvanceHead? {
        ConsumerInv(s, a);
      } else {
        ProducerInv(s, a);
      }
      ExecuteInv(Step(s, a), acts[1..]);
    }
  }

  /** In every interleaving the values popped are a prefix of the values pushed, at most size - 1 values
      are in between, a failing push finds the buffer full and a failing pop finds it empty. */
  lemma PoppedIsPrefixOfPushed(data: seq<int>, acts: seq<Action>)
    requires data != [] && Legal(Start(data), acts)
    ensures var s := Execute(Start(data), acts);
            && s.popped <= s.pushed
            && |s.pushed| - |s.popped| <= |data| - 1
            && (Enabled(s, TestHead) ==>
                  (Step(s, TestHead).producer.Outside? <==> |s.pushed| - |s.popped| == |data| - 1))
            && (Enabled(s, TestTail) ==> (Step(s, TestTail).consumer.Away? <==> s.popped == s.pushed))
            && |s.ring.data| == |data|
            && (Enabled(s, StoreValue) ==>
                  forall i | |s.popped| <= i < |s.pushed| ::
                    Step(s, StoreValue).ring.data[i % |data|] == s.ring.data[i % |data|] == s.pushed[i])
  {
    ExecuteInv(Start(data), acts);
    var s := Execute(Start(data), acts);
    TestsAreRight(s);
    NextIndex(|s.pushed|, |data|);
    if Enabled(s, StoreValue) {
      ProducerInv(s, StoreValue);
    }
  }

  /** Run without interruption, the steps of a push are AfterPush. */
  lemma StepsOfPush(s: System, value: int)
    requires Inv(s) && s.producer.Outside?
    ensures Enabled(s, ReadTail(value)) && Enabled(Step(s, ReadTail(value)), TestHead)
    ensures var (after, ok) := AfterPush(s.ring, value);
            var tested := Step(Step(s, ReadTail(value)), TestHead);
            if ok then
              && Enabled(tested, StoreValue) && Enabled(Step(tested, StoreValue), PublishTail)
              && Step(Step(tested, StoreValue), PublishTail) == s.(ring := after, pushed := s.pushed + [value])
            else tested == s
  {
    assert Shaped(s.ring);
    hide Inv;
  }

  /** Run without interruption, the steps of a pop are AfterPop. */
  lemma StepsOfPop(s: System)
    requires Inv(s) && s.consumer.Away?
    ensures Enabled(s, TestTail)
    ensures var (after, ok, v) := AfterPop(s.ring);
            var tested := Step(s, TestTail);
            if ok then
              && Enabled(tested, FetchValue) && Enabled(Step(tested, FetchValue), AdvanceHead)
              && Step(Step(tested, FetchValue), AdvanceHead) == s.(ring := after, popped := s.popped + [v])
            else tested == s
  {
    assert Shaped(s.ring);
    hide Inv;
  }
}
