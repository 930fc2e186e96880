/** The 32-bit check of a message: CRC_Byte and generate_CRC, as written but compiled out by
    IPCMSG_ENABLE_CRC. Polynomial, initial value and check are those of Annex A of ISO/IEC 13818-1. */
module Crc {

  const POLYNOMIAL: bv32 := 0x04c1_1db7

  /** What the bit that leaves the register feeds back. */
  function Feedback(c: bv32): bv32 {
    if c & 0x8000_0000 != 0 then POLYNOMIAL else 0
  }

  function Sum(a: bv32, b: bv32): bv32 {
    a ^ b
  }

  function Left(c: bv32): bv32 {
    c << 1
  }

  function PlusOne(c: bv32): bv32 {
    c + 1
  }

  function Shift(c: bv32): bv32 {
    (c << 1) ^ Feedback(c)
  }

  function Shifts(c: bv32, n: nat): bv32
    decreases n
  {
    if n == 0 then c else Shift(Shifts(c, n - 1))
  }

  /** A byte as the top byte of a register. */
  function Top(b: bv8): bv32 {
    (b as bv32) << 24
  }

  /** The textbook register: the byte enters at the top and is shifted out bit by bit. */
  function Byte(c: bv32, b: bv8): bv32 {
    Shifts(Sum(c, Top(b)), 8)
  }

  function Message(c: bv32, m: seq<bv8>): bv32
    decreases |m|
  {
    if m == [] then c else Message(Byte(c, m[0]), m[1..])
  }

  const INITIAL: bv32 := 0xffff_ffff

  /** The check of a whole message. */
  function Crc(m: seq<bv8>): bv32 {
    Message(INITIAL, m)
  }

  // The loops of the source

  /** The test of one round of CRC_Byte. */
  predicate Leaves(c: bv32, ch: bv8) {
    (ch ^ (((c >> 24) & 0xff) as bv8)) & 0x80 != 0
  }

  /** The register after one round. */
  function Next(c: bv32, leaves: bool): bv32 {
    if leaves then Sum(PlusOne(Left(c)), 0x04c1_1db6) else Left(c)
  }

  /** One round of CRC_Byte: r is what is left of the byte, ch the source's copy of it, which agrees with r
      in the bits not yet used and holds bits that left the register in the others. */
  lemma OneRound(c: bv32, ch: bv8, r: bv8)
    requires (ch ^ r) & 0x80 == 0
    ensures Sum(Next(c, Leaves(c, ch)), Top(r << 1)) == Shift(Sum(c, Top(r)))
  {
    hide Top, Feedback, Leaves, Sum, Next, Shift;
    LeavesFeedsBack(c, ch, r);
    TopLeft(r);
    NextIsShift(c, Top(r), Top(r << 1), Leaves(c, ch));
  }

  lemma NextIsShift(c: bv32, t: bv32, t': bv32, leaves: bool)
    requires Feedback(Sum(c, t)) == (if leaves then POLYNOMIAL else 0) && t' == t << 1
    ensures Sum(Next(c, leaves), t') == Shift(Sum(c, t))
  {
    hide Feedback;
    RoundShift(c, t);
  }

  lemma LeavesFeedsBack(c: bv32, ch: bv8, r: bv8)
    requires (ch ^ r) & 0x80 == 0
    ensures Feedback(Sum(c, Top(r))) == if Leaves(c, ch) then POLYNOMIAL else 0
  {
  }

  lemma TopLeft(r: bv8)
    ensures Top(r << 1) == Top(r) << 1
  {
  }

  lemma RoundShift(c: bv32, t: bv32)
    ensures (c << 1) ^ (t << 1) == ((c ^ t) << 1) ^ 0
    ensures (((c << 1) + 1) ^ 0x04c1_1db6) ^ (t << 1) == ((c ^ t) << 1) ^ POLYNOMIAL
  {
  }

  /** The byte's copy agrees with what is left of it in the bits of the mask, the only ones left. */
  predicate Agree(ch: bv8, r: bv8, mask: bv8) {
    (ch ^ r) & mask == 0 && r & !mask == 0
  }

  lemma RoundBits(ch: bv8, r: bv8, mask: bv8)
    requires Agree(ch, r, mask)
    ensures Agree(ch << 1, r << 1, mask << 1) && Agree((ch << 1) + 1, r << 1, mask << 1)
  {
  }

  /** The register's part of a round. */
  method CrcShift(crc: bv32, leaves: bool) returns (c: bv32)
    ensures c == Next(crc, leaves)
  {
    hide Left, PlusOne, Sum;
    c := Left(crc);
    if leaves {
      c := PlusOne(c);
    }
    if leaves {
      c := Sum(c, 0x04c1_1db6);
    }
  }

  /** The body of CRC_Byte's loop. */
  method CrcBit(crc: bv32, ch: bv8, bb3: bool) returns (c: bv32, b: bv8, out: bool)
    ensures c == Next(crc, Leaves(crc, ch))
    ensures b == ch << 1 || b == (ch << 1) + 1
  {
    hide Next;
    var temp := ((crc >> 24) & 0xff) as bv8;
    var temp2 := ch ^ temp;
    b := ch << 1;
    if bb3 {
      b := b + 1;
    }
    out := crc & 0x8000_0000 != 0;
    c := CrcShift(crc, temp2 & 0x80 != 0);
  }

  /** CRC_Byte. Whatever the loop shifts into the byte from the right is never looked at. */
  method CrcByte(crc: bv32, ch: bv8) returns (r: bv32)
    ensures r == Byte(crc, ch)
  {
    hide Shift, Sum, Top, Unused, Next, Leaves;
    ghost var start := Sum(crc, Top(ch));
    var c, b, bb3 := crc, ch, false;
    ghost var rest := ch;
    FirstBits(ch);
    for i := 0 to 8
      invariant Sum(c, Top(rest)) == Shifts(start, i)
      invariant Agree(b, rest, Unused(i))
    {
      OneRound(c, b, rest) by {
        UsedTop(i, b, rest);
      }
      RoundBits(b, rest, Unused(i));
      UnusedNext(i);
      hide Agree;
      c, b, bb3 := CrcBit(c, b, bb3);
      rest := rest << 1;
    }
    NothingLeft(c, b, rest);
    r := c;
  }

  lemma FirstBits(ch: bv8)
    ensures Agree(ch, ch, Unused(0))
  {
  }

  lemma UsedTop(i: nat, ch: bv8, r: bv8)
    requires i < 8 && Agree(ch, r, Unused(i))
    ensures (ch ^ r) & 0x80 == 0
  {
  }

  lemma UnusedNext(i: nat)
    requires i < 8
    ensures Unused(i + 1) == Unused(i) << 1
  {
  }

  lemma NothingLeft(c: bv32, ch: bv8, r: bv8)
    requires Agree(ch, r, Unused(8))
    ensures Sum(c, Top(r)) == c
  {
  }

  /** The bits of the byte that are still to be used in round i. */
  function Unused(i: nat): bv8
    requires i <= 8
  {
    if i == 0 then 0xff else if i == 1 then 0xfe else if i == 2 then 0xfc else if i == 3 then 0xf8
    else if i == 4 then 0xf0 else if i == 5 then 0xe0 else if i == 6 then 0xc0 else if i == 7 then 0x80 else 0
  }

  /** generate_CRC. */
  method GenerateCrc(point: array<bv8>, length: nat) returns (crc: bv32)
    requires length <= point.Length
    ensures crc == Crc(point[..length])
  {
    hide Byte;
    crc := INITIAL;
    assert point[0..length] == point[..length];
    for ii := 0 to length
      invariant Message(crc, point[ii..length]) == Crc(point[..length])
    {
      assert point[ii..length][1..] == point[ii + 1..length];
      crc := CrcByte(crc, point[ii]);
    }
  }

  // Linearity

  /** The register is linear. */
  lemma ShiftLinear(a: bv32, b: bv32)
    ensures Shift(Sum(a, b)) == Sum(Shift(a), Shift(b))
  {
    hide Shift;
    ShiftXor(a, b);
  }

  lemma ShiftXor(a: bv32, b: bv32)
    ensures Shift(a ^ b) == Shift(a) ^ Shift(b)
  {
    FeedbackXor(a, b);
    hide Feedback;
    XorShift(a, b);
    XorRegroups(a << 1, Feedback(a), b << 1, Feedback(b));
  }

  lemma FeedbackXor(a: bv32, b: bv32)
    ensures Feedback(a ^ b) == Feedback(a) ^ Feedback(b)
  {
  }

  lemma XorShift(a: bv32, b: bv32)
    ensures (a ^ b) << 1 == (a << 1) ^ (b << 1)
  {
  }

  lemma XorRegroups(p: bv32, q: bv32, r: bv32, s: bv32)
    ensures (p ^ q) ^ (r ^ s) == (p ^ r) ^ (q ^ s)
  {
  }

  lemma {:induction false} ShiftsLinear(a: bv32, b: bv32, n: nat)
    ensures Shifts(Sum(a, b), n) == Sum(Shifts(a, n), Shifts(b, n))
    decreases n
  {
    hide Shift, Sum;
    if n > 0 {
      ShiftsLinear(a, b, n - 1);
      ShiftLinear(Shifts(a, n - 1), Shifts(b, n - 1));
    }
  }

  /** A shift loses nothing: the polynomial's low bit records the bit that left. */
  lemma ShiftKernel(a: bv32)
    requires Shift(a) == 0
    ensures a == 0
  {
  }

  lemma SumBack(a: bv32, b: bv32)
    ensures Sum(Sum(a, b), b) == a
  {
    XorBack(a, b);
  }

  lemma XorBack(a: bv32, b: bv32)
    ensures (a ^ b) ^ b == a
  {
  }

  lemma ZeroSum(b: bv32)
    ensures Sum(0, b) == b
  {
  }

  lemma SumZero(a: bv32, b: bv32)
    ensures Sum(a, b) == 0 <==> a == b
  {
    hide Sum;
    SumBack(a, b);
    ZeroSum(b);
    SumSelf(a);
  }

  lemma SumSelf(c: bv32)
    ensures Sum(c, c) == 0
  {
  }

  lemma ShiftInjective(a: bv32, b: bv32)
    requires Shift(a) == Shift(b)
    ensures a == b
  {
    hide Shift, Sum;
    ShiftLinear(a, b);
    SumZero(Shift(a), Shift(b));
    ShiftKernel(Sum(a, b));
    SumZero(a, b);
  }

  lemma {:induction false} ShiftsInjective(a: bv32, b: bv32, n: nat)
    requires Shifts(a, n) == Shifts(b, n)
    ensures a == b
    decreases n
  {
    hide Shift;
    if n > 0 {
      ShiftInjective(Shifts(a, n - 1), Shifts(b, n - 1));
      ShiftsInjective(a, b, n - 1);
    }
  }

  function Lefts(y: bv32, n: nat): bv32
    decreases n
  {
    if n == 0 then y else Left(Lefts(y, n - 1))
  }

  /** While no bit leaves the register it is only shifted. */
  lemma {:induction false} ShiftsPlain(y: bv32, n: nat)
    requires forall i | 0 <= i < n :: Lefts(y, i) & 0x8000_0000 == 0
    ensures Shifts(y, n) == Lefts(y, n)
    decreases n
  {
    hide Shift, Left;
    if n > 0 {
      ShiftsPlain(y, n - 1);
      PlainShift(Lefts(y, n - 1));
    }
  }

  lemma PlainShift(y: bv32)
    requires y & 0x8000_0000 == 0
    ensures Shift(y) == Left(y)
  {
  }

  // Runs of bytes

  /** Eight shifts of a register whose top byte is zero. */
  lemma EightPlain(y: bv32)
    requires y & 0xff00_0000 == 0
    ensures Shifts(y, 8) == y << 8
  {
    forall i | 0 <= i < 8
      ensures Lefts(y, i) & 0x8000_0000 == 0
    {
      LeftsAre(y, i);
    }
    ShiftsPlain(y, 8);
    LeftsAre(y, 8);
  }

  lemma LeftsAre(y: bv32, n: nat)
    requires n <= 8 && y & 0xff00_0000 == 0
    ensures n < 8 ==> Lefts(y, n) & 0x8000_0000 == 0
    ensures n == 8 ==> Lefts(y, n) == y << 8
  {
    FewLefts(y);
    FewLefts(Lefts(y, 4));
    hide Left;
    assert Lefts(y, 1) == Left(y) && Lefts(y, 2) == Left(Lefts(y, 1)) && Lefts(y, 3) == Left(Lefts(y, 2));
    assert Lefts(y, 4) == Left(Lefts(y, 3)) && Lefts(y, 5) == Left(Lefts(y, 4)) && Lefts(y, 6) == Left(Lefts(y, 5));
    assert Lefts(y, 7) == Left(Lefts(y, 6)) && Lefts(y, 8) == Left(Lefts(y, 7));
    assert n == 0 || n == 1 || n == 2 || n == 3 || n == 4 || n == 5 || n == 6 || n == 7 || n == 8;
  }

  lemma FewLefts(y: bv32)
    ensures Left(y) == y << 1 && Left(Left(y)) == y << 2 && Left(Left(Left(y))) == y << 3 && Left(Left(Left(Left(y)))) == y << 4
  {
  }

  function Down(w: bv32): bv32 {
    w >> 8
  }

  /** Up to four bytes as the top of a register, the first one on top. */
  function Word(run: seq<bv8>): bv32 {
    if run == [] then 0 else Sum(Top(run[0]), Down(Word(run[1..])))
  }

  lemma {:induction false} WordLow(run: seq<bv8>)
    requires |run| <= 4
    ensures |run| <= 3 ==> Word(run) & 0xff == 0
    ensures |run| <= 2 ==> Word(run) & 0xffff == 0
    ensures |run| <= 1 ==> Word(run) & 0xff_ffff == 0
  {
    if run != [] {
      WordLow(run[1..]);
      WordParts(run[0], Word(run[1..]));
    }
  }

  lemma WordParts(b: bv8, w: bv32)
    ensures w & 0xffff == 0 ==> Sum(Top(b), Down(w)) & 0xff == 0
    ensures w & 0xff_ffff == 0 ==> Sum(Top(b), Down(w)) & 0xffff == 0
    ensures w == 0 ==> Sum(Top(b), Down(w)) & 0xff_ffff == 0
  {
  }

  /** The register after k bytes that are zero. */
  function Zeros(c: bv32, k: nat): bv32
    decreases k
  {
    if k == 0 then c else Zeros(Shifts(c, 8), k - 1)
  }

  lemma SumShuffle(s: bv32, t: bv32, w: bv32)
    ensures Sum(Sum(s, t), w) == Sum(s, Sum(t, w))
  {
    XorShuffle(s, t, w);
  }

  lemma XorShuffle(s: bv32, t: bv32, w: bv32)
    ensures (s ^ t) ^ w == s ^ (t ^ w)
  {
  }

  lemma ShiftedBack(w: bv32)
    requires w & 0xff == 0
    ensures Down(w) & 0xff00_0000 == 0 && Down(w) << 8 == w
  {
  }

  /** A byte entering, and then bytes that wait below it. */
  lemma OneByteEnters(s: bv32, b: bv8, w: bv32)
    requires w & 0xff == 0
    ensures Sum(Byte(s, b), w) == Shifts(Sum(s, Sum(Top(b), Down(w))), 8)
  {
    ShiftedBack(w);
    EightPlain(Down(w));
    ShiftsLinear(Sum(s, Top(b)), Down(w), 8);
    SumShuffle(s, Top(b), Down(w));
    hide Sum, Top, Shifts, Down;
  }

  /** Up to four bytes entering one by one are the same bytes entering together. */
  lemma {:induction false} EnterTogether(s: bv32, run: seq<bv8>)
    requires |run| <= 4
    ensures Message(s, run) == Zeros(Sum(s, Word(run)), |run|)
    decreases |run|
  {
    hide Sum, Top, Shifts, Byte, Down;
    if run == [] {
      SumZeroRight(s);
    } else {
      EnterTogether(Byte(s, run[0]), run[1..]);
      OneByteEnters(s, run[0], Word(run[1..])) by {
        WordLow(run[1..]);
      }
    }
  }

  lemma SumZeroRight(s: bv32)
    ensures Sum(s, 0) == s
  {
  }

  lemma {:induction false} ZerosInjective(a: bv32, b: bv32, k: nat)
    requires Zeros(a, k) == Zeros(b, k)
    ensures a == b
    decreases k
  {
    hide Shifts;
    if k > 0 {
      ZerosInjective(Shifts(a, 8), Shifts(b, 8), k - 1);
      ShiftsInjective(a, b, 8);
    }
  }

  lemma WordTop(a: bv8, b: bv8, v: bv32, w: bv32)
    requires v & 0xff == 0 && w & 0xff == 0 && Sum(Top(a), Down(v)) == Sum(Top(b), Down(w))
    ensures a == b && v == w
  {
  }

  lemma {:induction false} WordInjective(a: seq<bv8>, b: seq<bv8>)
    requires |a| == |b| <= 4 && Word(a) == Word(b)
    ensures a == b
    decreases |a|
  {
    hide Sum, Top, Down;
    if a != [] {
      WordLow(a[1..]);
      WordLow(b[1..]);
      WordTop(a[0], b[0], Word(a[1..]), Word(b[1..]));
      WordInjective(a[1..], b[1..]);
      assert a == [a[0]] + a[1..] && b == [b[0]] + b[1..];
    }
  }

  // What the check promises

  function BigEndian(c: bv32): seq<bv8> {
    [((c >> 24) & 0xff) as bv8, ((c >> 16) & 0xff) as bv8, ((c >> 8) & 0xff) as bv8, (c & 0xff) as bv8]
  }

  lemma {:induction false} MessageAppend(c: bv32, a: seq<bv8>, b: seq<bv8>)
    ensures Message(c, a + b) == Message(Message(c, a), b)
    decreases |a|
  {
    hide Byte;
    if a == [] {
      assert a + b == b;
    } else {
      MessageAppend(Byte(c, a[0]), a[1..], b);
      assert (a + b)[1..] == a[1..] + b;
    }
  }

  lemma WordBigEndian(c: bv32)
    ensures Word(BigEndian(c)) == c
  {
    var m := BigEndian(c);
    FourBytes(c, m[0], m[1], m[2], m[3]);
    WordOfFour(m[0], m[1], m[2], m[3]);
    hide Sum, Top, Word, Down;
  }

  lemma WordOfFour(b0: bv8, b1: bv8, b2: bv8, b3: bv8)
    ensures Word([b0, b1, b2, b3]) == Sum(Top(b0), Down(Sum(Top(b1), Down(Sum(Top(b2), Down(Sum(Top(b3), Down(0))))))))
  {
    hide Sum, Top, Down;
    assert [b0, b1, b2, b3][1..] == [b1, b2, b3];
    assert [b1, b2, b3][1..] == [b2, b3];
    assert [b2, b3][1..] == [b3];
    assert [b3][1..] == [];
    assert Word([b3]) == Sum(Top(b3), Down(0));
    assert Word([b2, b3]) == Sum(Top(b2), Down(Word([b3])));
    assert Word([b1, b2, b3]) == Sum(Top(b1), Down(Word([b2, b3])));
  }

  lemma FourBytes(c: bv32, b0: bv8, b1: bv8, b2: bv8, b3: bv8)
    requires [b0, b1, b2, b3] == BigEndian(c)
    ensures Sum(Top(b0), Down(Sum(Top(b1), Down(Sum(Top(b2), Down(Sum(Top(b3), Down(0)))))))) == c
  {
    var m := BigEndian(c);
    assert b0 == m[0] && b1 == m[1] && b2 == m[2] && b3 == m[3];
  }

  /** A message followed by its own check, most significant byte first, has check 0. */
  lemma CheckOfChecked(m: seq<bv8>)
    ensures Crc(m + BigEndian(Crc(m))) == 0
  {
    var c := Crc(m);
    MessageAppend(INITIAL, m, BigEndian(c));
    EnterTogether(c, BigEndian(c));
    WordBigEndian(c);
    SumSelf(c);
    ZerosOfZero(4);
  }

  lemma {:induction false} ZerosOfZero(k: nat)
    ensures Zeros(0, k) == 0
  {
    if k > 0 {
      EightPlain(0);
      ZerosOfZero(k - 1);
    }
  }

  lemma {:induction false} MessageInjective(a: bv32, b: bv32, m: seq<bv8>)
    requires Message(a, m) == Message(b, m)
    ensures a == b
    decreases |m|
  {
    if m != [] {
      MessageInjective(Byte(a, m[0]), Byte(b, m[0]), m[1..]);
      ShiftsInjective(Sum(a, Top(m[0])), Sum(b, Top(m[0])), 8);
      SumInjective(a, b, Top(m[0]));
    }
  }

  lemma SumInjective(a: bv32, b: bv32, t: bv32)
    requires Sum(a, t) == Sum(b, t) || Sum(t, a) == Sum(t, b)
    ensures a == b
  {
  }

  /** Replacing up to four consecutive bytes of a message that passes the check by different ones makes
      it fail. */
  lemma BurstDetected(before: seq<bv8>, sent: seq<bv8>, received: seq<bv8>, after: seq<bv8>)
    requires |sent| == |received| <= 4 && sent != received
    requires Crc(before + sent + after) == 0
    ensures Crc(before + received + after) != 0
  {
    var s := Message(INITIAL, before);
    MessageAppend(INITIAL, before, sent);
    MessageAppend(INITIAL, before, received);
    MessageAppend(INITIAL, before + sent, after);
    MessageAppend(INITIAL, before + received, after);
    if Crc(before + received + after) == 0 {
      MessageInjective(Message(s, sent), Message(s, received), after);
      EnterTogether(s, sent);
      EnterTogether(s, received);
      ZerosInjective(Sum(s, Word(sent)), Sum(s, Word(received)), |sent|);
      SumInjective(Word(sent), Word(received), s);
      WordInjective(sent, received);
    }
  }

  // Known values

  /** Eight shifts of the initial value. */
  lemma ZeroByteEnters()
    ensures Byte(0xffff_ffff, 0) == 0x4e08_bfb4
  {
    var c := Sum(0xffff_ffff, Top(0));
    assert c == 0xffff_ffff;
    assert Shifts(c, 1) == 0xfb3e_e249;
    assert Shifts(c, 2) == 0xf2bc_d925;
    assert Shifts(c, 3) == 0xe1b8_affd;
    assert Shifts(c, 4) == 0xc7b0_424d;
    assert Shifts(c, 5) == 0x8ba1_992d;
    assert Shifts(c, 6) == 0x1382_2fed;
    assert Shifts(c, 7) == 0x2704_5fda;
    assert Shifts(c, 8) == 0x4e08_bfb4;
  }

  /** The check of a single zero byte, and of no byte at all. */
  lemma CheckOfZero()
    ensures Crc([0]) == 0x4e08_bfb4 && Crc([]) == 0xffff_ffff
  {
    ZeroByteEnters();
    hide Byte;
    assert [0 as bv8][1..] == [];
  }

  /** The initial value makes a zero byte in front of a message count. */
  lemma LeadingZeroDetected(m: seq<bv8>)
    ensures Crc([0] + m) != Crc(m)
  {
    ZeroByteEnters();
    hide Byte;
    assert ([0 as bv8] + m)[1..] == m;
    if Crc([0] + m) == Crc(m) {
      MessageInjective(0x4e08_bfb4, INITIAL, m);
      assert false;
    }
  }
}
