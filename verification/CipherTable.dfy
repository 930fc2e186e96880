/** The substitution tables of the cipher: inverting one, and applying one with its rows moved. */
module CipherTable {
  import opened Bytes
  import opened RowMove

  /** A 16x16 table as it lies in memory: row and column are the high and low nibble of the index. */
  type Table = t: seq<byte> | |t| == 256 witness seq(256, _ => 0)

  ghost predicate Permutation(t: Table) {
    forall p, q | 0 <= p < q < 256 :: t[p] != t[q]
  }

  /** inv undoes t on the one side and on the other. */
  ghost predicate Inverse(t: Table, inv: Table) {
    forall p | 0 <= p < 256 :: inv[t[p]] == p && t[inv[p]] == p
  }

  // Pigeonhole

  lemma {:induction false} DistinctCount(t: seq<int>)
    requires forall p, q | 0 <= p < q < |t| :: t[p] != t[q]
    ensures |set x | x in t| == |t|
  {
    if t == [] {
      assert (set x | x in t) == {};
    } else {
      var rest := t[1..];
      DistinctCount(rest);
      assert t == [t[0]] + rest;
      assert (set x | x in t) == (set x | x in rest) + {t[0]};
    }
  }

  function Below(n: nat): (s: set<int>)
    ensures forall x :: x in s <==> 0 <= x < n
    ensures |s| == n
  {
    if n == 0 then {} else Below(n - 1) + {n - 1}
  }

  /** n different numbers below n are all the numbers below n. */
  lemma DistinctCovers(t: seq<int>, x: int)
    requires forall p | 0 <= p < |t| :: 0 <= t[p] < |t|
    requires forall p, q | 0 <= p < q < |t| :: t[p] != t[q]
    requires 0 <= x < |t|
    ensures x in t
  {
    var values := set y | y in t;
    DistinctCount(t);
    if x !in t {
      assert values <= Below(|t|) - {x};
      SubsetCount(values, Below(|t|) - {x});
    }
  }

  lemma SubsetCount(a: set<int>, b: set<int>)
    requires a <= b
    ensures |a| <= |b|
  {
    assert b == a + (b - a);
    assert |a + (b - a)| == |a| + |b - a|;
  }

  /** The inverse of a table is unique. */
  lemma InverseUnique(t: Table, inv: Table, inv': Table)
    requires Inverse(t, inv) && Inverse(t, inv')
    ensures inv == inv'
  {
    forall x | 0 <= x < 256
      ensures inv[x] == inv'[x]
    {
      assert inv[t[inv'[x]]] == inv'[x];
    }
  }

  /** char_replace_table_change: for any permutation every slot of temp is written and temp becomes the
      inverse of buff. */
  method CharReplaceTableChange(buff: array<byte>, temp: array<byte>)
    requires buff.Length == temp.Length == 256 && buff != temp
    requires Permutation(buff[..])
    modifies temp
    ensures Inverse(buff[..], temp[..])
  {
    for i := 0 to 16
      invariant forall q | 0 <= q < 16 * i :: temp[buff[q]] == q
    {
      for j := 0 to 16
        invariant forall q | 0 <= q < 16 * i + j :: temp[buff[q]] == q
      {
        var a: int, b: int := buff[16 * i + j] / 16, buff[16 * i + j] % 16;
        assert forall q | 0 <= q < 16 * i + j :: buff[..][q] != buff[..][16 * i + j];
        temp[16 * a + b] := 16 * i + j;
      }
    }
    forall x | 0 <= x < 256
      ensures buff[temp[x]] == x
    {
      var t: seq<int> := seq(256, p requires 0 <= p < 256 reads buff => buff[p]);
      assert forall p, q | 0 <= p < q < 256 :: buff[..][p] != buff[..][q];
      DistinctCovers(t, x);
      var p :| 0 <= p < 256 && t[p] == x;
      assert temp[buff[p]] == p;
    }
  }

  // The cipher's own table

  /** The high nibbles of the table's rows. */
  const ROW_NIBBLES: seq<nat> := [0xb, 0xc, 0xd, 0xe, 0x2, 0x3, 0x4, 0x5, 0x6, 0xf, 0x0, 0x1, 0x7, 0x8, 0x9, 0xa]

  const ROW_NIBBLES_BACK: seq<nat> := [0xa, 0xb, 0x4, 0x5, 0x6, 0x7, 0x8, 0xc, 0xd, 0xe, 0xf, 0x0, 0x1, 0x2, 0x3, 0x9]

  /** Row i, column j holds the row's nibble and then j. */
  function ByRows(nibbles: seq<nat>): (t: Table)
    requires |nibbles| == 16 && forall i | 0 <= i < 16 :: nibbles[i] < 16
    ensures forall p | 0 <= p < 256 :: t[p] == 16 * nibbles[p / 16] + p % 16
  {
    seq(256, p requires 0 <= p < 256 => 16 * nibbles[p / 16] + p % 16)
  }

  function Nibbles(mode: Mode): (s: seq<nat>)
    ensures |s| == 16 && forall i | 0 <= i < 16 :: s[i] < 16
  {
    if mode == 0 then ROW_NIBBLES else ROW_NIBBLES_BACK
  }

  function Base(mode: Mode): Table {
    ByRows(Nibbles(mode))
  }

  /** The rows of the encrypting table as they are compiled in. */
  lemma TableRows(p: nat)
    requires p < 256
    ensures var row, column := p / 16, p % 16;
            Base(0)[p] == column + (if row < 4 then 0xb0 + 16 * row else if row < 9 then 0x20 + 16 * (row - 4)
                                    else if row == 9 then 0xf0 else if row < 12 then 16 * (row - 10) else 0x70 + 16 * (row - 12))
  {
  }

  lemma NibblesInverse(i: nat)
    requires i < 16
    ensures Nibbles(1)[Nibbles(0)[i]] == i && Nibbles(0)[Nibbles(1)[i]] == i
  {
    BackThere(i);
    ThereBack(i);
  }

  lemma BackThere(i: nat)
    requires i < 16
    ensures Nibbles(1)[Nibbles(0)[i]] == i
  {
  }

  lemma ThereBack(i: nat)
    requires i < 16
    ensures Nibbles(0)[Nibbles(1)[i]] == i
  {
  }

  lemma BaseInverse()
    ensures Permutation(Base(0)) && Inverse(Base(0), Base(1))
  {
    hide Nibbles;
    forall p | 0 <= p < 256
      ensures Base(1)[Base(0)[p]] == p && Base(0)[Base(1)[p]] == p
    {
      NibblesInverse(p / 16);
    }
    hide Base;
    forall p, q | 0 <= p < q < 256
      ensures Base(0)[p] != Base(0)[q]
    {
      assert Base(1)[Base(0)[p]] == p && Base(1)[Base(0)[q]] == q;
    }
  }

  // Applying a table

  /** Bit by bit, (x and not k) or (not x and k), over the low n bits. */
  function Mix(x: nat, k: nat, n: nat): (r: nat)
    ensures x < Pow2(n) && k < Pow2(n) ==> r < Pow2(n)
    decreases n
  {
    if n == 0 then 0
    else
      var bit := if (x % 2 == 1 && k % 2 == 0) || (x % 2 == 0 && k % 2 == 1) then 1 else 0;
      bit + 2 * Mix(x / 2, k / 2, n - 1)
  }

  function Pow2(n: nat): (p: nat)
    ensures p > 0
  {
    if n == 0 then 1 else 2 * Pow2(n - 1)
  }

  function Xor(x: byte, k: byte): byte {
    assert Pow2(8) == 256;
    Mix(x, k, 8)
  }

  lemma {:induction false} MixTwice(x: nat, k: nat, n: nat)
    requires x < Pow2(n)
    ensures Mix(Mix(x, k, n), k, n) == x
    decreases n
  {
    if n > 0 {
      MixTwice(x / 2, k / 2, n - 1);
      assert Mix(x, k, n) / 2 == Mix(x / 2, k / 2, n - 1);
    }
  }

  lemma XorTwice(x: byte, k: byte)
    ensures Xor(Xor(x, k), k) == x
  {
    assert Pow2(8) == 256;
    MixTwice(x, k, 8);
  }

  /** Bit i of a number. */
  predicate BitAt(x: nat, i: nat) {
    if i == 0 then x % 2 == 1 else BitAt(x / 2, i - 1)
  }

  lemma {:induction false} MixBit(x: nat, k: nat, n: nat, i: nat)
    requires i < n
    ensures BitAt(Mix(x, k, n), i) <==> BitAt(x, i) != BitAt(k, i)
    decreases n
  {
    var m, rest := Mix(x, k, n), Mix(x / 2, k / 2, n - 1);
    assert m / 2 == rest && (m % 2 == 1 <==> (x % 2 == 1) != (k % 2 == 1));
    if i > 0 {
      MixBit(x / 2, k / 2, n - 1, i - 1);
    }
  }

  /** Every bit of the mix is set exactly where the bits of text and key differ. */
  lemma XorBits(x: byte, k: byte, i: nat)
    requires i < 8
    ensures BitAt(Xor(x, k), i) <==> (BitAt(x, i) && !BitAt(k, i)) || (!BitAt(x, i) && BitAt(k, i))
  {
    MixBit(x, k, 8, i);
  }

  /** A number of n bits is known by its bits. */
  lemma {:induction false} SameBits(x: nat, y: nat, n: nat)
    requires x < Pow2(n) && y < Pow2(n) && forall i | 0 <= i < n :: BitAt(x, i) <==> BitAt(y, i)
    ensures x == y
    decreases n
  {
    if n > 0 {
      assert BitAt(x, 0) <==> BitAt(y, 0);
      forall i | 0 <= i < n - 1
        ensures BitAt(x / 2, i) <==> BitAt(y / 2, i)
      {
        assert BitAt(x, i + 1) <==> BitAt(y, i + 1);
      }
      SameBits(x / 2, y / 2, n - 1);
    }
  }

  /** The bits decide the mix. */
  lemma XorIsTheOnly(x: byte, k: byte, r: byte)
    requires forall i | 0 <= i < 8 :: BitAt(r, i) <==> BitAt(x, i) != BitAt(k, i)
    ensures r == Xor(x, k)
  {
    hide Xor, BitAt;
    forall i | 0 <= i < 8
      ensures BitAt(r, i) <==> BitAt(Xor(x, k), i)
    {
      XorBits(x, k, i);
    }
    assert Pow2(8) == 256;
    SameBits(r, Xor(x, k), 8);
  }

  /** An odd number of key bytes have bit i set. */
  predicate OddAt(key: seq<byte>, i: nat) {
    Ones(key, i) % 2 == 1
  }

  function Ones(key: seq<byte>, i: nat): nat {
    if key == [] then 0 else Ones(key[..|key| - 1], i) + if BitAt(key[|key| - 1], i) then 1 else 0
  }

  /** The exclusive-or of all key bytes. */
  function Fold(key: seq<byte>): byte {
    if key == [] then 0 else Xor(Fold(key[..|key| - 1]), key[|key| - 1])
  }

  lemma {:induction false} FoldBits(key: seq<byte>, i: nat)
    requires i < 8
    ensures BitAt(Fold(key), i) <==> OddAt(key, i)
    decreases |key|
  {
    hide BitAt, Xor;
    if key == [] {
      ZeroBits(i);
    } else {
      FoldBits(key[..|key| - 1], i);
      XorBits(Fold(key[..|key| - 1]), key[|key| - 1], i);
    }
  }

  lemma {:induction false} ZeroBits(i: nat)
    ensures !BitAt(0, i)
  {
    if i > 0 {
      ZeroBits(i - 1);
    }
  }

  /** The byte that moves the rows of the table: byte 4 of the key's copy, which is replaced by the fold of
      the key, or left 0 if the key is too short to reach it. */
  function TableKey(key: seq<byte>): byte {
    if |key| > 4 then Fold(key) else 0
  }

  /** The slot of the table that ends up in slot p when the columns of each row are moved. */
  function Slot(k: byte, mode: Mode, p: nat): (q: nat)
    requires p < 256
    ensures q < 256
  {
    hide From;
    16 * (p / 16) + From(k, mode, p % 16)
  }

  /** One byte through the table with the columns of each row moved. */
  function Substitute(t: Table, k: byte, mode: Mode, x: byte): byte {
    hide Slot;
    t[Slot(k, mode, x)]
  }

  lemma SubstituteIs(t: Table, k: byte, mode: Mode, x: byte)
    ensures Substitute(t, k, mode, x) == t[Slot(k, mode, x)]
  {
    hide Slot;
  }

  /** The type-1 substitution undoes the type-0 one, and the other way round: the table only changes the
      high nibble, moving the rows only the low one. */
  lemma SubstituteInverse(k: byte, x: byte)
    ensures Substitute(Base(1), k, 1, Substitute(Base(0), k, 0, x)) == x
    ensures Substitute(Base(0), k, 0, Substitute(Base(1), k, 1, x)) == x
  {
    hide From, Nibbles;
    SubstituteBack(k, 0, 1, x);
    SubstituteBack(k, 1, 0, x);
  }

  lemma SubstituteBack(k: byte, there: Mode, back: Mode, x: byte)
    requires there + back == 1
    ensures Substitute(Base(back), k, back, Substitute(Base(there), k, there, x)) == x
  {
    hide From, Nibbles, Base, Substitute;
    var hi: int, lo: int := x / 16, x % 16;
    FromInverse(k, lo);
    NibblesInverse(hi);
    SubstituteParts(k, there, hi, lo);
    SubstituteParts(k, back, Nibbles(there)[hi], From(k, there, lo));
  }

  /** A byte through the cipher's table, nibble by nibble. */
  lemma SubstituteParts(k: byte, mode: Mode, hi: nat, lo: nat)
    requires hi < 16 && lo < 16
    ensures Substitute(Base(mode), k, mode, 16 * hi + lo) == 16 * Nibbles(mode)[hi] + From(k, mode, lo)
  {
    hide From, Nibbles;
    assert (16 * hi + lo) / 16 == hi && (16 * hi + lo) % 16 == lo;
    var q := 16 * hi + From(k, mode, lo);
    assert q / 16 == hi && q % 16 == From(k, mode, lo);
  }

  lemma TableKeyBits(key: seq<byte>)
    ensures forall i | 0 <= i < 8 :: BitAt(TableKey(key), i) <==> |key| > 4 && OddAt(key, i)
  {
    hide BitAt, OddAt;
    forall i | 0 <= i < 8
      ensures BitAt(TableKey(key), i) <==> |key| > 4 && OddAt(key, i)
    {
      FoldBits(key, i);
      ZeroBits(i);
    }
  }

  /** The private copy of the key that moves the table's rows. */
  method FoldedKey(key: array<byte>, keyLen: nat) returns (keyy: array<byte>)
    requires keyLen <= key.Length
    ensures fresh(keyy) && keyy.Length == 100 && keyy[4] == TableKey(key[..keyLen])
    ensures forall i | 0 <= i < 8 :: BitAt(keyy[4], i) <==> keyLen > 4 && OddAt(key[..keyLen], i)
  {
    keyy := new byte[100](_ => 0);
    var copied := if keyLen > 100 then 100 else keyLen;
    for i := 0 to copied
      invariant forall p | copied <= p < 100 :: keyy[p] == 0
    {
      keyy[i] := key[i];
    }
    var reg: byte := 0;
    for j := 0 to keyLen
      invariant reg == Fold(key[..j])
    {
      assert key[..j + 1][..j] == key[..j];
      reg := Xor(reg, key[j]);
    }
    if keyLen > 4 {
      keyy[4] := reg;
    }
    assert key[..keyLen] == key[..][..keyLen];
    TableKeyBits(key[..keyLen]);
  }

  /** One row of the table, taken as a 4x4 block, with its rows moved. */
  method MoveTableRow(keyy: array<byte>, buff: array<byte>, i: nat, moved: array<byte>, mode: Mode)
    requires keyy.Length == 100 && buff.Length == moved.Length == 256 && i < 16
    requires moved != keyy && moved != buff
    modifies moved
    ensures forall p | 0 <= p < 256 ::
              moved[p] == if p / 16 == i then buff[Slot(keyy[4], mode, p)] else old(moved[p])
  {
    hide From;
    var buf, buf1 := new byte[16], new byte[16];
    for q := 0 to 16
      invariant moved[..] == old(moved[..])
      invariant forall r | 0 <= r < q :: buf[r] == buff[16 * i + r]
    {
      buf[q] := buff[16 * i + q];
    }
    EncryptLineMove(keyy, buf, buf1, mode);
    ghost var after := buf1[..];
    assert forall q | 0 <= q < 16 :: after[q] == buff[16 * i + From(keyy[4], mode, q)];
    for q := 0 to 16
      invariant buf1[..] == after
      invariant forall p | 0 <= p < 256 ::
                  moved[p] == if p / 16 == i && p % 16 < q then buff[Slot(keyy[4], mode, p)] else old(moved[p])
    {
      assert (16 * i + q) / 16 == i && (16 * i + q) % 16 == q;
      assert Slot(keyy[4], mode, 16 * i + q) == 16 * i + From(keyy[4], mode, q);
      moved[16 * i + q] := buf1[q];
    }
  }

  /** encrypt_change: each byte of temp through the table, rows moved by the fold of the key. */
  method EncryptChange(key: array<byte>, keyLen: nat, temp: array<byte>, buffer: array<byte>, len: nat, buff: array<byte>, mode: Mode)
    requires keyLen <= key.Length && len <= temp.Length && len <= buffer.Length && buff.Length == 256
    requires buffer != temp && buffer != key && buffer != buff
    modifies buffer
    ensures forall p | 0 <= p < len ::
              buffer[p] == Substitute(buff[..], TableKey(key[..keyLen]), mode, temp[p])
    ensures forall p | len <= p < buffer.Length :: buffer[p] == old(buffer[p])
  {
    hide Slot, Substitute, TableKey;
    var keyy := FoldedKey(key, keyLen);
    ghost var k := TableKey(key[..keyLen]);
    var buff1 := new byte[256];
    for i := 0 to 16
      invariant keyy[4] == k && buffer[..] == old(buffer[..])
      invariant forall p | 0 <= p < 16 * i :: buff1[p] == buff[Slot(k, mode, p)]
    {
      MoveTableRow(keyy, buff, i, buff1, mode);
    }
    for i := 0 to len
      invariant forall p | 0 <= p < 256 :: buff1[p] == buff[Slot(k, mode, p)]
      invariant forall p | 0 <= p < i :: buffer[p] == Substitute(buff[..], k, mode, temp[p])
      invariant forall p | i <= p < buffer.Length :: buffer[p] == old(buffer[p])
    {
      var hi: int, lo: int := temp[i] / 16, temp[i] % 16;
      assert 16 * hi + lo == temp[i];
      SubstituteIs(buff[..], k, mode, temp[i]);
      buffer[i] := buff1[16 * hi + lo];
    }
  }
}
