/** What otp_encrypt and otp_encrypt_buf compute, byte by byte, and that decryption undoes encryption. */
module Cipher {
  import opened Bytes
  import opened RowMove
  import opened CipherTable

  /** A key of keyLen bytes; byte 4 of its memory is read even when the key is shorter. */
  datatype Key = Key(memory: seq<byte>, keyLen: nat) {
    predicate Readable() {
      |memory| >= 5 && keyLen <= |memory|
    }

    function Folded(): byte
      requires Readable()
    {
      TableKey(memory[..keyLen])
    }
  }

  /** The block and the place in it. */
  lemma BlockOf(block: nat, q: nat)
    requires q < 16
    ensures (16 * block + q) / 16 == block && (16 * block + q) % 16 == q
  {
  }

  lemma Columns(block: nat, q: nat)
    ensures (16 * block + q) % 4 == q % 4
  {
    assert 16 * block + q == 4 * (4 * block) + q;
  }

  /** The place in p's 16-byte block that is f bytes into it. */
  function InBlock(p: nat, f: nat): (q: nat)
    requires f < 16 && f % 4 == p % 16 % 4
    ensures q < 16 * (p / 16) + 16 && q / 16 == p / 16 && q % 16 == f && q % 4 == p % 4
  {
    Columns(p / 16, f);
    Columns(p / 16, p % 16);
    16 * (p / 16) + f
  }

  /** Where the byte at place p of an n-byte text comes from: rows move inside each 16-byte block, except
      that a short last block stays as it is. */
  function Origin(k: byte, mode: Mode, n: nat, p: nat): (q: nat)
    requires p < n
    ensures q < n && q % 4 == p % 4
  {
    hide From;
    if n - 16 * (p / 16) >= 16 then InBlock(p, From(k, mode, p % 16)) else p
  }

  function Byte(key: Key, mode: Mode, s: seq<byte>, p: nat): byte
    requires key.Readable() && p < |s|
  {
    hide Origin, Substitute;
    var x := s[Origin(key.memory[4], mode, |s|, p)];
    if mode == 0 then Substitute(Base(0), key.Folded(), 0, Xor(x, key.memory[p % 4]))
    else Xor(Substitute(Base(1), key.Folded(), 1, x), key.memory[p % 4])
  }

  /** The whole text, encrypted (mode 0) or decrypted (mode 1). */
  function Crypt(key: Key, mode: Mode, s: seq<byte>): (r: seq<byte>)
    requires key.Readable()
    ensures |r| == |s|
  {
    seq(|s|, p requires 0 <= p < |s| => Byte(key, mode, s, p))
  }

  lemma OriginInverse(k: byte, n: nat, p: nat)
    requires p < n
    ensures Origin(k, 0, n, Origin(k, 1, n, p)) == p
    ensures Origin(k, 1, n, Origin(k, 0, n, p)) == p
  {
    hide From;
    FromInverse(k, p % 16);
  }

  /** Decryption undoes encryption and encryption undoes decryption, for every key and every text. */
  lemma RoundTrip(key: Key, s: seq<byte>)
    requires key.Readable()
    ensures Crypt(key, 1, Crypt(key, 0, s)) == s
    ensures Crypt(key, 0, Crypt(key, 1, s)) == s
  {
    hide Origin, Substitute, Base, Xor, TableKey;
    var k, t := key.memory[4], key.Folded();
    forall p | 0 <= p < |s|
      ensures Crypt(key, 1, Crypt(key, 0, s))[p] == s[p]
      ensures Crypt(key, 0, Crypt(key, 1, s))[p] == s[p]
    {
      OriginInverse(k, |s|, p);
      var q0, q1 := Origin(k, 0, |s|, p), Origin(k, 1, |s|, p);
      XorTwice(s[p], key.memory[p % 4]);
      SubstituteInverse(t, Xor(s[p], key.memory[p % 4]));
      SubstituteInverse(t, s[p]);
      XorTwice(Substitute(Base(1), t, 1, s[p]), key.memory[p % 4]);
      assert Crypt(key, 0, s)[q1] == Substitute(Base(0), t, 0, Xor(s[p], key.memory[p % 4]));
      assert Crypt(key, 1, s)[q0] == Xor(Substitute(Base(1), t, 1, s[p]), key.memory[p % 4]);
    }
  }

  /** A part of a text that starts at a multiple of 16 and is either the rest of the text or a multiple of
      16 long is encrypted on its own as it is within the text. */
  lemma PartOfText(key: Key, mode: Mode, s: seq<byte>, from: nat, to: nat)
    requires key.Readable() && from <= to <= |s|
    requires from % 16 == 0 && (to == |s| || to % 16 == 0)
    ensures Crypt(key, mode, s[from..to]) == Crypt(key, mode, s)[from..to]
  {
    hide Origin, Byte;
    var part := s[from..to];
    forall p | 0 <= p < |part|
      ensures Crypt(key, mode, part)[p] == Crypt(key, mode, s)[from + p]
    {
      SameByte(key, mode, s, from, to, p);
    }
  }

  lemma SameByte(key: Key, mode: Mode, s: seq<byte>, from: nat, to: nat, p: nat)
    requires key.Readable() && from + p < to <= |s|
    requires from % 16 == 0 && (to == |s| || to % 16 == 0)
    ensures Byte(key, mode, s[from..to], p) == Byte(key, mode, s, from + p)
  {
    hide Origin, Substitute, Base, Xor, TableKey;
    SameOrigin(key.memory[4], mode, |s|, from, to, p);
    Columns(from / 16, p);
  }

  lemma SameOrigin(k: byte, mode: Mode, n: nat, from: nat, to: nat, p: nat)
    requires from + p < to <= n && from % 16 == 0 && (to == n || to % 16 == 0)
    ensures Origin(k, mode, n, from + p) == from + Origin(k, mode, to - from, p)
  {
    hide From;
    var b, c, q := from / 16, p / 16, p % 16;
    assert from == 16 * b && p == 16 * c + q && from + p == 16 * (b + c) + q;
    BlockOf(b + c, q);
    SameShortness(n, from, to, p);
    var f := From(k, mode, q);
    assert Origin(k, mode, n, from + p) == if n - 16 * (b + c) >= 16 then 16 * (b + c) + f else from + p;
  }

  /** A block that is short in the part is the short last block of the text. */
  lemma SameShortness(n: nat, from: nat, to: nat, p: nat)
    requires from + p < to <= n && from % 16 == 0 && (to == n || to % 16 == 0)
    ensures n - (from + 16 * (p / 16)) >= 16 <==> (to - from) - 16 * (p / 16) >= 16
  {
    if to != n {
      var c, d := p / 16, (to - from) / 16;
      assert to - from == 16 * d;
      assert 16 * c <= p < 16 * d;
    }
  }

  // The cipher block by block

  /** The first four key bytes mixed into a text, column by column. */
  function WithKey(key: Key, s: seq<byte>): (r: seq<byte>)
    requires key.Readable()
    ensures |r| == |s|
  {
    hide Xor;
    seq(|s|, p requires 0 <= p < |s| => Xor(s[p], key.memory[p % 4]))
  }

  /** A text through the table, its rows moved by the fold of the key. */
  function Substituted(key: Key, mode: Mode, s: seq<byte>): (r: seq<byte>)
    requires key.Readable()
    ensures |r| == |s|
  {
    hide Substitute, Base;
    seq(|s|, p requires 0 <= p < |s| => Substitute(Base(mode), key.Folded(), mode, s[p]))
  }

  /** A whole block: mixed with the key, rows moved, substituted; and the same backwards to decrypt. */
  lemma OneBlock(key: Key, s: seq<byte>)
    requires key.Readable() && |s| == 16
    ensures Crypt(key, 0, s) == Substituted(key, 0, Moved(key.memory[4], 0, WithKey(key, s)))
    ensures Crypt(key, 1, s) == Moved(key.memory[4], 1, WithKey(key, Substituted(key, 1, s)))
  {
    hide From, Xor, Substitute, Base, TableKey;
    forall p | 0 <= p < 16
      ensures Crypt(key, 0, s)[p] == Substituted(key, 0, Moved(key.memory[4], 0, WithKey(key, s)))[p]
      ensures Crypt(key, 1, s)[p] == Moved(key.memory[4], 1, WithKey(key, Substituted(key, 1, s)))[p]
    {
      WholeBlock(key.memory[4], 0, p);
      WholeBlock(key.memory[4], 1, p);
      hide Origin;
    }
  }

  lemma WholeBlock(k: byte, mode: Mode, p: nat)
    requires p < 16
    ensures Origin(k, mode, 16, p) == From(k, mode, p)
  {
    hide From;
    BlockOf(0, p);
  }

  /** A text shorter than a block: mixed and substituted, but not moved. */
  lemma ShortText(key: Key, s: seq<byte>)
    requires key.Readable() && |s| < 16
    ensures Crypt(key, 0, s) == Substituted(key, 0, WithKey(key, s))
    ensures Crypt(key, 1, s) == WithKey(key, Substituted(key, 1, s))
  {
    hide From, Xor, Substitute, Base, TableKey;
  }

  lemma PlainRows()
    ensures Rows(0, 0) == [0, 1, 2, 3] && Rows(0x10, 0) == [1, 0, 2, 3]
  {
  }

  lemma PlainPlace(q: nat)
    requires q < 16
    ensures From(0, 0, q) == q
    ensures From(0x10, 0, q) == if q < 4 then q + 4 else if q < 8 then q - 4 else q
  {
    PlainRows();
    hide Rows;
  }

  lemma ShortKeyFoldsToZero(key: Key)
    requires key.Readable() && key.keyLen <= 4
    ensures key.Folded() == 0
  {
    hide Fold;
  }

  lemma FirstNibble()
    ensures Nibbles(0)[0] == 0xb
  {
  }

  lemma PlainSubstitute(key: Key, x: byte)
    requires key.Readable() && key.keyLen <= 4 && x < 16
    ensures Substitute(Base(0), key.Folded(), 0, x) == 0xb0 + x
  {
    hide Substitute, Base, TableKey, From, Nibbles;
    ShortKeyFoldsToZero(key);
    SubstituteParts(0, 0, 0, x);
    PlainPlace(x);
    FirstNibble();
  }

  lemma XorZero(x: byte)
    ensures Xor(x, 0) == x && Xor(0, x) == x
  {
    hide Xor, BitAt;
    forall i | 0 <= i < 8
      ensures !BitAt(0, i)
    {
      ZeroBits(i);
    }
    XorIsTheOnly(x, 0, x);
    XorIsTheOnly(0, x, x);
  }

  /** Bytes below 16 through the table, for a key of at most four bytes. */
  lemma PlainTable(key: Key, s: seq<byte>)
    requires key.Readable() && key.keyLen <= 4 && forall p | 0 <= p < |s| :: s[p] < 16
    ensures forall p | 0 <= p < |s| :: Substituted(key, 0, s)[p] == 0xb0 + s[p]
  {
    hide Substitute, Base, TableKey;
    forall p | 0 <= p < |s|
      ensures Substituted(key, 0, s)[p] == 0xb0 + s[p]
    {
      PlainSubstitute(key, s[p]);
    }
  }

  lemma MixedIntoZeros(key: Key, zeros: seq<byte>)
    requires key.Readable() && forall p | 0 <= p < |zeros| :: zeros[p] == 0
    ensures forall p | 0 <= p < |zeros| :: WithKey(key, zeros)[p] == key.memory[p % 4]
  {
    hide Xor;
    forall p | 0 <= p < |zeros|
      ensures WithKey(key, zeros)[p] == key.memory[p % 4]
    {
      XorZero(key.memory[p % 4]);
    }
  }

  lemma ZerosMixedIn(key: Key, s: seq<byte>)
    requires key.Readable() && forall i | 0 <= i < 4 :: key.memory[i] == 0
    ensures WithKey(key, s) == s
  {
    hide Xor;
    forall p | 0 <= p < |s|
      ensures WithKey(key, s)[p] == s[p]
    {
      XorZero(s[p]);
    }
  }

  /** A short text of zeros, encrypted with at most four key bytes below 16: 0xb0 plus the key byte of the
      column. */
  lemma KnownShortText(key: Key, zeros: seq<byte>)
    requires key.Readable() && key.keyLen <= 4 && forall i | 0 <= i < 4 :: key.memory[i] < 16
    requires |zeros| < 16 && forall p | 0 <= p < |zeros| :: zeros[p] == 0
    ensures forall p | 0 <= p < |zeros| :: Crypt(key, 0, zeros)[p] == 0xb0 + key.memory[p % 4]
  {
    hide Crypt, WithKey, Substituted;
    ShortText(key, zeros);
    MixedIntoZeros(key, zeros);
    PlainTable(key, WithKey(key, zeros));
  }

  lemma SwappedRows(text: seq<byte>)
    requires |text| == 16
    ensures Moved(0x10, 0, text) == text[4..8] + text[..4] + text[8..]
  {
    hide From;
    forall q | 0 <= q < 16
      ensures Moved(0x10, 0, text)[q] == (text[4..8] + text[..4] + text[8..])[q]
    {
      PlainPlace(q);
    }
  }

  /** A block of bytes below 16, encrypted with a key that mixes in zeros and swaps the first two rows. */
  lemma KnownBlock(key: Key, text: seq<byte>)
    requires key.Readable() && key.keyLen <= 4
    requires key.memory[4] == 0x10 && forall i | 0 <= i < 4 :: key.memory[i] == 0
    requires |text| == 16 && forall p | 0 <= p < 16 :: text[p] < 16
    ensures forall p | 0 <= p < 16 :: Crypt(key, 0, text)[p] == 0xb0 + (text[4..8] + text[..4] + text[8..])[p]
  {
    hide Crypt, WithKey, Substituted, Moved;
    OneBlock(key, text);
    ZerosMixedIn(key, text);
    SwappedRows(text);
    PlainTable(key, Moved(0x10, 0, text));
  }
}
