/** otp_encrypt_buf: the cipher on a text held in memory. */
module OtpBuffer {
  import opened Bytes
  import opened RowMove
  import opened CipherTable
  import opened Cipher

  /** S_Z_1MB, a multiple of the block size. */
  const PAGE := 0x10_0000

  function KeyOf(key: array<byte>, keyLen: nat): Key
    reads key
  {
    Key(key[..], keyLen)
  }

  /** The 16-byte blocks that a text of n bytes touches; an empty text still touches one. */
  function Touched(n: nat): (m: nat)
    ensures n <= m && m % 16 == 0 && 16 <= m < n + 17
  {
    if n == 0 then 16 else (n + 15) / 16 * 16
  }

  /** One block of the text with the first four key bytes mixed into its rows. */
  method MixBlock(src: array<byte>, start: nat, key: array<byte>, buf: array<byte>)
    requires start + 16 <= src.Length && key.Length >= 5 && buf.Length == 16 && buf != src && buf != key
    modifies buf
    ensures forall q | 0 <= q < 16 :: buf[q] == Xor(src[start + q], key[q % 4])
  {
    hide Xor;
    for i := 0 to 4
      invariant forall q | 0 <= q < 4 * i :: buf[q] == Xor(src[start + q], key[q % 4])
    {
      for j := 0 to 4
        invariant forall q | 0 <= q < 4 * i + j :: buf[q] == Xor(src[start + q], key[q % 4])
      {
        assert (4 * i + j) % 4 == j;
        buf[4 * i + j] := Xor(src[start + j + 4 * i], key[j]);
      }
    }
  }

  /** memcpy of 16 bytes. */
  method CopyBlock(dst: array<byte>, start: nat, src: array<byte>)
    requires start + 16 <= dst.Length && src.Length == 16 && dst != src
    modifies dst
    ensures forall p | 0 <= p < dst.Length :: dst[p] == if start <= p < start + 16 then src[p - start] else old(dst[p])
  {
    for q := 0 to 16
      invariant forall p | 0 <= p < dst.Length :: dst[p] == if start <= p < start + q then src[p - start] else old(dst[p])
    {
      dst[start + q] := src[q];
    }
  }

  /** What the block loop leaves at place p: the byte of its origin with the key byte of its column. */
  function Mixed(key: Key, mode: Mode, src: seq<byte>, n: nat, p: nat): byte
    requires key.Readable() && p < n <= |src|
  {
    hide Origin, Xor;
    Xor(src[Origin(key.memory[4], mode, n, p)], key.memory[p % 4])
  }

  /** A moved block is made of the bytes of its places' origins; a short last block is not moved. */
  lemma BlockIsMixed(key: Key, mode: Mode, src: seq<byte>, n: nat, start: nat, buf: seq<byte>, buffer: seq<byte>)
    requires key.Readable() && n <= |src| && start % 16 == 0 && start + 16 <= |src|
    requires |buf| == 16 && forall q | 0 <= q < 16 && start + q < n :: buf[q] == Xor(src[start + q], key.memory[q % 4])
    requires buffer == Moved(key.memory[4], mode, buf)
    ensures var kept := if (n - start) / 16 == 0 then buf else buffer;
            forall p | start <= p < start + 16 && p < n :: kept[p - start] == Mixed(key, mode, src, n, p)
  {
    hide Mixed;
    forall p | start <= p < start + 16 && p < n
      ensures (if (n - start) / 16 == 0 then buf else buffer)[p - start] == Mixed(key, mode, src, n, p)
    {
      PlaceIsMixed(key, mode, src, n, start, buf, p);
    }
  }

  lemma OriginIs(k: byte, mode: Mode, n: nat, block: nat, q: nat)
    requires q < 16 && 16 * block + q < n
    ensures Origin(k, mode, n, 16 * block + q) == 16 * block + if n - 16 * block >= 16 then From(k, mode, q) else q
  {
    hide From;
    BlockOf(block, q);
  }

  lemma PlaceIsMixed(key: Key, mode: Mode, src: seq<byte>, n: nat, start: nat, buf: seq<byte>, p: nat)
    requires key.Readable() && n <= |src| && start % 16 == 0 && start + 16 <= |src|
    requires |buf| == 16 && forall q | 0 <= q < 16 && start + q < n :: buf[q] == Xor(src[start + q], key.memory[q % 4])
    requires start <= p < start + 16 && p < n
    ensures (if (n - start) / 16 == 0 then buf else Moved(key.memory[4], mode, buf))[p - start] == Mixed(key, mode, src, n, p)
  {
    hide Xor, From, Origin, Moved;
    var block, q, k := start / 16, p - start, key.memory[4];
    assert start == 16 * block;
    BlockOf(block, q);
    Columns(block, q);
    OriginIs(k, mode, n, block, q);
    if n - start >= 16 {
      var f := From(k, mode, q);
      Columns(block, f);
      MovedAt(k, mode, buf, q);
      assert buf[f] == Xor(src[start + f], key.memory[f % 4]);
    }
  }

  lemma MovedAt(k: byte, mode: Mode, block: seq<byte>, q: nat)
    requires |block| == 16 && q < 16
    ensures Moved(k, mode, block)[q] == block[From(k, mode, q)]
  {
    hide From;
  }

  /** The block loop over a text of n bytes. */
  method MixText(src: array<byte>, n: nat, key: array<byte>, keyLen: nat, rcvBuf: array<byte>, mode: Mode)
    requires Touched(n) <= src.Length && Touched(n) <= rcvBuf.Length
    requires key.Length >= 5 && keyLen <= key.Length && rcvBuf != src && rcvBuf != key
    modifies rcvBuf
    ensures forall p | 0 <= p < n :: rcvBuf[p] == Mixed(KeyOf(key, keyLen), mode, src[..], n, p)
  {
    hide Mixed, Moved, Xor;
    var k := 0;
    var buf, buffer := new byte[16], new byte[16];
    while true
      invariant 0 <= 16 * k < Touched(n)
      invariant forall p | 0 <= p < n && p < 16 * k :: rcvBuf[p] == Mixed(KeyOf(key, keyLen), mode, src[..], n, p)
      decreases Touched(n) - 16 * k
    {
      ghost var done := rcvBuf[..];
      MixBlock(src, 16 * k, key, buf);
      EncryptLineMove(key, buf, buffer, mode);
      BlockIsMixed(KeyOf(key, keyLen), mode, src[..], n, 16 * k, buf[..], buffer[..]);
      if (n - 16 * k) / 16 == 0 {
        CopyBlock(rcvBuf, 16 * k, buf);
      } else {
        CopyBlock(rcvBuf, 16 * k, buffer);
      }
      assert forall p | 0 <= p < 16 * k :: rcvBuf[p] == done[p];
      k := k + 1;
      if 16 * k >= n {
        break;
      }
    }
  }

  /** The table as it is compiled into the function. */
  method NewTable() returns (buff: array<byte>)
    ensures fresh(buff) && buff.Length == 256 && buff[..] == Base(0)
  {
    hide Base;
    var table := Base(0);
    buff := new byte[256](p requires 0 <= p < 256 => table[p]);
  }

  /** otp_encrypt_buf, for texts shorter than a page: type 0 encrypts, type 1 decrypts. The output may lie over
      the input. */
  method OtpEncryptBuf(fileFrom: array<byte>, inputLen: nat, toFile: array<byte>, key: array<byte>, keyLen: nat, mode: Mode)
    requires inputLen < PAGE && inputLen <= toFile.Length && Touched(inputLen) <= fileFrom.Length
    requires key.Length >= 5 && keyLen <= key.Length
    modifies toFile
    ensures toFile[..inputLen] == old(Crypt(KeyOf(key, keyLen), mode, fileFrom[..inputLen]))
    ensures toFile[inputLen..] == old(toFile[inputLen..])
  {
    hide Mixed, Substitute, Base, TableKey, Touched;
    ghost var theKey := KeyOf(key, keyLen);
    ghost var text := fileFrom[..inputLen];
    var buff := NewTable();
    BaseInverse();
    var temp := new byte[PAGE + 100](_ => 0);
    var temp11 := new byte[PAGE + 100](_ => 0);
    var rcvBuf := new byte[PAGE + 100](_ => 0);
    TouchedFits(inputLen);
    if mode == 1 {
      var buff1 := new byte[256];
      CharReplaceTableChange(buff, buff1);
      InverseUnique(Base(0), Base(1), buff1[..]);
      EncryptChange(key, keyLen, fileFrom, temp11, inputLen, buff1, mode);
      MixText(temp11, inputLen, key, keyLen, rcvBuf, mode);
      DecryptedText(theKey, text, temp11[..], rcvBuf[..]);
      CopyText(toFile, rcvBuf, inputLen);
    } else {
      MixText(fileFrom, inputLen, key, keyLen, rcvBuf, mode);
      EncryptChange(key, keyLen, rcvBuf, temp, inputLen, buff, mode);
      EncryptedText(theKey, text, fileFrom[..], rcvBuf[..], temp[..]);
      CopyText(toFile, temp, inputLen);
    }
  }

  lemma TouchedFits(n: nat)
    requires n <= PAGE
    ensures Touched(n) <= PAGE + 100
  {
  }

  lemma DecryptedText(key: Key, text: seq<byte>, substituted: seq<byte>, mixed: seq<byte>)
    requires key.Readable() && |text| <= |substituted| && |text| <= |mixed|
    requires forall p | 0 <= p < |text| :: substituted[p] == Substitute(Base(1), key.Folded(), 1, text[p])
    requires forall p | 0 <= p < |text| :: mixed[p] == Mixed(key, 1, substituted, |text|, p)
    ensures mixed[..|text|] == Crypt(key, 1, text)
  {
    hide Origin, Xor, Substitute, Base, TableKey;
  }

  lemma EncryptedText(key: Key, text: seq<byte>, src: seq<byte>, mixed: seq<byte>, substituted: seq<byte>)
    requires key.Readable() && text <= src && |text| <= |substituted| && |text| <= |mixed|
    requires forall p | 0 <= p < |text| :: mixed[p] == Mixed(key, 0, src, |text|, p)
    requires forall p | 0 <= p < |text| :: substituted[p] == Substitute(Base(0), key.Folded(), 0, mixed[p])
    ensures substituted[..|text|] == Crypt(key, 0, text)
  {
    hide Origin, Xor, Substitute, Base, TableKey;
  }

  /** memcpy of the first n bytes. */
  method CopyText(dst: array<byte>, src: array<byte>, n: nat)
    requires n <= dst.Length && n <= src.Length && dst != src
    modifies dst
    ensures dst[..n] == src[..n] && dst[n..] == old(dst[n..])
  {
    for p := 0 to n
      invariant dst[..p] == src[..p] && dst[n..] == old(dst[n..])
    {
      dst[p] := src[p];
    }
  }
}
