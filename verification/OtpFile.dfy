/** otp_encrypt: the cipher on a file, read one page at a time and appended to another. */
module OtpFile {
  import opened Bytes
  import opened RowMove
  import opened CipherTable
  import opened Cipher
  import opened OtpBuffer

  datatype File = Missing | Contents(bytes: seq<byte>)

  /** One block of the text, which may end inside the block. The flag set at the end of the text is
      cleared by the next row, so it only survives a text that ends in the block's last row. */
  method MixFileBlock(src: array<byte>, start: nat, readlen: nat, key: array<byte>, buf: array<byte>, before: int)
    returns (flag: int)
    requires start <= readlen && readlen <= src.Length && key.Length >= 5
    requires buf.Length == 16 && buf != src && buf != key
    requires before == 0
    modifies buf
    ensures forall q | 0 <= q < 16 && start + q < readlen :: buf[q] == Xor(src[start + q], key[q % 4])
    ensures flag == if start + 12 <= readlen < start + 16 then 1 else 0
  {
    hide Xor;
    flag := before;
    for q := 0 to 16 {
      buf[q] := 0;
    }
    var i := 0;
    while i < 4
      invariant 0 <= i <= 4 && (flag == 0 || flag == 1)
      invariant forall q | 0 <= q < 4 * i && start + q < readlen :: buf[q] == Xor(src[start + q], key[q % 4])
      invariant flag == 0 ==> start + 4 * i <= readlen
      invariant flag == 1 ==> start + 4 * (i - 1) <= readlen < start + 4 * i
    {
      if flag == 1 {
        flag := 0;
        break;
      }
      var j := 0;
      while j < 4
        invariant 0 <= j <= 4 && flag == 0 && start + 4 * i + j <= readlen
        invariant forall q | 0 <= q < 4 * i + j :: buf[q] == Xor(src[start + q], key[q % 4])
      {
        if start + j + 4 * i == readlen {
          flag := 1;
          break;
        }
        assert (4 * i + j) % 4 == j;
        buf[4 * i + j] := Xor(src[start + j + 4 * i], key[j]);
        j := j + 1;
      }
      i := i + 1;
    }
  }

  /** The block loop over one page of readlen bytes. The flag is 0 whenever a block starts. */
  method MixPage(src: array<byte>, readlen: nat, key: array<byte>, keyLen: nat, rcvBuf: array<byte>, mode: Mode, before: int)
    returns (flag: int)
    requires Touched(readlen) <= src.Length && Touched(readlen) <= rcvBuf.Length
    requires key.Length >= 5 && keyLen <= key.Length && rcvBuf != src && rcvBuf != key
    requires before == 0
    modifies rcvBuf
    ensures forall p | 0 <= p < readlen :: rcvBuf[p] == Mixed(KeyOf(key, keyLen), mode, src[..], readlen, p)
    ensures readlen % 16 == 0 ==> flag == 0
  {
    hide Mixed, Moved, Xor, Touched, Origin;
    flag := before;
    var k := 0;
    var buf, buffer := new byte[16], new byte[16];
    while true
      invariant 0 <= 16 * k < Touched(readlen) && 16 * k <= readlen
      invariant flag == 0
      invariant forall p | 0 <= p < readlen && p < 16 * k :: rcvBuf[p] == Mixed(KeyOf(key, keyLen), mode, src[..], readlen, p)
      decreases Touched(readlen) - 16 * k
    {
      ghost var done := rcvBuf[..];
      flag := MixFileBlock(src, 16 * k, readlen, key, buf, flag);
      EncryptLineMove(key, buf, buffer, mode);
      BlockIsMixed(KeyOf(key, keyLen), mode, src[..], readlen, 16 * k, buf[..], buffer[..]);
      if (readlen - 16 * k) / 16 == 0 {
        CopyBlock(rcvBuf, 16 * k, buf);
      } else {
        CopyBlock(rcvBuf, 16 * k, buffer);
      }
      assert forall p | 0 <= p < 16 * k :: rcvBuf[p] == done[p];
      k := k + 1;
      if 16 * k >= readlen {
        break;
      }
    }
  }

  /** Where page `page` starts, as an int: the product wraps around. */
  function PageOffset(page: nat): int32 {
    Wrap(page * PAGE)
  }

  lemma OffsetFits(page: nat)
    ensures PageOffset(page) == page * PAGE <==> page < 0x800
    ensures page * PAGE <= INT_MAX <==> page < 0x800
  {
  }

  /** The offsets of all pages a file of n bytes is read in are right if and only if n fits an int. */
  lemma OffsetsFit(n: nat)
    ensures (forall page: nat | page * PAGE <= n :: PageOffset(page) == page * PAGE) <==> n <= INT_MAX
  {
    forall page: nat
      ensures PageOffset(page) == page * PAGE <==> page < 0x800
    {
      OffsetFits(page);
    }
    if n > INT_MAX {
      var page: nat := 0x800;
      assert page * PAGE <= n && PageOffset(page) != page * PAGE;
    }
  }

  /** fread of one page: what the file holds from the page's start on, at most a page. */
  method ReadPage(bytes: seq<byte>, offset: nat, temp: array<byte>) returns (readlen: nat)
    requires offset <= |bytes| && temp.Length == PAGE + 100
    modifies temp
    ensures readlen == Min(PAGE, |bytes| - offset)
    ensures temp[..readlen] == bytes[offset..offset + readlen]
  {
    readlen := Min(PAGE, |bytes| - offset);
    for p := 0 to readlen
      invariant temp[..p] == bytes[offset..offset + p]
    {
      temp[p] := bytes[offset + p];
    }
  }

  /** One page through the cipher. */
  method CryptPage(temp: array<byte>, readlen: nat, key: array<byte>, keyLen: nat, mode: Mode, before: int)
    returns (out: seq<byte>, flag: int)
    requires temp.Length == PAGE + 100 && readlen <= PAGE && temp != key
    requires key.Length >= 5 && keyLen <= key.Length && before == 0
    modifies temp
    ensures out == Crypt(KeyOf(key, keyLen), mode, old(temp[..readlen]))
    ensures readlen == PAGE ==> flag == 0
  {
    hide Mixed, Substitute, Base, TableKey, Touched;
    ghost var theKey := KeyOf(key, keyLen);
    ghost var text := temp[..readlen];
    var temp11 := new byte[PAGE + 100](_ => 0);
    var rcvBuf := new byte[PAGE + 100](_ => 0);
    var buff := NewTable();
    BaseInverse();
    TouchedFits(readlen);
    if mode == 1 {
      var buff1 := new byte[256];
      CharReplaceTableChange(buff, buff1);
      InverseUnique(Base(0), Base(1), buff1[..]);
      EncryptChange(key, keyLen, temp, temp11, readlen, buff1, mode);
      flag := MixPage(temp11, readlen, key, keyLen, rcvBuf, mode, before);
      DecryptedText(theKey, text, temp11[..], rcvBuf[..]);
      out := rcvBuf[..readlen];
    } else {
      flag := MixPage(temp, readlen, key, keyLen, rcvBuf, mode, before);
      ghost var src, mixed := temp[..], rcvBuf[..];
      for p := 0 to temp.Length
        invariant rcvBuf[..] == mixed && buff[..] == Base(0)
      {
        temp[p] := 0;
      }
      EncryptChange(key, keyLen, rcvBuf, temp, readlen, buff, mode);
      EncryptedText(theKey, text, src, rcvBuf[..], temp[..]);
      out := temp[..readlen];
    }
  }

  lemma Joined(to: seq<byte>, all: seq<byte>, start: nat, end: nat)
    requires start <= end <= |all|
    ensures to + all[..start] + all[start..end] == to + all[..end]
  {
    assert all[..start] + all[start..end] == all[..end];
  }

  /** The next page of a file of n bytes. */
  lemma NextPage(page: nat, n: nat, readlen: nat)
    requires page * PAGE <= n <= INT_MAX && readlen == Min(PAGE, n - page * PAGE)
    ensures PageOffset(page) == page * PAGE && page * PAGE % 16 == 0
    ensures page * PAGE + readlen <= n && (page * PAGE + readlen == n || (page * PAGE + readlen) % 16 == 0)
    ensures readlen <= PAGE && (readlen == PAGE ==> (page + 1) * PAGE == page * PAGE + readlen)
    ensures readlen < PAGE ==> page * PAGE + readlen == n
  {
    OffsetFits(page);
    assert page * PAGE == 16 * (page * (PAGE / 16));
  }

  /** One page read, encrypted and appended. */
  method AppendPage(bytes: seq<byte>, offset: nat, temp: array<byte>, key: array<byte>, keyLen: nat, mode: Mode,
                    flag: int, result: seq<byte>, ghost to: seq<byte>)
    returns (readlen: nat, flag': int, result': seq<byte>)
    requires temp.Length == PAGE + 100 && temp != key && key.Length >= 5 && keyLen <= key.Length && flag == 0
    requires offset <= |bytes| && offset % 16 == 0
    requires var end := offset + Min(PAGE, |bytes| - offset); end == |bytes| || end % 16 == 0
    requires result == to + Crypt(KeyOf(key, keyLen), mode, bytes)[..offset]
    modifies temp
    ensures readlen == Min(PAGE, |bytes| - offset) && (readlen == PAGE ==> flag' == 0)
    ensures result' == to + Crypt(KeyOf(key, keyLen), mode, bytes)[..offset + readlen]
  {
    hide Crypt;
    readlen := ReadPage(bytes, offset, temp);
    PartOfText(KeyOf(key, keyLen), mode, bytes, offset, offset + readlen);
    var out;
    out, flag' := CryptPage(temp, readlen, key, keyLen, mode, flag);
    Joined(to, Crypt(KeyOf(key, keyLen), mode, bytes), offset, offset + readlen);
    result' := result + out;
  }

  /** otp_encrypt: the new contents of the destination file. */
  method OtpEncrypt(from: File, to: seq<byte>, key: array<byte>, keyLen: nat, mode: Mode) returns (result: seq<byte>)
    requires key.Length >= 5 && keyLen <= key.Length
    requires from.Contents? ==> |from.bytes| <= INT_MAX
    ensures result == to + if from.Missing? then [] else Crypt(KeyOf(key, keyLen), mode, from.bytes)
  {
    hide Crypt, PageOffset, KeyOf;
    result := to;
    if from.Missing? {
      return;
    }
    var temp := new byte[PAGE + 100];
    var page, flag := 0, 0;
    ghost var k := KeyOf(key, keyLen);
    assert k.Readable() by {
      KeyIsReadable(key, keyLen);
    }
    ghost var all := Crypt(k, mode, from.bytes);
    assert to + all[..0] == to;
    while true
      invariant 0 <= page * PAGE <= |from.bytes| && flag == 0
      invariant KeyOf(key, keyLen) == k && result == to + all[..page * PAGE]
      decreases |from.bytes| - page * PAGE
    {
      ghost var start := page * PAGE;
      NextPage(page, |from.bytes|, Min(PAGE, |from.bytes| - start));
      var readlen;
      readlen, flag, result := AppendPage(from.bytes, PageOffset(page), temp, key, keyLen, mode, flag, result, to);
      if readlen == PAGE {
        page := page + 1;
      }
      if readlen < PAGE {
        break;
      }
    }
    assert all[..|all|] == all;
  }

  lemma KeyIsReadable(key: array<byte>, keyLen: nat)
    requires key.Length >= 5 && keyLen <= key.Length
    ensures KeyOf(key, keyLen).Readable()
  {
  }

  /** Encrypting a file into an empty one and decrypting that into another empty one gives back the file. */
  method EncryptThenDecrypt(file: seq<byte>, key: array<byte>, keyLen: nat) returns (encrypted: seq<byte>, decrypted: seq<byte>)
    requires key.Length >= 5 && keyLen <= key.Length && |file| <= INT_MAX
    ensures |encrypted| == |file| && decrypted == file
  {
    hide Crypt;
    encrypted := OtpEncrypt(Contents(file), [], key, keyLen, 0);
    decrypted := OtpEncrypt(Contents(encrypted), [], key, keyLen, 1);
    RoundTrip(KeyOf(key, keyLen), file);
    var k := KeyOf(key, keyLen);
    assert [] + Crypt(k, 0, file) == Crypt(k, 0, file);
    assert [] + Crypt(k, 1, encrypted) == Crypt(k, 1, encrypted);
  }
}
