/** encrypt_line_move: the key-driven moves of the four rows of a 4x4 block. */
module RowMove {
  import opened Bytes

  /** 0 encrypts, 1 decrypts. */
  type Mode = m: int | 0 <= m <= 1

  /** Which row goes to each of the four places, for each of the sixteen branches on a and b. */
  function Source(a: nat, b: nat): (rows: seq<nat>)
    requires a < 4 && b < 4
    ensures Rearranges(rows)
  {
    if a == 0 then
      if b == 0 then [0, 1, 2, 3] else if b == 1 then [1, 0, 2, 3] else if b == 2 then [1, 2, 0, 3] else [1, 2, 3, 0]
    else if a == 1 then
      if b == 0 then [0, 1, 2, 3] else if b == 1 then [0, 2, 1, 3] else if b == 2 then [0, 2, 3, 1] else [1, 0, 2, 3]
    else if a == 2 then
      if b == 0 then [0, 1, 2, 3] else if b == 1 then [0, 1, 3, 2] else if b == 2 then [2, 0, 1, 3] else [0, 2, 1, 3]
    else
      if b == 0 then [0, 1, 2, 3] else if b == 1 then [3, 0, 1, 2] else if b == 2 then [0, 3, 1, 2] else [0, 1, 3, 2]
  }

  function Without(a: nat): seq<nat> {
    seq(3, i requires 0 <= i < 3 => if i < a then i else i + 1)
  }

  /** The branches on a and b take row a out and put it back at place (a + b) % 4. */
  lemma SourceTakesRowOut(a: nat, b: nat)
    requires a < 4 && b < 4
    ensures var to := (a + b) % 4; Source(a, b) == Without(a)[..to] + [a] + Without(a)[to..]
  {
  }

  predicate Rearranges(rows: seq<nat>) {
    |rows| == 4 && forall r | 0 <= r < 4 :: rows[r] < 4
  }

  predicate Undoes(back: seq<nat>, there: seq<nat>) {
    Rearranges(back) && Rearranges(there) && forall r | 0 <= r < 4 :: back[there[r]] == r
  }

  /** Taking row a + b out and putting it back 4 - b places on undoes taking row a out and putting it
      back b places on. */
  lemma SourceUndone(a: nat, b: nat)
    requires a < 4 && b < 4
    ensures Undoes(Source((a + b) % 4, (4 - b) % 4), Source(a, b))
  {
    if a == 0 {
    } else if a == 1 {
    } else if a == 2 {
    } else {
    }
  }

  lemma SourceInverse(a: nat, b: nat)
    requires a < 4 && b < 4
    ensures Undoes(Source((a + b) % 4, (4 - b) % 4), Source(a, b))
    ensures Undoes(Source(a, b), Source((a + b) % 4, (4 - b) % 4))
  {
    hide Source, Undoes;
    SourceUndone(a, b);
    SourceUndone((a + b) % 4, (4 - b) % 4);
    assert ((a + b) % 4 + (4 - b) % 4) % 4 == a && (4 - (4 - b) % 4) % 4 == b;
  }

  lemma ComposeInverse(f: seq<nat>, g: seq<nat>, f': seq<nat>, g': seq<nat>)
    requires Undoes(f', f) && Undoes(g', g)
    ensures Undoes(Compose(g', f'), Compose(f, g))
  {
  }

  /** The two row moves, one after the other: where each row comes from. */
  function TwoMoves(a: nat, b: nat, c: nat, d: nat, mode: Mode): (rows: seq<nat>)
    requires a < 4 && b < 4 && c < 4 && d < 4
    ensures Rearranges(rows)
  {
    if mode == 0 then Compose(Source(a, b), Source(c, d))
    else Compose(Source((c + d) % 4, (4 - d) % 4), Source((a + b) % 4, (4 - b) % 4))
  }

  /** The row moves that key byte 4 selects, two bits for each of a, b, c and d. */
  function Rows(k: byte, mode: Mode): (rows: seq<nat>)
    ensures Rearranges(rows)
  {
    TwoMoves(k / 64, k / 16 % 4, k / 4 % 4, k % 4, mode)
  }

  /** Copying by `first` into a scratch block and by `second` out of it. */
  function Compose(first: seq<nat>, second: seq<nat>): (rows: seq<nat>)
    requires Rearranges(first) && Rearranges(second)
    ensures Rearranges(rows) && forall r | 0 <= r < 4 :: rows[r] == first[second[r]]
  {
    [first[second[0]], first[second[1]], first[second[2]], first[second[3]]]
  }

  /** The place in a 16-byte block that the byte at place q comes from. */
  function From(k: byte, mode: Mode, q: nat): (p: nat)
    requires q < 16
    ensures p < 16 && p % 4 == q % 4
  {
    Place(Rows(k, mode)[q / 4], q)
  }

  /** The place in row `row` that is in the same column as place q. */
  function Place(row: nat, q: nat): (p: nat)
    requires row < 4 && q < 16
    ensures p < 16 && p / 4 == row && p % 4 == q % 4
  {
    4 * row + q % 4
  }

  lemma TwoMovesInverse(a: nat, b: nat, c: nat, d: nat)
    requires a < 4 && b < 4 && c < 4 && d < 4
    ensures Undoes(TwoMoves(a, b, c, d, 1), TwoMoves(a, b, c, d, 0))
    ensures Undoes(TwoMoves(a, b, c, d, 0), TwoMoves(a, b, c, d, 1))
  {
    hide Source, Undoes, Compose;
    var f, g, f', g' := Source(a, b), Source(c, d), Source((a + b) % 4, (4 - b) % 4), Source((c + d) % 4, (4 - d) % 4);
    SourceInverse(a, b);
    SourceInverse(c, d);
    ComposeInverse(f, g, f', g');
    ComposeInverse(g', f', g, f);
  }

  /** The type-1 move of a key byte undoes its type-0 move, and the other way round. */
  lemma FromInverse(k: byte, q: nat)
    requires q < 16
    ensures From(k, 0, From(k, 1, q)) == q && From(k, 1, From(k, 0, q)) == q
  {
    hide TwoMoves;
    TwoMovesInverse(k / 64, k / 16 % 4, k / 4 % 4, k % 4);
  }

  /** A block after encrypt_line_move. */
  function Moved(k: byte, mode: Mode, block: seq<byte>): (s: seq<byte>)
    requires |block| == 16
    ensures |s| == 16
  {
    seq(16, q requires 0 <= q < 16 => block[From(k, mode, q)])
  }

  // What the moves do to the four rows

  /** Take the element at `from` out and put it back at `to`. */
  function Relocate<T>(s: seq<T>, from: nat, to: nat): (r: seq<T>)
    requires from < |s| && to < |s|
    ensures |r| == |s|
  {
    var without := s[..from] + s[from + 1..];
    without[..to] + [s[from]] + without[to..]
  }

  /** The rows after copying by the branches on a and b. */
  function Picked<T>(rows: seq<nat>, s: seq<T>): (r: seq<T>)
    requires Rearranges(rows) && |s| == 4
    ensures |r| == 4
  {
    [s[rows[0]], s[rows[1]], s[rows[2]], s[rows[3]]]
  }

  lemma SourceRelocates<T>(a: nat, b: nat, s: seq<T>)
    requires a < 4 && b < 4 && |s| == 4
    ensures Picked(Source(a, b), s) == Relocate(s, a, (a + b) % 4)
  {
    SourceTakesRowOut(a, b);
    var to, rows := (a + b) % 4, Without(a)[..(a + b) % 4] + [a] + Without(a)[(a + b) % 4..];
    hide Source;
    var without := s[..a] + s[a + 1..];
    assert forall i | 0 <= i < 3 :: without[i] == s[Without(a)[i]];
    assert forall r | 0 <= r < 4 :: Picked(rows, s)[r] == s[rows[r]];
    assert forall r | 0 <= r < 4 :: Relocate(s, a, to)[r] == s[rows[r]];
  }

  lemma PickedTwice<T>(f: seq<nat>, g: seq<nat>, s: seq<T>)
    requires Rearranges(f) && Rearranges(g) && |s| == 4
    ensures Picked(Compose(f, g), s) == Picked(g, Picked(f, s))
  {
  }

  /** The two moves of a key byte whose bit pairs are a, b, c and d from the top: type 0 takes row a out and puts
      it back b places on, around the end, and then does the same with row c and d; type 1 takes the two rows
      back, in the opposite order. */
  lemma RowsRelocate<T>(a: nat, b: nat, c: nat, d: nat, s: seq<T>)
    requires a < 4 && b < 4 && c < 4 && d < 4 && |s| == 4
    ensures Picked(Rows(64 * a + 16 * b + 4 * c + d, 0), s) == Relocate(Relocate(s, a, (a + b) % 4), c, (c + d) % 4)
    ensures Picked(Rows(64 * a + 16 * b + 4 * c + d, 1), s) == Relocate(Relocate(s, (c + d) % 4, c), (a + b) % 4, a)
  {
    hide Source, Compose, Relocate, Picked;
    BitPairs(a, b, c, d);
    PickedTwice(Source(a, b), Source(c, d), s);
    SourceRelocates(a, b, s);
    SourceRelocates(c, d, Picked(Source(a, b), s));
    var a', b', c', d' := (a + b) % 4, (4 - b) % 4, (c + d) % 4, (4 - d) % 4;
    BackPlace(a, b);
    BackPlace(c, d);
    PickedTwice(Source(c', d'), Source(a', b'), s);
    SourceRelocates(c', d', s);
    SourceRelocates(a', b', Picked(Source(c', d'), s));
  }

  lemma BitPairs(a: nat, b: nat, c: nat, d: nat)
    requires a < 4 && b < 4 && c < 4 && d < 4
    ensures var k := 64 * a + 16 * b + 4 * c + d;
            k < 0x100 && k / 64 == a && k / 16 % 4 == b && k / 4 % 4 == c && k % 4 == d
  {
    var k := 64 * a + 16 * b + 4 * c + d;
    ByFour(16 * a + 4 * b + c, d);
    ByFour(4 * a + b, c);
    ByFour(a, b);
    assert k == 4 * (16 * a + 4 * b + c) + d;
    Quarters(k);
  }

  lemma ByFour(x: nat, d: nat)
    requires d < 4
    ensures (4 * x + d) / 4 == x && (4 * x + d) % 4 == d
  {
  }

  lemma Quarters(k: nat)
    ensures k / 16 == k / 4 / 4 && k / 64 == k / 4 / 4 / 4
  {
  }

  lemma BackPlace(a: nat, b: nat)
    requires a < 4 && b < 4
    ensures ((a + b) % 4 + (4 - b) % 4) % 4 == a
  {
  }

  /** The four rows of a block. */
  function RowsOf(block: seq<byte>): (rows: seq<seq<byte>>)
    requires |block| == 16
    ensures |rows| == 4
  {
    [block[0..4], block[4..8], block[8..12], block[12..16]]
  }

  /** encrypt_line_move moves whole rows, as the bits of the key byte say. */
  lemma MovedRelocates(a: nat, b: nat, c: nat, d: nat, block: seq<byte>)
    requires a < 4 && b < 4 && c < 4 && d < 4 && |block| == 16
    ensures RowsOf(Moved(64 * a + 16 * b + 4 * c + d, 0, block)) == Relocate(Relocate(RowsOf(block), a, (a + b) % 4), c, (c + d) % 4)
    ensures RowsOf(Moved(64 * a + 16 * b + 4 * c + d, 1, block)) == Relocate(Relocate(RowsOf(block), (c + d) % 4, c), (a + b) % 4, a)
  {
    hide Relocate, Rows;
    RowsRelocate(a, b, c, d, RowsOf(block));
    MovedPicks(64 * a + 16 * b + 4 * c + d, 0, block);
    MovedPicks(64 * a + 16 * b + 4 * c + d, 1, block);
  }

  lemma MovedPicks(k: byte, mode: Mode, block: seq<byte>)
    requires |block| == 16
    ensures RowsOf(Moved(k, mode, block)) == Picked(Rows(k, mode), RowsOf(block))
  {
    hide Moved, Rows, RowsOf, Picked;
    var moved, rows := Moved(k, mode, block), Rows(k, mode);
    var l, r := RowsOf(moved), Picked(rows, RowsOf(block));
    forall i | 0 <= i < 4
      ensures l[i] == r[i]
    {
      RowMoved(k, mode, block, i);
      RowAt(moved, i);
      RowAt(block, rows[i]);
      PickedAt(rows, RowsOf(block), i);
    }
  }

  lemma PickedAt<T>(rows: seq<nat>, s: seq<T>, i: nat)
    requires Rearranges(rows) && |s| == 4 && i < 4
    ensures Picked(rows, s)[i] == s[rows[i]]
  {
  }

  lemma RowAt(block: seq<byte>, r: nat)
    requires |block| == 16 && r < 4
    ensures RowsOf(block)[r] == block[4 * r..4 * r + 4]
  {
  }

  lemma RowMoved(k: byte, mode: Mode, block: seq<byte>, r: nat)
    requires |block| == 16 && r < 4
    ensures Moved(k, mode, block)[4 * r..4 * r + 4] == block[4 * Rows(k, mode)[r]..4 * Rows(k, mode)[r] + 4]
  {
    hide Rows;
    var s, t := Moved(k, mode, block)[4 * r..4 * r + 4], block[4 * Rows(k, mode)[r]..4 * Rows(k, mode)[r] + 4];
    forall j | 0 <= j < 4
      ensures s[j] == t[j]
    {
      assert (4 * r + j) / 4 == r && (4 * r + j) % 4 == j;
    }
  }

  /** memcpy of one row of a 4x4 array, which lies flat in memory. */
  method CopyRow(dst: array<byte>, r: nat, src: array<byte>, s: nat)
    requires dst != src && dst.Length == src.Length == 16 && r < 4 && s < 4
    modifies dst
    ensures forall q | 0 <= q < 16 :: dst[q] == if q / 4 == r then src[Place(s, q)] else old(dst[q])
  {
    for j := 0 to 4
      invariant forall q | 0 <= q < 16 :: dst[q] == if q / 4 == r && q % 4 < j then src[4 * s + q % 4] else old(dst[q])
    {
      dst[4 * r + j] := src[4 * s + j];
    }
  }

  method CopyRows(dst: array<byte>, src: array<byte>, rows: seq<nat>)
    requires dst != src && dst.Length == src.Length == 16
    requires Rearranges(rows)
    modifies dst
    ensures forall q | 0 <= q < 16 :: dst[q] == src[Place(rows[q / 4], q)]
  {
    hide Place;
    CopyRow(dst, 0, src, rows[0]);
    CopyRow(dst, 1, src, rows[1]);
    CopyRow(dst, 2, src, rows[2]);
    CopyRow(dst, 3, src, rows[3]);
  }

  /** Rows copied into a scratch block and out of it again. */
  method CopyTwice(buf: array<byte>, buffer: array<byte>, first: seq<nat>, second: seq<nat>)
    requires buf.Length == buffer.Length == 16 && buf != buffer
    requires Rearranges(first) && Rearranges(second)
    modifies buffer
    ensures forall q | 0 <= q < 16 :: buffer[q] == buf[Place(first[second[q / 4]], q)]
  {
    var scratch := new byte[16];
    CopyRows(scratch, buf, first);
    CopyRows(buffer, scratch, second);
  }

  /** The copies, with the parameters the key gives; type 1 first turns them into those that undo. */
  method LineMove(a: nat, b: nat, c: nat, d: nat, buf: array<byte>, buffer: array<byte>, mode: Mode)
    requires a < 4 && b < 4 && c < 4 && d < 4
    requires buf.Length == buffer.Length == 16 && buf != buffer
    modifies buffer
    ensures forall q | 0 <= q < 16 :: buffer[q] == buf[Place(TwoMoves(a, b, c, d, mode)[q / 4], q)]
  {
    hide Source;
    if mode == 0 {
      CopyTwice(buf, buffer, Source(a, b), Source(c, d));
    } else {
      var a1, b1, c1, d1 := (a + b) % 4, (4 - b) % 4, (c + d) % 4, (4 - d) % 4;
      CopyTwice(buf, buffer, Source(c1, d1), Source(a1, b1));
    }
  }

  /** encrypt_line_move: buf with its rows moved as bits 7-6, 5-4, 3-2 and 1-0 of key byte 4 say. */
  method EncryptLineMove(key: array<byte>, buf: array<byte>, buffer: array<byte>, mode: Mode)
    requires key.Length >= 5 && buf.Length == buffer.Length == 16 && buf != buffer && key != buffer
    modifies buffer
    ensures buffer[..] == Moved(key[4], mode, buf[..])
  {
    hide TwoMoves;
    LineMove(key[4] / 64, key[4] / 16 % 4, key[4] / 4 % 4, key[4] % 4, buf, buffer, mode);
  }
}
