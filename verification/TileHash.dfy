/**
  The 64-bit tile hash of the surface encoder.

  A tile is a sequence of pixel rows.  Every row is cut into 8-byte little-endian chunks (a
  shorter tail is padded with zeros and tagged with its length) and each chunk is mixed into the
  running hash.  Both halves of the mixer are bijections of the 64-bit words, so a change that
  stays inside one chunk can never be hidden by a collision.
 */
module TileHash {

  type byte = bv8
  type Digest = bv64
  type Row = seq<byte>

  const SEED: Digest := 0xcbf29ce484222325

  // ---- The mixer, one invertible step at a time ----

  function XorShift30(x: bv64): bv64 { x ^ (x >> 30) }
  function XorShift27(x: bv64): bv64 { x ^ (x >> 27) }
  function XorShift31(x: bv64): bv64 { x ^ (x >> 31) }
  function TimesA(x: bv64): bv64 { x * 0xbf58476d1ce4e5b9 }
  function TimesB(x: bv64): bv64 { x * 0x94d049bb133111eb }
  function TimesC(x: bv64): bv64 { x * 0x9e3779b185ebca87 }
  function Xor(x: bv64, y: bv64): bv64 { x ^ y }
  function RotL29(x: bv64): bv64 { (x << 29) | (x >> 35) }

  function Scramble(chunk: bv64): bv64 {
    XorShift31(TimesB(XorShift27(TimesA(XorShift30(chunk)))))
  }

  function MixChunk(hash: Digest, chunk: bv64): Digest {
    TimesC(RotL29(Xor(hash, Scramble(chunk))))
  }

  // ---- The inverse steps ----

  function UnXorShift30(y: bv64): bv64 { y ^ (y >> 30) ^ (y >> 60) }
  function UnXorShift27(y: bv64): bv64 { y ^ (y >> 27) ^ (y >> 54) }
  function UnXorShift31(y: bv64): bv64 { y ^ (y >> 31) ^ (y >> 62) }
  function OverA(x: bv64): bv64 { x * 0x96de1b173f119089 }
  function OverB(x: bv64): bv64 { x * 0x319642b2d24d8ec3 }
  function OverC(x: bv64): bv64 { x * 0x0887493432badb37 }
  function RotR29(x: bv64): bv64 { (x >> 29) | (x << 35) }

  function Unscramble(word: bv64): bv64 {
    UnXorShift30(OverA(UnXorShift27(OverB(UnXorShift31(word)))))
  }

  lemma UndoXorShift30(x: bv64)
    ensures UnXorShift30(XorShift30(x)) == x
  {
    Shifted30(x);
    calc {
      UnXorShift30(XorShift30(x));
      UnXorShift30(x ^ (x >> 30));
      (x ^ (x >> 30)) ^ ((x ^ (x >> 30)) >> 30) ^ ((x ^ (x >> 30)) >> 60);
      (x ^ (x >> 30)) ^ ((x >> 30) ^ (x >> 60)) ^ (x >> 60);
      { XorPairs(x, x >> 30, x >> 60); }
      x;
    }
  }

  lemma Shifted30(x: bv64)
    ensures (x ^ (x >> 30)) >> 30 == (x >> 30) ^ (x >> 60)
    ensures (x ^ (x >> 30)) >> 60 == x >> 60
  {}

  lemma XorPairs(x: bv64, a: bv64, b: bv64)
    ensures (x ^ a) ^ (a ^ b) ^ b == x
  {}

  lemma UndoXorShift27(x: bv64)
    ensures UnXorShift27(XorShift27(x)) == x
  {
    calc {
      UnXorShift27(XorShift27(x));
      UnXorShift27(x ^ (x >> 27));
      (x ^ (x >> 27)) ^ ((x ^ (x >> 27)) >> 27) ^ ((x ^ (x >> 27)) >> 54);
      x;
    }
  }

  lemma UndoXorShift31(x: bv64)
    ensures UnXorShift31(XorShift31(x)) == x
  {
    calc {
      UnXorShift31(XorShift31(x));
      UnXorShift31(x ^ (x >> 31));
      (x ^ (x >> 31)) ^ ((x ^ (x >> 31)) >> 31) ^ ((x ^ (x >> 31)) >> 62);
      x;
    }
  }

  lemma UndoTimesA(x: bv64)
    ensures OverA(TimesA(x)) == x
  {
    calc {
      OverA(TimesA(x));
      OverA(x * 0xbf58476d1ce4e5b9);
      (x * 0xbf58476d1ce4e5b9) * 0x96de1b173f119089;
      x;
    }
  }

  lemma UndoTimesB(x: bv64)
    ensures OverB(TimesB(x)) == x
  {
    calc {
      OverB(TimesB(x));
      OverB(x * 0x94d049bb133111eb);
      (x * 0x94d049bb133111eb) * 0x319642b2d24d8ec3;
      x;
    }
  }

  lemma UndoTimesC(x: bv64)
    ensures OverC(TimesC(x)) == x
  {
    calc {
      OverC(TimesC(x));
      OverC(x * 0x9e3779b185ebca87);
      (x * 0x9e3779b185ebca87) * 0x0887493432badb37;
      x;
    }
  }

  lemma UndoRotL29(x: bv64)
    ensures RotR29(RotL29(x)) == x
  {
    calc {
      RotR29(RotL29(x));
      RotR29((x << 29) | (x >> 35));
      (((x << 29) | (x >> 35)) >> 29) | (((x << 29) | (x >> 35)) << 35);
      x;
    }
  }

  lemma UndoScramble(chunk: bv64)
    ensures Unscramble(Scramble(chunk)) == chunk
  {
    hide XorShift30, XorShift27, XorShift31, TimesA, TimesB;
    hide UnXorShift30, UnXorShift27, UnXorShift31, OverA, OverB;
    var a := XorShift30(chunk);
    var b := XorShift27(TimesA(a));
    UndoXorShift31(TimesB(b));
    UndoTimesB(b);
    UndoXorShift27(TimesA(a));
    UndoTimesA(a);
    UndoXorShift30(chunk);
  }

  /** Knowing one input of the mixer, the other can be read back from its output. */
  lemma MixChunkInjective(h1: Digest, c1: bv64, h2: Digest, c2: bv64)
    requires MixChunk(h1, c1) == MixChunk(h2, c2)
    ensures c1 == c2 ==> h1 == h2
    ensures h1 == h2 ==> c1 == c2
  {
    hide Scramble, Unscramble, TimesC, OverC, RotL29, RotR29, Xor;
    UndoTimesC(RotL29(Xor(h1, Scramble(c1))));
    UndoTimesC(RotL29(Xor(h2, Scramble(c2))));
    UndoRotL29(Xor(h1, Scramble(c1)));
    UndoRotL29(Xor(h2, Scramble(c2)));
    UndoScramble(c1);
    UndoScramble(c2);
    XorCancel(h1, Scramble(c1), h2, Scramble(c2));
  }

  lemma XorCancel(a: bv64, x: bv64, b: bv64, y: bv64)
    requires Xor(a, x) == Xor(b, y)
    ensures x == y ==> a == b
    ensures a == b ==> x == y
  {}

  // ---- Chunks of a row ----

  function LoadBytes(b0: byte, b1: byte, b2: byte, b3: byte, b4: byte, b5: byte, b6: byte, b7: byte): bv64 {
    (b0 as bv64) | ((b1 as bv64) << 8) | ((b2 as bv64) << 16) | ((b3 as bv64) << 24)
    | ((b4 as bv64) << 32) | ((b5 as bv64) << 40) | ((b6 as bv64) << 48) | ((b7 as bv64) << 56)
  }

  lemma LoadBytesInjective(a0: byte, a1: byte, a2: byte, a3: byte, a4: byte, a5: byte, a6: byte, a7: byte,
                           b0: byte, b1: byte, b2: byte, b3: byte, b4: byte, b5: byte, b6: byte, b7: byte)
    requires LoadBytes(a0, a1, a2, a3, a4, a5, a6, a7) == LoadBytes(b0, b1, b2, b3, b4, b5, b6, b7)
    ensures a0 == b0 && a1 == b1 && a2 == b2 && a3 == b3 && a4 == b4 && a5 == b5 && a6 == b6 && a7 == b7
  {}

  function LoadChunk(b: Row): bv64
    requires |b| == 8
  {
    LoadBytes(b[0], b[1], b[2], b[3], b[4], b[5], b[6], b[7])
  }

  /** A partial copy into a zeroed word, tagged with the number of bytes left. */
  function TailChunk(b: Row): bv64
    requires 0 < |b| < 8
  {
    Xor(LoadChunk(Padded(b)), LengthTag(|b|))
  }

  function Padded(b: Row): (p: Row)
    requires |b| < 8
    ensures |p| == 8 && p[..|b|] == b
  {
    b + seq(8 - |b|, _ => 0 as byte)
  }

  function LengthTag(remaining: nat): bv64
    requires remaining < 8
  {
    (remaining as bv64) << 56
  }

  lemma LoadChunkInjective(a: Row, b: Row)
    requires |a| == |b| == 8 && LoadChunk(a) == LoadChunk(b)
    ensures a == b
  {
    hide LoadBytes;
    LoadBytesInjective(a[0], a[1], a[2], a[3], a[4], a[5], a[6], a[7], b[0], b[1], b[2], b[3], b[4], b[5], b[6], b[7]);
  }

  lemma TailChunkInjective(a: Row, b: Row)
    requires 0 < |a| == |b| < 8 && TailChunk(a) == TailChunk(b)
    ensures a == b
  {
    hide LoadChunk, LengthTag, Padded, Xor;
    XorCancel(LoadChunk(Padded(a)), LengthTag(|a|), LoadChunk(Padded(b)), LengthTag(|b|));
    LoadChunkInjective(Padded(a), Padded(b));
  }

  function RowChunks(row: Row): (cs: seq<bv64>)
  {
    if row == [] then []
    else if |row| < 8 then [TailChunk(row)]
    else [LoadChunk(row[..8])] + RowChunks(row[8..])
  }

  function MixAll(hash: Digest, chunks: seq<bv64>): Digest
    decreases |chunks|
  {
    if chunks == [] then hash else MixAll(MixChunk(hash, chunks[0]), chunks[1..])
  }

  /** The running hash after all rows of a tile. */
  function MixRows(hash: Digest, rows: seq<Row>): Digest
    decreases |rows|
  {
    if rows == [] then hash else MixRows(MixAll(hash, RowChunks(rows[0])), rows[1..])
  }

  function HashRows(rows: seq<Row>): Digest {
    MixRows(SEED, rows)
  }

  // ---- What is hashed, and in which order ----

  /** Little-endian words: each byte alone, in its place. */
  lemma LittleEndian(b: byte)
    ensures LoadBytes(b, 0, 0, 0, 0, 0, 0, 0) == b as bv64
    ensures LoadBytes(0, b, 0, 0, 0, 0, 0, 0) == (b as bv64) * 0x100
    ensures LoadBytes(0, 0, 0, 0, b, 0, 0, 0) == (b as bv64) * 0x1_0000_0000
    ensures LoadBytes(0, 0, 0, 0, 0, 0, 0, b) == (b as bv64) * 0x100_0000_0000_0000
  {}

  /** The one pixel left over in a row of odd width: its four bytes, and their number in the top byte. */
  lemma LonePixelChunk(b0: byte, b1: byte, b2: byte, b3: byte)
    ensures TailChunk([b0, b1, b2, b3]) == LoadBytes(b0, b1, b2, b3, 0, 0, 0, 4)
  {
    var p := Padded([b0, b1, b2, b3]);
    assert p[..4] == [b0, b1, b2, b3];
    assert p[0] == p[..4][0] && p[1] == p[..4][1] && p[2] == p[..4][2] && p[3] == p[..4][3];
    assert p[4] == 0 && p[5] == 0 && p[6] == 0 && p[7] == 0;
    TagFour(b0, b1, b2, b3);
  }

  lemma TagFour(b0: byte, b1: byte, b2: byte, b3: byte)
    ensures Xor(LoadBytes(b0, b1, b2, b3, 0, 0, 0, 0), LengthTag(4)) == LoadBytes(b0, b1, b2, b3, 0, 0, 0, 4)
  {
    assert LengthTag(4) == 0x400_0000_0000_0000;
  }

  /** Rows are hashed from the top, the hash of the first rows going on with the next. */
  lemma {:induction false} RowsInOrder(hash: Digest, above: seq<Row>, below: seq<Row>)
    ensures MixRows(hash, above + below) == MixRows(MixRows(hash, above), below)
    decreases |above|
  {
    if above == [] {
      assert above + below == below;
    } else {
      assert (above + below)[1..] == above[1..] + below;
      RowsInOrder(MixAll(hash, RowChunks(above[0])), above[1..], below);
    }
  }

  lemma {:induction false} ChunksInOrder(hash: Digest, first: seq<bv64>, next: seq<bv64>)
    ensures MixAll(hash, first + next) == MixAll(MixAll(hash, first), next)
    decreases |first|
  {
    if first == [] {
      assert first + next == next;
    } else {
      assert (first + next)[1..] == first[1..] + next;
      ChunksInOrder(MixChunk(hash, first[0]), first[1..], next);
    }
  }

  /** A row is cut from the left: whole words first, and only the last piece may be short. */
  lemma {:induction false} RowsAreCutFromTheLeft(left: Row, right: Row)
    requires |left| % 8 == 0
    ensures RowChunks(left + right) == RowChunks(left) + RowChunks(right)
    decreases |left|
  {
    if left == [] {
      assert left + right == right;
    } else {
      assert (left + right)[..8] == left[..8];
      assert (left + right)[8..] == left[8..] + right;
      RowsAreCutFromTheLeft(left[8..], right);
    }
  }

  /** The hash starts from the FNV offset basis. */
  lemma EmptyHash()
    ensures HashRows([]) == 0xcbf29ce484222325
  {}

  // ---- A change inside one chunk always changes the hash ----

  lemma {:induction false} MixAllInjective(h1: Digest, h2: Digest, chunks: seq<bv64>)
    requires h1 != h2
    ensures MixAll(h1, chunks) != MixAll(h2, chunks)
    decreases |chunks|
  {
    hide MixChunk;
    if chunks != [] {
      if MixChunk(h1, chunks[0]) == MixChunk(h2, chunks[0]) {
        MixChunkInjective(h1, chunks[0], h2, chunks[0]);
      }
      MixAllInjective(MixChunk(h1, chunks[0]), MixChunk(h2, chunks[0]), chunks[1..]);
    }
  }

  lemma {:induction false} MixRowsInjective(h1: Digest, h2: Digest, rows: seq<Row>)
    requires h1 != h2
    ensures MixRows(h1, rows) != MixRows(h2, rows)
    decreases |rows|
  {
    hide MixAll;
    if rows != [] {
      MixAllInjective(h1, h2, RowChunks(rows[0]));
      MixRowsInjective(MixAll(h1, RowChunks(rows[0])), MixAll(h2, RowChunks(rows[0])), rows[1..]);
    }
  }

  /** Rows of one length that agree outside the aligned 8-byte group number `group`, and differ in it. */
  ghost predicate RowsDifferInGroup(a: Row, b: Row, group: nat) {
    && a != b && |a| == |b|
    && forall j | 0 <= j < |a| && j / 8 != group :: a[j] == b[j]
  }

  /** Tiles of one shape whose only difference lies in one aligned 8-byte group of one row. */
  ghost predicate TilesDifferInGroup(a: seq<Row>, b: seq<Row>, row: nat, group: nat) {
    && |a| == |b| && row < |a|
    && RowsDifferInGroup(a[row], b[row], group)
    && forall i | 0 <= i < |a| && i != row :: a[i] == b[i]
  }

  lemma {:induction false} RowHashDiffers(hash: Digest, a: Row, b: Row, group: nat)
    requires RowsDifferInGroup(a, b, group)
    ensures MixAll(hash, RowChunks(a)) != MixAll(hash, RowChunks(b))
    decreases |a|
  {
    hide MixAll, RowChunks, MixChunk, LoadChunk, TailChunk;
    if |a| < 8 {
      TailsDiffer(hash, a, b);
    } else {
      MixHead(hash, a);
      MixHead(hash, b);
      if group == 0 {
        HeadsDiffer(hash, a, b);
      } else {
        ShiftGroup(a, b, group);
        RowHashDiffers(MixChunk(hash, LoadChunk(a[..8])), a[8..], b[8..], group - 1);
      }
    }
  }

  lemma MixHead(hash: Digest, row: Row)
    requires |row| >= 8
    ensures MixAll(hash, RowChunks(row)) == MixAll(MixChunk(hash, LoadChunk(row[..8])), RowChunks(row[8..]))
  {
    hide MixAll, MixChunk, LoadChunk, TailChunk;
    MixAllStep(hash, LoadChunk(row[..8]), RowChunks(row[8..]));
  }

  lemma TailsDiffer(hash: Digest, a: Row, b: Row)
    requires |a| == |b| < 8 && a != b
    ensures MixAll(hash, RowChunks(a)) != MixAll(hash, RowChunks(b))
  {
    hide MixAll, RowChunks, MixChunk, TailChunk;
    MixTail(hash, a);
    MixTail(hash, b);
    if TailChunk(a) == TailChunk(b) {
      TailChunkInjective(a, b);
    }
    if MixChunk(hash, TailChunk(a)) == MixChunk(hash, TailChunk(b)) {
      MixChunkInjective(hash, TailChunk(a), hash, TailChunk(b));
    }
  }

  lemma HeadsDiffer(hash: Digest, a: Row, b: Row)
    requires RowsDifferInGroup(a, b, 0) && |a| >= 8
    ensures a[8..] == b[8..]
    ensures MixAll(MixChunk(hash, LoadChunk(a[..8])), RowChunks(a[8..]))
         != MixAll(MixChunk(hash, LoadChunk(b[..8])), RowChunks(b[8..]))
  {
    hide MixAll, RowChunks, MixChunk, LoadChunk;
    assert a == a[..8] + a[8..] && b == b[..8] + b[8..];
    assert a[8..] == b[8..];
    var ca, cb := LoadChunk(a[..8]), LoadChunk(b[..8]);
    if ca == cb {
      LoadChunkInjective(a[..8], b[..8]);
    }
    if MixChunk(hash, ca) == MixChunk(hash, cb) {
      MixChunkInjective(hash, ca, hash, cb);
    }
    MixAllInjective(MixChunk(hash, ca), MixChunk(hash, cb), RowChunks(a[8..]));
  }

  lemma ShiftGroup(a: Row, b: Row, group: nat)
    requires RowsDifferInGroup(a, b, group) && group > 0 && |a| >= 8
    ensures a[..8] == b[..8] && RowsDifferInGroup(a[8..], b[8..], group - 1)
  {
    assert forall j | 0 <= j < 8 :: j / 8 == 0;
    assert a == a[..8] + a[8..] && b == b[..8] + b[8..];
    forall j | 0 <= j < |a| - 8 && j / 8 != group - 1 ensures a[8..][j] == b[8..][j] {
      assert (j + 8) / 8 == j / 8 + 1;
      assert a[j + 8] == b[j + 8];
    }
  }

  /** Two tiles of one shape that differ in exactly one chunk never share a hash. */
  lemma OneChunkNeverCollides(a: seq<Row>, b: seq<Row>, row: nat, group: nat)
    requires TilesDifferInGroup(a, b, row, group)
    ensures HashRows(a) != HashRows(b)
  {
    MixRowsDiffer(SEED, a, b, row, group);
  }

  lemma {:induction false} MixRowsDiffer(hash: Digest, a: seq<Row>, b: seq<Row>, row: nat, group: nat)
    requires TilesDifferInGroup(a, b, row, group)
    ensures MixRows(hash, a) != MixRows(hash, b)
    decreases row
  {
    hide MixAll, RowChunks;
    if row == 0 {
      assert a[1..] == b[1..];
      RowHashDiffers(hash, a[0], b[0], group);
      MixRowsInjective(MixAll(hash, RowChunks(a[0])), MixAll(hash, RowChunks(b[0])), a[1..]);
    } else {
      MixRowsDiffer(MixAll(hash, RowChunks(a[0])), a[1..], b[1..], row - 1, group);
    }
  }

  /** One pixel is the four bytes at 4*column of a row. */
  ghost predicate OnePixelApart(a: seq<Row>, b: seq<Row>, row: nat, column: nat) {
    && |a| == |b| && row < |a|
    && a[row] != b[row] && |a[row]| == |b[row]|
    && (forall j | 0 <= j < |a[row]| && j / 4 != column :: a[row][j] == b[row][j])
    && forall i | 0 <= i < |a| && i != row :: a[i] == b[i]
  }

  lemma OnePixelNeverCollides(a: seq<Row>, b: seq<Row>, row: nat, column: nat)
    requires OnePixelApart(a, b, row, column)
    ensures HashRows(a) != HashRows(b)
  {
    forall j | 0 <= j < |a[row]| && j / 8 != column / 2 ensures a[row][j] == b[row][j] {
      assert j / 8 == (j / 4) / 2;
    }
    OneChunkNeverCollides(a, b, row, column / 2);
  }

  // ---- The hashing loop ----

  /** The w x h tile at (x, y) lies inside a buffer of this length and stride. */
  predicate InBuffer(length: nat, stride: nat, x: nat, y: nat, w: nat, h: nat) {
    4 * (x + w) <= stride && stride * (y + h) <= length
  }

  /** The pixel rows of the w x h tile at (x, y) in a frame buffer of the given stride. */
  function TileRows(data: seq<byte>, stride: nat, x: nat, y: nat, w: nat, h: nat): (rows: seq<Row>)
    requires InBuffer(|data|, stride, x, y, w, h)
    ensures |rows| == h && forall i | 0 <= i < h :: rows[i] == PixelRun(data, stride, x, y + i, w, y + h)
  {
    seq(h, i requires 0 <= i < h => PixelRun(data, stride, x, y + i, w, y + h))
  }

  /** The bytes of the w pixels from (x, row), in a buffer of at least `rows` rows. */
  function PixelRun(data: seq<byte>, stride: nat, x: nat, row: nat, w: nat, rows: nat): (run: Row)
    requires row < rows && 4 * (x + w) <= stride && stride * rows <= |data|
    ensures |run| == 4 * w
  {
    RowInside(stride, row, rows);
    data[Offset(stride, x, row)..Offset(stride, x, row) + 4 * w]
  }

  /** Where the pixel (x, row) starts in the buffer. */
  function Offset(stride: nat, x: nat, row: nat): nat {
    stride * row + 4 * x
  }

  lemma OffsetShift(stride: nat, x: nat, row: nat)
    ensures Offset(stride, x, row) == Offset(stride, 0, row) + 4 * x
  {}

  lemma RowInside(stride: nat, row: nat, rows: nat)
    requires row < rows
    ensures stride * row + stride <= stride * rows
    ensures Offset(stride, 0, row) + stride <= stride * rows
  {
    ScaleMonotone(stride, row + 1, rows);
  }

  lemma ScaleMonotone(factor: nat, a: nat, b: nat)
    requires a <= b
    ensures factor * a <= factor * b
  {}

  lemma TileRowAt(data: seq<byte>, stride: nat, x: nat, y: nat, w: nat, h: nat, row: nat)
    requires InBuffer(|data|, stride, x, y, w, h) && row < h
    ensures
      var rows := TileRows(data, stride, x, y, w, h);
      var ptr := Offset(stride, x, y + row);
      && ptr + 4 * w <= |data|
      && rows[row..] == [data[ptr..ptr + 4 * w]] + rows[row + 1..]
  {
    RowInside(stride, y + row, y + h);
  }

  /** Hashes a tile in place, row by row. */
  method HashTile(data: seq<byte>, stride: nat, x: nat, y: nat, width: nat, height: nat) returns (hash: Digest)
    requires InBuffer(|data|, stride, x, y, width, height)
    ensures hash == HashRows(TileRows(data, stride, x, y, width, height))
  {
    hide MixAll, MixRows, RowChunks, TileRows, Offset, InBuffer;
    ghost var rows := TileRows(data, stride, x, y, width, height);
    hash := SEED;
    var row := 0;
    while row < height
      invariant 0 <= row <= height
      invariant MixRows(hash, rows[row..]) == HashRows(rows)
    {
      TileRowAt(data, stride, x, y, width, height, row);
      var ptr := Offset(stride, x, y + row);
      ghost var before := hash;
      hash := HashRow(data, ptr, ptr + 4 * width, hash);
      MixRowsStep(before, data[ptr..ptr + 4 * width], rows[row + 1..]);
      row := row + 1;
    }
    MixRowsDone(hash, rows[row..]);
  }

  lemma MixRowsDone(hash: Digest, rows: seq<Row>)
    ensures rows == [] ==> MixRows(hash, rows) == hash
  {}

  lemma MixRowsStep(hash: Digest, row: Row, rest: seq<Row>)
    ensures MixRows(hash, [row] + rest) == MixRows(MixAll(hash, RowChunks(row)), rest)
  {
    hide MixAll, RowChunks;
    assert ([row] + rest)[1..] == rest;
  }

  /** One row, the bytes start..end: 16 bytes at a time, then 8, then the tail. */
  method HashRow(data: seq<byte>, start: nat, end: nat, seed: Digest) returns (hash: Digest)
    requires start <= end <= |data|
    ensures hash == MixAll(seed, RowChunks(data[start..end]))
  {
    hide *;
    hash := seed;
    var ptr, remaining := start, end - start;
    while remaining >= 16
      invariant start <= ptr && 0 <= remaining && ptr + remaining == end
      invariant MixAll(hash, RowChunks(data[ptr..end])) == MixAll(seed, RowChunks(data[start..end]))
    {
      var lo, hi := LoadChunk(data[ptr..ptr + 8]), LoadChunk(data[ptr + 8..ptr + 16]);
      MixStep(hash, data, ptr, end);
      hash := MixChunk(hash, lo);
      MixStep(hash, data, ptr + 8, end);
      hash := MixChunk(hash, hi);
      ptr, remaining := ptr + 16, remaining - 16;
    }
    while remaining >= 8
      invariant start <= ptr && 0 <= remaining && ptr + remaining == end
      invariant MixAll(hash, RowChunks(data[ptr..end])) == MixAll(seed, RowChunks(data[start..end]))
    {
      MixStep(hash, data, ptr, end);
      hash := MixChunk(hash, LoadChunk(data[ptr..ptr + 8]));
      ptr, remaining := ptr + 8, remaining - 8;
    }
    MixTail(hash, data[ptr..end]);
    if remaining > 0 {
      hash := MixChunk(hash, TailChunk(data[ptr..end]));
    }
  }

  lemma MixStep(hash: Digest, data: seq<byte>, ptr: nat, end: nat)
    requires ptr + 8 <= end <= |data|
    ensures MixAll(hash, RowChunks(data[ptr..end]))
         == MixAll(MixChunk(hash, LoadChunk(data[ptr..ptr + 8])), RowChunks(data[ptr + 8..end]))
  {
    hide MixAll, RowChunks, MixChunk, LoadChunk;
    MixHead(hash, data[ptr..end]);
    assert data[ptr..end][..8] == data[ptr..ptr + 8] && data[ptr..end][8..] == data[ptr + 8..end];
  }

  lemma MixAllStep(hash: Digest, chunk: bv64, rest: seq<bv64>)
    ensures MixAll(hash, [chunk] + rest) == MixAll(MixChunk(hash, chunk), rest)
  {
    hide MixChunk;
    assert ([chunk] + rest)[1..] == rest;
  }

  lemma MixTail(hash: Digest, tail: Row)
    requires |tail| < 8
    ensures MixAll(hash, RowChunks(tail)) == if tail == [] then hash else MixChunk(hash, TailChunk(tail))
  {
    hide MixChunk, TailChunk;
    if tail != [] {
      assert [TailChunk(tail)] == [TailChunk(tail)] + [];
      MixAllStep(hash, TailChunk(tail), []);
    }
  }

  /** Compares two tiles row by row and stops at the first difference. */
  method CompareTiles(a: seq<byte>, b: seq<byte>, stride: nat, x: nat, y: nat, width: nat, height: nat) returns (different: bool)
    requires |a| == |b| < 0x1_0000_0000
    requires InBuffer(|a|, stride, x, y, width, height)
    ensures different == (TileRows(a, stride, x, y, width, height) != TileRows(b, stride, x, y, width, height))
  {
    hide TileRows, Offset, InBuffer;
    ghost var ra, rb := TileRows(a, stride, x, y, width, height), TileRows(b, stride, x, y, width, height);
    var row := 0;
    while row < height
      invariant 0 <= row <= height
      invariant ra[..row] == rb[..row]
    {
      TileRowAt(a, stride, x, y, width, height, row);
      TileRowAt(b, stride, x, y, width, height, row);
      var offset := Offset(stride, x, y + row);
      assert offset + 4 * width < 0x1_0000_0000; // 32-bit offsets do not wrap
      assert ra[row] == a[offset..offset + 4 * width] && rb[row] == b[offset..offset + 4 * width];
      if a[offset..offset + 4 * width] != b[offset..offset + 4 * width] {
        return true;
      }
      assert ra[..row + 1] == ra[..row] + [ra[row]] && rb[..row + 1] == rb[..row] + [rb[row]];
      row := row + 1;
    }
    assert ra[..height] == ra && rb[..height] == rb;
    return false;
  }
}
