/**
 Copying a mapped texture into a packed frame buffer. A mapped texture keeps
 its rows `rowPitch` bytes apart, and the pitch may be larger than a row's
 `width * 4` bytes of pixels; both capture loops copy row `y` of the texture
 to offset `y * width * 4` of the frame buffer, dropping the padding at the
 end of each source row. `Packed` is that copy as a value; the loops that do
 it in place are proved against it.
 */
module FrameCopy {
  import opened CaptureTypes

  /**
   `a * b` as repeated addition. Row offsets are written with it so that the
   proofs about them stay linear; `MulIsProduct` ties it to `*`.
   */
  function Mul(a: nat, b: nat): nat
  {
    if a == 0 then 0 else Mul(a - 1, b) + b
  }

  lemma {:induction false} MulIsProduct(a: nat, b: nat)
    ensures Mul(a, b) == a * b
  {
    if a > 0 {
      MulIsProduct(a - 1, b);
      assert a * b == (a - 1) * b + b;
    }
  }

  lemma {:induction false} MulLeMono(a: nat, b: nat, c: nat)
    requires a <= b
    ensures Mul(a, c) <= Mul(b, c)
  {
    if a < b {
      MulLeMono(a, b - 1, c);
    }
  }

  /** `src` holds `rows` rows of `rowBytes` bytes whose starts are `pitch` bytes apart. */
  predicate Covers(src: seq<Byte>, pitch: nat, rowBytes: nat, rows: nat)
  {
    rows == 0 || Mul(rows - 1, pitch) + rowBytes <= |src|
  }

  /** A source that holds some rows holds each of them, and every shorter run of rows. */
  lemma CoversRow(src: seq<Byte>, pitch: nat, rowBytes: nat, rows: nat, y: nat)
    requires Covers(src, pitch, rowBytes, rows) && y < rows
    ensures Mul(y, pitch) + rowBytes <= |src|
    ensures Covers(src, pitch, rowBytes, y)
  {
    var last := rows - 1;
    assert Mul(last, pitch) + rowBytes <= |src|;
    MulLeMono(y, last, pitch);
    if y > 0 {
      MulLeMono(y - 1, y, pitch);
      assert Covers(src, pitch, rowBytes, y) by {
        assert Mul(y - 1, pitch) + rowBytes <= Mul(last, pitch) + rowBytes;
      }
    }
  }

  /** Row `y` of the source without its padding: the bytes one `memcpy` moves. */
  function Row(src: seq<Byte>, pitch: nat, rowBytes: nat, y: nat): (row: seq<Byte>)
    requires Mul(y, pitch) + rowBytes <= |src|
  {
    src[Mul(y, pitch) .. Mul(y, pitch) + rowBytes]
  }

  /** The first `rows` rows of the source, packed one after another. */
  function Packed(src: seq<Byte>, pitch: nat, rowBytes: nat, rows: nat): (dst: seq<Byte>)
    requires Covers(src, pitch, rowBytes, rows)
    ensures |dst| == Mul(rows, rowBytes)
    decreases rows
  {
    if rows == 0 then []
    else
      CoversRow(src, pitch, rowBytes, rows, rows - 1);
      Packed(src, pitch, rowBytes, rows - 1) + Row(src, pitch, rowBytes, rows - 1)
  }

  /** Packing one more row appends that row. */
  lemma PackedNext(src: seq<Byte>, pitch: nat, rowBytes: nat, rows: nat)
    requires Covers(src, pitch, rowBytes, rows + 1)
    ensures Mul(rows, pitch) + rowBytes <= |src| && Covers(src, pitch, rowBytes, rows)
    ensures Packed(src, pitch, rowBytes, rows + 1)
            == Packed(src, pitch, rowBytes, rows) + Row(src, pitch, rowBytes, rows)
  {
    CoversRow(src, pitch, rowBytes, rows + 1, rows);
  }

  /** `PackedAt` with the offsets as sums of strides. */
  lemma {:induction false} PackedAtOffset(src: seq<Byte>, pitch: nat, rowBytes: nat, rows: nat, y: nat, x: nat)
    requires Covers(src, pitch, rowBytes, rows) && y < rows && x < rowBytes
    ensures Mul(y, rowBytes) + x < Mul(rows, rowBytes)
    ensures Mul(y, pitch) + x < |src|
    ensures Packed(src, pitch, rowBytes, rows)[Mul(y, rowBytes) + x] == src[Mul(y, pitch) + x]
  {
    CoversRow(src, pitch, rowBytes, rows, y);
    PackedNext(src, pitch, rowBytes, rows - 1);
    if y < rows - 1 {
      PackedAtOffset(src, pitch, rowBytes, rows - 1, y, x);
    }
  }

  /**
   Byte `x` of row `y` lands at offset `y * rowBytes + x` of the packed
   buffer and comes from offset `y * pitch + x` of the source.
   */
  lemma PackedAt(src: seq<Byte>, pitch: nat, rowBytes: nat, rows: nat, y: nat, x: nat)
    requires Covers(src, pitch, rowBytes, rows) && y < rows && x < rowBytes
    ensures y * rowBytes + x < |Packed(src, pitch, rowBytes, rows)| == rows * rowBytes
    ensures y * pitch + x < |src|
    ensures Packed(src, pitch, rowBytes, rows)[y * rowBytes + x] == src[y * pitch + x]
  {
    PackedAtOffset(src, pitch, rowBytes, rows, y, x);
    MulIsProduct(y, rowBytes);
    MulIsProduct(rows, rowBytes);
    MulIsProduct(y, pitch);
  }

  /** Offset `i` lies in the padding of its source row. */
  predicate IsPadding(i: nat, pitch: nat, rowBytes: nat)
  {
    pitch > 0 && i % pitch >= rowBytes
  }

  lemma PaddingOutsideRow(i: nat, pitch: nat, rowBytes: nat, y: nat)
    requires IsPadding(i, pitch, rowBytes)
    ensures i < Mul(y, pitch) || Mul(y, pitch) + rowBytes <= i
  {
    var q, r := i / pitch, i % pitch;
    MulIsProduct(q, pitch);
    assert i == Mul(q, pitch) + r;
    if q < y {
      MulLeMono(q + 1, y, pitch);
    } else {
      MulLeMono(y, q, pitch);
    }
  }

  /** The copy ignores the padding: changing a padding byte of the source changes nothing. */
  lemma {:induction false} PackedIgnoresPadding(src: seq<Byte>, pitch: nat, rowBytes: nat, rows: nat, i: nat, v: Byte)
    requires Covers(src, pitch, rowBytes, rows) && i < |src| && IsPadding(i, pitch, rowBytes)
    ensures Covers(src[i := v], pitch, rowBytes, rows)
    ensures Packed(src[i := v], pitch, rowBytes, rows) == Packed(src, pitch, rowBytes, rows)
  {
    if rows > 0 {
      var y := rows - 1;
      CoversRow(src, pitch, rowBytes, rows, y);
      PackedIgnoresPadding(src, pitch, rowBytes, y, i, v);
      PaddingOutsideRow(i, pitch, rowBytes, y);
      assert Row(src[i := v], pitch, rowBytes, y) == Row(src, pitch, rowBytes, y);
    }
  }

  /**
   `memcpy(&buf[at], row, |row|)` on a byte vector: `row` replaces the bytes
   from `at` on and every other byte is kept.
   */
  function Splice(buf: seq<Byte>, at: nat, row: seq<Byte>): (r: seq<Byte>)
    requires at + |row| <= |buf|
    ensures |r| == |buf|
    ensures r[..at + |row|] == buf[..at] + row
    ensures r[at + |row|..] == buf[at + |row|..]
  {
    buf[..at] + row + buf[at + |row|..]
  }

  /**
   The row loop of `CaptureManager::MapFrameToCPU` on the frame vector `buf`:
   for each of `rows` rows one `memcpy` of `width * 4` bytes from offset
   `y * pitch` of the source to offset `y * width * 4` of the vector.
   */
  method CopyRows(buf: seq<Byte>, src: seq<Byte>, pitch: nat, width: nat, rows: nat) returns (out: seq<Byte>)
    requires |buf| == rows * (width * 4) && Covers(src, pitch, width * 4, rows)
    ensures out == Packed(src, pitch, width * 4, rows)
  {
    var rowBytes := width * 4;
    MulIsProduct(rows, rowBytes);
    out := buf;
    var y := 0;
    while y < rows
      invariant 0 <= y <= rows && |out| == Mul(rows, rowBytes)
      invariant Covers(src, pitch, rowBytes, y) && Mul(y, rowBytes) <= |out|
      invariant out[..Mul(y, rowBytes)] == Packed(src, pitch, rowBytes, y)
    {
      CoversRow(src, pitch, rowBytes, rows, y);
      MulLeMono(y + 1, rows, rowBytes);
      PackedNext(src, pitch, rowBytes, y);
      var dst := Mul(y, rowBytes);
      out := Splice(out, dst, Row(src, pitch, rowBytes, y));
      y := y + 1;
    }
    assert out == out[..Mul(rows, rowBytes)];
  }

  /**
   `std::vector<unsigned char>::resize(n, 0)`: the first `min(n, |s|)` bytes
   are kept and every byte added is zero.
   */
  function Resize(s: seq<Byte>, n: nat): (r: seq<Byte>)
    ensures |r| == n
    ensures forall i :: 0 <= i < n && i < |s| ==> r[i] == s[i]
    ensures forall i :: |s| <= i < n ==> r[i] == 0
  {
    if n <= |s| then s[..n] else s + seq(n - |s|, _ => 0)
  }
}
