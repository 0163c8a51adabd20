/**
 `ScreenCaptureWGC::SaveBitmap` of WGCCapture.cpp: a 32-bit top-down BMP
 file made of a BITMAPFILEHEADER, a BITMAPINFOHEADER and the pixel bytes.
 The headers are the Windows structures written as they lie in memory, so
 every field is little-endian and the file header is packed to 14 bytes.
 */
module Bitmap {
  import opened CaptureTypes
  import opened FrameCopy

  newtype Word = x: int | 0 <= x < 0x1_0000
  newtype Dword = x: int | 0 <= x < 0x1_0000_0000
  newtype Long = x: int | -0x8000_0000 <= x < 0x8000_0000

  /** `sizeof(BITMAPFILEHEADER)` and `sizeof(BITMAPINFOHEADER)` */
  const FileHeaderSize: nat := 14
  const InfoHeaderSize: nat := 40
  const HeaderBytes: nat := FileHeaderSize + InfoHeaderSize

  /** "BM" read as a little-endian WORD. */
  const Signature: Word := 0x4D42
  const BiRgb: Dword := 0

  datatype FileHeader = FileHeader(bfType: Word, bfSize: Dword, bfReserved1: Word,
                                   bfReserved2: Word, bfOffBits: Dword)

  datatype InfoHeader = InfoHeader(biSize: Dword, biWidth: Long, biHeight: Long,
                                   biPlanes: Word, biBitCount: Word, biCompression: Dword,
                                   biSizeImage: Dword, biXPelsPerMeter: Long,
                                   biYPelsPerMeter: Long, biClrUsed: Dword,
                                   biClrImportant: Dword)

  // Little-endian fields

  function FromLe16(b: seq<Byte>): (v: Word)
    requires |b| == 2
  {
    (b[0] as int + 0x100 * b[1] as int) as Word
  }

  /** The low `n` bytes of `v`, lowest first. */
  function LeBytes(v: nat, n: nat): (b: seq<Byte>)
    ensures |b| == n
  {
    if n == 0 then [] else [(v % 0x100) as Byte] + LeBytes(v / 0x100, n - 1)
  }

  /** Splitting off the low byte: `v` is that byte plus 256 times the rest. */
  lemma LowByte(v: int)
    requires 0 <= v
    ensures v == v % 0x100 + 0x100 * (v / 0x100) && 0 <= v % 0x100 < 0x100 && 0 <= v / 0x100
  {
  }

  /** One step of `LeBytes`: the low byte, then the bytes of the rest. */
  lemma LeBytesStep(v: nat, n: nat)
    requires n > 0
    ensures LeBytes(v, n) == [(v % 0x100) as Byte] + LeBytes(v / 0x100, n - 1)
  {
  }

  /** The two low bytes of a WORD read back as that WORD. */
  lemma Le16Decodes(v: Word)
    ensures FromLe16(LeBytes(v as nat, 2)) == v
  {
    var q1 := v as int / 0x100;
    LowByte(v as int);
    LeBytesStep(v as nat, 2);
    LeBytesStep(q1, 1);
    assert LeBytes(v as nat, 2) == [(v as int % 0x100) as Byte, q1 as Byte];
  }

  /** A WORD as it lies in memory, low byte first; reading it back gives it again. */
  function Le16(v: Word): (b: seq<Byte>)
    ensures |b| == 2 && FromLe16(b) == v
  {
    Le16Decodes(v);
    LeBytes(v as nat, 2)
  }

  /** Two bytes are the encoding of the WORD they decode to. */
  lemma Le16OfFromLe16(b: seq<Byte>)
    requires |b| == 2
    ensures Le16(FromLe16(b)) == b
  {
    var v := FromLe16(b) as int;
    assert v % 0x100 == b[0] as int && v / 0x100 == b[1] as int;
    LeBytesStep(v, 2);
    LeBytesStep(v / 0x100, 1);
  }

  function FromLe32(b: seq<Byte>): (v: Dword)
    requires |b| == 4
  {
    (b[0] as int + 0x100 * b[1] as int + 0x1_0000 * b[2] as int + 0x100_0000 * b[3] as int) as Dword
  }

  /** The four low bytes of a DWORD read back as that DWORD. */
  lemma Le32Decodes(v: Dword)
    ensures FromLe32(LeBytes(v as nat, 4)) == v
  {
    var q1 := v as int / 0x100;
    var q2 := q1 / 0x100;
    var q3 := q2 / 0x100;
    LowByte(v as int);
    LowByte(q1);
    LowByte(q2);
    assert q3 < 0x100;
    LeBytesStep(v as nat, 4);
    LeBytesStep(q1, 3);
    LeBytesStep(q2, 2);
    LeBytesStep(q3, 1);
    assert LeBytes(v as nat, 4)
           == [(v as int % 0x100) as Byte, (q1 % 0x100) as Byte, (q2 % 0x100) as Byte, q3 as Byte];
  }

  /** A DWORD as it lies in memory, lowest byte first; reading it back gives it again. */
  function Le32(v: Dword): (b: seq<Byte>)
    ensures |b| == 4 && FromLe32(b) == v
  {
    Le32Decodes(v);
    LeBytes(v as nat, 4)
  }

  /** Four bytes are the encoding of the DWORD they decode to. */
  lemma Le32OfFromLe32(b: seq<Byte>)
    requires |b| == 4
    ensures Le32(FromLe32(b)) == b
  {
    var v := FromLe32(b) as int;
    var q2 := b[2] as int + 0x100 * b[3] as int;
    var q1 := b[1] as int + 0x100 * q2;
    assert v == b[0] as int + 0x100 * q1;
    assert v / 0x100 == q1 && v % 0x100 == b[0] as int;
    assert q1 / 0x100 == q2 && q1 % 0x100 == b[1] as int;
    assert q2 / 0x100 == b[3] as int && q2 % 0x100 == b[2] as int;
    LeBytesStep(v, 4);
    LeBytesStep(q1, 3);
    LeBytesStep(q2, 2);
    LeBytesStep(b[3] as int, 1);
  }

  /** Two's complement: the DWORD with the same bits as a LONG. */
  function LongBits(v: Long): (u: Dword)
    ensures (u as int - v as int) % 0x1_0000_0000 == 0
  {
    if v < 0 then (v as int + 0x1_0000_0000) as Dword else v as Dword
  }

  function FromLe32Signed(b: seq<Byte>): (v: Long)
    requires |b| == 4
  {
    var u := FromLe32(b) as int;
    if u < 0x8000_0000 then u as Long else (u - 0x1_0000_0000) as Long
  }

  /** A LONG as it lies in memory; reading it back as signed gives it again. */
  function Le32Signed(v: Long): (b: seq<Byte>)
    ensures |b| == 4 && FromLe32Signed(b) == v
  {
    Le32(LongBits(v))
  }

  // The two headers

  function EncodeFileHeader(h: FileHeader): (b: seq<Byte>)
    ensures |b| == FileHeaderSize
  {
    Le16(h.bfType) + Le32(h.bfSize) + Le16(h.bfReserved1) + Le16(h.bfReserved2) + Le32(h.bfOffBits)
  }

  function DecodeFileHeader(b: seq<Byte>): (h: FileHeader)
    requires |b| == FileHeaderSize
  {
    FileHeader(FromLe16(b[0..2]), FromLe32(b[2..6]), FromLe16(b[6..8]),
               FromLe16(b[8..10]), FromLe32(b[10..14]))
  }

  lemma FileHeaderRoundTrip(h: FileHeader)
    ensures DecodeFileHeader(EncodeFileHeader(h)) == h
  {
    var b := EncodeFileHeader(h);
    assert b[0..2] == Le16(h.bfType);
    assert b[2..6] == Le32(h.bfSize);
    assert b[6..8] == Le16(h.bfReserved1);
    assert b[8..10] == Le16(h.bfReserved2);
    assert b[10..14] == Le32(h.bfOffBits);
  }

  function EncodeInfoHeader(h: InfoHeader): (b: seq<Byte>)
    ensures |b| == InfoHeaderSize
  {
    Le32(h.biSize) + Le32Signed(h.biWidth) + Le32Signed(h.biHeight) + Le16(h.biPlanes)
    + Le16(h.biBitCount) + Le32(h.biCompression) + Le32(h.biSizeImage)
    + Le32Signed(h.biXPelsPerMeter) + Le32Signed(h.biYPelsPerMeter) + Le32(h.biClrUsed)
    + Le32(h.biClrImportant)
  }

  function DecodeInfoHeader(b: seq<Byte>): (h: InfoHeader)
    requires |b| == InfoHeaderSize
  {
    InfoHeader(FromLe32(b[0..4]), FromLe32Signed(b[4..8]), FromLe32Signed(b[8..12]),
               FromLe16(b[12..14]), FromLe16(b[14..16]), FromLe32(b[16..20]),
               FromLe32(b[20..24]), FromLe32Signed(b[24..28]), FromLe32Signed(b[28..32]),
               FromLe32(b[32..36]), FromLe32(b[36..40]))
  }

  lemma InfoHeaderRoundTrip(h: InfoHeader)
    ensures DecodeInfoHeader(EncodeInfoHeader(h)) == h
  {
    var b := EncodeInfoHeader(h);
    assert b[0..4] == Le32(h.biSize);
    assert b[4..8] == Le32Signed(h.biWidth);
    assert b[8..12] == Le32Signed(h.biHeight);
    assert b[12..14] == Le16(h.biPlanes);
    assert b[14..16] == Le16(h.biBitCount);
    assert b[16..20] == Le32(h.biCompression);
    assert b[20..24] == Le32(h.biSizeImage);
    assert b[24..28] == Le32Signed(h.biXPelsPerMeter);
    assert b[28..32] == Le32Signed(h.biYPelsPerMeter);
    assert b[32..36] == Le32(h.biClrUsed);
    assert b[36..40] == Le32(h.biClrImportant);
  }

  // SaveBitmap

  /**
   `width * height * 4`, the pixel bytes of the image, as `height` rows of
   `width * 4` bytes; `ImageBytesIsProduct` equates it with the product.
   */
  function ImageBytes(width: nat, height: nat): nat
  {
    Mul(height, width * 4)
  }

  lemma ImageBytesIsProduct(width: nat, height: nat)
    ensures ImageBytes(width, height) == width * height * 4
  {
    MulIsProduct(height, width * 4);
  }

  /**
   `width` and `height` are C `int`s, and `width * height * 4` is computed in
   `int`, so the image must be small enough for that product not to overflow.
   */
  predicate ImageFits(width: int, height: int)
  {
    0 <= width <= IntMax && 0 <= height <= IntMax && ImageBytes(width, height) <= IntMax
  }

  /** The file header `SaveBitmap` fills in: "BM", the file's size, the pixels after both headers. */
  function FileHeaderFor(width: int, height: int): (h: FileHeader)
    requires ImageFits(width, height)
    ensures h.bfType == Signature && h.bfReserved1 == 0 && h.bfReserved2 == 0
    ensures h.bfSize as int == HeaderBytes + width * height * 4
    ensures h.bfOffBits as int == HeaderBytes
  {
    ImageBytesIsProduct(width, height);
    FileHeader(Signature, (HeaderBytes + ImageBytes(width, height)) as Dword, 0, 0, HeaderBytes as Dword)
  }

  /**
   The info header `SaveBitmap` fills in: the image is `width` wide and
   `height` tall, top-down (a negative height), 32 bits per pixel in one
   plane, uncompressed, with `width * height * 4` pixel bytes.
   */
  function InfoHeaderFor(width: int, height: int): (h: InfoHeader)
    requires ImageFits(width, height)
    ensures h.biSize as int == InfoHeaderSize
    ensures h.biWidth as int == width && h.biHeight as int == -height
    ensures h.biPlanes == 1 && h.biBitCount == 32 && h.biCompression == BiRgb
    ensures h.biSizeImage as int == width * height * 4
    ensures h.biXPelsPerMeter == 0 && h.biYPelsPerMeter == 0 && h.biClrUsed == 0 && h.biClrImportant == 0
  {
    ImageBytesIsProduct(width, height);
    InfoHeader(InfoHeaderSize as Dword, width as Long, (-height) as Long, 1, 32, BiRgb,
               ImageBytes(width, height) as Dword, 0, 0, 0, 0)
  }

  /** What follows a prefix is the rest. */
  lemma AfterPrefix(a: seq<Byte>, b: seq<Byte>)
    ensures (a + b)[|a|..] == b
  {
  }

  /** The two headers as `SaveBitmap` writes them, one after the other. */
  function EncodeHeaders(width: int, height: int): (b: seq<Byte>)
    requires ImageFits(width, height)
    ensures |b| == HeaderBytes
  {
    EncodeFileHeader(FileHeaderFor(width, height)) + EncodeInfoHeader(InfoHeaderFor(width, height))
  }

  /**
   The bytes `SaveBitmap` leaves in the file: nothing when the file cannot
   be opened, otherwise the two headers and the first `width * height * 4`
   bytes of `data`.
   */
  function SaveBitmap(fileOpened: bool, data: seq<Byte>, width: int, height: int): (file: seq<Byte>)
    requires ImageFits(width, height) && ImageBytes(width, height) <= |data|
    ensures !fileOpened ==> file == []
    ensures fileOpened ==> |file| == HeaderBytes + ImageBytes(width, height)
    ensures fileOpened ==> file[HeaderBytes..] == data[..ImageBytes(width, height)]
  {
    if !fileOpened then []
    else
      AfterPrefix(EncodeHeaders(width, height), data[..ImageBytes(width, height)]);
      EncodeHeaders(width, height) + data[..ImageBytes(width, height)]
  }

  /**
   The headers read back from a saved file: "BM", a size equal to the
   file's length, the pixels right after the two headers, a 40-byte info
   header, the given width, the height negated (rows top-down), one plane of
   32 bits per pixel, no compression, the pixel byte count, and zero in
   every other field.
   */
  lemma SavedHeaders(data: seq<Byte>, width: int, height: int)
    requires ImageFits(width, height) && ImageBytes(width, height) <= |data|
    ensures var file := SaveBitmap(true, data, width, height);
            && DecodeFileHeader(file[..FileHeaderSize])
               == FileHeader(Signature, |file| as Dword, 0, 0, HeaderBytes as Dword)
            && DecodeInfoHeader(file[FileHeaderSize..HeaderBytes])
               == InfoHeader(InfoHeaderSize as Dword, width as Long, (-height) as Long, 1, 32, BiRgb,
                             ImageBytes(width, height) as Dword, 0, 0, 0, 0)
  {
    var file := SaveBitmap(true, data, width, height);
    var fh := EncodeFileHeader(FileHeaderFor(width, height));
    var ih := EncodeInfoHeader(InfoHeaderFor(width, height));
    assert file[..FileHeaderSize] == fh;
    assert file[FileHeaderSize..HeaderBytes] == ih;
    FileHeaderRoundTrip(FileHeaderFor(width, height));
    InfoHeaderRoundTrip(InfoHeaderFor(width, height));
  }

  // Reading a 32-bit BMP back

  /** An uncompressed 32-bit image: `height` rows of `width` pixels, stored top-down or bottom-up. */
  datatype Image = Image(width: nat, height: nat, bottomUp: bool, pixels: seq<Byte>)

  function Abs(x: int): nat
  {
    if x < 0 then -x else x
  }

  /**
   A reader of uncompressed 32-bit BMP files that accepts a file only when
   its headers agree with each other and with the file's length.
   */
  function ParseBitmap(file: seq<Byte>): (r: Option<Image>)
    ensures r.Some? ==> |r.value.pixels| == r.value.width * r.value.height * 4
    ensures r.Some? ==> HeaderBytes + |r.value.pixels| <= |file|
    ensures r.Some? ==> r.value.pixels == file[|file| - |r.value.pixels|..]
  {
    if |file| < HeaderBytes then None
    else
      var fh := DecodeFileHeader(file[..FileHeaderSize]);
      var ih := DecodeInfoHeader(file[FileHeaderSize..HeaderBytes]);
      if || fh.bfType != Signature || fh.bfSize as int != |file|
         || fh.bfOffBits < HeaderBytes as Dword || fh.bfOffBits as int > |file|
         || ih.biSize != InfoHeaderSize as Dword || ih.biPlanes != 1 || ih.biBitCount != 32
         || ih.biCompression != BiRgb || ih.biWidth < 0
         || ih.biWidth as int * Abs(ih.biHeight as int) * 4 != |file| - fh.bfOffBits as int
      then None
      else Some(Image(ih.biWidth as nat, Abs(ih.biHeight as int), ih.biHeight > 0, file[fh.bfOffBits..]))
  }

  /** A file `SaveBitmap` writes reads back as the top-down image it was given. */
  lemma {:induction false} SavedBitmapParses(data: seq<Byte>, width: int, height: int)
    requires ImageFits(width, height) && ImageBytes(width, height) <= |data|
    ensures ParseBitmap(SaveBitmap(true, data, width, height))
            == Some(Image(width, height, false, data[..ImageBytes(width, height)]))
  {
    SavedHeaders(data, width, height);
    var file := SaveBitmap(true, data, width, height);
    var fh := DecodeFileHeader(file[..FileHeaderSize]);
    var ih := DecodeInfoHeader(file[FileHeaderSize..HeaderBytes]);
    assert ih.biWidth as int == width && Abs(ih.biHeight as int) == height && !(ih.biHeight > 0);
    assert fh.bfOffBits as int == HeaderBytes;
    assert ih.biWidth as int * Abs(ih.biHeight as int) * 4 == |file| - HeaderBytes by {
      ImageBytesIsProduct(width, height);
    }
  }
}
