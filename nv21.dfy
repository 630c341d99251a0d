/** The full-colour decoder, DrawOnTop.decodeYUV420SP: it converts a YUV420SP (NV21) frame
    (a width × height luma plane followed by interleaved V, U samples at half resolution in
    both directions) into packed ARGB words, as Java `int` values. The arithmetic is the
    fixed-point (× 1024) form of the Y'CbCr to R'G'B' conversion of section 2.5 of
    Recommendation ITU-R BT.601, with video-range luma offset 16 and chroma offset 128.
    Bytes are read unsigned, as `0xFF & b` does; every intermediate value stays far
    inside the 32-bit range (ChannelSumsFitInt32), so the source's `int` arithmetic is
    unbounded-integer arithmetic here. */
module Nv21 {
  import opened Rasters

  /** Java's 32-bit `int` range. */
  predicate IsInt32(x: int) {
    -0x8000_0000 <= x < 0x8000_0000
  }

  /** `y = (0xFF & b) - 16; if (y < 0) y = 0;` */
  function LumaTerm(yb: Byte): (y: int)
    ensures 0 <= y <= 239
    ensures Unsigned(yb) >= 16 ==> y + 16 == Unsigned(yb)
  {
    var y := Unsigned(yb) - 16;
    if y < 0 then 0 else y
  }

  /** `(0xFF & b) - 128` */
  function ChromaTerm(b: Byte): (c: int)
    ensures -128 <= c <= 127
  {
    Unsigned(b) - 128
  }

  /** For every luma and chroma byte, each of the source's three channel sums
      `1192 * y + 1634 * v`, `1192 * y - 833 * v - 400 * u` and `1192 * y + 2066 * u` lies
      inside the 32-bit range (within 2^20 of zero), so no `int` wraps around. */
  lemma ChannelSumsFitInt32(yb: Byte, ub: Byte, vb: Byte)
    ensures var y, u, v := LumaTerm(yb), ChromaTerm(ub), ChromaTerm(vb);
      -0x10_0000 <= 1192 * y + 1634 * v < 0x10_0000 &&
      -0x10_0000 <= 1192 * y - 833 * v - 400 * u < 0x10_0000 &&
      -0x10_0000 <= 1192 * y + 2066 * u < 0x10_0000 &&
      IsInt32(1192 * y + 1634 * v) && IsInt32(1192 * y - 833 * v - 400 * u) && IsInt32(1192 * y + 2066 * u)
  {
  }

  /** `if (x < 0) x = 0; else if (x > 0x3FFFF) x = 0x3FFFF;` */
  function Clamp18(x: int): (r: int)
    ensures 0 <= r <= 0x3FFFF
  {
    if x < 0 then 0 else if x > 0x3FFFF then 0x3FFFF else x
  }

  /** The channels of an ARGB word: bits 24 to 31, 16 to 23, 8 to 15 and 0 to 7 of its
      two's-complement form (Dafny's `/` and `%` are Euclidean, so this holds for negative
      words too). */
  function Alpha(p: int): int { p / 0x100_0000 % 0x100 }
  function Red(p: int): int { p / 0x1_0000 % 0x100 }
  function Green(p: int): int { p / 0x100 % 0x100 }
  function Blue(p: int): int { p % 0x100 }

  /** `0xFF000000 | ((r << 6) & 0xFF0000) | ((g >> 2) & 0xFF00) | ((b >> 10) & 0xFF)` for
      18-bit r, g, b: the three masks pick out bits 10 to 17 of each input, in disjoint
      bytes, so the word is alpha 0xFF (Java value -0x1000000) plus the three fields
      (JavaPackIsFieldSum). An opaque pixel whose channels are the top eight bits of each. */
  function Pack(r: int, g: int, b: int): int
    requires 0 <= r <= 0x3FFFF && 0 <= g <= 0x3FFFF && 0 <= b <= 0x3FFFF
  {
    -0x100_0000 + (r / 1024) * 0x1_0000 + (g / 1024) * 0x100 + b / 1024
  }

  /** A packed word is opaque, and its channels are the top eight bits of each 18-bit input. */
  lemma PackChannels(r: int, g: int, b: int)
    requires 0 <= r <= 0x3FFFF && 0 <= g <= 0x3FFFF && 0 <= b <= 0x3FFFF
    ensures IsInt32(Pack(r, g, b)) && Pack(r, g, b) < 0 && Alpha(Pack(r, g, b)) == 0xFF
    ensures Red(Pack(r, g, b)) == r / 1024 && Green(Pack(r, g, b)) == g / 1024 && Blue(Pack(r, g, b)) == b / 1024
  {
    FieldsOfWord(Pack(r, g, b), r / 1024, g / 1024, b / 1024);
  }

  /** Reading the channels back out of alpha 0xFF plus three byte fields. */
  lemma {:induction false} FieldsOfWord(p: int, rr: int, gg: int, bb: int)
    requires 0 <= rr < 0x100 && 0 <= gg < 0x100 && 0 <= bb < 0x100
    requires p == -0x100_0000 + rr * 0x1_0000 + gg * 0x100 + bb
    ensures Alpha(p) == 0xFF && Red(p) == rr && Green(p) == gg && Blue(p) == bb
  {
    DivModUnique(p, 0x100_0000, -1, rr * 0x1_0000 + gg * 0x100 + bb);
    DivModUnique(-1, 0x100, -1, 0xFF);
    DivModUnique(p, 0x1_0000, -0x100 + rr, gg * 0x100 + bb);
    DivModUnique(-0x100 + rr, 0x100, -1, rr);
    DivModUnique(p, 0x100, -0x1_0000 + rr * 0x100 + gg, bb);
    DivModUnique(-0x1_0000 + rr * 0x100 + gg, 0x100, -0x100 + rr, gg);
  }

  /** The source's packing expression on 32-bit words: with 18-bit inputs its OR is the sum
      of alpha and the three shifted fields, which is what Pack computes on integers. */
  lemma JavaPackIsFieldSum(r: bv32, g: bv32, b: bv32)
    requires r <= 0x3FFFF && g <= 0x3FFFF && b <= 0x3FFFF
    ensures 0xFF00_0000 | ((r << 6) & 0xFF_0000) | ((g >> 2) & 0xFF00) | ((b >> 10) & 0xFF) ==
      0xFF00_0000 + ((r >> 10) << 16) + ((g >> 10) << 8) + (b >> 10)
    ensures r >> 10 <= 0xFF && g >> 10 <= 0xFF && b >> 10 <= 0xFF
  {
  }

  /** The per-pixel statements of the decoder on the offset luma term y and chroma terms
      u, v: the red, green and blue sums, each clamped to 18 bits, then packed. */
  function ArgbOf(y: int, u: int, v: int): int {
    var y1192 := 1192 * y;
    Pack(Clamp18(y1192 + 1634 * v), Clamp18(y1192 - 833 * v - 400 * u), Clamp18(y1192 + 2066 * u))
  }

  /** One converted pixel from its luma byte and its shared chroma pair. */
  function PixelOf(yb: Byte, ub: Byte, vb: Byte): int {
    ArgbOf(LumaTerm(yb), ChromaTerm(ub), ChromaTerm(vb))
  }

  /** Every converted pixel is opaque, and each channel is its clamped channel sum divided
      by 1024, hence within [0, 255]. */
  lemma PixelChannels(yb: Byte, ub: Byte, vb: Byte)
    ensures var p, y, u, v := PixelOf(yb, ub, vb), LumaTerm(yb), ChromaTerm(ub), ChromaTerm(vb);
      IsInt32(p) && p < 0 && Alpha(p) == 0xFF &&
      Red(p) == Clamp18(1192 * y + 1634 * v) / 1024 &&
      Green(p) == Clamp18(1192 * y - 833 * v - 400 * u) / 1024 &&
      Blue(p) == Clamp18(1192 * y + 2066 * u) / 1024 &&
      Red(p) <= 0xFF && Green(p) <= 0xFF && Blue(p) <= 0xFF
  {
    var y, u, v := LumaTerm(yb), ChromaTerm(ub), ChromaTerm(vb);
    var r, g, b := Clamp18(1192 * y + 1634 * v), Clamp18(1192 * y - 833 * v - 400 * u), Clamp18(1192 * y + 2066 * u);
    assert PixelOf(yb, ub, vb) == Pack(r, g, b);
    PackChannels(r, g, b);
  }

  /** Neutral chroma (both samples 128 unsigned, -128 as Java bytes) gives a grey pixel:
      the three channels are equal, and they grow with luma. */
  lemma NeutralChromaIsGrey(yb: Byte, yb': Byte)
    requires Unsigned(yb) <= Unsigned(yb')
    ensures Red(PixelOf(yb, -128, -128)) == Green(PixelOf(yb, -128, -128)) == Blue(PixelOf(yb, -128, -128))
    ensures Red(PixelOf(yb, -128, -128)) <= Red(PixelOf(yb', -128, -128))
  {
    PixelChannels(yb, -128, -128);
    PixelChannels(yb', -128, -128);
    assert ChromaTerm(-128) == 0;
  }

  /** Luma at or below the video-range black level 16 with neutral chroma gives opaque
      black, the word 0xFF000000 (-0x1000000 as a Java int). */
  lemma BlackLevelIsBlack(yb: Byte)
    requires Unsigned(yb) <= 16
    ensures PixelOf(yb, -128, -128) == -0x100_0000
  {
    assert LumaTerm(yb) == 0;
  }

  /** Offset of the V sample of the chroma pair used by pixel (j, i); U follows it. Rows
      j and j + 1 (j even) share a chroma row, columns i and i + 1 (i even) a pair. */
  function ChromaIndex(width: int, height: int, j: int, i: int): int {
    RowChromaStart(width, height, j) + 2 * (i / 2)
  }

  /** `frameSize + (j >> 1) * width`: where the chroma row of pixel row j starts. */
  function RowChromaStart(width: int, height: int, j: int): int {
    width * height + (j / 2) * width
  }

  /** Column i reads the pair at 2 * (i / 2) within its chroma row; after column i the
      decoder's pointer has moved 2 * ((i + 1) / 2) along that row. */
  lemma ChromaColumn(i: nat)
    ensures 2 * (i / 2) == if i % 2 == 0 then i else i - 1
    ensures 2 * ((i + 1) / 2) == if i % 2 == 0 then i else i + 1
  {
  }

  /** The buffer holds the last chroma pair the decoder reads (when there is any pixel). */
  predicate ChromaFits(length: int, width: int, height: int) {
    width > 0 && height > 0 ==> ChromaIndex(width, height, height - 1, width - 1) + 1 < length
  }

  /** Every read of the decoder is inside the buffer: luma below width * height, chroma from
      width * height on. */
  lemma {:induction false} ReadsInBuffer(length: int, width: nat, height: nat, j: int, i: int)
    requires ChromaFits(length, width, height)
    requires 0 <= j < height && 0 <= i < width
    ensures 0 <= RowMajor(width, j, i) < width * height
    ensures 0 <= width * height <= ChromaIndex(width, height, j, i) && ChromaIndex(width, height, j, i) + 1 < length
  {
    RowMajorInRange(width, height, j, i);
    MulMonotone(0, j / 2, width);
    MulMonotone(j / 2, (height - 1) / 2, width);
  }

  /** The four pixels of each 2 × 2 block read the same chroma pair. */
  lemma BlockSharesChroma(width: int, height: int, a: nat, b: nat)
    ensures ChromaIndex(width, height, 2 * a, 2 * b) == ChromaIndex(width, height, 2 * a, 2 * b + 1)
    ensures ChromaIndex(width, height, 2 * a, 2 * b) == ChromaIndex(width, height, 2 * a + 1, 2 * b)
    ensures ChromaIndex(width, height, 2 * a, 2 * b) == ChromaIndex(width, height, 2 * a + 1, 2 * b + 1)
  {
  }

  /** For even dimensions a frame of the standard length width * height * 3 / 2 holds every
      chroma pair the decoder reads. */
  lemma {:induction false} StandardFrameFits(width: nat, height: nat)
    requires width % 2 == 0 && height % 2 == 0
    ensures ChromaFits(width * height * 3 / 2, width, height)
  {
    if width > 0 && height > 0 {
      var h2, w2 := height / 2, width / 2;
      assert height == 2 * h2 && width == 2 * w2;
      assert (height - 1) / 2 == h2 - 1 && (width - 1) / 2 == w2 - 1;
      assert width * height == 4 * (w2 * h2) by {
        assert width * height == (2 * w2) * (2 * h2);
      }
      assert (h2 - 1) * width == 2 * (w2 * h2) - width by {
        assert (h2 - 1) * width == h2 * width - width;
        assert h2 * width == h2 * (2 * w2);
      }
      assert width * height * 3 / 2 == 6 * (w2 * h2);
    }
  }

  /** The pixel of cell (j, i): luma byte j * width + i, and the chroma pair of its 2 × 2
      block. */
  function PixelAt(yuv: seq<Byte>, width: nat, height: nat, j: int, i: int): int
    requires ChromaFits(|yuv|, width, height)
    requires 0 <= j < height && 0 <= i < width
  {
    ReadsInBuffer(|yuv|, width, height, j, i);
    var c := ChromaIndex(width, height, j, i);
    PixelOf(yuv[RowMajor(width, j, i)], yuv[c + 1], yuv[c])
  }

  /** A row of n pixels whose luma starts at offset `luma` and whose chroma pairs start at
      offset `chroma` lies in a buffer of the given length. */
  predicate RowFits(length: int, luma: int, chroma: int, n: nat) {
    0 <= luma && luma + n <= length && 0 <= chroma && (n > 0 ==> chroma + 2 * ((n - 1) / 2) + 1 < length)
  }

  /** Pixel i of such a row: luma byte luma + i and the chroma pair at chroma + 2 * (i / 2). */
  function RowPixel(yuv: seq<Byte>, luma: int, chroma: int, i: int): int
    requires 0 <= i && 0 <= luma + i < |yuv| && 0 <= chroma && chroma + 2 * (i / 2) + 1 < |yuv|
  {
    PixelOf(yuv[luma + i], yuv[chroma + 2 * (i / 2) + 1], yuv[chroma + 2 * (i / 2)])
  }

  /** Row j of the decoder reads luma from j * width and chroma from the start of chroma
      row j / 2, all inside the buffer. */
  lemma {:induction false} RowReadsInBuffer(length: nat, width: nat, height: nat, j: nat)
    requires ChromaFits(length, width, height) && j < height
    ensures RowStart(width, j) == RowMajor(width, j, 0)
    ensures RowFits(length, RowStart(width, j), RowChromaStart(width, height, j), width)
  {
    RowStartIsRowMajor(width, j);
    MulMonotone(0, j / 2, width);
    MulMonotone(0, height, width);
    if width > 0 {
      ReadsInBuffer(length, width, height, j, width - 1);
      assert RowMajor(width, j, 0) + width == RowMajor(width, j, width - 1) + 1;
      assert ChromaIndex(width, height, j, width - 1) == RowChromaStart(width, height, j) + 2 * ((width - 1) / 2);
    }
  }

  /** Pixel i of row j is the pixel of cell (j, i). */
  lemma {:induction false} RowIsCells(yuv: seq<Byte>, width: nat, height: nat, j: nat, i: int)
    requires ChromaFits(|yuv|, width, height) && j < height && 0 <= i < width
    ensures RowStart(width, j) + i == RowMajor(width, j, i)
    ensures RowFits(|yuv|, RowStart(width, j), RowChromaStart(width, height, j), width)
    ensures RowPixel(yuv, RowStart(width, j), RowChromaStart(width, height, j), i) == PixelAt(yuv, width, height, j, i)
  {
    RowReadsInBuffer(|yuv|, width, height, j);
    ReadsInBuffer(|yuv|, width, height, j, i);
  }

  /** decodeYUV420SP: word j * width + i of `rgb` becomes the pixel of cell (j, i), converted
      from luma byte j * width + i and the chroma pair of its 2 × 2 block; the rest of `rgb`
      is left as it was. The running pointer `pix` runs through all rows, and `uvp` restarts
      at each row's chroma row, as in the source. */
  method DecodeYuv420sp(rgb: array<int>, yuv: array<Byte>, width: nat, height: nat)
    requires width * height <= rgb.Length
    requires ChromaFits(yuv.Length, width, height)
    modifies rgb
    ensures forall j, i :: 0 <= j < height && 0 <= i < width ==>
      0 <= RowMajor(width, j, i) < width * height && rgb[RowMajor(width, j, i)] == PixelAt(yuv[..], width, height, j, i)
    ensures forall k :: width * height <= k < rgb.Length ==> rgb[k] == old(rgb[k])
  {
    ghost var buf := yuv[..];
    RowStartIsRowMajor(width, height);
    var j, pix := 0, 0;
    while j < height
      invariant 0 <= j <= height
      invariant pix == RowStart(width, j) <= width * height
      invariant forall jj :: 0 <= jj < j ==> RowStart(width, jj) + width <= pix
      invariant forall jj, i :: 0 <= jj < j && 0 <= i < width ==>
        rgb[RowStart(width, jj) + i] == PixelAt(buf, width, height, jj, i)
      invariant forall k :: pix <= k < rgb.Length ==> rgb[k] == old(rgb[k])
    {
      ghost var pix0 := pix;
      pix := DecodeFrameRow(rgb, yuv, width, height, j, pix);
      assert yuv[..] == buf;
      forall jj | 0 <= jj < j + 1
        ensures RowStart(width, jj) + width <= pix
      {
        RowStartBelow(width, jj, j + 1);
      }
      forall jj, i | 0 <= jj < j + 1 && 0 <= i < width
        ensures rgb[RowStart(width, jj) + i] == PixelAt(buf, width, height, jj, i)
      {
        if jj < j {
          RowStartBelow(width, jj, j);
        }
      }
      j := j + 1;
    }
    RowsAreCells(rgb[..], buf, width, height);
  }

  /** One pass of the decoder's outer loop: row j, whose luma starts at `pix`, is decoded
      with `uvp` at `frameSize + (j >> 1) * width`. */
  method DecodeFrameRow(rgb: array<int>, yuv: array<Byte>, width: nat, height: nat, j: nat, pix: int)
    returns (pix': int)
    requires width * height <= rgb.Length
    requires ChromaFits(yuv.Length, width, height)
    requires j < height && pix == RowStart(width, j)
    modifies rgb
    ensures pix' == RowStart(width, j + 1) <= width * height
    ensures forall i :: 0 <= i < width ==> rgb[pix + i] == PixelAt(yuv[..], width, height, j, i)
    ensures forall k :: 0 <= k < pix ==> rgb[k] == old(rgb[k])
    ensures forall k :: pix' <= k < rgb.Length ==> rgb[k] == old(rgb[k])
  {
    var frameSize := width * height;
    var uvp := frameSize + (j / 2) * width;
    RowReadsInBuffer(yuv.Length, width, height, j);
    RowStartIsRowMajor(width, j + 1);
    MulMonotone(j + 1, height, width);
    pix' := DecodeRow(rgb, yuv, width, pix, uvp);
    forall i | 0 <= i < width
      ensures rgb[pix + i] == PixelAt(yuv[..], width, height, j, i)
    {
      RowIsCells(yuv[..], width, height, j, i);
    }
  }

  /** Offsets counted row by row are the row-major offsets of the cells. */
  lemma RowsAreCells(s: seq<int>, yuv: seq<Byte>, width: nat, height: nat)
    requires ChromaFits(|yuv|, width, height) && width * height <= |s|
    requires forall jj :: 0 <= jj < height ==> RowStart(width, jj) + width <= |s|
    requires forall jj, i :: 0 <= jj < height && 0 <= i < width ==>
      s[RowStart(width, jj) + i] == PixelAt(yuv, width, height, jj, i)
    ensures forall j, i :: 0 <= j < height && 0 <= i < width ==>
      0 <= RowMajor(width, j, i) < width * height && s[RowMajor(width, j, i)] == PixelAt(yuv, width, height, j, i)
  {
    forall j, i | 0 <= j < height && 0 <= i < width
      ensures 0 <= RowMajor(width, j, i) < width * height && s[RowMajor(width, j, i)] == PixelAt(yuv, width, height, j, i)
    {
      RowIsCells(yuv, width, height, j, i);
      RowMajorInRange(width, height, j, i);
    }
  }

  /** The inner loop of the decoder over one row: the row's luma starts at `pix` and its
      chroma row at `uvp`; u and v start at 0. Returns the advanced `pix`; only the row's
      own words of `rgb` change. */
  method DecodeRow(rgb: array<int>, yuv: array<Byte>, width: nat, pix0: int, uvp0: int)
    returns (pix: int)
    requires RowFits(yuv.Length, pix0, uvp0, width) && pix0 + width <= rgb.Length
    modifies rgb
    ensures pix == pix0 + width
    ensures forall k :: pix0 <= k < pix ==> rgb[k] == RowPixel(yuv[..], pix0, uvp0, k - pix0)
    ensures forall k :: 0 <= k < pix0 ==> rgb[k] == old(rgb[k])
    ensures forall k :: pix <= k < rgb.Length ==> rgb[k] == old(rgb[k])
  {
    var uvp, u, v := uvp0, 0, 0;
    var i := 0;
    pix := pix0;
    while i < width
      invariant 0 <= i <= width
      invariant pix == pix0 + i
      invariant ChromaState(yuv[..], uvp0, i, uvp, u, v)
      invariant forall k :: pix0 <= k < pix ==> rgb[k] == RowPixel(yuv[..], pix0, uvp0, k - pix0)
      invariant forall k :: 0 <= k < rgb.Length && !(pix0 <= k < pix) ==> rgb[k] == old(rgb[k])
    {
      uvp, u, v := DecodePixel(rgb, yuv, width, pix0, uvp0, i, uvp, u, v);
      i, pix := i + 1, pix + 1;
    }
  }

  /** The chroma state of the inner loop before column i of a row whose chroma starts at
      `chroma`: `uvp` has moved 2 * ((i + 1) / 2) along it, and on an odd column u and v
      still hold the pair read at the even column before. */
  predicate ChromaState(buf: seq<Byte>, chroma: int, i: int, uvp: int, u: int, v: int) {
    uvp == chroma + 2 * ((i + 1) / 2) &&
    (i % 2 == 1 ==>
      0 <= uvp - 2 && uvp - 1 < |buf| && v == ChromaTerm(buf[uvp - 2]) && u == ChromaTerm(buf[uvp - 1]))
  }

  /** The body of the inner loop for column i of a row: on an even column it reads the next
      V, U pair at `uvp` and advances `uvp` by two; it then stores pixel i of the row at
      offset pix0 + i, and nothing else in `rgb` changes. */
  method DecodePixel(rgb: array<int>, yuv: array<Byte>, width: nat, pix0: int, uvp0: int, i: int,
                     uvp: int, u: int, v: int)
    returns (uvp': int, u': int, v': int)
    requires RowFits(yuv.Length, pix0, uvp0, width) && pix0 + width <= rgb.Length
    requires 0 <= i < width
    requires ChromaState(yuv[..], uvp0, i, uvp, u, v)
    requires forall k :: pix0 <= k < pix0 + i ==> rgb[k] == RowPixel(yuv[..], pix0, uvp0, k - pix0)
    modifies rgb
    ensures ChromaState(yuv[..], uvp0, i + 1, uvp', u', v')
    ensures forall k :: pix0 <= k < pix0 + i + 1 ==> rgb[k] == RowPixel(yuv[..], pix0, uvp0, k - pix0)
    ensures forall k :: 0 <= k < rgb.Length && k != pix0 + i ==> rgb[k] == old(rgb[k])
  {
    ChromaColumn(i);
    ChromaColumn(i + 1);
    var pix := pix0 + i;
    uvp', u', v' := uvp, u, v;
    var y := LumaTerm(yuv[pix]);
    if i % 2 == 0 {
      v' := ChromaTerm(yuv[uvp']);
      u' := ChromaTerm(yuv[uvp' + 1]);
      uvp' := uvp' + 2;
    }
    rgb[pix] := ArgbOf(y, u', v');
  }
}
