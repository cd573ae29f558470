/** Decoding an uncompressed bitmap by one walk over the file (EfiGraph.c, lines 485-672). */
module Bitmap {
  import opened Bytes
  import opened TableLayout

  datatype Pixel = Pixel(blue: byte, green: byte, red: byte)

  const HEADER: nat := 54
  const BLACK := Pixel(0, 0, 0)

  /** The bytes for a line of this many bits, in 32-bit arithmetic. */
  function Stride(bits: nat): nat {
    (bits + 31) % TWO_32 / 8 / 4 * 4
  }

  /** The fields of BMP_IMAGE_HEADER that are looked at. */
  datatype Header = Header(size: u32, imageOffset: u32, headerSize: u32, width: u32, height: u32, bitPerPixel: u16,
                           compression: u32) {
    /** The bytes per line, a multiple of four, in 32-bit arithmetic. */
    function DataSizePerLine(): nat {
      Stride(width * bitPerPixel)
    }

    function ColorMapNum(): nat {
      if bitPerPixel == 1 then 2 else if bitPerPixel == 4 then 16 else if bitPerPixel == 8 then 256 else 0
    }
  }

  function HeaderOf(img: seq<byte>): Header
    requires |img| >= HEADER
  {
    var lo: int, hi: int := img[28], img[29];
    Header(U32At(img, 2), U32At(img, 10), U32At(img, 14), U32At(img, 18), U32At(img, 22), lo + 0x100 * hi,
           U32At(img, 30))
  }

  datatype Status = Success | InvalidParameter | Unsupported

  /** The checks before the first pixel (lines 506-585). */
  function Checked(img: seq<byte>): Status {
    if |img| < HEADER then InvalidParameter
    else
      var h := HeaderOf(img);
      var line := h.DataSizePerLine();
      if img[0] != 0x42 || img[1] != 0x4D || h.compression != 0 || h.headerSize != 40 then Unsupported
      else if line * h.height >= TWO_32 then InvalidParameter
      else if h.size != |img| || h.size < h.imageOffset || h.size - h.imageOffset != h.height * line then
        InvalidParameter
      else if h.imageOffset < HEADER then InvalidParameter
      else if h.imageOffset > HEADER && h.imageOffset - HEADER != 4 * h.ColorMapNum() then InvalidParameter
      else if h.width * h.height > (TWO_64 - 1) / 4 then Unsupported
      else Success
  }

  predicate Supported(bpp: int) {
    bpp == 1 || bpp == 4 || bpp == 8 || bpp == 24
  }

  /** The bytes that the first n pixels of a line take. */
  function LineBytes(bpp: int, n: nat): nat
    requires Supported(bpp)
  {
    if bpp == 1 then (n + 7) / 8 else if bpp == 4 then (n + 1) / 2 else if bpp == 8 then n else 3 * n
  }

  /** The 32-bit computation of the line size does not wrap around. */
  predicate Fits(width: int, bpp: int) {
    width * bpp + 31 < TWO_32
  }

  lemma StrideExact(bits: nat, bytes: nat)
    requires bytes == (bits + 7) / 8
    ensures bits + 31 < TWO_32 ==> Stride(bits) == (bytes + 3) / 4 * 4
    ensures bytes <= Stride(bits) <==> bits + 31 < TWO_32
  {
    var all := bits + 31;
    var low := all % TWO_32;
    if all >= TWO_32 {
      assert low + TWO_32 <= all;
    }
  }

  lemma LineBits(bpp: nat, n: nat)
    requires Supported(bpp)
    ensures LineBytes(bpp, n) == (n * bpp + 7) / 8
  {
    if bpp == 1 {
      assert n * bpp == n;
    } else if bpp == 4 {
      assert n * bpp == 4 * n;
    } else if bpp == 8 {
      assert n * bpp == 8 * n;
    } else {
      assert n * bpp == 24 * n;
    }
  }

  /** A line holds its pixels exactly when the computation of its size does not wrap around. */
  lemma LineHoldsExactly(h: Header)
    requires Supported(h.bitPerPixel)
    ensures LineBytes(h.bitPerPixel, h.width) <= h.DataSizePerLine() <==> Fits(h.width, h.bitPerPixel)
    ensures Fits(h.width, h.bitPerPixel) ==> h.DataSizePerLine() == (LineBytes(h.bitPerPixel, h.width) + 3) / 4 * 4
  {
    hide Stride, LineBytes;
    LineBits(h.bitPerPixel, h.width);
    StrideExact(h.width * h.bitPerPixel, LineBytes(h.bitPerPixel, h.width));
  }

  // ---- the reference: direct addressing ----

  /** Palette entry i. */
  function Palette(img: seq<byte>, i: nat): Pixel
    requires HEADER + 4 * i + 3 <= |img|
  {
    Pixel(img[HEADER + 4 * i], img[HEADER + 4 * i + 1], img[HEADER + 4 * i + 2])
  }

  function Bit(b: byte, i: nat): nat
    requires i < 8
    ensures Bit(b, i) < 2
  {
    (if i == 0 then b / 128 else if i == 1 then b / 64 else if i == 2 then b / 32 else if i == 3 then b / 16
     else if i == 4 then b / 8 else if i == 5 then b / 4 else if i == 6 then b / 2 else b) % 2
  }

  /** The palette index of a pixel: a bit, half a byte, a byte. */
  function IndexAt(img: seq<byte>, bpp: int, line: nat, c: nat): (i: nat)
    requires Supported(bpp) && bpp != 24 && line + LineBytes(bpp, c + 1) <= |img|
    ensures i < if bpp == 1 then 2 else if bpp == 4 then 16 else 256
  {
    if bpp == 1 then Bit(img[line + c / 8], c % 8)
    else if bpp == 4 then var b: int := img[line + c / 2]; if c % 2 == 0 then b / 16 else b % 16
    else img[line + c]
  }

  /** The bytes of a pixel, and the palette entry they name, lie in the file. */
  predicate Inside(img: seq<byte>, bpp: int, line: nat, c: nat) {
    && Supported(bpp) && line + LineBytes(bpp, c + 1) <= |img|
    && (bpp == 24 || HEADER + 4 * IndexAt(img, bpp, line, c) + 3 <= |img|)
  }

  /** All pixels of a line do. */
  predicate LineInside(img: seq<byte>, bpp: int, line: nat, width: nat) {
    Supported(bpp) && line + LineBytes(bpp, width) <= |img| && forall c: nat :: c < width ==> Inside(img, bpp, line, c)
  }

  /** The pixel in column c of the line that begins at `line`. */
  function ColorAt(img: seq<byte>, bpp: int, line: nat, c: nat): Pixel
    requires Inside(img, bpp, line, c)
  {
    if bpp == 24 then Pixel(img[line + 3 * c], img[line + 3 * c + 1], img[line + 3 * c + 2])
    else Palette(img, IndexAt(img, bpp, line, c))
  }

  // ---- the walk ----

  /** The columns at which a byte of the line begins. */
  predicate Whole(bpp: int, column: int) {
    (bpp == 1 ==> column % 8 == 0) && (bpp == 4 ==> column % 2 == 0)
  }

  /** Pixel `first` + c is the pixel in column c of the line. */
  predicate Right(img: seq<byte>, bpp: int, line: nat, pixels: seq<Pixel>, first: nat, c: nat) {
    && Inside(img, bpp, line, c) && first + c < |pixels| && pixels[first + c] == ColorAt(img, bpp, line, c)
  }

  predicate SameOutside(s: seq<Pixel>, t: seq<Pixel>, lo: nat, hi: nat) {
    |s| == |t| && forall k :: 0 <= k < |s| && !(lo <= k < hi) ==> s[k] == t[k]
  }

  /** The columns from lo up to hi are right. */
  predicate Done(img: seq<byte>, bpp: int, line: nat, pixels: seq<Pixel>, first: nat, lo: nat, hi: nat) {
    forall c: nat :: lo <= c < hi ==> Right(img, bpp, line, pixels, first, c)
  }

  lemma DoneNext(img: seq<byte>, bpp: int, line: nat, s: seq<Pixel>, t: seq<Pixel>, first: nat, lo: nat, hi: nat)
    requires Done(img, bpp, line, s, first, lo, hi) && lo <= hi
    requires first + hi < |s| == |t| && t == s[first + hi := t[first + hi]]
    requires Right(img, bpp, line, t, first, hi)
    ensures Done(img, bpp, line, t, first, lo, hi + 1)
  {
    hide LineBytes, Inside, ColorAt;
    forall c: nat | lo <= c < hi + 1 ensures Right(img, bpp, line, t, first, c) {
      if c < hi {
        assert Right(img, bpp, line, s, first, c);
      }
    }
  }

  method Put(ghost img: seq<byte>, ghost bpp: int, ghost line: nat, pixels: array<Pixel>, ghost first: nat,
             ghost lo: nat, blt: nat, p: Pixel)
    requires first + lo <= blt < pixels.Length && Done(img, bpp, line, pixels[..], first, lo, blt - first)
    requires Right(img, bpp, line, pixels[..][blt := p], first, blt - first)
    modifies pixels
    ensures Done(img, bpp, line, pixels[..], first, lo, blt - first + 1)
    ensures pixels[..] == old(pixels[..])[blt := p]
  {
    hide Done, Right;
    ghost var was := pixels[..];
    pixels[blt] := p;
    assert pixels[..] == was[blt := p];
    DoneNext(img, bpp, line, was, pixels[..], first, lo, blt - first);
  }

  /** The bits of one byte. */
  method StepBits(img: seq<byte>, ghost line: nat, image: nat, pixels: array<Pixel>, ghost first: nat, blt: nat,
                  column: nat, width: nat)
    returns (blt': nat, column': nat)
    requires LineInside(img, 1, line, width)
    requires column < width && column % 8 == 0 && image == line + column / 8
    requires blt == first + column && first + width <= pixels.Length
    modifies pixels
    ensures column' == (if column + 8 <= width then column + 8 else width) && blt' == first + column'
    ensures Done(img, 1, line, pixels[..], first, column, column')
    ensures SameOutside(old(pixels[..]), pixels[..], blt, blt')
  {
    hide Done;
    blt', column' := blt, column;
    var index := 0;
    NoneDone(img, 1, line, pixels[..], first, column);
    while index < 8 && column' < width
      invariant index <= 8 && column' == column + index <= width && blt' == first + column'
      invariant Done(img, 1, line, pixels[..], first, column, column')
      invariant SameOutside(old(pixels[..]), pixels[..], blt, blt')
    {
      BitPlace(column, index);
      assert Inside(img, 1, line, column');
      Put(img, 1, line, pixels, first, column, blt', Palette(img, Bit(img[image], index)));
      blt' := blt' + 1;
      column' := column' + 1;
      index := index + 1;
    }
  }

  lemma NoneDone(img: seq<byte>, bpp: int, line: nat, pixels: seq<Pixel>, first: nat, lo: nat)
    ensures Done(img, bpp, line, pixels, first, lo, lo)
  {
  }

  lemma BitPlace(column: nat, index: nat)
    requires column % 8 == 0 && index < 8
    ensures (column + index) / 8 == column / 8 && (column + index) % 8 == index
  {
  }

  /** The one or two pixels of a byte, or the one pixel of one or three bytes. */
  method StepWhole(img: seq<byte>, bpp: int, ghost line: nat, image: nat, pixels: array<Pixel>, ghost first: nat,
                   blt: nat, column: nat,
                   width: nat)
    returns (image': nat, blt': nat, column': nat)
    requires LineInside(img, bpp, line, width) && bpp != 1
    requires column < width && Whole(bpp, column) && image == line + LineBytes(bpp, column)
    requires blt == first + column && first + width <= pixels.Length
    modifies pixels
    ensures column' == column + (if bpp == 4 && column + 1 < width then 1 else 0) && blt' == first + column'
    ensures image' == image + (if bpp == 24 then 2 else 0)
    ensures Done(img, bpp, line, pixels[..], first, column, column' + 1)
    ensures SameOutside(old(pixels[..]), pixels[..], blt, blt' + 1)
  {
    hide Done;
    image', blt', column' := image, blt, column;
    NoneDone(img, bpp, line, pixels[..], first, column);
    assert Inside(img, bpp, line, column);
    if bpp == 4 {
      var b: int := img[image'];
      Put(img, bpp, line, pixels, first, column, blt', Palette(img, b / 16));
      if column' < width - 1 {
        blt' := blt' + 1;
        column' := column' + 1;
        assert Inside(img, bpp, line, column');
        Put(img, bpp, line, pixels, first, column, blt', Palette(img, b % 16));
      }
    } else if bpp == 8 {
      Put(img, bpp, line, pixels, first, column, blt', Palette(img, img[image']));
    } else {
      var blue := img[image'];
      image' := image' + 1;
      var green := img[image'];
      image' := image' + 1;
      Put(img, bpp, line, pixels, first, column, blt', Pixel(blue, green, img[image']));
    }
  }

  /** One turn of the loop over a line, with the steps of the loop header taken at its end. */
  method Step(img: seq<byte>, bpp: int, ghost line: nat, image: nat, pixels: array<Pixel>, ghost first: nat, blt: nat,
              column: nat,
              width: nat)
    returns (image': nat, blt': nat, column': nat)
    requires LineInside(img, bpp, line, width)
    requires column < width && Whole(bpp, column) && image == line + LineBytes(bpp, column)
    requires blt == first + column && first + width <= pixels.Length
    modifies pixels
    ensures column < column' <= width && (column' == width || Whole(bpp, column'))
    ensures image' == line + LineBytes(bpp, column') && blt' == first + column'
    ensures Done(img, bpp, line, pixels[..], first, column, column')
    ensures SameOutside(old(pixels[..]), pixels[..], blt, blt')
  {
    hide Done, SameOutside, Inside;
    if bpp == 1 {
      image' := image;
      blt', column' := StepBits(img, line, image, pixels, first, blt, column, width);
      blt' := blt' - 1;
      column' := column' - 1;
    } else {
      image', blt', column' := StepWhole(img, bpp, line, image, pixels, first, blt, column, width);
    }
    column' := column' + 1;
    image' := image' + 1;
    blt' := blt' + 1;
  }

  /** Lines 601-659: one line of the file. */
  method Line(img: seq<byte>, bpp: int, image: nat, pixels: array<Pixel>, first: nat, width: nat) returns (image': nat)
    requires LineInside(img, bpp, image, width)
    requires first + width <= pixels.Length
    modifies pixels
    ensures image' == image + LineBytes(bpp, width)
    ensures Done(img, bpp, image, pixels[..], first, 0, width)
    ensures SameOutside(old(pixels[..]), pixels[..], first, first + width)
  {
    hide LineBytes, Inside, Done;
    image' := image;
    var column, blt := 0, first;
    NoBytes(bpp);
    NoneDone(img, bpp, image, pixels[..], first, 0);
    while column < width
      invariant column <= width && (column == width || Whole(bpp, column))
      invariant image' == image + LineBytes(bpp, column) && blt == first + column
      invariant Done(img, bpp, image, pixels[..], first, 0, column)
      invariant SameOutside(old(pixels[..]), pixels[..], first, first + column)
    {
      ghost var was, from := pixels[..], column;
      image', blt, column := Step(img, bpp, image, image', pixels, first, blt, column, width);
      DoneTogether(img, bpp, image, was, pixels[..], first, from, column);
    }
  }

  lemma DoneTogether(img: seq<byte>, bpp: int, line: nat, s: seq<Pixel>, t: seq<Pixel>, first: nat, mid: nat, hi: nat)
    requires Done(img, bpp, line, s, first, 0, mid) && Done(img, bpp, line, t, first, mid, hi)
    requires SameOutside(s, t, first + mid, first + hi)
    ensures Done(img, bpp, line, t, first, 0, hi)
  {
    hide LineBytes, Inside, ColorAt;
    forall c: nat | c < hi ensures Right(img, bpp, line, t, first, c) {
      if c < mid {
        assert Right(img, bpp, line, s, first, c);
      }
    }
  }

  lemma NoBytes(bpp: int)
    requires Supported(bpp)
    ensures LineBytes(bpp, 0) == 0
  {
  }

  // ---- the image ----

  /** Where line r of the picture, counted from the top, lies in the file: lines are stored from the bottom. */
  function LineOf(h: Header, r: nat): nat
    requires r < h.height
  {
    h.imageOffset + Times(h.height - 1 - r, h.DataSizePerLine())
  }

  function Times(k: nat, d: nat): nat {
    k * d
  }

  /** Line r of the picture is right. */
  predicate LineRight(img: seq<byte>, h: Header, pixels: seq<Pixel>, r: nat)
    requires r < h.height
  {
    Done(img, h.bitPerPixel, LineOf(h, r), pixels, r * h.width, 0, h.width)
  }

  lemma LineFits(w: nat, r: nat, height: nat)
    requires r < height
    ensures r * w + w <= height * w
  {
    var n: nat := height - r - 1;
    assert height * w == (r + 1 + n) * w == r * w + w + n * w;
  }

  /** The rest of the pointer to the next line: a multiple of four from the first. */
  lemma AlignedNext(k: nat, d: nat, n: nat)
    requires d == (n + 3) / 4 * 4
    ensures var index := k * d + n; index + (if index % 4 != 0 then 4 - index % 4 else 0) == (k + 1) * d
  {
    var e := (n + 3) / 4;
    assert k * d == 4 * (k * e);
    assert (k + 1) * d == k * d + d;
    assert (4 * (k * e) + n) % 4 == n % 4;
  }

  lemma LineKept(img: seq<byte>, h: Header, s: seq<Pixel>, t: seq<Pixel>, lo: nat, hi: nat, r: nat)
    requires r < h.height && LineRight(img, h, s, r) && SameOutside(s, t, lo, hi) && hi <= r * h.width
    ensures LineRight(img, h, t, r)
  {
    hide LineBytes, Inside, ColorAt, LineOf;
    forall c: nat | c < h.width ensures Right(img, h.bitPerPixel, LineOf(h, r), t, r * h.width, c) {
      assert Right(img, h.bitPerPixel, LineOf(h, r), s, r * h.width, c);
    }
  }

  // ---- where the walk reads ----

  function Ceil4(n: nat): nat {
    (n + 3) / 4 * 4
  }

  /** Where the walk begins line k of the file: it steps over the bytes it has used and on to a multiple of four,
      whatever the checks took the line size to be. */
  function WalkLine(h: Header, k: nat): nat
    requires Supported(h.bitPerPixel)
  {
    h.imageOffset + Times(k, Ceil4(LineBytes(h.bitPerPixel, h.width)))
  }

  /** The walk reads nothing outside the file. */
  predicate WalkInside(img: seq<byte>, h: Header)
    requires Supported(h.bitPerPixel)
  {
    forall k: nat :: k < h.height ==> LineInside(img, h.bitPerPixel, WalkLine(h, k), h.width)
  }

  /** An image with something to draw. */
  predicate Drawn(img: seq<byte>) {
    && Checked(img) == Success && Supported(HeaderOf(img).bitPerPixel)
    && HeaderOf(img).width > 0 && HeaderOf(img).height > 0
  }

  /** If the lines fit their size, the walk is where direct addressing is. */
  lemma WalkIsDirect(h: Header, r: nat)
    requires Supported(h.bitPerPixel) && Fits(h.width, h.bitPerPixel) && r < h.height
    ensures WalkLine(h, h.height - 1 - r) == LineOf(h, r)
  {
    hide LineBytes, Stride, Header.DataSizePerLine;
    LineHoldsExactly(h);
  }

  lemma LastLineEnds(k: nat, d: nat, n: nat, e: nat)
    requires k > 0 && d < n <= e
    ensures Times(k - 1, e) + n > k * d
  {
    var j: nat := k - 1;
    assert k * d == j * d + d;
    assert j * e >= j * d by { MulMonotone(j, d, e); }
  }

  lemma MulMonotone(j: nat, d: nat, e: nat)
    requires d <= e
    ensures j * d <= j * e
  {
  }

  /** With a line size that has wrapped around, the last line ends outside the file. */
  lemma WrappedWalksOut(img: seq<byte>, k: nat)
    requires Drawn(img) && !Fits(HeaderOf(img).width, HeaderOf(img).bitPerPixel) && k == HeaderOf(img).height - 1
    ensures WalkLine(HeaderOf(img), k) + LineBytes(HeaderOf(img).bitPerPixel, HeaderOf(img).width) > |img|
  {
    var h := HeaderOf(img);
    CheckedSize(img);
    LineHoldsExactly(h);
    hide LineBytes, Stride, Header.DataSizePerLine, U32At, Fits, Checked;
    LastLineEnds(h.height, h.DataSizePerLine(), LineBytes(h.bitPerPixel, h.width),
                 Ceil4(LineBytes(h.bitPerPixel, h.width)));
  }

  lemma CheckedSize(img: seq<byte>)
    requires Checked(img) == Success
    ensures |img| >= HEADER
    ensures HeaderOf(img).imageOffset + HeaderOf(img).height * HeaderOf(img).DataSizePerLine() == |img|
  {
    hide U32At, Stride;
  }

  /** The walk over a checked image can stay inside the file only if its line size did not wrap around; over one without
      a palette it does so exactly then. */
  lemma WalkInsideExactly(img: seq<byte>)
    requires Drawn(img)
    ensures var h := HeaderOf(img);
      && (WalkInside(img, h) ==> Fits(h.width, h.bitPerPixel))
      && (h.bitPerPixel == 24 ==> (WalkInside(img, h) <==> Fits(h.width, h.bitPerPixel)))
  {
    var h := HeaderOf(img);
    if !Fits(h.width, h.bitPerPixel) {
      WrappedWalksOut(img, h.height - 1);
      assert !LineInside(img, h.bitPerPixel, WalkLine(h, h.height - 1), h.width);
    } else if h.bitPerPixel == 24 {
      forall k: nat | k < h.height ensures LineInside(img, 24, WalkLine(h, k), h.width) {
        FittingLine(img, k);
        TrueColorInside(img, WalkLine(h, k), h.width);
      }
    }
  }

  lemma FittingLine(img: seq<byte>, k: nat)
    requires Drawn(img) && Fits(HeaderOf(img).width, HeaderOf(img).bitPerPixel) && k < HeaderOf(img).height
    ensures WalkLine(HeaderOf(img), k) + LineBytes(HeaderOf(img).bitPerPixel, HeaderOf(img).width) <= |img|
  {
    var h := HeaderOf(img);
    CheckedSize(img);
    LineHoldsExactly(h);
    hide LineBytes, Stride, Header.DataSizePerLine, U32At, Fits, Checked;
    LineFits(h.DataSizePerLine(), k, h.height);
  }

  lemma TrueColorInside(img: seq<byte>, line: nat, width: nat)
    requires line + LineBytes(24, width) <= |img|
    ensures LineInside(img, 24, line, width)
  {
  }

  /** A palette of full size, as the checks demand one where there is any, covers all indices. */
  lemma FullPaletteInside(img: seq<byte>)
    requires Drawn(img) && Fits(HeaderOf(img).width, HeaderOf(img).bitPerPixel)
    requires HeaderOf(img).bitPerPixel == 24 || HeaderOf(img).imageOffset > HEADER
    ensures WalkInside(img, HeaderOf(img))
  {
    var h := HeaderOf(img);
    forall k: nat | k < h.height ensures LineInside(img, h.bitPerPixel, WalkLine(h, k), h.width) {
      FittingLine(img, k);
      PaletteCovers(img);
      CoveredInside(img, h.bitPerPixel, WalkLine(h, k), h.width);
    }
  }

  predicate HasPalette(img: seq<byte>, bpp: int) {
    bpp == 24 || HEADER + (if bpp == 1 then 8 else if bpp == 4 then 64 else 1024) <= |img|
  }

  lemma PaletteCovers(img: seq<byte>)
    requires Drawn(img) && (HeaderOf(img).bitPerPixel == 24 || HeaderOf(img).imageOffset > HEADER)
    ensures HasPalette(img, HeaderOf(img).bitPerPixel)
  {
    hide U32At, Stride, Header.DataSizePerLine;
  }

  lemma CoveredInside(img: seq<byte>, bpp: int, line: nat, width: nat)
    requires Supported(bpp) && HasPalette(img, bpp) && line + LineBytes(bpp, width) <= |img|
    ensures LineInside(img, bpp, line, width)
  {
  }

  /** A file of 58 bytes that passes the checks: one line of 0x0AAAAAAB pixels of 24 bits, whose size comes out as 4. */
  function WrappedFile(): (b: seq<byte>)
    ensures |b| == 58
  {
    [0x42, 0x4D] + Le32(58) + Zeros(4) + Le32(54) + Le32(40) + Le32(0x0AAA_AAAB) + Le32(1) + [1, 0, 24, 0]
    + Le32(0) + Zeros(24)
  }

  lemma WrappedFileHeader()
    ensures HeaderOf(WrappedFile()) == Header(58, 54, 40, 0x0AAA_AAAB, 1, 24, 0)
  {
    var b := WrappedFile();
    assert b[2..6] == Le32(58) && b[10..14] == Le32(54) && b[14..18] == Le32(40) && b[18..22] == Le32(0x0AAA_AAAB);
    assert b[22..26] == Le32(1) && b[30..34] == Le32(0) && b[28] == 24 && b[29] == 0;
    Le32RoundTrip(58);
    Le32RoundTrip(54);
    Le32RoundTrip(40);
    Le32RoundTrip(0x0AAA_AAAB);
    Le32RoundTrip(1);
    Le32RoundTrip(0);
  }

  /** It passes, and the walk over it leaves the file. */
  lemma WrappedFilePasses()
    ensures Drawn(WrappedFile()) && !Fits(HeaderOf(WrappedFile()).width, HeaderOf(WrappedFile()).bitPerPixel)
    ensures !WalkInside(WrappedFile(), HeaderOf(WrappedFile()))
  {
    WrappedFileHeader();
    var b := WrappedFile();
    assert b[0] == 0x42 && b[1] == 0x4D;
    assert Stride(0x0AAA_AAAB * 24) == 4;
    hide HeaderOf, WrappedFile, WalkInside;
    WalkInsideExactly(b);
  }

  // ---- the picture, in bytes ----

  /** The bits of a pixel. */
  function Depth(img: seq<byte>): (n: u16)
    requires |img| >= 54
  {
    var lo: int, hi: int := img[28], img[29];
    lo + 256 * hi
  }

  /** The bytes of a row of so many bits, in whole words. */
  function RowBytes(bits: nat): nat {
    (bits + 31) / 32 * 4
  }

  function RowBytes32(bits: nat): nat {
    (bits + 31) % 0x1_0000_0000 / 32 * 4
  }

  /** The bytes of a palette, four for each index of so many bits. */
  function PaletteBytes(bits: nat): nat {
    if bits == 1 then 8 else if bits == 4 then 64 else if bits == 8 then 1024 else 0
  }

  /** A file that may be decoded: "BM", its own length, an info header of 40 bytes, no compression, no palette or a full
      one, the rows behind it, and no more pixels than their bytes can be counted in 64 bits. */
  predicate Wellformed(img: seq<byte>) {
    && |img| >= 54 && img[0] == 0x42 && img[1] == 0x4D && WordAt(img, 2) == |img| && WordAt(img, 14) == 40
    && WordAt(img, 30) == 0
    && (WordAt(img, 10) == 54 || (WordAt(img, 10) == 54 + PaletteBytes(Depth(img)) && PaletteBytes(Depth(img)) > 0))
    && WordAt(img, 10) + Times(WordAt(img, 22), RowBytes32(Times(WordAt(img, 18), Depth(img)))) == |img|
    && Times(WordAt(img, 18), WordAt(img, 22)) < 0x4000_0000_0000_0000
  }

  /** The digit of a byte: one of its bits, one of its halves, or the whole of it, the highest first. */
  function Digit(b: byte, bits: nat, i: nat): nat
    requires bits in {1, 4, 8} && i < 8 / bits
  {
    if bits == 8 then b else if bits == 4 then [b / 16, b % 16][i]
    else [b / 128, b / 64 % 2, b / 32 % 2, b / 16 % 2, b / 8 % 2, b / 4 % 2, b / 2 % 2, b % 2][i]
  }

  /** Where row r, counted from the top of the picture, begins: rows are stored from the bottom. */
  function PlaceOf(img: seq<byte>, r: nat): nat
    requires |img| >= 54 && r < WordAt(img, 22)
  {
    WordAt(img, 10) + Times(WordAt(img, 22) - 1 - r, RowBytes(Times(WordAt(img, 18), Depth(img))))
  }

  /** Three bytes are the blue, the green and the red of a pixel. */
  predicate Coloured(img: seq<byte>, p: Pixel, at: nat) {
    at + 2 < |img| && p.blue == img[at] && p.green == img[at + 1] && p.red == img[at + 2]
  }

  /** A pixel has the three bytes of column c of the row, or those of the palette entry that its digit names. */
  predicate PixelRight(img: seq<byte>, p: Pixel, row: nat, c: nat)
    requires |img| >= 54
  {
    var bits := Depth(img);
    if bits == 24 then Coloured(img, p, row + 3 * c)
    else
      && bits in {1, 4, 8} && row + c / (8 / bits) < |img|
      && Coloured(img, p, 54 + 4 * Digit(img[row + c / (8 / bits)], bits, c % (8 / bits)))
  }

  /** Column c of row r of the picture, from the top left. */
  predicate PictureRight(img: seq<byte>, s: seq<Pixel>, r: nat, c: nat)
    requires |img| >= 54 && r < WordAt(img, 22)
  {
    Times(r, WordAt(img, 18)) + c < |s| && PixelRight(img, s[Times(r, WordAt(img, 18)) + c], PlaceOf(img, r), c)
  }

  lemma HeaderInBytes(img: seq<byte>)
    requires |img| >= HEADER
    ensures HeaderOf(img) == Header(WordAt(img, 2), WordAt(img, 10), WordAt(img, 14), WordAt(img, 18), WordAt(img, 22),
                                    Depth(img), WordAt(img, 30))
  {
    hide WordAt, FromLe32;
    WordIsLe(img, 2);
    WordIsLe(img, 10);
    WordIsLe(img, 14);
    WordIsLe(img, 18);
    WordIsLe(img, 22);
    WordIsLe(img, 30);
  }

  lemma StrideWords(bits: nat)
    ensures Stride(bits) == RowBytes32(bits)
    ensures bits + 31 < TWO_32 ==> Stride(bits) == RowBytes(bits)
  {
  }

  /** The checks pass exactly the files that may be decoded. */
  lemma CheckedExactly(img: seq<byte>)
    ensures Checked(img) == Success <==> Wellformed(img)
  {
    hide WordAt, HeaderOf, Depth, Stride, RowBytes32;
    if |img| >= HEADER {
      HeaderInBytes(img);
      var h := HeaderOf(img);
      StrideWords(h.width * h.bitPerPixel);
      assert h.height * h.DataSizePerLine() == h.DataSizePerLine() * h.height;
    }
  }

  lemma IndexIsDigit(img: seq<byte>, bpp: int, line: nat, c: nat)
    requires bpp in {1, 4, 8} && line + LineBytes(bpp, c + 1) <= |img|
    ensures line + c / (8 / bpp) < |img|
    ensures IndexAt(img, bpp, line, c) == Digit(img[line + c / (8 / bpp)], bpp, c % (8 / bpp))
  {
  }

  lemma RowPlace(img: seq<byte>, r: nat)
    requires |img| >= HEADER && r < HeaderOf(img).height
    requires Fits(HeaderOf(img).width, HeaderOf(img).bitPerPixel)
    ensures WordAt(img, 18) == HeaderOf(img).width && WordAt(img, 22) == HeaderOf(img).height
    ensures Depth(img) == HeaderOf(img).bitPerPixel && PlaceOf(img, r) == LineOf(HeaderOf(img), r)
  {
    hide WordAt, HeaderOf, Depth, Stride, RowBytes;
    HeaderInBytes(img);
    var h := HeaderOf(img);
    StrideWords(h.width * h.bitPerPixel);
  }

  /** A row that is right holds the pixels of the file. */
  lemma RowRight(img: seq<byte>, pixels: seq<Pixel>, row: nat, first: nat, c: nat)
    requires |img| >= HEADER && Right(img, Depth(img), row, pixels, first, c)
    ensures first + c < |pixels| && PixelRight(img, pixels[first + c], row, c)
  {
    hide WordAt, Depth, IndexAt, Digit;
    if Depth(img) != 24 {
      IndexIsDigit(img, Depth(img), row, c);
    }
  }

  lemma PixelInBytes(img: seq<byte>, s: seq<Pixel>, r: nat, c: nat)
    requires |img| >= HEADER && r < HeaderOf(img).height && c < HeaderOf(img).width
    requires Fits(HeaderOf(img).width, HeaderOf(img).bitPerPixel) && LineRight(img, HeaderOf(img), s, r)
    ensures r < WordAt(img, 22) && PictureRight(img, s, r, c)
  {
    hide WordAt, HeaderOf, Depth, PixelRight, PlaceOf, Right, LineOf, Fits;
    RowPlace(img, r);
    var h := HeaderOf(img);
    var first := r * h.width;
    assert Right(img, h.bitPerPixel, LineOf(h, r), s, first, c);
    RowRight(img, s, PlaceOf(img, r), first, c);
    assert Times(r, h.width) == first;
  }

  lemma PictureInBytes(img: seq<byte>, s: seq<Pixel>)
    requires |img| >= HEADER
    requires HeaderOf(img).width > 0 && HeaderOf(img).height > 0 ==>
      Fits(HeaderOf(img).width, HeaderOf(img).bitPerPixel)
    requires forall r :: 0 <= r < HeaderOf(img).height ==> LineRight(img, HeaderOf(img), s, r)
    ensures WordAt(img, 18) == HeaderOf(img).width && WordAt(img, 22) == HeaderOf(img).height
    ensures forall r: nat, c: nat :: r < WordAt(img, 22) && c < WordAt(img, 18) ==> PictureRight(img, s, r, c)
  {
    HeaderInBytes(img);
    hide *;
    forall r: nat, c: nat | r < WordAt(img, 22) && c < WordAt(img, 18) ensures PictureRight(img, s, r, c) {
      PixelInBytes(img, s, r, c);
    }
  }

  // ---- the whole image ----

  /** BmpToBlt, for images over which it reads inside the file: every pixel of the picture is the one that direct
      addressing of its bottom-up line finds. */
  method BmpToBlt(img: seq<byte>) returns (status: Status, pixels: array<Pixel>)
    requires Drawn(img) ==> WalkInside(img, HeaderOf(img))
    ensures fresh(pixels)
    ensures Checked(img) != Success ==> status == Checked(img)
    ensures Checked(img) == Success ==>
      var h := HeaderOf(img);
      status == if h.width * h.height == 0 || Supported(h.bitPerPixel) then Success else Unsupported
    ensures status == Success ==>
      var h := HeaderOf(img);
      && |img| >= HEADER && pixels.Length == h.width * h.height
      && forall r :: 0 <= r < h.height ==> LineRight(img, h, pixels[..], r)
    ensures status == Success ==> Wellformed(img)
    ensures Wellformed(img) && Depth(img) in {1, 4, 8, 24} ==> status == Success
    ensures status == Success ==>
      && pixels.Length == WordAt(img, 18) * WordAt(img, 22)
      && forall r: nat, c: nat :: r < WordAt(img, 22) && c < WordAt(img, 18) ==> PictureRight(img, pixels[..], r, c)
  {
    hide U32At, WalkInside, LineRight, Fits, Checked, Wellformed, WordAt, Depth, PictureRight;
    CheckedLength(img);
    CheckedExactly(img);
    status := Checked(img);
    pixels := new Pixel[0];
    if status != Success {
      return;
    }
    var h := HeaderOf(img);
    var size: nat := h.width * h.height;
    pixels := new Pixel[size](_ => BLACK);
    if h.width == 0 || h.height == 0 {
      EmptyPicture(img, h, pixels[..]);
      PictureInBytes(img, pixels[..]);
    } else if !Supported(h.bitPerPixel) {
      HeaderInBytes(img);
      assert size != 0;
      status := Unsupported;
    } else {
      WalkInsideExactly(img);
      Lines(img, h, pixels);
      PictureInBytes(img, pixels[..]);
    }
  }

  lemma CheckedLength(img: seq<byte>)
    ensures Checked(img) == Success ==> |img| >= HEADER
  {
  }

  lemma EmptyPicture(img: seq<byte>, h: Header, pixels: seq<Pixel>)
    requires h.width == 0 || h.height == 0
    ensures h.width * h.height == 0
    ensures forall r :: 0 <= r < h.height ==> LineRight(img, h, pixels, r)
  {
  }

  /** The loop over the lines. */
  method Lines(img: seq<byte>, h: Header, pixels: array<Pixel>)
    requires Supported(h.bitPerPixel) && Fits(h.width, h.bitPerPixel) && WalkInside(img, h)
    requires pixels.Length == h.height * h.width
    modifies pixels
    ensures forall r :: 0 <= r < h.height ==> LineRight(img, h, pixels[..], r)
  {
    hide LineBytes, Inside, LineInside, LineRight, Done, Header.DataSizePerLine, Fits, Stride, Ceil4;
    ghost var d := Ceil4(LineBytes(h.bitPerPixel, h.width));
    var image: nat := h.imageOffset;
    var height := 0;
    while height < h.height
      invariant height <= h.height && image == WalkLine(h, height)
      invariant forall r :: h.height - height <= r < h.height ==> LineRight(img, h, pixels[..], r)
    {
      var r: nat := h.height - height - 1;
      ghost var was := pixels[..];
      LineFits(h.width, r, h.height);
      image := Line(img, h.bitPerPixel, image, pixels, r * h.width, h.width);
      WalkIsDirect(h, r);
      ThisLineRight(img, h, pixels[..], r);
      forall s | r < s < h.height ensures LineRight(img, h, pixels[..], s) {
        LineFits(h.width, r, s);
        LineKept(img, h, was, pixels[..], r * h.width, r * h.width + h.width, s);
      }
      NextWalkLine(h, height);
      var imageIndex := image - h.imageOffset;
      if imageIndex % 4 != 0 {
        image := image + (4 - imageIndex % 4);
      }
      height := height + 1;
    }
  }

  lemma NextWalkLine(h: Header, k: nat)
    requires Supported(h.bitPerPixel)
    ensures var index := WalkLine(h, k) + LineBytes(h.bitPerPixel, h.width) - h.imageOffset;
      h.imageOffset + index + (if index % 4 != 0 then 4 - index % 4 else 0) == WalkLine(h, k + 1)
  {
    AlignedNext(k, Ceil4(LineBytes(h.bitPerPixel, h.width)), LineBytes(h.bitPerPixel, h.width));
  }

  lemma ThisLineRight(img: seq<byte>, h: Header, pixels: seq<Pixel>, r: nat)
    requires r < h.height && Done(img, h.bitPerPixel, LineOf(h, r), pixels, r * h.width, 0, h.width)
    ensures LineRight(img, h, pixels, r)
  {
  }
}
