/**
 * Raster packing from TextRenderer.swift: a grayscale canvas, one byte per
 * pixel and `width` pixels per row, is thresholded at 128, packed eight pixels
 * to a byte most significant bit first, and every byte is then bit-reversed,
 * so that pixel `x` of a row ends up in bit `x % 8` of byte `x / 8`.
 * The font drawing that fills the canvas is not part of this model: the
 * canvas is an input.
 */
module Raster {
  import opened Protocol

  /** The canvas width the renderer uses, in pixels. */
  const PrinterWidth: nat := 384

  /** The single-bit mask for bit `i` (bit 0 is the least significant). */
  function Mask(i: nat): Byte
    requires i < 8
  {
    if i == 0 then 0x01 else if i == 1 then 0x02 else if i == 2 then 0x04 else if i == 3 then 0x08
    else if i == 4 then 0x10 else if i == 5 then 0x20 else if i == 6 then 0x40 else 0x80
  }

  /** The mask is the shift `1 << i` the renderer writes. */
  lemma MaskIsShift(i: nat)
    requires i < 8
    ensures Mask(i) == (1 as Byte) << i
  {
  }

  /** Whether bit `i` of `b` is set. */
  predicate Bit(b: Byte, i: nat)
    requires i < 8
  {
    b & Mask(i) != 0
  }

  /** Bytes that agree on bits 0 to 3 agree on their low nibble. */
  lemma LowNibble(a: Byte, b: Byte)
    requires Bit(a, 0) == Bit(b, 0) && Bit(a, 1) == Bit(b, 1)
    requires Bit(a, 2) == Bit(b, 2) && Bit(a, 3) == Bit(b, 3)
    ensures a & 0x0F == b & 0x0F
  {
  }

  /** Bytes that agree on bits 4 to 7 agree on their high nibble. */
  lemma HighNibble(a: Byte, b: Byte)
    requires Bit(a, 4) == Bit(b, 4) && Bit(a, 5) == Bit(b, 5)
    requires Bit(a, 6) == Bit(b, 6) && Bit(a, 7) == Bit(b, 7)
    ensures a & 0xF0 == b & 0xF0
  {
  }

  /** A byte is its two nibbles. */
  lemma NibblesDetermineByte(a: Byte, b: Byte)
    requires a & 0x0F == b & 0x0F && a & 0xF0 == b & 0xF0
    ensures a == b
  {
  }

  /** Two bytes with the same bits are the same byte. */
  lemma BitsDetermineByte(a: Byte, b: Byte)
    requires forall i :: 0 <= i < 8 ==> (Bit(a, i) <==> Bit(b, i))
    ensures a == b
  {
    LowNibble(a, b);
    HighNibble(a, b);
    NibblesDetermineByte(a, b);
  }

  // ---------------------------------------------------------------------------
  // reverseByte
  // ---------------------------------------------------------------------------

  /** `reverseByte`: swap the nibbles, then the bit pairs, then adjacent bits. */
  function ReverseByte(b: Byte): (r: Byte)
    ensures Bit(r, 0) == Bit(b, 7) && Bit(r, 1) == Bit(b, 6) && Bit(r, 2) == Bit(b, 5) && Bit(r, 3) == Bit(b, 4)
    ensures Bit(r, 4) == Bit(b, 3) && Bit(r, 5) == Bit(b, 2) && Bit(r, 6) == Bit(b, 1) && Bit(r, 7) == Bit(b, 0)
  {
    var a := ((b & 0xF0) >> 4) | ((b & 0x0F) << 4);
    var c := ((a & 0xCC) >> 2) | ((a & 0x33) << 2);
    ((c & 0xAA) >> 1) | ((c & 0x55) << 1)
  }

  /** Bit `i` of the reversed byte is bit `7 - i` of the original. */
  lemma ReverseByteMirrorsBits(b: Byte, i: nat)
    requires i < 8
    ensures Bit(ReverseByte(b), i) <==> Bit(b, 7 - i)
  {
    if i == 0 {
    } else if i == 1 {
    } else if i == 2 {
    } else if i == 3 {
    } else if i == 4 {
    } else if i == 5 {
    } else if i == 6 {
    } else {
    }
  }

  /** Reversing twice gives the byte back. */
  lemma ReverseByteInvolution(b: Byte)
    ensures ReverseByte(ReverseByte(b)) == b
  {
    forall i | 0 <= i < 8
      ensures Bit(ReverseByte(ReverseByte(b)), i) <==> Bit(b, i)
    {
      ReverseByteMirrorsBits(ReverseByte(b), i);
      ReverseByteMirrorsBits(b, 7 - i);
    }
    BitsDetermineByte(ReverseByte(ReverseByte(b)), b);
  }

  /** The two examples: the top bit becomes the bottom bit, and zero stays zero. */
  lemma ReverseByteExamples()
    ensures ReverseByte(0x80) == 0x01 && ReverseByte(0x01) == 0x80
    ensures ReverseByte(0x00) == 0x00 && ReverseByte(0xFF) == 0xFF
  {
  }

  /** 1 when bit `i` of `b` is set, 0 otherwise. */
  function BitValue(b: Byte, i: nat): nat
    requires i < 8
  {
    if Bit(b, i) then 1 else 0
  }

  /** The number of set bits of `b`. */
  function PopCount(b: Byte): nat {
    BitValue(b, 0) + BitValue(b, 1) + BitValue(b, 2) + BitValue(b, 3)
    + BitValue(b, 4) + BitValue(b, 5) + BitValue(b, 6) + BitValue(b, 7)
  }

  /** Reversal keeps the number of set bits. */
  lemma ReverseBytePreservesPopCount(b: Byte)
    ensures PopCount(ReverseByte(b)) == PopCount(b)
  {
    var r := ReverseByte(b);
    forall i | 0 <= i < 8
      ensures BitValue(r, i) == BitValue(b, 7 - i)
    {
      ReverseByteMirrorsBits(b, i);
    }
    assert BitValue(r, 0) == BitValue(b, 7) && BitValue(r, 7) == BitValue(b, 0);
    assert BitValue(r, 1) == BitValue(b, 6) && BitValue(r, 6) == BitValue(b, 1);
    assert BitValue(r, 2) == BitValue(b, 5) && BitValue(r, 5) == BitValue(b, 2);
    assert BitValue(r, 3) == BitValue(b, 4) && BitValue(r, 4) == BitValue(b, 3);
  }

  // ---------------------------------------------------------------------------
  // Thresholding and packing
  // ---------------------------------------------------------------------------

  /** A pixel prints as ink when its gray value is below 128. */
  predicate Ink(pixel: Byte) {
    pixel < 128
  }

  /** The first `n` of eight pixels packed most significant bit first: pixel
      `j` sets bit `7 - j` when it is ink. */
  function MsbPack(group: seq<Byte>, n: nat): Byte
    requires |group| == 8 && n <= 8
  {
    if n == 0 then 0
    else MsbPack(group, n - 1) | (if Ink(group[n - 1]) then Mask(7 - (n - 1)) else 0)
  }

  lemma BitOfOr(a: Byte, c: Byte, i: nat)
    requires i < 8
    ensures Bit(a | c, i) <==> Bit(a, i) || Bit(c, i)
  {
  }

  lemma BitOfMask(j: nat, i: nat)
    requires j < 8 && i < 8
    ensures Bit(Mask(j), i) <==> i == j
  {
    if j == 0 {
    } else if j == 1 {
    } else if j == 2 {
    } else if j == 3 {
    } else if j == 4 {
    } else if j == 5 {
    } else if j == 6 {
    } else {
    }
  }

  /** Bit `i` of a partly packed byte is set exactly when pixel `7 - i` has
      already been packed and is ink. */
  lemma {:induction false} MsbPackBits(group: seq<Byte>, n: nat, i: nat)
    requires |group| == 8 && n <= 8 && i < 8
    ensures Bit(MsbPack(group, n), i) <==> 7 - i < n && Ink(group[7 - i])
  {
    if n == 0 {
      BitOfZero(i);
    } else {
      MsbPackBits(group, n - 1, i);
      var prev := MsbPack(group, n - 1);
      var m: Byte := if Ink(group[n - 1]) then Mask(7 - (n - 1)) else 0;
      assert MsbPack(group, n) == prev | m;
      BitOfOr(prev, m, i);
      if Ink(group[n - 1]) {
        BitOfMask(7 - (n - 1), i);
      } else {
        BitOfZero(i);
      }
    }
  }

  /** The zero byte has no bit set. */
  lemma BitOfZero(i: nat)
    requires i < 8
    ensures !Bit(0, i)
  {
  }

  /** The eight pixels that make byte `k` of row `y`. */
  function Group(gray: seq<Byte>, width: nat, y: nat, k: nat): (g: seq<Byte>)
    requires width % 8 == 0 && k < width / 8 && (y + 1) * width <= |gray|
    ensures |g| == 8
  {
    RowBounds(width, y, k);
    gray[y * width + 8 * k .. y * width + 8 * k + 8]
  }

  lemma RowBounds(width: nat, y: nat, k: nat)
    requires width % 8 == 0 && k < width / 8
    ensures y * width + 8 * k + 8 <= (y + 1) * width
  {
  }

  /** Byte `k` of row `y` as sent: the packed byte, bit-reversed. */
  function PackedByte(gray: seq<Byte>, width: nat, y: nat, k: nat): Byte
    requires width % 8 == 0 && k < width / 8 && (y + 1) * width <= |gray|
  {
    ReverseByte(MsbPack(Group(gray, width, y, k), 8))
  }

  /** Row `y` as sent. */
  function PackedRow(gray: seq<Byte>, width: nat, y: nat): (row: seq<Byte>)
    requires width % 8 == 0 && (y + 1) * width <= |gray|
    ensures |row| == width / 8
  {
    seq(width / 8, k requires 0 <= k < width / 8 => PackedByte(gray, width, y, k))
  }

  /** The whole canvas as sent, top row first. */
  function PackedImage(gray: seq<Byte>, width: nat, height: nat): (rows: seq<seq<Byte>>)
    requires width % 8 == 0 && |gray| == width * height
    ensures |rows| == height
  {
    seq(height, y requires 0 <= y < height => RowFits(width, height, y); PackedRow(gray, width, y))
  }

  lemma RowFits(width: nat, height: nat, y: nat)
    requires y < height
    ensures (y + 1) * width <= width * height
  {
    assert (y + 1) * width <= height * width by {
      MulMono(y + 1, height, width);
    }
  }

  lemma MulMono(a: nat, b: nat, c: nat)
    requires a <= b
    ensures a * c <= b * c
  {
  }

  /** The bytes the renderer puts on the row for its first `x` pixels, before
      the reversal pass: byte `k` holds the pixels of its group below `x`. */
  function PartialByte(gray: seq<Byte>, width: nat, y: nat, k: nat, x: nat): Byte
    requires width % 8 == 0 && k < width / 8 && (y + 1) * width <= |gray|
  {
    var done := if x <= 8 * k then 0 else if x >= 8 * k + 8 then 8 else x - 8 * k;
    MsbPack(Group(gray, width, y, k), done)
  }

  /** The threshold/pack/reverse loop of `renderTextToPrinterLines`, over a
      given canvas: one row of `width / 8` bytes per canvas row. */
  method PackRows(gray: seq<Byte>, width: nat, height: nat) returns (chunks: seq<seq<Byte>>)
    requires width % 8 == 0 && |gray| == width * height
    ensures chunks == PackedImage(gray, width, height)
  {
    chunks := [];
    for y := 0 to height
      invariant |chunks| == y
      invariant forall r :: 0 <= r < y ==> chunks[r] == PackedImage(gray, width, height)[r]
    {
      RowFits(width, height, y);
      var rowBytes := PackRow(gray, width, y);
      chunks := chunks + [rowBytes];
    }
  }

  /** The body of the row loop: threshold and pack the pixels of row `y` into
      a zeroed byte buffer, then bit-reverse every byte in place. */
  method PackRow(gray: seq<Byte>, width: nat, y: nat) returns (row: seq<Byte>)
    requires width % 8 == 0 && (y + 1) * width <= |gray|
    ensures row == PackedRow(gray, width, y)
  {
    var finalBytesPerRow := width / 8;
    var rowBytes := new Byte[finalBytesPerRow](_ => 0);
    ThresholdRow(gray, width, y, rowBytes);
    ReverseBytesInPlace(gray, width, y, rowBytes);
    row := rowBytes[..];
  }

  /** The pixel loop: every ink pixel sets bit `7 - x % 8` of byte `x / 8`. */
  method ThresholdRow(gray: seq<Byte>, width: nat, y: nat, rowBytes: array<Byte>)
    requires width % 8 == 0 && (y + 1) * width <= |gray|
    requires rowBytes.Length == width / 8 && forall k :: 0 <= k < rowBytes.Length ==> rowBytes[k] == 0
    modifies rowBytes
    ensures forall k :: 0 <= k < rowBytes.Length ==> rowBytes[k] == PartialByte(gray, width, y, k, width)
  {
    for x := 0 to width
      invariant forall k :: 0 <= k < rowBytes.Length ==> rowBytes[k] == PartialByte(gray, width, y, k, x)
    {
      PixelInRow(width, y, x);
      var pixelValue := gray[y * width + x];
      var isBlack := pixelValue < 128;
      if isBlack {
        var byteIndex := x / 8;
        var normalBitIndex := 7 - x % 8;
        rowBytes[byteIndex] := rowBytes[byteIndex] | ((1 as Byte) << normalBitIndex);
        MaskIsShift(normalBitIndex);
      }
      PackStep(gray, width, y, x, isBlack);
    }
  }

  /** The reversal pass: each packed byte is replaced by its mirror image. */
  method ReverseBytesInPlace(gray: seq<Byte>, width: nat, y: nat, rowBytes: array<Byte>)
    requires width % 8 == 0 && (y + 1) * width <= |gray| && rowBytes.Length == width / 8
    requires forall k :: 0 <= k < rowBytes.Length ==> rowBytes[k] == PartialByte(gray, width, y, k, width)
    modifies rowBytes
    ensures rowBytes[..] == PackedRow(gray, width, y)
  {
    for i := 0 to rowBytes.Length
      invariant forall k :: 0 <= k < i ==> rowBytes[k] == PackedByte(gray, width, y, k)
      invariant forall k :: i <= k < rowBytes.Length ==> rowBytes[k] == PartialByte(gray, width, y, k, width)
    {
      rowBytes[i] := ReverseByte(rowBytes[i]);
    }
  }

  lemma PixelInRow(width: nat, y: nat, x: nat)
    requires x < width
    ensures y * width + x < (y + 1) * width
  {
  }

  /** One pixel of the packing loop: only the byte holding pixel `x` changes,
      gaining bit `7 - x % 8` when the pixel is ink. */
  lemma PackStep(gray: seq<Byte>, width: nat, y: nat, x: nat, isBlack: bool)
    requires width % 8 == 0 && x < width && (y + 1) * width <= |gray|
    requires isBlack == Ink(gray[y * width + x])
    ensures forall k :: 0 <= k < width / 8 && k != x / 8 ==>
      PartialByte(gray, width, y, k, x + 1) == PartialByte(gray, width, y, k, x)
    ensures PartialByte(gray, width, y, x / 8, x + 1) ==
      PartialByte(gray, width, y, x / 8, x) | (if isBlack then Mask(7 - x % 8) else 0)
  {
    PackStepOthers(gray, width, y, x);
    PackStepOwn(gray, width, y, x);
  }

  /** Packing pixel `x` leaves every other byte of the row alone. */
  lemma PackStepOthers(gray: seq<Byte>, width: nat, y: nat, x: nat)
    requires width % 8 == 0 && x < width && (y + 1) * width <= |gray|
    ensures forall k :: 0 <= k < width / 8 && k != x / 8 ==>
      PartialByte(gray, width, y, k, x + 1) == PartialByte(gray, width, y, k, x)
  {
  }

  /** Packing pixel `x` ORs its mask into byte `x / 8` when it is ink. */
  lemma PackStepOwn(gray: seq<Byte>, width: nat, y: nat, x: nat)
    requires width % 8 == 0 && x < width && (y + 1) * width <= |gray|
    ensures y * width + x < |gray|
    ensures PartialByte(gray, width, y, x / 8, x + 1) ==
      PartialByte(gray, width, y, x / 8, x) | (if Ink(gray[y * width + x]) then Mask(7 - x % 8) else 0)
  {
    OwnGroup(gray, width, y, x);
  }

  /** Pixel `x` is pixel `x % 8` of group `x / 8`, which holds its first
      `x % 8` pixels before the step and one more after it. */
  lemma OwnGroup(gray: seq<Byte>, width: nat, y: nat, x: nat)
    requires width % 8 == 0 && x < width && (y + 1) * width <= |gray|
    ensures x / 8 < width / 8 && y * width + x < |gray|
    ensures Group(gray, width, y, x / 8)[x % 8] == gray[y * width + x]
    ensures PartialByte(gray, width, y, x / 8, x) == MsbPack(Group(gray, width, y, x / 8), x % 8)
    ensures PartialByte(gray, width, y, x / 8, x + 1) == MsbPack(Group(gray, width, y, x / 8), x % 8 + 1)
  {
    PixelInRow(width, y, x);
    var k, j := x / 8, x % 8;
    assert 8 * k + j == x && j < 8;
    var g := Group(gray, width, y, k);
    assert g[j] == gray[y * width + x];
  }

  // ---------------------------------------------------------------------------
  // What the packed image says
  // ---------------------------------------------------------------------------

  /** Pixel `x` of canvas row `y` is ink exactly when bit `x % 8` of byte
      `x / 8` of output row `y` is set: rows come out top to bottom, and within
      a row pixels land least significant bit first. */
  lemma PackedImageBits(gray: seq<Byte>, width: nat, height: nat, y: nat, x: nat)
    requires width % 8 == 0 && |gray| == width * height && y < height && x < width
    ensures y * width + x < |gray| && x / 8 < |PackedImage(gray, width, height)[y]|
    ensures Bit(PackedImage(gray, width, height)[y][x / 8], x % 8) <==> Ink(gray[y * width + x])
  {
    RowFits(width, height, y);
    assert PackedImage(gray, width, height)[y] == PackedRow(gray, width, y);
    PackedRowBits(gray, width, y, x);
  }

  lemma PackedRowBits(gray: seq<Byte>, width: nat, y: nat, x: nat)
    requires width % 8 == 0 && (y + 1) * width <= |gray| && x < width
    ensures y * width + x < |gray| && x / 8 < width / 8
    ensures Bit(PackedRow(gray, width, y)[x / 8], x % 8) <==> Ink(gray[y * width + x])
  {
    PixelInRow(width, y, x);
    var k, j := x / 8, x % 8;
    var g := Group(gray, width, y, k);
    ReverseByteMirrorsBits(MsbPack(g, 8), j);
    MsbPackBits(g, 8, 7 - j);
    assert g[j] == gray[y * width + x];
  }

  /** A row with no ink packs to zero bytes only. */
  lemma WhiteRowPacksToZeros(gray: seq<Byte>, width: nat, y: nat)
    requires width % 8 == 0 && (y + 1) * width <= |gray|
    requires forall i :: y * width <= i < (y + 1) * width ==> !Ink(gray[i])
    ensures forall k :: 0 <= k < width / 8 ==> PackedRow(gray, width, y)[k] == 0
  {
    forall k | 0 <= k < width / 8
      ensures PackedRow(gray, width, y)[k] == 0
    {
      forall i | 0 <= i < 8
        ensures Bit(PackedRow(gray, width, y)[k], i) <==> Bit(0, i)
      {
        PackedRowBits(gray, width, y, 8 * k + i);
        PixelInRow(width, y, 8 * k + i);
        assert (8 * k + i) / 8 == k && (8 * k + i) % 8 == i;
      }
      BitsDetermineByte(PackedRow(gray, width, y)[k], 0);
    }
  }

  /** At the printer's width every output row is 48 bytes long. */
  lemma PrinterRowsAre48Bytes(gray: seq<Byte>, height: nat)
    requires |gray| == PrinterWidth * height
    ensures forall y :: 0 <= y < height ==> |PackedImage(gray, PrinterWidth, height)[y]| == 48
  {
  }

  /** The number of ink pixels among `pixels`. */
  function InkCount(pixels: seq<Byte>): nat {
    if pixels == [] then 0
    else InkCount(pixels[..|pixels| - 1]) + (if Ink(pixels[|pixels| - 1]) then 1 else 0)
  }

  lemma InkCountStep(pixels: seq<Byte>, n: nat)
    requires 0 < n <= |pixels|
    ensures InkCount(pixels[..n]) == InkCount(pixels[..n - 1]) + (if Ink(pixels[n - 1]) then 1 else 0)
  {
    assert pixels[..n][..n - 1] == pixels[..n - 1];
  }

  /** The number of set bits among the first `n` bit positions of `row`,
      position `i` being bit `i % 8` of byte `i / 8`. */
  function SetBits(row: seq<Byte>, n: nat): nat
    requires n <= 8 * |row|
  {
    if n == 0 then 0 else SetBits(row, n - 1) + (if Bit(row[(n - 1) / 8], (n - 1) % 8) then 1 else 0)
  }

  /** Each output row carries exactly one set bit per ink pixel of its canvas
      row. */
  lemma PackedRowCountsInk(gray: seq<Byte>, width: nat, y: nat)
    requires width % 8 == 0 && (y + 1) * width <= |gray|
    ensures y * width <= (y + 1) * width && width == 8 * |PackedRow(gray, width, y)|
    ensures SetBits(PackedRow(gray, width, y), width) == InkCount(gray[y * width .. (y + 1) * width])
  {
    var row := PackedRow(gray, width, y);
    var pixels := gray[y * width .. (y + 1) * width];
    forall x | 0 <= x < width
      ensures Bit(row[x / 8], x % 8) <==> Ink(pixels[x])
    {
      PackedRowBits(gray, width, y, x);
      assert pixels[x] == gray[y * width + x];
    }
    SetBitsCountInk(row, pixels, width);
    assert pixels[..width] == pixels;
  }

  /** When bit position `x` of `row` is set exactly when `pixels[x]` is ink,
      the first `n` positions hold as many set bits as the first `n` pixels
      hold ink. */
  lemma {:induction false} SetBitsCountInk(row: seq<Byte>, pixels: seq<Byte>, n: nat)
    requires n <= |pixels| && n <= 8 * |row|
    requires forall x :: 0 <= x < n ==> (Bit(row[x / 8], x % 8) <==> Ink(pixels[x]))
    ensures SetBits(row, n) == InkCount(pixels[..n])
  {
    if n == 0 {
      assert pixels[..0] == [];
    } else {
      SetBitsCountInk(row, pixels, n - 1);
      InkCountStep(pixels, n);
    }
  }
}
