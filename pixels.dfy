/** Un-premultiplying one colour channel and the in-place conversion of a
    premultiplied RGBA bitmap into straight-alpha BGRA
    (foo_svg_services/main.cpp, lines 48-75). */
module Pixels {

  /** An 8-bit unsigned channel value (`uint8_t`). */
  type Byte = x: int | 0 <= x < 256

  /** `remove_premultiplied_alpha`. A transparent pixel keeps its value;
      otherwise the result is value * 255 / alpha rounded half up (what
      `std::lround` does on a non-negative quotient) and clamped to 255.
      The source divides in `float`; here the division is exact. */
  function RemovePremultipliedAlpha(value: Byte, alpha: Byte): (r: Byte)
    ensures alpha == 0 || alpha == 255 ==> r == value
  {
    if alpha == 0 then value
    else
      var rounded := (2 * 255 * value + alpha) / (2 * alpha);
      if rounded > 255 then 255 else rounded
  }

  /** For a visible pixel the result r is value * 255 / alpha rounded half up,
      clamped to 255: below the clamp, r lies within half a unit of the exact
      quotient (a quotient exactly halfway rounds up); at the clamp, the
      quotient is at least 254.5. */
  lemma UnpremultiplyRounds(value: Byte, alpha: Byte)
    requires alpha > 0
    ensures var r := RemovePremultipliedAlpha(value, alpha);
      && (r < 255 ==> 2 * alpha * r - alpha <= 2 * 255 * value < 2 * alpha * r + alpha)
      && (r == 255 ==> 2 * 255 * value >= 2 * alpha * 255 - alpha)
  {
    var rounded := (2 * 255 * value + alpha) / (2 * alpha);
    DivisionBounds(2 * 255 * value + alpha, 2 * alpha);
    if rounded > 255 {
      MonotoneProduct(2 * alpha, 255, rounded);
    }
  }

  /** A transparent pixel keeps its value. */
  lemma TransparentChannelUnchanged(value: Byte)
    ensures RemovePremultipliedAlpha(value, 0) == value
  {
  }

  /** The reverse operation: channel * alpha / 255 rounded half up. */
  function Premultiply(channel: Byte, alpha: Byte): (r: Byte)
    ensures 2 * 255 * r <= 2 * alpha * channel + 255 < 2 * 255 * r + 2 * 255
  {
    (2 * alpha * channel + 255) / (2 * 255)
  }

  /** The result is the nearest integer to value * 255 / alpha (ties upward),
      clamped to 255: any integer n within half a unit of the exact quotient
      determines the result. */
  lemma UnpremultiplyIsNearest(value: Byte, alpha: Byte, n: int)
    requires alpha > 0
    requires 2 * alpha * n - alpha <= 2 * 255 * value < 2 * alpha * n + alpha
    ensures RemovePremultipliedAlpha(value, alpha) == if n > 255 then 255 else n
  {
    var r := RemovePremultipliedAlpha(value, alpha);
    UnpremultiplyRounds(value, alpha);
    var d := 2 * alpha;
    if r < 255 {
      // Both r and n lie within half a unit of the quotient, so they differ by less than one.
      MultipleBelow(d, r, n);
      MultipleBelow(d, n, r);
    } else {
      MultipleBelow(d, 255, n);
    }
  }

  /** Two multiples of d less than d apart have ordered factors. */
  lemma MultipleBelow(d: int, x: int, y: int)
    requires d > 0 && d * x - d * y < d
    ensures x <= y
  {
    assert d * x - d * y == d * (x - y);
    if x > y {
      MonotoneProduct(d, 1, x - y);
    }
  }

  lemma DivisionBounds(n: int, d: int)
    requires d > 0
    ensures d * (n / d) <= n < d * (n / d) + d
  {
  }

  lemma NonNegativeProduct(a: int, b: int)
    requires a >= 0 && b >= 0
    ensures a * b >= 0
  {
  }

  /** A fully opaque pixel keeps its value. */
  lemma OpaqueChannelUnchanged(value: Byte)
    ensures RemovePremultipliedAlpha(value, 255) == value
  {
    UnpremultiplyIsNearest(value, 255, value);
  }

  /** A channel that is already zero stays zero, whatever the alpha. */
  lemma ZeroChannelUnchanged(alpha: Byte)
    ensures RemovePremultipliedAlpha(0, alpha) == 0
  {
    if alpha > 0 {
      UnpremultiplyIsNearest(0, alpha, 0);
    }
  }

  /** A channel larger than its alpha (not a valid premultiplied value)
      saturates at 255. */
  lemma OverflowingChannelSaturates(value: Byte, alpha: Byte)
    requires 0 < alpha < value
    ensures RemovePremultipliedAlpha(value, alpha) == 255
  {
    var r := RemovePremultipliedAlpha(value, alpha);
    UnpremultiplyRounds(value, alpha);
    if r < 255 {
      assert 2 * 255 * value >= 2 * 255 * (alpha + 1);
      assert 2 * alpha * r <= 2 * alpha * 254 by { MonotoneProduct(2 * alpha, r, 254); }
    }
  }

  lemma MonotoneProduct(a: int, x: int, y: int)
    requires a >= 0 && x <= y
    ensures a * x <= a * y
  {
    NonNegativeProduct(a, y - x);
    assert a * y == a * x + a * (y - x);
  }

  /** Round trip: for a valid premultiplied channel (value <= alpha, alpha > 0),
      premultiplying the un-premultiplied value again gives back the value. */
  lemma PremultiplyRoundTrip(value: Byte, alpha: Byte)
    requires 0 < alpha && value <= alpha
    ensures Premultiply(RemovePremultipliedAlpha(value, alpha), alpha) == value
  {
    var r := RemovePremultipliedAlpha(value, alpha);
    UnpremultiplyRounds(value, alpha);
    var scaled := 2 * alpha * r;
    // scaled is within alpha of 2 * 255 * value; at the clamp this holds because value == alpha.
    if r == 255 {
      assert value == alpha;
      assert scaled == 2 * 255 * value;
    }
    assert 2 * 255 * value - alpha <= scaled <= 2 * 255 * value + alpha;
    if alpha == 255 {
      OpaqueChannelUnchanged(value);
    }
    var p := Premultiply(r, alpha);
    assert 2 * 255 * p <= scaled + 255 < 2 * 255 * p + 2 * 255;
  }

  /** One pixel: premultiplied (r, g, b, a) becomes straight (b, g, r, a). */
  function PixelToBgra(r: Byte, g: Byte, b: Byte, a: Byte): (px: seq<Byte>)
    ensures |px| == 4 && px[3] == a
    ensures a == 0 || a == 255 ==> px == [b, g, r, a]
  {
    [RemovePremultipliedAlpha(b, a), RemovePremultipliedAlpha(g, a), RemovePremultipliedAlpha(r, a), a]
  }

  /** Reference definition of the conversion: the first `pixels` quads of `s`
      converted one after another, the bytes after them left as they are. */
  function PrgbaToBgraSpec(s: seq<Byte>, pixels: nat): (t: seq<Byte>)
    requires 4 * pixels <= |s|
    ensures |t| == |s|
    decreases pixels
  {
    if pixels == 0 then s
    else PixelToBgra(s[0], s[1], s[2], s[3]) + PrgbaToBgraSpec(s[4..], pixels - 1)
  }

  /** Byte k of pixel p of the converted buffer comes from pixel p of the input. */
  lemma {:induction false} SpecPixelAt(s: seq<Byte>, pixels: nat, p: nat, k: nat)
    requires 4 * pixels <= |s| && p < pixels && k < 4
    ensures PrgbaToBgraSpec(s, pixels)[4 * p + k] == PixelToBgra(s[4 * p], s[4 * p + 1], s[4 * p + 2], s[4 * p + 3])[k]
    decreases pixels
  {
    if p > 0 {
      SpecPixelAt(s[4..], pixels - 1, p - 1, k);
      assert s[4..][4 * (p - 1)] == s[4 * p] && s[4..][4 * (p - 1) + 1] == s[4 * p + 1];
      assert s[4..][4 * (p - 1) + 2] == s[4 * p + 2] && s[4..][4 * (p - 1) + 3] == s[4 * p + 3];
    }
  }

  /** Bytes past the last pixel are never touched. */
  lemma {:induction false} TailUnchanged(s: seq<Byte>, pixels: nat, i: nat)
    requires 4 * pixels <= i < |s|
    ensures PrgbaToBgraSpec(s, pixels)[i] == s[i]
    decreases pixels
  {
    if pixels > 0 {
      TailUnchanged(s[4..], pixels - 1, i - 4);
    }
  }

  /** Channel placement: B, G, R go to slots 0, 1, 2 un-premultiplied by the
      pixel's own alpha, all four bytes are taken from the input pixel, and
      the alpha byte is kept. */
  lemma ChannelPlacement(s: seq<Byte>, pixels: nat, p: nat)
    requires 4 * pixels <= |s| && p < pixels
    ensures var t := PrgbaToBgraSpec(s, pixels);
      && t[4 * p] == RemovePremultipliedAlpha(s[4 * p + 2], s[4 * p + 3])
      && t[4 * p + 1] == RemovePremultipliedAlpha(s[4 * p + 1], s[4 * p + 3])
      && t[4 * p + 2] == RemovePremultipliedAlpha(s[4 * p], s[4 * p + 3])
      && t[4 * p + 3] == s[4 * p + 3]
  {
    SpecPixelAt(s, pixels, p, 0);
    SpecPixelAt(s, pixels, p, 1);
    SpecPixelAt(s, pixels, p, 2);
    SpecPixelAt(s, pixels, p, 3);
  }

  /** A fully transparent pixel is a plain swap of R and B; G and A stay. */
  lemma TransparentPixelSwaps(s: seq<Byte>, pixels: nat, p: nat)
    requires 4 * pixels <= |s| && p < pixels && s[4 * p + 3] == 0
    ensures PrgbaToBgraSpec(s, pixels)[4 * p..4 * p + 4] == [s[4 * p + 2], s[4 * p + 1], s[4 * p], 0]
  {
    ChannelPlacement(s, pixels, p);
  }

  /** A fully opaque pixel is a plain swap of R and B as well. */
  lemma OpaquePixelSwaps(s: seq<Byte>, pixels: nat, p: nat)
    requires 4 * pixels <= |s| && p < pixels && s[4 * p + 3] == 255
    ensures PrgbaToBgraSpec(s, pixels)[4 * p..4 * p + 4] == [s[4 * p + 2], s[4 * p + 1], s[4 * p], 255]
  {
    ChannelPlacement(s, pixels, p);
    OpaqueChannelUnchanged(s[4 * p]);
    OpaqueChannelUnchanged(s[4 * p + 1]);
    OpaqueChannelUnchanged(s[4 * p + 2]);
  }

  /** The first `done` of `pixels` pixels of `original` are converted in
      `current` and every later byte still holds its original value. */
  ghost predicate ConvertedUpTo(current: seq<Byte>, original: seq<Byte>, pixels: nat, done: nat)
    requires 4 * pixels <= |original| == |current| && done <= pixels
  {
    && (forall i :: 0 <= i < 4 * done ==> current[i] == PrgbaToBgraSpec(original, pixels)[i])
    && (forall i :: 4 * done <= i < |current| ==> current[i] == original[i])
  }

  /** Converting pixel `done` in place, from the bytes read before any write,
      extends the converted prefix by one pixel. */
  lemma ConvertOnePixel(current: seq<Byte>, next: seq<Byte>, original: seq<Byte>, pixels: nat, done: nat)
    requires 4 * pixels <= |original| == |current| && done < pixels
    requires ConvertedUpTo(current, original, pixels, done)
    requires var o := 4 * done;
      var r, g, b, a := current[o], current[o + 1], current[o + 2], current[o + 3];
      next == current[o := RemovePremultipliedAlpha(b, a)][o + 1 := RemovePremultipliedAlpha(g, a)]
        [o + 2 := RemovePremultipliedAlpha(r, a)]
    ensures ConvertedUpTo(next, original, pixels, done + 1)
  {
    ChannelPlacement(original, pixels, done);
  }

  /** Once every pixel is converted, the buffer is the reference result. */
  lemma AllConverted(current: seq<Byte>, original: seq<Byte>, pixels: nat)
    requires 4 * pixels <= |original| == |current|
    requires ConvertedUpTo(current, original, pixels, pixels)
    ensures current == PrgbaToBgraSpec(original, pixels)
  {
    forall i | 4 * pixels <= i < |current|
      ensures current[i] == PrgbaToBgraSpec(original, pixels)[i]
    {
      TailUnchanged(original, pixels, i);
    }
  }

  /** `prgba_to_bgra`: rewrites the first width * height pixels of `data` in
      place, row by row and column by column, reading each pixel's four bytes
      before overwriting three of them. The source computes byte offsets in
      `int`, so their largest value must not overflow. */
  method PrgbaToBgra(data: array<Byte>, width: int, height: int)
    requires 0 <= width && 0 <= height
    requires width * height * 4 <= data.Length
    requires width * height * 4 <= 0x8000_0000
    modifies data
    ensures data[..] == PrgbaToBgraSpec(old(data[..]), width * height)
  {
    ghost var original := data[..];
    ghost var pixels: nat := width * height;
    assert pixels == height * width;
    var rowIndex := 0;
    ghost var rowStart := 0;  // pixels before the current row
    while rowIndex < height
      invariant 0 <= rowIndex <= height
      invariant rowStart == rowIndex * width <= pixels
      invariant ConvertedUpTo(data[..], original, pixels, rowStart)
    {
      var columnIndex := 0;
      ghost var done := rowStart;  // pixels converted so far
      while columnIndex < width
        invariant 0 <= columnIndex <= width
        invariant done == rowStart + columnIndex <= pixels
        invariant ConvertedUpTo(data[..], original, pixels, done)
      {
        var rowOffset := rowIndex * width * 4;
        var columnOffset := columnIndex * 4;
        RowBound(rowIndex, columnIndex, width, height);
        assert rowOffset + columnOffset == 4 * done;
        ghost var before: seq<Byte> := data[..];

        var r := data[rowOffset + columnOffset];
        var g := data[rowOffset + columnOffset + 1];
        var b := data[rowOffset + columnOffset + 2];
        var a := data[rowOffset + columnOffset + 3];

        data[rowOffset + columnOffset] := RemovePremultipliedAlpha(b, a);
        data[rowOffset + columnOffset + 1] := RemovePremultipliedAlpha(g, a);
        data[rowOffset + columnOffset + 2] := RemovePremultipliedAlpha(r, a);
        ghost var blue: Byte, green: Byte, red: Byte :=
          RemovePremultipliedAlpha(b, a), RemovePremultipliedAlpha(g, a), RemovePremultipliedAlpha(r, a);
        assert data[..] == before[4 * done := blue][4 * done + 1 := green][4 * done + 2 := red];
        ConvertOnePixel(before, data[..], original, pixels, done);
        columnIndex := columnIndex + 1;
        done := done + 1;
      }
      assert rowStart + width == (rowIndex + 1) * width;
      MonotoneProduct(width, rowIndex + 1, height);
      rowIndex := rowIndex + 1;
      rowStart := rowStart + width;
    }
    AllConverted(data[..], original, pixels);
  }

  /** The pixel at (row, column) lies inside the bitmap. */
  lemma RowBound(row: int, column: int, width: int, height: int)
    requires 0 <= row < height && 0 <= column < width
    ensures row * width + column < width * height
  {
    MonotoneProduct(width, row + 1, height);
  }
}
