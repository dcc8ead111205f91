/** The pieces of Go's `image` and `image/color` packages that the handler's
    composite buffer uses: `image.Rectangle`, `color.RGBA` and the in-memory
    `*image.RGBA` with its `Pix`, `Stride` and `Rect` fields. */
module Raster {
  import opened Wrappers

  /** `image.Rectangle`: the half-open box `[minX, maxX) x [minY, maxY)`. */
  datatype Rect = Rect(minX: int, minY: int, maxX: int, maxY: int) {
    function Dx(): int { maxX - minX }
    function Dy(): int { maxY - minY }

    /** `image.Point{x, y}.In(r)`. */
    predicate Contains(x: int, y: int) {
      minX <= x < maxX && minY <= y < maxY
    }
  }

  /** A well-formed rectangle, as the bounds of a decoded image always are. */
  type Bounds = r: Rect | r.minX <= r.maxX && r.minY <= r.maxY witness Rect(0, 0, 0, 0)

  /** The number of pixels inside the bounds. */
  function Area(r: Bounds): (n: nat)
  {
    MulNonNegative(r.Dx(), r.Dy());
    r.Dx() * r.Dy()
  }

  /** The length of `Pix` in an RGBA image: four bytes per pixel. */
  function PixLen(r: Bounds): nat {
    4 * Area(r)
  }

  lemma MulNonNegative(a: int, b: int)
    requires 0 <= a && 0 <= b
    ensures 0 <= a * b
  {
  }

  /** The row-major number of an in-bounds pixel: rows of `Dx()` pixels from `Min`. */
  function PixIndex(r: Bounds, x: int, y: int): (p: nat)
    requires r.Contains(x, y)
    ensures p < Area(r)
  {
    var row, col := y - r.minY, x - r.minX;
    assert row * r.Dx() <= (r.Dy() - 1) * r.Dx() by {
      MulMonotone(row, r.Dy() - 1, r.Dx());
    }
    MulNonNegative(row, r.Dx());
    row * r.Dx() + col
  }

  lemma MulMonotone(a: int, b: int, c: int)
    requires a <= b && 0 <= c
    ensures a * c <= b * c
  {
  }

  lemma MulSwapLeft(a: int, b: int, c: int)
    ensures a * (b * c) == b * (a * c)
  {
  }

  /** `color.RGBA`: 8-bit channels, alpha-premultiplied. */
  datatype Color = Color(r: byte, g: byte, b: byte, a: byte) {
    /** `color.RGBA.RGBA()`: each channel widened to 16 bits by copying its
        byte into both halves (`r |= r << 8`). */
    function Wide(): (int, int, int, int) {
      (r * 0x101, g * 0x101, b * 0x101, a * 0x101)
    }
  }

  /** `color.Transparent` once converted to `color.RGBA`; also the zero
      `color.RGBA{}` that `At` returns outside the bounds. */
  const Transparent := Color(0, 0, 0, 0)

  /** `uint8(v >> 8)` for a `uint32` value. */
  function High8(v: nat): byte {
    v / 0x100 % 0x100
  }

  /** The high byte of a widened channel is the channel itself. */
  lemma High8Wide(c: Color)
    ensures High8(c.Wide().0) == c.r && High8(c.Wide().1) == c.g
    ensures High8(c.Wide().2) == c.b && High8(c.Wide().3) == c.a
  {
  }

  /** The pixel stored at pixel number `p` of a flat RGBA buffer. */
  function PixelOf(s: seq<byte>, p: nat): Color
    requires 4 * p + 4 <= |s|
  {
    Color(s[4 * p], s[4 * p + 1], s[4 * p + 2], s[4 * p + 3])
  }

  /** Channel `k` (R, G, B, A for k = 0..3) of a colour. */
  function Channel(c: Color, k: int): byte
    requires 0 <= k < 4
  {
    if k == 0 then c.r else if k == 1 then c.g else if k == 2 then c.b else c.a
  }

  /** The colour stored for an in-bounds point of a buffer laid out for `r`. */
  function PixelAt(r: Bounds, s: seq<byte>, x: int, y: int): Color
    requires |s| == PixLen(r) && r.Contains(x, y)
  {
    PixelOf(s, PixIndex(r, x, y))
  }

  /** A flat buffer with one pixel overwritten. */
  function WritePixel(s: seq<byte>, p: nat, c: Color): (t: seq<byte>)
    requires 4 * p + 4 <= |s|
    ensures |t| == |s|
    ensures PixelOf(t, p) == c
    ensures forall k :: 0 <= k < |s| && !(4 * p <= k < 4 * p + 4) ==> t[k] == s[k]
    ensures forall q: nat :: 4 * q + 4 <= |s| && q != p ==> PixelOf(t, q) == PixelOf(s, q)
  {
    s[4 * p := c.r][4 * p + 1 := c.g][4 * p + 2 := c.b][4 * p + 3 := c.a]
  }

  /** A decoded image (`image.Image` from `png.Decode`): its bounds, and its
      samples in whatever colour model the decoder chose; only the opaque
      drawing step reads the samples. */
  datatype Image = Image(bounds: Bounds, samples: seq<byte>)

  /** `draw.Draw(dst, dst.Bounds(), src, image.Point{}, draw.Over)`: the new
      contents of the destination buffer given the destination's bounds (which
      fix its row width), its old contents and the source. */
  type Drawer = (Bounds, seq<byte>, Image) -> seq<byte>

  /** Drawing over a buffer fills it in place and never resizes it. */
  ghost predicate KeepsSize(draw: Drawer) {
    forall r, dst, src :: |draw(r, dst, src)| == |dst|
  }

  /** `*image.RGBA`: pixel bytes in rows of `Stride` bytes, starting at `Rect.Min`. */
  class RGBA {
    var pix: array<byte>
    var stride: int
    var rect: Bounds

    ghost predicate Valid()
      reads this
    {
      stride == 4 * rect.Dx() && pix.Length == PixLen(rect)
    }

    /** `image.NewRGBA(r)`: a zeroed, hence fully transparent, buffer. */
    constructor (r: Bounds)
      ensures Valid() && rect == r && fresh(pix)
      ensures forall k :: 0 <= k < pix.Length ==> pix[k] == 0
    {
      pix := new byte[PixLen(r)](_ => 0);
      stride := 4 * r.Dx();
      rect := r;
    }

    /** `(*RGBA).PixOffset`: where pixel `(x, y)` starts in `Pix`. */
    function PixOffset(x: int, y: int): (i: int)
      reads this
      requires Valid() && rect.Contains(x, y)
      ensures i == 4 * PixIndex(rect, x, y)
      ensures 0 <= i && i + 4 <= pix.Length
    {
      var row, col := y - rect.minY, x - rect.minX;
      assert row * stride == 4 * (row * rect.Dx()) by {
        MulSwapLeft(row, 4, rect.Dx());
      }
      row * stride + col * 4
    }

    /** `(*RGBA).At`, which goes through `RGBAAt`: the stored colour, or the
        zero colour for a point outside the bounds. */
    method At(x: int, y: int) returns (c: Color)
      requires Valid()
      ensures c == if rect.Contains(x, y) then PixelAt(rect, pix[..], x, y) else Transparent
    {
      if !rect.Contains(x, y) {
        return Transparent;
      }
      var i := PixOffset(x, y);
      c := Color(pix[i], pix[i + 1], pix[i + 2], pix[i + 3]);
    }

    /** `(*RGBA).Set` with a colour already in the RGBA model: the four bytes
        of an in-bounds pixel are overwritten; a point outside is ignored. */
    method Set(x: int, y: int, c: Color)
      requires Valid()
      modifies pix
      ensures pix[..] == if rect.Contains(x, y)
                         then WritePixel(old(pix[..]), PixIndex(rect, x, y), c)
                         else old(pix[..])
    {
      if !rect.Contains(x, y) {
        return;
      }
      var i := PixOffset(x, y);
      pix[i], pix[i + 1], pix[i + 2], pix[i + 3] := c.r, c.g, c.b, c.a;
    }

    /** One `draw.Draw(composite, bounds, src, image.Point{}, draw.Over)`
        call: the blending itself is the opaque `draw`. */
    method DrawOver(src: Image, draw: Drawer)
      requires Valid() && KeepsSize(draw)
      modifies pix
      ensures pix[..] == draw(rect, old(pix[..]), src)
    {
      var blended := draw(rect, pix[..], src);
      forall k | 0 <= k < pix.Length {
        pix[k] := blended[k];
      }
    }
  }
}
