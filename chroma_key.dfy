/** The chroma-key pass of `Handler` (api/index.go): after both images are
    drawn, every pixel of the composite whose colour is exactly (0, 0, 254)
    is overwritten with `color.Transparent`. */
module ChromaKey {
  import opened Wrappers
  import opened Raster

  /** The test the handler applies to `composite.At(x, y).RGBA()`: the high
      bytes of red, green and blue are 0, 0 and 254; alpha is not looked at.
      Since `RGBA()` widens each byte `v` to `v * 0x101`, the test holds
      exactly when the stored bytes are 0, 0 and 254. */
  predicate IsKeyColor(c: Color)
    ensures IsKeyColor(c) <==> c.r == 0 && c.g == 0 && c.b == 254
  {
    High8Wide(c);
    var (r, g, b, _) := c.Wide();
    High8(r) == 0 && High8(g) == 0 && High8(b) == 254
  }

  /** What the pass leaves in one pixel. */
  function KeyPixel(c: Color): Color {
    if IsKeyColor(c) then Transparent else c
  }

  /** The whole buffer after the pass: each pixel keyed independently. */
  function KeyedOut(s: seq<byte>): (t: seq<byte>)
    requires |s| % 4 == 0
    ensures |t| == |s|
  {
    seq(|s|, k requires 0 <= k < |s| => Channel(KeyPixel(PixelOf(s, k / 4)), k % 4))
  }

  /** Pixel `p` of the keyed buffer is pixel `p` of the input, keyed. */
  lemma KeyedOutPixel(s: seq<byte>, p: nat)
    requires |s| % 4 == 0 && 4 * p + 4 <= |s|
    ensures PixelOf(KeyedOut(s), p) == KeyPixel(PixelOf(s, p))
  {
    var t := KeyedOut(s);
    assert (4 * p) / 4 == p && (4 * p + 1) / 4 == p && (4 * p + 2) / 4 == p && (4 * p + 3) / 4 == p;
    assert t[4 * p] == Channel(KeyPixel(PixelOf(s, p)), 0);
  }

  /** Every in-bounds pixel stored as (0, 0, 254) ends up (0, 0, 0, 0),
      whatever its alpha was. */
  lemma KeyedPixelsCleared(r: Bounds, s: seq<byte>, x: int, y: int)
    requires |s| == PixLen(r) && r.Contains(x, y)
    requires var c := PixelAt(r, s, x, y); c.r == 0 && c.g == 0 && c.b == 254
    ensures |KeyedOut(s)| == PixLen(r)
    ensures PixelAt(r, KeyedOut(s), x, y) == Color(0, 0, 0, 0)
  {
    KeyedOutPixel(s, PixIndex(r, x, y));
  }

  /** Every other in-bounds pixel keeps all four of its bytes. */
  lemma OtherPixelsKept(r: Bounds, s: seq<byte>, x: int, y: int)
    requires |s| == PixLen(r) && r.Contains(x, y)
    requires var c := PixelAt(r, s, x, y); !(c.r == 0 && c.g == 0 && c.b == 254)
    ensures |KeyedOut(s)| == PixLen(r)
    ensures PixelAt(r, KeyedOut(s), x, y) == PixelAt(r, s, x, y)
  {
    KeyedOutPixel(s, PixIndex(r, x, y));
  }

  /** Keying twice is keying once: a cleared pixel reads (0, 0, 0), which is
      not the key colour. */
  lemma KeyedOutIdempotent(s: seq<byte>)
    requires |s| % 4 == 0
    ensures KeyedOut(KeyedOut(s)) == KeyedOut(s)
  {
    var t := KeyedOut(s);
    forall p: nat | 4 * p + 4 <= |t|
      ensures PixelOf(t, p) == KeyPixel(PixelOf(t, p))
    {
      KeyedOutPixel(s, p);
    }
    KeyedPixelwise(t, t);
  }

  /** A buffer whose every pixel is the keyed pixel of another buffer is that
      buffer keyed. */
  lemma KeyedPixelwise(cur: seq<byte>, orig: seq<byte>)
    requires |orig| % 4 == 0 && |cur| == |orig|
    requires forall p: nat :: 4 * p + 4 <= |orig| ==> PixelOf(cur, p) == KeyPixel(PixelOf(orig, p))
    ensures cur == KeyedOut(orig)
  {
    var t := KeyedOut(orig);
    forall k | 0 <= k < |cur|
      ensures cur[k] == t[k]
    {
      var p := k / 4;
      assert PixelOf(cur, p) == KeyPixel(PixelOf(orig, p));
      assert cur[k] == Channel(PixelOf(cur, p), k % 4);
    }
  }

  /** The pixels `0 .. done - 1` (in row-major order) have been keyed, the
      rest still hold their original colours. */
  ghost predicate KeyedUpTo(cur: seq<byte>, orig: seq<byte>, done: nat)
    requires |orig| % 4 == 0
  {
    |cur| == |orig| && 4 * done <= |orig| &&
    (forall p: nat :: p < done ==> PixelOf(cur, p) == KeyPixel(PixelOf(orig, p))) &&
    (forall p: nat :: done <= p && 4 * p + 4 <= |orig| ==> PixelOf(cur, p) == PixelOf(orig, p))
  }

  /** One step of the pass: keying pixel `done` extends the keyed prefix by one pixel. */
  lemma KeyStep(before: seq<byte>, after: seq<byte>, orig: seq<byte>, done: nat)
    requires |orig| % 4 == 0 && 4 * done + 4 <= |orig|
    requires KeyedUpTo(before, orig, done)
    requires after == if IsKeyColor(PixelOf(before, done)) then WritePixel(before, done, Transparent) else before
    ensures KeyedUpTo(after, orig, done + 1)
  {
    assert PixelOf(before, done) == PixelOf(orig, done);
  }

  /** The body of the inner loop: read the pixel at `(x, y)`, and if its
      high bytes of red, green and blue are 0, 0, 254, set it to transparent. */
  method KeyPoint(composite: RGBA, x: int, y: int)
    requires composite.Valid() && composite.rect.Contains(x, y)
    modifies composite.pix
    ensures var p := PixIndex(composite.rect, x, y);
            composite.pix[..] == if IsKeyColor(PixelOf(old(composite.pix[..]), p))
                                 then WritePixel(old(composite.pix[..]), p, Transparent)
                                 else old(composite.pix[..])
  {
    var c := composite.At(x, y);
    var (r, g, b, _) := c.Wide();
    var r8, g8, b8 := High8(r), High8(g), High8(b);
    if r8 == 0 && g8 == 0 && b8 == 254 {
      composite.Set(x, y, Transparent);
    }
  }

  lemma NextRow(row: int, width: int)
    ensures row * width + width == (row + 1) * width
  {
  }

  /** The inner `for x` loop of the pass over row `y`: when the pixels before
      the row have been keyed, afterwards the pixels up to the end of the row are. */
  method KeyRow(composite: RGBA, y: int, ghost orig: seq<byte>, ghost rowStart: nat)
    requires composite.Valid() && |orig| == composite.pix.Length
    requires composite.rect.minY <= y < composite.rect.maxY
    requires rowStart == (y - composite.rect.minY) * composite.rect.Dx()
    requires KeyedUpTo(composite.pix[..], orig, rowStart)
    modifies composite.pix
    ensures KeyedUpTo(composite.pix[..], orig, rowStart + composite.rect.Dx())
  {
    var bounds := composite.rect;
    var x := bounds.minX;
    while x < bounds.maxX
      invariant bounds.minX <= x <= bounds.maxX
      invariant KeyedUpTo(composite.pix[..], orig, rowStart + (x - bounds.minX))
    {
      ghost var before := composite.pix[..];
      KeyPoint(composite, x, y);
      KeyStep(before, composite.pix[..], orig, PixIndex(bounds, x, y));
      x := x + 1;
    }
  }

  /** The nested `for y` / `for x` loops of the handler, in place on the
      composite. The buffer ends up keyed; its bounds and layout stay as
      `image.NewRGBA(bounds)` made them. */
  method ChromaKeyPass(composite: RGBA)
    requires composite.Valid()
    modifies composite.pix
    ensures composite.Valid()
    ensures composite.rect == old(composite.rect) && composite.stride == old(composite.stride)
    ensures composite.pix[..] == KeyedOut(old(composite.pix[..]))
  {
    var bounds := composite.rect;
    ghost var orig := composite.pix[..];
    ghost var width := bounds.Dx();
    ghost var rowStart := 0;
    var y := bounds.minY;
    while y < bounds.maxY
      invariant bounds.minY <= y <= bounds.maxY
      invariant rowStart == (y - bounds.minY) * width
      invariant KeyedUpTo(composite.pix[..], orig, rowStart)
    {
      KeyRow(composite, y, orig, rowStart);
      NextRow(y - bounds.minY, width);
      rowStart := rowStart + width;
      y := y + 1;
    }
    assert rowStart == Area(bounds);
    KeyedPixelwise(composite.pix[..], orig);
  }
}
