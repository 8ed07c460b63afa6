/** CannyLogic.grayscale: every pixel's colour bytes replaced by its luminance, alpha kept. */
module CannyGrayscale {
  import opened Pixels
  import opened Grid
  import opened Buffers

  /** The luminance of a colour with the Rec. 709 weights, in exact arithmetic. */
  function Luma(r: Byte, g: Byte, b: Byte): (l: real)
    ensures Min3(r, g, b) as real <= l <= Max3(r, g, b) as real
  {
    0.2126 * r as real + 0.7152 * g as real + 0.0722 * b as real
  }

  /** The byte grayscale writes for pixel p of the store bytes. */
  function GrayOf(bytes: seq<Byte>, p: int): Byte
    requires 0 <= p && 4 * p + 3 < |bytes|
  {
    ToUint8Clamp(Luma(bytes[4 * p], bytes[4 * p + 1], bytes[4 * p + 2]))
  }

  /** The writes of grayscale on the store bytes: the luminance of every pixel. */
  function GrayOver(bytes: seq<Byte>): (over: seq<Option<Byte>>)
    requires |bytes| % 4 == 0
    ensures 4 * |over| == |bytes|
    ensures forall p :: 0 <= p < |over| ==> over[p] == Some(GrayOf(bytes, p))
  {
    seq(|bytes| / 4, p requires 0 <= p < |bytes| / 4 => Some(GrayOf(bytes, p)))
  }

  /** The store grayscale returns for the store bytes. */
  function GrayBytes(bytes: seq<Byte>): (r: seq<Byte>)
    requires |bytes| % 4 == 0
    ensures |r| == |bytes|
  {
    Overlay(bytes, GrayOver(bytes))
  }

  function Min3(a: int, b: int, c: int): int
  {
    if a <= b && a <= c then a else if b <= c then b else c
  }

  function Max3(a: int, b: int, c: int): int
  {
    if a >= b && a >= c then a else if b >= c then b else c
  }

  /** Every pixel of the result is grey: its three colour bytes equal the rounded
      luminance, which lies between the smallest and the largest colour byte of the
      input pixel; the alpha byte is the input's. */
  lemma GrayPixel(bytes: seq<Byte>, p: int)
    requires |bytes| % 4 == 0 && 0 <= p < |bytes| / 4
    ensures var r, c := GrayBytes(bytes), GrayOf(bytes, p);
      && r[4 * p] == c && r[4 * p + 1] == c && r[4 * p + 2] == c
      && r[4 * p + 3] == bytes[4 * p + 3]
      && MidOf(r, p) == c
      && Min3(bytes[4 * p], bytes[4 * p + 1], bytes[4 * p + 2]) <= c
      && c <= Max3(bytes[4 * p], bytes[4 * p + 1], bytes[4 * p + 2])
  {
    OverlayPixel(bytes, GrayOver(bytes), p);
    var lo := Min3(bytes[4 * p], bytes[4 * p + 1], bytes[4 * p + 2]);
    var hi := Max3(bytes[4 * p], bytes[4 * p + 1], bytes[4 * p + 2]);
    var v := Luma(bytes[4 * p], bytes[4 * p + 1], bytes[4 * p + 2]);
    assert lo as real <= v <= hi as real;
  }

  /** A pixel that is already grey keeps its value. */
  lemma GreyFixed(c: Byte)
    ensures ToUint8Clamp(Luma(c, c, c)) == c
  {
    assert Luma(c, c, c) == c as real;
    IntegerWrite(c);
  }

  /** Converting twice is converting once. */
  lemma GrayIdempotent(bytes: seq<Byte>)
    requires |bytes| % 4 == 0
    ensures GrayBytes(GrayBytes(bytes)) == GrayBytes(bytes)
  {
    var r := GrayBytes(bytes);
    var rr := GrayBytes(r);
    forall k | 0 <= k < |bytes|
      ensures rr[k] == r[k]
    {
      var p := k / 4;
      GrayPixel(bytes, p);
      GrayPixel(r, p);
      GreyFixed(GrayOf(bytes, p));
      assert GrayOf(r, p) == GrayOf(bytes, p);
      assert 4 * p <= k < 4 * p + 4;
    }
  }

  /** The colour getRGB reads at (x, y) is that of pixel i of the store. */
  lemma GrayCell(wrapper: Uint8ClampedWrapper, x: int, y: int, i: int, orig: seq<Byte>)
    requires wrapper.Valid() && !wrapper.Empty() && wrapper.data[..] == orig
    requires 0 <= x < wrapper.width && 0 <= y < wrapper.height && i == y * wrapper.width + x
    ensures 0 <= i < |orig| / 4
    ensures GrayOver(orig)[i] == Some(ToUint8Clamp(Luma(wrapper.GetRGB(x, y).0,
                                                        wrapper.GetRGB(x, y).1,
                                                        wrapper.GetRGB(x, y).2)))
  {
    assert wrapper.PixelIndex(x, y) == i;
  }

  /** The body of grayscale's pixel loop at (x, y), i == y*width + x: pixel i gets its
      luminance. */
  method GrayPixelStep(wrapper: Uint8ClampedWrapper, res: Uint8ClampedWrapper, width: int, height: int,
                       x: int, y: int, ghost i: int, ghost orig: seq<Byte>)
    requires wrapper.Valid() && !wrapper.Empty() && width == wrapper.width && height == wrapper.height
    requires 0 <= x < width && 0 <= y < height && i == y * width + x
    requires res.Valid() && res.width == width && res.height == height
    requires res.data != wrapper.data && wrapper.data[..] == orig
    requires |orig| % 4 == 0 && 0 <= i < |orig| / 4
    requires res.data[..] == Overlay(orig, Filled(GrayOver(orig), NoWrites(|orig| / 4), i))
    modifies res.data
    ensures res.data[..] == Overlay(orig, Filled(GrayOver(orig), NoWrites(|orig| / 4), i + 1))
  {
    var rgb := wrapper.GetRGB(x, y);
    var color := 0.2126 * rgb.0 as real + 0.7152 * rgb.1 as real + 0.0722 * rgb.2 as real;
    GrayCell(wrapper, x, y, i, orig);
    FilledStep(GrayOver(orig), NoWrites(|orig| / 4), i);
    ghost var over := res.SetMidOverlay(x, y, ToUint8Clamp(color), i, orig,
                                        Filled(GrayOver(orig), NoWrites(|orig| / 4), i));
  }

  /** One row of grayscale's pixel loop: the pixels of row y get their luminance, in
      order, after those of the rows above. */
  method GrayRow(wrapper: Uint8ClampedWrapper, res: Uint8ClampedWrapper, width: int, height: int,
                 y: int, ghost i0: int, ghost orig: seq<Byte>)
    requires wrapper.Valid() && !wrapper.Empty() && width == wrapper.width && height == wrapper.height
    requires 0 <= y < height && i0 == y * width
    requires res.Valid() && res.width == width && res.height == height
    requires res.data != wrapper.data && wrapper.data[..] == orig
    requires |orig| % 4 == 0 && 0 <= i0 && i0 + width <= |orig| / 4
    requires res.data[..] == Overlay(orig, Filled(GrayOver(orig), NoWrites(|orig| / 4), i0))
    modifies res.data
    ensures res.data[..] == Overlay(orig, Filled(GrayOver(orig), NoWrites(|orig| / 4), i0 + width))
  {
    for x := 0 to width
      invariant wrapper.data[..] == orig
      invariant res.data[..] == Overlay(orig, Filled(GrayOver(orig), NoWrites(|orig| / 4), i0 + x))
    {
      GrayPixelStep(wrapper, res, width, height, x, y, i0 + x, orig);
    }
  }

  /** CannyLogic.grayscale. */
  method Grayscale(wrapper: Uint8ClampedWrapper) returns (res: Uint8ClampedWrapper)
    requires wrapper.Valid()
    ensures fresh(res) && res.Valid()
    ensures wrapper.Empty() ==> res.Empty()
    ensures !wrapper.Empty() ==>
      && fresh(res.data) && res.width == wrapper.width && res.height == wrapper.height
      && res.data[..] == GrayBytes(wrapper.data[..])
  {
    var height := wrapper.height;
    var width := wrapper.width;

    res := new Uint8ClampedWrapper();
    var ok := res.SetBufferFromUint8Wrapper(wrapper);
    if !ok {
      return;
    }

    ghost var orig := wrapper.data[..];
    ghost var n := width * height;
    ghost var cs := GrayOver(orig);
    FilledEnds(cs, NoWrites(n));
    OverlayNothing(orig, NoWrites(n));
    var y := 0;
    ghost var i := 0;
    while y < height
      invariant 0 <= y <= height && i == y * width && 0 <= i <= n
      invariant res.Valid() && fresh(res.data)
      invariant res.width == width && res.height == height
      invariant res.data[..] == Overlay(orig, Filled(cs, NoWrites(n), i))
    {
      IndexInRange(width, height, width - 1, y);
      assert y * width + width == (y + 1) * width;
      GrayRow(wrapper, res, width, height, y, i, orig);
      i := i + width;
      y := y + 1;
    }
    assert i == n;
    FilledEnds(cs, NoWrites(n));
  }
}
