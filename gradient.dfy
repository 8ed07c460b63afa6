/** CannyLogic.gradientLength with its helpers _getPixel and _getSobelKernel: the Sobel
    derivatives of a grey image with clamp-to-edge addressing, their magnitude and the
    quantised direction of the gradient. */
module CannyGradient {
  import opened Pixels
  import opened Grid
  import opened Buffers

  /** Math.PI. */
  const PI: real := 3.141592653589793

  /** The upper bounds of the first four direction buckets: PI/8, 3PI/8, 5PI/8, 7PI/8. */
  const AngleIntervals: seq<real> := [PI / 8.0, 3.0 * PI / 8.0, 5.0 * PI / 8.0, 7.0 * PI / 8.0]

  /** The pair of 3x3 kernels _getSobelKernel returns, each row by row. */
  datatype SobelKernel = SobelKernel(kernelX: seq<int>, kernelY: seq<int>)

  /** _getSobelKernel: the two 3x3 kernels, row by row. kernelX is the central
      difference along x smoothed with the weights 1, 2, 1 along y, and kernelY is its
      transpose. */
  function GetSobelKernel(): (k: SobelKernel)
    ensures |k.kernelX| == 9 && |k.kernelY| == 9
    ensures forall i :: 0 <= i < 9 ==> k.kernelX[i] == (i % 3 - 1) * (if i / 3 == 1 then 2 else 1)
    ensures forall i :: 0 <= i < 9 ==> k.kernelY[i] == k.kernelX[3 * (i % 3) + i / 3]
  {
    SobelKernel([-1, 0, 1,
                 -2, 0, 2,
                 -1, 0, 1],
                [-1, -2, -1,
                  0,  0,  0,
                  1,  2,  1])
  }

  /** _getPixel on the grey image of a byte wrapper: the grey value of (x, y) with both
      coordinates clamped to the nearest edge. */
  function GetPixel(wrapper: Uint8ClampedWrapper, width: int, height: int, x: int, y: int): (v: int)
    reads wrapper, wrapper.data
    requires wrapper.Valid() && !wrapper.Empty() && width == wrapper.width && height == wrapper.height
    ensures v == Mids(wrapper.data[..])[ClampedIndex(width, height, x, y)]
    ensures IsCorrectIndex(width, height, x, y) ==> v == wrapper.GetMid(x, y)
  {
    wrapper.GetMid(ClampCoord(x, width), ClampCoord(y, height))
  }

  /** _getPixel on a typed array wrapper: the cell of (x, y) with both coordinates clamped
      to the nearest edge. */
  function GetFieldPixel(wrapper: TypedArrayWrapper<real>, width: int, height: int, x: int, y: int): (v: real)
    reads wrapper, wrapper.data
    requires wrapper.Valid() && !wrapper.Empty() && width == wrapper.width && height == wrapper.height
    ensures v == wrapper.data[ClampedIndex(width, height, x, y)]
    ensures IsCorrectIndex(width, height, x, y) ==> v == wrapper.GetMid(x, y)
  {
    wrapper.GetMid(ClampCoord(x, width), ClampCoord(y, height))
  }

  /** Tap idx of the 3x3 window around (x, y), in the order gradientLength visits it:
      rows y-1, y, y+1, and within a row columns x-1, x, x+1. */
  function Tap(G: seq<int>, w: int, h: int, x: int, y: int, idx: int): int
    requires w > 0 && h > 0 && |G| == w * h
  {
    G[ClampedIndex(w, h, x + idx % 3 - 1, y + idx / 3 - 1)]
  }

  /** The 3x3 window around (x, y) as gradientLength visits it, tap by tap. */
  function Window(G: seq<int>, w: int, h: int, x: int, y: int): (win: seq<int>)
    requires w > 0 && h > 0 && |G| == w * h
    ensures |win| == 9
    ensures forall idx :: 0 <= idx < 9 ==> win[idx] == Tap(G, w, h, x, y, idx)
  {
    seq(9, idx requires 0 <= idx < 9 => Tap(G, w, h, x, y, idx))
  }

  /** The sum of the first n taps of a window, each weighted by its kernel entry. */
  function Convolve(kernel: seq<int>, win: seq<int>, n: nat): int
    requires n <= |kernel| && n <= |win|
  {
    if n == 0 then 0 else Convolve(kernel, win, n - 1) + kernel[n - 1] * win[n - 1]
  }

  /** gx of gradientLength at (x, y): kernelX applied to the window (SobelXTaps writes
      it out). */
  function SobelX(G: seq<int>, w: int, h: int, x: int, y: int): int
    requires w > 0 && h > 0 && |G| == w * h
  {
    Convolve(GetSobelKernel().kernelX, Window(G, w, h, x, y), 9)
  }

  /** gy of gradientLength at (x, y): kernelY applied to the window (SobelYTaps writes
      it out). */
  function SobelY(G: seq<int>, w: int, h: int, x: int, y: int): int
    requires w > 0 && h > 0 && |G| == w * h
  {
    Convolve(GetSobelKernel().kernelY, Window(G, w, h, x, y), 9)
  }

  /** The gradient length: Math.sqrt of gx^2 + gy^2, with the square root a parameter.
      It depends on the two derivatives only through their sizes, not their signs. */
  function Magnitude(gx: int, gy: int, sqrt: real -> real): (m: real)
    ensures var ax, ay := (if gx < 0 then -gx else gx), (if gy < 0 then -gy else gy);
      m == sqrt((ax * ax + ay * ay) as real)
  {
    sqrt((gx * gx + gy * gy) as real)
  }

  /** The undirected gradient angle: 0 for a zero gradient, otherwise Math.atan2(gy, gx)
      (a parameter) moved into the upper half-plane by adding PI when negative. */
  function AngleOf(gx: int, gy: int, atan2: (real, real) -> real): (a: real)
    ensures gx == 0 && gy == 0 ==> a == 0.0
    ensures -PI <= atan2(gy as real, gx as real) <= PI ==> 0.0 <= a <= PI
  {
    var angle := if gx != 0 || gy != 0 then atan2(gy as real, gx as real) else 0.0;
    if angle < 0.0 then angle + PI else angle
  }

  /** The direction bucket of an angle: the first bucket whose upper bound is at least the
      angle; an angle beyond the last bound wraps round to bucket 0. */
  function DirectionCode(angle: real): (d: Byte)
    ensures d <= 3
    ensures 0 < d ==> AngleIntervals[d - 1] < angle <= AngleIntervals[d]
    ensures d == 0 <==> angle <= AngleIntervals[0] || angle > AngleIntervals[3]
  {
    if angle <= AngleIntervals[0] then 0
    else if angle <= AngleIntervals[1] then 1
    else if angle <= AngleIntervals[2] then 2
    else if angle <= AngleIntervals[3] then 3
    else 0
  }

  /** The gradient length and the direction bucket of pixel p, cell (p mod w, p div w). */
  function MagnitudeAt(G: seq<int>, w: int, h: int, sqrt: real -> real, p: int): real
    requires w > 0 && h > 0 && |G| == w * h
  {
    Magnitude(SobelX(G, w, h, p % w, p / w), SobelY(G, w, h, p % w, p / w), sqrt)
  }

  function DirectionAt(G: seq<int>, w: int, h: int, atan2: (real, real) -> real, p: int): Byte
    requires w > 0 && h > 0 && |G| == w * h
  {
    DirectionCode(AngleOf(SobelX(G, w, h, p % w, p / w), SobelY(G, w, h, p % w, p / w), atan2))
  }

  /** The gradient length field of the whole image, in pixel order. */
  function MagnitudeField(G: seq<int>, w: int, h: int, sqrt: real -> real): (m: seq<real>)
    requires w > 0 && h > 0 && |G| == w * h
    ensures |m| == w * h
  {
    seq(w * h, p requires 0 <= p < w * h => MagnitudeAt(G, w, h, sqrt, p))
  }

  /** The direction field of the whole image, in pixel order. */
  function DirectionField(G: seq<int>, w: int, h: int, atan2: (real, real) -> real): (d: seq<Byte>)
    requires w > 0 && h > 0 && |G| == w * h
    ensures |d| == w * h
  {
    seq(w * h, p requires 0 <= p < w * h => DirectionAt(G, w, h, atan2, p))
  }

  /** Every cell of a direction field is a bucket code 0..3. */
  lemma DirectionFieldCodes(G: seq<int>, w: int, h: int, atan2: (real, real) -> real)
    requires w > 0 && h > 0 && |G| == w * h
    ensures forall p :: 0 <= p < w * h ==> DirectionField(G, w, h, atan2)[p] <= 3
  {
  }

  /** Cell (x, y) of the gradient length field is the length of the Sobel gradient there. */
  lemma MagnitudeFieldAt(G: seq<int>, w: int, h: int, sqrt: real -> real, x: int, y: int)
    requires w > 0 && h > 0 && |G| == w * h && 0 <= x < w && 0 <= y < h
    ensures 0 <= y * w + x < w * h
    ensures MagnitudeField(G, w, h, sqrt)[y * w + x] == Magnitude(SobelX(G, w, h, x, y), SobelY(G, w, h, x, y), sqrt)
  {
    IndexInRange(w, h, x, y);
    IndexDecode(w, x, y);
  }

  /** Cell (x, y) of the direction field is the bucket of the Sobel gradient's angle there. */
  lemma DirectionFieldAt(G: seq<int>, w: int, h: int, atan2: (real, real) -> real, x: int, y: int)
    requires w > 0 && h > 0 && |G| == w * h && 0 <= x < w && 0 <= y < h
    ensures 0 <= y * w + x < w * h
    ensures DirectionField(G, w, h, atan2)[y * w + x]
         == DirectionCode(AngleOf(SobelX(G, w, h, x, y), SobelY(G, w, h, x, y), atan2))
  {
    IndexInRange(w, h, x, y);
    IndexDecode(w, x, y);
  }

  /** The nine weighted taps of a 3x3 window, written out. */
  lemma ConvolveNine(kernel: seq<int>, win: seq<int>)
    requires |kernel| == 9 && |win| == 9
    ensures Convolve(kernel, win, 9)
         == kernel[0] * win[0] + kernel[1] * win[1] + kernel[2] * win[2]
          + kernel[3] * win[3] + kernel[4] * win[4] + kernel[5] * win[5]
          + kernel[6] * win[6] + kernel[7] * win[7] + kernel[8] * win[8]
  {
    assert Convolve(kernel, win, 1) == kernel[0] * win[0];
    assert Convolve(kernel, win, 3) == Convolve(kernel, win, 1) + kernel[1] * win[1] + kernel[2] * win[2];
    assert Convolve(kernel, win, 5) == Convolve(kernel, win, 3) + kernel[3] * win[3] + kernel[4] * win[4];
    assert Convolve(kernel, win, 7) == Convolve(kernel, win, 5) + kernel[5] * win[5] + kernel[6] * win[6];
  }

  /** gx of gradientLength written out: the right column of a window minus the left
      one, with the middle row weighted twice. */
  lemma SobelXTaps(win: seq<int>)
    requires |win| == 9
    ensures Convolve(GetSobelKernel().kernelX, win, 9)
         == (win[2] - win[0]) + 2 * (win[5] - win[3]) + (win[8] - win[6])
  {
    ConvolveNine(GetSobelKernel().kernelX, win);
  }

  /** gy of gradientLength written out: the bottom row of a window minus the top one,
      with the middle column weighted twice. */
  lemma SobelYTaps(win: seq<int>)
    requires |win| == 9
    ensures Convolve(GetSobelKernel().kernelY, win, 9)
         == (win[6] - win[0]) + 2 * (win[7] - win[1]) + (win[8] - win[2])
  {
    ConvolveNine(GetSobelKernel().kernelY, win);
  }

  /** Every tap of a window of an image of a single grey value c is c. */
  lemma ConstantWindow(G: seq<int>, w: int, h: int, c: int, x: int, y: int)
    requires w > 0 && h > 0 && |G| == w * h
    requires forall k :: 0 <= k < |G| ==> G[k] == c
    ensures Window(G, w, h, x, y) == [c, c, c, c, c, c, c, c, c]
  {
  }

  /** On an image of a single grey value both Sobel derivatives vanish everywhere. */
  lemma ConstantImageSobel(G: seq<int>, w: int, h: int, c: int, x: int, y: int)
    requires w > 0 && h > 0 && |G| == w * h
    requires forall k :: 0 <= k < |G| ==> G[k] == c
    ensures SobelX(G, w, h, x, y) == 0 && SobelY(G, w, h, x, y) == 0
  {
    ConstantWindow(G, w, h, c, x, y);
    SobelXTaps([c, c, c, c, c, c, c, c, c]);
    SobelYTaps([c, c, c, c, c, c, c, c, c]);
  }

  /** So on such an image the gradient length is sqrt(0) and the direction is bucket 0
      at every pixel. */
  lemma ConstantImage(G: seq<int>, w: int, h: int, c: int, sqrt: real -> real,
                      atan2: (real, real) -> real, x: int, y: int)
    requires w > 0 && h > 0 && |G| == w * h && 0 <= x < w && 0 <= y < h
    requires forall k :: 0 <= k < |G| ==> G[k] == c
    ensures 0 <= y * w + x < w * h
    ensures MagnitudeField(G, w, h, sqrt)[y * w + x] == sqrt(0.0)
    ensures DirectionField(G, w, h, atan2)[y * w + x] == 0
  {
    ConstantImageSobel(G, w, h, c, x, y);
    MagnitudeFieldAt(G, w, h, sqrt, x, y);
    DirectionFieldAt(G, w, h, atan2, x, y);
  }

  /** An image that changes only from column to column: every pixel p has the grey value
      col[p mod w] of its column. */
  ghost predicate IsColumnImage(G: seq<int>, w: int, h: int, col: seq<int>)
  {
    && w > 0 && h > 0 && |G| == w * h && |col| == w
    && forall p :: 0 <= p < |G| ==> G[p] == col[p % w]
  }

  /** A tap of a column image depends only on the clamped column. */
  lemma ColumnImageTap(G: seq<int>, w: int, h: int, col: seq<int>, x: int, y: int, idx: int)
    requires IsColumnImage(G, w, h, col) && 0 <= idx < 9
    ensures Tap(G, w, h, x, y, idx) == col[ClampCoord(x + idx % 3 - 1, w)]
  {
    IndexDecode(w, ClampCoord(x + idx % 3 - 1, w), ClampCoord(y + idx / 3 - 1, h));
  }

  /** A column image (a vertical step edge, say) has no vertical derivative: the rows
      above and below every pixel carry the same values. */
  lemma ColumnImageSobelY(G: seq<int>, w: int, h: int, col: seq<int>, x: int, y: int)
    requires IsColumnImage(G, w, h, col)
    ensures SobelY(G, w, h, x, y) == 0
  {
    ColumnImageTap(G, w, h, col, x, y, 0);
    ColumnImageTap(G, w, h, col, x, y, 1);
    ColumnImageTap(G, w, h, col, x, y, 2);
    ColumnImageTap(G, w, h, col, x, y, 6);
    ColumnImageTap(G, w, h, col, x, y, 7);
    ColumnImageTap(G, w, h, col, x, y, 8);
    SobelYTaps(Window(G, w, h, x, y));
    var win := Window(G, w, h, x, y);
    assert win[0] == win[6] && win[1] == win[7] && win[2] == win[8];
  }

  /** Where a column image has a horizontal derivative gx, the angle atan2(0, gx) is 0
      or PI and either falls into bucket 0; where it has none the angle is 0. */
  lemma ColumnImageDirection(G: seq<int>, w: int, h: int, col: seq<int>, atan2: (real, real) -> real,
                             x: int, y: int)
    requires IsColumnImage(G, w, h, col) && 0 <= x < w && 0 <= y < h
    requires var gx := SobelX(G, w, h, x, y);
      gx != 0 ==> atan2(0.0, gx as real) == if gx < 0 then PI else 0.0
    ensures 0 <= y * w + x < w * h
    ensures DirectionField(G, w, h, atan2)[y * w + x] == 0
  {
    ColumnImageSobelY(G, w, h, col, x, y);
    DirectionFieldAt(G, w, h, atan2, x, y);
  }

  /** One more weighted tap added to the sum of the first n. */
  lemma ConvolveStep(kernel: seq<int>, win: seq<int>, n: nat, acc: int, pixel: int)
    requires n < |kernel| && n < |win|
    requires acc == Convolve(kernel, win, n) && pixel == win[n]
    ensures acc + kernel[n] * pixel == Convolve(kernel, win, n + 1)
  {
  }

  /** The pixel of the window around (x, y) at offset (j, i), read with _getPixel, is
      tap 3*(i+1) + (j+1). */
  method TapAt(wrapper: Uint8ClampedWrapper, width: int, height: int, x: int, y: int,
               i: int, j: int, ghost index: int) returns (pixel: int)
    requires wrapper.Valid() && !wrapper.Empty() && width == wrapper.width && height == wrapper.height
    requires -1 <= i <= 1 && -1 <= j <= 1 && index == 3 * (i + 1) + (j + 1)
    ensures pixel == Window(Mids(wrapper.data[..]), width, height, x, y)[index]
  {
    pixel := GetPixel(wrapper, width, height, x + j, y + i);
    IndexDecode(3, j + 1, i + 1);
  }

  /** The 3x3 convolution loops of gradientLength at one pixel. */
  method SobelAt(wrapper: Uint8ClampedWrapper, width: int, height: int, x: int, y: int)
    returns (gx: int, gy: int)
    requires wrapper.Valid() && !wrapper.Empty() && width == wrapper.width && height == wrapper.height
    ensures gx == SobelX(Mids(wrapper.data[..]), width, height, x, y)
    ensures gy == SobelY(Mids(wrapper.data[..]), width, height, x, y)
  {
    var kernel := GetSobelKernel();
    ghost var win := Window(Mids(wrapper.data[..]), width, height, x, y);
    gx, gy := 0, 0;
    var index := 0;
    for i := -1 to 2
      invariant index == 3 * (i + 1)
      invariant gx == Convolve(kernel.kernelX, win, index)
      invariant gy == Convolve(kernel.kernelY, win, index)
    {
      for j := -1 to 2
        invariant index == 3 * (i + 1) + (j + 1)
        invariant gx == Convolve(kernel.kernelX, win, index)
        invariant gy == Convolve(kernel.kernelY, win, index)
      {
        var pixel := TapAt(wrapper, width, height, x, y, i, j, index);
        ConvolveStep(kernel.kernelX, win, index, gx, pixel);
        ConvolveStep(kernel.kernelY, win, index, gy, pixel);
        gx := gx + kernel.kernelX[index] * pixel;
        gy := gy + kernel.kernelY[index] * pixel;
        index := index + 1;
      }
    }
  }

  /** The loop of gradientLength that picks the direction bucket of an angle. */
  method ApproxDirection(angle: real) returns (dir: Byte)
    ensures dir == DirectionCode(angle)
  {
    var angleIntervals := AngleIntervals;
    dir := 0;
    var i := 0;
    while i < |angleIntervals|
      invariant 0 <= i <= |angleIntervals|
      invariant forall k :: 0 <= k < i ==> angle > angleIntervals[k]
      invariant dir == 0
    {
      if angle <= angleIntervals[i] {
        dir := i;
        break;
      }
      i := i + 1;
    }
  }

  /** The gradient length and the direction bucket gradientLength derives from gx, gy. */
  method LengthAndDirection(gx: int, gy: int, sqrt: real -> real, atan2: (real, real) -> real)
    returns (gradLenVal: real, dir: Byte)
    ensures gradLenVal == Magnitude(gx, gy, sqrt)
    ensures dir == DirectionCode(AngleOf(gx, gy, atan2))
  {
    gradLenVal := sqrt((gx * gx + gy * gy) as real);
    var angle := 0.0;
    if gx != 0 || gy != 0 {
      angle := atan2(gy as real, gx as real);
    }
    if angle < 0.0 {
      angle := angle + PI;
    }
    dir := ApproxDirection(angle);
  }

  /** The values gradientLength computes at the pixel (x, y): its gradient length and its
      direction bucket. */
  method GradientAt(wrapper: Uint8ClampedWrapper, x: int, y: int, sqrt: real -> real,
                    atan2: (real, real) -> real) returns (gradLenVal: real, dir: Byte)
    requires wrapper.Valid() && !wrapper.Empty()
    requires 0 <= x < wrapper.width && 0 <= y < wrapper.height
    ensures var w, h := wrapper.width, wrapper.height;
      var p := y * w + x;
      && 0 <= p < w * h
      && gradLenVal == MagnitudeField(Mids(wrapper.data[..]), w, h, sqrt)[p]
      && dir == DirectionField(Mids(wrapper.data[..]), w, h, atan2)[p]
  {
    var width, height := wrapper.width, wrapper.height;
    var gx, gy := SobelAt(wrapper, width, height, x, y);
    GradientCell(Mids(wrapper.data[..]), width, height, x, y, gx, gy, sqrt, atan2);
    gradLenVal, dir := LengthAndDirection(gx, gy, sqrt, atan2);
  }

  /** The derivatives at (x, y) decide cell y*w + x of both gradient fields. */
  lemma GradientCell(G: seq<int>, w: int, h: int, x: int, y: int, gx: int, gy: int,
                     sqrt: real -> real, atan2: (real, real) -> real)
    requires w > 0 && h > 0 && |G| == w * h && 0 <= x < w && 0 <= y < h
    requires gx == SobelX(G, w, h, x, y) && gy == SobelY(G, w, h, x, y)
    ensures 0 <= y * w + x < w * h
    ensures MagnitudeField(G, w, h, sqrt)[y * w + x] == Magnitude(gx, gy, sqrt)
    ensures DirectionField(G, w, h, atan2)[y * w + x] == DirectionCode(AngleOf(gx, gy, atan2))
  {
    MagnitudeFieldAt(G, w, h, sqrt, x, y);
    DirectionFieldAt(G, w, h, atan2, x, y);
  }

  /** What stays fixed during gradientLength's pixel loop: the source wrapper with store
      orig and its gradient fields M and D, and three separate outputs of its size. */
  ghost predicate GradientFrame(wrapper: Uint8ClampedWrapper, gradLen: TypedArrayWrapper<real>,
                                angleApprox: TypedArrayWrapper<Byte>, resWrapper: Uint8ClampedWrapper,
                                orig: seq<Byte>, M: seq<real>, D: seq<Byte>,
                                sqrt: real -> real, atan2: (real, real) -> real)
    reads wrapper, gradLen, angleApprox, resWrapper, wrapper.data
  {
    && wrapper.Valid() && !wrapper.Empty()
    && gradLen.Valid() && gradLen.width == wrapper.width && gradLen.height == wrapper.height
    && angleApprox.Valid() && angleApprox.width == wrapper.width && angleApprox.height == wrapper.height
    && resWrapper.Valid() && resWrapper.width == wrapper.width && resWrapper.height == wrapper.height
    && resWrapper.data != wrapper.data && angleApprox.data != wrapper.data
    && angleApprox.data != resWrapper.data
    && wrapper.data[..] == orig
    && M == MagnitudeField(Mids(orig), wrapper.width, wrapper.height, sqrt)
    && D == DirectionField(Mids(orig), wrapper.width, wrapper.height, atan2)
  }

  /** The outputs of gradientLength once its pixel loop has done the first i pixels:
      each field holds M (resp. D) there and its initial contents (Zg, Zd) after, and the
      visualisation holds the clamped gradient lengths of those pixels over a copy of the
      source store orig. */
  ghost predicate GradientPrefix(gradLen: TypedArrayWrapper<real>, angleApprox: TypedArrayWrapper<Byte>,
                                 resWrapper: Uint8ClampedWrapper, orig: seq<Byte>, M: seq<real>,
                                 D: seq<Byte>, Zg: seq<real>, Zd: seq<Byte>, i: int)
    reads gradLen, angleApprox, resWrapper, gradLen.data, angleApprox.data, resWrapper.data
  {
    && gradLen.data != null && angleApprox.data != null && resWrapper.data != null
    && |M| == |D| == |Zg| == |Zd| && 0 <= i <= |M| && |orig| == 4 * |M|
    && gradLen.data[..] == Filled(M, Zg, i)
    && angleApprox.data[..] == Filled(D, Zd, i)
    && resWrapper.data[..] == Overlay(orig, Filled(Written(M), NoWrites(|M|), i))
  }

  /** Before the pixel loop nothing is written: each output holds its initial contents. */
  lemma GradientPrefixStart(gradLen: TypedArrayWrapper<real>, angleApprox: TypedArrayWrapper<Byte>,
                            resWrapper: Uint8ClampedWrapper, orig: seq<Byte>, M: seq<real>, D: seq<Byte>)
    requires gradLen.data != null && angleApprox.data != null && resWrapper.data != null
    requires |M| == |D| == gradLen.data.Length == angleApprox.data.Length && |orig| == 4 * |M|
    requires resWrapper.data[..] == orig
    ensures GradientPrefix(gradLen, angleApprox, resWrapper, orig, M, D, gradLen.data[..], angleApprox.data[..], 0)
  {
    FilledEnds(M, gradLen.data[..]);
    FilledEnds(D, angleApprox.data[..]);
    FilledEnds(Written(M), NoWrites(|M|));
    OverlayNothing(orig, NoWrites(|M|));
  }

  /** After the pixel loop everything is written: the fields are M and D and the
      visualisation is orig with every pixel's clamped gradient length. */
  lemma GradientPrefixEnd(gradLen: TypedArrayWrapper<real>, angleApprox: TypedArrayWrapper<Byte>,
                          resWrapper: Uint8ClampedWrapper, orig: seq<Byte>, M: seq<real>, D: seq<Byte>,
                          Zg: seq<real>, Zd: seq<Byte>)
    requires GradientPrefix(gradLen, angleApprox, resWrapper, orig, M, D, Zg, Zd, |M|)
    ensures gradLen.data[..] == M && angleApprox.data[..] == D
    ensures resWrapper.data[..] == Overlay(orig, Written(M))
  {
    FilledEnds(M, Zg);
    FilledEnds(D, Zd);
    FilledEnds(Written(M), NoWrites(|M|));
  }

  /** The body of gradientLength's pixel loop at (x, y): the cells of pixel y*w + x are
      written after those of the pixels before it; M and D are the gradient length and
      direction fields of the source image. */
  method GradientPixel(wrapper: Uint8ClampedWrapper, gradLen: TypedArrayWrapper<real>,
                       angleApprox: TypedArrayWrapper<Byte>, resWrapper: Uint8ClampedWrapper,
                       x: int, y: int, sqrt: real -> real, atan2: (real, real) -> real,
                       ghost orig: seq<Byte>, ghost M: seq<real>, ghost D: seq<Byte>,
                       ghost Zg: seq<real>, ghost Zd: seq<Byte>, ghost i: int)
    requires wrapper.Valid() && 0 <= x < wrapper.width && 0 <= y < wrapper.height
    requires GradientFrame(wrapper, gradLen, angleApprox, resWrapper, orig, M, D, sqrt, atan2)
    requires i == y * wrapper.width + x
    requires GradientPrefix(gradLen, angleApprox, resWrapper, orig, M, D, Zg, Zd, i)
    modifies gradLen.data, angleApprox.data, resWrapper.data
    ensures GradientPrefix(gradLen, angleApprox, resWrapper, orig, M, D, Zg, Zd, i + 1)
  {
    ghost var n := |M|;
    IndexInRange(wrapper.width, wrapper.height, x, y);
    var gradLenVal, dir := GradientAt(wrapper, x, y, sqrt, atan2);
    FilledStep(M, Zg, i);
    FilledStep(D, Zd, i);
    FilledStep(Written(M), NoWrites(n), i);
    gradLen.SetMid(x, y, gradLenVal);
    ghost var over' := resWrapper.SetMidOverlay(x, y, ToUint8Clamp(gradLenVal), i, orig,
                                                Filled(Written(M), NoWrites(n), i));
    angleApprox.SetMid(x, y, dir);
  }

  /** One row of gradientLength's pixel loop. */
  method GradientRow(wrapper: Uint8ClampedWrapper, gradLen: TypedArrayWrapper<real>,
                     angleApprox: TypedArrayWrapper<Byte>, resWrapper: Uint8ClampedWrapper,
                     y: int, sqrt: real -> real, atan2: (real, real) -> real,
                     ghost orig: seq<Byte>, ghost M: seq<real>, ghost D: seq<Byte>,
                     ghost Zg: seq<real>, ghost Zd: seq<Byte>, ghost i0: int)
    requires wrapper.Valid() && 0 <= y < wrapper.height
    requires GradientFrame(wrapper, gradLen, angleApprox, resWrapper, orig, M, D, sqrt, atan2)
    requires i0 == y * wrapper.width
    requires GradientPrefix(gradLen, angleApprox, resWrapper, orig, M, D, Zg, Zd, i0)
    modifies gradLen.data, angleApprox.data, resWrapper.data
    ensures GradientPrefix(gradLen, angleApprox, resWrapper, orig, M, D, Zg, Zd, i0 + wrapper.width)
  {
    var width := wrapper.width;
    ghost var i := i0;
    for x := 0 to width
      invariant i == i0 + x
      invariant GradientFrame(wrapper, gradLen, angleApprox, resWrapper, orig, M, D, sqrt, atan2)
      invariant GradientPrefix(gradLen, angleApprox, resWrapper, orig, M, D, Zg, Zd, i)
      modifies gradLen.data, angleApprox.data, resWrapper.data
    {
      GradientPixel(wrapper, gradLen, angleApprox, resWrapper, x, y, sqrt, atan2, orig, M, D, Zg, Zd, i);
      i := i + 1;
    }
  }

  /** The row loop of gradientLength: every row, top to bottom. */
  method GradientLoop(wrapper: Uint8ClampedWrapper, gradLen: TypedArrayWrapper<real>,
                      angleApprox: TypedArrayWrapper<Byte>, resWrapper: Uint8ClampedWrapper,
                      sqrt: real -> real, atan2: (real, real) -> real,
                      ghost orig: seq<Byte>, ghost M: seq<real>, ghost D: seq<Byte>,
                      ghost Zg: seq<real>, ghost Zd: seq<Byte>)
    requires GradientFrame(wrapper, gradLen, angleApprox, resWrapper, orig, M, D, sqrt, atan2)
    requires GradientPrefix(gradLen, angleApprox, resWrapper, orig, M, D, Zg, Zd, 0)
    modifies gradLen.data, angleApprox.data, resWrapper.data
    ensures GradientPrefix(gradLen, angleApprox, resWrapper, orig, M, D, Zg, Zd, |M|)
  {
    var width := wrapper.width;
    var height := wrapper.height;
    ghost var n := |M|;
    ghost var i := 0;
    for y := 0 to height
      invariant i == y * width && 0 <= i <= n
      invariant GradientFrame(wrapper, gradLen, angleApprox, resWrapper, orig, M, D, sqrt, atan2)
      invariant GradientPrefix(gradLen, angleApprox, resWrapper, orig, M, D, Zg, Zd, i)
      modifies gradLen.data, angleApprox.data, resWrapper.data
    {
      assert (y + 1) * width == i + width;
      GradientRow(wrapper, gradLen, angleApprox, resWrapper, y, sqrt, atan2, orig, M, D, Zg, Zd, i);
      i := i + width;
    }
    assert i == n;
  }

  /** The pixel loops of gradientLength over freshly allocated outputs. */
  method GradientRows(wrapper: Uint8ClampedWrapper, gradLen: TypedArrayWrapper<real>,
                      angleApprox: TypedArrayWrapper<Byte>, resWrapper: Uint8ClampedWrapper,
                      sqrt: real -> real, atan2: (real, real) -> real)
    requires wrapper.Valid() && !wrapper.Empty()
    requires gradLen.Valid() && gradLen.width == wrapper.width && gradLen.height == wrapper.height
    requires angleApprox.Valid() && angleApprox.width == wrapper.width && angleApprox.height == wrapper.height
    requires resWrapper.Valid() && resWrapper.width == wrapper.width && resWrapper.height == wrapper.height
    requires resWrapper.data != wrapper.data && angleApprox.data != wrapper.data
    requires angleApprox.data != resWrapper.data
    requires resWrapper.data[..] == wrapper.data[..]
    modifies gradLen.data, angleApprox.data, resWrapper.data
    ensures var w, h := wrapper.width, wrapper.height;
      var G := Mids(wrapper.data[..]);
      && gradLen.data[..] == MagnitudeField(G, w, h, sqrt)
      && angleApprox.data[..] == DirectionField(G, w, h, atan2)
      && resWrapper.data[..] == Overlay(wrapper.data[..], Written(MagnitudeField(G, w, h, sqrt)))
  {
    ghost var orig := wrapper.data[..];
    ghost var M := MagnitudeField(Mids(orig), wrapper.width, wrapper.height, sqrt);
    ghost var D := DirectionField(Mids(orig), wrapper.width, wrapper.height, atan2);
    ghost var Zg, Zd := gradLen.data[..], angleApprox.data[..];
    GradientPrefixStart(gradLen, angleApprox, resWrapper, orig, M, D);
    GradientLoop(wrapper, gradLen, angleApprox, resWrapper, sqrt, atan2, orig, M, D, Zg, Zd);
    GradientPrefixEnd(gradLen, angleApprox, resWrapper, orig, M, D, Zg, Zd);
  }

  /** CannyLogic.gradientLength. */
  method GradientLength(wrapper: Uint8ClampedWrapper, sqrt: real -> real, atan2: (real, real) -> real)
    returns (gradLen: TypedArrayWrapper<real>, angleApprox: TypedArrayWrapper<Byte>,
             resWrapper: Uint8ClampedWrapper)
    requires wrapper.Valid()
    ensures fresh(gradLen) && fresh(angleApprox) && fresh(resWrapper)
    ensures gradLen.Valid() && angleApprox.Valid() && resWrapper.Valid()
    ensures gradLen.zero == 0.0 && angleApprox.zero == 0
    ensures wrapper.Empty() ==> gradLen.Empty() && angleApprox.Empty() && resWrapper.Empty()
    ensures !wrapper.Empty() ==>
      var w, h := wrapper.width, wrapper.height;
      var G := Mids(wrapper.data[..]);
      && fresh(gradLen.data) && fresh(angleApprox.data) && fresh(resWrapper.data)
      && gradLen.width == w && gradLen.height == h
      && angleApprox.width == w && angleApprox.height == h
      && resWrapper.width == w && resWrapper.height == h
      && gradLen.data[..] == MagnitudeField(G, w, h, sqrt)
      && angleApprox.data[..] == DirectionField(G, w, h, atan2)
      && resWrapper.data[..] == Overlay(wrapper.data[..], Written(MagnitudeField(G, w, h, sqrt)))
  {
    var width := wrapper.width;
    var height := wrapper.height;

    gradLen := new TypedArrayWrapper<real>(0.0);
    angleApprox := new TypedArrayWrapper<Byte>(0);
    resWrapper := new Uint8ClampedWrapper();

    var ok1 := gradLen.SetBufferDefault(width, height);
    var ok2 := angleApprox.SetBufferDefault(width, height);
    var ok3 := resWrapper.SetBufferFromUint8Wrapper(wrapper);
    if wrapper.Empty() {
      return;
    }

    GradientRows(wrapper, gradLen, angleApprox, resWrapper, sqrt, atan2);
  }
}
