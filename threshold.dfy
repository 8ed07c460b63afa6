/** CannyLogic.doubleThresholdFilter: classification of suppressed gradient magnitudes
    into non-edge (0), weak (127) and strong (255) pixels. */
module CannyThreshold {
  import opened Pixels
  import opened Grid
  import opened Buffers

  /** The lower and the higher of the two thresholds, as the filter orders them. */
  function Low(t1: real, t2: real): (lo: real)
    ensures (lo == t1 || lo == t2) && lo <= t1 && lo <= t2
  {
    if t2 < t1 then t2 else t1
  }

  function High(t1: real, t2: real): (hi: real)
    ensures (hi == t1 || hi == t2) && hi >= t1 && hi >= t2
  {
    if t2 < t1 then t1 else t2
  }

  /** The class of one magnitude: at most low is 0, above low and at most high is 127,
      above high is 255. */
  function Classify(grad: real, low: real, high: real): (c: Byte)
    ensures c == 0 || c == 127 || c == 255
    ensures c == 0 <==> grad <= low
    ensures low <= high ==> (c == 255 <==> grad > high)
  {
    if grad <= low then 0 else if grad <= high then 127 else 255
  }

  /** The classes of all magnitudes, in pixel order. */
  function Classes(mags: seq<real>, t1: real, t2: real): (cs: seq<Option<Byte>>)
    ensures |cs| == |mags|
    ensures forall p :: 0 <= p < |mags| ==> cs[p] == Some(Classify(mags[p], Low(t1, t2), High(t1, t2)))
  {
    seq(|mags|, p requires 0 <= p < |mags| => Some(Classify(mags[p], Low(t1, t2), High(t1, t2))))
  }

  /** The store doubleThresholdFilter returns for the magnitudes mags: a default
      (opaque black) store with every pixel's class written into it. */
  function ThresholdBytes(mags: seq<real>, t1: real, t2: real): (r: seq<Byte>)
    ensures |r| == 4 * |mags|
  {
    Overlay(DefaultPixels(|mags|), Classes(mags, t1, t2))
  }

  /** Every pixel of the filtered store is grey 0, 127 or 255 and opaque: 0 exactly when
      the magnitude is at most the lower threshold, 255 exactly when it exceeds the
      higher one, 127 otherwise. */
  lemma ThresholdPixel(mags: seq<real>, t1: real, t2: real, p: int)
    requires 0 <= p < |mags|
    ensures var r := ThresholdBytes(mags, t1, t2);
      && r[4 * p] == r[4 * p + 1] == r[4 * p + 2] == MidOf(r, p)
      && r[4 * p + 3] == 255
      && (MidOf(r, p) == 0 <==> mags[p] <= t1 && mags[p] <= t2)
      && (MidOf(r, p) == 255 <==> mags[p] > t1 && mags[p] > t2)
      && (MidOf(r, p) == 127 <==> (t1 < mags[p] <= t2 || t2 < mags[p] <= t1))
  {
    var cs := Classes(mags, t1, t2);
    OverlayPixel(DefaultPixels(|mags|), cs, p);
  }

  /** The order of the two thresholds does not matter. */
  lemma ThresholdSymmetric(mags: seq<real>, t1: real, t2: real)
    ensures ThresholdBytes(mags, t1, t2) == ThresholdBytes(mags, t2, t1)
  {
    assert Classes(mags, t1, t2) == Classes(mags, t2, t1);
  }

  /** One row of doubleThresholdFilter's pixel loop: the pixels of row y get their
      classes cs, in order, after those of the rows above; t1 <= t2 are the ordered
      thresholds. */
  method ThresholdRow(supprGradLen: TypedArrayWrapper<real>, wrapper: Uint8ClampedWrapper,
                      y: int, t1: real, t2: real, ghost mags: seq<real>, ghost base: seq<Byte>,
                      ghost cs: seq<Option<Byte>>)
    requires supprGradLen.Valid() && wrapper.Valid() && !wrapper.Empty()
    requires supprGradLen.width == wrapper.width && supprGradLen.height == wrapper.height
    requires 0 <= y < wrapper.height && t1 <= t2
    requires supprGradLen.data[..] == mags
    requires |base| == 4 * |cs| && |cs| == |mags| == wrapper.width * wrapper.height
    requires forall p :: 0 <= p < |cs| ==> cs[p] == Some(Classify(mags[p], t1, t2))
    requires 0 <= y * wrapper.width && y * wrapper.width + wrapper.width <= |cs|
    requires wrapper.data[..] == Overlay(base, Filled(cs, NoWrites(|cs|), y * wrapper.width))
    modifies wrapper.data
    ensures wrapper.data[..] == Overlay(base, Filled(cs, NoWrites(|cs|), y * wrapper.width + wrapper.width))
  {
    var width, height := wrapper.width, wrapper.height;
    ghost var n := |cs|;
    ghost var i := y * width;
    for x := 0 to width
      invariant i == y * width + x && 0 <= i <= n
      invariant wrapper.data[..] == Overlay(base, Filled(cs, NoWrites(n), i))
    {
      var grad := supprGradLen.GetMid(x, y);
      var newGrad := 255;
      if grad <= t1 {
        newGrad := 0;
      } else if grad <= t2 {
        newGrad := 127;
      }
      assert cs[i] == Some(newGrad);
      FilledStep(cs, NoWrites(n), i);
      ghost var over := wrapper.SetMidOverlay(x, y, newGrad, i, base, Filled(cs, NoWrites(n), i));
      i := i + 1;
    }
  }

  /** CannyLogic.doubleThresholdFilter. */
  method DoubleThresholdFilter(supprGradLen: TypedArrayWrapper<real>, gradientThreshold1: real,
                               gradientThreshold2: real) returns (wrapper: Uint8ClampedWrapper)
    requires supprGradLen.Valid()
    requires supprGradLen.width * supprGradLen.height * 4 <= MAX_SAFE_INTEGER
    ensures fresh(wrapper) && wrapper.Valid()
    ensures supprGradLen.Empty() ==> wrapper.Empty()
    ensures !supprGradLen.Empty() ==>
      && fresh(wrapper.data)
      && wrapper.width == supprGradLen.width && wrapper.height == supprGradLen.height
      && wrapper.data[..] == ThresholdBytes(supprGradLen.data[..], gradientThreshold1, gradientThreshold2)
  {
    var width := supprGradLen.width;
    var height := supprGradLen.height;

    wrapper := new Uint8ClampedWrapper();
    var ok := wrapper.SetBufferDefault(width, height);

    var t1, t2 := gradientThreshold1, gradientThreshold2;
    if t2 < t1 {
      var buff := t1;
      t1 := t2;
      t2 := buff;
    }
    if !ok {
      return;
    }
    ghost var n := width * height;
    ghost var base := DefaultPixels(n);
    ghost var cs := Classes(supprGradLen.data[..], gradientThreshold1, gradientThreshold2);
    FilledEnds(cs, NoWrites(n));
    OverlayNothing(base, NoWrites(n));

    var y := 0;
    ghost var i := 0;
    while y < height
      invariant 0 <= y <= height && i == y * width && 0 <= i <= n
      invariant wrapper.Valid() && fresh(wrapper.data)
      invariant wrapper.width == width && wrapper.height == height
      invariant wrapper.data[..] == Overlay(base, Filled(cs, NoWrites(n), i))
    {
      IndexInRange(width, height, width - 1, y);
      assert y * width + width == (y + 1) * width;
      ThresholdRow(supprGradLen, wrapper, y, t1, t2, supprGradLen.data[..], base, cs);
      i := i + width;
      y := y + 1;
    }
    assert i == n;
  }
}
