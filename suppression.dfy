/** CannyLogic.thresholdSuppression: non-maximum suppression of the gradient length along
    the quantised gradient direction, with clamp-to-edge neighbours. */
module CannySuppression {
  import opened Pixels
  import opened Grid
  import opened Buffers
  import opened CannyGradient

  /** The offsets of the previous and the next neighbour of each direction bucket:
      0 horizontal, 1 main diagonal, 2 vertical, 3 anti-diagonal. */
  const ColDiffPrev: seq<int> := [-1, -1, 0, 1]
  const ColDiffNext: seq<int> := [1, 1, 0, -1]
  const RowDiffPrev: seq<int> := [0, -1, -1, -1]
  const RowDiffNext: seq<int> := [0, 1, 1, 1]

  /** Every direction field the gradient stage produces holds bucket codes 0..3. */
  ghost predicate DirectionsOk(D: seq<Byte>)
  {
    forall k :: 0 <= k < |D| ==> D[k] <= 3
  }

  /** The index _getPixel reads for the previous neighbour of (x, y) in direction d: the
      step (ColDiffPrev[d], RowDiffPrev[d]), clamped to the grid. */
  function PrevIndex(w: int, h: int, x: int, y: int, d: Byte): (i: int)
    requires w > 0 && h > 0 && d <= 3
    ensures 0 <= i < w * h
  {
    ClampedIndex(w, h, x + ColDiffPrev[d], y + RowDiffPrev[d])
  }

  /** The next neighbour: the step opposite to the previous one, clamped to the grid. */
  function NextIndex(w: int, h: int, x: int, y: int, d: Byte): (i: int)
    requires w > 0 && h > 0 && d <= 3
    ensures 0 <= i < w * h
    ensures i == ClampedIndex(w, h, x - ColDiffPrev[d], y - RowDiffPrev[d])
  {
    ClampedIndex(w, h, x + ColDiffNext[d], y + RowDiffNext[d])
  }

  /** The suppressed gradient length of cell p, at (p mod w, p div w): 0 when the cell is
      below one of its two neighbours along the direction or equal to the previous one,
      the cell's own length otherwise. */
  function SuppressedAt(G: seq<real>, D: seq<Byte>, w: int, h: int, p: int): (s: real)
    requires w > 0 && h > 0 && |G| == |D| == w * h && 0 <= p < w * h && D[p] <= 3
    ensures var prev := G[PrevIndex(w, h, p % w, p / w, D[p])];
      var next := G[NextIndex(w, h, p % w, p / w, D[p])];
      && (G[p] > prev && G[p] >= next ==> s == G[p])
      && (G[p] <= prev || G[p] < next ==> s == 0.0)
  {
    var x, y := p % w, p / w;
    var prev := G[PrevIndex(w, h, x, y, D[p])];
    var next := G[NextIndex(w, h, x, y, D[p])];
    if G[p] < prev || G[p] < next then 0.0
    else if G[p] == prev then 0.0
    else G[p]
  }

  /** The suppressed field of the whole image, in pixel order. */
  function SuppressedField(G: seq<real>, D: seq<Byte>, w: int, h: int): (s: seq<real>)
    requires w > 0 && h > 0 && |G| == |D| == w * h && DirectionsOk(D)
    ensures |s| == w * h
  {
    seq(w * h, p requires 0 <= p < w * h => SuppressedAt(G, D, w, h, p))
  }

  /** A cell survives exactly when its length is strictly above that of its previous
      neighbour and at least that of its next one; otherwise it becomes 0. */
  lemma SuppressedLocalMaximum(G: seq<real>, D: seq<Byte>, w: int, h: int, x: int, y: int)
    requires w > 0 && h > 0 && |G| == |D| == w * h && DirectionsOk(D)
    requires 0 <= x < w && 0 <= y < h
    ensures 0 <= y * w + x < w * h
    ensures var p := y * w + x;
      var prev := G[PrevIndex(w, h, x, y, D[p])];
      var next := G[NextIndex(w, h, x, y, D[p])];
      var s := SuppressedField(G, D, w, h)[p];
      && (G[p] > prev && G[p] >= next ==> s == G[p])
      && (G[p] <= prev || G[p] < next ==> s == 0.0)
  {
    IndexInRange(w, h, x, y);
    IndexDecode(w, x, y);
  }

  /** Every suppressed cell is its own length or 0. */
  lemma SuppressedIsInputOrZero(G: seq<real>, D: seq<Byte>, w: int, h: int, p: int)
    requires w > 0 && h > 0 && |G| == |D| == w * h && DirectionsOk(D) && 0 <= p < w * h
    ensures SuppressedField(G, D, w, h)[p] == G[p] || SuppressedField(G, D, w, h)[p] == 0.0
  {
  }

  /** A cell whose clamped previous neighbour is the cell itself (for instance a cell of
      the left column with a horizontal direction) equals that neighbour and is
      suppressed. */
  lemma SelfNeighbourSuppressed(G: seq<real>, D: seq<Byte>, w: int, h: int, x: int, y: int)
    requires w > 0 && h > 0 && |G| == |D| == w * h && DirectionsOk(D)
    requires 0 <= x < w && 0 <= y < h
    requires y * w + x < w * h && PrevIndex(w, h, x, y, D[y * w + x]) == y * w + x
    ensures SuppressedField(G, D, w, h)[y * w + x] == 0.0
  {
    var p := y * w + x;
    SuppressedLocalMaximum(G, D, w, h, x, y);
    assert ClampedIndex(w, h, x, y) == p;
    assert G[PrevIndex(w, h, x, y, D[p])] == G[p];
  }

  /** The left column with a horizontal direction is such a cell. */
  lemma LeftColumnHorizontalSuppressed(G: seq<real>, D: seq<Byte>, w: int, h: int, y: int)
    requires w > 0 && h > 0 && |G| == |D| == w * h && DirectionsOk(D) && 0 <= y < h
    requires D[y * w] == 0
    ensures SuppressedField(G, D, w, h)[y * w] == 0.0
  {
    assert ClampedIndex(w, h, 0, y) == y * w;
    SelfNeighbourSuppressed(G, D, w, h, 0, y);
  }

  /** A field of equal lengths has no strict maximum: everything is suppressed. */
  lemma ConstantFieldSuppressed(G: seq<real>, D: seq<Byte>, w: int, h: int, c: real)
    requires w > 0 && h > 0 && |G| == |D| == w * h && DirectionsOk(D)
    requires forall k :: 0 <= k < |G| ==> G[k] == c
    ensures forall p :: 0 <= p < w * h ==> SuppressedField(G, D, w, h)[p] == 0.0
  {
  }

  /** The outputs of thresholdSuppression once its pixel loop has done the first i pixels:
      the copy of the magnitudes holds S there and the magnitudes G after, and the
      default visualisation store holds the clamped values of S there. */
  ghost predicate SuppressionPrefix(supprGradLen: TypedArrayWrapper<real>, wrapper: Uint8ClampedWrapper,
                                    S: seq<real>, G: seq<real>, i: int)
    reads supprGradLen, wrapper, supprGradLen.data, wrapper.data
  {
    && supprGradLen.data != null && wrapper.data != null
    && |S| == |G| && 0 <= i <= |S|
    && supprGradLen.data[..] == Filled(S, G, i)
    && wrapper.data[..] == Overlay(DefaultPixels(|S|), Filled(Written(S), NoWrites(|S|), i))
  }

  /** What the pixel loop reads at (x, y), p == y*w + x: the cell's length and a
      direction code below 4. */
  lemma SuppressRead(gradLen: TypedArrayWrapper<real>, angleApprox: TypedArrayWrapper<Byte>,
                     width: int, height: int, x: int, y: int, p: int)
    requires gradLen.Valid() && !gradLen.Empty() && width == gradLen.width && height == gradLen.height
    requires angleApprox.Valid() && angleApprox.width == width && angleApprox.height == height
    requires 0 <= x < width && 0 <= y < height && p == y * width + x
    requires DirectionsOk(angleApprox.data[..])
    ensures 0 <= p < gradLen.data.Length && p < angleApprox.data.Length
    ensures angleApprox.GetMid(x, y) == angleApprox.data[..][p] <= 3
    ensures gradLen.GetMid(x, y) == gradLen.data[..][p]
  {
    IndexInRange(width, height, x, y);
    IndexDecode(width, x, y);
  }

  /** The suppressed value of p == y*w + x is 0 when the cell's length is below one of
      the lengths read along its direction or equal to the previous one, and the length
      itself otherwise. */
  lemma SuppressFormula(gradLen: TypedArrayWrapper<real>, angleApprox: TypedArrayWrapper<Byte>,
                        width: int, height: int, x: int, y: int, p: int, S: seq<real>,
                        gradVal: real, dir: Byte, prevGrad: real, nextGrad: real)
    requires gradLen.Valid() && !gradLen.Empty() && width == gradLen.width && height == gradLen.height
    requires angleApprox.Valid() && angleApprox.width == width && angleApprox.height == height
    requires 0 <= x < width && 0 <= y < height && p == y * width + x
    requires DirectionsOk(angleApprox.data[..])
    requires S == SuppressedField(gradLen.data[..], angleApprox.data[..], width, height)
    requires 0 <= p < |S| && gradVal == gradLen.data[..][p] && dir == angleApprox.data[..][p] <= 3
    requires prevGrad == GetFieldPixel(gradLen, width, height, x + ColDiffPrev[dir], y + RowDiffPrev[dir])
    requires nextGrad == GetFieldPixel(gradLen, width, height, x + ColDiffNext[dir], y + RowDiffNext[dir])
    ensures S[p] == if gradVal < prevGrad || gradVal < nextGrad then 0.0
                    else if gradVal == prevGrad then 0.0
                    else gradVal
  {
    SuppressedAtCell(gradLen.data[..], angleApprox.data[..], width, height, x, y, p);
  }

  /** SuppressedAt of p == y*w + x, with its neighbours taken from (x, y) directly. */
  lemma SuppressedAtCell(G: seq<real>, D: seq<Byte>, w: int, h: int, x: int, y: int, p: int)
    requires w > 0 && h > 0 && |G| == |D| == w * h && 0 <= x < w && 0 <= y < h
    requires p == y * w + x && 0 <= p < w * h && D[p] <= 3
    ensures var prev := G[ClampedIndex(w, h, x + ColDiffPrev[D[p]], y + RowDiffPrev[D[p]])];
      var next := G[ClampedIndex(w, h, x + ColDiffNext[D[p]], y + RowDiffNext[D[p]])];
      SuppressedAt(G, D, w, h, p) == if G[p] < prev || G[p] < next then 0.0
                                     else if G[p] == prev then 0.0
                                     else G[p]
  {
    IndexDecode(w, x, y);
  }

  /** The body of thresholdSuppression's pixel loop at (x, y), p == y*w + x. */
  method SuppressPixel(gradLen: TypedArrayWrapper<real>, angleApprox: TypedArrayWrapper<Byte>,
                       supprGradLen: TypedArrayWrapper<real>, wrapper: Uint8ClampedWrapper,
                       width: int, height: int, x: int, y: int, ghost p: int, ghost S: seq<real>)
    requires gradLen.Valid() && !gradLen.Empty() && width == gradLen.width && height == gradLen.height
    requires 0 <= x < width && 0 <= y < height && p == y * width + x
    requires angleApprox.Valid() && angleApprox.width == width && angleApprox.height == height
    requires supprGradLen.Valid() && supprGradLen.width == width && supprGradLen.height == height
    requires wrapper.Valid() && wrapper.width == width && wrapper.height == height
    requires supprGradLen.data != gradLen.data
    requires DirectionsOk(angleApprox.data[..])
    requires S == SuppressedField(gradLen.data[..], angleApprox.data[..], width, height)
    requires SuppressionPrefix(supprGradLen, wrapper, S, gradLen.data[..], p)
    modifies supprGradLen.data, wrapper.data
    ensures SuppressionPrefix(supprGradLen, wrapper, S, gradLen.data[..], p + 1)
  {
    ghost var G := gradLen.data[..];
    var gradVal := gradLen.GetMid(x, y);
    var dir := angleApprox.GetMid(x, y);
    SuppressRead(gradLen, angleApprox, width, height, x, y, p);
    var prevGrad := GetFieldPixel(gradLen, width, height,
                                  x + ColDiffPrev[dir], y + RowDiffPrev[dir]);
    var nextGrad := GetFieldPixel(gradLen, width, height,
                                  x + ColDiffNext[dir], y + RowDiffNext[dir]);
    SuppressFormula(gradLen, angleApprox, width, height, x, y, p, S, gradVal, dir, prevGrad, nextGrad);

    SuppressWrite(supprGradLen, wrapper, width, height, x, y, p, S, G, gradVal, prevGrad, nextGrad);
  }

  /** The writes of the pixel loop at (x, y), p == y*w + x, once the cell's length and its
      two neighbours' lengths have been read. */
  method SuppressWrite(supprGradLen: TypedArrayWrapper<real>, wrapper: Uint8ClampedWrapper,
                       width: int, height: int, x: int, y: int, ghost p: int,
                       ghost S: seq<real>, ghost G: seq<real>, gradVal: real, prevGrad: real, nextGrad: real)
    requires 0 <= x < width && 0 <= y < height && p == y * width + x
    requires supprGradLen.Valid() && supprGradLen.width == width && supprGradLen.height == height
    requires wrapper.Valid() && wrapper.width == width && wrapper.height == height
    requires |S| == |G| == width * height && 0 <= p < |S| && G[p] == gradVal
    requires S[p] == if gradVal < prevGrad || gradVal < nextGrad then 0.0
                     else if gradVal == prevGrad then 0.0
                     else gradVal
    requires SuppressionPrefix(supprGradLen, wrapper, S, G, p)
    modifies supprGradLen.data, wrapper.data
    ensures SuppressionPrefix(supprGradLen, wrapper, S, G, p + 1)
  {
    ghost var over := Filled(Written(S), NoWrites(|S|), p);
    ghost var over1 := wrapper.SetMidOverlay(x, y, ToUint8Clamp(gradVal), p, DefaultPixels(|S|), over);
    if gradVal < prevGrad || gradVal < nextGrad {
      SuppressCell(supprGradLen, wrapper, width, height, x, y, p, S, G, ToUint8Clamp(gradVal));
    } else if gradVal == prevGrad {
      SuppressCell(supprGradLen, wrapper, width, height, x, y, p, S, G, ToUint8Clamp(gradVal));
    } else {
      KeepStep(S, G, p);
    }
  }

  /** The two writes of a suppressed cell: 0 into the copy of the magnitudes and into the
      visualisation store, over the byte c written just before. */
  method SuppressCell(supprGradLen: TypedArrayWrapper<real>, wrapper: Uint8ClampedWrapper,
                      width: int, height: int, x: int, y: int, ghost p: int,
                      ghost S: seq<real>, ghost G: seq<real>, ghost c: Byte)
    requires 0 <= x < width && 0 <= y < height && p == y * width + x
    requires supprGradLen.Valid() && supprGradLen.width == width && supprGradLen.height == height
    requires wrapper.Valid() && wrapper.width == width && wrapper.height == height
    requires supprGradLen.data != null && wrapper.data != null
    requires |S| == |G| == width * height && 0 <= p < |S| && S[p] == 0.0
    requires supprGradLen.data[..] == Filled(S, G, p)
    requires wrapper.data[..] == Overlay(DefaultPixels(|S|), Filled(Written(S), NoWrites(|S|), p)[p := Some(c)])
    modifies supprGradLen.data, wrapper.data
    ensures SuppressionPrefix(supprGradLen, wrapper, S, G, p + 1)
  {
    supprGradLen.SetMid(x, y, 0.0);
    ghost var over2 := wrapper.SetMidOverlay(x, y, 0, p, DefaultPixels(|S|),
                                             Filled(Written(S), NoWrites(|S|), p)[p := Some(c)]);
    ZeroStep(S, G, p, c);
  }

  /** A suppressed cell: writing 0 into both outputs, after any byte, extends their
      prefixes by one cell. */
  lemma ZeroStep(S: seq<real>, G: seq<real>, p: int, c: Byte)
    requires |S| == |G| && 0 <= p < |S| && S[p] == 0.0
    ensures Filled(S, G, p)[p := 0.0] == Filled(S, G, p + 1)
    ensures Filled(Written(S), NoWrites(|S|), p)[p := Some(c)][p := Some(0)]
            == Filled(Written(S), NoWrites(|S|), p + 1)
  {
    FilledStep(S, G, p);
    FilledStep(Written(S), NoWrites(|S|), p);
    IntegerWrite(0);
  }

  /** A surviving cell: the copy already holds its length, and the byte written is its
      clamped length. */
  lemma KeepStep(S: seq<real>, G: seq<real>, p: int)
    requires |S| == |G| && 0 <= p < |S| && S[p] == G[p]
    ensures Filled(S, G, p) == Filled(S, G, p + 1)
    ensures Filled(Written(S), NoWrites(|S|), p)[p := Some(ToUint8Clamp(G[p]))]
            == Filled(Written(S), NoWrites(|S|), p + 1)
  {
    FilledStep(S, G, p);
    FilledStep(Written(S), NoWrites(|S|), p);
    assert Filled(S, G, p)[p := S[p]] == Filled(S, G, p);
  }

  /** One row of thresholdSuppression's pixel loop. */
  method SuppressRow(gradLen: TypedArrayWrapper<real>, angleApprox: TypedArrayWrapper<Byte>,
                     supprGradLen: TypedArrayWrapper<real>, wrapper: Uint8ClampedWrapper,
                     width: int, height: int, y: int, ghost S: seq<real>)
    requires gradLen.Valid() && !gradLen.Empty() && width == gradLen.width && height == gradLen.height
    requires 0 <= y < height
    requires angleApprox.Valid() && angleApprox.width == width && angleApprox.height == height
    requires supprGradLen.Valid() && supprGradLen.width == width && supprGradLen.height == height
    requires wrapper.Valid() && wrapper.width == width && wrapper.height == height
    requires supprGradLen.data != gradLen.data
    requires DirectionsOk(angleApprox.data[..])
    requires S == SuppressedField(gradLen.data[..], angleApprox.data[..], width, height)
    requires SuppressionPrefix(supprGradLen, wrapper, S, gradLen.data[..], y * width)
    modifies supprGradLen.data, wrapper.data
    ensures SuppressionPrefix(supprGradLen, wrapper, S, gradLen.data[..], (y + 1) * width)
  {
    ghost var i := y * width;
    for x := 0 to width
      invariant SuppressionPrefix(supprGradLen, wrapper, S, gradLen.data[..], i + x)
    {
      SuppressPixel(gradLen, angleApprox, supprGradLen, wrapper, width, height, x, y, i + x, S);
    }
    assert i + width == (y + 1) * width;
  }

  /** The row loop of thresholdSuppression: every row, top to bottom. */
  method SuppressLoop(gradLen: TypedArrayWrapper<real>, angleApprox: TypedArrayWrapper<Byte>,
                      supprGradLen: TypedArrayWrapper<real>, wrapper: Uint8ClampedWrapper,
                      width: int, height: int, ghost S: seq<real>)
    requires gradLen.Valid() && !gradLen.Empty() && width == gradLen.width && height == gradLen.height
    requires angleApprox.Valid() && angleApprox.width == gradLen.width && angleApprox.height == gradLen.height
    requires supprGradLen.Valid() && supprGradLen.width == gradLen.width && supprGradLen.height == gradLen.height
    requires wrapper.Valid() && wrapper.width == gradLen.width && wrapper.height == gradLen.height
    requires supprGradLen.data != gradLen.data
    requires DirectionsOk(angleApprox.data[..])
    requires S == SuppressedField(gradLen.data[..], angleApprox.data[..], gradLen.width, gradLen.height)
    requires SuppressionPrefix(supprGradLen, wrapper, S, gradLen.data[..], 0)
    modifies supprGradLen.data, wrapper.data
    ensures SuppressionPrefix(supprGradLen, wrapper, S, gradLen.data[..], |S|)
  {
    assert 0 * width == 0;
    for y := 0 to height
      invariant SuppressionPrefix(supprGradLen, wrapper, S, gradLen.data[..], y * width)
    {
      SuppressRow(gradLen, angleApprox, supprGradLen, wrapper, width, height, y, S);
    }
    assert height * width == |S|;
  }

  /** CannyLogic.thresholdSuppression: the suppressed magnitudes, and a default opaque
      store showing them clamped to bytes. */
  method ThresholdSuppression(gradLen: TypedArrayWrapper<real>, angleApprox: TypedArrayWrapper<Byte>)
    returns (supprGradLen: TypedArrayWrapper<real>, wrapper: Uint8ClampedWrapper)
    requires gradLen.Valid() && angleApprox.Valid()
    requires angleApprox.width == gradLen.width && angleApprox.height == gradLen.height
    requires gradLen.width * gradLen.height * 4 <= MAX_SAFE_INTEGER
    requires !angleApprox.Empty() ==> DirectionsOk(angleApprox.data[..])
    ensures fresh(supprGradLen) && fresh(wrapper) && supprGradLen.Valid() && wrapper.Valid()
    ensures gradLen.Empty() ==> supprGradLen.Empty() && wrapper.Empty()
    ensures !gradLen.Empty() ==>
      var w, h := gradLen.width, gradLen.height;
      var S := SuppressedField(gradLen.data[..], angleApprox.data[..], w, h);
      && fresh(supprGradLen.data) && fresh(wrapper.data)
      && supprGradLen.width == w && supprGradLen.height == h
      && wrapper.width == w && wrapper.height == h
      && supprGradLen.data[..] == S
      && wrapper.data[..] == Overlay(DefaultPixels(w * h), Written(S))
  {
    var width, height := gradLen.width, gradLen.height;

    supprGradLen := new TypedArrayWrapper<real>(0.0);
    wrapper := new Uint8ClampedWrapper();

    var ok1 := supprGradLen.SetBufferFromTypedWrapper(gradLen);
    var ok2 := wrapper.SetBufferDefault(width, height);
    if gradLen.Empty() {
      return;
    }

    ghost var G := gradLen.data[..];
    ghost var S := SuppressedField(G, angleApprox.data[..], width, height);
    ghost var n := |S|;
    FilledEnds(S, G);
    FilledEnds(Written(S), NoWrites(n));
    OverlayNothing(DefaultPixels(n), NoWrites(n));
    SuppressLoop(gradLen, angleApprox, supprGradLen, wrapper, width, height, S);
    FilledEnds(S, G);
    FilledEnds(Written(S), NoWrites(n));
  }
}
