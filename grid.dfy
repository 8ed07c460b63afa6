/** Row-major addressing of a width x height grid (cell (x, y) at index y*width + x),
    the in-bounds test and clamp-to-edge addressing shared by every stage. */
module Grid {

  /** Cell (x, y) of an in-bounds position has an index inside the grid. */
  lemma {:induction false} IndexInRange(w: int, h: int, x: int, y: int)
    requires 0 <= x < w && 0 <= y < h
    ensures 0 <= y * w + x < w * h
  {
    assert y * w <= (h - 1) * w;
  }

  /** The index of cell (x, y) decodes back to (x, y), as trackEdge's
      floor(index / width) and index - restY * width do. */
  lemma {:induction false} IndexDecode(w: int, x: int, y: int)
    requires 0 <= x < w && 0 <= y
    ensures (y * w + x) / w == y && (y * w + x) % w == x
  {
    var i := y * w + x;
    var q, r := i / w, i % w;
    assert i == q * w + r && 0 <= r < w;
    var d := q - y;
    assert d * w == x - r;
  }

  /** Every index of the grid is the index of an in-bounds cell: column i mod w, row i div w. */
  lemma {:induction false} IndexCoords(w: int, h: int, i: int)
    requires w > 0 && 0 <= i < w * h
    ensures 0 <= i % w < w && 0 <= i / w < h && i == (i / w) * w + i % w
  {
    var q, r := i / w, i % w;
    assert i == q * w + r && 0 <= r < w;
  }

  /** The index i lies in column j and row k exactly when (j, k) is in bounds and i is
      its index. */
  lemma CellOf(w: int, h: int, i: int, j: int, k: int)
    requires w > 0 && 0 <= i < w * h
    ensures (i % w == j && i / w == k) <==> (0 <= j < w && 0 <= k < h && i == k * w + j)
  {
    IndexCoords(w, h, i);
    if 0 <= j < w && 0 <= k < h && i == k * w + j {
      IndexDecode(w, j, k);
    }
  }

  /** Distinct in-bounds cells have distinct indices. */
  lemma IndexInjective(w: int, x1: int, y1: int, x2: int, y2: int)
    requires 0 <= x1 < w && 0 <= y1 && 0 <= x2 < w && 0 <= y2
    requires y1 * w + x1 == y2 * w + x2
    ensures x1 == x2 && y1 == y2
  {
    IndexDecode(w, x1, y1);
    IndexDecode(w, x2, y2);
  }

  /** _isCorrectIndex: the in-bounds test of a position. */
  function IsCorrectIndex(width: int, height: int, x: int, y: int): (ok: bool)
    ensures ok <==> 0 <= x < width && 0 <= y < height
  {
    if x < 0 || y < 0 || x >= width || y >= height then false else true
  }

  function Distance(a: int, b: int): nat
  {
    if a >= b then a - b else b - a
  }

  /** One axis of _getPixel's clamp-to-edge addressing: a coordinate outside [0, n)
      is replaced by the nearest edge. */
  function ClampCoord(v: int, n: int): (c: int)
    requires n > 0
    ensures 0 <= c < n
    ensures 0 <= v < n ==> c == v
  {
    if v < 0 then 0 else if v >= n then n - 1 else v
  }

  /** The clamped coordinate is the in-range coordinate nearest to v. */
  lemma ClampNearest(v: int, n: int, k: int)
    requires n > 0 && 0 <= k < n
    ensures Distance(v, ClampCoord(v, n)) <= Distance(v, k)
  {
  }

  /** The index _getPixel reads for the possibly out-of-range position (x, y). */
  function ClampedIndex(w: int, h: int, x: int, y: int): (i: int)
    requires w > 0 && h > 0
    ensures 0 <= i < w * h
    ensures 0 <= x < w && 0 <= y < h ==> i == y * w + x
  {
    IndexInRange(w, h, ClampCoord(x, w), ClampCoord(y, h));
    ClampCoord(y, h) * w + ClampCoord(x, w)
  }

  /** A store that started as init and has had its first i cells overwritten, in order,
      with those of vals. */
  function Filled<T>(vals: seq<T>, init: seq<T>, i: int): (r: seq<T>)
    requires |vals| == |init| && 0 <= i <= |vals|
    ensures |r| == |vals|
    ensures forall k :: 0 <= k < |r| ==> r[k] == if k < i then vals[k] else init[k]
  {
    vals[..i] + init[i..]
  }

  /** Writing cell i of vals extends the filled prefix by one cell. */
  lemma FilledStep<T>(vals: seq<T>, init: seq<T>, i: int)
    requires |vals| == |init| && 0 <= i < |vals|
    ensures Filled(vals, init, i)[i := vals[i]] == Filled(vals, init, i + 1)
  {
  }

  /** Nothing is overwritten at the start, everything at the end. */
  lemma FilledEnds<T>(vals: seq<T>, init: seq<T>)
    requires |vals| == |init|
    ensures Filled(vals, init, 0) == init
    ensures Filled(vals, init, |vals|) == vals
  {
  }
}
