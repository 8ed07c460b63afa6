/** Byte-level model of the RGBA store behind a Uint8ClampedArray: the conversion the
    typed array applies to every value written into it, the grey ("mid") value of a
    pixel, and pure counterparts of the per-pixel writes that the wrappers perform.
    Pixel i of an RGBA store occupies bytes 4*i (red), 4*i+1 (green), 4*i+2 (blue)
    and 4*i+3 (alpha). */
module Pixels {

  type Byte = b: int | 0 <= b < 256

  /** Number.MAX_SAFE_INTEGER, the largest buffer length the wrappers accept. */
  const MAX_SAFE_INTEGER: int := 9007199254740991

  datatype Option<T> = None | Some(value: T)

  /** Saturation of an integer into the byte range. */
  function Clamp(v: int): Byte
  {
    if v < 0 then 0 else if v > 255 then 255 else v
  }

  /** Math.round: the nearest integer, halves rounded towards +infinity. */
  function MathRound(r: real): (n: int)
    ensures n as real - 0.5 <= r < n as real + 0.5
  {
    (r + 0.5).Floor
  }

  /** The conversion a Uint8ClampedArray applies on assignment (ToUint8Clamp of
      ECMAScript, for finite values): saturate to [0, 255], otherwise round to the
      nearest integer with ties going to the even neighbour. */
  function ToUint8Clamp(r: real): (b: Byte)
    ensures r <= 0.0 ==> b == 0
    ensures r >= 255.0 ==> b == 255
    ensures 0.0 <= r <= 255.0 ==> b as real - 0.5 <= r <= b as real + 0.5
    ensures 0.0 < r < 255.0 && (r == b as real - 0.5 || r == b as real + 0.5) ==> b % 2 == 0
  {
    if r <= 0.0 then 0
    else if r >= 255.0 then 255
    else
      var f := r.Floor;
      if f as real + 0.5 < r then f + 1
      else if r < f as real + 0.5 then f
      else if f % 2 == 1 then f + 1
      else f
  }

  /** Writing an integer into a clamped byte saturates it and changes nothing else. */
  lemma IntegerWrite(n: int)
    ensures ToUint8Clamp(n as real) == Clamp(n)
  {
  }

  /** Math.round of s/3 for a non-negative integer s: a third never ends in exactly .5,
      so the rounded mean is the integer quotient (s + 1) div 3. */
  lemma {:induction false} RoundThird(s: int)
    requires s >= 0
    ensures MathRound(s as real / 3.0) == (s + 1) / 3
  {
    var q := (s + 1) / 3;
    assert 3 * q <= s + 1 < 3 * q + 3;
    assert q as real <= s as real / 3.0 + 0.5 < q as real + 1.0;
  }

  /** The sum of the red, green and blue bytes of pixel p. */
  function ColourSum(bytes: seq<Byte>, p: int): int
    requires 0 <= p && 4 * p + 3 < |bytes|
  {
    bytes[4 * p] as int + bytes[4 * p + 1] as int + bytes[4 * p + 2] as int
  }

  /** The value getMid reports for pixel p: the rounded mean of its red, green and
      blue bytes, that is the integer nearest to their average. */
  function MidOf(bytes: seq<Byte>, p: int): (v: int)
    requires 0 <= p && 4 * p + 3 < |bytes|
    ensures 0 <= v <= 255
    ensures 3 * v - 1 <= ColourSum(bytes, p) <= 3 * v + 1
    ensures v == (ColourSum(bytes, p) + 1) / 3
  {
    RoundThird(ColourSum(bytes, p));
    MathRound(ColourSum(bytes, p) as real / 3.0)
  }

  /** The store after setMid wrote the byte c into the three colour bytes of pixel p. */
  function WithMid(bytes: seq<Byte>, p: int, c: Byte): (r: seq<Byte>)
    requires 0 <= p && 4 * p + 3 < |bytes|
    ensures |r| == |bytes|
    ensures r[4 * p] == r[4 * p + 1] == r[4 * p + 2] == c
    ensures MidOf(r, p) == c
    ensures forall k :: 0 <= k < |bytes| && (k < 4 * p || k > 4 * p + 2) ==> r[k] == bytes[k]
  {
    bytes[4 * p := c][4 * p + 1 := c][4 * p + 2 := c]
  }

  /** A freshly allocated store of n pixels after setBufferDefault's fill loop:
      black and fully opaque. */
  function DefaultPixels(n: nat): (r: seq<Byte>)
    ensures |r| == 4 * n
    ensures forall k :: 0 <= k < 4 * n ==> r[k] == (if k % 4 == 3 then 255 else 0)
  {
    seq(4 * n, k => if k % 4 == 3 then 255 else 0)
  }

  /** One more default pixel is one more black, opaque group of four bytes. */
  lemma DefaultPixelsStep(n: nat)
    ensures DefaultPixels(n + 1) == DefaultPixels(n) + [0, 0, 0, 255]
  {
    var lhs, rhs := DefaultPixels(n + 1), DefaultPixels(n) + [0, 0, 0, 255];
    forall k | 0 <= k < 4 * n + 4
      ensures lhs[k] == rhs[k]
    {
      if k >= 4 * n {
        assert k % 4 == k - 4 * n;
      }
    }
  }

  /** The grey values of all pixels of a store, in pixel order. */
  function Mids(bytes: seq<Byte>): (g: seq<int>)
    requires |bytes| % 4 == 0
    ensures 4 * |g| == |bytes|
    ensures forall p :: 0 <= p < |g| ==> g[p] == MidOf(bytes, p)
  {
    seq(|bytes| / 4, p requires 0 <= p < |bytes| / 4 => MidOf(bytes, p))
  }

  /** The store base after a sequence of setMid writes: pixel p had the byte c written
      into its colour bytes when over[p] == Some(c), and is untouched when over[p] ==
      None. Alpha bytes always come from base. */
  function Overlay(base: seq<Byte>, over: seq<Option<Byte>>): (r: seq<Byte>)
    requires |base| == 4 * |over|
    ensures |r| == |base|
  {
    seq(|base|, k requires 0 <= k < |base| =>
      if k % 4 != 3 && over[k / 4].Some? then over[k / 4].value else base[k])
  }

  /** Reading back an overlaid pixel: the written byte, or the untouched grey value;
      the alpha byte is always the one of base. */
  lemma OverlayPixel(base: seq<Byte>, over: seq<Option<Byte>>, p: int)
    requires |base| == 4 * |over| && 0 <= p < |over|
    ensures MidOf(Overlay(base, over), p) == if over[p].Some? then over[p].value else MidOf(base, p)
    ensures Overlay(base, over)[4 * p + 3] == base[4 * p + 3]
    ensures over[p].None? ==> forall k :: 4 * p <= k < 4 * p + 4 ==> Overlay(base, over)[k] == base[k]
    ensures over[p].Some? ==> forall k :: 4 * p <= k < 4 * p + 3 ==> Overlay(base, over)[k] == over[p].value
  {
    var r := Overlay(base, over);
    assert (4 * p) / 4 == p && (4 * p + 1) / 4 == p && (4 * p + 2) / 4 == p && (4 * p + 3) / 4 == p;
  }

  /** One more setMid on an overlaid store is one more entry of the overlay. */
  lemma OverlayWrite(base: seq<Byte>, over: seq<Option<Byte>>, p: int, c: Byte)
    requires |base| == 4 * |over| && 0 <= p < |over|
    ensures WithMid(Overlay(base, over), p, c) == Overlay(base, over[p := Some(c)])
  {
    var lhs := WithMid(Overlay(base, over), p, c);
    var rhs := Overlay(base, over[p := Some(c)]);
    forall k | 0 <= k < |base|
      ensures lhs[k] == rhs[k]
    {
      if 4 * p <= k <= 4 * p + 2 {
        assert k / 4 == p && k % 4 != 3;
      } else {
        assert k / 4 != p || k % 4 == 3;
      }
    }
  }

  /** An overlay that writes nothing leaves the store as it was. */
  lemma OverlayNothing(base: seq<Byte>, over: seq<Option<Byte>>)
    requires |base| == 4 * |over|
    requires forall p :: 0 <= p < |over| ==> over[p].None?
    ensures Overlay(base, over) == base
  {
    var r := Overlay(base, over);
    forall k | 0 <= k < |base|
      ensures r[k] == base[k]
    {
      assert over[k / 4].None?;
    }
  }

  /** The overlay that writes the value vals[p], converted by the clamped store, into
      every pixel p. */
  function Written(vals: seq<real>): (over: seq<Option<Byte>>)
    ensures |over| == |vals|
    ensures forall p :: 0 <= p < |vals| ==> over[p] == Some(ToUint8Clamp(vals[p]))
  {
    seq(|vals|, p requires 0 <= p < |vals| => Some(ToUint8Clamp(vals[p])))
  }

  /** An overlay whose every entry is the converted value of vals is Written(vals). */
  lemma WrittenAll(over: seq<Option<Byte>>, vals: seq<real>)
    requires |over| == |vals|
    requires forall p :: 0 <= p < |vals| ==> over[p] == Some(ToUint8Clamp(vals[p]))
    ensures over == Written(vals)
  {
  }

  /** The overlay of n pixels that writes none of them. */
  function NoWrites(n: nat): (over: seq<Option<Byte>>)
    ensures |over| == n
    ensures forall p :: 0 <= p < n ==> over[p].None?
  {
    seq(n, _ => None)
  }
}
