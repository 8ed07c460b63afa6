/** The two buffer abstractions of the pipeline: Uint8ClampedWrapper, a single-channel
    view over an RGBA Uint8ClampedArray, and TypedArrayWrapper, a flat width*height
    typed array. Both are either empty (no array, zero dimensions) or fully allocated. */
module Buffers {
  import opened Pixels
  import opened Grid

  /** The object move() hands to postMessage: dimensions and the transferred bytes. */
  datatype MoveObject = MoveObject(width: int, height: int, buffer: Option<seq<Byte>>)

  /** The shape of every move object that a wrapper produces: a move object that passes
      setBufferFromMoveObject's checks describes a fully allocated RGBA store. */
  predicate MoveShapeOk(m: MoveObject)
  {
    m.width != 0 && m.height != 0 && m.buffer.Some? ==>
      m.width > 0 && m.height > 0 && |m.buffer.value| == m.width * m.height * 4
      && m.width * m.height * 4 <= MAX_SAFE_INTEGER
  }

  /** Whether a byte count describes a fully allocated RGBA store of w x h pixels. */
  predicate RgbaShape(w: int, h: int, length: int)
  {
    w > 0 && h > 0 && length == w * h * 4 && length <= MAX_SAFE_INTEGER
  }

  class Uint8ClampedWrapper {
    var data: array?<Byte>
    var width: int
    var height: int

    /** Empty (no store and zero dimensions) or a store of exactly width*height pixels. */
    ghost predicate Valid()
      reads this
    {
      (data == null && width == 0 && height == 0)
      || (data != null && RgbaShape(width, height, data.Length))
    }

    /** The pixel count of a valid wrapper. */
    ghost function PixelCount(): nat
      reads this
      requires Valid()
    {
      if data == null then 0 else width * height
    }

    constructor ()
      ensures Valid() && data == null && width == 0 && height == 0
    {
      data := null;
      width := 0;
      height := 0;
    }

    method Clear()
      modifies this
      ensures Valid() && data == null && width == 0 && height == 0
    {
      data := null;
      width := 0;
      height := 0;
    }

    function Empty(): (r: bool)
      reads this
      ensures Valid() ==> (r <==> data == null)
    {
      data == null || width == 0 || height == 0
    }

    method SetBufferDefault(w: int, h: int) returns (ok: bool)
      modifies this
      ensures Valid()
      ensures ok <==> w > 0 && h > 0 && w * h * 4 <= MAX_SAFE_INTEGER
      ensures !ok ==> data == null && width == 0 && height == 0
      ensures ok ==> fresh(data) && width == w && height == h && data[..] == DefaultPixels(w * h)
    {
      Clear();
      var length := w * h * 4;
      if w <= 0 || h <= 0 || length > MAX_SAFE_INTEGER {
        return false;
      }
      var buff := new Byte[length](_ => 0);
      data := buff;
      width := w;
      height := h;
      var i := 0;
      ghost var p := 0;
      while i < length
        invariant 0 <= p <= w * h && i == 4 * p
        invariant buff[..i] == DefaultPixels(p)
        modifies buff
      {
        DefaultPixelsStep(p);
        buff[i] := 0;
        buff[i + 1] := 0;
        buff[i + 2] := 0;
        buff[i + 3] := 255;
        assert buff[..i + 4] == buff[..i] + [0, 0, 0, 255];
        i := i + 4;
        p := p + 1;
      }
      assert buff[..] == buff[..i];
      return true;
    }

    method SetBufferFromUint8Wrapper(other: Uint8ClampedWrapper) returns (ok: bool)
      requires other.Valid()
      modifies this
      ensures Valid()
      ensures ok <==> other != this && !old(other.Empty())
      ensures !ok ==> data == null && width == 0 && height == 0
      ensures ok ==> fresh(data) && width == other.width && height == other.height
      ensures ok ==> data[..] == old(other.data[..])
    {
      Clear();
      if other.Empty() {
        return false;
      }
      var src := other.data;
      width := other.width;
      height := other.height;
      data := new Byte[src.Length](k reads src requires 0 <= k < src.Length => src[k]);
      return true;
    }

    method SetBufferFromMoveObject(moveObject: Option<MoveObject>) returns (ok: bool)
      requires moveObject.Some? ==> MoveShapeOk(moveObject.value)
      modifies this
      ensures Valid()
      ensures ok <==> moveObject.Some? && moveObject.value.width != 0
                      && moveObject.value.height != 0 && moveObject.value.buffer.Some?
      ensures !ok ==> data == null && width == 0 && height == 0
      ensures ok ==> fresh(data) && width == moveObject.value.width && height == moveObject.value.height
                     && data[..] == moveObject.value.buffer.value
    {
      Clear();
      if moveObject.None? {
        return false;
      }
      var MoveObject(w, h, buffer) := moveObject.value;
      if w == 0 || h == 0 || buffer.None? {
        return false;
      }
      width := w;
      height := h;
      var bytes := buffer.value;
      data := new Byte[|bytes|](k requires 0 <= k < |bytes| => bytes[k]);
      return true;
    }

    /** move(): hand the store over and become empty. On an empty wrapper the source
        dereferences a null store and throws, which is the None result here. */
    method Move() returns (res: Option<MoveObject>)
      requires Valid()
      modifies this
      ensures Valid() && data == null && width == 0 && height == 0
      ensures res.None? <==> old(data) == null
      ensures res.Some? ==> res.value == MoveObject(old(width), old(height), Some(old(data[..])))
      ensures res.Some? ==> MoveShapeOk(res.value)
    {
      if data == null {
        return None;
      }
      res := Some(MoveObject(width, height, Some(data[..])));
      Clear();
    }

    /** The pixel index of the in-bounds position (x, y). */
    function PixelIndex(x: int, y: int): (p: int)
      reads this
      requires Valid() && 0 <= x < width && 0 <= y < height
      ensures p == y * width + x
      ensures 0 <= p < width * height && 4 * p + 3 < data.Length
    {
      IndexInRange(width, height, x, y);
      y * width + x
    }

    /** getRGB: the red, green and blue bytes of (x, y), which start at byte
        (y*width + x)*4; the alpha byte after them is not part of the result. */
    function GetRGB(x: int, y: int): (rgb: (Byte, Byte, Byte))
      reads this, data
      requires Valid() && 0 <= x < width && 0 <= y < height
      ensures 0 <= 4 * (y * width + x) && 4 * (y * width + x) + 3 < data.Length
      ensures rgb.0 == data[4 * (y * width + x)] && rgb.1 == data[4 * (y * width + x) + 1]
              && rgb.2 == data[4 * (y * width + x) + 2]
    {
      var index := PixelIndex(x, y) * 4;
      (data[index], data[index + 1], data[index + 2])
    }

    function GetMid(x: int, y: int): (v: int)
      reads this, data
      requires Valid() && 0 <= x < width && 0 <= y < height
      ensures 0 <= v <= 255
      ensures 3 * v - 1 <= GetRGB(x, y).0 as int + GetRGB(x, y).1 as int + GetRGB(x, y).2 as int <= 3 * v + 1
    {
      MidOf(data[..], PixelIndex(x, y))
    }

    method SetMid(x: int, y: int, mid: real)
      requires Valid() && 0 <= x < width && 0 <= y < height
      modifies data
      ensures data[..] == WithMid(old(data[..]), PixelIndex(x, y), ToUint8Clamp(mid))
      ensures GetRGB(x, y) == (ToUint8Clamp(mid), ToUint8Clamp(mid), ToUint8Clamp(mid))
      ensures GetMid(x, y) == ToUint8Clamp(mid)
    {
      ghost var p := PixelIndex(x, y);
      ghost var before := data[..];
      var index := (y * width + x) * 4;
      var c := ToUint8Clamp(mid);
      data[index] := c;
      data[index + 1] := c;
      data[index + 2] := c;
      assert data[..] == WithMid(before, p, c);
    }

    /** SetMid of a whole byte c on a store that is an overlay of base: the overlay gains
        the entry for pixel (x, y). */
    method SetMidOverlay(x: int, y: int, c: Byte, ghost p: int, ghost base: seq<Byte>, ghost over: seq<Option<Byte>>)
      returns (ghost over': seq<Option<Byte>>)
      requires Valid() && 0 <= x < width && 0 <= y < height && p == y * width + x
      requires |base| == 4 * |over| && |over| == width * height && data[..] == Overlay(base, over)
      modifies data
      ensures 0 <= p < |over| && over' == over[p := Some(c)]
      ensures data[..] == Overlay(base, over')
    {
      assert PixelIndex(x, y) == p;
      OverlayWrite(base, over, p, c);
      IntegerWrite(c);
      SetMid(x, y, c as real);
      over' := over[p := Some(c)];
    }
  }

  /** getMid at (x, y) reads pixel y*width + x of the store. */
  lemma GetMidAt(wrapper: Uint8ClampedWrapper, x: int, y: int, p: int)
    requires wrapper.Valid() && 0 <= x < wrapper.width && 0 <= y < wrapper.height
    requires p == y * wrapper.width + x
    ensures 0 <= p && 4 * p + 3 < wrapper.data.Length
    ensures wrapper.GetMid(x, y) == MidOf(wrapper.data[..], p)
  {
    assert wrapper.PixelIndex(x, y) == p;
  }

  class TypedArrayWrapper<T> {
    /** The value the typed array constructor fills a new array with (0 for Float64Array
        and Uint8Array alike). */
    const zero: T
    var data: array?<T>
    var width: int
    var height: int

    /** Empty (no array and zero dimensions) or an array of exactly width*height cells. */
    ghost predicate Valid()
      reads this
    {
      (data == null && width == 0 && height == 0)
      || (data != null && width > 0 && height > 0 && data.Length == width * height
          && data.Length <= MAX_SAFE_INTEGER)
    }

    constructor (zero: T)
      ensures Valid() && data == null && width == 0 && height == 0 && this.zero == zero
    {
      this.zero := zero;
      data := null;
      width := 0;
      height := 0;
    }

    method Clear()
      modifies this
      ensures Valid() && data == null && width == 0 && height == 0
    {
      width := 0;
      height := 0;
      data := null;
    }

    function Empty(): (r: bool)
      reads this
      ensures Valid() ==> (r <==> data == null)
    {
      width == 0 || height == 0 || data == null
    }

    method SetBufferDefault(w: int, h: int) returns (ok: bool)
      modifies this
      ensures Valid()
      ensures ok <==> w > 0 && h > 0 && w * h <= MAX_SAFE_INTEGER
      ensures !ok ==> data == null && width == 0 && height == 0
      ensures ok ==> fresh(data) && width == w && height == h
      ensures ok ==> data.Length == w * h && forall i :: 0 <= i < w * h ==> data[i] == zero
    {
      Clear();
      var length := w * h;
      if w <= 0 || h <= 0 || length > MAX_SAFE_INTEGER {
        return false;
      }
      width := w;
      height := h;
      data := new T[length](_ => zero);
      return true;
    }

    method SetBufferFromTypedWrapper(other: TypedArrayWrapper<T>) returns (ok: bool)
      requires other.Valid()
      modifies this
      ensures Valid()
      ensures ok <==> other != this && !old(other.Empty())
      ensures !ok ==> data == null && width == 0 && height == 0
      ensures ok ==> fresh(data) && width == other.width && height == other.height
      ensures ok ==> data[..] == old(other.data[..])
    {
      Clear();
      if other.Empty() {
        return false;
      }
      var src := other.data;
      width := other.width;
      height := other.height;
      data := new T[src.Length](k reads src requires 0 <= k < src.Length => src[k]);
      return true;
    }

    function GetMid(x: int, y: int): (v: T)
      reads this, data
      requires Valid() && 0 <= x < width && 0 <= y < height
      ensures 0 <= y * width + x < data.Length && v == data[y * width + x]
    {
      IndexInRange(width, height, x, y);
      data[y * width + x]
    }

    method SetMid(x: int, y: int, val: T)
      requires Valid() && 0 <= x < width && 0 <= y < height
      modifies data
      ensures 0 <= y * width + x < data.Length
      ensures data[..] == old(data[..])[y * width + x := val]
      ensures GetMid(x, y) == val
    {
      IndexInRange(width, height, x, y);
      data[y * width + x] := val;
    }
  }
}
