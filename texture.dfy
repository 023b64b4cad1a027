/** The RGBA texture of src/raytracing/texture.rs: a flat buffer of four
    channel values per pixel, row-major, with out-of-range coordinates
    wrapped by one of four modes. Channel values are only copied, so their
    type is a parameter. */
module Textures {
  import Wrappers

  datatype TextureWrapMode = None | Clamp | Repeat | Mirror

  datatype Color<T> = Color(r: T, g: T, b: T, a: T)

  /** Channel `k` of a colour, in buffer order `r, g, b, a`. */
  function Channel<T>(c: Color<T>, k: nat): T
    requires k < 4
  {
    match k
    case 0 => c.r
    case 1 => c.g
    case 2 => c.b
    case 3 => c.a
  }

  /** `get_wrapped_coordinate` (src/raytracing/texture.rs:110-135). An
      in-range coordinate is kept; otherwise None gives no coordinate, Clamp
      the last one, Repeat the remainder, and Mirror folds the coordinate
      over a period of twice the bound. */
  function WrappedCoordinate(c: nat, bound: nat, mode: TextureWrapMode): (r: Wrappers.Option<nat>)
    requires bound >= 1
    ensures c < bound ==> r == Wrappers.Some(c)
    ensures r.None? <==> c >= bound && mode.None?
    ensures c >= bound && mode.Clamp? ==> r == Wrappers.Some(bound - 1)
    ensures mode.Repeat? ==> r.Some? && r.value < bound && r.value == c % bound
    ensures mode.Mirror? ==> r.Some? && r.value <= bound
    ensures !mode.Mirror? && r.Some? ==> r.value < bound
  {
    if c < bound then Wrappers.Some(c)
    else
      match mode
      case None => Wrappers.None
      case Clamp => Wrappers.Some(bound - 1)
      case Repeat => Wrappers.Some(c % bound)
      case Mirror =>
        var folded := c % (bound * 2);
        if folded >= bound then Wrappers.Some(bound * 2 - folded) else Wrappers.Some(folded)
  }

  /** Mirror mode returns the bound itself, one past the last valid
      coordinate, exactly when the coordinate lies at an odd multiple of the
      bound. */
  lemma MirrorHitsBound(c: nat, bound: nat)
    requires bound >= 1
    ensures WrappedCoordinate(c, bound, Mirror) == Wrappers.Some(bound) <==> c % (2 * bound) == bound
  {
    var period := bound * 2;
    assert period == 2 * bound;
    var folded := c % period;
    assert folded < period;
    if c < bound {
      ModOfSmall(c, period);
    } else {
      assert WrappedCoordinate(c, bound, Mirror)
        == if folded >= bound then Wrappers.Some(period - folded) else Wrappers.Some(folded);
    }
  }

  lemma ModOfSmall(c: nat, p: nat)
    requires c < p
    ensures c % p == c
  {
  }

  /** The smallest input that shows it: coordinate 3 on a bound of 3. */
  lemma MirrorThreeOfThree()
    ensures WrappedCoordinate(3, 3, Mirror) == Wrappers.Some(3)
  {
    assert 3 % (3 * 2) == 3;
  }

  /** `get_wrapped_coordinates` (src/raytracing/texture.rs:98-103): both
      coordinates wrapped, or none when either has none. */
  function WrappedCoordinates(x: nat, y: nat, width: nat, height: nat, mode: TextureWrapMode): (r: Wrappers.Option<(nat, nat)>)
    requires width >= 1 && height >= 1
    ensures r.None? <==> WrappedCoordinate(x, width, mode).None? || WrappedCoordinate(y, height, mode).None?
    ensures r.Some? ==> r.value == (WrappedCoordinate(x, width, mode).value, WrappedCoordinate(y, height, mode).value)
  {
    match (WrappedCoordinate(x, width, mode), WrappedCoordinate(y, height, mode))
    case (Some(wx), Some(wy)) => Wrappers.Some((wx, wy))
    case _ => Wrappers.None
  }

  /** `get_index_from_coordinates` (src/raytracing/texture.rs:105-107): the
      first of the four slots of pixel `(x, y)` in a row-major buffer. */
  function PixelIndex(x: nat, y: nat, width: nat): nat {
    (y * width + x) * 4
  }

  /** An in-range pixel's four slots lie inside the buffer. */
  lemma PixelIndexInBounds(x: nat, y: nat, width: nat, height: nat)
    requires x < width && y < height
    ensures PixelIndex(x, y, width) + 3 < 4 * width * height
  {
    var k: nat := height - y - 1;
    assert height * width == y * width + width + k * width by {
      assert height == y + 1 + k;
    }
    assert 4 * width * height == 4 * (height * width);
  }

  /** Distinct in-range pixels own disjoint four-slot windows. */
  lemma PixelWindowsDisjoint(x1: nat, y1: nat, x2: nat, y2: nat, width: nat)
    requires x1 < width && x2 < width && (x1, y1) != (x2, y2)
    ensures PixelIndex(x1, y1, width) + 4 <= PixelIndex(x2, y2, width)
         || PixelIndex(x2, y2, width) + 4 <= PixelIndex(x1, y1, width)
  {
    if y1 < y2 {
      RowBefore(x1, y1, x2, y2, width);
    } else if y2 < y1 {
      RowBefore(x2, y2, x1, y1, width);
    }
  }

  lemma RowBefore(x1: nat, y1: nat, x2: nat, y2: nat, width: nat)
    requires x1 < width && y1 < y2
    ensures y1 * width + x1 < y2 * width + x2
  {
    var k: nat := y2 - y1 - 1;
    assert y2 * width == y1 * width + width + k * width by {
      assert y2 == y1 + 1 + k;
    }
  }

  /** A buffer of `width * height` pixels. */
  predicate IsBuffer<T>(values: seq<T>, width: nat, height: nat) {
    width >= 1 && height >= 1 && |values| == 4 * width * height
  }

  /** Whether wrapping `(x, y)` gives either nothing or a pixel whose slots
      lie inside the buffer; `set_pixel` and `get_pixel` index out of
      bounds (a panic) otherwise. */
  predicate Addressable<T>(values: seq<T>, width: nat, height: nat, mode: TextureWrapMode, x: nat, y: nat)
    requires IsBuffer(values, width, height)
  {
    var w := WrappedCoordinates(x, y, width, height, mode);
    w.Some? ==> PixelIndex(w.value.0, w.value.1, width) + 3 < |values|
  }

  /** Every coordinate is addressable outside Mirror mode. */
  lemma AddressableUnlessMirror<T>(values: seq<T>, width: nat, height: nat, mode: TextureWrapMode, x: nat, y: nat)
    requires IsBuffer(values, width, height) && !mode.Mirror?
    ensures Addressable(values, width, height, mode, x, y)
  {
    var w := WrappedCoordinates(x, y, width, height, mode);
    if w.Some? {
      PixelIndexInBounds(w.value.0, w.value.1, width, height);
    }
  }

  /** The buffer after `set_pixel(x, y, color)` (src/raytracing/texture.rs:51-68). */
  function Painted<T>(values: seq<T>, width: nat, height: nat, mode: TextureWrapMode, x: nat, y: nat, color: Color<T>): (r: seq<T>)
    requires IsBuffer(values, width, height) && Addressable(values, width, height, mode, x, y)
    ensures |r| == |values|
  {
    match WrappedCoordinates(x, y, width, height, mode)
    case None => values
    case Some((wx, wy)) =>
      var i := PixelIndex(wx, wy, width);
      values[i := color.r][i + 1 := color.g][i + 2 := color.b][i + 3 := color.a]
  }

  /** The colour `get_pixel(x, y)` reads (src/raytracing/texture.rs:70-78). */
  function PixelAt<T>(values: seq<T>, width: nat, height: nat, mode: TextureWrapMode, x: nat, y: nat): (p: Wrappers.Option<Color<T>>)
    requires IsBuffer(values, width, height) && Addressable(values, width, height, mode, x, y)
    ensures p.None? <==> WrappedCoordinates(x, y, width, height, mode).None?
  {
    match WrappedCoordinates(x, y, width, height, mode)
    case None => Wrappers.None
    case Some((wx, wy)) =>
      var i := PixelIndex(wx, wy, width);
      Wrappers.Some(Color(values[i], values[i + 1], values[i + 2], values[i + 3]))
  }

  /** Painting a pixel writes exactly its four slots, in channel order, and
      nothing else; a coordinate that wraps to nothing leaves the buffer as
      it was. */
  lemma PaintedSlots<T>(values: seq<T>, width: nat, height: nat, mode: TextureWrapMode, x: nat, y: nat, color: Color<T>)
    requires IsBuffer(values, width, height) && Addressable(values, width, height, mode, x, y)
    ensures var w := WrappedCoordinates(x, y, width, height, mode);
      var r := Painted(values, width, height, mode, x, y, color);
      w.None? ==> r == values
    ensures var w := WrappedCoordinates(x, y, width, height, mode);
      var r := Painted(values, width, height, mode, x, y, color);
      w.Some? ==>
        var i := PixelIndex(w.value.0, w.value.1, width);
        forall j :: 0 <= j < |values| ==> r[j] == if i <= j < i + 4 then Channel(color, j - i) else values[j]
  {
  }

  /** Reading a pixel just painted gives the colour painted. */
  lemma PixelAfterPaint<T>(values: seq<T>, width: nat, height: nat, mode: TextureWrapMode, x: nat, y: nat, color: Color<T>)
    requires IsBuffer(values, width, height) && Addressable(values, width, height, mode, x, y)
    ensures var r := Painted(values, width, height, mode, x, y, color);
      IsBuffer(r, width, height) && Addressable(r, width, height, mode, x, y)
      && PixelAt(r, width, height, mode, x, y)
         == if WrappedCoordinates(x, y, width, height, mode).None? then Wrappers.None else Wrappers.Some(color)
  {
  }

  /** Painting one pixel leaves every pixel whose window starts elsewhere
      as it was. */
  lemma PaintLeavesOthers<T>(values: seq<T>, width: nat, height: nat, mode: TextureWrapMode, x: nat, y: nat, color: Color<T>, x2: nat, y2: nat)
    requires IsBuffer(values, width, height) && Addressable(values, width, height, mode, x, y)
    requires Addressable(values, width, height, mode, x2, y2)
    requires var w1 := WrappedCoordinates(x, y, width, height, mode);
      var w2 := WrappedCoordinates(x2, y2, width, height, mode);
      w1.Some? && w2.Some? ==> PixelIndex(w1.value.0, w1.value.1, width) != PixelIndex(w2.value.0, w2.value.1, width)
    ensures var r := Painted(values, width, height, mode, x, y, color);
      IsBuffer(r, width, height) && Addressable(r, width, height, mode, x2, y2)
      && PixelAt(r, width, height, mode, x2, y2) == PixelAt(values, width, height, mode, x2, y2)
  {
    var w1 := WrappedCoordinates(x, y, width, height, mode);
    var w2 := WrappedCoordinates(x2, y2, width, height, mode);
    if w1.Some? && w2.Some? {
      var i1 := PixelIndex(w1.value.0, w1.value.1, width);
      var i2 := PixelIndex(w2.value.0, w2.value.1, width);
      FourApart(w1.value.1 * width + w1.value.0, w2.value.1 * width + w2.value.0);
      PaintedSlots(values, width, height, mode, x, y, color);
      var r := Painted(values, width, height, mode, x, y, color);
      assert r[i2] == values[i2] && r[i2 + 1] == values[i2 + 1];
      assert r[i2 + 2] == values[i2 + 2] && r[i2 + 3] == values[i2 + 3];
    }
  }

  /** Distinct multiples of four are at least four apart. */
  lemma FourApart(a: nat, b: nat)
    requires a * 4 != b * 4
    ensures a * 4 + 4 <= b * 4 || b * 4 + 4 <= a * 4
  {
  }

  /** Outside Mirror mode, coordinates that wrap to different cells own
      different windows. */
  lemma DistinctCellsDistinctWindows(width: nat, height: nat, mode: TextureWrapMode, x: nat, y: nat, x2: nat, y2: nat)
    requires width >= 1 && height >= 1 && !mode.Mirror?
    requires var w1 := WrappedCoordinates(x, y, width, height, mode);
      var w2 := WrappedCoordinates(x2, y2, width, height, mode);
      w1.Some? && w2.Some? && w1 != w2
    ensures var w1 := WrappedCoordinates(x, y, width, height, mode).value;
      var w2 := WrappedCoordinates(x2, y2, width, height, mode).value;
      PixelIndex(w1.0, w1.1, width) != PixelIndex(w2.0, w2.1, width)
  {
    var w1 := WrappedCoordinates(x, y, width, height, mode).value;
    var w2 := WrappedCoordinates(x2, y2, width, height, mode).value;
    PixelWindowsDisjoint(w1.0, w1.1, w2.0, w2.1, width);
  }

  /** In Mirror mode on a 2 x 2 texture, column 2 of row 0 wraps to itself,
      and its window is the window of pixel (0, 1): painting one paints the
      other. */
  lemma MirrorAliasesNextRow<T>(values: seq<T>, color: Color<T>)
    requires IsBuffer(values, 2, 2)
    ensures WrappedCoordinates(2, 0, 2, 2, Mirror) == Wrappers.Some((2, 0))
    ensures Addressable(values, 2, 2, Mirror, 2, 0) && Addressable(values, 2, 2, Mirror, 0, 1)
    ensures var r := Painted(values, 2, 2, Mirror, 2, 0, color);
      IsBuffer(r, 2, 2) && Addressable(r, 2, 2, Mirror, 0, 1)
      && PixelAt(r, 2, 2, Mirror, 0, 1) == Wrappers.Some(color)
  {
    assert 2 % (2 * 2) == 2;
    assert WrappedCoordinate(2, 2, Mirror) == Wrappers.Some(2);
    assert PixelIndex(2, 0, 2) == 8 == PixelIndex(0, 1, 2);
  }

  /** In Mirror mode on a 2 x 2 texture, column 2 of the last row wraps to
      itself, and its window starts at the end of the buffer: `set_pixel`
      and `get_pixel` index out of bounds there. */
  lemma MirrorLeavesBuffer<T>(values: seq<T>)
    requires IsBuffer(values, 2, 2)
    ensures WrappedCoordinates(2, 1, 2, 2, Mirror) == Wrappers.Some((2, 1))
    ensures PixelIndex(2, 1, 2) == |values|
    ensures !Addressable(values, 2, 2, Mirror, 2, 1)
  {
    assert 2 % (2 * 2) == 2 && 1 % (2 * 2) == 1;
    assert WrappedCoordinate(2, 2, Mirror) == Wrappers.Some(2);
    assert WrappedCoordinate(1, 2, Mirror) == Wrappers.Some(1);
    assert PixelIndex(2, 1, 2) == 16;
  }

  class Texture<T> {
    const width: nat
    const height: nat
    const values: array<T>
    const wrapMode: TextureWrapMode

    predicate Valid()
      reads this
    {
      width >= 1 && height >= 1 && values.Length == 4 * width * height
    }

    /** `Texture::new` (src/raytracing/texture.rs:24-37): `width * height`
        copies of the fill colour's four channels. */
    constructor New(width: nat, height: nat, wrapMode: TextureWrapMode, fill: Color<T>)
      requires width >= 1 && height >= 1
      ensures Valid() && fresh(values)
      ensures this.width == width && this.height == height && this.wrapMode == wrapMode
      ensures forall i :: 0 <= i < values.Length ==> values[i] == Channel(fill, i % 4)
    {
      this.width := width;
      this.height := height;
      this.wrapMode := wrapMode;
      values := new T[4 * width * height](i requires 0 <= i => Channel(fill, i % 4));
    }

    /** `Texture::set_pixel` (src/raytracing/texture.rs:51-68), in place. */
    method SetPixel(x: nat, y: nat, color: Color<T>)
      requires Valid() && Addressable(values[..], width, height, wrapMode, x, y)
      modifies values
      ensures values[..] == Painted(old(values[..]), width, height, wrapMode, x, y, color)
    {
      match WrappedCoordinates(x, y, width, height, wrapMode)
      case None =>
      case Some((wx, wy)) =>
        var i := PixelIndex(wx, wy, width);
        values[i] := color.r;
        values[i + 1] := color.g;
        values[i + 2] := color.b;
        values[i + 3] := color.a;
    }

    /** `Texture::get_pixel` (src/raytracing/texture.rs:70-78). */
    function GetPixel(x: nat, y: nat): (p: Wrappers.Option<Color<T>>)
      requires Valid() && Addressable(values[..], width, height, wrapMode, x, y)
      reads this, values
      ensures p == PixelAt(values[..], width, height, wrapMode, x, y)
      ensures p.None? <==> WrappedCoordinates(x, y, width, height, wrapMode).None?
    {
      PixelAt(values[..], width, height, wrapMode, x, y)
    }

    /** `Texture::clear`, which the raytracer calls
        (src/raytracing/raytracer/cpu_raytracer.rs:42) but texture.rs does
        not define: every pixel set to `color`. */
    method Clear(color: Color<T>)
      requires Valid()
      modifies values
      ensures forall i :: 0 <= i < values.Length ==> values[i] == Channel(color, i % 4)
    {
      for i := 0 to values.Length
        invariant forall j :: 0 <= j < i ==> values[j] == Channel(color, j % 4)
      {
        values[i] := Channel(color, i % 4);
      }
    }
  }
}
