/**
  The pixel buffer the drawing surface works on: a width x height raster of
  RGBA pixels stored row by row, as a canvas ImageData holds them. The byte
  offset (y * width + x) * 4 of the browser array is modelled as the pixel
  index y * width + x into a sequence of four-channel colours.
 */
module Pixels {

  type byte = x: int | 0 <= x < 256

  /** A value that may be missing; None plays the part of JavaScript's `undefined`. */
  datatype Option<+T> = None | Some(value: T)

  /** One pixel: red, green, blue and alpha channels. */
  datatype Color = Color(r: byte, g: byte, b: byte, a: byte)

  const White := Color(255, 255, 255, 255)

  /** The contents of a freshly (re)sized canvas bitmap. */
  const Transparent := Color(0, 0, 0, 0)

  datatype Point = Point(x: int, y: int)

  datatype Image = Image(width: int, height: int, pixels: seq<Color>) {
    /** The buffer holds exactly one pixel per coordinate of a non-empty raster. */
    predicate Valid() {
      width > 0 && height > 0 && |pixels| == width * height
    }
  }

  /** Two buffers of the same geometry. */
  predicate SameShape(a: Image, b: Image) {
    a.Valid() && b.Valid() && a.width == b.width && a.height == b.height
  }

  predicate InBounds(img: Image, p: Point) {
    0 <= p.x < img.width && 0 <= p.y < img.height
  }

  /** Position of a coordinate in the row-major pixel sequence. */
  function Index(img: Image, p: Point): int {
    p.y * img.width + p.x
  }

  lemma MulMono(a: int, b: int, c: int)
    requires a <= b && c >= 0
    ensures a * c <= b * c
  {
  }

  lemma IndexInRange(img: Image, p: Point)
    requires img.Valid() && InBounds(img, p)
    ensures 0 <= Index(img, p) < |img.pixels|
  {
    MulMono(p.y + 1, img.height, img.width);
  }

  /** Distinct in-bounds coordinates occupy distinct positions of the buffer. */
  lemma IndexInjective(img: Image, p: Point, q: Point)
    requires img.Valid() && InBounds(img, p) && InBounds(img, q) && p != q
    ensures Index(img, p) != Index(img, q)
  {
    if p.y < q.y {
      MulMono(p.y + 1, q.y, img.width);
    } else if q.y < p.y {
      MulMono(q.y + 1, p.y, img.width);
    }
  }

  lemma IndexInjectiveAll(img: Image, p: Point)
    requires img.Valid() && InBounds(img, p)
    ensures forall q :: InBounds(img, q) && q != p ==> Index(img, q) != Index(img, p)
  {
    forall q | InBounds(img, q) && q != p
      ensures Index(img, q) != Index(img, p)
    {
      IndexInjective(img, q, p);
    }
  }

  /** Every position of the buffer is the index of some in-bounds coordinate. */
  lemma IndexCovers(img: Image, i: int)
    requires img.Valid() && 0 <= i < |img.pixels|
    ensures InBounds(img, Point(i % img.width, i / img.width))
    ensures Index(img, Point(i % img.width, i / img.width)) == i
  {
  }

  function At(img: Image, p: Point): Color
    requires img.Valid() && InBounds(img, p)
    ensures 0 <= Index(img, p) < |img.pixels|
  {
    IndexInRange(img, p);
    img.pixels[Index(img, p)]
  }

  /** Overwrite one in-bounds pixel; every other pixel and the geometry stay as they were. */
  function SetAt(img: Image, p: Point, c: Color): (r: Image)
    requires img.Valid() && InBounds(img, p)
    ensures SameShape(r, img)
    ensures At(r, p) == c
    ensures forall q :: InBounds(img, q) && q != p ==> At(r, q) == At(img, q)
  {
    IndexInRange(img, p);
    IndexInjectiveAll(img, p);
    img.(pixels := img.pixels[Index(img, p) := c])
  }

  /** Two buffers of the same geometry that agree at every coordinate are equal. */
  lemma Extensionality(a: Image, b: Image)
    requires SameShape(a, b)
    requires forall p :: InBounds(a, p) ==> At(a, p) == At(b, p)
    ensures a == b
  {
    forall i | 0 <= i < |a.pixels|
      ensures a.pixels[i] == b.pixels[i]
    {
      IndexCovers(a, i);
      var p := Point(i % a.width, i / a.width);
      assert At(a, p) == At(b, p);
    }
  }

  /** A buffer of the given geometry painted entirely in one colour (`fillRect` over the whole canvas). */
  function Solid(w: int, h: int, c: Color): (r: Image)
    requires w > 0 && h > 0
    ensures r.Valid() && r.width == w && r.height == h
    ensures forall p :: InBounds(r, p) ==> At(r, p) == c
  {
    Image(w, h, seq(w * h, _ => c))
  }

  /**
    The pixel read by `getPixel`: the flat index is computed without a bounds
    check, so a coordinate off the raster still reads a real pixel whenever
    its index lands inside the array, and reads nothing otherwise.
   */
  function GetPixel(img: Image, p: Point): (r: Option<Color>)
    requires img.Valid()
    ensures InBounds(img, p) ==> r == Some(At(img, p))
    ensures r.Some? <==> 0 <= Index(img, p) < |img.pixels|
  {
    var i := Index(img, p);
    if 0 <= i < |img.pixels| then Some(img.pixels[i]) else None
  }

  /** `colorsMatch`: red, green and blue agree; alpha is not compared. A missing pixel matches nothing. */
  function ColorsMatch(c1: Option<Color>, c2: Color): (r: bool)
    ensures c1.None? ==> !r
    ensures c1.Some? ==> (r <==> c1.value.(a := c2.a) == c2)
  {
    c1.Some? && c1.value.r == c2.r && c1.value.g == c2.g && c1.value.b == c2.b
  }

  /** `matches`: all four channels of the pixel at `p` equal the target. */
  function Matches(img: Image, p: Point, target: Option<Color>): (r: bool)
    requires img.Valid() && InBounds(img, p)
    ensures target.None? ==> !r
    ensures r <==> GetPixel(img, p) == target
    ensures r ==> target.value.r == At(img, p).r && target.value.g == At(img, p).g &&
                  target.value.b == At(img, p).b && target.value.a == At(img, p).a
  {
    target == Some(At(img, p))
  }
}
