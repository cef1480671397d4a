/**
  The bucket tool's flood fill (`floodFill`): a 4-connected region fill over
  the pixel buffer driven by an explicit work stack. Its functional target is
  the region of pixels joined to the seed by a path of horizontal and
  vertical steps through pixels whose RGBA equals the seed's.
 */
module Fill {
  import opened Pixels

  /** The four neighbours in the order `floodFill` pushes them. */
  function Right(p: Point): Point { Point(p.x + 1, p.y) }
  function Left(p: Point): Point { Point(p.x - 1, p.y) }
  function Down(p: Point): Point { Point(p.x, p.y + 1) }
  function Up(p: Point): Point { Point(p.x, p.y - 1) }

  predicate Adjacent(p: Point, q: Point) {
    q == Right(p) || q == Left(p) || q == Down(p) || q == Up(p)
  }

  /** The colour the fill writes: the fill colour's RGB with alpha forced to 255. */
  function Paint(fill: Color): (c: Color)
    ensures c.a == 255
    ensures c.r == fill.r && c.g == fill.g && c.b == fill.b
  {
    Color(fill.r, fill.g, fill.b, 255)
  }

  /** A non-empty walk of unit steps that stays on the raster and on pixels of colour `c`. */
  ghost predicate IsPath(img: Image, c: Color, path: seq<Point>) {
    && img.Valid()
    && |path| > 0
    && (forall k :: 0 <= k < |path| ==> InBounds(img, path[k]) && At(img, path[k]) == c)
    && (forall k :: 0 <= k < |path| - 1 ==> Adjacent(path[k], path[k + 1]))
  }

  /** `p` lies in the 4-connected component of seed-coloured pixels that contains the seed. */
  ghost predicate InRegion(img: Image, seed: Point, p: Point) {
    && img.Valid()
    && InBounds(img, seed)
    && exists path :: IsPath(img, At(img, seed), path) && path[0] == seed && path[|path| - 1] == p
  }

  /** The pixels the fill is meant to repaint: the seed's region, unless the early exit applies. */
  ghost predicate Filled(img: Image, seed: Point, fill: Color, p: Point) {
    img.Valid() && !ColorsMatch(GetPixel(img, seed), fill) && InRegion(img, seed, p)
  }

  lemma RegionSeed(img: Image, seed: Point)
    requires img.Valid() && InBounds(img, seed)
    ensures InRegion(img, seed, seed)
  {
    assert IsPath(img, At(img, seed), [seed]);
  }

  /** Every member of the region carries exactly the seed's RGBA. */
  lemma RegionColor(img: Image, seed: Point, p: Point)
    requires InRegion(img, seed, p)
    ensures InBounds(img, p) && At(img, p) == At(img, seed)
  {
  }

  /** A seed-coloured neighbour of a region member is a region member. */
  lemma RegionStep(img: Image, seed: Point, p: Point, q: Point)
    requires InRegion(img, seed, p) && Adjacent(p, q)
    requires InBounds(img, q) && At(img, q) == At(img, seed)
    ensures InRegion(img, seed, q)
  {
    var path :| IsPath(img, At(img, seed), path) && path[0] == seed && path[|path| - 1] == p;
    var path' := path + [q];
    assert IsPath(img, At(img, seed), path');
  }

  /** On a single-coloured buffer the region of any seed is the whole raster. */
  lemma {:induction false} UniformRegion(img: Image, seed: Point, p: Point)
    requires img.Valid() && InBounds(img, seed) && InBounds(img, p)
    requires forall q :: InBounds(img, q) ==> At(img, q) == At(img, seed)
    ensures InRegion(img, seed, p)
    decreases (if p.x < seed.x then seed.x - p.x else p.x - seed.x) + (if p.y < seed.y then seed.y - p.y else p.y - seed.y)
  {
    if p == seed {
      RegionSeed(img, seed);
    } else {
      var prev :=
        if p.x < seed.x then Right(p)
        else if p.x > seed.x then Left(p)
        else if p.y < seed.y then Down(p)
        else Up(p);
      UniformRegion(img, seed, prev);
      RegionStep(img, seed, prev, p);
    }
  }

  /** Number of pixels whose full RGBA is `target`. */
  function CountMatching(s: seq<Color>, target: Option<Color>): nat {
    if |s| == 0 then 0
    else (if target == Some(s[0]) then 1 else 0) + CountMatching(s[1..], target)
  }

  /** Repainting one target-coloured pixel with another colour lowers the count by one. */
  lemma {:induction false} CountMatchingPaint(s: seq<Color>, i: int, target: Option<Color>, v: Color)
    requires 0 <= i < |s| && target == Some(s[i]) && target != Some(v)
    ensures CountMatching(s[i := v], target) == CountMatching(s, target) - 1
  {
    if i > 0 {
      assert s[i := v][1..] == s[1..][i - 1 := v];
      CountMatchingPaint(s[1..], i - 1, target, v);
    }
  }

  /** Number of positions at which two equally long buffers differ. */
  function Changed(a: seq<Color>, b: seq<Color>): nat
    requires |a| == |b|
  {
    if |a| == 0 then 0
    else (if a[0] != b[0] then 1 else 0) + Changed(a[1..], b[1..])
  }

  /** Writing a new value to a position not yet changed raises the change count by one. */
  lemma {:induction false} ChangedPaint(a: seq<Color>, b: seq<Color>, i: int, v: Color)
    requires |a| == |b| && 0 <= i < |a| && a[i] == b[i] && v != b[i]
    ensures Changed(a, b[i := v]) == Changed(a, b) + 1
  {
    if i > 0 {
      assert b[i := v][1..] == b[1..][i - 1 := v];
      ChangedPaint(a[1..], b[1..], i - 1, v);
    }
  }

  lemma {:induction false} ChangedNone(a: seq<Color>)
    ensures Changed(a, a) == 0
  {
    if |a| > 0 {
      ChangedNone(a[1..]);
    }
  }

  /** Neighbour `q` needs no further visit: off the raster, no longer the target, or still waiting on the stack. */
  predicate Covered(cur: Image, stack: seq<Point>, target: Option<Color>, q: Point)
    requires cur.Valid()
  {
    !InBounds(cur, q) || !Matches(cur, q, target) || q in stack
  }

  /** Every pixel is either untouched or painted and in the seed's region. */
  ghost predicate PaintedInRegion(img: Image, cur: Image, seed: Point, paint: Color)
    requires SameShape(img, cur)
  {
    forall p :: InBounds(img, p) ==>
      At(cur, p) == At(img, p) || (At(cur, p) == paint && InRegion(img, seed, p))
  }

  /** Every target-coloured neighbour of a painted pixel is still pending on the stack. */
  ghost predicate FrontierCovered(img: Image, cur: Image, stack: seq<Point>, target: Option<Color>)
    requires SameShape(img, cur)
  {
    forall p :: InBounds(img, p) && At(cur, p) != At(img, p) ==>
      Covered(cur, stack, target, Right(p)) && Covered(cur, stack, target, Left(p)) &&
      Covered(cur, stack, target, Down(p)) && Covered(cur, stack, target, Up(p))
  }

  /** Every pending coordinate that is on the raster and target-coloured in the original buffer is in the region. */
  ghost predicate StackInRegion(img: Image, seed: Point, target: Option<Color>, stack: seq<Point>)
    requires img.Valid()
  {
    forall i :: 0 <= i < |stack| && InBounds(img, stack[i]) && target == Some(At(img, stack[i])) ==>
      InRegion(img, seed, stack[i])
  }

  /** The loop invariant of the fill, over the original buffer `img` and the working copy `cur`. */
  ghost predicate Inv(img: Image, cur: Image, seed: Point, target: Option<Color>, paint: Color, stack: seq<Point>) {
    && SameShape(img, cur)
    && (InBounds(img, seed) ==> target == Some(At(img, seed)))
    && target != Some(paint)
    && PaintedInRegion(img, cur, seed, paint)
    && StackInRegion(img, seed, target, stack)
    && (InBounds(img, seed) && Matches(cur, seed, target) ==> seed in stack)
    && FrontierCovered(img, cur, stack, target)
  }

  /** Popping the top of a stack keeps every other entry. */
  lemma InPrefix(s: seq<Point>, x: Point)
    requires x in s && x != s[|s| - 1]
    ensures x in s[..|s| - 1]
  {
  }

  /** The invariant holds with the untouched buffer and the seed as the only pending coordinate. */
  lemma InvInit(img: Image, seed: Point, target: Option<Color>, paint: Color)
    requires img.Valid()
    requires InBounds(img, seed) ==> target == Some(At(img, seed))
    requires target != Some(paint)
    ensures Inv(img, img, seed, target, paint, [seed])
  {
  }

  /** Popping a coordinate that is off the raster or no longer the target changes nothing else. */
  lemma InvDiscard(img: Image, cur: Image, seed: Point, target: Option<Color>, paint: Color, stack: seq<Point>, q: Point)
    requires Inv(img, cur, seed, target, paint, stack + [q])
    requires !InBounds(cur, q) || !Matches(cur, q, target)
    ensures Inv(img, cur, seed, target, paint, stack)
  {
    var prev := stack + [q];
    assert prev[..|prev| - 1] == stack;
    forall x | x in prev && x != q
      ensures x in stack
    {
      InPrefix(prev, x);
    }
    assert StackInRegion(img, seed, target, stack) by {
      forall i | 0 <= i < |stack|
        ensures stack[i] == prev[i]
      {
      }
    }
  }

  /** A neighbour covered before a paint step is covered after it. */
  lemma CoveredAfterPaint(cur: Image, prev: seq<Point>, next: seq<Point>, target: Option<Color>, paint: Color, q: Point, n: Point)
    requires cur.Valid() && InBounds(cur, q) && target != Some(paint)
    requires Covered(cur, prev, target, n)
    requires forall x :: x in prev && x != q ==> x in next
    ensures Covered(SetAt(cur, q, paint), next, target, n)
  {
  }

  /** Painting `q` and pushing its neighbours keeps every painted pixel's neighbours covered. */
  lemma FrontierAfterPaint(img: Image, cur: Image, prev: seq<Point>, next: seq<Point>, target: Option<Color>, paint: Color, q: Point)
    requires SameShape(img, cur) && InBounds(cur, q) && target != Some(paint)
    requires FrontierCovered(img, cur, prev, target)
    requires forall x :: x in prev && x != q ==> x in next
    requires Right(q) in next && Left(q) in next && Down(q) in next && Up(q) in next
    ensures FrontierCovered(img, SetAt(cur, q, paint), next, target)
  {
    var cur' := SetAt(cur, q, paint);
    forall p | InBounds(img, p) && At(cur', p) != At(img, p)
      ensures Covered(cur', next, target, Right(p)) && Covered(cur', next, target, Left(p)) &&
              Covered(cur', next, target, Down(p)) && Covered(cur', next, target, Up(p))
    {
      if p != q {
        CoveredAfterPaint(cur, prev, next, target, paint, q, Right(p));
        CoveredAfterPaint(cur, prev, next, target, paint, q, Left(p));
        CoveredAfterPaint(cur, prev, next, target, paint, q, Down(p));
        CoveredAfterPaint(cur, prev, next, target, paint, q, Up(p));
      }
    }
  }

  lemma StackAfterPaint(img: Image, seed: Point, target: Option<Color>, stack: seq<Point>, q: Point)
    requires img.Valid() && InRegion(img, seed, q)
    requires target == Some(At(img, seed))
    requires StackInRegion(img, seed, target, stack + [q])
    ensures StackInRegion(img, seed, target, stack + [Right(q), Left(q), Down(q), Up(q)])
  {
    var prev := stack + [q];
    var next := stack + [Right(q), Left(q), Down(q), Up(q)];
    forall i | 0 <= i < |next| && InBounds(img, next[i]) && target == Some(At(img, next[i]))
      ensures InRegion(img, seed, next[i])
    {
      if i < |stack| {
        assert next[i] == prev[i];
      } else {
        RegionStep(img, seed, q, next[i]);
      }
    }
  }

  lemma PaintedAfterPaint(img: Image, cur: Image, seed: Point, paint: Color, q: Point)
    requires SameShape(img, cur) && InBounds(img, q) && InRegion(img, seed, q)
    requires PaintedInRegion(img, cur, seed, paint)
    ensures PaintedInRegion(img, SetAt(cur, q, paint), seed, paint)
  {
  }

  /** Painting a popped target pixel and pushing its four neighbours keeps the invariant. */
  lemma InvPaint(img: Image, cur: Image, seed: Point, target: Option<Color>, paint: Color, stack: seq<Point>, q: Point)
    requires Inv(img, cur, seed, target, paint, stack + [q])
    requires InBounds(cur, q) && Matches(cur, q, target)
    ensures At(cur, q) == At(img, q)
    ensures Inv(img, SetAt(cur, q, paint), seed, target, paint, stack + [Right(q), Left(q), Down(q), Up(q)])
  {
    var prev := stack + [q];
    var next := stack + [Right(q), Left(q), Down(q), Up(q)];
    assert prev[|prev| - 1] == q;
    assert InRegion(img, seed, q);
    RegionColor(img, seed, q);
    forall x | x in prev && x != q
      ensures x in next
    {
      InPrefix(prev, x);
    }
    assert next[|stack|] == Right(q) && next[|stack| + 1] == Left(q);
    assert next[|stack| + 2] == Down(q) && next[|stack| + 3] == Up(q);
    FrontierAfterPaint(img, cur, prev, next, target, paint, q);
    StackAfterPaint(img, seed, target, stack, q);
    PaintedAfterPaint(img, cur, seed, paint, q);
  }

  /**
    Once the stack is empty, every region member has been painted: walk any
    witnessing path from the seed, using that the seed was covered and that
    each painted pixel covers its neighbours.
   */
  lemma RegionComplete(img: Image, cur: Image, seed: Point, target: Option<Color>, paint: Color, p: Point)
    requires Inv(img, cur, seed, target, paint, [])
    requires InRegion(img, seed, p)
    ensures At(cur, p) == paint
  {
    var c := At(img, seed);
    var path :| IsPath(img, c, path) && path[0] == seed && path[|path| - 1] == p;
    var k := 0;
    while k < |path| - 1
      invariant 0 <= k < |path|
      invariant At(cur, path[k]) != At(img, path[k])
    {
      var q := path[k + 1];
      assert Adjacent(path[k], q);
      assert Covered(cur, [], target, q);
      k := k + 1;
    }
  }

  /** What the finished loop leaves in the buffer, stated over the original buffer. */
  lemma FillOutcome(img: Image, cur: Image, seed: Point, fill: Color, target: Option<Color>)
    requires img.Valid() && target == GetPixel(img, seed) && !ColorsMatch(target, fill)
    requires Inv(img, cur, seed, target, Paint(fill), [])
    ensures forall p :: InBounds(img, p) ==>
      At(cur, p) == (if Filled(img, seed, fill, p) then Paint(fill) else At(img, p))
    ensures !InBounds(img, seed) ==> cur == img
    ensures forall p :: InBounds(img, p) && InBounds(img, seed) && At(img, p) != At(img, seed) ==> At(cur, p) == At(img, p)
    ensures InBounds(img, seed) && (forall q :: InBounds(img, q) ==> At(img, q) == At(img, seed)) ==>
            forall p :: InBounds(img, p) ==> At(cur, p) == Paint(fill)
  {
    forall p | InBounds(img, p)
      ensures At(cur, p) == (if Filled(img, seed, fill, p) then Paint(fill) else At(img, p))
    {
      if InRegion(img, seed, p) {
        RegionComplete(img, cur, seed, target, Paint(fill), p);
      }
    }
    forall p | InBounds(img, p) && InRegion(img, seed, p)
      ensures At(img, p) == At(img, seed)
    {
      RegionColor(img, seed, p);
    }
    if InBounds(img, seed) && forall q :: InBounds(img, q) ==> At(img, q) == At(img, seed) {
      forall p | InBounds(img, p)
        ensures InRegion(img, seed, p)
      {
        UniformRegion(img, seed, p);
      }
    }
    if !InBounds(img, seed) {
      Extensionality(cur, img);
    }
  }

  /**
    `floodFill` on the buffer `img` from `seed` with colour `fill`. The early
    exit compares only red, green and blue of the seed pixel and the fill
    colour; the traversal compares all four channels against the seed pixel.
    Neighbours are pushed unchecked and tested when popped. The ghost
    `writes` counts pixel writes, which equals the number of pixels that end
    up changed: no pixel is painted twice.
   */
  method FloodFill(img: Image, seed: Point, fill: Color) returns (r: Image, ghost writes: nat)
    requires img.Valid()
    ensures SameShape(r, img)
    ensures ColorsMatch(GetPixel(img, seed), fill) ==> r == img
    ensures forall p :: InBounds(img, p) ==>
      At(r, p) == (if Filled(img, seed, fill, p) then Paint(fill) else At(img, p))
    ensures !InBounds(img, seed) ==> r == img
    ensures forall p :: InBounds(img, p) && InBounds(img, seed) && At(img, p) != At(img, seed) ==> At(r, p) == At(img, p)
    ensures InBounds(img, seed) && !ColorsMatch(GetPixel(img, seed), fill) &&
            (forall q :: InBounds(img, q) ==> At(img, q) == At(img, seed)) ==>
            forall p :: InBounds(img, p) ==> At(r, p) == Paint(fill)
    ensures writes == Changed(img.pixels, r.pixels)
  {
    var target := GetPixel(img, seed);
    ChangedNone(img.pixels);
    if ColorsMatch(target, fill) {
      return img, 0;
    }
    var paint := Paint(fill);
    var cur := img;
    var stack := [seed];
    writes := 0;
    InvInit(img, seed, target, paint);
    while |stack| > 0
      invariant Inv(img, cur, seed, target, paint, stack)
      invariant writes == Changed(img.pixels, cur.pixels)
      decreases CountMatching(cur.pixels, target), |stack|
    {
      ghost var prev := stack;
      var q := stack[|stack| - 1];
      stack := stack[..|stack| - 1];
      assert prev == stack + [q];
      if InBounds(cur, q) && Matches(cur, q, target) {
        InvPaint(img, cur, seed, target, paint, stack, q);
        IndexInRange(cur, q);
        CountMatchingPaint(cur.pixels, Index(cur, q), target, paint);
        ChangedPaint(img.pixels, cur.pixels, Index(cur, q), paint);
        cur := SetAt(cur, q, paint);
        writes := writes + 1;
        stack := stack + [Right(q), Left(q), Down(q), Up(q)];
      } else {
        InvDiscard(img, cur, seed, target, paint, stack, q);
      }
    }
    FillOutcome(img, cur, seed, fill, target);
    r := cur;
  }
}
