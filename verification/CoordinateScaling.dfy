/** Mapping a point of one screen size to another, in 32-bit integers with a 64-bit product. */
module CoordinateScaling {
  import opened Common

  type Int = x: int | -0x8000_0000 <= x < 0x8000_0000

  datatype Bounds = Bounds(width: Int, height: Int)

  datatype Point = Point(x: Int, y: Int)

  predicate IsPointInsideScreen(x: Int, y: Int, bounds: Bounds) {
    x >= 0 && y >= 0 && x < bounds.width && y < bounds.height
  }

  /**
   * The space a command's coordinates live in: absent fields mean the screen itself.  A field is given
   * with the integer it converts to, if it converts.
   */
  function CoordinateBounds(width: Option<Option<Int>>, height: Option<Option<Int>>, screen: Bounds): Option<Bounds> {
    match (width, height)
    case (None, None) => Some(screen)
    case (Some(Some(w)), Some(Some(h))) => if w > 0 && h > 0 then Some(Bounds(w, h)) else None
    case _ => None
  }

  // ---------------------------------------------------------------- machine arithmetic

  function Times(a: int, b: int): int {
    a * b
  }

  function Over(n: nat, d: nat): nat
    requires d > 0
  {
    n / d
  }

  function WrapInt(x: int): Int {
    (x + 0x8000_0000) % 0x1_0000_0000 - 0x8000_0000
  }

  function WrapLong(x: int): int {
    (x + 0x8000_0000_0000_0000) % 0x1_0000_0000_0000_0000 - 0x8000_0000_0000_0000
  }

  function Abs(x: int): nat {
    if x < 0 then -x else x
  }

  /** Division rounds toward zero. */
  function Quotient(a: int, b: int): int
    requires b != 0
  {
    if (a < 0) == (b < 0) then Over(Abs(a), Abs(b)) else 0 - Over(Abs(a), Abs(b))
  }

  function CoerceIn(x: Int, low: Int, high: Int): Int
    requires low <= high
  {
    if x < low then low else if x > high then high else x
  }

  function Unclamped(value: Int, source: Int, target: Int): Int
    requires source > 1 && target > 0
  {
    WrapInt(Quotient(WrapLong(Times(value, target - 1)), source - 1))
  }

  function ScaleAxis(value: Int, source: Int, target: Int): Int
    requires source > 0 && target > 0
  {
    if source == 1 || target == 1 then 0 else CoerceIn(Unclamped(value, source, target), 0, target - 1)
  }

  function MapPoint(x: Int, y: Int, source: Bounds, target: Bounds): Option<Point>
    requires target.width > 0 && target.height > 0
  {
    if !IsPointInsideScreen(x, y, source) then None
    else Some(Point(ScaleAxis(x, source.width, target.width), ScaleAxis(y, source.height, target.height)))
  }

  // ---------------------------------------------------------------- multiplication and division

  lemma TimesSteps(a: int, c: int)
    ensures Times(0, c) == 0 && Times(1, c) == c
    ensures Times(a + 1, c) == Times(a, c) + c
  {
    assert (a + 1) * c == a * c + c;
  }

  lemma TimesCommutes(a: int, b: int)
    ensures Times(a, b) == Times(b, a)
  {
  }

  lemma TimesMonotone(a: int, b: int, c: int)
    requires a <= b && c >= 0
    ensures Times(a, c) <= Times(b, c)
  {
    assert (b - a) * c >= 0;
    assert b * c == a * c + (b - a) * c;
  }

  lemma TimesReflects(a: int, b: int, c: int)
    requires c > 0 && Times(a, c) < Times(b, c)
    ensures a < b
  {
    hide Times;
    if b <= a {
      TimesMonotone(b, a, c);
    }
  }

  lemma OverBrackets(n: nat, d: nat)
    requires d > 0
    ensures Times(Over(n, d), d) <= n < Times(Over(n, d), d) + d
    ensures n % d == n - Times(Over(n, d), d)
  {
    assert n == n / d * d + n % d;
  }

  lemma OverUnique(n: nat, q: nat, d: nat)
    requires d > 0 && Times(q, d) <= n < Times(q, d) + d
    ensures Over(n, d) == q
  {
    hide Times, Over;
    OverBrackets(n, d);
    TimesSteps(q, d);
    TimesSteps(Over(n, d), d);
    TimesReflects(q, Over(n, d) + 1, d);
    TimesReflects(Over(n, d), q + 1, d);
  }

  lemma WrapsNothing(x: int)
    ensures -0x8000_0000 <= x < 0x8000_0000 ==> WrapInt(x) == x
    ensures -0x8000_0000_0000_0000 <= x < 0x8000_0000_0000_0000 ==> WrapLong(x) == x
  {
  }

  /** Conversion to a machine integer keeps the value up to multiples of its size, and stays in range. */
  lemma WrapsCongruent(x: int) returns (k: int, m: int)
    ensures WrapInt(x) == x + k * 0x1_0000_0000
    ensures WrapLong(x) == x + m * 0x1_0000_0000_0000_0000
    ensures -0x8000_0000_0000_0000 <= WrapLong(x) < 0x8000_0000_0000_0000
  {
    k := 0 - (x + 0x8000_0000) / 0x1_0000_0000;
    m := 0 - (x + 0x8000_0000_0000_0000) / 0x1_0000_0000_0000_0000;
  }

  /** Division rounds toward zero: what remains is smaller than the divisor and has the dividend's sign. */
  lemma QuotientTruncates(a: int, b: int)
    requires b != 0
    ensures var r := a - Times(Quotient(a, b), b);
            0 - Abs(b) < r < Abs(b) && (a >= 0 ==> r >= 0) && (a <= 0 ==> r <= 0)
  {
    hide Times, Over;
    var q := Over(Abs(a), Abs(b));
    OverBrackets(Abs(a), Abs(b));
    TimesSigns(q, b);
  }

  lemma TimesSigns(a: int, b: int)
    ensures Times(a, -b) == -Times(a, b) && Times(-a, b) == -Times(a, b)
  {
  }

  /** Clamping gives the nearest value in range. */
  lemma CoerceIsNearest(x: Int, low: Int, high: Int, y: Int)
    requires low <= y <= high
    ensures low <= CoerceIn(x, low, high) <= high && Abs(x - CoerceIn(x, low, high)) <= Abs(x - y)
  {
  }

  lemma ProductFits(a: Int, b: Int)
    requires a >= 0 && b >= 0
    ensures 0 <= Times(a, b) < 0x4000_0000_0000_0000
  {
    hide Times;
    TimesSteps(0, b);
    TimesMonotone(0, a, b);
    TimesMonotone(a, 0x7FFF_FFFF, b);
    TimesCommutes(0x7FFF_FFFF, b);
    TimesMonotone(b, 0x7FFF_FFFF, 0x7FFF_FFFF);
    LargestProduct();
  }

  lemma LargestProduct()
    ensures Times(0x7FFF_FFFF, 0x7FFF_FFFF) < 0x4000_0000_0000_0000
  {
  }

  // ---------------------------------------------------------------- scaling

  /** For a value in bounds nothing wraps and the clamp never acts: the result is the rounded-down proportion. */
  lemma ScaleIsProportional(value: Int, source: Int, target: Int)
    requires 0 <= value < source && target > 0 && source > 1
    ensures Times(value, target - 1) >= 0
    ensures Unclamped(value, source, target) == Over(Times(value, target - 1), source - 1)
    ensures 0 <= Unclamped(value, source, target) < target
    ensures ScaleAxis(value, source, target) == Unclamped(value, source, target)
  {
    hide Times, Over, WrapInt, WrapLong;
    var n, d := Times(value, target - 1), source - 1;
    ProductFits(value, target - 1);
    WrapsNothing(n);
    var q := Over(n, d);
    OverBrackets(n, d);
    TimesMonotone(value, d, target - 1);
    TimesCommutes(d, target - 1);
    TimesSteps(target - 1, d);
    TimesReflects(q, target, d);
    WrapsNothing(q);
  }

  /** What the scaled value means: that many source steps fit below the value's share, one more does not. */
  lemma ScaleBracket(value: Int, source: Int, target: Int)
    requires 0 <= value < source && target > 0 && source > 1
    ensures var q := ScaleAxis(value, source, target);
            Times(q, source - 1) <= Times(value, target - 1) < Times(q, source - 1) + (source - 1)
  {
    hide Times, Over, ScaleAxis, Unclamped;
    ScaleIsProportional(value, source, target);
    OverBrackets(Times(value, target - 1), source - 1);
  }

  /** A point is mapped exactly if it is on the source screen, and then it is on the target screen. */
  lemma MappedInside(x: Int, y: Int, source: Bounds, target: Bounds)
    requires target.width > 0 && target.height > 0
    ensures MapPoint(x, y, source, target).Some? <==> IsPointInsideScreen(x, y, source)
    ensures MapPoint(x, y, source, target).Some? ==>
              var p := MapPoint(x, y, source, target).value;
              IsPointInsideScreen(p.x, p.y, target)
  {
    hide Unclamped, Times, Over;
    if IsPointInsideScreen(x, y, source) {
      if source.width > 1 {
        ScaleIsProportional(x, source.width, target.width);
      }
      if source.height > 1 {
        ScaleIsProportional(y, source.height, target.height);
      }
    }
  }

  /** Both coordinates are the rounded-down proportions of their own axes. */
  lemma MappedByAxis(x: Int, y: Int, source: Bounds, target: Bounds)
    requires target.width > 0 && target.height > 0
    ensures MapPoint(x, y, source, target).Some? <==> 0 <= x < source.width && 0 <= y < source.height
    ensures MapPoint(x, y, source, target).Some? ==>
              var p := MapPoint(x, y, source, target).value;
              && (if source.width == 1 then p.x == 0
                  else p.x * (source.width - 1) <= x * (target.width - 1) < (p.x + 1) * (source.width - 1))
              && (if source.height == 1 then p.y == 0
                  else p.y * (source.height - 1) <= y * (target.height - 1) < (p.y + 1) * (source.height - 1))
  {
    hide Unclamped, Over, ScaleAxis;
    if IsPointInsideScreen(x, y, source) {
      AxisBracket(x, source.width, target.width);
      AxisBracket(y, source.height, target.height);
    }
  }

  lemma AxisBracket(v: Int, source: Int, target: Int)
    requires 0 <= v < source && target > 0
    ensures var q := ScaleAxis(v, source, target);
            if source == 1 then q == 0 else q * (source - 1) <= v * (target - 1) < (q + 1) * (source - 1)
  {
    hide Unclamped, Over, ScaleAxis;
    if source == 1 {
      OnePixel(v, target);
    } else {
      ScaleBracket(v, source, target);
      TimesSteps(ScaleAxis(v, source, target), source - 1);
    }
  }

  /** A command's own space is taken only if both extents are given and positive; one alone is refused. */
  lemma SpaceIff(width: Option<Option<Int>>, height: Option<Option<Int>>, screen: Bounds, w: Int, h: Int)
    ensures CoordinateBounds(width, height, screen) == Some(Bounds(w, h)) <==>
              if width.None? && height.None? then w == screen.width && h == screen.height
              else width == Some(Some(w)) && height == Some(Some(h)) && w >= 1 && h >= 1
  {
  }

  lemma ScaleMonotone(v: Int, w: Int, source: Int, target: Int)
    requires 0 <= v <= w < source && target > 0
    ensures ScaleAxis(v, source, target) <= ScaleAxis(w, source, target)
  {
    hide Times, Unclamped;
    if source > 1 {
      var p, q, d := ScaleAxis(v, source, target), ScaleAxis(w, source, target), source - 1;
      ScaleBracket(v, source, target);
      ScaleBracket(w, source, target);
      TimesMonotone(v, w, target - 1);
      TimesSteps(q, d);
      TimesReflects(p, q + 1, d);
    }
  }

  /** The first and the last pixel stay the first and the last, unless the source has only one. */
  lemma ScaleEndpoints(source: Int, target: Int)
    requires source > 0 && target > 0
    ensures ScaleAxis(0, source, target) == 0
    ensures source > 1 ==> ScaleAxis(source - 1, source, target) == target - 1
  {
    hide Times, Over, Unclamped, ScaleAxis;
    if source > 1 {
      ScaleIsProportional(0, source, target);
      TimesSteps(0, target - 1);
      TimesSteps(0, source - 1);
      OverUnique(0, 0, source - 1);
      ScaleIsProportional(source - 1, source, target);
      TimesCommutes(source - 1, target - 1);
      OverUnique(Times(source - 1, target - 1), target - 1, source - 1);
    } else {
      OnePixel(0, target);
    }
  }

  lemma OnePixel(v: Int, target: Int)
    requires target > 0
    ensures ScaleAxis(v, 1, target) == 0
  {
  }

  /** A command without its own coordinate space names physical pixels, and they stay as they are. */
  lemma PhysicalCoordinatesStay(x: Int, y: Int, screen: Bounds)
    requires IsPointInsideScreen(x, y, screen)
    ensures CoordinateBounds(None, None, screen) == Some(screen)
    ensures MapPoint(x, y, screen, screen) == Some(Point(x, y))
  {
    hide ScaleAxis;
    SameScale(x, screen.width);
    SameScale(y, screen.height);
  }

  lemma SameScale(v: Int, extent: Int)
    requires 0 <= v < extent
    ensures ScaleAxis(v, extent, extent) == v
  {
    hide Times, Over, Unclamped;
    if extent > 1 {
      ScaleIsProportional(v, extent, extent);
      OverUnique(Times(v, extent - 1), v, extent - 1);
    }
  }

  /** Scaling up keeps different values apart. */
  lemma ScaleInjective(v: Int, w: Int, source: Int, target: Int)
    requires 0 <= v < w < source <= target
    ensures ScaleAxis(v, source, target) < ScaleAxis(w, source, target)
  {
    hide Times, Unclamped, ScaleAxis;
    var p: int, q: int, d := ScaleAxis(v, source, target), ScaleAxis(w, source, target), source - 1;
    ScaleBracket(v, source, target);
    ScaleBracket(w, source, target);
    TimesSteps(v, target - 1);
    TimesMonotone(v + 1, w, target - 1);
    TimesSteps(p, d);
    TimesSteps(q, d);
    TimesReflects(p + 1, q + 1, d);
  }

  /** Scaling up and back gives the value again exactly when its proportion was whole, else one less. */
  lemma ScaleUpAndBack(v: Int, source: Int, target: Int)
    requires 0 <= v < source <= target
    ensures 0 <= ScaleAxis(v, source, target) < target
    ensures ScaleAxis(ScaleAxis(v, source, target), target, source)
         == if source == 1 || Times(v, target - 1) % (source - 1) == 0 then v else v - 1
  {
    hide Times, Over, Unclamped, ScaleAxis;
    if source == 1 {
      OnePixel(v, target);
      BackToOnePixel(0, target);
    } else {
      var q, d, e := ScaleAxis(v, source, target), source - 1, target - 1;
      ScaleIsProportional(v, source, target);
      ScaleIsProportional(q, target, source);
      OverBrackets(Times(v, e), d);
      TimesSteps(v - 1, e);
      if Times(v, e) % d == 0 {
        OverUnique(Times(q, d), v, e);
      } else {
        TimesSteps(0, e);
        OverUnique(Times(q, d), v - 1, e);
      }
    }
  }

  lemma BackToOnePixel(v: Int, source: Int)
    requires source > 0
    ensures ScaleAxis(v, source, 1) == 0
  {
  }
}
