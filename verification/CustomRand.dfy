/** Sampling from a piecewise-linear cumulative distribution, over exact reals. */
module CustomRand {
  import opened Options

  /** A value and its percentile. */
  datatype Point = Point(x: real, y: real)

  predicate Increasing(cdf: seq<Point>) {
    forall i :: 1 <= i < |cdf| ==> cdf[i - 1].x < cdf[i].x && cdf[i - 1].y < cdf[i].y
  }

  predicate ValidCdf(cdf: seq<Point>) {
    |cdf| > 0 && cdf[0].y == 0.0 && cdf[|cdf| - 1].y == 100.0 && Increasing(cdf)
  }

  /** The line through (u0, v0) and (u1, v1), at u. */
  function Line(u0: real, v0: real, u1: real, v1: real, u: real): real
    requires u0 != u1
  {
    v0 + (v1 - v0) / (u1 - u0) * (u - u0)
  }

  /** The segment from a to b, read off at percentile y. */
  function ValueOn(a: Point, b: Point, y: real): real
    requires a.y != b.y
  {
    Line(a.y, a.x, b.y, b.x, y)
  }

  /** The same segment, read off at value x. */
  function PercentileOn(a: Point, b: Point, x: real): real
    requires a.x != b.x
  {
    Line(a.x, a.y, b.x, b.y, x)
  }

  function XOf(a: Point): real {
    a.x
  }

  function YOf(a: Point): real {
    a.y
  }

  /** The first segment, from i, that ends at or after v in the coordinate; the last one if there is none. */
  function Segment(cdf: seq<Point>, coordinate: Point -> real, v: real, i: nat): (k: nat)
    requires 0 < i < |cdf|
    ensures i <= k < |cdf| && (v <= coordinate(cdf[k]) || k == |cdf| - 1)
    ensures forall j :: i <= j < k ==> coordinate(cdf[j]) < v
    decreases |cdf| - i
  {
    if v <= coordinate(cdf[i]) || i == |cdf| - 1 then i else Segment(cdf, coordinate, v, i + 1)
  }

  lemma ValidHasSegment(cdf: seq<Point>)
    requires ValidCdf(cdf)
    ensures |cdf| >= 2
  {
  }

  /** The quantile function. */
  function Value(cdf: seq<Point>, y: real): real
    requires ValidCdf(cdf)
  {
    ValidHasSegment(cdf);
    var k := Segment(cdf, YOf, y, 1);
    ValueOn(cdf[k - 1], cdf[k], y)
  }

  /** The distribution function; -1 outside the values from 0 to the last. */
  function Percentile(cdf: seq<Point>, x: real): real
    requires ValidCdf(cdf)
  {
    ValidHasSegment(cdf);
    if x < 0.0 || x > cdf[|cdf| - 1].x then -1.0
    else
      var k := Segment(cdf, XOf, x, 1);
      PercentileOn(cdf[k - 1], cdf[k], x)
  }

  // ----- order

  lemma {:induction false} PointsInOrder(cdf: seq<Point>, i: nat, j: nat)
    requires Increasing(cdf) && i <= j < |cdf|
    ensures cdf[i].x <= cdf[j].x && cdf[i].y <= cdf[j].y
    ensures i < j ==> cdf[i].x < cdf[j].x && cdf[i].y < cdf[j].y
    decreases j - i
  {
    if i < j { PointsInOrder(cdf, i, j - 1); }
  }

  lemma ScaleLess(k: real, u: real, v: real)
    requires k > 0.0
    ensures u < v <==> k * u < k * v
    ensures u == v <==> k * u == k * v
  {
    if u < v { assert k * (v - u) > 0.0; }
    if v < u { assert k * (u - v) > 0.0; }
  }

  lemma Slope(p: real, q: real)
    requires p > 0.0 && q > 0.0
    ensures p / q > 0.0 && p / q * q == p
  {
    var k := p / q;
    assert k * q == p;
    if k <= 0.0 { NonNegativeProduct(-k, q); }
  }

  lemma LineAt(u0: real, v0: real, u1: real, v1: real, u: real, k: real)
    requires u0 < u1 && v0 < v1 && k == (v1 - v0) / (u1 - u0)
    ensures Line(u0, v0, u1, v1, u) == v0 + k * (u - u0)
    ensures k > 0.0 && k * (u1 - u0) == v1 - v0 && k * (u0 - u0) == 0.0
  {
    Slope(v1 - v0, u1 - u0);
  }

  /** A rising line is strictly increasing and meets its end points. */
  lemma LineRises(u0: real, v0: real, u1: real, v1: real, y: real, z: real)
    requires u0 < u1 && v0 < v1
    ensures y < z <==> Line(u0, v0, u1, v1, y) < Line(u0, v0, u1, v1, z)
    ensures Line(u0, v0, u1, v1, u0) == v0 && Line(u0, v0, u1, v1, u1) == v1
  {
    hide Line;
    var k := (v1 - v0) / (u1 - u0);
    LineAt(u0, v0, u1, v1, y, k);
    LineAt(u0, v0, u1, v1, z, k);
    LineAt(u0, v0, u1, v1, u0, k);
    LineAt(u0, v0, u1, v1, u1, k);
    ScaleLess(k, y - u0, z - u0);
  }

  lemma ValueOnRises(a: Point, b: Point, y: real, z: real)
    requires a.x < b.x && a.y < b.y
    ensures y < z <==> ValueOn(a, b, y) < ValueOn(a, b, z)
    ensures ValueOn(a, b, a.y) == a.x && ValueOn(a, b, b.y) == b.x
  {
    hide Line;
    LineRises(a.y, a.x, b.y, b.x, y, z);
  }

  lemma RatiosCancel(p: real, q: real, z: real)
    requires p > 0.0 && q > 0.0
    ensures p / q * (q / p * z) == z
  {
    Slope(p, q);
    Slope(q, p);
    var r, s := p / q, q / p;
    assert r * s * p == r * q;
    assert (r * s - 1.0) * p == 0.0;
    assert r * s == 1.0;
    RegroupProduct(r, s, z);
    assert p / q * (q / p * z) == r * (s * z);
  }

  lemma RegroupProduct(r: real, s: real, z: real)
    ensures r * (s * z) == (r * s) * z
  {
  }

  /** The line with its axes exchanged is its inverse. */
  lemma LineInverse(u0: real, v0: real, u1: real, v1: real, u: real)
    requires u0 < u1 && v0 < v1
    ensures Line(v0, u0, v1, u1, Line(u0, v0, u1, v1, u)) == u
  {
    RatiosCancel(u1 - u0, v1 - v0, u - u0);
  }

  /** The two readings of a segment undo each other. */
  lemma SegmentInverse(a: Point, b: Point, v: real)
    requires a.x < b.x && a.y < b.y
    ensures PercentileOn(a, b, ValueOn(a, b, v)) == v
    ensures ValueOn(a, b, PercentileOn(a, b, v)) == v
  {
    hide Line;
    LineInverse(a.y, a.x, b.y, b.x, v);
    LineInverse(a.x, a.y, b.x, b.y, v);
  }

  lemma PercentileOnRises(a: Point, b: Point, x: real, z: real)
    requires a.x < b.x && a.y < b.y
    ensures x < z <==> PercentileOn(a, b, x) < PercentileOn(a, b, z)
    ensures PercentileOn(a, b, a.x) == a.y && PercentileOn(a, b, b.x) == b.y
  {
    hide Line;
    LineRises(a.x, a.y, b.x, b.y, x, z);
  }

  /** Where the segment of a percentile lies. Below the first point the first segment goes on. */
  lemma ValueInSegment(cdf: seq<Point>, y: real) returns (k: nat)
    requires ValidCdf(cdf) && y <= 100.0
    ensures 0 < k < |cdf| && Value(cdf, y) == ValueOn(cdf[k - 1], cdf[k], y)
    ensures y <= cdf[k].y && Value(cdf, y) <= cdf[k].x
    ensures k > 1 ==> cdf[k - 1].y < y && cdf[k - 1].x < Value(cdf, y)
    ensures y >= 0.0 ==> cdf[k - 1].y <= y && cdf[k - 1].x <= Value(cdf, y)
  {
    hide Line;
    ValidHasSegment(cdf);
    k := Segment(cdf, YOf, y, 1);
    ValueOnRises(cdf[k - 1], cdf[k], cdf[k - 1].y, y);
    ValueOnRises(cdf[k - 1], cdf[k], y, cdf[k - 1].y);
    ValueOnRises(cdf[k - 1], cdf[k], cdf[k].y, y);
  }

  lemma PercentileInSegment(cdf: seq<Point>, x: real) returns (k: nat)
    requires ValidCdf(cdf) && 0.0 <= x <= cdf[|cdf| - 1].x
    ensures 0 < k < |cdf| && Percentile(cdf, x) == PercentileOn(cdf[k - 1], cdf[k], x)
    ensures x <= cdf[k].x && Percentile(cdf, x) <= cdf[k].y
    ensures k > 1 ==> cdf[k - 1].x < x && cdf[k - 1].y < Percentile(cdf, x)
    ensures k == 1 ==> (cdf[0].x <= x <==> 0.0 <= Percentile(cdf, x))
  {
    hide Line;
    ValidHasSegment(cdf);
    k := Segment(cdf, XOf, x, 1);
    PercentileOnRises(cdf[k - 1], cdf[k], cdf[k - 1].x, x);
    PercentileOnRises(cdf[k - 1], cdf[k], x, cdf[k - 1].x);
    PercentileOnRises(cdf[k - 1], cdf[k], cdf[k].x, x);
  }

  /** The quantile function rises strictly, across all segments, from the first value to the last. */
  lemma ValueRises(cdf: seq<Point>, y: real, z: real)
    requires ValidCdf(cdf) && y <= 100.0 && z <= 100.0
    ensures y < z <==> Value(cdf, y) < Value(cdf, z)
    ensures Value(cdf, 0.0) == cdf[0].x && Value(cdf, 100.0) == cdf[|cdf| - 1].x
  {
    hide Line;
    ValueStep(cdf, y, z);
    ValueStep(cdf, z, y);
    ValidHasSegment(cdf);
    var k := ValueInSegment(cdf, 100.0);
    PointsInOrder(cdf, k, |cdf| - 1);
    ValueOnRises(cdf[k - 1], cdf[k], y, z);
    k := ValueInSegment(cdf, 0.0);
    PointsInOrder(cdf, 0, k - 1);
    ValueOnRises(cdf[k - 1], cdf[k], y, z);
  }

  lemma ValueStep(cdf: seq<Point>, y: real, z: real)
    requires ValidCdf(cdf) && y <= 100.0 && z <= 100.0
    ensures y < z ==> Value(cdf, y) < Value(cdf, z)
    ensures y == z ==> Value(cdf, y) == Value(cdf, z)
  {
    hide Line, Value, ValueOn;
    if y < z {
      var k := ValueInSegment(cdf, y);
      var m := ValueInSegment(cdf, z);
      if k == m {
        ValueOnRises(cdf[k - 1], cdf[k], y, z);
      } else if k < m {
        PointsInOrder(cdf, k, m - 1);
      } else {
        PointsInOrder(cdf, m, k - 1);
        assert false;
      }
    }
  }

  /** The distribution function rises strictly as well, wherever it is defined. */
  lemma PercentileRises(cdf: seq<Point>, x: real, z: real)
    requires ValidCdf(cdf) && 0.0 <= x <= cdf[|cdf| - 1].x && 0.0 <= z <= cdf[|cdf| - 1].x
    ensures x < z <==> Percentile(cdf, x) < Percentile(cdf, z)
  {
    PercentileOrder(cdf, x, z);
    PercentileOrder(cdf, z, x);
  }

  lemma PercentileOrder(cdf: seq<Point>, x: real, z: real)
    requires ValidCdf(cdf) && 0.0 <= x <= cdf[|cdf| - 1].x && 0.0 <= z <= cdf[|cdf| - 1].x
    ensures x < z ==> Percentile(cdf, x) < Percentile(cdf, z)
  {
    hide Line, Percentile, PercentileOn;
    if x < z {
      var k := PercentileInSegment(cdf, x);
      var m := PercentileInSegment(cdf, z);
      if k == m {
        PercentileOnRises(cdf[k - 1], cdf[k], x, z);
      } else if k < m {
        PointsInOrder(cdf, k, m - 1);
      } else {
        PointsInOrder(cdf, m, k - 1);
        assert false;
      }
    }
  }

  /** Reading the percentile of a quantile that is not negative gives the percentile back. */
  lemma PercentileOfValue(cdf: seq<Point>, y: real)
    requires ValidCdf(cdf) && y <= 100.0 && Value(cdf, y) >= 0.0
    ensures Value(cdf, y) <= cdf[|cdf| - 1].x
    ensures Percentile(cdf, Value(cdf, y)) == y
  {
    hide Line, Value, Percentile, ValueOn, PercentileOn;
    var k := ValueInSegment(cdf, y);
    var x := Value(cdf, y);
    PointsInOrder(cdf, k, |cdf| - 1);
    var m := PercentileInSegment(cdf, x);
    if m < k {
      PointsInOrder(cdf, m, k - 1);
      assert false;
    } else if k < m {
      PointsInOrder(cdf, k, m - 1);
      assert false;
    }
    SegmentInverse(cdf[k - 1], cdf[k], y);
  }

  /** Reading the quantile of a percentile gives the value back; the percentile is not negative exactly
      from the first value on. */
  lemma ValueOfPercentile(cdf: seq<Point>, x: real)
    requires ValidCdf(cdf) && 0.0 <= x <= cdf[|cdf| - 1].x
    ensures Percentile(cdf, x) <= 100.0 && (0.0 <= Percentile(cdf, x) <==> cdf[0].x <= x)
    ensures Value(cdf, Percentile(cdf, x)) == x
  {
    hide Line, Value, Percentile, ValueOn, PercentileOn;
    var k := PercentileInSegment(cdf, x);
    var y := Percentile(cdf, x);
    PointsInOrder(cdf, 0, k - 1);
    PointsInOrder(cdf, k, |cdf| - 1);
    var m := ValueInSegment(cdf, y);
    if m < k {
      PointsInOrder(cdf, m, k - 1);
      assert false;
    } else if k < m {
      PointsInOrder(cdf, k, m - 1);
      assert false;
    }
    SegmentInverse(cdf[k - 1], cdf[k], x);
  }

  /** The readings are inverse at a percentile exactly when its quantile is not negative ... */
  lemma InverseAtIff(cdf: seq<Point>, y: real)
    requires ValidCdf(cdf) && 0.0 <= y <= 100.0
    ensures Percentile(cdf, Value(cdf, y)) == y <==> Value(cdf, y) >= 0.0
  {
    if Value(cdf, y) >= 0.0 {
      PercentileOfValue(cdf, y);
    }
  }

  /** ... so they are on all percentiles exactly for distributions without negative values. */
  lemma InverseIffNonNegative(cdf: seq<Point>)
    requires ValidCdf(cdf)
    ensures cdf[0].x >= 0.0 <==> forall y: real :: 0.0 <= y <= 100.0 ==> Percentile(cdf, Value(cdf, y)) == y
  {
    hide Value, Percentile;
    ValueRises(cdf, 0.0, 100.0);
    if cdf[0].x >= 0.0 {
      forall y: real | 0.0 <= y <= 100.0 ensures Percentile(cdf, Value(cdf, y)) == y {
        ValueRises(cdf, 0.0, y);
        ValueRises(cdf, y, 0.0);
        InverseAtIff(cdf, y);
      }
    } else {
      InverseAtIff(cdf, 0.0);
    }
  }

  /** An accepted distribution whose lowest percentile is not found again. */
  lemma NegativeValueIsLost()
    ensures var cdf := [Point(-10.0, 0.0), Point(5000.0, 100.0)];
            ValidCdf(cdf) && Value(cdf, 0.0) == -10.0 && Percentile(cdf, Value(cdf, 0.0)) == -1.0
  {
    var cdf := [Point(-10.0, 0.0), Point(5000.0, 100.0)];
    ValueRises(cdf, 0.0, 0.0);
  }

  // ----- areas

  /** Area under the line from a up to percentile y, in value times share. */
  function AreaOn(a: Point, b: Point, y: real): real
    requires a.y != b.y
  {
    0.5 * (a.x + ValueOn(a, b, y)) * (y - a.y) / 100.0
  }

  function SegmentArea(a: Point, b: Point): real {
    0.5 * (b.x + a.x) * (b.y - a.y) / 100.0
  }

  /** Integral of the quantile function over the segments from i up to percentile y. */
  function IntegralFrom(cdf: seq<Point>, y: real, i: nat): real
    requires Increasing(cdf) && i > 0
    decreases |cdf| - i
  {
    if i >= |cdf| then 0.0
    else if y <= cdf[i].y then AreaOn(cdf[i - 1], cdf[i], y)
    else SegmentArea(cdf[i - 1], cdf[i]) + IntegralFrom(cdf, y, i + 1)
  }

  function Integral(cdf: seq<Point>, y: real): real
    requires ValidCdf(cdf)
  {
    IntegralFrom(cdf, y, 1)
  }

  function MomentFrom(cdf: seq<Point>, i: nat): real
    requires i > 0
    decreases |cdf| - i
  {
    if i >= |cdf| then 0.0
    else (cdf[i].x + cdf[i - 1].x) / 2.0 * (cdf[i].y - cdf[i - 1].y) + MomentFrom(cdf, i + 1)
  }

  /** Mean of the distribution. */
  function Average(cdf: seq<Point>): real
    requires ValidCdf(cdf)
  {
    MomentFrom(cdf, 1) / 100.0
  }

  lemma FullArea(a: Point, b: Point)
    requires a.x < b.x && a.y < b.y
    ensures AreaOn(a, b, b.y) == SegmentArea(a, b) == (b.x + a.x) / 2.0 * (b.y - a.y) / 100.0
    ensures AreaOn(a, b, a.y) == 0.0
  {
    hide Line;
    ValueOnRises(a, b, a.y, b.y);
  }

  lemma {:induction false} IntegralIsMoment(cdf: seq<Point>, i: nat)
    requires ValidCdf(cdf) && 0 < i < |cdf|
    ensures IntegralFrom(cdf, 100.0, i) == MomentFrom(cdf, i) / 100.0
    decreases |cdf| - i
  {
    FullArea(cdf[i - 1], cdf[i]);
    if i < |cdf| - 1 {
      PointsInOrder(cdf, i, |cdf| - 1);
      IntegralIsMoment(cdf, i + 1);
    }
  }

  /** The integral over all percentiles is the mean. */
  lemma IntegralIsAverage(cdf: seq<Point>)
    requires ValidCdf(cdf)
    ensures Integral(cdf, 100.0) == Average(cdf)
  {
    ValidHasSegment(cdf);
    IntegralIsMoment(cdf, 1);
  }

  lemma Trapezoid(x: real, k: real, u: real, w: real)
    ensures (x + (x + k * w)) * w - (x + (x + k * u)) * u == ((x + k * u) + (x + k * w)) * (w - u)
  {
    assert (x + k * u) * w - (x + k * w) * u == x * w - x * u by {
      assert (k * u) * w == (k * w) * u;
    }
  }

  /** Inside a segment the area between two percentiles is that of a trapezoid. */
  lemma AreaBetween(a: Point, b: Point, y: real, z: real)
    requires a.x < b.x && a.y < b.y
    ensures AreaOn(a, b, z) - AreaOn(a, b, y) == 0.5 * (ValueOn(a, b, y) + ValueOn(a, b, z)) * (z - y) / 100.0
  {
    Trapezoid(a.x, (b.x - a.x) / (b.y - a.y), y - a.y, z - a.y);
  }

  /** An area between percentiles y and z that lies between the rectangles of height v and w. */
  predicate Between(v: real, w: real, y: real, z: real, area: real) {
    v * (z - y) / 100.0 <= area <= w * (z - y) / 100.0
  }

  lemma AreaBounds(a: Point, b: Point, y: real, z: real)
    requires a.x < b.x && a.y < b.y && y <= z
    ensures Between(ValueOn(a, b, y), ValueOn(a, b, z), y, z, AreaOn(a, b, z) - AreaOn(a, b, y))
  {
    AreaBetween(a, b, y, z);
    ValueOnRises(a, b, y, z);
    var v, w, d := ValueOn(a, b, y), ValueOn(a, b, z), z - y;
    if d > 0.0 {
      ScaleLess(d, v, 0.5 * (v + w));
      ScaleLess(d, 0.5 * (v + w), w);
    }
  }

  /** The quantile at a percentile, seen from a later segment. */
  lemma ValueFromSegment(cdf: seq<Point>, y: real, i: nat)
    requires ValidCdf(cdf) && 0 < i < |cdf| && cdf[i - 1].y <= y <= cdf[i].y
    ensures Value(cdf, y) == ValueOn(cdf[i - 1], cdf[i], y)
  {
    hide Line;
    PointsInOrder(cdf, 0, i - 1);
    PointsInOrder(cdf, i, |cdf| - 1);
    var k := ValueInSegment(cdf, y);
    if k < i {
      PointsInOrder(cdf, k, i - 1);
      ValueOnRises(cdf[k - 1], cdf[k], y, y);
      ValueOnRises(cdf[i - 1], cdf[i], y, y);
    } else if i < k {
      PointsInOrder(cdf, i, k - 1);
      assert false;
    }
  }

  lemma {:induction false} IntegralFromBounds(cdf: seq<Point>, y: real, z: real, i: nat)
    requires ValidCdf(cdf) && 0 < i < |cdf| && cdf[i - 1].y <= y <= z <= 100.0
    ensures Between(Value(cdf, y), Value(cdf, z), y, z, IntegralFrom(cdf, z, i) - IntegralFrom(cdf, y, i))
    decreases |cdf| - i
  {
    hide Value, ValueOn, AreaOn, SegmentArea, Between;
    var a, b := cdf[i - 1], cdf[i];
    PointsInOrder(cdf, i, |cdf| - 1);
    PointsInOrder(cdf, 0, i - 1);
    if z <= b.y {
      ValueFromSegment(cdf, y, i);
      ValueFromSegment(cdf, z, i);
      AreaBounds(a, b, y, z);
    } else {
      if b.y < y {
        IntegralFromBounds(cdf, y, z, i + 1);
      } else {
        var c := b.y;
        IntegralFromBounds(cdf, c, z, i + 1);
        FullArea(a, b);
        FullArea(cdf[i], cdf[i + 1]);
        AreaBounds(a, b, y, c);
        ValueFromSegment(cdf, y, i);
        ValueFromSegment(cdf, c, i);
        ValueRises(cdf, y, c);
        ValueRises(cdf, c, z);
        var p, q := AreaOn(a, b, c) - AreaOn(a, b, y), IntegralFrom(cdf, z, i + 1) - IntegralFrom(cdf, c, i + 1);
        assert IntegralFrom(cdf, z, i) - IntegralFrom(cdf, y, i) == p + q;
        JoinBounds(Value(cdf, y), Value(cdf, c), Value(cdf, z), y, c, z, p, q);
      }
    }
  }

  lemma JoinBounds(u: real, v: real, w: real, y: real, c: real, z: real, p: real, q: real)
    requires u <= v <= w && y <= c <= z
    requires Between(u, v, y, c, p) && Between(v, w, c, z, q)
    ensures Between(u, w, y, z, p + q)
  {
    NonNegativeProduct(v - u, z - c);
    NonNegativeProduct(w - v, c - y);
    Distribute(u, v, z - c);
    Distribute(v, w, c - y);
    assert u * (z - y) == u * (c - y) + u * (z - c);
    assert w * (z - y) == w * (c - y) + w * (z - c);
  }

  lemma NonNegativeProduct(a: real, b: real)
    requires a >= 0.0 && b >= 0.0
    ensures a * b >= 0.0
  {
  }

  lemma Distribute(a: real, b: real, c: real)
    ensures (b - a) * c == b * c - a * c
  {
  }

  /** Between two percentiles the integral lies between the rectangles of the lower and the upper value. */
  lemma IntegralBounds(cdf: seq<Point>, y: real, z: real)
    requires ValidCdf(cdf) && 0.0 <= y <= z <= 100.0
    ensures Value(cdf, y) * (z - y) / 100.0 <= Integral(cdf, z) - Integral(cdf, y) <= Value(cdf, z) * (z - y) / 100.0
  {
    hide Line;
    ValidHasSegment(cdf);
    IntegralFromBounds(cdf, y, z, 1);
  }

  lemma AreaAsWritten(a: Point, b: Point, y: real, area: real)
    requires a.y < b.y
    requires area == 0.5 * (a.x + a.x + (b.x - a.x) / (b.y - a.y) * (y - a.y)) * (y - a.y) / 100.0
    ensures area == AreaOn(a, b, y)
  {
    var t := (b.x - a.x) / (b.y - a.y) * (y - a.y);
    assert a.x + a.x + t == a.x + ValueOn(a, b, y);
  }

  // ----- the generator object

  class CustomRandom {
    var cdf: seq<Point>

    constructor ()
      ensures cdf == []
    {
      cdf := [];
    }

    static method TestCdf(cdf: seq<Point>) returns (ok: bool)
      requires |cdf| > 0
      ensures ok <==> ValidCdf(cdf)
    {
      if cdf[0].y != 0.0 || cdf[|cdf| - 1].y != 100.0 {
        return false;
      }
      for i := 1 to |cdf|
        invariant forall j :: 1 <= j < i ==> cdf[j - 1].x < cdf[j].x && cdf[j - 1].y < cdf[j].y
      {
        if cdf[i].y <= cdf[i - 1].y || cdf[i].x <= cdf[i - 1].x {
          return false;
        }
      }
      return true;
    }

    method SetCdf(points: seq<Point>) returns (ok: bool)
      requires |points| > 0
      modifies this
      ensures ok <==> ValidCdf(points)
      ensures cdf == if ok then points else old(cdf)
    {
      ok := TestCdf(points);
      if ok {
        cdf := points;
      }
    }

    method GetAvg() returns (r: real)
      requires ValidCdf(cdf)
      ensures r == Average(cdf)
    {
      var s := 0.0;
      var last := cdf[0];
      for i := 1 to |cdf|
        invariant last == cdf[i - 1] && s + MomentFrom(cdf, i) == MomentFrom(cdf, 1)
      {
        s := s + (cdf[i].x + last.x) / 2.0 * (cdf[i].y - last.y);
        last := cdf[i];
      }
      r := s / 100.0;
    }

    /** None where the original returns no value: above the last percentile. */
    method GetValueFromPercentile(y: real) returns (r: Option<real>)
      requires ValidCdf(cdf)
      ensures r == if y <= 100.0 then Some(Value(cdf, y)) else None
    {
      ValidHasSegment(cdf);
      for i := 1 to |cdf|
        invariant forall j :: 1 <= j < i ==> cdf[j].y < y
        invariant i < |cdf| ==> Segment(cdf, YOf, y, 1) == Segment(cdf, YOf, y, i)
      {
        if y <= cdf[i].y {
          PointsInOrder(cdf, i, |cdf| - 1);
          return Some(ValueOn(cdf[i - 1], cdf[i], y));
        }
      }
      return None;
    }

    method GetPercentileFromValue(x: real) returns (r: real)
      requires ValidCdf(cdf)
      ensures r == Percentile(cdf, x)
    {
      ValidHasSegment(cdf);
      if x < 0.0 || x > cdf[|cdf| - 1].x {
        return -1.0;
      }
      var i := 1;
      while x > cdf[i].x
        invariant 1 <= i < |cdf|
        invariant Segment(cdf, XOf, x, 1) == Segment(cdf, XOf, x, i)
        decreases |cdf| - i
      {
        i := i + 1;
      }
      return PercentileOn(cdf[i - 1], cdf[i], x);
    }

    method GetIntegralY(y: real) returns (s: real)
      requires ValidCdf(cdf)
      ensures s == Integral(cdf, y)
    {
      hide Line, ValueOn, AreaOn;
      s := 0.0;
      for i := 1 to |cdf|
        invariant s + IntegralFrom(cdf, y, i) == Integral(cdf, y)
      {
        var a, b := cdf[i - 1], cdf[i];
        if y <= b.y {
          var area := 0.5 * (a.x + a.x + (b.x - a.x) / (b.y - a.y) * (y - a.y)) * (y - a.y) / 100.0;
          assert area == AreaOn(a, b, y) by { AreaAsWritten(a, b, y, area); }
          s := s + area;
          return;
        } else {
          s := s + 0.5 * (b.x + a.x) * (b.y - a.y) / 100.0;
        }
      }
    }
  }
}
