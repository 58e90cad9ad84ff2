/** Size bins for plotting a flow-size distribution: a walk down the quantile function that steps one
    percentile or half the size, whichever is shorter. */
module FlowBins {
  import opened Options
  import opened CustomRand

  /** Each bin is smaller than the one before, and a bin above 1000 is followed by no less than its half. */
  predicate DescendingBins(bins: seq<int>) {
    forall i :: 0 < i < |bins| ==> bins[i] < bins[i - 1] && (bins[i - 1] > 1000 ==> bins[i - 1] / 2 <= bins[i])
  }

  function Reverse(s: seq<int>): (r: seq<int>)
    ensures |r| == |s| && forall i :: 0 <= i < |s| ==> r[i] == s[|s| - 1 - i]
  {
    if s == [] then [] else Reverse(s[1..]) + [s[0]]
  }

  /** A strictly descending list, reversed, is the list in ascending order. */
  lemma ReverseSorts(bins: seq<int>)
    requires DescendingBins(bins)
    ensures forall i :: 0 < i < |bins| ==> Reverse(bins)[i - 1] < Reverse(bins)[i]
    ensures multiset(Reverse(bins)) == multiset(bins)
  {
    ReverseKeepsElements(bins);
  }

  lemma {:induction false} ReverseKeepsElements(s: seq<int>)
    ensures multiset(Reverse(s)) == multiset(s)
  {
    if s != [] {
      ReverseKeepsElements(s[1..]);
      assert s == [s[0]] + s[1..];
    }
  }

  /** Rounded towards zero. */
  function Truncate(v: real): int {
    if v >= 0.0 then v.Floor else -((-v).Floor)
  }

  /** Truncation keeps the sign and drops less than one. */
  lemma TruncateTowardsZero(v: real)
    ensures v >= 0.0 ==> 0.0 <= Truncate(v) as real <= v < Truncate(v) as real + 1.0
    ensures v <= 0.0 ==> Truncate(v) as real - 1.0 < v <= Truncate(v) as real <= 0.0
  {
  }

  lemma TruncateRises(v: real, w: real)
    requires v <= w
    ensures Truncate(v) <= Truncate(w)
  {
  }

  /** The current size is the quantile at the current percentile, truncated. */
  predicate AtQuantile(cdf: seq<Point>, x: int, p: real)
    requires ValidCdf(cdf)
  {
    1.0 <= p <= 100.0 && x == Truncate(Value(cdf, p))
  }

  /** From bin b the walk goes to c: the quantile one percentile further down or, if that is less than half
      of a size above 1000, the half. */
  ghost predicate StepsTo(cdf: seq<Point>, b: int, c: int)
    requires ValidCdf(cdf)
  {
    exists p :: AtQuantile(cdf, b, p) && p > 1.0 && c == SizeBelow(cdf, b, p)
  }

  ghost function SizeBelow(cdf: seq<Point>, b: int, p: real): int
    requires ValidCdf(cdf)
  {
    var q := Truncate(Value(cdf, if p > 2.0 then p - 1.0 else 1.0));
    if q < b / 2 && b > 1000 then b / 2 else q
  }

  /** Each bin is a step from the one before, and the last is at the first percentile or a step from zero or
      less. */
  ghost predicate CoversQuantiles(cdf: seq<Point>, bins: seq<int>)
    requires ValidCdf(cdf)
  {
    && (forall i :: 0 < i < |bins| ==> StepsTo(cdf, bins[i - 1], bins[i]))
    && (bins != [] ==>
          var b := bins[|bins| - 1]; AtQuantile(cdf, b, 1.0) || exists c :: c <= 0 && StepsTo(cdf, b, c))
  }

  /** One percentile down, but not below the first. */
  function StepDown(p: real): real {
    if p > 2.0 then p - 1.0 else 1.0
  }

  function Ceiling(p: real): int {
    -((-p).Floor)
  }

  /** A step of one percentile does not raise the size, and lowers the rounded-up percentile. */
  lemma PercentileStep(cdf: seq<Point>, x: int, p: real)
    requires ValidCdf(cdf) && AtQuantile(cdf, x, p) && p > 1.0
    ensures Truncate(Value(cdf, StepDown(p))) <= x
    ensures 0 <= Ceiling(StepDown(p)) < Ceiling(p)
  {
    hide Value;
    ValueRises(cdf, StepDown(p), p);
    TruncateRises(Value(cdf, StepDown(p)), Value(cdf, p));
  }

  /** Where one percentile would more than halve a size above 1000, the walk goes to the half instead,
      which lies on the distribution, between the two. */
  lemma HalvingStep(cdf: seq<Point>, x: int, p: real)
    requires ValidCdf(cdf) && AtQuantile(cdf, x, p) && p > 1.0
    requires x > 1000 && Truncate(Value(cdf, StepDown(p))) < x / 2
    ensures var half := x / 2;
            && AtQuantile(cdf, half, Percentile(cdf, half as real)) && half < x
            && StepDown(p) < Percentile(cdf, half as real) < p
  {
    hide Value, Percentile;
    var v := (x / 2) as real;
    ValueRises(cdf, 0.0, StepDown(p));
    ValueRises(cdf, 100.0, p);
    ValueOfPercentile(cdf, v);
    ValueRises(cdf, StepDown(p), Percentile(cdf, v));
    ValueRises(cdf, Percentile(cdf, v), p);
  }

  /** The size and percentile after one round of the loop. */
  ghost predicate IsNext(cdf: seq<Point>, x: int, p: real, x1: int, p1: real)
    requires ValidCdf(cdf)
  {
    && AtQuantile(cdf, x1, p1) && x1 <= x && (x > 1000 ==> x / 2 <= x1)
    && (x1 < x || 0 <= Ceiling(p1) < Ceiling(p))
    && StepsTo(cdf, x, x1)
  }

  lemma NextIs(cdf: seq<Point>, x: int, p: real)
    requires ValidCdf(cdf) && AtQuantile(cdf, x, p) && p > 1.0
    ensures var q := StepDown(p);
            var y := Truncate(Value(cdf, q));
            && q <= 100.0
            && if y < x / 2 && x > 1000
               then IsNext(cdf, x, p, x / 2, Percentile(cdf, (x / 2) as real))
                   && Percentile(cdf, (x / 2) as real) >= 0.0
               else IsNext(cdf, x, p, y, q) && q >= 0.0
  {
    hide Value, Percentile, Ceiling;
    var q := StepDown(p);
    PercentileStep(cdf, x, p);
    assert AtQuantile(cdf, x, p) && p > 1.0 && SizeBelow(cdf, x, p) == if Truncate(Value(cdf, q)) < x / 2 && x > 1000
      then x / 2 else Truncate(Value(cdf, q));
    if Truncate(Value(cdf, q)) < x / 2 && x > 1000 {
      HalvingStep(cdf, x, p);
    }
  }

  /** The bins so far, with the current size still to be added. */
  ghost predicate Walked(cdf: seq<Point>, down: seq<int>, x: int)
    requires ValidCdf(cdf)
  {
    && DescendingBins(down) && (forall i :: 0 <= i < |down| ==> down[i] > 0)
    && (forall i :: 0 < i < |down| ==> StepsTo(cdf, down[i - 1], down[i]))
    && var top := Truncate(Value(cdf, 100.0));
       if down == [] then x == top
       else
         var last := down[|down| - 1];
         down[0] == top && x <= last && (last > 1000 ==> last / 2 <= x) && (x < last ==> StepsTo(cdf, last, x))
  }

  /** The current size is added unless it is the last bin already. */
  function AddBin(down: seq<int>, x: int): seq<int> {
    if |down| == 0 || x != down[|down| - 1] then down + [x] else down
  }

  lemma AddKeepsWalk(cdf: seq<Point>, down: seq<int>, x: int)
    requires ValidCdf(cdf) && Walked(cdf, down, x) && x > 0
    ensures Walked(cdf, AddBin(down, x), x) && AddBin(down, x) != [] && AddBin(down, x)[|AddBin(down, x)| - 1] == x
  {
    hide Value, ValidCdf, StepsTo;
  }

  lemma NextKeepsWalk(cdf: seq<Point>, down: seq<int>, x: int, p: real, x1: int, p1: real)
    requires ValidCdf(cdf) && Walked(cdf, down, x) && IsNext(cdf, x, p, x1, p1)
    requires down != [] && down[|down| - 1] == x
    ensures Walked(cdf, down, x1) && AtQuantile(cdf, x1, p1) && p1 >= 1.0
    ensures x1 <= x && (x1 < x || 0 <= Ceiling(p1) < Ceiling(p))
  {
    hide Value, ValidCdf, Ceiling, StepsTo;
  }

  /** The bins, in ascending order. The error exit of the original is never taken. */
  method GenerateBins(rand: CustomRandom) returns (bins: seq<int>, error: bool)
    requires ValidCdf(rand.cdf)
    ensures !error
    ensures exists down :: DescendingBins(down) && CoversQuantiles(rand.cdf, down) && bins == Reverse(down)
    ensures forall i :: 0 <= i < |bins| ==> bins[i] > 0
    ensures var top := Truncate(Value(rand.cdf, 100.0));
            if top > 0 then bins != [] && bins[|bins| - 1] == top else bins == []
  {
    hide Value, Percentile, ValidCdf, AtQuantile, Ceiling, IsNext, Walked, DescendingBins, CoversQuantiles;
    error := false;
    var down := [];
    var top := rand.GetValueFromPercentile(100.0);
    var x := Truncate(top.value);
    var p := 100.0;
    WalkStarts(rand.cdf);
    while x > 0
      invariant 1.0 <= p && AtQuantile(rand.cdf, x, p) && Walked(rand.cdf, down, x)
      decreases x, Ceiling(p)
    {
      AddKeepsWalk(rand.cdf, down, x);
      if |down| == 0 || x != down[|down| - 1] {
        down := down + [x];
      }
      var p1: real;
      if p > 2.0 {
        p1 := p - 1.0;
      } else if p > 1.0 {
        p1 := 1.0;
      } else {
        break;
      }
      NextIs(rand.cdf, x, p);
      var v := rand.GetValueFromPercentile(p1);
      var x1 := Truncate(v.value);
      if x1 < x / 2 && x > 1000 {
        x1 := x / 2;
        p1 := rand.GetPercentileFromValue(x1 as real);
      }
      if p1 < 0.0 {
        error := true;
        return;
      }
      NextKeepsWalk(rand.cdf, down, x, p, x1, p1);
      x, p := x1, p1;
    }
    WalkEnds(rand.cdf, down, x, p);
    ReverseSorts(down);
    bins := Reverse(down);
  }

  lemma WalkStarts(cdf: seq<Point>)
    requires ValidCdf(cdf)
    ensures AtQuantile(cdf, Truncate(Value(cdf, 100.0)), 100.0)
    ensures Walked(cdf, [], Truncate(Value(cdf, 100.0)))
  {
    hide Value;
  }

  lemma WalkEnds(cdf: seq<Point>, down: seq<int>, x: int, p: real)
    requires ValidCdf(cdf) && Walked(cdf, down, x) && AtQuantile(cdf, x, p)
    requires x <= 0 || (p <= 1.0 && down != [] && down[|down| - 1] == x)
    ensures DescendingBins(down) && (forall i :: 0 <= i < |down| ==> down[i] > 0) && CoversQuantiles(cdf, down)
    ensures var top := Truncate(Value(cdf, 100.0)); if down == [] then x == top else down[0] == top
  {
    hide Value, StepsTo;
  }
}
