/** Flow-completion-time analysis: samples are sorted by flow size, cut into slices, and each slice is
    sorted again, in place, by slowdown to read off its quantiles. */
module FctAnalysis {
  import opened Options

  datatype Sample = Sample(size: nat, slowdown: real)

  function BySize(x: Sample): real {
    x.size as real
  }

  function BySlowdown(x: Sample): real {
    x.slowdown
  }

  predicate SortedBy(s: seq<Sample>, key: Sample -> real) {
    forall i, j :: 0 <= i < j < |s| ==> key(s[i]) <= key(s[j])
  }

  // ----- sorting a range, with the guarantees of the library sort

  function Insert(s: seq<Sample>, x: Sample, key: Sample -> real): seq<Sample> {
    if s == [] || key(x) <= key(s[0]) then [x] + s else [s[0]] + Insert(s[1..], x, key)
  }

  function Sort(s: seq<Sample>, key: Sample -> real): seq<Sample> {
    if s == [] then [] else Insert(Sort(s[1..], key), s[0], key)
  }

  lemma {:induction false} InsertElements(s: seq<Sample>, x: Sample, key: Sample -> real)
    ensures multiset(Insert(s, x, key)) == multiset(s) + multiset{x}
  {
    if s != [] {
      assert s == [s[0]] + s[1..];
      if key(x) > key(s[0]) {
        InsertElements(s[1..], x, key);
      }
    }
  }

  lemma {:induction false} InsertSorts(s: seq<Sample>, x: Sample, key: Sample -> real)
    requires SortedBy(s, key)
    ensures SortedBy(Insert(s, x, key), key)
  {
    if s != [] {
      if key(x) > key(s[0]) {
        var t := Insert(s[1..], x, key);
        InsertSorts(s[1..], x, key);
        InsertElements(s[1..], x, key);
        TailBounds(s, key);
        hide SortedBy, Insert;
        FrontSorts(s[0], t, key);
      } else {
        TailBounds(s, key);
        hide SortedBy, Insert;
        FrontSorts(x, s, key);
      }
    } else {
      assert SortedBy([x], key);
    }
  }

  lemma TailBounds(s: seq<Sample>, key: Sample -> real)
    requires s != [] && SortedBy(s, key)
    ensures SortedBy(s[1..], key)
    ensures forall y :: y in multiset(s[1..]) || y in multiset(s) ==> key(s[0]) <= key(y)
  {
    forall y | y in multiset(s) ensures key(s[0]) <= key(y) {
      var i :| 0 <= i < |s| && s[i] == y;
    }
    assert s == [s[0]] + s[1..];
  }

  lemma FrontSorts(x: Sample, s: seq<Sample>, key: Sample -> real)
    requires SortedBy(s, key) && forall y :: y in multiset(s) ==> key(x) <= key(y)
    ensures SortedBy([x] + s, key)
  {
    forall i | 0 <= i < |s| ensures key(x) <= key(s[i]) {
      assert s[i] in multiset(s);
    }
  }

  lemma {:induction false} SortSorts(s: seq<Sample>, key: Sample -> real)
    ensures SortedBy(Sort(s, key), key) && multiset(Sort(s, key)) == multiset(s) && |Sort(s, key)| == |s|
  {
    hide SortedBy, Insert;
    if s != [] {
      SortSorts(s[1..], key);
      InsertSorts(Sort(s[1..], key), s[0], key);
      InsertElements(Sort(s[1..], key), s[0], key);
      assert s == [s[0]] + s[1..];
    } else {
      NothingSorted(key);
    }
    assert |multiset(Sort(s, key))| == |multiset(s)|;
  }

  lemma NothingSorted(key: Sample -> real)
    ensures SortedBy([], key)
  {
  }

  /** The seq after sorting positions l to r. */
  ghost predicate RangeSorted(before: seq<Sample>, after: seq<Sample>, l: nat, r: nat, key: Sample -> real) {
    && |before| == |after| && l <= r <= |before|
    && after[..l] == before[..l] && after[r..] == before[r..]
    && SortedBy(after[l..r], key) && multiset(after[l..r]) == multiset(before[l..r])
  }

  method SortRange(a: array<Sample>, l: nat, r: nat, key: Sample -> real)
    requires l <= r <= a.Length
    modifies a
    ensures RangeSorted(old(a[..]), a[..], l, r, key)
  {
    hide Sort, SortedBy;
    ghost var before := a[..];
    var s := Sort(a[l..r], key);
    SortSorts(a[l..r], key);
    forall i | l <= i < r {
      a[i] := s[i - l];
    }
    assert a[..][l..r] == s && a[..][..l] == before[..l] && a[..][r..] == before[r..];
    assert before[l..r] == old(a[l..r]);
  }

  // ----- slices

  /** Positions b to e hold what they held after the sort by size, now in order of slowdown. */
  ghost predicate IsSlice(sorted: seq<Sample>, now: seq<Sample>, b: nat, e: nat) {
    && b <= e <= |now| == |sorted|
    && multiset(now[b..e]) == multiset(sorted[b..e]) && SortedBy(now[b..e], BySlowdown)
  }

  /** The slices between successive bounds are done; everything after the last bound is untouched. */
  ghost predicate Sliced(sorted: seq<Sample>, now: seq<Sample>, bounds: seq<nat>) {
    && bounds != [] && bounds[0] == 0 && bounds[|bounds| - 1] <= |now| == |sorted|
    && (forall i :: 0 < i < |bounds| ==> bounds[i] <= bounds[|bounds| - 1])
    && (forall i :: 0 < i < |bounds| ==> IsSlice(sorted, now, bounds[i - 1], bounds[i]))
    && now[bounds[|bounds| - 1]..] == sorted[bounds[|bounds| - 1]..]
    && multiset(now) == multiset(sorted)
  }

  lemma SliceStep(sorted: seq<Sample>, before: seq<Sample>, now: seq<Sample>, bounds: seq<nat>, r: nat)
    requires Sliced(sorted, before, bounds)
    requires RangeSorted(before, now, bounds[|bounds| - 1], r, BySlowdown)
    ensures Sliced(sorted, now, bounds + [r])
  {
    hide SortedBy;
    var l := bounds[|bounds| - 1];
    var bounds' := bounds + [r];
    forall i | 0 < i < |bounds'| ensures IsSlice(sorted, now, bounds'[i - 1], bounds'[i]) && bounds'[i] <= r {
      if i < |bounds| {
        assert IsSlice(sorted, before, bounds[i - 1], bounds[i]);
        SameSlice(before, now, l, bounds[i - 1], bounds[i]);
      } else {
        assert before[l..r] == before[l..][..r - l] && sorted[l..r] == sorted[l..][..r - l];
      }
    }
    assert now[r..] == before[l..][r - l..] == sorted[r..];
    assert before == before[..l] + before[l..r] + before[r..];
    assert now == now[..l] + now[l..r] + now[r..];
  }

  lemma SameSlice(before: seq<Sample>, now: seq<Sample>, l: nat, b: nat, e: nat)
    requires b <= e <= l <= |before| && l <= |now| && now[..l] == before[..l]
    ensures now[b..e] == before[b..e]
  {
    assert now[..l][b..e] == now[b..e] && before[..l][b..e] == before[b..e];
  }

  /** A slice holds only samples that the sort by size put there. */
  lemma SliceMember(sorted: seq<Sample>, now: seq<Sample>, b: nat, e: nat, k: nat) returns (m: nat)
    requires IsSlice(sorted, now, b, e) && b <= k < e
    ensures b <= m < e && now[k] == sorted[m]
  {
    assert now[b..e][k - b] in multiset(sorted[b..e]);
    var j :| 0 <= j < e - b && sorted[b..e][j] == now[k];
    m := b + j;
  }

  /** The index that is read for a percentage. */
  function Rank(l: nat, r: nat, percent: nat): nat
    requires l <= r
  {
    l + (r - l) * percent / 100
  }

  lemma RanksInSlice(l: nat, r: nat)
    requires l < r
    ensures l <= Rank(l, r, 50) <= Rank(l, r, 95) <= Rank(l, r, 99) < r
  {
  }

  /** In a slice sorted by slowdown the value at position k is the order statistic of rank k - l: the
      samples up to it are no slower, those from it on no faster. */
  lemma OrderStatistic(now: seq<Sample>, l: nat, r: nat, k: nat)
    requires l <= k < r <= |now| && SortedBy(now[l..r], BySlowdown)
    ensures forall i :: l <= i <= k ==> now[i].slowdown <= now[k].slowdown
    ensures forall i :: k <= i < r ==> now[k].slowdown <= now[i].slowdown
  {
    var s := now[l..r];
    forall i | l <= i < r
      ensures (i <= k ==> now[i].slowdown <= now[k].slowdown) && (k <= i ==> now[k].slowdown <= now[i].slowdown)
    {
      assert s[i - l] == now[i] && s[k - l] == now[k];
      assert i < k ==> BySlowdown(s[i - l]) <= BySlowdown(s[k - l]);
      assert k < i ==> BySlowdown(s[k - l]) <= BySlowdown(s[i - l]);
    }
  }

  /** The three quantiles of a slice do not decrease. */
  lemma QuantilesInOrder(now: seq<Sample>, l: nat, r: nat)
    requires l < r <= |now| && SortedBy(now[l..r], BySlowdown)
    ensures Rank(l, r, 99) < r
    ensures now[Rank(l, r, 50)].slowdown <= now[Rank(l, r, 95)].slowdown <= now[Rank(l, r, 99)].slowdown
  {
    RanksInSlice(l, r);
    OrderStatistic(now, l, r, Rank(l, r, 95));
  }

  /** A row of the result. A read outside the array, which is undefined in the original, gives None. */
  datatype Row = Row(size: nat, p50: Option<real>, p95: Option<real>, p99: Option<real>)

  function ReadAt(s: seq<Sample>, k: nat): Option<real> {
    if k < |s| then Some(s[k].slowdown) else None
  }

  function RowOf(size: nat, s: seq<Sample>, l: nat, r: nat): Row
    requires l <= r
  {
    Row(size, ReadAt(s, Rank(l, r, 50)), ReadAt(s, Rank(l, r, 95)), ReadAt(s, Rank(l, r, 99)))
  }

  // ----- slices by size steps

  /** Larger than all of the first i steps. */
  predicate Above(steps: seq<nat>, i: nat, size: nat)
    requires i <= |steps|
  {
    forall j :: 0 <= j < i ==> steps[j] < size
  }

  /** The sizes between successive bounds are those of the step and of no earlier one. */
  ghost predicate SizesMatch(steps: seq<nat>, n: nat, sorted: seq<Sample>, bounds: seq<nat>)
    requires n <= |steps|
  {
    && |bounds| == n + 1
    && (forall i, k :: 0 <= i < n && bounds[i] <= k < bounds[i + 1] && k < |sorted| ==>
          Above(steps, i, sorted[k].size) && sorted[k].size <= steps[i])
    && (forall k :: bounds[n] <= k < |sorted| ==> Above(steps, n, sorted[k].size))
  }

  /** The row of a step is right for the slice between b and e. For an empty slice all reads fall on the
      sample behind it in order of size, if there is one. */
  ghost predicate RowFits(row: Row, size: nat, sorted: seq<Sample>, now: seq<Sample>, b: nat, e: nat) {
    b <= e <= |now| == |sorted| && row == RowOf(size, if b < e then now else sorted, b, e)
  }

  ghost predicate RowsFit(rows: seq<Row>, sizes: seq<nat>, sorted: seq<Sample>, now: seq<Sample>, bounds: seq<nat>) {
    && |rows| <= |sizes| && |bounds| == |rows| + 1
    && forall i :: 0 <= i < |rows| ==> RowFits(rows[i], sizes[i], sorted, now, bounds[i], bounds[i + 1])
  }

  /** The value at the percentage is in the row: of the samples in the slice, those before it are no
      slower and those after it no faster. */
  ghost predicate ReadsQuantile(value: Option<real>, percent: nat, now: seq<Sample>, b: nat, e: nat) {
    exists k :: b <= k < e <= |now| && k == b + (e - b) * percent / 100 && value == Some(now[k].slowdown)
                && (forall i :: b <= i <= k ==> now[i].slowdown <= now[k].slowdown)
                && (forall i :: k <= i < e ==> now[k].slowdown <= now[i].slowdown)
  }

  ghost predicate ReadsQuantiles(row: Row, now: seq<Sample>, b: nat, e: nat) {
    && ReadsQuantile(row.p50, 50, now, b, e)
    && ReadsQuantile(row.p95, 95, now, b, e)
    && ReadsQuantile(row.p99, 99, now, b, e)
    && row.p50.value <= row.p95.value <= row.p99.value
  }

  lemma RowReads(size: nat, now: seq<Sample>, b: nat, e: nat)
    requires b < e <= |now| && SortedBy(now[b..e], BySlowdown)
    ensures ReadsQuantiles(RowOf(size, now, b, e), now, b, e)
  {
    hide SortedBy;
    QuantilesInOrder(now, b, e);
    RanksInSlice(b, e);
    OrderStatistic(now, b, e, Rank(b, e, 50));
    OrderStatistic(now, b, e, Rank(b, e, 95));
    OrderStatistic(now, b, e, Rank(b, e, 99));
  }

  /** What lies behind a bound is above all steps up to it. */
  lemma {:induction false} BehindIsAbove(steps: seq<nat>, n: nat, sorted: seq<Sample>, bounds: seq<nat>, i: nat, k: nat)
    requires n <= |steps| && SizesMatch(steps, n, sorted, bounds) && i <= n && bounds[i] <= k < |sorted|
    ensures Above(steps, i, sorted[k].size)
    decreases n - i
  {
    if i < n {
      if k >= bounds[i + 1] {
        BehindIsAbove(steps, n, sorted, bounds, i + 1, k);
      }
    }
  }

  lemma {:induction false} SliceAround(bounds: seq<nat>, k: nat) returns (j: nat)
    requires bounds != [] && bounds[0] <= k < bounds[|bounds| - 1]
    ensures j + 1 < |bounds| && bounds[j] <= k < bounds[j + 1]
    decreases |bounds|
  {
    if bounds[|bounds| - 2] <= k {
      j := |bounds| - 2;
    } else {
      j := SliceAround(bounds[..|bounds| - 1], k);
    }
  }

  lemma SliceSizes(steps: seq<nat>, sorted: seq<Sample>, now: seq<Sample>, bounds: seq<nat>, i: nat, k: nat)
    requires SizesMatch(steps, |steps|, sorted, bounds) && Sliced(sorted, now, bounds)
    requires i < |steps| && bounds[i] <= k < bounds[i + 1] && k < |now|
    ensures Above(steps, i, now[k].size) && now[k].size <= steps[i]
  {
    hide SortedBy;
    assert IsSlice(sorted, now, bounds[i], bounds[i + 1]);
    var m := SliceMember(sorted, now, bounds[i], bounds[i + 1], k);
  }

  /** The slices partition the samples up to the last step: a sample is in a slice, after all sorting,
      exactly when the step of the slice is the first that its size does not exceed. */
  lemma SampleInItsSlice(steps: seq<nat>, sorted: seq<Sample>, now: seq<Sample>, bounds: seq<nat>, i: nat, k: nat)
    requires SizesMatch(steps, |steps|, sorted, bounds) && Sliced(sorted, now, bounds)
    requires i < |steps| && k < |now|
    ensures bounds[i] <= k < bounds[i + 1] <==> Above(steps, i, now[k].size) && now[k].size <= steps[i]
  {
    hide SortedBy, IsSlice;
    if bounds[i] <= k < bounds[i + 1] {
      SliceSizes(steps, sorted, now, bounds, i, k);
    }
    var end := bounds[|steps|];
    if k < end {
      var j := SliceAround(bounds, k);
      SliceSizes(steps, sorted, now, bounds, j, k);
    } else {
      assert now[end..][k - end] == sorted[end..][k - end];
    }
  }

  // ----- which slices are empty, by the samples alone

  /** Some sample has this step as the first that its size does not exceed. */
  ghost predicate HasOwn(input: seq<Sample>, steps: seq<nat>, i: nat)
    requires i < |steps|
  {
    exists x :: x in input && Above(steps, i, x.size) && x.size <= steps[i]
  }

  /** No sample exceeds all earlier steps. */
  ghost predicate NoneAbove(input: seq<Sample>, steps: seq<nat>, i: nat)
    requires i <= |steps|
  {
    forall x :: x in input ==> !Above(steps, i, x.size)
  }

  /** Position k, in order of size, lies behind a bound exactly when its size is above all steps up to it. */
  lemma {:induction false} BehindIffAbove(steps: seq<nat>, n: nat, sorted: seq<Sample>, bounds: seq<nat>, i: nat,
                                          k: nat)
    requires n <= |steps| && SizesMatch(steps, n, sorted, bounds) && i <= n && k < |sorted| && bounds[0] == 0
    ensures bounds[i] <= k <==> Above(steps, i, sorted[k].size)
  {
    if bounds[i] <= k {
      BehindIsAbove(steps, n, sorted, bounds, i, k);
    } else if k < bounds[i - 1] {
      BehindIffAbove(steps, n, sorted, bounds, i - 1, k);
    }
  }

  /** A slice is empty exactly when no sample has its step as the first not exceeded, and at the end of the
      array exactly when no sample exceeds all earlier steps. */
  lemma SliceByInput(input: seq<Sample>, steps: seq<nat>, sorted: seq<Sample>, now: seq<Sample>, bounds: seq<nat>,
                     i: nat)
    requires multiset(sorted) == multiset(input) && i < |steps|
    requires SizesMatch(steps, |steps|, sorted, bounds) && Sliced(sorted, now, bounds)
    ensures bounds[i] <= bounds[i + 1] <= |sorted|
    ensures bounds[i] < bounds[i + 1] <==> HasOwn(input, steps, i)
    ensures bounds[i] == |sorted| <==> NoneAbove(input, steps, i)
  {
    hide SortedBy, SizesMatch, Above;
    SizesAligned(steps, sorted, bounds);
    assert IsSlice(sorted, now, bounds[i], bounds[i + 1]);
    forall k | 0 <= k < |sorted| ensures sorted[k] in input
      ensures bounds[i] <= k <==> Above(steps, i, sorted[k].size)
      ensures bounds[i + 1] <= k <==> Above(steps, i, sorted[k].size) && steps[i] < sorted[k].size
    {
      assert sorted[k] in multiset(sorted);
      BehindIffAbove(steps, |steps|, sorted, bounds, i, k);
      BehindIffAbove(steps, |steps|, sorted, bounds, i + 1, k);
      AboveStep(steps, i, sorted[k].size);
    }
    forall x | x in input ensures x in sorted {
      assert x in multiset(input);
    }
    if bounds[i] < |sorted| {
      assert sorted[bounds[i]] in input;
    }
  }

  lemma SizesAligned(steps: seq<nat>, sorted: seq<Sample>, bounds: seq<nat>)
    requires SizesMatch(steps, |steps|, sorted, bounds)
    ensures |bounds| == |steps| + 1
  {
  }

  lemma AboveStep(steps: seq<nat>, i: nat, size: nat)
    requires i < |steps|
    ensures Above(steps, i + 1, size) <==> Above(steps, i, size) && steps[i] < size
  {
  }

  /** x is a smallest sample above the first i steps. */
  ghost predicate IsNextAbove(input: seq<Sample>, steps: seq<nat>, i: nat, x: Sample)
    requires i <= |steps|
  {
    x in input && Above(steps, i, x.size) && forall y :: y in input && Above(steps, i, y.size) ==> x.size <= y.size
  }

  /** The row of a step, by the samples alone: the quantiles of its slice if a sample has this step as the
      first not exceeded; otherwise three times the slowdown of a next larger sample; and if there is none,
      nothing, for all three reads are outside the array. */
  lemma RowByInput(row: Row, input: seq<Sample>, steps: seq<nat>, i: nat, sorted: seq<Sample>, now: seq<Sample>,
                   bounds: seq<nat>)
    requires multiset(sorted) == multiset(input) && SortedBy(sorted, BySize)
    requires i < |steps| && SizesMatch(steps, |steps|, sorted, bounds) && Sliced(sorted, now, bounds)
    requires RowFits(row, steps[i], sorted, now, bounds[i], bounds[i + 1])
    ensures row.size == steps[i]
    ensures HasOwn(input, steps, i) ==> ReadsQuantiles(row, now, bounds[i], bounds[i + 1])
    ensures !HasOwn(input, steps, i) && !NoneAbove(input, steps, i) ==>
              exists x :: IsNextAbove(input, steps, i, x) && steps[i] < x.size
                          && row.p50 == row.p95 == row.p99 == Some(x.slowdown)
    ensures NoneAbove(input, steps, i) ==> row.p50 == row.p95 == row.p99 == None
    ensures row.p50 == None <==> NoneAbove(input, steps, i)
  {
    var b, e := bounds[i], bounds[i + 1];
    hide SizesMatch, HasOwn, NoneAbove, ReadsQuantiles, SortedBy, IsNextAbove;
    SliceByInput(input, steps, sorted, now, bounds, i);
    if b < e {
      assert IsSlice(sorted, now, b, e);
      RowReads(row.size, now, b, e);
      QuantilesPresent(row, now, b, e);
    } else if b < |sorted| {
      NextAboveAt(input, steps, i, sorted, bounds);
    }
  }

  lemma QuantilesPresent(row: Row, now: seq<Sample>, b: nat, e: nat)
    requires ReadsQuantiles(row, now, b, e)
    ensures row.p50.Some? && row.p95.Some? && row.p99.Some?
  {
  }

  lemma NextAboveAt(input: seq<Sample>, steps: seq<nat>, i: nat, sorted: seq<Sample>, bounds: seq<nat>)
    requires multiset(sorted) == multiset(input) && SortedBy(sorted, BySize)
    requires i < |steps| && SizesMatch(steps, |steps|, sorted, bounds) && bounds[0] == 0
    requires bounds[i] == bounds[i + 1] < |sorted|
    ensures IsNextAbove(input, steps, i, sorted[bounds[i]]) && steps[i] < sorted[bounds[i]].size
  {
    hide SizesMatch, Above;
    SizesAligned(steps, sorted, bounds);
    var b := bounds[i];
    assert sorted[b] in multiset(sorted);
    BehindIffAbove(steps, |steps|, sorted, bounds, i, b);
    BehindIffAbove(steps, |steps|, sorted, bounds, i + 1, b);
    AboveStep(steps, i, sorted[b].size);
    forall y | y in input && Above(steps, i, y.size) ensures sorted[b].size <= y.size {
      assert y in multiset(sorted);
      var k :| 0 <= k < |sorted| && sorted[k] == y;
      BehindIffAbove(steps, |steps|, sorted, bounds, i, k);
      assert b < k ==> BySize(sorted[b]) <= BySize(sorted[k]);
    }
  }

  lemma RowsKept(rows: seq<Row>, sizes: seq<nat>, sorted: seq<Sample>, before: seq<Sample>, now: seq<Sample>,
                 bounds: seq<nat>, l: nat)
    requires RowsFit(rows, sizes, sorted, before, bounds) && |before| == |now| && l <= |now| && now[..l] == before[..l]
    requires forall i :: 0 <= i < |bounds| ==> bounds[i] <= l
    ensures RowsFit(rows, sizes, sorted, now, bounds)
  {
    forall i | 0 <= i < |rows| ensures RowFits(rows[i], sizes[i], sorted, now, bounds[i], bounds[i + 1]) {
      var b, e := bounds[i], bounds[i + 1];
      assert RowFits(rows[i], sizes[i], sorted, before, b, e);
      if b < e {
        RanksInSlice(b, e);
        assert forall k :: 0 <= k < e ==> now[..l][k] == now[k] && before[..l][k] == before[k];
      }
    }
  }

  lemma NewRowFits(rows: seq<Row>, sizes: seq<nat>, sorted: seq<Sample>, now: seq<Sample>, bounds: seq<nat>, l: nat,
                   r: nat)
    requires RowsFit(rows, sizes, sorted, now, bounds) && |rows| < |sizes|
    requires bounds[|rows|] == l <= r <= |now| == |sorted|
    requires now[r..] == sorted[r..]
    ensures RowsFit(rows + [RowOf(sizes[|rows|], now, l, r)], sizes, sorted, now, bounds + [r])
  {
    if l == r && r < |now| {
      assert now[r..][0] == sorted[r..][0];
    }
    assert RowFits(RowOf(sizes[|rows|], now, l, r), sizes[|rows|], sorted, now, l, r);
  }

  lemma SizesStep(steps: seq<nat>, n: nat, sorted: seq<Sample>, bounds: seq<nat>, r: nat)
    requires n < |steps| && SizesMatch(steps, n, sorted, bounds) && bounds[n] <= r <= |sorted|
    requires forall k :: bounds[n] <= k < r ==> sorted[k].size <= steps[n]
    requires forall k :: r <= k < |sorted| ==> steps[n] < sorted[k].size
    ensures SizesMatch(steps, n + 1, sorted, bounds + [r])
  {
    var bounds' := bounds + [r];
    forall i, k | 0 <= i < n + 1 && bounds'[i] <= k < bounds'[i + 1] && k < |sorted|
      ensures Above(steps, i, sorted[k].size) && sorted[k].size <= steps[i]
    {
      if i < n {
        assert bounds'[i] == bounds[i] && bounds'[i + 1] == bounds[i + 1];
      }
    }
  }

  /** The steps branch: each slice takes the sizes up to its step that no earlier step took. */
  method StepSlices(a: array<Sample>, steps: seq<nat>)
    returns (rows: seq<Row>, bounds: seq<nat>, ghost sorted: seq<Sample>)
    modifies a
    ensures SortedBy(sorted, BySize) && multiset(sorted) == multiset(old(a[..]))
    ensures Sliced(sorted, a[..], bounds) && SizesMatch(steps, |steps|, sorted, bounds)
    ensures |rows| == |steps| && RowsFit(rows, steps, sorted, a[..], bounds)
    ensures forall i :: 0 <= i < |steps| ==>
              && (bounds[i] < bounds[i + 1] <==> HasOwn(old(a[..]), steps, i))
              && (rows[i].p50 == None <==> NoneAbove(old(a[..]), steps, i))
  {
    hide SortedBy, RowsFit, RowOf, SizesMatch, Sliced, RangeSorted;
    SortRange(a, 0, a.Length, BySize);
    WholeRange(old(a[..]), a[..], BySize);
    sorted := a[..];
    rows, bounds := [], [0];
    NoRowsYet(steps, sorted);
    var l, r := 0, 0;
    for i := 0 to |steps|
      invariant bounds != [] && l == r == bounds[|bounds| - 1] <= a.Length && |rows| == i
      invariant Sliced(sorted, a[..], bounds) && SizesMatch(steps, i, sorted, bounds)
      invariant RowsFit(rows, steps, sorted, a[..], bounds)
    {
      ghost var before := a[..];
      SlicedFacts(sorted, before, bounds);
      while r < a.Length && a[r].size <= steps[i]
        invariant l <= r <= a.Length && a[..] == before
        invariant forall k :: l <= k < r ==> sorted[k].size <= steps[i]
        decreases a.Length - r
      {
        assert before[l..][r - l] == sorted[l..][r - l];
        r := r + 1;
      }
      RestIsLarger(sorted, before, l, r, steps[i]);
      SortRange(a, l, r, BySlowdown);
      StepEnds(rows, steps, sorted, before, a[..], bounds, l, r);
      rows := rows + [RowOf(steps[i], a[..], l, r)];
      bounds := bounds + [r];
      l := r;
    }
    RowsByInput(rows, old(a[..]), steps, sorted, a[..], bounds);
  }

  lemma RowsByInput(rows: seq<Row>, input: seq<Sample>, steps: seq<nat>, sorted: seq<Sample>, now: seq<Sample>,
                    bounds: seq<nat>)
    requires multiset(sorted) == multiset(input) && SortedBy(sorted, BySize) && |rows| == |steps|
    requires SizesMatch(steps, |steps|, sorted, bounds) && Sliced(sorted, now, bounds)
    requires RowsFit(rows, steps, sorted, now, bounds)
    ensures |bounds| == |steps| + 1
    ensures forall i :: 0 <= i < |steps| ==>
              && (bounds[i] < bounds[i + 1] <==> HasOwn(input, steps, i))
              && (rows[i].p50 == None <==> NoneAbove(input, steps, i))
  {
    hide SizesMatch, Sliced, RowFits, HasOwn, NoneAbove, SortedBy;
    forall i | 0 <= i < |steps|
      ensures bounds[i] < bounds[i + 1] <==> HasOwn(input, steps, i)
      ensures rows[i].p50 == None <==> NoneAbove(input, steps, i)
    {
      SliceByInput(input, steps, sorted, now, bounds, i);
      RowByInput(rows[i], input, steps, i, sorted, now, bounds);
    }
  }

  /** Two samples of size 1 and the steps 1 and 2: the second row is read outside the array. */
  method SecondStepReadsOutside() returns (rows: seq<Row>)
    ensures |rows| == 2 && rows[0].p50.Some? && rows[1].p50 == None
  {
    var a := new Sample[2][Sample(1, 2.0), Sample(1, 3.0)];
    var steps: seq<nat> := [1, 2];
    assert steps[0] == 1 && a[..] == [Sample(1, 2.0), Sample(1, 3.0)];
    assert NoneAbove(a[..], steps, 1);
    assert Above(steps, 0, Sample(1, 2.0).size) && Sample(1, 2.0) in a[..];
    var bounds;
    ghost var sorted;
    rows, bounds, sorted := StepSlices(a, steps);
  }

  lemma NoRowsYet(steps: seq<nat>, sorted: seq<Sample>)
    ensures RowsFit([], steps, sorted, sorted, [0])
  {
  }

  /** Sorting the slice of the next step by slowdown and adding its row. */
  lemma StepEnds(rows: seq<Row>, steps: seq<nat>, sorted: seq<Sample>, before: seq<Sample>, now: seq<Sample>,
                 bounds: seq<nat>, l: nat, r: nat)
    requires |rows| < |steps| && Sliced(sorted, before, bounds)
    requires SizesMatch(steps, |rows|, sorted, bounds) && RowsFit(rows, steps, sorted, before, bounds)
    requires bounds != [] && bounds[|bounds| - 1] == l <= r <= |before|
    requires RangeSorted(before, now, l, r, BySlowdown)
    requires forall k :: l <= k < r && k < |sorted| ==> sorted[k].size <= steps[|rows|]
    requires forall k :: r <= k < |sorted| ==> steps[|rows|] < sorted[k].size
    ensures Sliced(sorted, now, bounds + [r]) && SizesMatch(steps, |rows| + 1, sorted, bounds + [r])
    ensures RowsFit(rows + [RowOf(steps[|rows|], now, l, r)], steps, sorted, now, bounds + [r])
  {
    hide Sliced, SizesMatch, RowsFit, RangeSorted, RowOf;
    SlicedFacts(sorted, before, bounds);
    RangeFront(before, now, l, r);
    SliceStep(sorted, before, now, bounds, r);
    SizesStepAt(steps, |rows|, sorted, bounds, r);
    SlicedFacts(sorted, now, bounds + [r]);
    RowsKept(rows, steps, sorted, before, now, bounds, l);
    RowsAligned(rows, steps, sorted, now, bounds);
    NewRowFits(rows, steps, sorted, now, bounds, l, r);
  }

  lemma RowsAligned(rows: seq<Row>, sizes: seq<nat>, sorted: seq<Sample>, now: seq<Sample>, bounds: seq<nat>)
    requires RowsFit(rows, sizes, sorted, now, bounds)
    ensures |bounds| == |rows| + 1 && |rows| <= |sizes|
  {
  }

  lemma SizesStepAt(steps: seq<nat>, n: nat, sorted: seq<Sample>, bounds: seq<nat>, r: nat)
    requires n < |steps| && SizesMatch(steps, n, sorted, bounds) && bounds != []
    requires bounds[|bounds| - 1] <= r <= |sorted|
    requires forall k :: bounds[|bounds| - 1] <= k < r ==> sorted[k].size <= steps[n]
    requires forall k :: r <= k < |sorted| ==> steps[n] < sorted[k].size
    ensures SizesMatch(steps, n + 1, sorted, bounds + [r])
  {
    SizesStep(steps, n, sorted, bounds, r);
  }

  lemma WholeRange(before: seq<Sample>, after: seq<Sample>, key: Sample -> real)
    requires RangeSorted(before, after, 0, |before|, key)
    ensures SortedBy(after, key) && multiset(after) == multiset(before)
    ensures |after| == |before| && Sliced(after, after, [0])
    ensures forall steps: seq<nat> :: SizesMatch(steps, 0, after, [0])
  {
    assert before[0..|before|] == before && after[0..|before|] == after;
  }

  /** Behind the last size up to the step all sizes are larger. */
  lemma RestIsLarger(sorted: seq<Sample>, now: seq<Sample>, l: nat, r: nat, step: nat)
    requires SortedBy(sorted, BySize) && l <= r <= |now| == |sorted| && now[l..] == sorted[l..]
    requires r < |now| ==> step < now[r].size
    ensures forall k :: r <= k < |sorted| ==> step < sorted[k].size
  {
    if r < |now| {
      assert now[l..][r - l] == sorted[l..][r - l];
      forall k | r <= k < |sorted| ensures step < sorted[k].size {
        assert r < k ==> BySize(sorted[r]) <= BySize(sorted[k]);
      }
    }
  }

  // ----- slices by percentage

  function Times(q: nat, step: nat): nat {
    q * step
  }

  /** The position at p percent of n. */
  function Share(p: nat, n: nat): nat {
    p * n / 100
  }

  /** The smallest multiple of the step that is at least 100. */
  function RoundUp(step: nat): nat
    requires step > 0
  {
    Times(99 / step + 1, step)
  }

  /** Every access of the percentage branch is inside an array of n samples. */
  predicate InRange(step: nat, n: nat)
    requires step > 0
  {
    Share(step, n) > 0 && Share(RoundUp(step), n) <= n
  }

  /** A step that divides 100 stays in range exactly when no slice is empty. */
  lemma DividingStepInRange(step: nat, n: nat)
    requires step > 0 && 100 % step == 0
    ensures RoundUp(step) == 100
    ensures InRange(step, n) <==> step * n >= 100
  {
    var q := 100 / step;
    assert q * step == 100;
    assert (q - 1) * step < 100;
    LastMultiple(step, q);
  }

  /** Of ten samples, 25 percent at a time are in range, 30 percent at a time end outside the array, and one
      percent of them is nothing. */
  lemma UnevenStepsFail()
    ensures InRange(25, 10) && !InRange(30, 10) && !InRange(1, 10)
  {
  }

  /** If q steps reach 100 and one fewer do not, q steps make the round number. */
  lemma LastMultiple(step: nat, q: nat)
    requires step > 0 && q > 0 && Times(q - 1, step) < 100 <= Times(q, step)
    ensures Times(q, step) == RoundUp(step)
  {
    var d := 99 / step;
    assert d * step <= 99 < (d + 1) * step;
    Multiples(d + 1, q - 1, step);
    Multiples(q, d, step);
    assert q - 1 == d;
  }

  lemma Multiples(a: nat, b: nat, step: nat)
    ensures a <= b ==> a * step <= b * step
  {
    if a <= b {
      assert (b - a) * step >= 0;
    }
  }

  lemma NotYetRound(step: nat, q: nat)
    requires step > 0 && Times(q, step) < 100
    ensures Times(q + 1, step) <= RoundUp(step)
  {
    var d := 99 / step;
    assert 99 < (d + 1) * step;
    Multiples(d + 1, q, step);
    Multiples(q + 1, d + 1, step);
  }

  lemma ShareGrows(p: nat, r: nat, n: nat)
    requires p <= r
    ensures Share(p, n) <= Share(r, n)
  {
    Multiples(p, r, n);
  }

  /** If the first slice is not empty, none is. */
  lemma SliceNonEmpty(p: nat, step: nat, n: nat)
    requires Share(step, n) > 0
    ensures Share(p, n) < Share(p + step, n)
  {
    assert (p + step) * n == p * n + step * n;
  }

  lemma TimesStep(q: nat, step: nat)
    ensures Times(q + 1, step) == Times(q, step) + step && Times(0, step) == 0
  {
  }

  /** The row of a percentage slice: its largest size and its quantiles. */
  ghost predicate ShareRow(row: Row, sorted: seq<Sample>, now: seq<Sample>, b: nat, e: nat) {
    b < e <= |now| == |sorted| && row == RowOf(sorted[e - 1].size, now, b, e)
  }

  ghost predicate ShareRows(rows: seq<Row>, step: nat, sorted: seq<Sample>, now: seq<Sample>, bounds: seq<nat>) {
    && |bounds| == |rows| + 1
    && (forall i :: 0 <= i < |bounds| ==> bounds[i] == Share(Times(i, step), |sorted|))
    && forall i :: 0 <= i < |rows| ==> ShareRow(rows[i], sorted, now, bounds[i], bounds[i + 1])
  }

  /** A row of the percentage branch carries the largest size of its slice and the slice's quantiles. */
  lemma ShareRowMeans(row: Row, sorted: seq<Sample>, now: seq<Sample>, b: nat, e: nat)
    requires SortedBy(sorted, BySize) && IsSlice(sorted, now, b, e) && ShareRow(row, sorted, now, b, e)
    ensures ReadsQuantiles(row, now, b, e)
    ensures forall k :: b <= k < e ==> now[k].size <= row.size
    ensures exists k :: b <= k < e && now[k].size == row.size
  {
    RowReads(row.size, now, b, e);
    hide ReadsQuantiles, RowOf;
    assert row.size == sorted[e - 1].size by { RowSize(sorted[e - 1].size, now, b, e); }
    forall k | b <= k < e ensures now[k].size <= row.size {
      var m := SliceMember(sorted, now, b, e, k);
      assert m < e - 1 ==> BySize(sorted[m]) <= BySize(sorted[e - 1]);
    }
    assert sorted[b..e][e - 1 - b] in multiset(now[b..e]);
    var j :| 0 <= j < e - b && now[b..e][j] == sorted[e - 1];
    assert now[b + j].size == row.size;
  }

  lemma RowSize(size: nat, now: seq<Sample>, b: nat, e: nat)
    requires b <= e
    ensures RowOf(size, now, b, e).size == size
  {
  }

  lemma ShareRowsKept(rows: seq<Row>, step: nat, sorted: seq<Sample>, before: seq<Sample>, now: seq<Sample>,
                      bounds: seq<nat>, l: nat)
    requires ShareRows(rows, step, sorted, before, bounds) && |before| == |now| && l <= |now| && now[..l] == before[..l]
    requires forall i :: 0 <= i < |bounds| ==> bounds[i] <= l
    ensures ShareRows(rows, step, sorted, now, bounds)
  {
    forall i | 0 <= i < |rows| ensures ShareRow(rows[i], sorted, now, bounds[i], bounds[i + 1]) {
      var b, e := bounds[i], bounds[i + 1];
      assert ShareRow(rows[i], sorted, before, b, e);
      RanksInSlice(b, e);
      assert forall k :: 0 <= k < e ==> now[..l][k] == now[k] && before[..l][k] == before[k];
    }
  }

  /** The percentage branch: slice i holds the samples from i*step to (i+1)*step percent in order of size.
      It runs through exactly when all its accesses are in range, and then covers the whole array. */
  method ShareSlices(a: array<Sample>, step: nat)
    returns (rows: seq<Row>, bounds: seq<nat>, ok: bool, ghost sorted: seq<Sample>)
    requires step > 0
    modifies a
    ensures SortedBy(sorted, BySize) && multiset(sorted) == multiset(old(a[..]))
    ensures ok <==> InRange(step, a.Length)
    ensures Sliced(sorted, a[..], bounds) && ShareRows(rows, step, sorted, a[..], bounds)
    ensures forall i :: 0 <= i < |bounds| ==> bounds[i] == i * step * a.Length / 100
    ensures ok ==> bounds[|bounds| - 1] == a.Length && Times(|rows|, step) == RoundUp(step)
  {
    hide SortedBy, ShareRows, RoundUp, InRange, Sliced, Share, Times, RangeSorted, RowOf;
    SortRange(a, 0, a.Length, BySize);
    WholeRange(old(a[..]), a[..], BySize);
    sorted := a[..];
    rows, bounds, ok := [], [0], true;
    ShareRowsStart(step, sorted);
    var p := 0;
    while p < 100
      invariant p == Times(|rows|, step)
      invariant p > 0 ==> |rows| > 0 && Times(|rows| - 1, step) < 100 && Share(step, a.Length) > 0
      invariant bounds != [] && bounds[|bounds| - 1] == Share(p, a.Length) <= a.Length
      invariant Sliced(sorted, a[..], bounds) && ShareRows(rows, step, sorted, a[..], bounds)
      decreases 100 - p
    {
      RoundBegins(|rows|, step, p, a.Length);
      var l := Share(p, a.Length);
      var r := Share(p + step, a.Length);
      if r == 0 || r > a.Length {
        OutOfRange(|rows|, step, a.Length);
        BoundsWritten(rows, step, sorted, a[..], bounds);
        ok := false;
        return;
      }
      ghost var before := a[..];
      var largest := a[r - 1].size;
      SortRange(a, l, r, BySlowdown);
      RoundEnds(rows, step, sorted, before, a[..], bounds, l, r);
      rows := rows + [RowOf(largest, a[..], l, r)];
      bounds := bounds + [r];
      p := p + step;
    }
    LastMultiple(step, |rows|);
    CoversAll(step, a.Length);
    BoundsWritten(rows, step, sorted, a[..], bounds);
  }

  lemma BoundsWritten(rows: seq<Row>, step: nat, sorted: seq<Sample>, now: seq<Sample>, bounds: seq<nat>)
    requires ShareRows(rows, step, sorted, now, bounds)
    ensures forall i :: 0 <= i < |bounds| ==> bounds[i] == i * step * |sorted| / 100
  {
  }

  lemma RoundBegins(q: nat, step: nat, p: nat, n: nat)
    requires p == Times(q, step) && (p > 0 ==> Share(step, n) > 0)
    ensures Times(q + 1, step) == p + step && p + step >= step
    ensures Share(p + step, n) > 0 ==> Share(step, n) > 0 && Share(p, n) < Share(p + step, n)
  {
    hide Share;
    TimesStep(q, step);
    if Share(step, n) > 0 {
      SliceNonEmpty(p, step, n);
    }
  }

  /** Sorting the next slice by slowdown and adding its row. */
  lemma RoundEnds(rows: seq<Row>, step: nat, sorted: seq<Sample>, before: seq<Sample>, now: seq<Sample>,
                  bounds: seq<nat>, l: nat, r: nat)
    requires Sliced(sorted, before, bounds) && ShareRows(rows, step, sorted, before, bounds)
    requires bounds != [] && bounds[|bounds| - 1] == l < r <= |before| && r == Share(Times(|rows| + 1, step), |sorted|)
    requires RangeSorted(before, now, l, r, BySlowdown)
    ensures Sliced(sorted, now, bounds + [r])
    ensures ShareRows(rows + [RowOf(before[r - 1].size, now, l, r)], step, sorted, now, bounds + [r])
  {
    hide Sliced, ShareRows, RangeSorted, Share, Times, RowOf;
    SlicedFacts(sorted, before, bounds);
    LargestOfSlice(sorted, before, l, r);
    SliceStep(sorted, before, now, bounds, r);
    RangeFront(before, now, l, r);
    ShareRowsKept(rows, step, sorted, before, now, bounds, l);
    NewShareRow(rows, step, sorted, now, bounds, l, r);
  }

  lemma ShareRowsStart(step: nat, sorted: seq<Sample>)
    ensures ShareRows([], step, sorted, sorted, [0]) && Times(0, step) == 0 && Share(0, |sorted|) == 0
  {
  }

  lemma RangeFront(before: seq<Sample>, after: seq<Sample>, l: nat, r: nat)
    requires RangeSorted(before, after, l, r, BySlowdown)
    ensures |before| == |after| && l <= |before| && before[..l] == after[..l]
  {
  }

  lemma LargestOfSlice(sorted: seq<Sample>, now: seq<Sample>, l: nat, r: nat)
    requires l < r <= |now| == |sorted| && now[l..] == sorted[l..]
    ensures now[r - 1] == sorted[r - 1]
  {
    assert now[l..][r - 1 - l] == sorted[l..][r - 1 - l];
  }

  lemma SlicedFacts(sorted: seq<Sample>, now: seq<Sample>, bounds: seq<nat>)
    requires Sliced(sorted, now, bounds)
    ensures bounds != [] && |now| == |sorted| && bounds[|bounds| - 1] <= |now|
    ensures forall i :: 0 <= i < |bounds| ==> bounds[i] <= bounds[|bounds| - 1]
    ensures now[bounds[|bounds| - 1]..] == sorted[bounds[|bounds| - 1]..]
  {
  }

  lemma NewShareRow(rows: seq<Row>, step: nat, sorted: seq<Sample>, now: seq<Sample>, bounds: seq<nat>, l: nat, r: nat)
    requires ShareRows(rows, step, sorted, now, bounds) && bounds != []
    requires bounds[|bounds| - 1] == l < r <= |now| == |sorted|
    requires r == Share(Times(|rows| + 1, step), |sorted|)
    ensures ShareRows(rows + [RowOf(sorted[r - 1].size, now, l, r)], step, sorted, now, bounds + [r])
  {
    hide Share, Times, RowOf;
    var rows' := rows + [RowOf(sorted[r - 1].size, now, l, r)];
    assert ShareRow(rows'[|rows|], sorted, now, l, r);
  }

  lemma OutOfRange(q: nat, step: nat, n: nat)
    requires step > 0 && Times(q, step) < 100
    requires Share(Times(q, step) + step, n) == 0 || Share(Times(q, step) + step, n) > n
    ensures !InRange(step, n)
  {
    hide Share, Times, RoundUp;
    TimesStep(q, step);
    NotYetRound(step, q);
    ShareGrows(Times(q + 1, step), RoundUp(step), n);
    ShareGrows(step, Times(q + 1, step), n);
  }

  /** A run that got to the end was in range, and ended at the end of the array. */
  lemma CoversAll(step: nat, n: nat)
    requires step > 0 && Share(step, n) > 0 && Share(RoundUp(step), n) <= n
    ensures InRange(step, n) && Share(RoundUp(step), n) == n
  {
    var d := 99 / step;
    assert 99 < (d + 1) * step;
    ShareGrows(100, RoundUp(step), n);
  }
}
