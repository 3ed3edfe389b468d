/**
 The anchor lattice around a time span, and its grouping by UTC day. Calendar dates are a parameter:
 a label per day number that sorts as the days do, as four-digit ISO dates are.
 */
module Anchors {
  import opened Wrappers
  import opened Sorting

  datatype AnchorError = ZeroInterval

  function Min(a: int, b: int): int { if a < b then a else b }
  function Max(a: int, b: int): int { if a < b then b else a }

  /** Exact ceiling of a / b. */
  function Ceil(a: int, b: int): int
    requires b > 0
  {
    -((-a) / b)
  }

  /** list(range(start, stop, step)) for a positive step. */
  function PyRange(start: int, stop: int, step: int): seq<int>
    requires step > 0
    decreases stop - start
  {
    if start >= stop then [] else [start] + PyRange(start + step, stop, step)
  }

  function LatticeFrom(start: int, end: int, interval: int): int
    requires interval > 0
  {
    Min(start, end) / interval * interval - interval
  }

  function LatticeTo(start: int, end: int, interval: int): int
    requires interval > 0
  {
    Ceil(Max(start, end), interval) * interval + interval
  }

  function AnchorsOf(start: int, end: int, interval: nat): Result<seq<int>, AnchorError> {
    if interval == 0 then Err(ZeroInterval)
    else Ok(PyRange(LatticeFrom(start, end, interval), LatticeTo(start, end, interval) + 1, interval))
  }

  // ------------------------------------------------------------------
  // The lattice
  // ------------------------------------------------------------------

  /** Consecutive multiples of the interval. */
  ghost predicate IsRun(run: seq<int>, interval: int)
    requires interval > 0
  {
    && run != [] && run[0] % interval == 0
    && forall i :: 0 < i < |run| ==> run[i] == run[i - 1] + interval
  }

  ghost predicate Covers(run: seq<int>, lo: int, hi: int)
    requires run != []
  {
    run[0] <= lo && hi <= run[|run| - 1]
  }

  lemma {:induction false} RunAt(run: seq<int>, interval: int, i: nat)
    requires interval > 0 && IsRun(run, interval) && i < |run|
    ensures run[i] == run[0] + i * interval
  {
    if i > 0 {
      RunAt(run, interval, i - 1);
      assert i * interval == (i - 1) * interval + interval;
    }
  }

  lemma {:induction false} RangeIsRun(start: int, count: nat, step: int)
    requires step > 0 && start % step == 0
    ensures var r := PyRange(start, start + count * step + 1, step);
            IsRun(r, step) && |r| == count + 1 && r[0] == start && r[count] == start + count * step
    decreases count
  {
    var stop := start + count * step + 1;
    if count == 0 {
      assert PyRange(start, stop, step) == [start] + PyRange(start + step, stop, step) == [start];
      assert IsRun([start], step);
    } else {
      Product(count, step);
      MultipleNext(start, step);
      RangeIsRun(start + step, count - 1, step);
      RunCons(start, PyRange(start + step, stop, step), step);
    }
  }

  lemma Product(count: nat, step: int)
    requires count > 0 && step > 0
    ensures count * step == (count - 1) * step + step && count * step >= step
  {
    hide *;
    assert (count - 1) * step >= 0;
  }

  lemma RunCons(start: int, tail: seq<int>, step: int)
    requires step > 0 && start % step == 0 && IsRun(tail, step) && tail[0] == start + step
    ensures IsRun([start] + tail, step)
  {
  }

  lemma MultipleNext(a: int, step: int)
    requires step > 0 && a % step == 0
    ensures (a + step) % step == 0
  {
    MultipleIs(a / step + 1, step);
    assert a == a / step * step;
  }

  lemma MultipleIs(k: int, step: int)
    requires step > 0
    ensures (k * step) % step == 0 && k * step / step == k
  {
    hide *;
    var q, r := (k * step) / step, (k * step) % step;
    assert k * step == q * step + r;
    assert (k - q) * step == r;
    assert k - q >= 1 ==> (k - q) * step >= step;
    assert q - k >= 1 ==> (q - k) * step >= step;
  }

  /** The largest multiple not above, and the smallest not below. */
  lemma Rounds(a: int, interval: int)
    requires interval > 0
    ensures a / interval * interval <= a < a / interval * interval + interval
    ensures Ceil(a, interval) * interval - interval < a <= Ceil(a, interval) * interval
  {
    assert a == a / interval * interval + a % interval;
    assert -a == (-a) / interval * interval + (-a) % interval;
    assert Ceil(a, interval) * interval == -((-a) / interval * interval);
  }

  lemma CancelFactor(m: int, n: int, interval: int)
    requires interval > 0 && m * interval < n * interval
    ensures m < n
  {
    hide *;
    assert m >= n ==> (m - n) * interval >= 0;
    assert (m - n) * interval == m * interval - n * interval;
  }

  /** Multiples k through l reach at most one interval beyond the widened span, so no cover has fewer. */
  lemma NoShorterCover(k: int, l: int, other: seq<int>, interval: int, low: int, high: int)
    requires interval > 0 && low - interval < k * interval + interval && l * interval - interval < high + interval
    requires IsRun(other, interval) && Covers(other, low - interval, high + interval)
    ensures l - k + 1 <= |other|
    ensures |other| == l - k + 1 ==> other[0] == k * interval
  {
    var m, n := |other| - 1, other[0] / interval;
    RunAt(other, interval, m);
    assert other[0] == n * interval;
    hide *;
    Between(k, l, n, m, interval);
  }

  lemma Between(k: int, l: int, n: int, m: int, interval: int)
    requires interval > 0 && n * interval < k * interval + interval
    requires l * interval - interval < n * interval + m * interval
    ensures n <= k && l <= n + m
  {
    hide *;
    assert (k + 1) * interval == k * interval + interval;
    assert (l - 1) * interval == l * interval - interval && (n + m) * interval == n * interval + m * interval;
    CancelFactor(n, k + 1, interval);
    CancelFactor(l - 1, n + m, interval);
  }

  /** A run is determined by its first value and its length. */
  lemma RunUnique(a: seq<int>, b: seq<int>, interval: int)
    requires interval > 0 && IsRun(a, interval) && IsRun(b, interval) && |a| == |b| && a[0] == b[0]
    ensures a == b
  {
    forall i | 0 <= i < |a| ensures a[i] == b[i] {
      RunAt(a, interval, i);
      RunAt(b, interval, i);
    }
  }

  /** From the multiple k to the multiple l, one interval apart. */
  lemma RangeBetween(k: int, l: int, interval: int)
    requires interval > 0 && k <= l
    ensures var r := PyRange(k * interval, l * interval + 1, interval);
            IsRun(r, interval) && |r| == l - k + 1 && r[0] == k * interval && r[l - k] == l * interval
  {
    MultipleIs(k, interval);
    RangeIsRun(k * interval, l - k, interval);
    assert (l - k) * interval == l * interval - k * interval;
  }

  /** The bounds of the lattice are the tightest multiples around the widened span. */
  lemma LatticeBounds(start: int, end: int, interval: int) returns (k: int, l: int)
    requires interval > 0
    ensures LatticeFrom(start, end, interval) == k * interval && LatticeTo(start, end, interval) == l * interval
    ensures k <= l
    ensures k * interval <= Min(start, end) - interval < k * interval + interval
    ensures l * interval - interval < Max(start, end) + interval <= l * interval
  {
    var low, high := Min(start, end), Max(start, end);
    k, l := low / interval - 1, Ceil(high, interval) + 1;
    Rounds(low, interval);
    Rounds(high, interval);
    Shifted(low / interval, Ceil(high, interval), interval);
    hide Ceil;
    CancelFactor(k, l + 1, interval);
  }

  lemma Shifted(p: int, q: int, interval: int)
    ensures (p - 1) * interval == p * interval - interval
    ensures (q + 1) * interval == q * interval + interval && (q + 2) * interval == q * interval + 2 * interval
  {
    hide *;
  }

  /**
   anchors is the one shortest run of consecutive multiples of the interval that covers the span
   widened by one interval on both sides, in either order of the bounds.
   */
  lemma AnchorsAreShortestCover(start: int, end: int, interval: nat, other: seq<int>)
    requires interval > 0
    ensures var r := AnchorsOf(start, end, interval);
            var lo, hi := Min(start, end) - interval, Max(start, end) + interval;
            && r.Ok? && IsRun(r.value, interval) && Covers(r.value, lo, hi)
            && (IsRun(other, interval) && Covers(other, lo, hi) ==>
                  |r.value| <= |other| && (|r.value| == |other| ==> r.value == other))
  {
    var k, l := LatticeBounds(start, end, interval);
    hide LatticeFrom, LatticeTo, PyRange, IsRun;
    RangeBetween(k, l, interval);
    if IsRun(other, interval) && Covers(other, Min(start, end) - interval, Max(start, end) + interval) {
      NoShorterCover(k, l, other, interval, Min(start, end), Max(start, end));
      var r := AnchorsOf(start, end, interval).value;
      if |r| == |other| { RunUnique(r, other, interval); }
    }
  }

  // ------------------------------------------------------------------
  // The upper bound as the code computes it, from a rounded quotient
  // ------------------------------------------------------------------

  /** A quotient of integers as a double. */
  type Division = (int, int) -> real

  const EXACT_LIMIT := 0x20_0000_0000_0000

  /**
   Correct rounding of quotients of integers below 2^53: the error is at most one part in 2^53,
   and no integer lies strictly between a quotient and its rounding.
   */
  ghost predicate RoundsCorrectly(divide: Division) {
    forall a: int, b: int :: 0 < b < EXACT_LIMIT && -EXACT_LIMIT < a < EXACT_LIMIT ==>
      && (divide(a, b) - a as real / b as real) * EXACT_LIMIT as real <= AbsReal(a as real / b as real)
      && (a as real / b as real - divide(a, b)) * EXACT_LIMIT as real <= AbsReal(a as real / b as real)
      && forall k: int :: (a <= k * b ==> divide(a, b) <= k as real) && (a >= k * b ==> divide(a, b) >= k as real)
  }

  function AbsReal(x: real): real { if x < 0.0 then -x else x }

  /** math.ceil */
  function CeilReal(x: real): int {
    -((-x).Floor)
  }

  function CodedAnchors(start: int, end: int, interval: nat, divide: Division): Result<seq<int>, AnchorError> {
    if interval == 0 then Err(ZeroInterval)
    else
      var upper := CeilReal(divide(Max(start, end), interval)) * interval + interval;
      Ok(PyRange(LatticeFrom(start, end, interval), upper + 1, interval))
  }

  lemma RoundedCeiling(a: int, b: int, divide: Division)
    requires RoundsCorrectly(divide) && 0 < b < EXACT_LIMIT && -EXACT_LIMIT < a < EXACT_LIMIT
    ensures CeilReal(divide(a, b)) == Ceil(a, b)
  {
    var k, x := Ceil(a, b), divide(a, b);
    Rounds(a, b);
    OneLess(k, b);
    assert a <= k * b && x <= k as real;
    assert a >= (k - 1) * b && x >= (k - 1) as real;
    QuotientGap(a, b, k - 1);
    assert (a as real / b as real - x) * EXACT_LIMIT as real <= AbsReal(a as real / b as real);
    hide RoundsCorrectly, AbsReal, Ceil;
    assert x != (k - 1) as real;
    CeilingBetween(x, k);
  }

  lemma OneLess(k: int, b: int)
    ensures (k - 1) * b == k * b - b
  {
  }

  lemma CeilingBetween(x: real, k: int)
    requires (k - 1) as real < x <= k as real
    ensures CeilReal(x) == k
  {
  }

  /** A quotient above an integer is above it by more than its rounding error. */
  lemma QuotientGap(a: int, b: int, k: int)
    requires b > 0 && -EXACT_LIMIT < a < EXACT_LIMIT && a > k * b
    ensures (a as real / b as real - k as real) * EXACT_LIMIT as real > AbsReal(a as real / b as real)
  {
    var q := a as real / b as real;
    assert q * b as real == a as real;
    assert (k * b) as real == k as real * b as real;
    assert a as real - k as real * b as real >= 1.0;
    hide *;
    Gap(q, a as real, b as real, k as real, EXACT_LIMIT as real);
  }

  lemma Gap(q: real, a: real, b: real, k: real, limit: real)
    requires b > 0.0 && q * b == a && a - k * b >= 1.0 && AbsReal(a) < limit
    ensures (q - k) * limit > AbsReal(q)
  {
    MagnitudeOfProduct(q, b);
    hide AbsReal;
    var gap, excess := q - k, (q - k) * limit - AbsReal(q);
    assert gap * b == a - k * b;
    assert (gap * b - 1.0) * limit >= 0.0 by { NonNegativeProduct(gap * b - 1.0, limit); }
    assert excess * b == gap * b * limit - AbsReal(q) * b;
    PositiveFactor(excess, b);
  }

  lemma MagnitudeOfProduct(q: real, b: real)
    requires b > 0.0
    ensures AbsReal(q * b) == AbsReal(q) * b
  {
  }

  lemma NonNegativeProduct(x: real, y: real)
    requires x >= 0.0 && y >= 0.0
    ensures x * y >= 0.0
  {
  }

  lemma PositiveFactor(x: real, b: real)
    requires b > 0.0 && x * b > 0.0
    ensures x > 0.0
  {
  }

  /** For instants and intervals below 2^53 seconds the rounded quotient gives the exact lattice. */
  lemma CodedAnchorsExact(start: int, end: int, interval: nat, divide: Division)
    requires RoundsCorrectly(divide) && interval < EXACT_LIMIT && -EXACT_LIMIT < Max(start, end) < EXACT_LIMIT
    ensures CodedAnchors(start, end, interval, divide) == AnchorsOf(start, end, interval)
  {
    if interval > 0 { RoundedCeiling(Max(start, end), interval, divide); }
  }

  // ------------------------------------------------------------------
  // Grouping by day
  // ------------------------------------------------------------------

  const DAY := 86400

  /** strftime("%Y-%m-%d") of a day number. */
  type DayLabel = int -> string

  function TwoDigits(n: nat): string
    requires n < 100
  {
    ['0' + (n / 10) as char, '0' + (n % 10) as char]
  }

  /** strftime("%H:%M") of an instant. */
  function Clock(v: int): string {
    var s := v % DAY;
    TwoDigits(s / 3600) + ":" + TwoDigits(s % 3600 / 60)
  }

  function LabelOf(v: int, dates: DayLabel): string {
    dates(v / DAY)
  }

  /** Date and clock time of one instant. */
  datatype Stamp = Stamp(day: string, clock: string)

  function StampOf(v: int, dates: DayLabel): Stamp {
    Stamp(LabelOf(v, dates), Clock(v))
  }

  datatype Group = Group(day: string, clocks: seq<string>)

  /** The clock times of the values on one day, in order. */
  function ClocksOn(day: string, values: seq<int>, dates: DayLabel): seq<string> {
    if values == [] then []
    else
      ClocksOn(day, values[..|values| - 1], dates)
      + if LabelOf(values[|values| - 1], dates) == day then [Clock(values[|values| - 1])] else []
  }

  function Days(groups: seq<Group>): (days: seq<string>)
    ensures |days| == |groups|
  {
    seq(|groups|, i requires 0 <= i < |groups| => groups[i].day)
  }

  ghost predicate OnDay(day: string, values: seq<int>, dates: DayLabel) {
    exists i :: 0 <= i < |values| && LabelOf(values[i], dates) == day
  }

  /** The groups of a list of values: days in order, each once, each with all its clock times. */
  ghost predicate Groups(groups: seq<Group>, values: seq<int>, dates: DayLabel) {
    && StrictlySorted(Days(groups))
    && (forall day :: day in Days(groups) <==> OnDay(day, values, dates))
    && forall i :: 0 <= i < |groups| ==> groups[i].clocks == ClocksOn(groups[i].day, values, dates)
  }

  lemma NoGroups(values: seq<int>, dates: DayLabel)
    ensures forall day :: !OnDay(day, values[..0], dates) && ClocksOn(day, values[..0], dates) == []
  {
  }

  /** grouped_anchors: a dictionary of lists filled in order, then its sorted items. */
  method GroupedAnchors(values: seq<int>, dates: DayLabel) returns (groups: seq<Group>)
    ensures Groups(groups, values, dates)
  {
    hide ClocksOn, LabelOf, Clock, OnDay;
    var grouped: map<string, seq<string>> := map[];
    NoGroups(values, dates);
    for i := 0 to |values|
      invariant forall day :: day in grouped <==> OnDay(day, values[..i], dates)
      invariant forall day :: day in grouped ==> grouped[day] == ClocksOn(day, values[..i], dates)
      invariant forall day :: day !in grouped ==> ClocksOn(day, values[..i], dates) == []
    {
      var day := LabelOf(values[i], dates);
      var before := if day in grouped then grouped[day] else [];
      GroupStep(values, i, dates);
      grouped := grouped[day := before + [Clock(values[i])]];
    }
    assert values[..|values|] == values;
    var days := SortSet(grouped.Keys);
    groups := seq(|days|, i requires 0 <= i < |days| =>
      Group(days[i], if days[i] in grouped then grouped[days[i]] else []));
    assert Days(groups) == days;
    forall i | 0 <= i < |groups| ensures groups[i].clocks == ClocksOn(groups[i].day, values, dates) {
      assert days[i] in days;
    }
  }

  lemma GroupStep(values: seq<int>, i: nat, dates: DayLabel)
    requires i < |values|
    ensures forall day :: OnDay(day, values[..i + 1], dates) <==>
              OnDay(day, values[..i], dates) || day == LabelOf(values[i], dates)
    ensures forall day :: ClocksOn(day, values[..i + 1], dates)
              == ClocksOn(day, values[..i], dates) + if LabelOf(values[i], dates) == day then [Clock(values[i])] else []
  {
    var now, next := values[..i], values[..i + 1];
    assert next[..i] == now && next[i] == values[i];
    forall day ensures OnDay(day, next, dates) <==> OnDay(day, now, dates) || day == LabelOf(values[i], dates) {
      if OnDay(day, now, dates) {
        var j :| 0 <= j < |now| && LabelOf(now[j], dates) == day;
        assert next[j] == now[j];
      }
      if day == LabelOf(values[i], dates) { assert LabelOf(next[i], dates) == day; }
    }
  }

  // ------------------------------------------------------------------
  // The groups in order are the values in order
  // ------------------------------------------------------------------

  function Tagged(g: Group): (stamps: seq<Stamp>)
    ensures |stamps| == |g.clocks|
  {
    seq(|g.clocks|, i requires 0 <= i < |g.clocks| => Stamp(g.day, g.clocks[i]))
  }

  /** The groups one after another. */
  function Flatten(groups: seq<Group>): seq<Stamp> {
    if groups == [] then [] else Flatten(groups[..|groups| - 1]) + Tagged(groups[|groups| - 1])
  }

  function Stamps(values: seq<int>, dates: DayLabel): (stamps: seq<Stamp>)
    ensures |stamps| == |values| && forall i :: 0 <= i < |values| ==> stamps[i] == StampOf(values[i], dates)
  {
    seq(|values|, i requires 0 <= i < |values| => StampOf(values[i], dates))
  }

  ghost predicate Ascending(values: seq<int>) {
    forall i, j :: 0 <= i < j < |values| ==> values[i] < values[j]
  }

  /** Labels sort as days do, on the days of these values. */
  ghost predicate DatesSort(values: seq<int>, dates: DayLabel) {
    forall i, j :: 0 <= i < |values| && 0 <= j < |values| && values[i] / DAY < values[j] / DAY ==>
      && StringLe(LabelOf(values[i], dates), LabelOf(values[j], dates))
      && LabelOf(values[i], dates) != LabelOf(values[j], dates)
  }

  lemma {:induction false} NotOnDay(day: string, values: seq<int>, dates: DayLabel)
    requires !OnDay(day, values, dates)
    ensures ClocksOn(day, values, dates) == []
  {
    if values != [] {
      var before := values[..|values| - 1];
      assert forall i :: 0 <= i < |before| ==> before[i] == values[i];
      assert LabelOf(values[|values| - 1], dates) != day;
      NotOnDay(day, before, dates);
    }
  }

  lemma LabelsAscend(values: seq<int>, dates: DayLabel, i: nat, j: nat)
    requires Ascending(values) && DatesSort(values, dates) && i <= j < |values|
    ensures StringLe(LabelOf(values[i], dates), LabelOf(values[j], dates))
  {
    if values[i] / DAY == values[j] / DAY {
      StringLeTotal(LabelOf(values[i], dates), LabelOf(values[j], dates));
    }
  }

  /** The last group is the day of the last value. */
  lemma LastGroupIsLastDay(groups: seq<Group>, values: seq<int>, dates: DayLabel)
    requires Groups(groups, values, dates) && Ascending(values) && DatesSort(values, dates) && values != []
    ensures groups != [] && groups[|groups| - 1].day == LabelOf(values[|values| - 1], dates)
  {
    hide StringLe, LabelOf;
    var days, last := Days(groups), LabelOf(values[|values| - 1], dates);
    assert OnDay(last, values, dates) && last in days;
    var k :| 0 <= k < |days| && days[k] == last;
    var top := days[|days| - 1];
    assert top in days && OnDay(top, values, dates);
    var j :| 0 <= j < |values| && LabelOf(values[j], dates) == top;
    LabelsAscend(values, dates, j, |values| - 1);
    if k < |days| - 1 {
      StringLeAntisymmetric(last, top);
      assert false;
    }
  }

  /** The groups before the last value was added. */
  function Shortened(groups: seq<Group>): seq<Group>
    requires groups != []
  {
    var rest, last := groups[..|groups| - 1], groups[|groups| - 1];
    if |last.clocks| <= 1 then rest else rest + [Group(last.day, last.clocks[..|last.clocks| - 1])]
  }

  lemma StepBack(values: seq<int>, dates: DayLabel, day: string)
    requires values != []
    ensures var before, last := values[..|values| - 1], values[|values| - 1];
            && (OnDay(day, values, dates) <==> OnDay(day, before, dates) || day == LabelOf(last, dates))
            && ClocksOn(day, values, dates)
               == ClocksOn(day, before, dates) + if LabelOf(last, dates) == day then [Clock(last)] else []
  {
    GroupStep(values, |values| - 1, dates);
    assert values[..|values|] == values;
  }

  lemma {:induction false} OnDayHasClock(day: string, values: seq<int>, dates: DayLabel)
    requires OnDay(day, values, dates)
    ensures ClocksOn(day, values, dates) != []
  {
    StepBack(values, dates, day);
    var before := values[..|values| - 1];
    if OnDay(day, before, dates) { OnDayHasClock(day, before, dates); }
  }

  lemma ShortenedDays(groups: seq<Group>, values: seq<int>, dates: DayLabel, d: string)
    requires Groups(groups, values, dates) && values != [] && groups != []
    requires groups[|groups| - 1].day == LabelOf(values[|values| - 1], dates)
    ensures var before := values[..|values| - 1];
            var days := Days(groups);
            d in (if OnDay(days[|days| - 1], before, dates) then days else days[..|days| - 1])
            <==> OnDay(d, before, dates)
  {
    StepBack(values, dates, d);
    hide StringLe, LabelOf, ClocksOn, OnDay;
    var days := Days(groups);
    assert days == days[..|days| - 1] + [days[|days| - 1]];
    assert forall i :: 0 <= i < |days| - 1 ==> days[i] != days[|days| - 1];
  }

  /** How many clocks the last group has says whether its day was already there. */
  lemma ShortenedShape(groups: seq<Group>, values: seq<int>, dates: DayLabel)
    requires Groups(groups, values, dates) && values != [] && groups != []
    requires groups[|groups| - 1].day == LabelOf(values[|values| - 1], dates)
    ensures var before, v, n := values[..|values| - 1], values[|values| - 1], |groups| - 1;
            var day := groups[n].day;
            && groups[n].clocks == ClocksOn(day, before, dates) + [Clock(v)]
            && Days(Shortened(groups)) == if OnDay(day, before, dates) then Days(groups) else Days(groups)[..n]
  {
    var before, day := values[..|values| - 1], groups[|groups| - 1].day;
    assert groups[|groups| - 1].clocks == ClocksOn(day, values, dates);
    StepBack(values, dates, day);
    DaysOfShortened(groups);
    hide *;
    if OnDay(day, before, dates) { OnDayHasClock(day, before, dates); } else { NotOnDay(day, before, dates); }
  }

  lemma DaysOfShortened(groups: seq<Group>)
    requires groups != []
    ensures var n := |groups| - 1;
            Days(Shortened(groups)) == if |groups[n].clocks| <= 1 then Days(groups)[..n] else Days(groups)
  {
  }

  lemma EarlierClocks(groups: seq<Group>, values: seq<int>, dates: DayLabel, i: nat)
    requires Groups(groups, values, dates) && values != [] && i < |groups| - 1
    requires groups[|groups| - 1].day == LabelOf(values[|values| - 1], dates)
    ensures groups[i].clocks == ClocksOn(groups[i].day, values[..|values| - 1], dates)
  {
    StepBack(values, dates, groups[i].day);
    hide StringLe, LabelOf, ClocksOn, OnDay, Clock;
    var days := Days(groups);
    assert days[i] != days[|days| - 1];
  }

  lemma ShortenedClocks(groups: seq<Group>, values: seq<int>, dates: DayLabel, i: nat)
    requires Groups(groups, values, dates) && values != [] && groups != []
    requires groups[|groups| - 1].day == LabelOf(values[|values| - 1], dates) && i < |Shortened(groups)|
    ensures Shortened(groups)[i].clocks == ClocksOn(Shortened(groups)[i].day, values[..|values| - 1], dates)
  {
    ShortenedShape(groups, values, dates);
    hide Groups, Days, StringLe, LabelOf, ClocksOn, OnDay, Clock;
    if i < |groups| - 1 {
      EarlierClocks(groups, values, dates, i);
      assert Shortened(groups)[i] == groups[i];
    }
  }

  lemma PrefixSorted(days: seq<string>)
    requires StrictlySorted(days) && days != []
    ensures StrictlySorted(days[..|days| - 1])
  {
  }

  lemma ShortenedGroups(groups: seq<Group>, values: seq<int>, dates: DayLabel)
    requires Groups(groups, values, dates) && values != [] && groups != []
    requires groups[|groups| - 1].day == LabelOf(values[|values| - 1], dates)
    ensures Groups(Shortened(groups), values[..|values| - 1], dates)
  {
    ShortenedShape(groups, values, dates);
    PrefixSorted(Days(groups));
    hide StrictlySorted, StringLe, LabelOf, ClocksOn, OnDay, Clock, Shortened, Days;
    var before := values[..|values| - 1];
    var short := Shortened(groups);
    forall d ensures d in Days(short) <==> OnDay(d, before, dates) { ShortenedDays(groups, values, dates, d); }
    forall i | 0 <= i < |short| ensures short[i].clocks == ClocksOn(short[i].day, before, dates) {
      ShortenedClocks(groups, values, dates, i);
    }
  }

  lemma ShortenedByLast(groups: seq<Group>, values: seq<int>, dates: DayLabel)
    requires Groups(groups, values, dates) && values != [] && groups != []
    requires groups[|groups| - 1].day == LabelOf(values[|values| - 1], dates)
    ensures Flatten(groups) == Flatten(Shortened(groups)) + [StampOf(values[|values| - 1], dates)]
  {
    ShortenedShape(groups, values, dates);
    hide Groups, LabelOf, ClocksOn, OnDay, Clock, Shortened, Flatten, Days;
    ShortenedFlatten(groups, StampOf(values[|values| - 1], dates));
  }

  lemma ShortenedFlatten(groups: seq<Group>, s: Stamp)
    requires groups != [] && groups[|groups| - 1].day == s.day && groups[|groups| - 1].clocks != []
    requires var c := groups[|groups| - 1].clocks; c[|c| - 1] == s.clock
    ensures Flatten(groups) == Flatten(Shortened(groups)) + [s]
  {
    var rest, last := groups[..|groups| - 1], groups[|groups| - 1];
    var shorter := Group(last.day, last.clocks[..|last.clocks| - 1]);
    assert Tagged(last) == Tagged(shorter) + [s];
    if |last.clocks| > 1 {
      assert (rest + [shorter])[..|rest|] == rest;
    } else {
      assert Tagged(shorter) == [];
    }
  }

  /** Concatenating the groups in order returns the instants in order: nothing is lost, added or reordered. */
  lemma {:induction false} GroupsConcatenate(groups: seq<Group>, values: seq<int>, dates: DayLabel)
    requires Groups(groups, values, dates) && Ascending(values) && DatesSort(values, dates)
    ensures Flatten(groups) == Stamps(values, dates)
    decreases |values|
  {
    if values == [] {
      NoValuesNoGroups(groups, dates);
      assert Flatten(groups) == [] == Stamps(values, dates);
    } else {
      var before := values[..|values| - 1];
      LastGroupIsLastDay(groups, values, dates);
      ShortenedGroups(groups, values, dates);
      ShortenedByLast(groups, values, dates);
      PrefixKeeps(values, dates);
      hide Groups, Ascending, DatesSort, Flatten, Shortened, StampOf, Stamps;
      GroupsConcatenate(Shortened(groups), before, dates);
      StampsLast(values, dates);
    }
  }

  lemma RunAscends(run: seq<int>, interval: int)
    requires interval > 0 && IsRun(run, interval)
    ensures Ascending(run)
  {
    forall i, j | 0 <= i < j < |run| ensures run[i] < run[j] {
      RunAt(run, interval, i);
      RunAt(run, interval, j);
      hide *;
      Product(j - i, interval);
      assert (j - i) * interval == j * interval - i * interval;
    }
  }

  /** Grouping the anchors of a span and concatenating the groups returns the anchors. */
  lemma AnchorGroupsConcatenate(start: int, end: int, interval: nat, groups: seq<Group>, dates: DayLabel)
    requires interval > 0
    requires var anchors := AnchorsOf(start, end, interval).value;
             Groups(groups, anchors, dates) && DatesSort(anchors, dates)
    ensures Flatten(groups) == Stamps(AnchorsOf(start, end, interval).value, dates)
  {
    var anchors := AnchorsOf(start, end, interval).value;
    AnchorsAreShortestCover(start, end, interval, anchors);
    RunAscends(anchors, interval);
    GroupsConcatenate(groups, anchors, dates);
  }

  lemma StampsLast(values: seq<int>, dates: DayLabel)
    requires values != []
    ensures Stamps(values, dates) == Stamps(values[..|values| - 1], dates) + [StampOf(values[|values| - 1], dates)]
  {
    hide StampOf;
  }

  lemma NoValuesNoGroups(groups: seq<Group>, dates: DayLabel)
    requires Groups(groups, [], dates)
    ensures groups == []
  {
    if groups != [] { FirstDayIsListed(groups); }
  }

  lemma FirstDayIsListed(groups: seq<Group>)
    requires groups != []
    ensures groups[0].day in Days(groups)
  {
    assert Days(groups)[0] == groups[0].day;
  }

  lemma PrefixKeeps(values: seq<int>, dates: DayLabel)
    requires Ascending(values) && DatesSort(values, dates) && values != []
    ensures Ascending(values[..|values| - 1]) && DatesSort(values[..|values| - 1], dates)
  {
    hide StringLe, LabelOf;
    var before := values[..|values| - 1];
    assert forall i :: 0 <= i < |before| ==> before[i] == values[i];
  }

  /** The number that two digits spell. */
  function Spelled(digits: string): int
    requires |digits| == 2
  {
    10 * (digits[0] as int - '0' as int) + (digits[1] as int - '0' as int)
  }

  lemma TwoDigitsSpell(n: nat)
    requires n < 100
    ensures |TwoDigits(n)| == 2 && Spelled(TwoDigits(n)) == n
  {
  }

  /** The clock shows hours, a colon and minutes: the time of day without its seconds. */
  lemma ClockExact(v: int)
    ensures |Clock(v)| == 5 && Clock(v)[2] == ':'
    ensures 0 <= Spelled(Clock(v)[..2]) < 24 && 0 <= Spelled(Clock(v)[3..]) < 60
    ensures var shown := 3600 * Spelled(Clock(v)[..2]) + 60 * Spelled(Clock(v)[3..]);
            shown <= v % 86400 < shown + 60
  {
    var s := v % DAY;
    var hours, minutes := s / 3600, s % 3600 / 60;
    TwoDigitsSpell(hours);
    TwoDigitsSpell(minutes);
    assert Clock(v)[..2] == TwoDigits(hours) && Clock(v)[3..] == TwoDigits(minutes);
    hide TwoDigits, Clock, Spelled;
    assert s == 3600 * hours + s % 3600 && s % 3600 == 60 * minutes + s % 3600 % 60;
  }

  /** The label is that of the day the instant lies in. */
  lemma LabelExact(v: int, d: int, dates: DayLabel)
    requires 86400 * d <= v < 86400 * (d + 1)
    ensures LabelOf(v, dates) == dates(d)
  {
  }

  /** Whole-minute instants are determined by their stamps. */
  lemma StampReads(v: int, w: int, dates: DayLabel)
    requires v % 60 == 0 && w % 60 == 0 && StampOf(v, dates) == StampOf(w, dates) && DatesSort([v, w], dates)
    ensures v == w
  {
    ClockReads(v, w);
    hide Clock, LabelOf, StringLe;
    assert [v, w][0] == v && [v, w][1] == w;
    assert v / DAY == w / DAY;
    assert v == v / DAY * DAY + v % DAY && w == w / DAY * DAY + w % DAY;
  }

  lemma DigitsRead(n: nat, m: nat)
    requires n < 100 && m < 100 && TwoDigits(n) == TwoDigits(m)
    ensures n == m
  {
    var a, b := TwoDigits(n), TwoDigits(m);
    assert a[0] == b[0] && a[1] == b[1];
  }

  lemma MinuteOfDay(v: int)
    requires v % 60 == 0
    ensures v % DAY % 60 == 0
  {
    assert v == v / DAY * DAY + v % DAY && v == v / 60 * 60;
    assert v % DAY == (v / 60 - v / DAY * 1440) * 60;
  }

  /** The clock time of a whole-minute instant is its second of the day. */
  lemma ClockReads(v: int, w: int)
    requires v % 60 == 0 && w % 60 == 0 && Clock(v) == Clock(w)
    ensures v % DAY == w % DAY
  {
    var s: nat, t: nat := v % DAY, w % DAY;
    assert Clock(v)[..2] == TwoDigits(s / 3600) && Clock(w)[..2] == TwoDigits(t / 3600);
    assert Clock(v)[3..] == TwoDigits(s % 3600 / 60) && Clock(w)[3..] == TwoDigits(t % 3600 / 60);
    DigitsRead(s / 3600, t / 3600);
    DigitsRead(s % 3600 / 60, t % 3600 / 60);
    MinuteOfDay(v);
    MinuteOfDay(w);
    hide *;
    WholeMinutes(s);
    WholeMinutes(t);
  }

  lemma WholeMinutes(s: nat)
    requires s % 60 == 0
    ensures s == 3600 * (s / 3600) + 60 * (s % 3600 / 60)
  {
  }
}
