/**
 Per-column numeric metrics of two keyed tables, folded over the common keys in sorted order. Keys
 and their order are parameters, as is the rounding of differences and quotients.
 */
module DiffMetrics {
  import opened Wrappers
  import opened Sorting
  import opened OrderedDouble

  /** A null cell is None. */
  datatype Row<K> = Row(key: K, rust: Option<Double>, native: Option<Double>)

  /** A running maximum and the key that attained it; zero has no key. */
  datatype Peak<K> = Peak(max: real, key: Option<K>)

  datatype Metrics<K> = Metrics(
    pairedCount: nat, presenceMismatches: nat, nonfiniteCount: nat, exactMismatches: nat,
    absolute: Peak<K>, relative: Peak<K>, ulps: Peak<K>)

  type Rounding = real -> real

  function Empty<K>(): Metrics<K> {
    Metrics(0, 0, 0, 0, Peak(0.0, None), Peak(0.0, None), Peak(0.0, None))
  }

  predicate Paired<K>(r: Row<K>) { r.rust.Some? && r.native.Some? }

  predicate Lopsided<K>(r: Row<K>) { r.rust.Some? != r.native.Some? }

  predicate Comparable<K>(r: Row<K>) { Paired(r) && Finite(r.rust.value) && Finite(r.native.value) }

  predicate Unequal<K>(r: Row<K>) { Comparable(r) && Value(r.rust.value) != Value(r.native.value) }

  // ------------------------------------------------------------------
  // The three distances
  // ------------------------------------------------------------------

  /** The double 1.0e-300. */
  const TINY: Double := 0x01A5_6E1F_C2F8_F359

  function Abs(x: int): nat {
    if x < 0 then -x else x
  }

  function Max(a: int, b: int): int {
    if a < b then b else a
  }

  /** In units of 2^-1074, as all values are. */
  function Absolute(a: Double, b: Double, round: Rounding): real {
    round(Abs(Value(a) - Value(b)) as real)
  }

  function Relative(a: Double, b: Double, round: Rounding): real {
    ScalePositive();
    round(Absolute(a, b, round) / Max(Max(Abs(Value(a)), Abs(Value(b))), Value(TINY)) as real)
  }

  function Ulps(a: Double, b: Double): nat {
    Abs(Ordered(a) - Ordered(b))
  }

  /** A distance of the two values of a row. */
  type Measure = (Double, Double) -> real

  function AbsoluteBy(round: Rounding): Measure {
    (a: Double, b: Double) => Absolute(a, b, round)
  }

  function RelativeBy(round: Rounding): Measure {
    (a: Double, b: Double) => Relative(a, b, round)
  }

  function UlpsBy(): Measure {
    (a: Double, b: Double) => Ulps(a, b) as real
  }

  /** The scale of a quotient is never zero. */
  lemma ScalePositive()
    ensures Value(TINY) > 0
  {
    ValueIsRank(TINY);
    ValueAtMonotone(0, SignedRank(TINY));
  }

  /**
   Without rounding the absolute distance is the difference of the values, and the relative one is
   that difference over the larger of the two magnitudes and 1.0e-300.
   */
  lemma DistancesExact(a: Double, b: Double) returns (scale: int)
    ensures scale > 0 && -scale <= Value(a) <= scale && -scale <= Value(b) <= scale && Value(TINY) <= scale
    ensures scale in {Value(a), -Value(a), Value(b), -Value(b), Value(TINY)}
    ensures var exact := (x: real) => x;
            && Absolute(a, b, exact) >= 0.0
            && Absolute(a, b, exact) in {(Value(a) - Value(b)) as real, (Value(b) - Value(a)) as real}
            && Relative(a, b, exact) * scale as real == Absolute(a, b, exact)
  {
    ScalePositive();
    hide Value;
    scale := Max(Max(Abs(Value(a)), Abs(Value(b))), Value(TINY));
  }

  // ------------------------------------------------------------------
  // update_numeric_metrics
  // ------------------------------------------------------------------

  /** The mutable metrics record of one column. */
  class NumericMetrics<K> {
    var pairedCount: nat
    var presenceMismatches: nat
    var nonfiniteCount: nat
    var exactMismatches: nat
    var maxAbs: real
    var maxRel: real
    var maxUlps: nat
    var worstAbsKey: Option<K>
    var worstRelKey: Option<K>
    var worstUlpKey: Option<K>

    function State(): Metrics<K>
      reads this
    {
      Metrics(pairedCount, presenceMismatches, nonfiniteCount, exactMismatches,
              Peak(maxAbs, worstAbsKey), Peak(maxRel, worstRelKey), Peak(maxUlps as real, worstUlpKey))
    }

    constructor ()
      ensures State() == Empty()
    {
      pairedCount, presenceMismatches, nonfiniteCount, exactMismatches := 0, 0, 0, 0;
      maxAbs, maxRel, maxUlps := 0.0, 0.0, 0;
      worstAbsKey, worstRelKey, worstUlpKey := None, None, None;
    }

    method Update(key: K, rust: Option<Double>, native: Option<Double>, round: Rounding)
      modifies this
      ensures State() == Step(old(State()), Row(key, rust, native), round)
    {
      hide Value, Finite, Absolute, Relative, Ulps;
      if rust.None? || native.None? {
        if rust.Some? != native.Some? {
          presenceMismatches := presenceMismatches + 1;
        }
        return;
      }
      pairedCount := pairedCount + 1;
      if !Finite(rust.value) || !Finite(native.value) {
        nonfiniteCount := nonfiniteCount + 1;
        return;
      }
      if Value(rust.value) != Value(native.value) {
        exactMismatches := exactMismatches + 1;
      }
      var absolute := Absolute(rust.value, native.value, round);
      var relative := Relative(rust.value, native.value, round);
      var ulps := Ulps(rust.value, native.value);
      if absolute > maxAbs {
        maxAbs, worstAbsKey := absolute, Some(key);
      }
      if relative > maxRel {
        maxRel, worstRelKey := relative, Some(key);
      }
      if ulps > maxUlps {
        maxUlps, worstUlpKey := ulps, Some(key);
      }
    }
  }

  function Raise<K>(p: Peak<K>, key: K, amount: real): Peak<K> {
    if amount > p.max then Peak(amount, Some(key)) else p
  }

  /** How one row changes the metrics. */
  function Step<K>(m: Metrics<K>, r: Row<K>, round: Rounding): Metrics<K> {
    if !Paired(r) then m.(presenceMismatches := m.presenceMismatches + if Lopsided(r) then 1 else 0)
    else if !Comparable(r) then m.(pairedCount := m.pairedCount + 1, nonfiniteCount := m.nonfiniteCount + 1)
    else
      var a, b := r.rust.value, r.native.value;
      m.(pairedCount := m.pairedCount + 1,
         exactMismatches := m.exactMismatches + if Unequal(r) then 1 else 0,
         absolute := Raise(m.absolute, r.key, Absolute(a, b, round)),
         relative := Raise(m.relative, r.key, Relative(a, b, round)),
         ulps := Raise(m.ulps, r.key, Ulps(a, b) as real))
  }

  function Fold<K>(rows: seq<Row<K>>, round: Rounding): Metrics<K> {
    if rows == [] then Empty() else Step(Fold(rows[..|rows| - 1], round), rows[|rows| - 1], round)
  }

  // ------------------------------------------------------------------
  // What the fold computes
  // ------------------------------------------------------------------

  function Distance<K>(r: Row<K>, measure: Measure): real
    requires Comparable(r)
  {
    measure(r.rust.value, r.native.value)
  }

  /** Row i is the first to attain the largest distance. */
  ghost predicate FirstWorst<K>(rows: seq<Row<K>>, i: nat, p: Peak<K>, measure: Measure) {
    && i < |rows| && Comparable(rows[i]) && Distance(rows[i], measure) == p.max && p.key == Some(rows[i].key)
    && forall j :: 0 <= j < i && Comparable(rows[j]) ==> Distance(rows[j], measure) < p.max
  }

  /** p is the largest distance, or zero if none is positive; if positive, its key is the first row's to attain it. */
  ghost predicate IsPeak<K>(rows: seq<Row<K>>, p: Peak<K>, measure: Measure) {
    && p.max >= 0.0
    && (forall i :: 0 <= i < |rows| && Comparable(rows[i]) ==> Distance(rows[i], measure) <= p.max)
    && if p.max == 0.0 then p.key == None else exists i :: FirstWorst(rows, i, p, measure)
  }

  lemma PeakStep<K>(before: seq<Row<K>>, r: Row<K>, p: Peak<K>, measure: Measure)
    requires IsPeak(before, p, measure)
    ensures IsPeak(before + [r], if Comparable(r) then Raise(p, r.key, Distance(r, measure)) else p, measure)
  {
    hide Comparable;
    var rows, q := before + [r], if Comparable(r) then Raise(p, r.key, Distance(r, measure)) else p;
    assert forall i :: 0 <= i < |before| ==> rows[i] == before[i];
    if q == p && p.max > 0.0 {
      var i :| FirstWorst(before, i, p, measure);
      assert FirstWorst(rows, i, q, measure);
    }
    if q != p {
      assert FirstWorst(rows, |rows| - 1, q, measure);
    }
  }

  /** Each of the three maxima is true, and each key belongs to the first row attaining it, however results round. */
  lemma {:induction false} FoldFindsFirstMaximum<K>(rows: seq<Row<K>>, round: Rounding)
    ensures var m := Fold(rows, round);
            && IsPeak(rows, m.absolute, AbsoluteBy(round))
            && IsPeak(rows, m.relative, RelativeBy(round))
            && IsPeak(rows, m.ulps, UlpsBy())
  {
    if rows != [] {
      var before, r := rows[..|rows| - 1], rows[|rows| - 1];
      FoldFindsFirstMaximum(before, round);
      var m := Fold(before, round);
      assert before + [r] == rows;
      StepRaises(m, r, round);
      hide *;
      PeakStep(before, r, m.absolute, AbsoluteBy(round));
      PeakStep(before, r, m.relative, RelativeBy(round));
      PeakStep(before, r, m.ulps, UlpsBy());
    }
  }

  lemma StepRaises<K>(m: Metrics<K>, r: Row<K>, round: Rounding)
    ensures var n := Step(m, r, round);
            if Comparable(r)
            then n.absolute == Raise(m.absolute, r.key, Distance(r, AbsoluteBy(round)))
                 && n.relative == Raise(m.relative, r.key, Distance(r, RelativeBy(round)))
                 && n.ulps == Raise(m.ulps, r.key, Distance(r, UlpsBy()))
            else n.absolute == m.absolute && n.relative == m.relative && n.ulps == m.ulps
  {
    hide Absolute, Relative, Ulps, Raise, Finite;
  }

  function Count<T>(rows: seq<T>, p: T -> bool): nat {
    if rows == [] then 0 else Count(rows[..|rows| - 1], p) + if p(rows[|rows| - 1]) then 1 else 0
  }

  /** The counters count rows of their kind. */
  lemma {:induction false} FoldCounts<K>(rows: seq<Row<K>>, round: Rounding)
    ensures var m := Fold(rows, round);
            && m.pairedCount == Count(rows, Paired)
            && m.presenceMismatches == Count(rows, Lopsided)
            && m.nonfiniteCount == m.pairedCount - Count(rows, Comparable)
            && m.exactMismatches == Count(rows, Unequal)
  {
    if rows != [] {
      FoldCounts(rows[..|rows| - 1], round);
    }
  }

  lemma {:induction false} NoneCounted<T>(rows: seq<T>, p: T -> bool)
    ensures Count(rows, p) == 0 <==> forall i :: 0 <= i < |rows| ==> !p(rows[i])
  {
    if rows != [] {
      var before := rows[..|rows| - 1];
      NoneCounted(before, p);
      assert forall i :: 0 <= i < |before| ==> rows[i] == before[i];
    }
  }

  /** No compared row has a difference. */
  ghost predicate AllEqual<K>(rows: seq<Row<K>>) {
    forall i :: 0 <= i < |rows| && Comparable(rows[i]) ==> Value(rows[i].rust.value) == Value(rows[i].native.value)
  }

  /** A distance that is positive exactly between different values. */
  ghost predicate Separates(measure: Measure) {
    forall a: Double, b: Double :: (measure(a, b) > 0.0 <==> Value(a) != Value(b)) && measure(a, b) >= 0.0
  }

  lemma ZeroPeak<K>(rows: seq<Row<K>>, p: Peak<K>, measure: Measure)
    requires IsPeak(rows, p, measure) && Separates(measure)
    ensures p.max == 0.0 <==> AllEqual(rows)
  {
    hide Value, Finite;
    if p.max > 0.0 {
      var i: nat :| FirstWorst(rows, i, p, measure);
      assert Value(rows[i].rust.value) != Value(rows[i].native.value);
    }
    forall i | 0 <= i < |rows| && Comparable(rows[i]) && p.max == 0.0
      ensures Value(rows[i].rust.value) == Value(rows[i].native.value)
    {
      assert Distance(rows[i], measure) <= p.max;
    }
  }

  /**
   A zero mismatch count, a zero code distance and, if rounding keeps differences of at least the
   smallest double positive, a zero absolute distance all say that the compared values are equal.
   */
  lemma ZeroDistanceIsZeroMismatch<K>(rows: seq<Row<K>>, round: Rounding)
    ensures var m := Fold(rows, round);
            && (m.exactMismatches == 0 <==> AllEqual(rows))
            && (m.ulps.max == 0.0 <==> AllEqual(rows))
            && (round(0.0) == 0.0 && (forall x :: x >= 1.0 ==> round(x) > 0.0) ==>
                  (m.absolute.max == 0.0 <==> AllEqual(rows)))
  {
    FoldFindsFirstMaximum(rows, round);
    FoldCounts(rows, round);
    NoneCounted(rows, Unequal);
    UlpsSeparate();
    if round(0.0) == 0.0 && forall x :: x >= 1.0 ==> round(x) > 0.0 { AbsoluteSeparates(round); }
    hide Comparable, IsPeak, Separates, Fold, Value;
    var m := Fold(rows, round);
    ZeroPeak(rows, m.ulps, UlpsBy());
    if Separates(AbsoluteBy(round)) { ZeroPeak(rows, m.absolute, AbsoluteBy(round)); }
  }

  lemma UlpsSeparate()
    ensures Separates(UlpsBy())
  {
    forall a: Double, b: Double ensures Ulps(a, b) > 0 <==> Value(a) != Value(b) { OrderedMonotone(a, b); }
  }

  lemma AbsoluteSeparates(round: Rounding)
    requires round(0.0) == 0.0 && forall x :: x >= 1.0 ==> round(x) > 0.0
    ensures Separates(AbsoluteBy(round))
  {
    hide Value;
    forall a: Double, b: Double
      ensures (Absolute(a, b, round) > 0.0 <==> Value(a) != Value(b)) && Absolute(a, b, round) >= 0.0
    {
      var d := Abs(Value(a) - Value(b));
      assert d == 0 || d as real >= 1.0;
    }
  }

  // ------------------------------------------------------------------
  // compare_rows, one numeric column
  // ------------------------------------------------------------------

  ghost predicate TotalOrder<K(!new)>(le: (K, K) -> bool) {
    TotalPreorder(le) && forall x, y :: le(x, y) && le(y, x) ==> x == y
  }

  function RowsOf<K>(keys: seq<K>, rust: map<K, Option<Double>>, native: map<K, Option<Double>>): (rows: seq<Row<K>>)
    requires forall k :: k in keys ==> k in rust && k in native
    ensures |rows| == |keys|
  {
    seq(|keys|, i requires 0 <= i < |keys| => Row(keys[i], rust[keys[i]], native[keys[i]]))
  }

  /** The elements of a set, each once, in some order. */
  method Elements<K(==)>(s: set<K>) returns (r: seq<K>)
    ensures multiset(r) == multiset(s)
  {
    r := [];
    var rest := s;
    while rest != {}
      invariant rest <= s && multiset(r) == multiset(s - rest)
      decreases rest
    {
      var x :| x in rest;
      assert s - (rest - {x}) == (s - rest) + {x};
      r := r + [x];
      rest := rest - {x};
    }
    assert s - rest == s;
  }

  /** The elements of a set in order, each once. */
  ghost predicate Lists<K(!new)>(keys: seq<K>, s: set<K>, le: (K, K) -> bool) {
    Sorted(keys, le) && multiset(keys) == multiset(s)
  }

  lemma ListMembers<K(!new)>(keys: seq<K>, s: set<K>, le: (K, K) -> bool)
    requires Lists(keys, s, le)
    ensures |keys| == |s| && forall k :: k in keys <==> k in s
  {
    assert |multiset(keys)| == |multiset(s)|;
    forall k ensures k in keys <==> k in s { assert k in multiset(keys) <==> k in multiset(s); }
  }

  method SortKeys<K(==, !new)>(s: set<K>, le: (K, K) -> bool) returns (keys: seq<K>)
    requires TotalOrder(le)
    ensures Lists(keys, s, le)
  {
    var found := Elements(s);
    keys := Sort(found, le);
    SortSorts(found, le);
  }

  /** The rows of one side only are listed; their number is the list's length, and a report shows its first twenty. */
  method CompareColumn<K(==, !new)>(rust: map<K, Option<Double>>, native: map<K, Option<Double>>, le: (K, K) -> bool,
                                   round: Rounding)
    returns (common: seq<K>, onlyRust: seq<K>, onlyNative: seq<K>, metrics: NumericMetrics<K>)
    requires TotalOrder(le)
    ensures Lists(common, rust.Keys * native.Keys, le) && forall k :: k in common ==> k in rust && k in native
    ensures Lists(onlyRust, rust.Keys - native.Keys, le) && Lists(onlyNative, native.Keys - rust.Keys, le)
    ensures fresh(metrics) && metrics.State() == Fold(RowsOf(common, rust, native), round)
  {
    hide Fold, Lists, Sort, Sorted, TotalOrder;
    onlyRust := SortKeys(rust.Keys - native.Keys, le);
    onlyNative := SortKeys(native.Keys - rust.Keys, le);
    common := SortKeys(rust.Keys * native.Keys, le);
    ListMembers(common, rust.Keys * native.Keys, le);
    metrics := new NumericMetrics();
    ghost var rows := RowsOf(common, rust, native);
    NoRows(rows, round);
    for i := 0 to |common|
      invariant metrics.State() == Fold(rows[..i], round)
    {
      RowStep(rows, i, round);
      metrics.Update(common[i], rust[common[i]], native[common[i]], round);
    }
    assert rows[..|rows|] == rows;
  }

  /** The mismatch count of a column that is not numeric is the number of common keys with different values. */
  method CompareCategory<K(==, !new), V(==)>(rust: map<K, V>, native: map<K, V>, le: (K, K) -> bool)
    returns (mismatches: nat)
    requires TotalOrder(le)
    ensures mismatches == |Mismatches(rust, native)|
  {
    var common := SortKeys(rust.Keys * native.Keys, le);
    ListMembers(common, rust.Keys * native.Keys, le);
    ListDistinct(common, rust.Keys * native.Keys, le);
    hide *;
    AllDiffering(common, rust, native);
    mismatches := 0;
    for i := 0 to |common|
      invariant mismatches == |Differing(common[..i], rust, native)|
    {
      DifferingStep(common, i, rust, native);
      if rust[common[i]] != native[common[i]] {
        mismatches := mismatches + 1;
      }
    }
  }

  /** The common keys with different values. */
  ghost function Mismatches<K(!new), V>(rust: map<K, V>, native: map<K, V>): set<K> {
    set k | k in rust && k in native && rust[k] != native[k]
  }

  /** Those of them that are listed. */
  ghost function Differing<K(!new), V>(keys: seq<K>, rust: map<K, V>, native: map<K, V>): (s: set<K>)
    ensures forall k :: k in s <==> k in keys && k in rust && k in native && rust[k] != native[k]
  {
    set k | k in keys && k in rust && k in native && rust[k] != native[k]
  }

  lemma DifferingStep<K(!new), V>(keys: seq<K>, i: nat, rust: map<K, V>, native: map<K, V>)
    requires i < |keys| && keys[i] in rust && keys[i] in native && keys[i] !in keys[..i]
    ensures |Differing(keys[..i + 1], rust, native)|
            == |Differing(keys[..i], rust, native)| + if rust[keys[i]] != native[keys[i]] then 1 else 0
  {
    assert keys[..i + 1] == keys[..i] + [keys[i]];
    assert Differing(keys[..i + 1], rust, native)
           == Differing(keys[..i], rust, native) + if rust[keys[i]] != native[keys[i]] then {keys[i]} else {};
  }

  lemma AllDiffering<K(!new), V>(keys: seq<K>, rust: map<K, V>, native: map<K, V>)
    requires forall k :: k in keys <==> k in rust && k in native
    ensures Differing(keys[..0], rust, native) == {}
    ensures Differing(keys[..|keys|], rust, native) == Mismatches(rust, native)
  {
    assert keys[..|keys|] == keys;
  }

  lemma ListDistinct<K(!new)>(keys: seq<K>, s: set<K>, le: (K, K) -> bool)
    requires Lists(keys, s, le)
    ensures forall i :: 0 <= i < |keys| ==> keys[i] !in keys[..i]
  {
    forall i | 0 <= i < |keys| ensures keys[i] !in keys[..i] { OnceBefore(keys, s, i); }
  }

  lemma OnceBefore<K>(keys: seq<K>, s: set<K>, i: nat)
    requires multiset(keys) == multiset(s) && i < |keys|
    ensures keys[i] !in keys[..i]
  {
    var k := keys[i];
    assert keys == keys[..i] + [k] + keys[i + 1..];
    assert multiset(keys)[k] == multiset(keys[..i])[k] + 1 + multiset(keys[i + 1..])[k];
    assert multiset(s)[k] <= 1;
  }

  lemma NoRows<K>(rows: seq<Row<K>>, round: Rounding)
    ensures Fold(rows[..0], round) == Empty()
  {
  }

  lemma RowStep<K>(rows: seq<Row<K>>, i: nat, round: Rounding)
    requires i < |rows|
    ensures Fold(rows[..i + 1], round) == Step(Fold(rows[..i], round), rows[i], round)
  {
    hide Step;
    assert rows[..i + 1][..i] == rows[..i];
  }

  /** Over sorted keys each reported key is the smallest one at the largest distance. */
  lemma WorstKeyIsSmallest<K(!new)>(keys: seq<K>, rust: map<K, Option<Double>>, native: map<K, Option<Double>>,
                                   le: (K, K) -> bool, p: Peak<K>, measure: Measure, k: K)
    requires TotalOrder(le) && Sorted(keys, le) && (forall x :: x in keys ==> x in rust && x in native) && k in keys
    requires IsPeak(RowsOf(keys, rust, native), p, measure)
    requires var r := Row(k, rust[k], native[k]); Comparable(r) && Distance(r, measure) == p.max > 0.0
    ensures p.key.Some? && le(p.key.value, k)
  {
    hide Comparable;
    var rows := RowsOf(keys, rust, native);
    var i: nat :| FirstWorst(rows, i, p, measure);
    var j :| 0 <= j < |keys| && keys[j] == k;
    assert rows[j] == Row(k, rust[k], native[k]);
    assert i <= j;
    assert le(k, k);
  }
}
