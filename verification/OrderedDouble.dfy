/**
 The order-preserving integer code of doubles (IEEE 754-2019 section 3.4) and the metrics folded
 over compared rows. A double is its 64 bits; its value is an exact integer in units of 2^-1074.
 */
module OrderedDouble {
  import opened Bytes
  import opened Counting

  const SIGN := 0x8000_0000_0000_0000
  const FRACTION := 0x10_0000_0000_0000
  const INFINITE_EXPONENT := 2047

  type Double = b: nat | b < U64_LIMIT

  // ------------------------------------------------------------------
  // Values
  // ------------------------------------------------------------------

  function Pow2(n: nat): (p: nat)
    ensures p >= 1
  {
    if n == 0 then 1 else 2 * Pow2(n - 1)
  }

  /** The bits without the sign. */
  function Rank(b: Double): (r: int)
    ensures 0 <= r < SIGN
  {
    b % SIGN
  }

  /** The largest rank of a finite double, plus one. */
  const FINITE_RANKS: int := INFINITE_EXPONENT * FRACTION

  predicate Finite(b: Double) {
    Rank(b) < FINITE_RANKS
  }

  /** The magnitude with biased exponent rank / 2^52 and fraction rank % 2^52; exponent 0 is subnormal. */
  function Magnitude(rank: nat): (m: int)
    ensures m >= 0
  {
    var exponent, fraction := rank / FRACTION, rank % FRACTION;
    if exponent == 0 then fraction else (FRACTION + fraction) * Pow2(exponent - 1)
  }

  function Value(b: Double): int {
    if b < SIGN then Magnitude(Rank(b)) else -Magnitude(Rank(b))
  }

  // ------------------------------------------------------------------
  // ordered_f64
  // ------------------------------------------------------------------

  /** A zero of either sign becomes +0; then negatives are complemented and the rest offset. */
  function Ordered(b: Double): (code: nat)
    ensures code < U64_LIMIT
  {
    var bits := if Value(b) == 0 then 0 else b;
    if bits >= SIGN then U64_LIMIT - 1 - bits else bits + SIGN
  }

  /** Finite are the doubles below the infinities, whatever their sign. */
  lemma FiniteExact(b: Double)
    ensures Finite(b) <==> b % 0x8000_0000_0000_0000 < 0x7FF0_0000_0000_0000
  {
  }

  lemma {:induction false} Pow2Monotone(a: nat, b: nat)
    requires a <= b
    ensures Pow2(a) <= Pow2(b)
  {
    if a < b { Pow2Monotone(a, b - 1); }
  }

  lemma ScaledLess(m: nat, n: nat, p: nat)
    requires m < n && p >= 1
    ensures m * p < n * p
  {
    hide *;
    assert n * p == m * p + (n - m) * p;
  }

  lemma ScaledLeast(m: nat, p: nat, q: nat)
    requires p <= q
    ensures m * p <= m * q
  {
  }

  /** Consecutive exponents do not overlap. */
  lemma MagnitudeBounds(rank: nat)
    ensures var e := rank / FRACTION;
            if e == 0 then Magnitude(rank) < FRACTION
            else FRACTION * Pow2(e - 1) <= Magnitude(rank) < FRACTION * Pow2(e)
  {
    var e, f := rank / FRACTION, rank % FRACTION;
    if e > 0 {
      assert (FRACTION + f) * Pow2(e - 1) == FRACTION * Pow2(e - 1) + f * Pow2(e - 1);
      ScaledLess(FRACTION + f, 2 * FRACTION, Pow2(e - 1));
      assert 2 * FRACTION * Pow2(e - 1) == FRACTION * Pow2(e);
    }
  }

  lemma MagnitudeMonotone(a: nat, b: nat)
    requires a < b
    ensures Magnitude(a) < Magnitude(b)
  {
    var ea, eb := a / FRACTION, b / FRACTION;
    if ea == eb {
      if ea > 0 { ScaledLess(FRACTION + a % FRACTION, FRACTION + b % FRACTION, Pow2(ea - 1)); }
    } else {
      MagnitudeBounds(a);
      MagnitudeBounds(b);
      Pow2Monotone(ea, eb - 1);
      ScaledLeast(FRACTION, Pow2(ea), Pow2(eb - 1));
    }
  }

  /** The value at a signed rank; ranks from -(FINITE_RANKS-1) to FINITE_RANKS-1 are the finite values. */
  function ValueAt(rank: int): int {
    if rank >= 0 then Magnitude(rank) else -Magnitude(-rank)
  }

  function SignedRank(b: Double): int {
    if b < SIGN then Rank(b) else -Rank(b)
  }

  lemma ValueAtMonotone(a: int, b: int)
    ensures ValueAt(a) < ValueAt(b) <==> a < b
    ensures ValueAt(a) == ValueAt(b) <==> a == b
  {
    assert Magnitude(0) == 0;
    if a >= 0 && b >= 0 {
      if a < b { MagnitudeMonotone(a, b); } else if b < a { MagnitudeMonotone(b, a); }
    } else if a < 0 && b < 0 {
      if a < b { MagnitudeMonotone(-b, -a); } else if b < a { MagnitudeMonotone(-a, -b); }
    } else if a < 0 {
      MagnitudeMonotone(0, -a);
      if b > 0 { MagnitudeMonotone(0, b); }
    } else {
      MagnitudeMonotone(0, -b);
      if a > 0 { MagnitudeMonotone(0, a); }
    }
  }

  lemma ValueIsRank(b: Double)
    ensures Value(b) == ValueAt(SignedRank(b))
    ensures Value(b) == 0 <==> SignedRank(b) == 0
  {
    ValueAtMonotone(SignedRank(b), 0);
  }

  /** The code is an affine function of the signed rank on each side of zero. */
  lemma OrderedIsRank(b: Double)
    ensures Ordered(b) == SIGN + SignedRank(b) - if SignedRank(b) < 0 then 1 else 0
  {
    ValueIsRank(b);
  }

  /** Over all doubles read as signed magnitudes the code is strictly monotone, and it identifies the zeros. */
  lemma OrderedMonotone(a: Double, b: Double)
    ensures Ordered(a) < Ordered(b) <==> Value(a) < Value(b)
    ensures Ordered(a) == Ordered(b) <==> Value(a) == Value(b)
  {
    OrderedIsRank(a);
    OrderedIsRank(b);
    ValueIsRank(a);
    ValueIsRank(b);
    ValueAtMonotone(SignedRank(a), SignedRank(b));
  }

  /** The slot just below zero, where the code of -0 would be, is never produced. */
  lemma MissingSlot(b: Double)
    ensures Ordered(b) != SIGN - 1
  {
    OrderedIsRank(b);
  }

  // ------------------------------------------------------------------
  // Distance in representable steps
  // ------------------------------------------------------------------

  /** The finite values above a up to b. */
  ghost function Steps(a: Double, b: Double): set<int> {
    set c: Double | 0 <= c < U64_LIMIT && Finite(c) && Value(a) < Value(c) <= Value(b) :: Value(c)
  }

  ghost function Interval(lo: int, hi: int): (s: set<int>)
    requires lo <= hi
    ensures forall k :: k in s <==> lo < k <= hi
    ensures |s| == hi - lo
    decreases hi - lo
  {
    if lo == hi then {} else Interval(lo, hi - 1) + {hi}
  }

  /** The finite double at a signed rank. */
  function AtRank(rank: int): Double
    requires -FINITE_RANKS < rank < FINITE_RANKS
  {
    if rank >= 0 then rank else SIGN - rank
  }

  lemma AtRankIsInverse(rank: int)
    requires -FINITE_RANKS < rank < FINITE_RANKS
    ensures Finite(AtRank(rank)) && SignedRank(AtRank(rank)) == rank && Value(AtRank(rank)) == ValueAt(rank)
  {
    ValueIsRank(AtRank(rank));
  }

  lemma StepsAreRanks(a: Double, b: Double)
    requires Finite(a) && Finite(b) && Value(a) <= Value(b)
    ensures SignedRank(a) <= SignedRank(b)
    ensures Steps(a, b) == Image(Interval(SignedRank(a), SignedRank(b)), ValueAt)
  {
    ValueIsRank(a);
    ValueIsRank(b);
    ValueAtMonotone(SignedRank(b), SignedRank(a));
    var ranks := Interval(SignedRank(a), SignedRank(b));
    forall v ensures v in Steps(a, b) <==> v in Image(ranks, ValueAt) {
      if v in Steps(a, b) {
        var c: Double :| Finite(c) && Value(a) < Value(c) <= Value(b) && Value(c) == v;
        ValueIsRank(c);
        ValueAtMonotone(SignedRank(a), SignedRank(c));
        ValueAtMonotone(SignedRank(b), SignedRank(c));
        assert SignedRank(c) in ranks;
      }
      if v in Image(ranks, ValueAt) {
        var r :| r in ranks && ValueAt(r) == v;
        AtRankIsInverse(r);
        ValueAtMonotone(SignedRank(a), r);
        ValueAtMonotone(SignedRank(b), r);
      }
    }
  }

  /**
   The code difference is the number of representable steps, plus one exactly when the step over
   the unused slot of -0 lies between.
   */
  lemma DistanceExact(a: Double, b: Double)
    requires Finite(a) && Finite(b) && Value(a) <= Value(b)
    ensures Ordered(b) - Ordered(a) == |Steps(a, b)| + if Value(a) < 0 <= Value(b) then 1 else 0
  {
    StepsAreRanks(a, b);
    forall x, y | ValueAt(x) == ValueAt(y) ensures x == y { ValueAtMonotone(x, y); }
    ImageSize(Interval(SignedRank(a), SignedRank(b)), ValueAt);
    OrderedIsRank(a);
    OrderedIsRank(b);
    ValueIsRank(a);
    ValueIsRank(b);
    ValueAtMonotone(SignedRank(a), 0);
    ValueAtMonotone(SignedRank(b), 0);
  }

  /** From the greatest negative value to zero is one step, but two codes. */
  lemma OneStepTwoCodes()
    ensures var a: Double, b: Double := SIGN + 1, 0;
            |Steps(a, b)| == 1 && Ordered(b) - Ordered(a) == 2
  {
    var a: Double, b: Double := SIGN + 1, 0;
    ValueIsRank(a);
    ValueIsRank(b);
    assert Value(a) == -1 && Value(b) == 0;
    OrderedIsRank(a);
    DistanceExact(a, b);
  }
}
