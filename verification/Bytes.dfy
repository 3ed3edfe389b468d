/** Bytes and fixed-width integer fields, as written by int.to_bytes and struct.pack. */
module Bytes {

  type Byte = b: int | 0 <= b < 256

  const U16_LIMIT := 0x1_0000
  const U32_LIMIT := 0x1_0000_0000
  const U64_LIMIT := 0x1_0000_0000_0000_0000

  function Pow256(n: nat): (p: nat)
    ensures p >= 1
  {
    if n == 0 then 1 else 256 * Pow256(n - 1)
  }

  lemma Pow256Values()
    ensures Pow256(2) == U16_LIMIT && Pow256(4) == U32_LIMIT && Pow256(8) == U64_LIMIT
  {
    assert Pow256(3) == 0x100_0000;
    assert Pow256(5) == 0x100_0000_0000;
    assert Pow256(6) == 0x1_0000_0000_0000;
    assert Pow256(7) == 0x100_0000_0000_0000;
  }

  /** The n low-order bytes of v, most significant first. */
  function BigEndian(v: nat, n: nat): (s: seq<Byte>)
    ensures |s| == n
  {
    if n == 0 then [] else BigEndian(v / 256, n - 1) + [v % 256]
  }

  function FromBigEndian(s: seq<Byte>): nat {
    if s == [] then 0 else 256 * FromBigEndian(s[..|s| - 1]) + s[|s| - 1]
  }

  /** The n low-order bytes of v, least significant first. */
  function LittleEndian(v: nat, n: nat): (s: seq<Byte>)
    ensures |s| == n
  {
    if n == 0 then [] else [v % 256] + LittleEndian(v / 256, n - 1)
  }

  function FromLittleEndian(s: seq<Byte>): nat {
    if s == [] then 0 else s[0] + 256 * FromLittleEndian(s[1..])
  }

  lemma {:induction false} BigEndianRoundTrip(v: nat, n: nat)
    requires v < Pow256(n)
    ensures FromBigEndian(BigEndian(v, n)) == v
  {
    if n > 0 {
      BigEndianRoundTrip(v / 256, n - 1);
      assert BigEndian(v, n)[..n - 1] == BigEndian(v / 256, n - 1);
    }
  }

  /** Reading a field loses nothing: its width and value give its bytes back. */
  lemma {:induction false} FromBigEndianRoundTrip(s: seq<Byte>)
    ensures FromBigEndian(s) < Pow256(|s|)
    ensures BigEndian(FromBigEndian(s), |s|) == s
  {
    if s != [] {
      FromBigEndianRoundTrip(s[..|s| - 1]);
      assert s == s[..|s| - 1] + [s[|s| - 1]];
    }
  }

  lemma {:induction false} LittleEndianRoundTrip(v: nat, n: nat)
    requires v < Pow256(n)
    ensures FromLittleEndian(LittleEndian(v, n)) == v
  {
    if n > 0 {
      LittleEndianRoundTrip(v / 256, n - 1);
      assert LittleEndian(v, n)[1..] == LittleEndian(v / 256, n - 1);
    }
  }

  /** Quotients by powers compose. */
  lemma DivideTwice(v: nat, i: nat)
    ensures v / 256 / Pow256(i) == v / Pow256(i + 1)
  {
    PowStep(i);
    hide *;
    NestedQuotient(v, Pow256(i));
  }

  lemma NestedQuotient(v: nat, p: nat)
    requires p >= 1
    ensures v / 256 / p == v / (256 * p)
  {
    var w, s := v / 256, v % 256;
    var q, r := w / p, w % p;
    assert w == p * q + r by { DivisionParts(w, p); }
    Recompose(p, q, r, s);
    QuotientIs(v, 256 * p, q, 256 * r + s);
  }

  lemma DivisionParts(w: nat, p: nat)
    requires p >= 1
    ensures w == p * (w / p) + w % p && 0 <= w % p < p
  {
  }

  lemma Recompose(p: nat, q: nat, r: nat, s: nat)
    requires r < p && s < 256
    ensures 256 * (p * q + r) + s == 256 * p * q + (256 * r + s) && 256 * r + s < 256 * p
  {
  }

  lemma PowStep(i: nat)
    ensures Pow256(i + 1) == 256 * Pow256(i)
  {
  }

  lemma QuotientIs(v: nat, d: nat, q: nat, r: nat)
    requires r < d && v == d * q + r
    ensures v / d == q
  {
    var t := v / d;
    hide *;
    assert v == d * t + v % d && 0 <= v % d < d;
    assert d * (t - q) == r - v % d;
    assert t - q >= 1 ==> d * (t - q) >= d;
    assert q - t >= 1 ==> d * (q - t) >= d;
  }

  /** Byte i of a big-endian field is the digit of weight 256 to the n - 1 - i. */
  lemma {:induction false} BigEndianAt(v: nat, n: nat, i: nat)
    requires i < n
    ensures BigEndian(v, n)[i] == v / Pow256(n - 1 - i) % 256
  {
    if i == n - 1 {
      assert v / Pow256(0) == v;
    } else {
      BigEndianAt(v / 256, n - 1, i);
      DivideTwice(v, n - 2 - i);
    }
  }

  /** Byte i of a little-endian field is the digit of weight 256 to the i. */
  lemma {:induction false} LittleEndianAt(v: nat, n: nat, i: nat)
    requires i < n
    ensures LittleEndian(v, n)[i] == v / Pow256(i) % 256
  {
    if i == 0 {
      assert v / Pow256(0) == v;
    } else {
      LittleEndianAt(v / 256, n - 1, i - 1);
      DivideTwice(v, i - 1);
    }
  }

  lemma SliceOfSlice(raw: seq<Byte>, base: nat, n: nat, i: nat, j: nat)
    requires i <= j <= n && base + n <= |raw|
    ensures raw[base..base + n][i..j] == raw[base + i..base + j]
  {
    var inner, outer := raw[base..base + n][i..j], raw[base + i..base + j];
    assert |inner| == |outer| && forall k :: 0 <= k < |inner| ==> inner[k] == outer[k];
  }
}
