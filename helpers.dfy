/** Small numeric helpers shared by the scoring engine, the codec and the
    state transitions: `clamp`, `avg`, `Math.round`, and the conversion of an integer to the
    32-bit pattern JavaScript's bit operators see. */
module Helpers {

  datatype Option<+T> = None | Some(value: T)

  /** `clamp(n, a, b)` is `Math.max(a, Math.min(b, n))`. */
  function Clamp(n: int, lo: int, hi: int): (r: int)
    ensures lo <= r
    ensures lo <= hi ==> r <= hi
    ensures lo <= n <= hi ==> r == n
    ensures n < lo ==> r == lo
    ensures lo <= hi < n ==> r == hi
    ensures hi < lo ==> r == lo
  {
    var m := if n < hi then n else hi;
    if lo < m then m else lo
  }

  lemma ClampMonotone(n: int, m: int, lo: int, hi: int)
    requires n <= m
    ensures Clamp(n, lo, hi) <= Clamp(m, lo, hi)
  {
  }

  function Sum(xs: seq<int>): int
  {
    if xs == [] then 0 else xs[0] + Sum(xs[1..])
  }

  /** An exact rational `num / den`; every quantity of the scoring engine is one. */
  datatype Ratio = Ratio(num: int, den: int)

  /** `avg(arr)`: the sum of `arr` over `arr.length || 1`, kept exact. */
  function Avg(xs: seq<int>): (r: Ratio)
    ensures r.num == Sum(xs)
    ensures r.den == if xs == [] then 1 else |xs|
    ensures xs == [] ==> r.num == 0
  {
    Ratio(Sum(xs), if |xs| == 0 then 1 else |xs|)
  }

  /** The average of values that all lie in [lo, hi] lies in [lo, hi]. */
  lemma {:induction false} AvgBounds(xs: seq<int>, lo: int, hi: int)
    requires xs != []
    requires forall k :: 0 <= k < |xs| ==> lo <= xs[k] <= hi
    ensures lo * Avg(xs).den <= Avg(xs).num <= hi * Avg(xs).den
  {
    SumBounds(xs, lo, hi);
  }

  lemma {:induction false} SumBounds(xs: seq<int>, lo: int, hi: int)
    requires forall k :: 0 <= k < |xs| ==> lo <= xs[k] <= hi
    ensures lo * |xs| <= Sum(xs) <= hi * |xs|
  {
    if xs != [] {
      SumBounds(xs[1..], lo, hi);
    }
  }

  lemma Sum3(a: int, b: int, c: int)
    ensures Sum([a, b, c]) == a + b + c
  {
    assert [a, b, c][1..] == [b, c];
    Sum2(b, c);
  }

  lemma Sum2(a: int, b: int)
    ensures Sum([a, b]) == a + b
  {
    assert [a, b][1..] == [b];
    assert [b][1..] == [];
    assert Sum([b]) == b + Sum([]);
  }

  /** JavaScript's `Math.round` applied to the exact value `p / q`: the
      nearest integer, with halves rounding towards +infinity. */
  function RoundHalfUp(p: int, q: int): (r: int)
    requires q > 0
    ensures 2 * p - q < 2 * q * r <= 2 * p + q
  {
    var d := 2 * q;
    var n := 2 * p + q;
    DivBounds(n, d);
    n / d
  }

  lemma DivBounds(n: int, d: int)
    requires d > 0
    ensures d * (n / d) <= n < d * (n / d) + d
  {
  }

  /** The bracket in RoundHalfUp's contract determines the result. */
  lemma RoundHalfUpUnique(p: int, q: int, r: int)
    requires q > 0
    requires 2 * p - q < 2 * q * r <= 2 * p + q
    ensures r == RoundHalfUp(p, q)
  {
    var s := RoundHalfUp(p, q);
    if r < s {
      MulMonotone(q, r + 1, s);
    } else if s < r {
      MulMonotone(q, s + 1, r);
    }
  }

  lemma MulMonotone(q: int, a: int, b: int)
    requires q > 0 && a <= b
    ensures q * a <= q * b
  {
  }

  lemma RoundHalfUpMonotone(p1: int, p2: int, q: int)
    requires q > 0 && p1 <= p2
    ensures RoundHalfUp(p1, q) <= RoundHalfUp(p2, q)
  {
    var r1, r2 := RoundHalfUp(p1, q), RoundHalfUp(p2, q);
    if r2 < r1 {
      MulMonotone(q, r2 + 1, r1);
    }
  }

  /** `Math.round` of an exact ratio. */
  function Round(x: Ratio): int
    requires x.den > 0
  {
    RoundHalfUp(x.num, x.den)
  }

  const TwoTo32: int := 0x1_0000_0000

  /** The 32-bit pattern the bitwise operators see for the integer `x`. */
  function Bits32(x: int): bv32
  {
    (x % TwoTo32) as bv32
  }

  /** The patterns of the two-bit values. */
  lemma SmallBits32()
    ensures Bits32(0) == 0 && Bits32(1) == 1 && Bits32(2) == 2 && Bits32(3) == 3
  {
  }
}
