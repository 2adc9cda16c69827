/** The numeric helpers of the aggregator: pandas' `Series.mean()` over a
    non-empty selection and Python's `round(x, 2)`, both over exact reals. */
module Stats {

  function Sum(xs: seq<real>): real {
    if |xs| == 0 then 0.0 else xs[0] + Sum(xs[1..])
  }

  function SeqMin(xs: seq<real>): (r: real)
    requires |xs| > 0
    ensures forall i :: 0 <= i < |xs| ==> r <= xs[i]
  {
    if |xs| == 1 then xs[0]
    else var m := SeqMin(xs[1..]); if xs[0] <= m then xs[0] else m
  }

  function SeqMax(xs: seq<real>): (r: real)
    requires |xs| > 0
    ensures forall i :: 0 <= i < |xs| ==> xs[i] <= r
  {
    if |xs| == 1 then xs[0]
    else var m := SeqMax(xs[1..]); if m <= xs[0] then xs[0] else m
  }

  /** The bounds are attained: they are values of the sequence. */
  lemma {:induction false} BoundsAttained(xs: seq<real>)
    requires |xs| > 0
    ensures SeqMin(xs) in xs && SeqMax(xs) in xs
  {
    if |xs| > 1 {
      BoundsAttained(xs[1..]);
    }
  }

  lemma {:induction false} SumBounds(xs: seq<real>, lo: real, hi: real)
    requires forall i :: 0 <= i < |xs| ==> lo <= xs[i] <= hi
    ensures (|xs| as real) * lo <= Sum(xs) <= (|xs| as real) * hi
  {
    if |xs| > 0 {
      SumBounds(xs[1..], lo, hi);
    }
  }

  /** The arithmetic mean: it times the count gives the sum, and it lies
      between the smallest and the largest value. */
  function Mean(xs: seq<real>): (r: real)
    requires |xs| > 0
    ensures r * |xs| as real == Sum(xs)
    ensures SeqMin(xs) <= r <= SeqMax(xs)
  {
    MeanFacts(xs);
    Sum(xs) / |xs| as real
  }

  lemma MeanFacts(xs: seq<real>)
    requires |xs| > 0
    ensures SeqMin(xs) <= Sum(xs) / |xs| as real <= SeqMax(xs)
    ensures (Sum(xs) / |xs| as real) * |xs| as real == Sum(xs)
  {
    var lo := SeqMin(xs);
    var hi := SeqMax(xs);
    SumBounds(xs, lo, hi);
    DivisionBounds(Sum(xs), |xs| as real, lo, hi);
  }

  lemma DivisionBounds(s: real, n: real, lo: real, hi: real)
    requires n > 0.0 && n * lo <= s <= n * hi
    ensures lo <= s / n <= hi
    ensures (s / n) * n == s
  {
  }

  /** The integer nearest to `y`, ties going to the even neighbour. */
  function RoundHalfEven(y: real): (n: int)
    ensures n as real - 0.5 <= y <= n as real + 0.5
    ensures y == n as real - 0.5 || y == n as real + 0.5 ==> n % 2 == 0
  {
    var f := y.Floor;
    var d := y - f as real;
    if d > 0.5 || (d == 0.5 && f % 2 != 0) then f + 1 else f
  }

  /** A whole number of hundredths. */
  predicate IsHundredths(x: real) {
    (x * 100.0).Floor as real == x * 100.0
  }

  /** `round(x, 2)`: the multiple of 0.01 nearest to `x`, half-way cases going
      to the even number of hundredths. */
  function Round2(x: real): (r: real)
    ensures IsHundredths(r)
    ensures -0.005 <= r - x <= 0.005
    ensures r - x == 0.005 || x - r == 0.005 ==> (r * 100.0).Floor % 2 == 0
  {
    var n := RoundHalfEven(x * 100.0);
    assert (n as real / 100.0) * 100.0 == n as real;
    n as real / 100.0
  }

  /** A value already on the hundredths grid is left alone. */
  lemma Round2KeepsHundredths(x: real)
    requires IsHundredths(x)
    ensures Round2(x) == x
  {
    var y := x * 100.0;
    assert y.Floor as real == y;
    assert RoundHalfEven(y) == y.Floor;
  }

  lemma Round2Zero()
    ensures Round2(0.0) == 0.0
  {
    Round2KeepsHundredths(0.0);
  }

  lemma Round2Idempotent(x: real)
    ensures Round2(Round2(x)) == Round2(x)
  {
    Round2KeepsHundredths(Round2(x));
  }

  /** Rounding never leaves an interval whose ends are on the grid. */
  lemma Round2WithinGrid(x: real, lo: real, hi: real)
    requires IsHundredths(lo) && IsHundredths(hi) && lo <= x <= hi
    ensures lo <= Round2(x) <= hi
  {
    var n := RoundHalfEven(x * 100.0);
    var a := (lo * 100.0).Floor;
    var b := (hi * 100.0).Floor;
    assert a as real <= x * 100.0 <= b as real;
    assert a <= n <= b;
    assert n as real / 100.0 <= b as real / 100.0;
  }
}
