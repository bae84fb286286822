/** Numeric helpers shared by the variation operators: integrality of a gene
    stored as a number, and Python's `int(round(x))` on a float, which rounds
    half to even ("banker's rounding"). */
module Numbers {

  /** A gene value that is a whole number. */
  predicate IsIntegral(x: real) {
    x == x.Floor as real
  }

  /** `int(round(x))`: the nearest integer, and on an exact tie the even one. */
  function RoundHalfEven(x: real): (n: int)
    ensures -0.5 <= x - n as real <= 0.5
    ensures (x - n as real == 0.5 || n as real - x == 0.5) ==> n % 2 == 0
  {
    var f := x.Floor;
    var d := x - f as real;
    if d < 0.5 then f
    else if d > 0.5 then f + 1
    else if f % 2 == 0 then f
    else f + 1
  }

  /** The two clauses of RoundHalfEven's contract determine its result: any
      integer within one half of x that is even on a tie is RoundHalfEven(x). */
  lemma RoundHalfEvenUnique(x: real, m: int)
    requires -0.5 <= x - m as real <= 0.5
    requires (x - m as real == 0.5 || m as real - x == 0.5) ==> m % 2 == 0
    ensures m == RoundHalfEven(x)
  {
  }

  /** Rounding a whole number gives it back. */
  lemma RoundIntegral(x: real)
    requires IsIntegral(x)
    ensures RoundHalfEven(x) as real == x
  {
    RoundHalfEvenUnique(x, x.Floor);
  }

  /** `int(round(.))` is idempotent. */
  lemma RoundIdempotent(x: real)
    ensures RoundHalfEven(RoundHalfEven(x) as real) == RoundHalfEven(x)
  {
    RoundIntegral(RoundHalfEven(x) as real);
  }

  /** Rounding never takes a value below a whole-number lower bound. */
  lemma RoundAtLeast(x: real, lo: int)
    requires x >= lo as real
    ensures RoundHalfEven(x) >= lo
  {
  }
}
