/**
 * The fixed-point decimal domain of the CPD tables.  A probability is written
 * with 16 fractional digits, so it is held here as a whole number of units of
 * 10^-16; "a row sums to 1" means "a row sums to `Scale` units".  Unrounded
 * quotients are exact rationals (`real`).
 */
module Decimal16 {

  /** Units of 10^-16 in the probability 1 (16 fractional digits). */
  const Scale: nat := 10_000_000_000_000_000

  /** The width of one unit, 10^-16, as an exact rational. */
  const Unit: real := 1.0 / 10_000_000_000_000_000.0

  /**
   * Quantize `x` to 16 fractional digits, always rounding toward minus
   * infinity; the result is the number of 10^-16 units.
   */
  function RoundForSamiam(x: real): (units: int)
    ensures units as real * Unit <= x
    ensures x - units as real * Unit < Unit
  {
    (x * Scale as real).Floor
  }

  /** Sum of a row of units. */
  function Sum(s: seq<nat>): nat {
    if |s| == 0 then 0 else s[0] + Sum(s[1..])
  }

  /** Sum of a row of exact rationals. */
  function SumReal(s: seq<real>): real {
    if |s| == 0 then 0.0 else s[0] + SumReal(s[1..])
  }

  /** Every entry of a row of rationals is a probability-like non-negative value. */
  predicate NonNegative(s: seq<real>) {
    forall i :: 0 <= i < |s| ==> s[i] >= 0.0
  }

  /** A row of non-negative rationals summing to exactly 1. */
  predicate Stochastic(s: seq<real>) {
    NonNegative(s) && SumReal(s) == 1.0
  }

  /** `RoundForSamiam` applied to every entry of a non-negative row. */
  function FloorRow(s: seq<real>): (r: seq<nat>)
    requires NonNegative(s)
    ensures |r| == |s|
    ensures forall i :: 0 <= i < |s| ==> r[i] as real * Unit <= s[i] && s[i] - r[i] as real * Unit < Unit
  {
    seq(|s|, i requires 0 <= i < |s| => RoundForSamiam(s[i]) as nat)
  }

  /**
   * Flooring loses less than one unit per entry and never gains: the floored
   * row's total lies in (total - |s| units, total].
   */
  lemma {:induction false} FloorRowTotal(s: seq<real>)
    requires NonNegative(s)
    ensures Sum(FloorRow(s)) as real * Unit <= SumReal(s)
    ensures |s| > 0 ==> SumReal(s) < (Sum(FloorRow(s)) + |s|) as real * Unit
  {
    if |s| > 0 {
      var r, rest := FloorRow(s), FloorRow(s[1..]);
      assert r[1..] == rest;
      FloorRowTotal(s[1..]);
      assert Sum(r) == r[0] + Sum(rest);
      assert SumReal(s) == s[0] + SumReal(s[1..]);
      assert (Sum(r) + |s|) as real * Unit == (r[0] + 1) as real * Unit + (Sum(rest) + |s| - 1) as real * Unit;
    }
  }

  /** If every entry is below `c`, the total is below `|s| * c`. */
  lemma {:induction false} SumBelow(s: seq<real>, c: real)
    requires |s| > 0
    requires forall i :: 0 <= i < |s| ==> s[i] < c
    ensures SumReal(s) < |s| as real * c
  {
    if |s| > 1 {
      SumBelow(s[1..], c);
      assert SumReal(s) == s[0] + SumReal(s[1..]);
    }
  }

  /**
   * Flooring a stochastic row of at most 10^16 entries leaves a whole number
   * of missing units, fewer than the row has entries, and keeps at least one
   * entry non-zero.
   */
  lemma FloorStochasticRow(s: seq<real>)
    requires Stochastic(s)
    requires 0 < |s| <= Scale
    ensures Sum(FloorRow(s)) <= Scale
    ensures Scale - Sum(FloorRow(s)) < |s|
    ensures exists i :: 0 <= i < |s| && FloorRow(s)[i] > 0
  {
    var r := FloorRow(s);
    FloorRowTotal(s);
    assert Sum(r) as real * Unit <= 1.0;
    assert 1.0 < (Sum(r) + |s|) as real * Unit;
    if forall i :: 0 <= i < |s| ==> r[i] == 0 {
      assert forall i :: 0 <= i < |s| ==> s[i] < Unit;
      SumBelow(s, Unit);
      assert false;
    }
  }
}
