/**
 Support masking of a log-density. Conditions are 0/1 numbers (a boolean
 condition `c` enters as `1 * c`); `alltrue` multiplies them, and `bound`
 keeps the log-density where the product is non-zero and replaces it with
 negative infinity elsewhere. One array element is modelled: `mle` applies
 the same computation elementwise.
 */
module Conditions {

  /** A log-density value: finite, or the `-inf` that `bound` substitutes. */
  datatype LogDensity = Finite(value: real) | NegInf

  /** The number a boolean condition becomes under `1 * c`. */
  function Indicator(c: bool): (n: int)
    ensures n == 0 || n == 1
    ensures n == 1 <==> c
  {
    if c then 1 else 0
  }

  /**
   `alltrue(vals)`: the running product `ret = ret * (1 * c)`, starting from 1.
   It is non-zero exactly when every condition is; on 0/1 conditions it is
   their logical AND, and 1 for no conditions at all.
   */
  function AllTrue(vals: seq<int>): (r: int)
    ensures r != 0 <==> forall i :: 0 <= i < |vals| ==> vals[i] != 0
    ensures (forall i :: 0 <= i < |vals| ==> vals[i] == 0 || vals[i] == 1) ==>
      (r == 0 || r == 1) && (r == 1 <==> forall i :: 0 <= i < |vals| ==> vals[i] == 1)
    ensures |vals| == 0 ==> r == 1
  {
    if |vals| == 0 then 1
    else
      var prefix := vals[..|vals| - 1];
      var c := vals[|vals| - 1];
      assert forall i :: 0 <= i < |prefix| ==> prefix[i] == vals[i];
      AllTrue(prefix) * c
  }

  /**
   `bound(logp, *conditions)` = `switch(alltrue(conditions), logp, -inf)`:
   the log-density survives exactly when no condition is zero.
   */
  function Bound(logp: real, conditions: seq<int>): (r: LogDensity)
    ensures r == Finite(logp) <==> forall i :: 0 <= i < |conditions| ==> conditions[i] != 0
    ensures r == NegInf <==> exists i :: 0 <= i < |conditions| && conditions[i] == 0
  {
    if AllTrue(conditions) != 0 then Finite(logp) else NegInf
  }

  /**
   The mask of `Normal.logp`: `bound(..., sigma > 0)`. `density` stands for
   the unmasked log-density, which this model leaves abstract.
   */
  function NormalMask(density: real, sigma: real): (r: LogDensity)
    ensures r == NegInf <==> sigma <= 0.0
    ensures r.Finite? ==> r.value == density
  {
    Bound(density, [Indicator(sigma > 0.0)])
  }

  /**
   The mask of `Mix2.logp`: `bound(..., frac > 0, frac < 1)`. A fraction
   outside the open interval (0, 1) gives negative infinity whatever the
   component densities are.
   */
  function Mix2Mask(density: real, frac: real): (r: LogDensity)
    ensures r == NegInf <==> frac <= 0.0 || frac >= 1.0
    ensures r.Finite? ==> r.value == density
  {
    var conditions := [Indicator(frac > 0.0), Indicator(frac < 1.0)];
    assert (exists i :: 0 <= i < |conditions| && conditions[i] == 0) <==> frac <= 0.0 || frac >= 1.0 by {
      assert conditions[0] == 0 <==> frac <= 0.0;
      assert conditions[1] == 0 <==> frac >= 1.0;
    }
    Bound(density, conditions)
  }
}
