/** The branch skeleton of the Beasley-Springer-Moro approximation of the
    standard normal quantile function. The two rational polynomials are
    parameters: `tail(x)` stands for C(q)/D(q) with q = sqrt(-2 ln x) and the
    c/d coefficients, and `centralRatio(r)` for A(r)/B(r) with the a/b
    coefficients. What is proved here holds whatever those polynomials are. */
module InverseNormal {

  /** Lower breakpoint between the low tail and the central region. */
  const PLow: real := 0.02425
  /** Upper breakpoint between the central region and the high tail. */
  const PHigh: real := 1.0 - PLow

  /** Sentinels returned outside the open unit interval. */
  const LowSentinel: real := -10.0
  const HighSentinel: real := 10.0

  datatype Region = LowTail | Central | HighTail

  /** The formula used for a probability strictly inside (0, 1). */
  function RegionOf(p: real): (g: Region)
    requires 0.0 < p < 1.0
    ensures g == LowTail <==> p < PLow
    ensures g == HighTail <==> PHigh < p
    ensures g == Central <==> PLow <= p <= PHigh
  {
    if p < PLow then LowTail
    else if p <= PHigh then Central
    else HighTail
  }

  /** The central formula on q = p - 0.5: an odd function of q, the ratio
      evaluated at r = q * q and multiplied by q. */
  function CentralValue(q: real, centralRatio: real -> real): (z: real)
    ensures q == 0.0 ==> z == 0.0
  {
    var r := q * q;
    centralRatio(r) * q
  }

  /** The central formula is odd: -q gives the same r and the opposite value. */
  lemma CentralOdd(q: real, centralRatio: real -> real)
    ensures CentralValue(-q, centralRatio) == -CentralValue(q, centralRatio)
  {
    assert (-q) * (-q) == q * q;
  }

  /** The approximation strictly inside (0, 1): the low tail, the central
      odd rational in q = p - 0.5, or the negated low-tail formula on 1 - p. */
  function Interior(p: real, tail: real -> real, centralRatio: real -> real): (z: real)
    requires 0.0 < p < 1.0
    ensures p < PLow ==> z == tail(p)
    ensures PLow <= p <= PHigh ==> z == CentralValue(p - 0.5, centralRatio)
    ensures PHigh < p ==> 0.0 < 1.0 - p < PLow && z == -tail(1.0 - p)
    ensures p == 0.5 ==> z == 0.0
  {
    if p < PLow then tail(p)
    else if p <= PHigh then CentralValue(p - 0.5, centralRatio)
    else -tail(1.0 - p)
  }

  /** The quantile approximation with its clamping sentinels: -10 at or below
      0 and 10 at or above 1, whatever the polynomials are; strictly inside
      (0, 1) the region formula. */
  function InverseNormalCDF(p: real, tail: real -> real, centralRatio: real -> real): (z: real)
    ensures p <= 0.0 ==> z == LowSentinel
    ensures p >= 1.0 ==> z == HighSentinel
    ensures 0.0 < p < 1.0 ==> z == Interior(p, tail, centralRatio)
  {
    if p <= 0.0 then LowSentinel
    else if p >= 1.0 then HighSentinel
    else Interior(p, tail, centralRatio)
  }

  /** The breakpoints are mirror images: p is in the central region exactly
      when 1 - p is, and in the low tail exactly when 1 - p is in the high tail. */
  lemma RegionMirror(p: real)
    requires 0.0 < p < 1.0
    ensures RegionOf(1.0 - p) == Central <==> RegionOf(p) == Central
    ensures RegionOf(1.0 - p) == HighTail <==> RegionOf(p) == LowTail
    ensures RegionOf(1.0 - p) == LowTail <==> RegionOf(p) == HighTail
  {
  }

  /** The approximation is odd about one half: quantile(1 - p) == -quantile(p)
      for every p, sentinels included. */
  lemma {:induction false} Symmetric(p: real, tail: real -> real, centralRatio: real -> real)
    ensures InverseNormalCDF(1.0 - p, tail, centralRatio) == -InverseNormalCDF(p, tail, centralRatio)
  {
    if 0.0 < p < 1.0 {
      RegionMirror(p);
      if RegionOf(p) == Central {
        CentralOdd(p - 0.5, centralRatio);
        assert (1.0 - p) - 0.5 == -(p - 0.5);
      }
    }
  }

  /** The median maps to zero. */
  lemma MedianIsZero(tail: real -> real, centralRatio: real -> real)
    ensures InverseNormalCDF(0.5, tail, centralRatio) == 0.0
  {
    Symmetric(0.5, tail, centralRatio);
  }
}
