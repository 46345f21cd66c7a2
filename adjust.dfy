/** The two-pass score adjustment: a passing floor, then a sort by final score
    and a redistribution toward a normal distribution of mean 75 and standard
    deviation 8. The z-score of a percentile is a parameter `z`; the program
    uses the quantile approximation of module InverseNormal, and every
    property below holds for any `z`. */
module Adjust {
  import opened Students
  import InverseNormal

  const PassingScore: real := 60.0
  const MaxScore: real := 100.0
  const TargetMean: real := 75.0
  const TargetStdDev: real := 8.0

  // ---------------------------------------------------------------------
  // Pass 1: the passing floor
  // ---------------------------------------------------------------------

  /** Pass 1 on one row: a final score under 60 is lifted to exactly 60 by
      raising the daily score, with no upper cap on the daily score. */
  function RaiseToPass(s: Student): (r: Student)
    ensures Raised(s, r)
    ensures r != s ==> s.finalScore < PassingScore && r.finalScore == PassingScore && Consistent(r)
    ensures Consistent(s) ==> Consistent(r) && r.finalScore >= PassingScore
    ensures Consistent(s) && s.finalScore < PassingScore ==> r.finalScore == PassingScore
    ensures s.totalDuifenyi >= 0.0 && r != s ==> r.dailyScore <= MaxScore
  {
    if s.finalScore < PassingScore then
      var requiredDaily := RequiredDaily(PassingScore, s.totalDuifenyi);
      if requiredDaily > s.dailyScore then
        s.(dailyScore := requiredDaily,
           finalScore := WeightedFinal(s.totalDuifenyi, requiredDaily))
      else s
    else s
  }

  /** The floor has no cap: a negative peer-review total drives the daily
      score past 100. */
  lemma RaiseToPassUncapped()
    ensures var s := NewStudent("1", "A", "F", 0.0, 0.0, -15.0, 0.0);
            RaiseToPass(s).dailyScore == 110.0 && RaiseToPass(s).dailyScore > MaxScore
  {
  }

  /** A daily score above 100 from pass 1 needs a negative peer-review total. */
  lemma RaiseToPassAboveMaxNeedsNegative(s: Student)
    requires RaiseToPass(s).dailyScore > MaxScore
    requires RaiseToPass(s) != s
    ensures s.totalDuifenyi < 0.0
  {
  }

  function RaiseAll(r: seq<Student>): (t: seq<Student>)
    ensures |t| == |r|
    ensures forall i :: 0 <= i < |r| ==> t[i] == RaiseToPass(r[i])
  {
    seq(|r|, i requires 0 <= i < |r| => RaiseToPass(r[i]))
  }

  /** Pass 1 over the roster, in place. */
  method FloorPass(a: array<Student>)
    modifies a
    ensures forall i :: 0 <= i < a.Length ==> a[i] == RaiseToPass(old(a[i]))
  {
    for i := 0 to a.Length
      invariant forall k :: 0 <= k < i ==> a[k] == RaiseToPass(old(a[k]))
      invariant forall k :: i <= k < a.Length ==> a[k] == old(a[k])
    {
      var s := a[i];
      if s.finalScore < 60.0 {
        var requiredDaily := (60.0 - s.totalDuifenyi * 0.4) / 0.6;
        if requiredDaily > s.dailyScore {
          a[i] := s.(dailyScore := requiredDaily,
                     finalScore := s.totalDuifenyi * 0.4 + requiredDaily * 0.6);
        }
      }
    }
  }

  // ---------------------------------------------------------------------
  // The sort
  // ---------------------------------------------------------------------

  predicate SortedByFinal(r: seq<Student>)
  {
    forall k, l :: 0 <= k < l < |r| ==> r[k].finalScore <= r[l].finalScore
  }

  /** `perm` pairs n positions one-to-one with n positions. */
  predicate IsPermutation(perm: seq<nat>, n: nat)
  {
    |perm| == n &&
    (forall i :: 0 <= i < n ==> perm[i] < n) &&
    (forall i, j :: 0 <= i < j < n ==> perm[i] != perm[j])
  }

  /** Exchanging two neighbouring entries keeps a permutation one. */
  lemma SwapKeepsPermutation(perm: seq<nat>, n: nat, j: nat)
    requires IsPermutation(perm, n) && 0 < j < n
    ensures IsPermutation(perm[j - 1 := perm[j]][j := perm[j - 1]], n)
  {
    var q := perm[j - 1 := perm[j]][j := perm[j - 1]];
    forall i, k | 0 <= i < k < n
      ensures q[i] != q[k]
    {
      var i' := if i == j - 1 then j else if i == j then j - 1 else i;
      var k' := if k == j - 1 then j else if k == j then j - 1 else k;
      assert q[i] == perm[i'] && q[k] == perm[k'] && i' != k';
    }
  }

  /** Reorders the roster ascending by final score. Ties may come in any
      order: only sortedness and the one-to-one pairing `perm` of new
      positions with old ones are promised. */
  method SortByFinal(a: array<Student>) returns (ghost perm: seq<nat>)
    modifies a
    ensures SortedByFinal(a[..])
    ensures multiset(a[..]) == old(multiset(a[..]))
    ensures IsPermutation(perm, a.Length)
    ensures forall i :: 0 <= i < a.Length ==> a[i] == old(a[..])[perm[i]]
  {
    ghost var orig := a[..];
    perm := seq(a.Length, i requires 0 <= i < a.Length => i as nat);
    for i := 0 to a.Length
      invariant forall k, l :: 0 <= k < l < i ==> a[k].finalScore <= a[l].finalScore
      invariant multiset(a[..]) == multiset(orig)
      invariant IsPermutation(perm, a.Length)
      invariant forall k :: 0 <= k < a.Length ==> a[k] == orig[perm[k]]
    {
      perm := InsertIntoSorted(a, i, orig, perm);
    }
  }

  /** Moves a[i] down into the sorted prefix a[..i], keeping the pairing of
      positions with the rows of `orig` up to date. */
  method InsertIntoSorted(a: array<Student>, i: nat, ghost orig: seq<Student>, ghost perm0: seq<nat>)
    returns (ghost perm: seq<nat>)
    requires i < a.Length && |orig| == a.Length
    requires forall k, l :: 0 <= k < l < i ==> a[k].finalScore <= a[l].finalScore
    requires IsPermutation(perm0, a.Length)
    requires forall k :: 0 <= k < a.Length ==> a[k] == orig[perm0[k]]
    modifies a
    ensures forall k, l :: 0 <= k < l <= i ==> a[k].finalScore <= a[l].finalScore
    ensures forall k :: i < k < a.Length ==> a[k] == old(a[k])
    ensures multiset(a[..]) == old(multiset(a[..]))
    ensures IsPermutation(perm, a.Length)
    ensures forall k :: 0 <= k < a.Length ==> a[k] == orig[perm[k]]
  {
    perm := perm0;
    var j := i;
    while j > 0 && a[j - 1].finalScore > a[j].finalScore
      invariant 0 <= j <= i
      invariant forall k, l :: 0 <= k < l <= i && l != j ==> a[k].finalScore <= a[l].finalScore
      invariant 0 < j < i ==> a[j - 1].finalScore <= a[j + 1].finalScore
      invariant forall k :: i < k < a.Length ==> a[k] == old(a[k])
      invariant multiset(a[..]) == old(multiset(a[..]))
      invariant IsPermutation(perm, a.Length)
      invariant forall k :: 0 <= k < a.Length ==> a[k] == orig[perm[k]]
    {
      perm := SwapWithPrevious(a, j, orig, perm);
      j := j - 1;
    }
  }

  /** Exchanges a[j - 1] and a[j], and the matching entries of the pairing. */
  method SwapWithPrevious(a: array<Student>, j: nat, ghost orig: seq<Student>, ghost perm0: seq<nat>)
    returns (ghost perm: seq<nat>)
    requires 0 < j < a.Length && |orig| == a.Length
    requires IsPermutation(perm0, a.Length)
    requires forall k :: 0 <= k < a.Length ==> a[k] == orig[perm0[k]]
    modifies a
    ensures a[j - 1] == old(a[j]) && a[j] == old(a[j - 1])
    ensures forall k :: 0 <= k < a.Length && k != j - 1 && k != j ==> a[k] == old(a[k])
    ensures multiset(a[..]) == old(multiset(a[..]))
    ensures IsPermutation(perm, a.Length)
    ensures forall k :: 0 <= k < a.Length ==> a[k] == orig[perm[k]]
  {
    a[j - 1], a[j] := a[j], a[j - 1];
    SwapKeepsPermutation(perm0, a.Length, j);
    perm := perm0[j - 1 := perm0[j]][j := perm0[j - 1]];
  }

  // ---------------------------------------------------------------------
  // Pass 2: the redistribution
  // ---------------------------------------------------------------------

  /** The percentile of rank i among n rows, strictly inside (0, 1). */
  function Percentile(i: nat, n: nat): (p: real)
    requires i < n
    ensures 0.0 < p < 1.0
  {
    (i + 1) as real / (n + 1) as real
  }

  /** The quantile approximation never reaches its sentinels on a percentile. */
  lemma PercentileAvoidsSentinels(i: nat, n: nat, tail: real -> real, centralRatio: real -> real)
    requires i < n
    ensures InverseNormal.InverseNormalCDF(Percentile(i, n), tail, centralRatio)
            == InverseNormal.Interior(Percentile(i, n), tail, centralRatio)
  {
  }

  /** Clamping a target into the passing range [60, 100]. */
  function Clamp(t: real): (c: real)
    ensures PassingScore <= c <= MaxScore
    ensures PassingScore <= t <= MaxScore ==> c == t
    ensures t < PassingScore ==> c == PassingScore
    ensures t > MaxScore ==> c == MaxScore
  {
    var c := if t < PassingScore then PassingScore else t;
    if c > MaxScore then MaxScore else c
  }

  /** The target score of rank i among n rows, always in [60, 100]. */
  function Target(z: real -> real, i: nat, n: nat): (t: real)
    requires i < n
    ensures PassingScore <= t <= MaxScore
  {
    Clamp(TargetMean + z(Percentile(i, n)) * TargetStdDev)
  }

  /** Pass 2 on one row: raise the daily score so the final score meets the
      target, only when that is an improvement and needs a daily score of at
      most 100. */
  function ReshapeOne(s: Student, target: real): (r: Student)
    ensures Raised(s, r)
    ensures r == s || (r.finalScore == target && target > s.finalScore && Consistent(r))
    ensures r != s ==> s.dailyScore < r.dailyScore <= MaxScore
  {
    if target > s.finalScore then
      var requiredDaily := RequiredDaily(target, s.totalDuifenyi);
      if requiredDaily > s.dailyScore && requiredDaily <= MaxScore then
        s.(dailyScore := requiredDaily,
           finalScore := WeightedFinal(s.totalDuifenyi, requiredDaily))
      else s
    else s
  }

  /** On a consistent row, pass 2 raises the score exactly when the target is
      above the final score and reachable with a daily score of at most 100;
      the row stays consistent. */
  lemma ReshapeOneChangesIff(s: Student, target: real)
    requires Consistent(s)
    ensures Consistent(ReshapeOne(s, target))
    ensures ReshapeOne(s, target) != s <==>
            target > s.finalScore && (target - s.totalDuifenyi * PeerWeight) / DailyWeight <= MaxScore
  {
  }

  /** Pass 2 over the sorted roster, in place. */
  method ReshapePass(a: array<Student>, z: real -> real)
    modifies a
    ensures forall i :: 0 <= i < a.Length ==> a[i] == ReshapeOne(old(a[i]), Target(z, i, a.Length))
  {
    var n := a.Length;
    for i := 0 to n
      invariant forall k :: 0 <= k < i ==> a[k] == ReshapeOne(old(a[k]), Target(z, k, n))
      invariant forall k :: i <= k < n ==> a[k] == old(a[k])
    {
      var s := a[i];
      var percentile := (i + 1) as real / (n + 1) as real;
      var zScore := z(percentile);
      var targetScore := TargetMean + zScore * TargetStdDev;
      if targetScore < 60.0 {
        targetScore := 60.0;
      }
      if targetScore > 100.0 {
        targetScore := 100.0;
      }
      assert targetScore == Target(z, i, n);
      if targetScore > s.finalScore {
        var requiredDaily := (targetScore - s.totalDuifenyi * 0.4) / 0.6;
        if requiredDaily > s.dailyScore && requiredDaily <= 100.0 {
          a[i] := s.(dailyScore := requiredDaily,
                     finalScore := s.totalDuifenyi * 0.4 + requiredDaily * 0.6);
        }
      }
    }
  }

  function ReshapeAll(r: seq<Student>, z: real -> real): (t: seq<Student>)
    ensures |t| == |r|
    ensures forall i :: 0 <= i < |r| ==> t[i] == ReshapeOne(r[i], Target(z, i, |r|))
  {
    seq(|r|, i requires 0 <= i < |r| => ReshapeOne(r[i], Target(z, i, |r|)))
  }

  // ---------------------------------------------------------------------
  // The whole adjustment
  // ---------------------------------------------------------------------

  /** `perm` pairs every row of `after` one-to-one with a row of `before`
      that it raises: same unchanging fields, no lower daily or final score. */
  predicate RaisedBy(before: seq<Student>, after: seq<Student>, perm: seq<nat>)
  {
    |after| == |before| && IsPermutation(perm, |before|) &&
    forall i :: 0 <= i < |after| ==> Raised(before[perm[i]], after[i])
  }

  /** The pairing that follows `inner` and then `outer`. */
  function Compose(outer: seq<nat>, inner: seq<nat>): (perm: seq<nat>)
    requires forall i :: 0 <= i < |inner| ==> inner[i] < |outer|
    ensures |perm| == |inner|
    ensures forall i :: 0 <= i < |inner| ==> perm[i] == outer[inner[i]]
  {
    seq(|inner|, i requires 0 <= i < |inner| => outer[inner[i]])
  }

  /** Adjusting an adjusted roster again never lowers a score: the pairings
      of the two runs compose into a one-to-one pairing of the final rows with
      the original rows, each final row raising its original. */
  lemma {:induction false} RaisedByCompose(first: seq<Student>, second: seq<Student>, third: seq<Student>,
                                            p1: seq<nat>, p2: seq<nat>)
    requires RaisedBy(first, second, p1) && RaisedBy(second, third, p2)
    ensures RaisedBy(first, third, Compose(p1, p2))
  {
    var p := Compose(p1, p2);
    var n := |first|;
    forall i, j | 0 <= i < j < n
      ensures p[i] != p[j]
    {
      assert p2[i] != p2[j];
    }
    forall i | 0 <= i < |third|
      ensures Raised(first[p[i]], third[i])
    {
      assert Raised(second[p2[i]], third[i]);
      assert Raised(first[p1[p2[i]]], second[p2[i]]);
    }
  }

  /** The adjustment, specified through the sorted post-floor roster
      `floored`, whose row i is pass 1 applied to input row perm[i]. */
  lemma {:induction false} AdjustedProperties(input: seq<Student>, floored: seq<Student>, perm: seq<nat>,
                                               z: real -> real)
    requires multiset(floored) == multiset(RaiseAll(input))
    requires |floored| == |input| && IsPermutation(perm, |input|)
    requires forall i :: 0 <= i < |floored| ==> floored[i] == RaiseToPass(input[perm[i]])
    ensures multiset(Keys(ReshapeAll(floored, z))) == multiset(Keys(input))
    ensures RaisedBy(input, ReshapeAll(floored, z), perm)
    ensures AllConsistent(input) ==> AllConsistent(ReshapeAll(floored, z))
    ensures AllConsistent(input) ==>
            forall i :: 0 <= i < |floored| ==> ReshapeAll(floored, z)[i].finalScore >= PassingScore
  {
    var out := ReshapeAll(floored, z);
    var raised := RaiseAll(input);
    assert Keys(out) == Keys(floored);
    KeysPermutation(floored, raised);
    assert Keys(raised) == Keys(input);
    forall i | 0 <= i < |out|
      ensures Raised(input[perm[i]], out[i])
      ensures AllConsistent(input) ==> Consistent(out[i]) && out[i].finalScore >= PassingScore
    {
      assert Raised(input[perm[i]], floored[i]);
      if AllConsistent(input) {
        assert Consistent(input[perm[i]]);
        ReshapeOneChangesIff(floored[i], Target(z, i, |floored|));
      }
    }
  }

  /** Pass 1 followed by the sort: the array ends ascending by final score,
      and its row i is pass 1 applied to input row perm[i]. */
  method FloorAndSort(a: array<Student>) returns (ghost perm: seq<nat>)
    modifies a
    ensures IsPermutation(perm, a.Length)
    ensures forall i :: 0 <= i < a.Length ==> a[i] == RaiseToPass(old(a[..])[perm[i]])
    ensures multiset(a[..]) == multiset(RaiseAll(old(a[..])))
    ensures SortedByFinal(a[..])
  {
    ghost var input := a[..];
    FloorPass(a);
    ghost var raised := a[..];
    assert raised == RaiseAll(input);
    perm := SortByFinal(a);
  }

  /** adjustScores: pass 1, the sort, pass 2, all in place. `floored` is the
      roster after pass 1 and the sort, which fixes the final order; `perm`
      says which input row ended at each position. */
  method AdjustScores(a: array<Student>, z: real -> real) returns (ghost floored: seq<Student>, ghost perm: seq<nat>)
    modifies a
    ensures |floored| == a.Length && IsPermutation(perm, a.Length)
    ensures forall i :: 0 <= i < a.Length ==> floored[i] == RaiseToPass(old(a[..])[perm[i]])
    ensures multiset(floored) == multiset(RaiseAll(old(a[..])))
    ensures SortedByFinal(floored)
    ensures a[..] == ReshapeAll(floored, z)
    ensures multiset(Keys(a[..])) == multiset(Keys(old(a[..])))
    ensures RaisedBy(old(a[..]), a[..], perm)
    ensures AllConsistent(old(a[..])) ==> AllConsistent(a[..])
    ensures AllConsistent(old(a[..])) ==> forall i :: 0 <= i < a.Length ==> a[i].finalScore >= PassingScore
  {
    ghost var input := a[..];
    perm := FloorAndSort(a);
    floored := a[..];
    ReshapePass(a, z);
    assert a[..] == ReshapeAll(floored, z);
    AdjustedProperties(input, floored, perm, z);
  }

  /** After the adjustment the roster need not be ascending by final score:
      a row raised to its target can overtake a later row whose target needs
      a daily score above 100. Any z with z(1/3) in (-1.75, 3.125] and
      z(2/3) > -1.375 shows it; the Beasley-Springer-Moro values are about
      -0.43 and 0.43. */
  lemma ReshapeMayUnsort(z: real -> real)
    requires -1.75 < z(1.0 / 3.0) <= 3.125
    requires z(2.0 / 3.0) > -1.375
    ensures var floored := [RaiseToPass(NewStudent("1", "A", "F", 0.0, 0.0, 100.0, 30.0)),
                            RaiseToPass(NewStudent("2", "B", "M", 0.0, 0.0, 10.0, 95.0))];
            SortedByFinal(floored) &&
            ReshapeAll(floored, z)[0].finalScore > ReshapeAll(floored, z)[1].finalScore
  {
    assert Percentile(0, 2) == 1.0 / 3.0;
    assert Percentile(1, 2) == 2.0 / 3.0;
  }

  /** The single-row scenario: peer-review total 50, daily score 50. Pass 1
      lifts the final score to 60; the lone row sits at the median, where the
      quantile approximation is 0 whatever its polynomials, so pass 2 targets
      75 and the daily score ends at 275/3. */
  lemma SingleRowScenario(tail: real -> real, centralRatio: real -> real)
    ensures var z := p => InverseNormal.InverseNormalCDF(p, tail, centralRatio);
            var s := RaiseToPass(NewStudent("1", "A", "F", 0.0, 0.0, 50.0, 50.0));
            s.finalScore == 60.0 && s.dailyScore == 200.0 / 3.0 &&
            ReshapeAll([s], z)[0].finalScore == 75.0 &&
            ReshapeAll([s], z)[0].dailyScore == 275.0 / 3.0
  {
    var z := p => InverseNormal.InverseNormalCDF(p, tail, centralRatio);
    InverseNormal.MedianIsZero(tail, centralRatio);
    assert Percentile(0, 1) == 0.5;
    assert Target(z, 0, 1) == 75.0;
  }
}
