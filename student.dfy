/** One row of the roster and the rule that ties its final score to its two
    score components. Scores are modelled as `real`: the float64 rounding of
    the program is not modelled. */
module Students {

  /** A roster row. `totalDuifenyi` is the peer-review total; `dailyScore` and
      `finalScore` are the only fields the adjustment ever writes. */
  datatype Student = Student(
    id: string,
    name: string,
    gender: string,
    objectiveScore: real,
    subjectiveScore: real,
    totalDuifenyi: real,
    dailyScore: real,
    finalScore: real)

  /** Everything about a row except the two adjusted scores. */
  datatype StudentKey = StudentKey(
    id: string,
    name: string,
    gender: string,
    objectiveScore: real,
    subjectiveScore: real,
    totalDuifenyi: real)

  const PeerWeight: real := 0.4
  const DailyWeight: real := 0.6

  /** The weighted final score: 40% peer-review total, 60% daily score. The
      daily score is recovered from it by `RequiredDaily`. */
  function WeightedFinal(totalDuifenyi: real, dailyScore: real): (f: real)
    ensures RequiredDaily(f, totalDuifenyi) == dailyScore
  {
    totalDuifenyi * PeerWeight + dailyScore * DailyWeight
  }

  /** The daily score that makes the final score exactly `target`. */
  function RequiredDaily(target: real, totalDuifenyi: real): (d: real)
    ensures totalDuifenyi * PeerWeight + d * DailyWeight == target
  {
    (target - totalDuifenyi * PeerWeight) / DailyWeight
  }

  /** The row's final score agrees with its two components; equivalently its
      daily score is exactly what its final score requires. */
  predicate Consistent(s: Student)
    ensures Consistent(s) <==> s.dailyScore == RequiredDaily(s.finalScore, s.totalDuifenyi)
  {
    s.finalScore == WeightedFinal(s.totalDuifenyi, s.dailyScore)
  }

  predicate AllConsistent(r: seq<Student>)
  {
    forall i :: 0 <= i < |r| ==> Consistent(r[i])
  }

  function Key(s: Student): StudentKey
  {
    StudentKey(s.id, s.name, s.gender, s.objectiveScore, s.subjectiveScore, s.totalDuifenyi)
  }

  function Keys(r: seq<Student>): (ks: seq<StudentKey>)
    ensures |ks| == |r|
    ensures forall i :: 0 <= i < |r| ==> ks[i] == Key(r[i])
  {
    seq(|r|, i requires 0 <= i < |r| => Key(r[i]))
  }

  /** `after` is `before` with, at most, a higher daily and a higher final score. */
  predicate Raised(before: Student, after: Student)
  {
    Key(after) == Key(before) &&
    after.dailyScore >= before.dailyScore &&
    after.finalScore >= before.finalScore
  }

  /** A row as the loader builds it from one spreadsheet line: the final score
      is computed from the two components, never read. */
  function NewStudent(id: string, name: string, gender: string,
                      objectiveScore: real, subjectiveScore: real,
                      totalDuifenyi: real, dailyScore: real): (s: Student)
    ensures Consistent(s)
    ensures Key(s) == StudentKey(id, name, gender, objectiveScore, subjectiveScore, totalDuifenyi)
    ensures s.dailyScore == dailyScore
  {
    Student(id, name, gender, objectiveScore, subjectiveScore, totalDuifenyi, dailyScore,
            WeightedFinal(totalDuifenyi, dailyScore))
  }

  lemma KeysAppend(u: seq<Student>, v: seq<Student>)
    ensures Keys(u + v) == Keys(u) + Keys(v)
  {
  }

  /** A permutation of rows is a permutation of their keys. */
  lemma {:induction false} KeysPermutation(x: seq<Student>, y: seq<Student>)
    requires multiset(x) == multiset(y)
    ensures multiset(Keys(x)) == multiset(Keys(y))
    decreases |x|
  {
    if x == [] {
      assert |y| == |multiset(y)| == 0;
    } else {
      var e := x[0];
      assert e in multiset(y);
      var k :| 0 <= k < |y| && y[k] == e;
      var front, back := y[..k], y[k + 1..];
      assert y == front + [e] + back;
      assert x == [e] + x[1..];
      assert multiset(x[1..]) == multiset(front + back) by {
        assert multiset(x[1..]) == multiset(x) - multiset{e};
        assert multiset(front + back) == multiset(y) - multiset{e};
      }
      KeysPermutation(x[1..], front + back);
      KeysAppend([e], x[1..]);
      KeysAppend(front + [e], back);
      KeysAppend(front, [e]);
      KeysAppend(front, back);
    }
  }
}
