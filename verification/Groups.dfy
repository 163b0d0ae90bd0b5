/** Jobs are grouped by their expected execution time, and the group decides how
    long a queued job may be overtaken. */
module Groups {

  const JOBLEN_EDGE: seq<int> := [3, 12, 39, 117, 330, 890, 2272, 5569, 13150, 30000]
  const JOBLEN_MAP: seq<real> := [1.64, 6.76, 23.21, 71.57, 206.46, 566.52, 1478.56, 3687.27, 8842.61, 20503.84]
  const LAMBDA: real := 10.0
  const VARY: real := 200.0
  const MAX_WAIT: real := 4000.0

  /** The first group, from `i` on, whose edge lies above `execTime`; -1 if none does. */
  function GroupFrom(execTime: int, i: nat): int
    requires i <= 10
    decreases 10 - i
  {
    if i == 10 then -1 else if JOBLEN_EDGE[i] > execTime then i else GroupFrom(execTime, i + 1)
  }

  function GroupOf(execTime: int): int {
    GroupFrom(execTime, 0)
  }

  method GetGroupIndex(execTime: int) returns (g: int)
    ensures g == GroupOf(execTime)
  {
    for i := 0 to 10
      invariant GroupFrom(execTime, i) == GroupOf(execTime)
    {
      if JOBLEN_EDGE[i] > execTime {
        return i;
      }
    }
    return -1;
  }

  lemma {:induction false} GroupFromIs(execTime: int, i: nat)
    requires i <= 10 && (i > 0 ==> JOBLEN_EDGE[i - 1] <= execTime)
    ensures var g := GroupFrom(execTime, i);
      if g == -1 then JOBLEN_EDGE[9] <= execTime
      else i <= g < 10 && execTime < JOBLEN_EDGE[g] && (g > 0 ==> JOBLEN_EDGE[g - 1] <= execTime)
    decreases 10 - i
  {
    if i < 10 && JOBLEN_EDGE[i] <= execTime {
      GroupFromIs(execTime, i + 1);
    }
  }

  /** The groups cut the execution times into consecutive half-open intervals; from
      the last edge on there is no group. */
  lemma GroupsAreIntervals(execTime: int, g: int)
    requires 0 <= g < 10
    ensures GroupOf(execTime) == g <==> execTime < JOBLEN_EDGE[g] && (g > 0 ==> JOBLEN_EDGE[g - 1] <= execTime)
    ensures GroupOf(execTime) == -1 <==> 30000 <= execTime
    ensures -1 <= GroupOf(execTime) < 10
  {
    GroupFromIs(execTime, 0);
  }

  /** The same with the edges written out. */
  lemma GroupsByRate(rate: int)
    ensures GroupOf(rate) == if rate < 3 then 0 else if rate < 12 then 1 else if rate < 39 then 2 else if rate < 117 then 3
                             else if rate < 330 then 4 else if rate < 890 then 5 else if rate < 2272 then 6
                             else if rate < 5569 then 7 else if rate < 13150 then 8 else if rate < 30000 then 9 else -1
  {
    GroupFromIs(rate, 0);
  }

  /** The distance `D` of a job from the edge of the preempting groups. */
  function Slack(rate: int): real {
    rate as real - JOBLEN_EDGE[1] as real + 750.0
  }

  predicate Preempts(rate: int) {
    GroupOf(rate) <= 1 || LAMBDA * Slack(rate) < 1000.0
  }

  /** A job overtakes the queue exactly when its rate is below 12, or so large that
      it has no group. The test on the slack never decides. */
  lemma PreemptsExactly(rate: int)
    ensures Preempts(rate) <==> rate < 12 || rate >= 30000
    ensures GroupOf(rate) > 1 ==> LAMBDA * Slack(rate) / 1000.0 >= 7.5
  {
    GroupFromIs(rate, 0);
    if GroupOf(rate) > 1 {
      assert JOBLEN_EDGE[GroupOf(rate) - 1] >= 12;
    }
  }

  /** The waiting time in whole milliseconds, for a natural logarithm `ln`. */
  function WaitingTime(rate: int, ln: real -> real): int
    requires !Preempts(rate)
  {
    PreemptsExactly(rate);
    GroupFromIs(rate, 0);
    var w := VARY * ln(LAMBDA * Slack(rate) / 1000.0) / Slack(rate) * JOBLEN_MAP[GroupOf(rate)];
    (if w < MAX_WAIT then w else MAX_WAIT).Floor
  }

  /** All the code needs of the logarithm. */
  ghost predicate PositiveAboveOne(ln: real -> real) {
    forall x :: x > 1.0 ==> ln(x) > 0.0
  }

  /** The expected execution time of the jobs that are queued, by their rate. */
  ghost function TypicalTime(rate: int): real {
    if rate < 39 then 23.21
    else if rate < 117 then 71.57
    else if rate < 330 then 206.46
    else if rate < 890 then 566.52
    else if rate < 2272 then 1478.56
    else if rate < 5569 then 3687.27
    else if rate < 13150 then 8842.61
    else 20503.84
  }

  /** `t` is `scaled / d`, at most 4000, rounded down to a whole number. */
  ghost predicate Rounds(t: int, d: real, scaled: real) {
    t <= 4000 && t as real * d <= scaled && (t < 4000 ==> scaled < (t + 1) as real * d)
  }

  /** `t` is 200 * ln(10 * d / 1000) / d times the typical time, in whole milliseconds
      and at most 4000, `d` being the rate less 12 plus 750. */
  ghost predicate RightWait(rate: int, t: int, ln: real -> real) {
    var d := rate as real - 12.0 + 750.0;
    Rounds(t, d, 200.0 * ln(10.0 * d / 1000.0) * TypicalTime(rate))
  }

  lemma TypicalTimeIsTheTable(rate: int)
    requires 12 <= rate < 30000
    ensures !Preempts(rate) && GroupOf(rate) >= 2 && JOBLEN_MAP[GroupOf(rate)] == TypicalTime(rate)
  {
    PreemptsExactly(rate);
    GroupFromIs(rate, 0);
  }

  lemma RoundedDown(w: real, d: real, scaled: real, t: int)
    requires d > 0.0 && w * d == scaled
    requires t == (if w < 4000.0 then w else 4000.0).Floor
    ensures Rounds(t, d, scaled)
  {
    Scaled(t as real, w, d);
    if t < 4000 {
      Scaled(w, (t + 1) as real, d);
    }
  }

  lemma Scaled(a: real, b: real, d: real)
    requires d > 0.0
    ensures a <= b ==> a * d <= b * d
    ensures a < b ==> a * d < b * d
  {
    assert (b - a) * d == b * d - a * d;
  }

  lemma ScaledBack(l: real, d: real, m: real)
    requires d > 0.0
    ensures VARY * l / d * m * d == VARY * l * m
  {
    var x := VARY * l / d;
    assert x * d == VARY * l;
    assert x * m * d == x * d * m;
  }

  /** The waiting time of every job that is queued, to the millisecond. */
  lemma WaitIsRight(rate: int, ln: real -> real)
    requires 12 <= rate < 30000
    ensures !Preempts(rate) && RightWait(rate, WaitingTime(rate, ln), ln)
  {
    TypicalTimeIsTheTable(rate);
    var d, l, m := Slack(rate), ln(LAMBDA * Slack(rate) / 1000.0), JOBLEN_MAP[GroupOf(rate)];
    ScaledBack(l, d, m);
    RoundedDown(VARY * l / d * m, d, VARY * l * m, WaitingTime(rate, ln));
  }

  /** A queued job waits between 0 and 4000 ms: the argument of the logarithm is
      above 1 for every job that is queued. */
  lemma WaitIsBounded(rate: int, ln: real -> real)
    requires !Preempts(rate) && PositiveAboveOne(ln)
    ensures 0 <= WaitingTime(rate, ln) <= 4000
  {
    PreemptsExactly(rate);
    GroupFromIs(rate, 0);
    var d, l, m := Slack(rate), ln(LAMBDA * Slack(rate) / 1000.0), JOBLEN_MAP[GroupOf(rate)];
    assert d >= 750.0;
    ProductIsPositive(l, d, m);
  }

  lemma ProductIsPositive(l: real, d: real, m: real)
    requires l > 0.0 && d > 0.0 && m > 0.0
    ensures VARY * l / d * m > 0.0
  {
    assert VARY * l > 0.0;
    assert VARY * l / d > 0.0;
  }
}
