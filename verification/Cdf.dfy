/** Drawing from a distribution given by its cumulative values: the binary search
    on the Python side and the linear scan on the Go side. */
module Cdf {

  ghost predicate NonDecreasing(P: seq<real>) {
    forall i, j :: 0 <= i <= j < |P| ==> P[i] <= P[j]
  }

  /** Python's indexing: -1 is the last element. */
  function Wrapped(nums: seq<real>, i: int): real
    requires -1 <= i < |nums| && nums != []
  {
    if i == -1 then nums[|nums| - 1] else nums[i]
  }

  /** `int((upper + lower) / 2)`; neither bound is negative. */
  function Middle(lower: int, upper: int): (mid: int)
    requires 0 <= lower <= upper
    ensures lower <= mid <= upper
  {
    (upper + lower) / 2
  }

  /** Halving leaves as many indices above the middle as below it, or one more. */
  lemma MiddleHalves(lower: int, upper: int)
    requires 0 <= lower <= upper
    ensures var mid := Middle(lower, upper); (upper - mid) - (mid - lower) in {0, 1}
  {
  }

  /** The search as a recursive function: `mid` is what the loop has last looked at. */
  function Search(nums: seq<real>, target: real, lower: int, upper: int, mid: int): int
    requires nums != [] && 0 <= lower && upper < |nums|
    decreases upper - lower + 1
  {
    if lower > upper then mid
    else
      var mid := Middle(lower, upper);
      if target > nums[mid] then Search(nums, target, mid + 1, upper, mid)
      else if target < Wrapped(nums, mid - 1) then Search(nums, target, lower, mid - 1, mid)
      else mid
  }

  /** Everything below the interval is too small, and the interval was cut off at the
      top only where the values are too large. */
  ghost predicate Brackets(nums: seq<real>, target: real, lower: int, upper: int) {
    && 0 <= lower <= |nums| && -1 <= upper < |nums|
    && (lower > 0 ==> nums[lower - 1] < target)
    && (0 <= upper < |nums| - 1 ==> target < nums[upper])
  }

  lemma {:induction false} SearchFinds(nums: seq<real>, target: real, lower: int, upper: int, mid: int)
    requires nums != [] && NonDecreasing(nums) && target <= nums[|nums| - 1]
    requires Brackets(nums, target, lower, upper)
    requires lower > upper ==> mid == 0 && lower == 0 && target <= nums[0]
    ensures Reaches(nums, target, Search(nums, target, lower, upper, mid))
    decreases upper - lower + 1
  {
    if lower <= upper {
      var probe := Middle(lower, upper);
      SearchStep(nums, target, lower, upper, mid);
      if target > nums[probe] {
        SearchFinds(nums, target, probe + 1, upper, probe);
      } else if target < Wrapped(nums, probe - 1) {
        SearchFinds(nums, target, lower, probe - 1, probe);
      }
    }
  }

  /** `m` is an index at which the values reach the target and before which they do
      not exceed it. */
  ghost predicate Reaches(nums: seq<real>, target: real, m: int) {
    0 <= m < |nums| && target <= nums[m] && (m == 0 || nums[m - 1] <= target)
  }

  lemma SearchStep(nums: seq<real>, target: real, lower: int, upper: int, mid: int)
    requires nums != [] && 0 <= lower <= upper < |nums|
    ensures var probe := Middle(lower, upper);
      Search(nums, target, lower, upper, mid)
      == if target > nums[probe] then Search(nums, target, probe + 1, upper, probe)
         else if target < Wrapped(nums, probe - 1) then Search(nums, target, lower, probe - 1, probe)
         else probe
  {
  }

  /** The test at index 0 reads the last value, by Python's indexing, and it makes no
      difference, in any table: going left from there ends the search at 0 as well. */
  lemma WrappedTestNeverMatters(nums: seq<real>, target: real, lower: int, upper: int, mid: int)
    requires nums != [] && 0 <= lower <= upper < |nums| && Middle(lower, upper) == 0 && target <= nums[0]
    ensures Search(nums, target, lower, upper, mid) == 0
  {
    SearchStep(nums, target, lower, upper, mid);
    assert lower == 0;
  }

  lemma {:induction false} SearchPastTheEnd(nums: seq<real>, target: real, lower: int, mid: int)
    requires nums != [] && NonDecreasing(nums) && target > nums[|nums| - 1]
    requires 0 <= lower <= |nums| && (lower == |nums| ==> mid == |nums| - 1)
    ensures Search(nums, target, lower, |nums| - 1, mid) == |nums| - 1
    decreases |nums| - lower
  {
    if lower < |nums| {
      var mid := Middle(lower, |nums| - 1);
      SearchPastTheEnd(nums, target, mid + 1, mid);
    }
  }

  /** The index found is one at which the distribution reaches the target, although
      the test at index 0 compares with the last value; it is the last index for a
      target above all values. */
  lemma SearchIsRight(nums: seq<real>, target: real)
    requires nums != [] && NonDecreasing(nums)
    ensures var m := Search(nums, target, 0, |nums| - 1, 0);
      if target <= nums[|nums| - 1] then Reaches(nums, target, m) else m == |nums| - 1
  {
    if target <= nums[|nums| - 1] {
      SearchFinds(nums, target, 0, |nums| - 1, 0);
    } else {
      SearchPastTheEnd(nums, target, 0, 0);
    }
  }

  /** The loop. For an empty table it would leave its result undefined. */
  method BinarySearch(nums: seq<real>, target: real) returns (mid: int)
    requires nums != []
    ensures 0 <= mid < |nums|
    ensures mid == Search(nums, target, 0, |nums| - 1, 0)
  {
    ghost var found := Search(nums, target, 0, |nums| - 1, 0);
    var upper, lower := |nums| - 1, 0;
    mid := 0;
    while lower <= upper
      invariant 0 <= lower <= |nums| && -1 <= upper < |nums| && 0 <= mid < |nums|
      invariant Search(nums, target, lower, upper, mid) == found
      decreases upper - lower + 1
    {
      SearchStep(nums, target, lower, upper, mid);
      mid := Middle(lower, upper);
      if target > nums[mid] {
        lower := mid + 1;
      } else if target < Wrapped(nums, mid - 1) {
        upper := mid - 1;
      } else {
        return;
      }
    }
  }

  /** `GetSeqLen` and its like: the first index at which the distribution reaches the
      draw, -1 if it never does. */
  function FirstReaching(P: seq<real>, t: real): (m: int)
    ensures -1 <= m < |P|
    ensures m >= 0 ==> t <= P[m] && forall k :: 0 <= k < m ==> P[k] < t
    ensures m == -1 ==> forall k :: 0 <= k < |P| ==> P[k] < t
  {
    if P == [] then -1
    else if t <= P[0] then 0
    else
      var r := FirstReaching(P[1..], t);
      if r == -1 then -1 else r + 1
  }

  method Scan(P: seq<real>, t: real) returns (m: int)
    ensures m == FirstReaching(P, t)
  {
    for i := 0 to |P|
      invariant forall k :: 0 <= k < i ==> P[k] < t
    {
      if t <= P[i] {
        return i;
      }
    }
    return -1;
  }

  /** The two sides agree on every draw that is not itself an entry of the table. */
  lemma AgreesOffTheEntries(P: seq<real>, t: real)
    requires P != [] && NonDecreasing(P) && t <= P[|P| - 1] && t !in P
    ensures Search(P, t, 0, |P| - 1, 0) == FirstReaching(P, t)
  {
    SearchFinds(P, t, 0, |P| - 1, 0);
    OnlyOneReaches(P, t, Search(P, t, 0, |P| - 1, 0));
  }

  lemma OnlyOneReaches(P: seq<real>, t: real, m: int)
    requires NonDecreasing(P) && Reaches(P, t, m) && t !in P
    ensures m == FirstReaching(P, t)
  {
    if m > 0 {
      assert P[m - 1] in P;
      assert forall k :: 0 <= k < m ==> P[k] <= P[m - 1] < t;
    }
  }

  /** They agree on every draw only for tables of at most two entries: in a longer one
      the first probe accepts the entry before it. */
  lemma AgreesEverywhereExactlyOnShortTables(P: seq<real>)
    requires P != [] && NonDecreasing(P)
    ensures (forall t :: t <= P[|P| - 1] ==> Search(P, t, 0, |P| - 1, 0) == FirstReaching(P, t)) <==> |P| <= 2
  {
    if |P| > 2 {
      var mid := Middle(0, |P| - 1);
      var t := P[mid - 1];
      assert Search(P, t, 0, |P| - 1, 0) == mid;
      assert FirstReaching(P, t) != mid;
    } else {
      forall t | t <= P[|P| - 1] ensures Search(P, t, 0, |P| - 1, 0) == FirstReaching(P, t) {
        SearchFinds(P, t, 0, |P| - 1, 0);
      }
    }
  }

  /** The first index at which the values exceed the draw, the length if none does. */
  function FirstAbove(P: seq<real>, t: real): (u: nat)
    ensures u <= |P|
    ensures u < |P| ==> P[u] > t
    ensures forall i :: 0 <= i < u ==> P[i] <= t
  {
    if P == [] || P[0] > t then 0 else FirstAbove(P[1..], t) + 1
  }

  /** Halving the index range `lower..upper` looks at `k` before it looks at any of
      `k + 1` to `u`. */
  predicate MeetsFirst(lower: int, upper: int, k: int, u: int)
    requires 0 <= lower <= upper + 1
    decreases upper - lower + 1
  {
    if lower > upper then true
    else
      var mid := Middle(lower, upper);
      if mid < k then MeetsFirst(mid + 1, upper, k, u)
      else mid == k || (mid > u && MeetsFirst(lower, mid - 1, k, u))
  }

  /** How the two tests of the search come out at an index `p`. */
  ghost predicate TestsAt(P: seq<real>, t: real, k: int, u: int, p: int)
    requires 0 <= p < |P|
  {
    (t > P[p] <==> p < k) && (p > 0 ==> (t < P[p - 1] <==> p > u))
  }

  lemma TestsCompare(P: seq<real>, t: real, p: int)
    requires NonDecreasing(P) && 0 <= FirstReaching(P, t) && 0 <= p < |P|
    ensures TestsAt(P, t, FirstReaching(P, t), FirstAbove(P, t), p)
  {
    var k, u := FirstReaching(P, t), FirstAbove(P, t);
    if k <= p {
      assert t <= P[k] <= P[p];
    }
    if u < p {
      assert t < P[u] <= P[p - 1];
    }
  }

  lemma {:induction false} SearchFollowsTests(P: seq<real>, t: real, k: nat, u: nat, lower: int, upper: int, mid: int)
    requires k <= u && forall p :: 0 <= p < |P| ==> TestsAt(P, t, k, u, p)
    requires 0 <= lower <= k <= upper < |P|
    ensures Search(P, t, lower, upper, mid) == k <==> MeetsFirst(lower, upper, k, u)
    decreases upper - lower + 1
  {
    var probe := Middle(lower, upper);
    SearchStep(P, t, lower, upper, mid);
    assert TestsAt(P, t, k, u, probe);
    if probe < k {
      SearchFollowsTests(P, t, k, u, probe + 1, upper, probe);
    } else if probe > k && probe > u {
      SearchFollowsTests(P, t, k, u, lower, probe - 1, probe);
    }
  }

  /** The search accepts every index from the first that reaches the target to the
      first that exceeds it. */
  lemma SearchMeets(P: seq<real>, t: real, k: nat, u: nat, lower: int, upper: int, mid: int)
    requires NonDecreasing(P) && k == FirstReaching(P, t) && u == FirstAbove(P, t)
    requires 0 <= lower <= k <= upper < |P|
    ensures Search(P, t, lower, upper, mid) == k <==> MeetsFirst(lower, upper, k, u)
  {
    forall p | 0 <= p < |P| ensures TestsAt(P, t, k, u, p) {
      TestsCompare(P, t, p);
    }
    SearchFollowsTests(P, t, k, u, lower, upper, mid);
  }

  /** The first index that reaches the target is the only one the search accepts
      exactly when the target is no entry. */
  lemma OnlyChoice(P: seq<real>, t: real)
    requires P != [] && NonDecreasing(P) && t <= P[|P| - 1]
    ensures 0 <= FirstReaching(P, t) <= FirstAbove(P, t)
    ensures FirstReaching(P, t) == FirstAbove(P, t) <==> t !in P
  {
    if FirstReaching(P, t) < FirstAbove(P, t) {
      assert P[FirstReaching(P, t)] == t;
    }
  }

  /** Search and scan agree on a target the table reaches exactly when halving the
      indices meets the first index that reaches it before the others that the search
      would accept. The values matter only through these two indices. */
  lemma AgreesExactly(P: seq<real>, t: real, k: int, u: nat)
    requires P != [] && NonDecreasing(P) && t <= P[|P| - 1]
    requires k == FirstReaching(P, t) && u == FirstAbove(P, t)
    ensures Search(P, t, 0, |P| - 1, 0) == k <==> MeetsFirst(0, |P| - 1, k, u)
  {
    assert k >= 0;
    SearchMeets(P, t, k, u, 0, |P| - 1, 0);
  }
}
