/** How an activator takes its slice of the pods and how much capacity it then
    claims. All activators compute this on their own; the lemmas say what the
    independently computed results add up to. */
module Slicing {

  /** `queue.MaxBreakerCapacity`, that is `math.MaxInt32`. */
  const REVISION_MAX_CONCURRENCY: int := 0x7fff_ffff

  function MinOneOrValue(num: int): int {
    if num > 1 then num else 1
  }

  /** The half-open range of pods an activator owns, and how many pods are left
      over at the end. The two divisors must be positive. */
  function PickIndices(numTrackers: int, selfIndex: int, numActivators: int): (r: (int, int, int))
    requires numTrackers > 0
    requires 0 <= selfIndex < numActivators
    ensures 0 <= r.0 < r.1 <= numTrackers - r.2
    ensures 0 <= r.2 < numActivators
  {
    if numActivators > numTrackers then
      (selfIndex % numTrackers, selfIndex % numTrackers + 1, 0)
    else
      var sliceSize := numTrackers / numActivators;
      SliceFits(numTrackers, selfIndex, numActivators);
      (selfIndex * sliceSize, selfIndex * sliceSize + sliceSize, numTrackers % numActivators)
  }

  lemma SliceFits(numTrackers: int, selfIndex: int, numActivators: int)
    requires 0 <= selfIndex < numActivators <= numTrackers
    ensures var sliceSize := numTrackers / numActivators;
      1 <= sliceSize && 0 <= selfIndex * sliceSize &&
      selfIndex * sliceSize + sliceSize <= numTrackers - numTrackers % numActivators
  {
    var sliceSize := numTrackers / numActivators;
    assert numTrackers == numActivators * sliceSize + numTrackers % numActivators;
    if sliceSize < 1 {
      MulMonotone(0, numActivators, -sliceSize);
      assert false;
    }
    assert selfIndex * sliceSize + sliceSize == (selfIndex + 1) * sliceSize;
    MulMonotone(selfIndex + 1, numActivators, sliceSize);
    MulMonotone(0, selfIndex, sliceSize);
  }

  lemma MulMonotone(a: int, b: int, c: int)
    requires a <= b && 0 <= c
    ensures a * c <= b * c
  {
    assert (b - a) * c >= 0;
  }

  /** The trackers activator `selfIndex` of `numActivators` sends requests to.
      Index -1 means that this activator is not in the endpoints yet. */
  function AssignSlice<T>(trackers: seq<T>, selfIndex: int, numActivators: int): (x: seq<T>)
    requires selfIndex == -1 || 0 <= selfIndex < numActivators
    ensures trackers != [] <==> x != []
    ensures forall t :: t in x ==> t in trackers
  {
    var lt := |trackers|;
    if selfIndex == -1 || lt <= 1 then trackers
    else if numActivators == 1 then trackers
    else
      var (bi, ei, remnants) := PickIndices(lt, selfIndex, numActivators);
      var x := trackers[bi..ei];
      var tail := trackers[lt - remnants..];
      if remnants > 0 && |tail| > selfIndex then x + [tail[selfIndex]] else x
  }

  ghost predicate Distinct<T>(s: seq<T>) {
    forall i, j :: 0 <= i < j < |s| ==> s[i] != s[j]
  }

  /** The activator that gets the pod at position `j` when there are at least as
      many pods as activators. */
  ghost function Owner(j: int, lt: int, n: int): int
    requires 0 <= j < lt && 1 <= n <= lt
  {
    var sliceSize := lt / n;
    SliceFits(lt, 0, n);
    if j < n * sliceSize then j / sliceSize else j - n * sliceSize
  }

  lemma QuotientBounds(j: int, i: int, d: int)
    requires d > 0
    ensures i * d <= j < i * d + d <==> j / d == i
  {
    if i * d <= j < i * d + d {
      var q := j / d;
      assert q * d <= j < q * d + d;
      if q < i { MulMonotone(q + 1, i, d); }
      if i < q { MulMonotone(i + 1, q, d); }
    }
  }

  /** Position `j` is in the slice of activator `i` exactly when `i` owns it. */
  lemma SliceHoldsOwned<T>(trackers: seq<T>, i: int, n: int, j: int)
    requires Distinct(trackers)
    requires 0 <= i < n <= |trackers| && 0 <= j < |trackers|
    ensures trackers[j] in AssignSlice(trackers, i, n) <==> Owner(j, |trackers|, n) == i
  {
    var lt := |trackers|;
    var sliceSize := lt / n;
    SliceFits(lt, i, n);
    assert lt == n * sliceSize + lt % n;
    if n == 1 {
      QuotientBounds(j, 0, sliceSize);
    } else {
      QuotientBounds(j, i, sliceSize);
      var bi, ei := i * sliceSize, i * sliceSize + sliceSize;
      assert trackers[j] in trackers[bi..ei] <==> bi <= j < ei by {
        if bi <= j < ei { assert trackers[bi..ei][j - bi] == trackers[j]; }
      }
      if j < n * sliceSize {
        assert i < lt % n ==> trackers[lt - lt % n..][i] == trackers[n * sliceSize + i];
      } else {
        MulMonotone(i + 1, n, sliceSize);
        assert i < lt % n ==> trackers[lt - lt % n..][i] == trackers[n * sliceSize + i];
      }
    }
  }

  lemma OwnerInRange(j: int, lt: int, n: int)
    requires 0 <= j < lt && 1 <= n <= lt
    ensures 0 <= Owner(j, lt, n) < n
  {
    var sliceSize := lt / n;
    SliceFits(lt, 0, n);
    assert lt == n * sliceSize + lt % n;
    if j < n * sliceSize {
      QuotientBelow(j, n, sliceSize);
    }
  }

  lemma QuotientBelow(j: int, n: int, d: int)
    requires 0 < d && 0 <= j < n * d
    ensures 0 <= j / d < n
  {
    var q := j / d;
    assert q * d <= j < q * d + d;
    if q >= n { MulMonotone(n, q, d); }
    if q < 0 { MulMonotone(q + 1, 0, d); }
  }

  /** With at least as many pods as activators, every pod is in the slice of
      exactly one activator. */
  lemma EveryPodHasOneOwner<T>(trackers: seq<T>, n: int, t: T)
    requires Distinct(trackers) && 1 <= n <= |trackers| && t in trackers
    ensures exists i :: 0 <= i < n && t in AssignSlice(trackers, i, n)
    ensures forall i, k :: 0 <= i < n && 0 <= k < n && t in AssignSlice(trackers, i, n) && t in AssignSlice(trackers, k, n)
                           ==> i == k
  {
    var j :| 0 <= j < |trackers| && trackers[j] == t;
    OwnerInRange(j, |trackers|, n);
    SliceHoldsOwned(trackers, Owner(j, |trackers|, n), n, j);
    forall i | 0 <= i < n ensures t in AssignSlice(trackers, i, n) <==> Owner(j, |trackers|, n) == i {
      SliceHoldsOwned(trackers, i, n, j);
    }
  }

  /** No activator lists a pod twice. */
  lemma SliceIsDistinct<T>(trackers: seq<T>, i: int, n: int)
    requires Distinct(trackers)
    requires i == -1 || 0 <= i < n
    ensures Distinct(AssignSlice(trackers, i, n))
  {
    var lt := |trackers|;
    if i != -1 && 1 < lt && n != 1 {
      var (bi, ei, remnants) := PickIndices(lt, i, n);
      assert forall k :: 0 <= k < ei - bi ==> trackers[bi..ei][k] == trackers[bi + k];
      if i < remnants {
        assert trackers[lt - remnants..][i] == trackers[lt - remnants + i];
      }
    }
  }

  /** Slices differ by at most one pod: the first `lt % n` activators get one more. */
  lemma SliceSize<T>(trackers: seq<T>, i: int, n: int)
    requires 0 <= i < n <= |trackers|
    ensures |AssignSlice(trackers, i, n)| == |trackers| / n + (if i < |trackers| % n then 1 else 0)
  {
    var lt := |trackers|;
    if lt > 1 && n > 1 {
      var (bi, ei, remnants) := PickIndices(lt, i, n);
      assert |trackers[bi..ei]| == lt / n && |trackers[lt - remnants..]| == lt % n;
    } else {
      assert n == 1;
      QuotientBounds(lt, lt, 1);
    }
  }

  /** What a slice holds, in order: everything for an unknown index; a run of equal
      length for each activator, and one of the remnants for the first few; a single
      pod, in turn, if there are more activators than pods. */
  ghost predicate HoldsSlice<T>(x: seq<T>, trackers: seq<T>, i: int, n: int)
    requires i == -1 || 0 <= i < n
  {
    if i == -1 || trackers == [] then x == trackers
    else if |trackers| < n then x == [trackers[i % |trackers|]]
    else
      var q, r := |trackers| / n, |trackers| % n;
      && |x| == q + (if i < r then 1 else 0)
      && (forall k :: 0 <= k < q ==> 0 <= i * q + k < |trackers| && x[k] == trackers[i * q + k])
      && (i < r ==> n * q + i < |trackers| && x[q] == trackers[n * q + i])
  }

  lemma SliceIsInOrder<T>(trackers: seq<T>, i: int, n: int)
    requires i == -1 || 0 <= i < n
    ensures HoldsSlice(AssignSlice(trackers, i, n), trackers, i, n)
  {
    if 0 <= i {
      if n <= |trackers| {
        OwnSliceIsInOrder(trackers, i, n);
      } else if trackers != [] {
        SharedSliceIsOnePod(trackers, i, n);
      }
    }
  }

  lemma SharedSliceIsOnePod<T>(trackers: seq<T>, i: int, n: int)
    requires 0 <= i < n && 0 < |trackers| < n
    ensures AssignSlice(trackers, i, n) == [trackers[i % |trackers|]]
  {
    if |trackers| == 1 {
      QuotientBounds(i, i, 1);
    }
  }

  lemma SlicePieces<T>(trackers: seq<T>, i: int, n: int)
    requires 0 <= i < n <= |trackers|
    ensures var q, r := |trackers| / n, |trackers| % n;
      && 0 <= i * q && i * q + q <= |trackers| - r && |trackers| - r == n * q
      && AssignSlice(trackers, i, n) == trackers[i * q..i * q + q] + (if i < r then [trackers[n * q + i]] else [])
  {
    var lt := |trackers|;
    var q, r := lt / n, lt % n;
    SliceFits(lt, i, n);
    assert lt == n * q + r;
    if n == 1 {
      QuotientBounds(lt, lt, 1);
      assert trackers[0..lt] + [] == trackers;
    } else {
      assert PickIndices(lt, i, n) == (i * q, i * q + q, r);
      assert i < r ==> trackers[lt - r..][i] == trackers[n * q + i];
    }
  }

  lemma PiecesInOrder<T>(trackers: seq<T>, b: int, q: int, tail: seq<T>)
    requires 0 <= b <= b + q <= |trackers|
    ensures var x := trackers[b..b + q] + tail;
      |x| == q + |tail| && (forall k :: 0 <= k < q ==> x[k] == trackers[b + k]) && x[q..] == tail
  {
  }

  lemma OwnSliceIsInOrder<T>(trackers: seq<T>, i: int, n: int)
    requires 0 <= i < n <= |trackers|
    ensures HoldsSlice(AssignSlice(trackers, i, n), trackers, i, n)
  {
    var q, r := |trackers| / n, |trackers| % n;
    SliceFits(|trackers|, i, n);
    SlicePieces(trackers, i, n);
    var tail := if i < r then [trackers[n * q + i]] else [];
    PiecesInOrder(trackers, i * q, q, tail);
    var x := AssignSlice(trackers, i, n);
    assert i < r ==> x[q] == x[q..][0];
  }

  /** How many of the first `m` activators send to pod `t`. */
  ghost function OwnerCount<T>(trackers: seq<T>, t: T, n: int, m: nat): nat
    requires m <= n
  {
    if m == 0 then 0
    else OwnerCount(trackers, t, n, m - 1) + (if t in AssignSlice(trackers, m - 1, n) then 1 else 0)
  }

  lemma RoundRobinSlice<T>(trackers: seq<T>, i: int, n: int, j: int)
    requires Distinct(trackers) && 0 <= j < |trackers| < n && 0 <= i < n
    ensures trackers[j] in AssignSlice(trackers, i, n) <==> i % |trackers| == j
  {
    var k := i % |trackers|;
    if |trackers| > 1 {
      assert AssignSlice(trackers, i, n) == [trackers[k]];
    }
  }

  lemma DivModStep(m: int, d: int)
    requires 0 < m && 0 < d
    ensures if m % d == 0 then (m - 1) % d == d - 1 && (m - 1) / d == m / d - 1
            else (m - 1) % d == m % d - 1 && (m - 1) / d == m / d
  {
    var q, r := m / d, m % d;
    assert m == q * d + r;
    if r == 0 {
      assert m - 1 == (q - 1) * d + (d - 1);
      QuotientBounds(m - 1, q - 1, d);
    } else {
      QuotientBounds(m - 1, q, d);
    }
  }

  /** With more activators than pods, the first `m` activators are dealt to the
      pods in turn: pod `j` is served by floor(m/lt) of them, one more if `j` is
      among the first `m % lt`. */
  lemma {:induction false} PodsShareActivators<T>(trackers: seq<T>, j: int, n: int, m: nat)
    requires Distinct(trackers) && 0 <= j < |trackers| < n && m <= n
    ensures OwnerCount(trackers, trackers[j], n, m) == Share(m, |trackers|, j)
  {
    if m > 0 {
      PodsShareActivators(trackers, j, n, m - 1);
      RoundRobinSlice(trackers, m - 1, n, j);
      ShareStep(m, |trackers|, j);
    } else {
      QuotientBounds(0, 0, |trackers|);
    }
  }

  ghost function Share(m: int, lt: int, j: int): int
    requires 0 < lt
  {
    m / lt + (if j < m % lt then 1 else 0)
  }

  lemma ShareStep(m: int, lt: int, j: int)
    requires 0 < m && 0 <= j < lt
    ensures Share(m, lt, j) == Share(m - 1, lt, j) + (if (m - 1) % lt == j then 1 else 0)
  {
    DivModStep(m, lt);
  }

  function Clamped(x: int): int {
    if x <= REVISION_MAX_CONCURRENCY then x else REVISION_MAX_CONCURRENCY
  }

  /** The concurrency the revision-wide breaker is given. */
  function CalculateCapacity(cc: int, backendCount: int, numTrackers: int, activatorCount: int): int {
    var target :=
      if numTrackers > 0 then cc * numTrackers
      else if cc * backendCount > 0 then MinOneOrValue(cc * backendCount / MinOneOrValue(activatorCount))
      else cc * backendCount;
    if backendCount > 0 && (cc == 0 || target > REVISION_MAX_CONCURRENCY) then REVISION_MAX_CONCURRENCY else target
  }

  /** The same capacity in numbers: nothing without backends, the maximum of
      2147483647 without a container concurrency, what the trackers take up to this
      maximum, and otherwise an equal share, rounded down, of what the backends take. */
  lemma CapacityIs(cc: nat, backendCount: nat, numTrackers: nat, activatorCount: int)
    requires backendCount == 0 ==> numTrackers == 0
    ensures var c, all := CalculateCapacity(cc, backendCount, numTrackers, activatorCount), cc * backendCount;
      if backendCount == 0 then c == 0
      else if cc == 0 then c == 2147483647
      else if numTrackers > 0 then c == if cc * numTrackers < 2147483647 then cc * numTrackers else 2147483647
      else if activatorCount <= 1 then c == if all < 2147483647 then all else 2147483647
      else
        && 1 <= c <= 2147483647
        && (c > 1 ==> c * activatorCount <= all)
        && (c < 2147483647 ==> all < (c + 1) * activatorCount)
  {
    if cc > 0 && backendCount > 0 && numTrackers == 0 {
      MulMonotone(1, backendCount, cc);
      if activatorCount > 1 {
        ShareIs(cc * backendCount, activatorCount);
      } else {
        QuotientBounds(cc * backendCount, cc * backendCount, 1);
      }
    }
  }

  lemma ShareIs(all: int, n: int)
    requires all > 0 && n > 1
    ensures var c := Clamped(MinOneOrValue(all / n));
      && 1 <= c && (c > 1 ==> c * n <= all) && (c < REVISION_MAX_CONCURRENCY ==> all < (c + 1) * n)
  {
    var q := all / n;
    assert q * n <= all < (q + 1) * n;
    var c := Clamped(MinOneOrValue(q));
    if 1 < c < q {
      MulMonotone(c, q, n);
    }
    if q < 1 {
      MulMonotone(q + 1, 2, n);
    }
  }

  /** The capacities claimed by activators that hold `sizes[0]`, `sizes[1]`, ... trackers. */
  ghost function ClaimedCapacity(cc: int, backendCount: int, sizes: seq<int>, n: int): int {
    if sizes == [] then 0
    else
      var last := |sizes| - 1;
      ClaimedCapacity(cc, backendCount, sizes[..last], n) + CalculateCapacity(cc, backendCount, sizes[last], n)
  }

  /** What all `n` activators together claim for one revision. */
  ghost function FleetCapacity<T>(cc: int, trackers: seq<T>, n: nat): int {
    ClaimedCapacity(cc, |trackers|, seq(n, i requires 0 <= i < n => |AssignSlice(trackers, i, n)|), n)
  }

  lemma DirectCapacity(cc: int, backendCount: int, size: int, n: int)
    requires 0 < cc && 0 < backendCount && 0 < size
    ensures CalculateCapacity(cc, backendCount, size, n) == Clamped(cc * size)
  {
  }

  lemma {:induction false} ClaimedCapacityIs(cc: int, backendCount: int, sizes: seq<int>, n: int, q: int, r: int)
    requires 0 < cc && 0 < backendCount && 0 < q && 0 <= r
    requires forall i :: 0 <= i < |sizes| ==> sizes[i] == q + (if i < r then 1 else 0)
    ensures var total, offered := ClaimedCapacity(cc, backendCount, sizes, n), cc * PodsDealt(q, r, |sizes|);
      if sizes == [] || cc * sizes[0] <= REVISION_MAX_CONCURRENCY then total == offered else total < offered
  {
    if sizes != [] {
      var m := |sizes| - 1;
      ClaimedCapacityIs(cc, backendCount, sizes[..m], n, q, r);
      DirectCapacity(cc, backendCount, sizes[m], n);
      PodsDealtStep(q, r, m + 1);
      ClampStep(cc, PodsDealt(q, r, m), sizes[m], sizes[0], ClaimedCapacity(cc, backendCount, sizes[..m], n), m == 0);
    }
  }

  lemma ClampStep(cc: int, dealt: int, size: int, first: int, total: int, start: bool)
    requires 0 < cc && size <= first && (start ==> size == first)
    requires if start || cc * first <= REVISION_MAX_CONCURRENCY then total == cc * dealt else total < cc * dealt
    ensures var claim := Clamped(cc * size);
      if cc * first <= REVISION_MAX_CONCURRENCY then total + claim == cc * (dealt + size)
      else total + claim < cc * (dealt + size)
  {
    Distribute(cc, dealt, size);
    MulMonotone(size, first, cc);
  }

  /** The pods in the first `m` slices, when each takes `q` and the first `r` one more. */
  ghost function PodsDealt(q: int, r: int, m: int): int {
    m * q + (if m < r then m else r)
  }

  lemma PodsDealtStep(q: int, r: int, m: int)
    requires 0 < m
    ensures PodsDealt(q, r, m) == PodsDealt(q, r, m - 1) + q + (if m - 1 < r then 1 else 0)
  {
    assert m * q == (m - 1) * q + q;
  }

  lemma Distribute(a: int, b: int, c: int)
    ensures a * (b + c) == a * b + a * c
  {
  }

  /** The size of the largest of `n` slices of `lt` pods. */
  function LargestSlice(lt: nat, n: nat): nat
    requires 0 < n
  {
    lt / n + (if lt % n > 0 then 1 else 0)
  }

  /** The claims of `n` activators add up to what `lt` pods take. */
  ghost predicate CapacityFits(cc: int, lt: nat, n: nat) {
    || lt == 0
    || (1 <= n <= lt && cc * LargestSlice(lt, n) <= REVISION_MAX_CONCURRENCY)
    || (cc > REVISION_MAX_CONCURRENCY && n * REVISION_MAX_CONCURRENCY == cc * lt)
  }

  lemma {:induction false} EqualClaims(cc: int, backendCount: int, sizes: seq<int>, n: int, size: int)
    requires forall i :: 0 <= i < |sizes| ==> sizes[i] == size
    ensures ClaimedCapacity(cc, backendCount, sizes, n) == |sizes| * CalculateCapacity(cc, backendCount, size, n)
  {
    if sizes != [] {
      EqualClaims(cc, backendCount, sizes[..|sizes| - 1], n, size);
    }
  }

  lemma SharedFleetCapacity<T>(cc: int, trackers: seq<T>, n: nat)
    requires 0 < cc && (trackers == [] || |trackers| < n)
    ensures FleetCapacity(cc, trackers, n) == if trackers == [] then 0 else n * Clamped(cc)
  {
    var sizes := seq(n, i requires 0 <= i < n => |AssignSlice(trackers, i, n)|);
    EqualClaims(cc, |trackers|, sizes, n, if trackers == [] then 0 else 1);
  }

  /** Behind at least as many pods as activators: the claims add up exactly when the
      largest slice is not clamped, and fall short otherwise. */
  lemma SplitFleetCapacity<T>(cc: int, trackers: seq<T>, n: int)
    requires 0 < cc && 1 <= n <= |trackers|
    ensures if cc * LargestSlice(|trackers|, n) <= REVISION_MAX_CONCURRENCY then FleetCapacity(cc, trackers, n) == cc * |trackers|
            else FleetCapacity(cc, trackers, n) < cc * |trackers|
  {
    var q, r := |trackers| / n, |trackers| % n;
    SliceFits(|trackers|, 0, n);
    assert PodsDealt(q, r, n) == |trackers|;
    var sizes := seq(n, i requires 0 <= i < n => |AssignSlice(trackers, i, n)|);
    forall i | 0 <= i < n ensures sizes[i] == q + (if i < r then 1 else 0) {
      SliceSize(trackers, i, n);
    }
    ClaimedCapacityIs(cc, |trackers|, sizes, n, q, r);
    assert sizes[0] == LargestSlice(|trackers|, n);
  }

  lemma MulStrict(a: int, b: int, c: int)
    requires a < b && 0 < c
    ensures a * c < b * c
  {
    assert (b - a) * c > 0;
  }

  lemma SplitFleetFits(cc: int, lt: nat, n: nat)
    requires 0 < cc && 1 <= n <= lt
    ensures CapacityFits(cc, lt, n) <==> cc * LargestSlice(lt, n) <= REVISION_MAX_CONCURRENCY
  {
    if cc > REVISION_MAX_CONCURRENCY {
      MulMonotone(n, lt, REVISION_MAX_CONCURRENCY);
      MulStrict(REVISION_MAX_CONCURRENCY, cc, lt);
    }
  }

  /** Capacity is conserved: what the activators claim adds up to what the pods
      offer exactly when there are at least as many pods as activators and the
      largest slice is not clamped (or clamping happens to make up for the excess).
      With fewer pods every activator claims a whole pod, which is too much. */
  lemma FleetCapacityIsPodCapacity<T>(cc: int, trackers: seq<T>, n: nat)
    requires 0 < cc
    ensures FleetCapacity(cc, trackers, n) == cc * |trackers| <==> CapacityFits(cc, |trackers|, n)
    ensures 1 <= |trackers| < n ==> FleetCapacity(cc, trackers, n) == n * Clamped(cc)
    ensures 1 <= |trackers| < n && cc <= REVISION_MAX_CONCURRENCY ==> FleetCapacity(cc, trackers, n) > cc * |trackers|
  {
    var lt := |trackers|;
    if lt == 0 || lt < n {
      SharedFleetCapacity(cc, trackers, n);
      if lt != 0 {
        MulStrict(lt, n, cc);
      }
    } else if n == 0 {
      MulStrict(0, lt, cc);
    } else {
      SplitFleetCapacity(cc, trackers, n);
      SplitFleetFits(cc, lt, n);
    }
  }

  /** In clusterIP mode `n` activators together never claim more than the
      backends offer, except that each keeps at least one slot; and rounding
      loses less than one slot an activator. */
  lemma ClusterIPCapacity(cc: int, backends: int, n: int)
    requires 0 < cc && 0 < backends && 1 <= n
    ensures var each, all := CalculateCapacity(cc, backends, 0, n), cc * backends;
      && each >= 1
      && n * each <= (if all > n then all else n)
      && (n <= all && all / n <= REVISION_MAX_CONCURRENCY ==> all - n * each < n)
      && (n * each == all <==> all % n == 0 && all / n <= REVISION_MAX_CONCURRENCY)
  {
    var each, all := CalculateCapacity(cc, backends, 0, n), cc * backends;
    MulMonotone(1, backends, cc);
    var q := all / n;
    assert all == n * q + all % n;
    if q < 1 {
      assert each == 1 && all < n;
    } else {
      assert each == Clamped(q);
      MulMonotone(each, q, n);
      if each < q {
        MulStrict(each, q, n);
      }
    }
  }
}
