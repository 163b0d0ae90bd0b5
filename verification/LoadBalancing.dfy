/** The load-balancing policies: which target a request gets. */
module LoadBalancing {
  import opened Slicing

  /** The second of two unequal indices: a draw from [0, l-1), moved past the first. */
  function ShiftDraw(r1: nat, draw: nat): nat {
    if draw >= r1 then draw + 1 else draw
  }

  /** Drawing and shifting reaches every ordered pair of distinct indices below
      `l`, each from exactly one pair of draws, and keeps the order of the draws. */
  lemma DrawsAreOrderedPairs(l: nat, a: nat, b: nat)
    requires l >= 2
    ensures (a < l && b < l && a != b) <==> exists draw :: a < l && 0 <= draw < l - 1 && ShiftDraw(a, draw) == b
    ensures forall d, d' :: 0 <= d < l - 1 && 0 <= d' < l - 1 && ShiftDraw(a, d) == ShiftDraw(a, d') ==> d == d'
    ensures forall d, d' :: 0 <= d < d' < l - 1 ==> ShiftDraw(a, d) < ShiftDraw(a, d')
  {
    if a < l && b < l && a != b {
      assert ShiftDraw(a, if b > a then b - 1 else b) == b;
    }
  }

  /** `pureRoundRobinPolicy`: takes the target at the index and moves on. */
  class PureRoundRobin {
    var idx: nat

    constructor ()
      ensures idx == 0
    {
      idx := 0;
    }

    /** The index picked out of `l` targets. */
    method Pick(l: nat) returns (p: nat)
      requires l > 0
      modifies this
      ensures p == PurePick(old(idx), l) && idx == PureNext(old(idx), l)
    {
      if idx >= l {
        idx := 0;
      }
      p := idx;
      idx := (idx + 1) % l;
    }
  }

  function PurePick(idx: nat, l: nat): nat {
    if idx >= l then 0 else idx
  }

  function PureNext(idx: nat, l: nat): nat
    requires l > 0
  {
    (PurePick(idx, l) + 1) % l
  }

  /** The picks of `n` calls in a row with `l` targets each. */
  ghost function PurePicks(idx: nat, l: nat, n: nat): (picks: seq<nat>)
    requires l > 0
    ensures |picks| == n
    decreases n
  {
    if n == 0 then [] else [PurePick(idx, l)] + PurePicks(PureNext(idx, l), l, n - 1)
  }

  lemma ModAddMultiple(a: nat, q: nat, l: nat)
    requires l > 0
    ensures (a + q * l) % l == a % l
  {
    assert a == (a / l) * l + a % l;
    assert (a / l + q) * l == (a / l) * l + q * l;
    QuotientBounds(a + q * l, a / l + q, l);
  }

  lemma SmallMod(x: nat, l: nat)
    requires l > 0 && x < 2 * l
    ensures x % l == if x < l then x else x - l
  {
    QuotientBounds(x, if x < l then 0 else 1, l);
  }

  lemma {:induction false} PurePickAt(idx: nat, l: nat, n: nat, k: nat)
    requires k < n <= l
    ensures PurePicks(idx, l, n)[k] == (var p := PurePick(idx, l); if p + k < l then p + k else p + k - l)
    decreases k
  {
    if k > 0 {
      SmallMod(PurePick(idx, l) + 1, l);
      PurePickAt(PureNext(idx, l), l, n - 1, k - 1);
    }
  }

  /** Any number of calls in a row: the targets in turn, round and round, from the
      index on, from the first target if the list has shrunk below the index. */
  lemma {:induction false} PicksInTurn(idx: nat, l: nat, n: nat, k: nat)
    requires 0 < l && k < n
    ensures PurePicks(idx, l, n)[k] == (if idx < l then idx + k else k) % l
    decreases k
  {
    var p := if idx < l then idx else 0;
    if k > 0 {
      SmallMod(p + 1, l);
      PicksInTurn(PureNext(idx, l), l, n - 1, k - 1);
      if p + 1 == l {
        assert p + k == (k - 1) + 1 * l;
        ModAddMultiple(k - 1, 1, l);
      }
    } else {
      SmallMod(p, l);
    }
  }

  /** Fairness: any `l` calls in a row pick every target exactly once, wherever
      the index stood, also when the list has shrunk below it. */
  lemma PureRoundRobinIsFair(idx: nat, l: nat, t: nat)
    requires t < l
    ensures exists k :: 0 <= k < l && PurePicks(idx, l, l)[k] == t
    ensures forall k, k' :: 0 <= k < k' < l ==> PurePicks(idx, l, l)[k] != PurePicks(idx, l, l)[k']
  {
    var p := PurePick(idx, l);
    forall k | 0 <= k < l ensures PurePicks(idx, l, l)[k] == if p + k < l then p + k else p + k - l {
      PurePickAt(idx, l, l, k);
    }
    assert PurePicks(idx, l, l)[if t >= p then t - p else t - p + l] == t;
  }

  /** `newRoundRobinPolicy`: circles over the targets from the index until it
      finds one that is not busy. */
  class RoundRobin {
    var idx: nat

    constructor ()
      ensures idx == 0
    {
      idx := 0;
    }

    /** `probes` are the answers the busy check gives during this call, in the
        order in which it is asked; they may change while the call spins. The call
        is still spinning, and has picked nothing, when all answers so far are
        "busy". */
    method Pick(l: nat, probes: seq<bool>) returns (found: bool, p: nat)
      requires l > 0
      modifies this
      ensures found <==> false in probes
      ensures found ==> exists n :: FirstIdle(probes, n) && idx == (p + 1) % l
                                    && p == ((if old(idx) < l then old(idx) else 0) + n) % l
      ensures !found ==> idx == PurePick(old(idx), l)
    {
      if idx >= l {
        idx := 0;
      }
      found, p := false, 0;
      var n, i := 0, 0;
      ghost var circles := 0;
      while n < |probes|
        invariant 0 <= n <= |probes| && 0 <= i < l
        invariant 0 <= circles && n == circles * l + i
        invariant forall k :: 0 <= k < n ==> probes[k]
      {
        p := (idx + i) % l;
        if !probes[n] {
          ModAddMultiple(idx + i, circles, l);
          assert FirstIdle(probes, n);
          found := true;
          idx := (p + 1) % l;
          return;
        }
        n, i := n + 1, i + 1;
        if i == l {
          assert (circles + 1) * l == circles * l + l;
          circles, i := circles + 1, 0;
        }
      }
    }
  }

  predicate FirstIdle(probes: seq<bool>, n: int) {
    0 <= n < |probes| && !probes[n] && forall k :: 0 <= k < n ==> probes[k]
  }

  /** One finished call: the answers it saw, ending with the first "idle". */
  ghost predicate FinishedCall(probes: seq<bool>) {
    FirstIdle(probes, |probes| - 1)
  }

  ghost function CallPick(idx: nat, l: nat, probes: seq<bool>): nat
    requires l > 0 && FinishedCall(probes)
  {
    (PurePick(idx, l) + (|probes| - 1)) % l
  }

  /** A call of `RoundRobin.Pick` that finds its first idle answer at `n` is such a call. */
  lemma FirstIdleFinishes(idx: nat, l: nat, probes: seq<bool>, n: nat)
    requires l > 0 && FirstIdle(probes, n)
    ensures FinishedCall(probes[..n + 1])
    ensures CallPick(idx, l, probes[..n + 1]) == ((if idx < l then idx else 0) + n) % l
  {
    var seen := probes[..n + 1];
    assert forall k :: 0 <= k <= n ==> seen[k] == probes[k];
  }

  /** Target `t` answered "idle" whenever this call asked it. */
  ghost predicate AlwaysIdle(idx: nat, l: nat, probes: seq<bool>, t: nat)
    requires l > 0
  {
    forall k :: 0 <= k < |probes| && (PurePick(idx, l) + k) % l == t ==> !probes[k]
  }

  /** Every one of the calls in a row finished, with `l` targets, and `t` was idle
      whenever asked. */
  ghost predicate IdleThroughout(idx: nat, l: nat, calls: seq<seq<bool>>, t: nat)
    requires l > 0
    decreases |calls|
  {
    calls == [] || (
      && FinishedCall(calls[0])
      && AlwaysIdle(idx, l, calls[0], t)
      && IdleThroughout((CallPick(idx, l, calls[0]) + 1) % l, l, calls[1..], t))
  }

  ghost predicate PickedInSome(idx: nat, l: nat, calls: seq<seq<bool>>, t: nat)
    requires l > 0 && IdleThroughout(idx, l, calls, t)
    decreases |calls|
  {
    calls != [] && (CallPick(idx, l, calls[0]) == t || PickedInSome((CallPick(idx, l, calls[0]) + 1) % l, l, calls[1..], t))
  }

  /** Steps from the index forward to target `t`. */
  ghost function Distance(idx: nat, l: nat, t: nat): nat
    requires t < l
  {
    var p := PurePick(idx, l);
    if t >= p then t - p else t - p + l
  }

  lemma PickIsNoFurther(idx: nat, l: nat, probes: seq<bool>, t: nat)
    requires t < l && FinishedCall(probes) && AlwaysIdle(idx, l, probes, t)
    ensures var d, n := Distance(idx, l, t), |probes| - 1;
      n <= d && (n == d ==> CallPick(idx, l, probes) == t)
      && (n < d ==> Distance((CallPick(idx, l, probes) + 1) % l, l, t) == d - n - 1)
  {
    var p, d, n := PurePick(idx, l), Distance(idx, l, t), |probes| - 1;
    SmallMod(p + d, l);
    assert d < |probes| ==> !probes[d];
    SmallMod(p + n, l);
    SmallMod(CallPick(idx, l, probes) + 1, l);
  }

  /** Fairness of the checking policy: a target that is idle whenever asked is
      picked within `l` calls, however the others come and go. */
  lemma {:induction false} IdleTargetIsPicked(idx: nat, l: nat, calls: seq<seq<bool>>, t: nat)
    requires t < l && IdleThroughout(idx, l, calls, t)
    requires Distance(idx, l, t) < |calls|
    ensures PickedInSome(idx, l, calls, t)
    decreases |calls|
  {
    PickIsNoFurther(idx, l, calls[0], t);
    if CallPick(idx, l, calls[0]) != t {
      IdleTargetIsPicked((CallPick(idx, l, calls[0]) + 1) % l, l, calls[1..], t);
    }
  }

  lemma IdleTargetIsPickedWithinACircle(idx: nat, l: nat, calls: seq<seq<bool>>, t: nat)
    requires t < l <= |calls| && IdleThroughout(idx, l, calls, t)
    ensures PickedInSome(idx, l, calls, t)
  {
    IdleTargetIsPicked(idx, l, calls, t);
  }
}
