/** Requests passing the two semaphores of a revision: the revision-wide breaker
    outside, the breaker of one pod inside. Requests and updates interleave; an
    update may come between the two semaphores, and may switch between the pods and
    a cluster IP. Each event below is one atomic step of `try`, of `acquireDest` with
    `firstAvailableLBPolicy`, or a whole throttler update, with a positive container
    concurrency. */
module Admission {
  import opened Slicing
  import ThrottlerSpec

  datatype Phase =
    | Queued                  // waiting in the outer breaker
    | Admitted(epoch: nat)    // holds an outer slot, has not asked for a pod yet
    | Serving(tracker: nat)   // holds an outer slot and a slot of this pod
    | ViaClusterIP            // holds an outer slot, sent to the cluster IP
    | Released                // gave the pod's slot back, still holds the outer one
    | Empty                   // found no pod, still holds the outer slot
    | Done
  {
    predicate HoldsOuter() {
      Admitted? || Serving? || ViaClusterIP? || Released? || Empty?
    }
  }

  /** `outer` and `inner` are the semaphores' own counters. `epoch` counts updates.
      Behind a cluster IP the targets are those of before and nobody asks for them. */
  datatype State = State(
    cc: nat, clusterIP: bool, targets: seq<nat>, capacity: int, epoch: nat,
    outer: nat, inner: map<nat, nat>, reqs: map<nat, Phase>)

  datatype Event =
    | Arrive(r: nat) | Admit(r: nat) | Acquire(r: nat) | ReleaseInner(r: nat) | Leave(r: nat)
    | Update(targets: seq<nat>, backends: nat, activators: nat)
    | UpdateClusterIP(backends: nat, activators: nat)
  {
    predicate IsUpdate() {
      Update? || UpdateClusterIP?
    }
  }

  function InnerOf(s: State, t: nat): nat {
    if t in s.inner then s.inner[t] else 0
  }

  /** The first of the trackers with a free slot. */
  function FirstFree(s: State, ts: seq<nat>): (i: nat)
    ensures i <= |ts|
    ensures i < |ts| ==> InnerOf(s, ts[i]) < s.cc
    ensures forall k :: 0 <= k < i ==> InnerOf(s, ts[k]) >= s.cc
  {
    if ts == [] || InnerOf(s, ts[0]) < s.cc then 0 else 1 + FirstFree(s, ts[1..])
  }

  /** A request that asks for a pod gets none. */
  predicate Full(s: State) {
    !s.clusterIP && FirstFree(s, s.targets) == |s.targets|
  }

  ghost predicate Enabled(s: State, e: Event) {
    match e
    case Arrive(r) => r !in s.reqs
    case Admit(r) => r in s.reqs && s.reqs[r].Queued? && s.outer < s.capacity
    case Acquire(r) => r in s.reqs && s.reqs[r].Admitted?
    case ReleaseInner(r) => r in s.reqs && s.reqs[r].Serving?
    case Leave(r) => r in s.reqs && (s.reqs[r].ViaClusterIP? || s.reqs[r].Released? || s.reqs[r].Empty?)
    case Update(targets, backends, _) => Distinct(targets) && (backends == 0 <==> targets == [])
    case UpdateClusterIP(_, _) => true
  }

  function Next(s: State, e: Event): State {
    match e
    case Arrive(r) => s.(reqs := s.reqs[r := Queued])
    case Admit(r) => s.(outer := s.outer + 1, reqs := s.reqs[r := Admitted(s.epoch)])
    case Acquire(r) =>
      var i := FirstFree(s, s.targets);
      if s.clusterIP then s.(reqs := s.reqs[r := ViaClusterIP])
      else if i == |s.targets| then s.(reqs := s.reqs[r := Empty])
      else s.(inner := s.inner[s.targets[i] := InnerOf(s, s.targets[i]) + 1], reqs := s.reqs[r := Serving(s.targets[i])])
    case ReleaseInner(r) =>
      if r in s.reqs && s.reqs[r].Serving? then
        var t := s.reqs[r].tracker;
        s.(inner := s.inner[t := if InnerOf(s, t) > 0 then InnerOf(s, t) - 1 else 0], reqs := s.reqs[r := Released])
      else s
    case Leave(r) =>
      if r in s.reqs then
        s.(outer := if s.outer > 0 then s.outer - 1 else 0, reqs := s.reqs[r := if s.reqs[r].Empty? then Queued else Done])
      else s
    case Update(targets, backends, activators) =>
      s.(clusterIP := false, targets := targets, epoch := s.epoch + 1,
         capacity := CalculateCapacity(s.cc, backends, |targets|, activators))
    case UpdateClusterIP(backends, activators) =>
      s.(clusterIP := true, epoch := s.epoch + 1,
         capacity := CalculateCapacity(s.cc, backends, 0, activators))
  }

  /** A state of the throttler in direct mode is what an update here leads to, with
      numbers for the addresses. */
  lemma UpdateIsAThrottlerUpdate(s: State, v: ThrottlerSpec.View, targets: seq<nat>)
    requires s.cc > 0 && ThrottlerSpec.Consistent(s.cc, v) && v.clusterIP.None?
    requires |targets| == |v.targets| && forall i, j :: 0 <= i < |targets| && 0 <= j < |targets| ==>
               (targets[i] == targets[j] <==> v.targets[i] == v.targets[j])
    ensures var e := Update(targets, v.backends, v.activators);
      Enabled(s, e) && Next(s, e).capacity == v.capacity && Next(s, e).targets == targets && !Next(s, e).clusterIP
  {
    ThrottlerSpec.DirectTargets(s.cc, v);
  }

  lemma ClusterIPUpdateIsAThrottlerUpdate(s: State, v: ThrottlerSpec.View)
    requires s.cc > 0 && ThrottlerSpec.Consistent(s.cc, v) && v.clusterIP.Some?
    ensures var s' := Next(s, UpdateClusterIP(v.backends, v.activators));
      s'.capacity == v.capacity && s'.clusterIP
  {
  }

  predicate Initial(s: State) {
    s.cc > 0 && !s.clusterIP && s.targets == [] && s.capacity == 0 && s.outer == 0 && s.inner == map[] && s.reqs == map[]
  }

  /** A run: `states[i]` takes the step `events[i]` to `states[i + 1]`. */
  ghost predicate Execution(states: seq<State>, events: seq<Event>) {
    && |states| == |events| + 1
    && Initial(states[0])
    && forall i :: 0 <= i < |events| ==> StepAt(states, events, i)
  }

  ghost predicate StepAt(states: seq<State>, events: seq<Event>, i: nat)
    requires i < |events| < |states|
  {
    Enabled(states[i], events[i]) && states[i + 1] == Next(states[i], events[i])
  }

  ghost function Holding(s: State): set<nat> {
    set r | r in s.reqs && s.reqs[r].HoldsOuter()
  }

  ghost function ServedBy(s: State, t: nat): set<nat> {
    set r | r in s.reqs && s.reqs[r] == Serving(t)
  }

  /** Both counters count exactly the requests that hold a slot, no pod serves more
      than the container concurrency, and a request admitted since the last update
      keeps the outer semaphore within its capacity. */
  ghost predicate Inv(s: State) {
    && s.cc > 0
    && Distinct(s.targets)
    && (!s.clusterIP ==> s.capacity <= s.cc * |s.targets|)
    && s.outer == |Holding(s)|
    && (forall t :: InnerOf(s, t) == |ServedBy(s, t)| <= s.cc)
    && (forall r :: r in s.reqs && s.reqs[r].Admitted? ==>
          s.reqs[r].epoch <= s.epoch && (s.reqs[r].epoch == s.epoch ==> s.outer <= s.capacity))
  }

  lemma OneRequestMoves(s: State, e: Event)
    requires Enabled(s, e) && !e.IsUpdate()
    ensures e.r in Next(s, e).reqs && Next(s, e).reqs == s.reqs[e.r := Next(s, e).reqs[e.r]]
  {
  }

  lemma HoldingAfter(s: State, s': State, r: nat)
    requires r in s'.reqs && s'.reqs == s.reqs[r := s'.reqs[r]]
    ensures |Holding(s')| == |Holding(s)| - (if r in Holding(s) then 1 else 0) + (if s'.reqs[r].HoldsOuter() then 1 else 0)
  {
    assert Holding(s') - {r} == Holding(s) - {r};
    assert r in Holding(s') <==> s'.reqs[r].HoldsOuter();
    Removed(Holding(s), r);
    Removed(Holding(s'), r);
  }

  lemma ServedByAfter(s: State, s': State, r: nat, t: nat)
    requires r in s'.reqs && s'.reqs == s.reqs[r := s'.reqs[r]]
    ensures |ServedBy(s', t)| == |ServedBy(s, t)| - (if r in ServedBy(s, t) then 1 else 0)
                                 + (if s'.reqs[r] == Serving(t) then 1 else 0)
  {
    assert ServedBy(s', t) - {r} == ServedBy(s, t) - {r};
    assert r in ServedBy(s', t) <==> s'.reqs[r] == Serving(t);
    Removed(ServedBy(s, t), r);
    Removed(ServedBy(s', t), r);
  }

  lemma Removed(a: set<nat>, x: nat)
    ensures |a| == |a - {x}| + (if x in a then 1 else 0)
  {
    if x !in a {
      assert a - {x} == a;
    }
  }

  lemma OuterStep(s: State, e: Event)
    requires s.outer == |Holding(s)| && Enabled(s, e)
    ensures Next(s, e).outer == |Holding(Next(s, e))|
  {
    if e.IsUpdate() {
      assert Holding(Next(s, e)) == Holding(s);
    } else {
      OneRequestMoves(s, e);
      HoldingAfter(s, Next(s, e), e.r);
    }
  }

  lemma InnerStep(s: State, e: Event, t: nat)
    requires InnerOf(s, t) == |ServedBy(s, t)| <= s.cc && Enabled(s, e)
    ensures InnerOf(Next(s, e), t) == |ServedBy(Next(s, e), t)| <= s.cc
  {
    if e.IsUpdate() {
      assert ServedBy(Next(s, e), t) == ServedBy(s, t);
    } else {
      OneRequestMoves(s, e);
      ServedByAfter(s, Next(s, e), e.r, t);
    }
  }

  lemma StepKeepsInv(s: State, e: Event)
    requires Inv(s) && Enabled(s, e)
    ensures Inv(Next(s, e))
  {
    OuterStep(s, e);
    forall t ensures InnerOf(Next(s, e), t) == |ServedBy(Next(s, e), t)| <= s.cc {
      InnerStep(s, e, t);
    }
  }

  lemma {:induction false} InvAlways(states: seq<State>, events: seq<Event>, i: nat)
    requires Execution(states, events) && i < |states|
    ensures Inv(states[i])
  {
    if i == 0 {
      assert Holding(states[0]) == {};
      forall t ensures InnerOf(states[0], t) == |ServedBy(states[0], t)| {
        assert ServedBy(states[0], t) == {};
      }
    } else {
      InvAlways(states, events, i - 1);
      assert StepAt(states, events, i - 1);
      StepKeepsInv(states[i - 1], events[i - 1]);
    }
  }

  /** `t` is the first target with a free slot. */
  ghost predicate IsFirstFree(s: State, t: nat) {
    exists k :: 0 <= k < |s.targets| && t == s.targets[k] && InnerOf(s, t) < s.cc
                && forall j :: 0 <= j < k ==> InnerOf(s, s.targets[j]) >= s.cc
  }

  ghost predicate AllTaken(s: State) {
    forall k :: 0 <= k < |s.targets| ==> InnerOf(s, s.targets[k]) >= s.cc
  }

  /** The way of a request: from the queue through the outer semaphore to the cluster
      IP, to the first pod with a free slot, or to none; from a pod or the cluster IP
      out; and from nowhere back into the queue. */
  ghost predicate Goes(s: State, p: Phase, p': Phase) {
    match p
    case Queued => s.outer < s.capacity && p' == Admitted(s.epoch)
    case Admitted(_) =>
      if s.clusterIP then p' == ViaClusterIP
      else if AllTaken(s) then p' == Empty
      else p'.Serving? && IsFirstFree(s, p'.tracker)
    case Serving(_) => p' == Released
    case ViaClusterIP => p' == Done
    case Released => p' == Done
    case Empty => p' == Queued
    case Done => false
  }

  /** Every step of a request follows this way, and no other step moves it. */
  lemma RequestsGoTheirWay(states: seq<State>, events: seq<Event>, i: nat, r: nat)
    requires Execution(states, events) && i < |events| && r in states[i].reqs
    ensures r in states[i + 1].reqs
    ensures if !events[i].IsUpdate() && events[i].r == r then Goes(states[i], states[i].reqs[r], states[i + 1].reqs[r])
            else states[i + 1].reqs[r] == states[i].reqs[r]
  {
    assert StepAt(states, events, i);
    var s := states[i];
    if events[i] == Acquire(r) && !s.clusterIP {
      var k := FirstFree(s, s.targets);
      if k < |s.targets| {
        assert InnerOf(s, s.targets[k]) < s.cc;
        assert IsFirstFree(s, s.targets[k]);
      }
    }
  }

  /** A request that is not done can take a step, unless it is queued and the outer
      semaphore is taken up. */
  lemma OnlyTheQueueHoldsUp(states: seq<State>, events: seq<Event>, i: nat, r: nat)
    requires Execution(states, events) && i < |states| && r in states[i].reqs && !states[i].reqs[r].Done?
    ensures (exists e: Event :: !e.IsUpdate() && e.r == r && Enabled(states[i], e))
            <==> !(states[i].reqs[r].Queued? && states[i].outer >= states[i].capacity)
  {
    var s := states[i];
    if !(s.reqs[r].Queued? && s.outer >= s.capacity) {
      var e := match s.reqs[r]
        case Queued => Admit(r)
        case Admitted(_) => Acquire(r)
        case Serving(_) => ReleaseInner(r)
        case _ => Leave(r);
      assert Enabled(s, e);
    }
  }

  ghost function ServedByAny(s: State, ts: seq<nat>): set<nat> {
    set r | r in s.reqs && s.reqs[r].Serving? && s.reqs[r].tracker in ts
  }

  lemma {:induction false} FullTrackersServeMany(s: State, ts: seq<nat>)
    requires Distinct(ts)
    requires forall t :: t in ts ==> |ServedBy(s, t)| >= s.cc
    ensures |ServedByAny(s, ts)| >= s.cc * |ts|
  {
    if ts != [] {
      var m := |ts| - 1;
      FullTrackersServeMany(s, ts[..m]);
      assert ts[m] !in ts[..m];
      assert ServedByAny(s, ts) == ServedByAny(s, ts[..m]) + ServedBy(s, ts[m]);
      assert ServedByAny(s, ts[..m]) !! ServedBy(s, ts[m]);
      Distribute(s.cc, m, 1);
    }
  }

  lemma Smaller(a: set<nat>, b: set<nat>, x: nat)
    requires a <= b && x in b && x !in a
    ensures |a| < |b|
  {
    assert a <= b - {x};
    Subset(a, b - {x});
  }

  lemma {:induction false} Subset(a: set<nat>, b: set<nat>)
    requires a <= b
    ensures |a| <= |b|
    decreases a
  {
    if a != {} {
      var x :| x in a;
      Subset(a - {x}, b - {x});
    }
  }

  ghost function AdmittedIn(s: State): set<nat> {
    set r | r in s.reqs && s.reqs[r].Admitted?
  }

  lemma HoldersAreCounted(s: State)
    requires Inv(s)
    ensures |AdmittedIn(s)| + |ServedByAny(s, s.targets)| <= s.outer
  {
    var a, b := AdmittedIn(s), ServedByAny(s, s.targets);
    assert a !! b && |a + b| == |a| + |b|;
    Subset(a + b, Holding(s));
  }

  lemma FullServesMany(s: State)
    requires Inv(s) && Full(s)
    ensures |ServedByAny(s, s.targets)| >= s.cc * |s.targets|
  {
    forall t | t in s.targets ensures |ServedBy(s, t)| >= s.cc {
      assert InnerOf(s, t) >= s.cc;
    }
    FullTrackersServeMany(s, s.targets);
  }

  /** As long as no more requests hold outer slots than the capacity is, every
      admitted request finds a pod with a free slot, or the cluster IP. */
  lemma RoomWithinCapacity(states: seq<State>, events: seq<Event>, i: nat, r: nat)
    requires Execution(states, events) && i < |states|
    requires r in AdmittedIn(states[i]) && states[i].outer <= states[i].capacity
    ensures !Full(states[i])
  {
    var s := states[i];
    InvAlways(states, events, i);
    HoldersAreCounted(s);
    assert |AdmittedIn(s)| > 0;
    if Full(s) {
      FullServesMany(s);
    }
  }

  /** In particular a request admitted since the last update does. */
  lemma AdmittedFindsATracker(states: seq<State>, events: seq<Event>, i: nat, r: nat)
    requires Execution(states, events) && i < |states|
    requires r in states[i].reqs && states[i].reqs[r] == Admitted(states[i].epoch)
    ensures !Full(states[i])
  {
    InvAlways(states, events, i);
    RoomWithinCapacity(states, events, i, r);
  }

  /** Step `k` is an update that lowers the capacity. */
  ghost predicate Lowers(states: seq<State>, events: seq<Event>, k: nat)
    requires k < |events| < |states|
  {
    events[k].IsUpdate() && states[k + 1].capacity < states[k].capacity
  }

  /** The same admission of `r` lasts from `k` to `i`. */
  ghost predicate AdmittedFrom(states: seq<State>, k: nat, i: nat, r: nat)
    requires k <= i < |states|
  {
    r in states[i].reqs && forall m :: k <= m <= i ==>
      r in states[m].reqs && states[m].reqs[r].Admitted? && states[m].reqs[r] == states[i].reqs[r]
  }

  lemma OverCapacityStep(s: State, e: Event, r: nat)
    requires Enabled(s, e) && r in AdmittedIn(Next(s, e)) && Next(s, e).outer > Next(s, e).capacity
    ensures r in s.reqs && s.reqs[r] == Next(s, e).reqs[r]
    ensures s.outer > s.capacity || (e.IsUpdate() && Next(s, e).capacity < s.capacity)
  {
    if !e.IsUpdate() {
      OneRequestMoves(s, e);
    }
  }

  /** More slots taken than the capacity while `r` is admitted: the capacity was
      lowered meanwhile. */
  lemma {:induction false} OverCapacityMeansLowered(states: seq<State>, events: seq<Event>, i: nat, r: nat) returns (k: nat)
    requires Execution(states, events) && i < |states|
    requires r in AdmittedIn(states[i]) && states[i].outer > states[i].capacity
    ensures k < i && Lowers(states, events, k) && AdmittedFrom(states, k, i, r)
  {
    assert i > 0 && StepAt(states, events, i - 1);
    OverCapacityStep(states[i - 1], events[i - 1], r);
    if states[i - 1].outer > states[i - 1].capacity {
      k := OverCapacityMeansLowered(states, events, i - 1, r);
    } else {
      k := i - 1;
    }
  }

  /** In step `i` request `r` asks for a pod and gets none. */
  ghost predicate FindsNone(states: seq<State>, events: seq<Event>, i: nat, r: nat)
    requires i < |events| < |states|
  {
    events[i] == Acquire(r) && r in states[i + 1].reqs && states[i + 1].reqs[r] == Empty
  }

  /** `try` puts a request back into the queue only if an update lowered the
      capacity between its two semaphores. */
  lemma ReenqueueMeansCapacityWasLowered(states: seq<State>, events: seq<Event>, i: nat, r: nat)
    requires Execution(states, events) && i < |events|
    requires FindsNone(states, events, i, r)
    ensures exists k :: 0 <= k < i && Lowers(states, events, k) && AdmittedFrom(states, k, i, r)
  {
    assert StepAt(states, events, i);
    if states[i].outer <= states[i].capacity {
      RoomWithinCapacity(states, events, i, r);
    } else {
      var k := OverCapacityMeansLowered(states, events, i, r);
    }
  }

  /** Steps from `s` on, none of them an update. */
  ghost predicate GoesOn(s: State, states: seq<State>, events: seq<Event>) {
    && |states| == |events| + 1
    && states[0] == s
    && forall i :: 0 <= i < |events| ==> StepAt(states, events, i) && !events[i].IsUpdate()
  }

  /** The requests can go on, without an update, so that `r`, admitted all the
      while, comes to find no free slot. */
  ghost predicate CanStarve(s: State, r: nat) {
    exists states, events :: Starves(s, r, states, events)
  }

  ghost predicate Starves(s: State, r: nat, states: seq<State>, events: seq<Event>) {
    && GoesOn(s, states, events)
    && (forall i :: 0 <= i < |states| ==> r in AdmittedIn(states[i]))
    && Full(states[|states| - 1])
  }

  /** More requests on the current pods, or on their way to one, than the pods take.
      Behind a cluster IP there is no such limit. */
  ghost predicate Overcommitted(s: State) {
    !s.clusterIP && |AdmittedIn(s)| + |ServedByAny(s, s.targets)| > s.cc * |s.targets|
  }

  lemma ContendersOf(s: State, e: Event)
    requires Enabled(s, e) && !e.IsUpdate()
    ensures var s', p := Next(s, e), Next(s, e).reqs[e.r];
      && AdmittedIn(s') == (if p.Admitted? then AdmittedIn(s) + {e.r} else AdmittedIn(s) - {e.r})
      && ServedByAny(s', s.targets) == (if p.Serving? && p.tracker in s.targets then ServedByAny(s, s.targets) + {e.r}
                                        else ServedByAny(s, s.targets) - {e.r})
  {
    OneRequestMoves(s, e);
  }

  /** Taking a slot moves a request from one of the two groups to the other. */
  lemma AcquireMoves(s: State, r: nat)
    requires Inv(s) && Enabled(s, Acquire(r)) && !s.clusterIP && !Full(s)
    ensures var s' := Next(s, Acquire(r));
      && AdmittedIn(s') == AdmittedIn(s) - {r} && |AdmittedIn(s')| == |AdmittedIn(s)| - 1
      && |ServedByAny(s', s.targets)| == |ServedByAny(s, s.targets)| + 1
  {
    ContendersOf(s, Acquire(r));
    assert r in AdmittedIn(s) && r !in ServedByAny(s, s.targets);
  }

  lemma StepKeepsRoom(s: State, e: Event)
    requires Inv(s) && Enabled(s, e) && !e.IsUpdate() && !Overcommitted(s)
    ensures !Overcommitted(Next(s, e))
  {
    ContendersOf(s, e);
    var s' := Next(s, e);
    match e
    case Admit(r) =>
      HoldersAreCounted(s);
      assert r !in AdmittedIn(s);
      Subset(ServedByAny(s', s.targets), ServedByAny(s, s.targets));
    case Acquire(r) =>
      assert r in AdmittedIn(s) && |AdmittedIn(s)| > 0;
      if Full(s) {
        FullServesMany(s);
      } else if !s.clusterIP {
        AcquireMoves(s, r);
      }
    case _ =>
      Subset(AdmittedIn(s'), AdmittedIn(s));
      Subset(ServedByAny(s', s.targets), ServedByAny(s, s.targets));
  }

  lemma {:induction false} RoomLasts(s: State, states: seq<State>, events: seq<Event>, i: nat)
    requires Inv(s) && !Overcommitted(s) && GoesOn(s, states, events) && i < |states|
    ensures Inv(states[i]) && !Overcommitted(states[i])
  {
    if i > 0 {
      RoomLasts(s, states, events, i - 1);
      assert StepAt(states, events, i - 1);
      StepKeepsInv(states[i - 1], events[i - 1]);
      StepKeepsRoom(states[i - 1], events[i - 1]);
    }
  }

  lemma {:induction false} FreeSlotMeansFewer(s: State, ts: seq<nat>, free: nat)
    requires Distinct(ts) && forall t :: t in ts ==> |ServedBy(s, t)| <= s.cc
    ensures |ServedByAny(s, ts)| <= s.cc * |ts|
    ensures free in ts && |ServedBy(s, free)| < s.cc ==> |ServedByAny(s, ts)| < s.cc * |ts|
  {
    if ts != [] {
      var m := |ts| - 1;
      FreeSlotMeansFewer(s, ts[..m], free);
      assert ServedByAny(s, ts) == ServedByAny(s, ts[..m]) + ServedBy(s, ts[m]);
      Distribute(s.cc, m, 1);
    }
  }

  /** The others take the remaining slots, one after the other. */
  lemma {:induction false} OthersFillUp(s: State, r: nat)
    requires Inv(s) && r in AdmittedIn(s) && Overcommitted(s)
    ensures CanStarve(s, r)
    decreases |AdmittedIn(s)|
  {
    if Full(s) {
      assert Starves(s, r, [s], []);
    } else {
      FreeSlotMeansFewer(s, s.targets, s.targets[FirstFree(s, s.targets)]);
      var other := AnotherOne(AdmittedIn(s), r);
      var e := Acquire(other);
      var s' := Next(s, e);
      AcquireMoves(s, other);
      StepKeepsInv(s, e);
      OthersFillUp(s', r);
      var states, events :| Starves(s', r, states, events);
      StarvesEarlier(s, r, e, states, events);
    }
  }

  lemma AnotherOne(a: set<nat>, r: nat) returns (other: nat)
    requires r in a && |a| > 1
    ensures other in a && other != r
  {
    assert |a - {r}| > 0;
    other :| other in a - {r};
  }

  lemma StarvesEarlier(s: State, r: nat, e: Event, states: seq<State>, events: seq<Event>)
    requires r in AdmittedIn(s) && Enabled(s, e) && !e.IsUpdate() && Starves(Next(s, e), r, states, events)
    ensures Starves(s, r, [s] + states, [e] + events)
  {
    var states', events' := [s] + states, [e] + events;
    forall i | 0 <= i < |events'|
      ensures StepAt(states', events', i) && !events'[i].IsUpdate()
    {
      if i > 0 {
        assert StepAt(states, events, i - 1);
        assert states'[i] == states[i - 1] && events'[i] == events[i - 1] && states'[i + 1] == states[i];
      }
    }
    forall i | 0 <= i < |states'| ensures r in AdmittedIn(states'[i]) {
      if i > 0 {
        assert states'[i] == states[i - 1];
      }
    }
  }

  /** In every reachable state, an admitted request can come to find no free slot,
      without a further update, exactly when the admitted requests and those on
      the current pods are more than these pods take. */
  lemma StarvesExactly(states: seq<State>, events: seq<Event>, i: nat, r: nat)
    requires Execution(states, events) && i < |states| && r in AdmittedIn(states[i])
    ensures CanStarve(states[i], r) <==> Overcommitted(states[i])
  {
    var s := states[i];
    InvAlways(states, events, i);
    if Overcommitted(s) {
      OthersFillUp(s, r);
    } else if CanStarve(s, r) {
      var later, steps :| Starves(s, r, later, steps);
      var last := |later| - 1;
      RoomLasts(s, later, steps, last);
      assert |AdmittedIn(later[last])| > 0;
      FullServesMany(later[last]);
    }
  }

  /** ... as in this execution: the last pod leaves after the request was admitted.
      `simpleRandomChoice2Policy` is then handed an empty list. */
  lemma AnUpdateInBetweenCanStarve() returns (states: seq<State>, events: seq<Event>)
    ensures Execution(states, events)
    ensures exists i, r :: 0 <= i < |events| && FindsNone(states, events, i, r) && states[i].targets == []
  {
    var s0 := State(1, false, [], 0, 0, 0, map[], map[]);
    events := [Update([7], 1, 1), Arrive(0), Admit(0), Update([], 0, 1), Acquire(0)];
    var s1 := Next(s0, events[0]);
    var s2 := Next(s1, events[1]);
    var s3 := Next(s2, events[2]);
    var s4 := Next(s3, events[3]);
    var s5 := Next(s4, events[4]);
    states := [s0, s1, s2, s3, s4, s5];
    assert s4.targets == [] && s5.reqs[0] == Empty;
    assert FindsNone(states, events, 4, 0) && states[4].targets == [];
  }

  /** No slot leaks: when no request is between `Admit` and `Leave`, both
      semaphores are back at zero, whatever updates came meanwhile. */
  lemma SlotsAreReturned(states: seq<State>, events: seq<Event>, i: nat)
    requires Execution(states, events) && i < |states|
    requires forall r :: r in states[i].reqs ==> states[i].reqs[r].Queued? || states[i].reqs[r].Done?
    ensures states[i].outer == 0
    ensures forall t :: InnerOf(states[i], t) == 0
  {
    InvAlways(states, events, i);
    assert Holding(states[i]) == {};
    forall t ensures InnerOf(states[i], t) == 0 {
      assert ServedBy(states[i], t) == {};
    }
  }
}
