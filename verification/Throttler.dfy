/** The revision throttler as it is: pods are tracked by objects that survive
    updates, and updates change fields. Every method is proved against the
    functions of ThrottlerSpec. */
module Throttler {
  import opened Ordering
  import opened Slicing
  import opened ThrottlerSpec
  import LoadBalancing

  /** The semaphore behind a breaker: a capacity and the slots in use. */
  class Breaker {
    var capacity: int
    var inFlight: nat

    constructor (initialCapacity: int)
      ensures capacity == initialCapacity && inFlight == 0
    {
      capacity, inFlight := initialCapacity, 0;
    }

    method UpdateConcurrency(size: int)
      modifies this`capacity
      ensures capacity == size
    {
      capacity := size;
    }

    /** Takes a slot if one is free; never waits. */
    method Reserve() returns (ok: bool)
      modifies this`inFlight
      ensures ok <==> old(inFlight) < capacity
      ensures inFlight == old(inFlight) + (if ok then 1 else 0)
    {
      ok := inFlight < capacity;
      if ok {
        inFlight := inFlight + 1;
      }
    }
  }

  class PodTracker {
    const dest: string
    /** Absent when the pod takes any number of requests. */
    const b: Breaker?
    /** Requests that `randomChoice2Policy` sent here and that have not finished. */
    var weight: int

    constructor (dest: string, b: Breaker?)
      ensures this.dest == dest && this.b == b && weight == 0
    {
      this.dest, this.b, weight := dest, b, 0;
    }
  }

  /** No two of the trackers share a breaker. */
  ghost predicate OwnBreakers(ts: set<PodTracker>) {
    forall t, u :: t in ts && u in ts && t != u && t.b != null ==> t.b != u.b
  }

  ghost predicate HasRoom(t: PodTracker)
    reads t.b
  {
    t.b == null || t.b.inFlight < t.b.capacity
  }

  /** `firstAvailableLBPolicy`: takes a slot of the first tracker that has one
      free; null, and nothing taken, if none has. */
  method FirstAvailable(targets: seq<PodTracker>) returns (pick: PodTracker?)
    modifies (set t | t in targets && t.b != null :: t.b)`inFlight
    ensures pick == null <==> forall t :: t in targets ==> !old(HasRoom(t))
    ensures pick != null ==> exists i :: 0 <= i < |targets| && pick == targets[i] && old(HasRoom(targets[i]))
                                         && forall k :: 0 <= k < i ==> !old(HasRoom(targets[k]))
    ensures forall t :: t in targets && t.b != null ==>
              t.b.inFlight == old(t.b.inFlight) + (if pick != null && pick.b == t.b then 1 else 0)
  {
    for i := 0 to |targets|
      invariant forall k :: 0 <= k < i ==> !old(HasRoom(targets[k]))
      invariant forall t :: t in targets && t.b != null ==> t.b.inFlight == old(t.b.inFlight)
    {
      var t := targets[i];
      assert t in targets;
      var ok := true;
      if t.b != null {
        ok := t.b.Reserve();
      }
      if ok {
        return t;
      }
    }
    return null;
  }

  function DestsOf(ts: seq<PodTracker>): (r: seq<string>)
    ensures |r| == |ts|
    ensures forall i :: 0 <= i < |ts| ==> r[i] == ts[i].dest
  {
    seq(|ts|, i requires 0 <= i < |ts| => ts[i].dest)
  }

  ghost function DestSet(ts: seq<PodTracker>): set<string> {
    set t | t in ts :: t.dest
  }

  lemma DestSetIsElements(ts: seq<PodTracker>)
    ensures Elements(DestsOf(ts)) == DestSet(ts)
  {
    forall d | d in DestSet(ts) ensures d in Elements(DestsOf(ts)) {
      var t :| t in ts && t.dest == d;
      var i :| 0 <= i < |ts| && ts[i] == t;
      assert DestsOf(ts)[i] == d;
    }
    forall d | d in Elements(DestsOf(ts)) ensures d in DestSet(ts) {
      var i :| 0 <= i < |ts| && DestsOf(ts)[i] == d;
      assert ts[i] in ts;
    }
  }

  /** Slicing objects and reading their addresses commute. */
  lemma SliceOfDests(ts: seq<PodTracker>, i: int, n: int)
    requires i == -1 || 0 <= i < n
    ensures DestsOf(AssignSlice(ts, i, n)) == AssignSlice(DestsOf(ts), i, n)
  {
    if i != -1 && |ts| > 1 && n != 1 {
      var (bi, ei, remnants) := PickIndices(|ts|, i, n);
      var own := ts[bi..ei];
      assert DestsOf(own) == DestsOf(ts)[bi..ei];
      if i < remnants {
        var one := ts[|ts| - remnants..][i];
        assert one.dest == DestsOf(ts)[|ts| - remnants..][i];
        assert DestsOf(own + [one]) == DestsOf(own) + [one.dest];
      }
    }
  }

  function InsertTracker(r: seq<PodTracker>, x: PodTracker): seq<PodTracker> {
    var p := Position(DestsOf(r), x.dest);
    r[..p] + [x] + r[p..]
  }

  lemma SpliceDests(r: seq<PodTracker>, x: PodTracker, p: nat)
    requires p <= |r|
    ensures DestsOf(r[..p] + [x] + r[p..]) == DestsOf(r)[..p] + [x.dest] + DestsOf(r)[p..]
    ensures multiset(r[..p] + [x] + r[p..]) == multiset(r) + multiset{x}
  {
    assert r == r[..p] + r[p..];
  }

  lemma InsertedDest(ts: seq<PodTracker>, r: seq<PodTracker>, i: nat)
    requires Distinct(DestsOf(ts)) && i < |ts| && multiset(r) == multiset(ts[..i])
    requires StrictlySorted(DestsOf(r))
    ensures StrictlySorted(DestsOf(InsertTracker(r, ts[i])))
    ensures multiset(InsertTracker(r, ts[i])) == multiset(ts[..i + 1])
  {
    SameTrackers(r, ts[..i]);
    forall k | 0 <= k < |r| ensures DestsOf(r)[k] != ts[i].dest {
      assert r[k] in ts[..i];
      var j :| 0 <= j < i && ts[j] == r[k];
      assert DestsOf(ts)[j] != DestsOf(ts)[i];
    }
    InsertStaysSorted(DestsOf(r), ts[i].dest);
    SpliceDests(r, ts[i], Position(DestsOf(r), ts[i].dest));
    assert ts[..i + 1] == ts[..i] + [ts[i]];
  }

  /** `sort.Slice` by address, on trackers with distinct addresses. */
  method SortByDest(ts: seq<PodTracker>) returns (r: seq<PodTracker>)
    requires Distinct(DestsOf(ts))
    ensures multiset(r) == multiset(ts)
    ensures DestsOf(r) == Listing(DestSet(ts))
  {
    r := [];
    for i := 0 to |ts|
      invariant multiset(r) == multiset(ts[..i])
      invariant StrictlySorted(DestsOf(r))
    {
      InsertedDest(ts, r, i);
      r := InsertTracker(r, ts[i]);
    }
    assert ts[..|ts|] == ts;
    SameTrackers(r, ts);
    DestSetIsElements(r);
    ListingIsUnique(DestsOf(r), Listing(DestSet(ts)));
  }

  lemma SameTrackers(r: seq<PodTracker>, ts: seq<PodTracker>)
    requires multiset(r) == multiset(ts)
    ensures forall t :: t in r <==> t in ts
    ensures DestSet(r) == DestSet(ts)
  {
    forall t ensures t in r <==> t in ts {
      assert t in r <==> t in multiset(r);
      assert t in ts <==> t in multiset(ts);
    }
  }

  /** Slots the given trackers offer together. */
  ghost function CapacitySum(ts: seq<PodTracker>): int
    reads set t | t in ts && t.b != null :: t.b
    requires forall t :: t in ts ==> t.b != null
  {
    if ts == [] then 0 else CapacitySum(ts[..|ts| - 1]) + ts[|ts| - 1].b.capacity
  }

  lemma {:induction false} CapacitySumIs(ts: seq<PodTracker>, cc: int)
    requires forall t :: t in ts ==> t.b != null && t.b.capacity == cc
    ensures CapacitySum(ts) == cc * |ts|
  {
    if ts != [] {
      CapacitySumIs(ts[..|ts| - 1], cc);
      assert ts[|ts| - 1] in ts;
      Distribute(cc, |ts| - 1, 1);
    }
  }

  ghost function InFlightSum(ts: seq<PodTracker>): int
    reads set t | t in ts && t.b != null :: t.b
    requires forall t :: t in ts ==> t.b != null
  {
    if ts == [] then 0 else InFlightSum(ts[..|ts| - 1]) + ts[|ts| - 1].b.inFlight
  }

  lemma {:induction false} SomeTrackerHasRoom(ts: seq<PodTracker>)
    requires forall t :: t in ts ==> t.b != null
    requires InFlightSum(ts) < CapacitySum(ts)
    ensures exists t :: t in ts && HasRoom(t)
  {
    if ts != [] {
      var last := ts[|ts| - 1];
      assert last in ts;
      if !HasRoom(last) {
        SomeTrackerHasRoom(ts[..|ts| - 1]);
      }
    }
  }

  class RevisionThrottler {
    const containerConcurrency: nat
    const breaker: Breaker
    var numActivators: int
    var activatorIndex: int
    var backendCount: nat
    var podTrackers: seq<PodTracker>
    var assignedTrackers: seq<PodTracker>
    var clusterIPTracker: PodTracker?

    /** Every tracker this throttler ever made. */
    ghost var created: set<PodTracker>
    /** For each tracker, the requests that still hold it. */
    ghost var held: multiset<PodTracker>

    ghost function Observe(): View
      reads this`numActivators, this`activatorIndex, this`backendCount, this`podTrackers, this`assignedTrackers,
            this`clusterIPTracker, breaker
    {
      View(activatorIndex, numActivators, backendCount, DestSet(podTrackers),
           if clusterIPTracker == null then None else Some(clusterIPTracker.dest),
           DestsOf(assignedTrackers), breaker.capacity)
    }

    ghost predicate PodBreakers(ts: seq<PodTracker>)
      reads set t | t in ts && t.b != null :: t.b
    {
      forall t :: t in ts ==>
        if containerConcurrency == 0 then t.b == null
        else t.b != null && t.b != breaker && t.b.capacity == containerConcurrency
    }

    ghost predicate Weighted()
      reads this`held, this`created, created
    {
      && (forall t :: t in created ==> t.weight == held[t])
      && (forall t :: t in held ==> t in created)
    }

    /** How the fields hang together; the numbers are `Consistent`, the weights `Weighted`. */
    ghost predicate Shaped()
      reads this`numActivators, this`activatorIndex, this`podTrackers, this`assignedTrackers,
            this`clusterIPTracker, this`created, breaker, set t | t in podTrackers && t.b != null :: t.b
    {
      && (activatorIndex == -1 || 0 <= activatorIndex < numActivators)
      && Distinct(DestsOf(podTrackers))
      && PodBreakers(podTrackers)
      && (clusterIPTracker != null ==> podTrackers == [])
      && (clusterIPTracker == null ==> assignedTrackers == Slice())
      && (forall t :: t in podTrackers ==> t in created)
      && (forall t :: t in assignedTrackers ==> t in created)
    }

    ghost function Slice(): seq<PodTracker>
      reads this`activatorIndex, this`numActivators, this`podTrackers
      requires activatorIndex == -1 || 0 <= activatorIndex < numActivators
    {
      if containerConcurrency > 0 then AssignSlice(podTrackers, activatorIndex, numActivators) else podTrackers
    }

    ghost predicate Valid()
      reads this, breaker, created, set t | t in podTrackers && t.b != null :: t.b
    {
      Consistent(containerConcurrency, Observe()) && Shaped() && Weighted() && OwnBreakers(created)
    }

    constructor (containerConcurrency: nat)
      ensures Valid() && Observe() == START
      ensures this.containerConcurrency == containerConcurrency && held == multiset{} && created == {}
      ensures fresh(breaker)
    {
      this.containerConcurrency := containerConcurrency;
      var b := new Breaker(0);
      breaker := b;
      numActivators, activatorIndex, backendCount := 0, -1, 0;
      podTrackers, assignedTrackers, clusterIPTracker := [], [], null;
      created, held := {}, multiset{};
      new;
      assert Listing({}) == [];
    }

    /** Puts the trackers' capacities back to the container concurrency. */
    method ResetTrackers()
      requires forall t :: t in podTrackers ==> (containerConcurrency == 0 <==> t.b == null)
      modifies (set t | t in podTrackers && t.b != null :: t.b)`capacity
      ensures containerConcurrency > 0 ==> forall t :: t in podTrackers ==> t.b.capacity == containerConcurrency
    {
      if containerConcurrency <= 0 {
        return;
      }
      for i := 0 to |podTrackers|
        invariant forall k :: 0 <= k < i ==> podTrackers[k].b.capacity == containerConcurrency
      {
        assert podTrackers[i] in podTrackers;
        podTrackers[i].b.UpdateConcurrency(containerConcurrency);
      }
    }

    /** Sorts the trackers and takes this activator's slice of them. */
    method AssignTrackers() returns (numTrackers: nat)
      requires LegalIndex(Observe()) && clusterIPTracker == null
      requires Distinct(DestsOf(podTrackers)) && PodBreakers(podTrackers)
      modifies this`podTrackers, this`assignedTrackers, (set t | t in podTrackers && t.b != null :: t.b)`capacity
      ensures multiset(podTrackers) == multiset(old(podTrackers))
      ensures DestsOf(podTrackers) == Listing(DestSet(old(podTrackers)))
      ensures PodBreakers(podTrackers)
      ensures assignedTrackers == Slice()
      ensures numTrackers == |assignedTrackers|
    {
      var sorted := SortByDest(podTrackers);
      SameTrackers(sorted, podTrackers);
      podTrackers := sorted;
      var targets := podTrackers;
      if containerConcurrency > 0 {
        ResetTrackers();
        targets := AssignSlice(podTrackers, activatorIndex, numActivators);
      }
      assignedTrackers := targets;
      numTrackers := |targets|;
    }

    lemma AssignedDests()
      requires LegalIndex(Observe())
      requires DestsOf(podTrackers) == Listing(Observe().dests)
      requires assignedTrackers == Slice()
      ensures Observe().targets == Assignment(containerConcurrency, Observe())
    {
      SliceOfDests(podTrackers, activatorIndex, numActivators);
    }

    /** Recomputes the assigned trackers and the revision-wide capacity. */
    method UpdateCapacity(backends: nat)
      requires LegalIndex(Observe())
      requires Distinct(DestsOf(podTrackers)) && PodBreakers(podTrackers)
      modifies this`podTrackers, this`assignedTrackers, this`backendCount, breaker`capacity,
               (set t | t in podTrackers && t.b != null :: t.b)`capacity
      ensures Observe() == ThrottlerSpec.UpdateCapacity(containerConcurrency, old(Observe()), backends)
      ensures multiset(podTrackers) == multiset(old(podTrackers))
      ensures Distinct(DestsOf(podTrackers)) && PodBreakers(podTrackers)
      ensures if clusterIPTracker != null then assignedTrackers == old(assignedTrackers)
              else assignedTrackers == Slice()
    {
      var numTrackers := 0;
      if clusterIPTracker == null {
        numTrackers := AssignTrackers();
        SameTrackers(podTrackers, old(podTrackers));
        StrictlySortedIsDistinct(DestsOf(podTrackers));
        AssignedDests();
      }
      var capacity := CalculateCapacity(containerConcurrency, backends, numTrackers, numActivators);
      backendCount := backends;
      breaker.UpdateConcurrency(capacity);
    }

    method UpdateThrottlerState(backends: nat, trackers: seq<PodTracker>, clusterIPDest: PodTracker?)
      requires LegalIndex(Observe())
      requires Distinct(DestsOf(trackers)) && PodBreakers(trackers)
      modifies this`podTrackers, this`assignedTrackers, this`backendCount, this`clusterIPTracker, breaker`capacity,
               (set t | t in trackers && t.b != null :: t.b)`capacity
      ensures Observe() == ThrottlerSpec.UpdateCapacity(containerConcurrency,
                old(Observe()).(dests := DestSet(trackers),
                             clusterIP := if clusterIPDest == null then None else Some(clusterIPDest.dest)),
                if clusterIPDest != null || trackers != [] then backends else 0)
      ensures clusterIPTracker == clusterIPDest
      ensures multiset(podTrackers) == multiset(trackers)
      ensures Distinct(DestsOf(podTrackers)) && PodBreakers(podTrackers)
      ensures if clusterIPTracker != null then assignedTrackers == old(assignedTrackers)
              else assignedTrackers == Slice()
    {
      podTrackers := trackers;
      clusterIPTracker := clusterIPDest;
      if clusterIPDest != null || |trackers| > 0 {
        UpdateCapacity(backends);
      } else {
        UpdateCapacity(0);
      }
    }

    /** One tracker for each destination: the one already there, or a new one. */
    method BuildTrackers(dests: set<string>) returns (trackers: seq<PodTracker>, ghost made: set<PodTracker>)
      requires Distinct(DestsOf(podTrackers)) && PodBreakers(podTrackers)
      ensures Distinct(DestsOf(trackers)) && DestSet(trackers) == dests && PodBreakers(trackers)
      ensures fresh(made) && forall t :: t in made ==> t.weight == 0 && (t.b != null ==> fresh(t.b) && t.b.inFlight == 0)
      ensures OwnBreakers(made)
      ensures forall t :: t in trackers ==> t in podTrackers || t in made
      ensures forall t :: t in podTrackers && t.dest in dests ==> t in trackers
    {
      var trackersMap: map<string, PodTracker> := map[];
      for i := 0 to |podTrackers|
        invariant forall d :: d in trackersMap ==> trackersMap[d] in podTrackers && trackersMap[d].dest == d
        invariant forall k :: 0 <= k < i ==> podTrackers[k].dest in trackersMap && trackersMap[podTrackers[k].dest] == podTrackers[k]
      {
        assert forall k :: 0 <= k < i ==> DestsOf(podTrackers)[k] != DestsOf(podTrackers)[i];
        trackersMap := trackersMap[podTrackers[i].dest := podTrackers[i]];
      }
      trackers, made := [], {};
      var rest := dests;
      while rest != {}
        invariant rest <= dests && DestSet(trackers) == dests - rest
        invariant Distinct(DestsOf(trackers)) && PodBreakers(trackers)
        invariant fresh(made) && forall t :: t in made ==> t.weight == 0 && (t.b != null ==> fresh(t.b) && t.b.inFlight == 0)
        invariant OwnBreakers(made)
        invariant forall t :: t in trackers ==> if t.dest in trackersMap then t == trackersMap[t.dest] else t in made
        decreases rest
      {
        var newDest :| newDest in rest;
        var tracker: PodTracker;
        if newDest in trackersMap {
          tracker := trackersMap[newDest];
        } else if containerConcurrency == 0 {
          tracker := new PodTracker(newDest, null);
          made := made + {tracker};
        } else {
          var b := new Breaker(containerConcurrency);
          tracker := new PodTracker(newDest, b);
          made := made + {tracker};
        }
        AppendDest(trackers, tracker);
        trackers := trackers + [tracker];
        rest := rest - {newDest};
      }
      forall t | t in podTrackers && t.dest in dests ensures t in trackers {
        assert t.dest in DestSet(trackers);
      }
    }

    /** Takes in a new set of backends. Retained destinations keep their tracker
        object, with its breaker, its requests in flight and its weight. */
    method HandleUpdate(clusterIPDest: string, dests: set<string>)
      requires Valid()
      modifies this, breaker`capacity, (set t | t in podTrackers && t.b != null :: t.b)`capacity
      ensures Valid()
      ensures Observe() == ThrottlerSpec.HandleUpdate(containerConcurrency, old(Observe()), clusterIPDest, dests)
      ensures held == old(held) && created >= old(created) && fresh(created - old(created))
      ensures forall t :: t in created && t !in old(created) && t.b != null ==> fresh(t.b) && t.b.inFlight == 0
      ensures clusterIPDest == "" ==> OneTrackerEach(old(podTrackers), old(created), dests)
    {
      UpdatesKeepConsistency(containerConcurrency, Observe(), clusterIPDest, dests, {}, "");
      if clusterIPDest == "" {
        UpdatePods(dests);
      } else {
        UpdateClusterIP(clusterIPDest, dests);
      }
    }

    /** One tracker per destination; those that were there stay, others are new. */
    ghost predicate OneTrackerEach(before: seq<PodTracker>, known: set<PodTracker>, dests: set<string>)
      reads this`podTrackers
    {
      && DestSet(podTrackers) == dests && Distinct(DestsOf(podTrackers))
      && (forall t :: t in before && t.dest in dests ==> t in podTrackers)
      && (forall t :: t in podTrackers ==> t in before || t !in known)
    }

    /** The trackers for these destinations, the new ones entered as created. */
    method EnterTrackers(dests: set<string>) returns (trackers: seq<PodTracker>)
      requires Valid()
      modifies this`created
      ensures Weighted() && OwnBreakers(created)
      ensures created >= old(created) && fresh(created - old(created))
      ensures forall t :: t in created && t !in old(created) && t.b != null ==> fresh(t.b) && t.b.inFlight == 0
      ensures Distinct(DestsOf(trackers)) && DestSet(trackers) == dests && PodBreakers(trackers)
      ensures forall t :: t in trackers ==> t in created && (t in podTrackers || t !in old(created))
      ensures forall t :: t in podTrackers && t.dest in dests ==> t in trackers
    {
      ghost var made;
      trackers, made := BuildTrackers(dests);
      created := created + made;
    }

    method UpdatePods(dests: set<string>)
      requires Valid()
      modifies this, breaker`capacity, (set t | t in podTrackers && t.b != null :: t.b)`capacity
      ensures Shaped() && Weighted() && OwnBreakers(created)
      ensures Observe() == ThrottlerSpec.HandleUpdate(containerConcurrency, old(Observe()), "", dests)
      ensures held == old(held) && created >= old(created) && fresh(created - old(created))
      ensures forall t :: t in created && t !in old(created) && t.b != null ==> fresh(t.b) && t.b.inFlight == 0
      ensures OneTrackerEach(old(podTrackers), old(created), dests)
    {
      var trackers := EnterTrackers(dests);
      UpdateThrottlerState(|dests|, trackers, null);
      SameTrackers(podTrackers, trackers);
      assert Weighted();
    }

    method UpdateClusterIP(clusterIPDest: string, dests: set<string>)
      requires Valid() && clusterIPDest != ""
      modifies this, breaker`capacity
      ensures Shaped() && Weighted() && OwnBreakers(created)
      ensures Observe() == ThrottlerSpec.HandleUpdate(containerConcurrency, old(Observe()), clusterIPDest, dests)
      ensures held == old(held) && created >= old(created) && fresh(created - old(created))
      ensures forall t :: t in created && t !in old(created) && t.b != null ==> fresh(t.b) && t.b.inFlight == 0
    {
      var tracker := new PodTracker(clusterIPDest, null);
      created := created + {tracker};
      UpdateThrottlerState(|dests|, [], tracker);
      SameTrackers(podTrackers, []);
      assert podTrackers == [];
      assert forall t :: t in old(created) ==> t.weight == held[t];
    }

    /** Takes in the addresses of the healthy activators. */
    method HandlePubEpsUpdate(healthy: set<string>, selfIP: string)
      requires Valid()
      modifies this, breaker`capacity, (set t | t in podTrackers && t.b != null :: t.b)`capacity
      ensures Valid()
      ensures Observe() == ThrottlerSpec.HandlePubEpsUpdate(containerConcurrency, old(Observe()), healthy, selfIP)
      ensures held == old(held) && created == old(created)
      ensures multiset(podTrackers) == multiset(old(podTrackers))
    {
      UpdatesKeepConsistency(containerConcurrency, Observe(), "", {}, healthy, selfIP);
      if selfIP !in healthy {
        return;
      }
      var epsL := ListSorted(healthy);
      var newNA, newAI := |epsL|, InferIndex(epsL, selfIP);
      if newAI == -1 {
        return;
      }
      var na, ai := numActivators, activatorIndex;
      if na == newNA && ai == newAI {
        return;
      }
      Reslice(newNA, newAI);
    }

    method Reslice(newNA: int, newAI: int)
      requires Valid() && 0 <= newAI < newNA
      modifies this`numActivators, this`activatorIndex, this`podTrackers, this`assignedTrackers, this`backendCount,
               breaker`capacity, (set t | t in podTrackers && t.b != null :: t.b)`capacity
      ensures Shaped() && Weighted()
      ensures Observe() == ThrottlerSpec.UpdateCapacity(containerConcurrency,
                old(Observe()).(activators := newNA, index := newAI), old(backendCount))
      ensures multiset(podTrackers) == multiset(old(podTrackers))
    {
      numActivators := newNA;
      activatorIndex := newAI;
      UpdateCapacity(backendCount);
      SameTrackers(podTrackers, old(podTrackers));
      assert forall t :: t in created ==> t.weight == held[t];
    }

    /** The revision-wide semaphore offers what the assigned pods offer together,
        up to the largest capacity a breaker can have. */
    lemma SemaphoresAgree()
      requires Consistent(containerConcurrency, Observe()) && Shaped()
      requires clusterIPTracker == null && containerConcurrency > 0
      ensures forall t :: t in assignedTrackers ==> t.b != null
      ensures Distinct(assignedTrackers)
      ensures breaker.capacity == Clamped(CapacitySum(assignedTrackers))
    {
      DistinctTrackers(podTrackers);
      SliceIsDistinct(podTrackers, activatorIndex, numActivators);
      CapacitySumIs(assignedTrackers, containerConcurrency);
      assert Listing({}) == [];
      if assignedTrackers != [] {
        DestSetNotEmpty(podTrackers);
        DirectCapacity(containerConcurrency, backendCount, |assignedTrackers|, numActivators);
      }
    }

    /** Pigeonhole: as long as the assigned pods serve fewer requests than the
        revision-wide semaphore admits, one of them has a slot free. */
    lemma AdmittedFindsATracker()
      requires Consistent(containerConcurrency, Observe()) && Shaped()
      requires clusterIPTracker == null && containerConcurrency > 0
      requires forall t :: t in assignedTrackers ==> t.b != null
      requires InFlightSum(assignedTrackers) < breaker.capacity
      ensures exists t :: t in assignedTrackers && HasRoom(t)
    {
      SemaphoresAgree();
      SomeTrackerHasRoom(assignedTrackers);
    }

    /** `acquireDest` with `firstAvailableLBPolicy`: the cluster IP if there is one;
        otherwise a slot of the first assigned tracker that has one free, and of no
        other tracker. */
    method AcquireDest() returns (pick: PodTracker?)
      requires Valid()
      modifies (set t | t in assignedTrackers && t.b != null :: t.b)`inFlight
      ensures Valid() && Observe() == old(Observe())
      ensures clusterIPTracker != null ==> pick == clusterIPTracker
      ensures clusterIPTracker == null ==> (pick == null <==> forall t :: t in assignedTrackers ==> !old(HasRoom(t)))
      ensures clusterIPTracker == null && pick != null ==>
                exists i :: 0 <= i < |assignedTrackers| && pick == assignedTrackers[i] && old(HasRoom(assignedTrackers[i]))
                            && forall k :: 0 <= k < i ==> !old(HasRoom(assignedTrackers[k]))
      ensures forall t :: t in created && old(allocated(t)) && t.b != null ==>
                t.b.inFlight == old(t.b.inFlight) + (if clusterIPTracker == null && t == pick then 1 else 0)
    {
      if clusterIPTracker != null {
        return clusterIPTracker;
      }
      pick := FirstAvailable(assignedTrackers);
      assert Observe() == old(Observe());
      assert PodBreakers(podTrackers) && Weighted();
    }

    /** `randomChoice2Policy` on the assigned trackers. The request then holds the
        tracker. */
    method PickOfTwo(r1: nat, draw: nat, coin: bool) returns (pick: PodTracker)
      requires Valid() && assignedTrackers != []
      requires |assignedTrackers| > 2 ==> r1 < |assignedTrackers| && draw < |assignedTrackers| - 1
      modifies this`held, created`weight
      ensures Valid() && Observe() == old(Observe())
      ensures held == old(held) + multiset{pick}
      ensures pick in old(assignedTrackers) && old(allocated(pick)) && old(LighterOfTwo(assignedTrackers, r1, draw, coin, pick))
    {
      pick := ChooseOfTwo(assignedTrackers, r1, draw, coin);
      IncreaseWeight(pick);
    }

    method IncreaseWeight(t: PodTracker)
      requires Weighted() && t in created
      modifies this`held, t`weight
      ensures Weighted() && held == old(held) + multiset{t} && t.weight == old(t.weight) + 1
    {
      t.weight := t.weight + 1;
      held := held + multiset{t};
    }

    /** `decreaseWeight`, called when a request that held `t` is finished. The
        tracker may have left the throttler by then. */
    method Finish(t: PodTracker)
      requires Weighted() && t in held
      modifies this`held, t`weight
      ensures Weighted() && Observe() == old(Observe())
      ensures old(Valid()) ==> Valid()
      ensures held == old(held) - multiset{t}
      ensures t.weight == old(t.weight) - 1 >= 0
    {
      t.weight := t.weight - 1;
      held := held - multiset{t};
    }
  }

  /** `pick` is the lighter of the two contestants; the coin decides between equals. */
  ghost predicate LighterOfTwo(targets: seq<PodTracker>, r1: nat, draw: nat, coin: bool, pick: PodTracker)
    requires targets != []
    requires |targets| > 2 ==> r1 < |targets| && draw < |targets| - 1
    reads targets
  {
    if |targets| == 1 then pick == targets[0]
    else
      var a := if |targets| > 2 then targets[r1] else targets[0];
      var b := if |targets| > 2 then targets[LoadBalancing.ShiftDraw(r1, draw)] else targets[1];
      pick == if a.weight < b.weight || (a.weight == b.weight && !coin) then a else b
  }

  /** The choice of `randomChoice2Policy`. */
  method ChooseOfTwo(targets: seq<PodTracker>, r1: nat, draw: nat, coin: bool) returns (pick: PodTracker)
    requires targets != []
    requires |targets| > 2 ==> r1 < |targets| && draw < |targets| - 1
    ensures LighterOfTwo(targets, r1, draw, coin, pick) && pick in targets
  {
    var l := |targets|;
    if l == 1 {
      return targets[0];
    }
    var i, j := 0, 1;
    if l > 2 {
      i, j := r1, LoadBalancing.ShiftDraw(r1, draw);
    }
    pick := targets[i];
    var alt := targets[j];
    if pick.weight > alt.weight {
      pick := alt;
    } else if pick.weight == alt.weight {
      if coin {
        pick := alt;
      }
    }
  }

  lemma AppendDest(ts: seq<PodTracker>, t: PodTracker)
    ensures DestsOf(ts + [t]) == DestsOf(ts) + [t.dest]
    ensures DestSet(ts + [t]) == DestSet(ts) + {t.dest}
    ensures Distinct(DestsOf(ts)) && t.dest !in DestSet(ts) ==> Distinct(DestsOf(ts + [t]))
  {
    DestSetIsElements(ts);
    forall d | d in DestSet(ts) + {t.dest} ensures d in DestSet(ts + [t]) {
      if d == t.dest {
        assert t in ts + [t];
      } else {
        var u :| u in ts && u.dest == d;
        assert u in ts + [t];
      }
    }
    if t.dest !in DestSet(ts) {
      assert forall i :: 0 <= i < |ts| ==> DestsOf(ts)[i] in Elements(DestsOf(ts));
    }
  }

  lemma DistinctTrackers(ts: seq<PodTracker>)
    requires Distinct(DestsOf(ts))
    ensures Distinct(ts)
  {
    assert forall i, j :: 0 <= i < j < |ts| ==> DestsOf(ts)[i] != DestsOf(ts)[j];
  }

  lemma DestSetNotEmpty(ts: seq<PodTracker>)
    requires ts != []
    ensures |DestSet(ts)| > 0
  {
    assert ts[0] in ts;
    assert ts[0].dest in DestSet(ts);
  }

  /** What can happen to a throttler: an update, a request picking a tracker by two
      draws and a coin, the k-th of the requests under way being finished. */
  datatype Op = Update(e: Event) | Pick(r1: nat, draw: nat, coin: bool) | Finish(k: nat)

  /** What became of it: a request took a tracker, or gave one back. */
  datatype Entry = Took(t: PodTracker) | Gave(t: PodTracker) | Nothing

  ghost function UpdatesOf(ops: seq<Op>): seq<Event> {
    if ops == [] then []
    else
      var op := ops[|ops| - 1];
      UpdatesOf(ops[..|ops| - 1]) + if op.Update? then [op.e] else []
  }

  ghost function After(active: multiset<PodTracker>, entry: Entry): multiset<PodTracker> {
    match entry
    case Took(t) => active + multiset{t}
    case Gave(t) => active - multiset{t}
    case Nothing => active
  }

  /** For each tracker, the requests that took it and have not given it back. */
  ghost function Active(log: seq<Entry>): multiset<PodTracker> {
    if log == [] then multiset{} else After(Active(log[..|log| - 1]), log[|log| - 1])
  }

  /** A request gets a tracker exactly when there is no cluster IP and there are
      targets, and then one of these. One is given back exactly when a request is
      under way, and then one that a request holds. */
  ghost predicate Explains(v: View, active: multiset<PodTracker>, op: Op, entry: Entry) {
    match op
    case Update(_) => entry == Nothing
    case Pick(_, _, _) =>
      if v.clusterIP.None? && v.targets != [] then entry.Took? && entry.t.dest in v.targets else entry == Nothing
    case Finish(_) =>
      if active == multiset{} then entry == Nothing else entry.Gave? && entry.t in active
  }

  ghost function ViewAfter(cc: nat, selfIP: string, v: View, op: Op): View
    requires LegalIndex(v)
  {
    if op.Update? then Step(cc, selfIP, v, op.e) else v
  }

  method PerformUpdate(rt: RevisionThrottler, selfIP: string, e: Event)
    requires rt.Valid()
    modifies rt, rt.breaker`capacity, (set t | t in rt.podTrackers && t.b != null :: t.b)`capacity
    ensures rt.Valid() && rt.Observe() == Step(rt.containerConcurrency, selfIP, old(rt.Observe()), e)
    ensures rt.held == old(rt.held) && rt.created >= old(rt.created) && fresh(rt.created - old(rt.created))
    ensures forall t :: t in rt.created && t !in old(rt.created) && t.b != null ==> fresh(t.b)
  {
    match e
    case Dests(clusterIPDest, dests) => rt.HandleUpdate(clusterIPDest, dests);
    case Endpoints(healthy) => rt.HandlePubEpsUpdate(healthy, selfIP);
  }

  method PerformPick(rt: RevisionThrottler, r1: nat, draw: nat, coin: bool) returns (entry: Entry)
    requires rt.Valid()
    modifies rt`held, rt.created`weight
    ensures rt.Valid() && rt.Observe() == old(rt.Observe())
    ensures rt.held == After(old(rt.held), entry)
    ensures Explains(old(rt.Observe()), old(rt.held), Pick(r1, draw, coin), entry)
  {
    var l := |rt.assignedTrackers|;
    if rt.clusterIPTracker != null || l == 0 {
      return Nothing;
    }
    var t := rt.PickOfTwo(r1 % l, if l > 1 then draw % (l - 1) else 0, coin);
    entry := Took(t);
  }

  method PerformFinish(rt: RevisionThrottler, active: seq<PodTracker>, k: nat) returns (entry: Entry)
    requires rt.Valid() && multiset(active) == rt.held
    modifies rt`held, rt.created`weight
    ensures rt.Valid() && rt.Observe() == old(rt.Observe())
    ensures rt.held == After(old(rt.held), entry)
    ensures Explains(old(rt.Observe()), old(rt.held), Finish(k), entry)
  {
    if active == [] {
      return Nothing;
    }
    var t := active[k % |active|];
    assert t in multiset(active);
    rt.Finish(t);
    entry := Gave(t);
  }

  /** One such step; `active` lists the trackers that requests hold. */
  method Perform(rt: RevisionThrottler, selfIP: string, active: seq<PodTracker>, op: Op) returns (entry: Entry)
    requires rt.Valid() && multiset(active) == rt.held
    modifies rt, rt.breaker`capacity, (set t | t in rt.podTrackers && t.b != null :: t.b)`capacity, rt.created`weight
    ensures rt.Valid() && rt.Observe() == ViewAfter(rt.containerConcurrency, selfIP, old(rt.Observe()), op)
    ensures rt.created >= old(rt.created) && fresh(rt.created - old(rt.created))
    ensures forall t :: t in rt.created && t !in old(rt.created) && t.b != null ==> fresh(t.b)
    ensures rt.held == After(old(rt.held), entry) && Explains(old(rt.Observe()), old(rt.held), op, entry)
  {
    entry := Nothing;
    match op
    case Update(e) => PerformUpdate(rt, selfIP, e);
    case Pick(r1, draw, coin) => entry := PerformPick(rt, r1, draw, coin);
    case Finish(k) => entry := PerformFinish(rt, active, k);
  }

  /** The log says what each step did. */
  ghost predicate Explained(cc: nat, selfIP: string, ops: seq<Op>, log: seq<Entry>) {
    |log| == |ops| && forall i :: 0 <= i < |log| ==>
      Explains(Run(cc, selfIP, UpdatesOf(ops[..i])), Active(log[..i]), ops[i], log[i])
  }

  /** The same step by step: `v` is what the steps lead to. */
  ghost predicate Tells(cc: nat, selfIP: string, ops: seq<Op>, log: seq<Entry>, v: View)
    decreases |ops|
  {
    |log| == |ops| &&
    if ops == [] then v == START
    else
      var m := |ops| - 1;
      exists v0 :: Tells(cc, selfIP, ops[..m], log[..m], v0) && TellsStep(cc, selfIP, v0, Active(log[..m]), ops[m], log[m], v)
  }

  ghost predicate TellsStep(cc: nat, selfIP: string, v: View, active: multiset<PodTracker>, op: Op, entry: Entry, w: View) {
    LegalIndex(v) && Explains(v, active, op, entry) && w == ViewAfter(cc, selfIP, v, op)
  }

  lemma TellsMore(cc: nat, selfIP: string, ops: seq<Op>, log: seq<Entry>, entry: Entry, v: View, w: View)
    requires |log| < |ops| && Tells(cc, selfIP, ops[..|log|], log, v)
    requires TellsStep(cc, selfIP, v, Active(log), ops[|log|], entry, w)
    ensures Tells(cc, selfIP, ops[..|log| + 1], log + [entry], w)
    ensures Active(log + [entry]) == After(Active(log), entry)
  {
    var m, ops', log' := |log|, ops[..|log| + 1], log + [entry];
    assert ops'[..m] == ops[..m] && log'[..m] == log;
  }

  lemma {:induction false} TellsTheRun(cc: nat, selfIP: string, ops: seq<Op>, log: seq<Entry>, v: View)
    requires Tells(cc, selfIP, ops, log, v)
    ensures v == Run(cc, selfIP, UpdatesOf(ops))
    decreases |ops|
  {
    if ops != [] {
      var m := |ops| - 1;
      var v0 :| Tells(cc, selfIP, ops[..m], log[..m], v0) && TellsStep(cc, selfIP, v0, Active(log[..m]), ops[m], log[m], v);
      TellsTheRun(cc, selfIP, ops[..m], log[..m], v0);
      RunGrows(cc, selfIP, ops, m);
    }
  }

  lemma {:induction false} TellsEachStep(cc: nat, selfIP: string, ops: seq<Op>, log: seq<Entry>, v: View, i: nat)
    requires Tells(cc, selfIP, ops, log, v) && i < |log|
    ensures Explains(Run(cc, selfIP, UpdatesOf(ops[..i])), Active(log[..i]), ops[i], log[i])
    decreases |ops|
  {
    var m := |ops| - 1;
    var v0 :| Tells(cc, selfIP, ops[..m], log[..m], v0) && TellsStep(cc, selfIP, v0, Active(log[..m]), ops[m], log[m], v);
    if i == m {
      TellsTheRun(cc, selfIP, ops[..m], log[..m], v0);
    } else {
      TellsEachStep(cc, selfIP, ops[..m], log[..m], v0, i);
      assert ops[..m][..i] == ops[..i] && log[..m][..i] == log[..i];
    }
  }

  lemma TellsIsExplained(cc: nat, selfIP: string, ops: seq<Op>, log: seq<Entry>, v: View)
    requires Tells(cc, selfIP, ops, log, v)
    ensures v == Run(cc, selfIP, UpdatesOf(ops)) && Explained(cc, selfIP, ops, log)
  {
    TellsTheRun(cc, selfIP, ops, log, v);
    forall i | 0 <= i < |log|
      ensures Explains(Run(cc, selfIP, UpdatesOf(ops[..i])), Active(log[..i]), ops[i], log[i])
    {
      TellsEachStep(cc, selfIP, ops, log, v, i);
    }
  }

  lemma RunGrows(cc: nat, selfIP: string, ops: seq<Op>, m: nat)
    requires m + 1 == |ops|
    ensures Run(cc, selfIP, UpdatesOf(ops)) == ViewAfter(cc, selfIP, Run(cc, selfIP, UpdatesOf(ops[..m])), ops[m])
  {
    var us := UpdatesOf(ops[..m]);
    if ops[m].Update? {
      assert (us + [ops[m].e])[..|us|] == us;
    } else {
      assert us + [] == us;
    }
  }

  /** The trackers held after a step, as a list. */
  method Record(active: seq<PodTracker>, entry: Entry) returns (r: seq<PodTracker>)
    requires entry.Gave? ==> entry.t in active
    ensures multiset(r) == After(multiset(active), entry)
  {
    match entry
    case Took(t) => r := active + [t];
    case Gave(t) =>
      var k :| 0 <= k < |active| && active[k] == t;
      r := active[..k] + active[k + 1..];
      assert active == active[..k] + [t] + active[k + 1..];
    case Nothing => r := active;
  }

  /** The first `|log|` steps have been taken and explained, and `active` lists the
      trackers that requests hold. */
  ghost predicate Played(rt: RevisionThrottler, selfIP: string, ops: seq<Op>, log: seq<Entry>, active: seq<PodTracker>)
    reads rt, rt.breaker, rt.created, set t | t in rt.podTrackers && t.b != null :: t.b
  {
    && rt.Valid() && rt.held == Active(log) == multiset(active)
    && |log| <= |ops| && Tells(rt.containerConcurrency, selfIP, ops[..|log|], log, rt.Observe())
  }

  method PlayOn(rt: RevisionThrottler, selfIP: string, ops: seq<Op>, log: seq<Entry>, active: seq<PodTracker>)
    returns (entry: Entry, next: seq<PodTracker>)
    requires |log| < |ops| && Played(rt, selfIP, ops, log, active)
    modifies rt, rt.breaker`capacity, (set t | t in rt.podTrackers && t.b != null :: t.b)`capacity, rt.created`weight
    ensures Played(rt, selfIP, ops, log + [entry], next)
    ensures forall t :: t in rt.created && t !in old(rt.created) ==> fresh(t) && (t.b != null ==> fresh(t.b))
  {
    ghost var v := rt.Observe();
    entry := Perform(rt, selfIP, active, ops[|log|]);
    TellsMore(rt.containerConcurrency, selfIP, ops, log, entry, v, rt.Observe());
    next := Record(active, entry);
  }

  /** A throttler from its creation on, through any mixture of whole updates, picks by
      `randomChoice2Policy` and their callbacks: the visible state is that of the
      updates alone, and every tracker ever created has as its weight the number of
      requests that hold it. */
  method Play(cc: nat, selfIP: string, ops: seq<Op>) returns (rt: RevisionThrottler, log: seq<Entry>)
    ensures fresh(rt) && rt.Valid() && rt.containerConcurrency == cc
    ensures rt.Observe() == Run(cc, selfIP, UpdatesOf(ops))
    ensures Explained(cc, selfIP, ops, log)
    ensures forall t :: t in rt.created ==> t.weight == Active(log)[t]
    ensures forall t :: t in Active(log) ==> t in rt.created
  {
    rt := new RevisionThrottler(cc);
    log := [];
    var active: seq<PodTracker> := [];
    while |log| < |ops|
      invariant fresh(rt) && fresh(rt.breaker) && rt.containerConcurrency == cc
      invariant forall t :: t in rt.created ==> fresh(t) && (t.b != null ==> fresh(t.b))
      invariant Played(rt, selfIP, ops, log, active)
      decreases |ops| - |log|
    {
      var entry, next := PlayOn(rt, selfIP, ops, log, active);
      log, active := log + [entry], next;
    }
    assert ops[..|ops|] == ops;
    TellsIsExplained(cc, selfIP, ops, log, rt.Observe());
  }
}
