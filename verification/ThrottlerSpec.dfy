/** The observable state of a revision throttler and what one whole update does
    to it, as functions. The class in Throttler.dfy is proved against these; the
    lemmas here are about all runs, and about a fleet of activators. */
module ThrottlerSpec {
  import opened Ordering
  import opened Slicing

  datatype Option<T> = None | Some(value: T)

  /** What the rest of the system can see of a revision throttler between updates. */
  datatype View = View(
    index: int, activators: int, backends: nat,
    dests: set<string>, clusterIP: Option<string>,
    targets: seq<string>, capacity: int)

  const START: View := View(-1, 0, 0, {}, None, [], 0)

  predicate LegalIndex(v: View) {
    (v.index == -1 && v.activators == 0) || 0 <= v.index < v.activators
  }

  ghost function Assignment(cc: nat, v: View): seq<string>
    requires LegalIndex(v)
  {
    if cc > 0 then AssignSlice(Listing(v.dests), v.index, v.activators) else Listing(v.dests)
  }

  ghost function UpdateCapacity(cc: nat, v: View, backends: nat): View
    requires LegalIndex(v)
  {
    var targets := if v.clusterIP.Some? then v.targets else Assignment(cc, v);
    var numTrackers := if v.clusterIP.Some? then 0 else |targets|;
    v.(targets := targets, backends := backends,
       capacity := CalculateCapacity(cc, backends, numTrackers, v.activators))
  }

  ghost function HandleUpdate(cc: nat, v: View, clusterIPDest: string, dests: set<string>): View
    requires LegalIndex(v)
  {
    if clusterIPDest == "" then
      UpdateCapacity(cc, v.(dests := dests, clusterIP := None), |dests|)
    else
      UpdateCapacity(cc, v.(dests := {}, clusterIP := Some(clusterIPDest)), |dests|)
  }

  /** The place of an activator among the sorted addresses, -1 if it is not there.
      `sort.SearchStrings` returns the first index whose entry is not below. */
  function InferIndex(eps: seq<string>, ipAddress: string): (index: int)
    requires StrictlySorted(eps)
    ensures index == -1 || (0 <= index < |eps| && eps[index] == ipAddress)
    ensures index == -1 <==> ipAddress !in eps
  {
    assert ipAddress in eps ==> Position(eps, ipAddress) < |eps| && eps[Position(eps, ipAddress)] == ipAddress by {
      if ipAddress in eps { PositionOfMember(eps, ipAddress); }
    }
    var index := Position(eps, ipAddress);
    if index == |eps| || eps[index] != ipAddress then -1 else index
  }

  ghost function HandlePubEpsUpdate(cc: nat, v: View, healthy: set<string>, selfIP: string): View
    requires LegalIndex(v)
  {
    if selfIP !in healthy then v
    else
      var newNA, newAI := |healthy|, InferIndex(Listing(healthy), selfIP);
      if newAI == -1 || (v.activators == newNA && v.index == newAI) then v
      else UpdateCapacity(cc, v.(activators := newNA, index := newAI), v.backends)
  }

  /** The distinct indices the activators infer from one healthy set are exactly
      0, 1, ..., n-1. */
  lemma InferIndexIsABijection(healthy: set<string>)
    ensures forall ip :: 0 <= InferIndex(Listing(healthy), ip) < |healthy| <==> ip in healthy
    ensures forall ip, ip' ::
      ip in healthy && ip' in healthy && InferIndex(Listing(healthy), ip) == InferIndex(Listing(healthy), ip') ==> ip == ip'
    ensures forall i :: 0 <= i < |healthy| ==> InferIndex(Listing(healthy), Listing(healthy)[i]) == i
  {
    var eps := Listing(healthy);
    forall i | 0 <= i < |eps| ensures InferIndex(eps, eps[i]) == i {
      var p := Position(eps, eps[i]);
      LessIsIrreflexive(eps[i]);
    }
    forall ip ensures 0 <= InferIndex(eps, ip) < |healthy| <==> ip in healthy {
      if ip in healthy {
        assert ip in Elements(eps);
        var i :| 0 <= i < |eps| && eps[i] == ip;
      } else {
        assert ip !in Elements(eps);
      }
    }
  }

  /** What holds between whole updates. */
  ghost predicate Consistent(cc: nat, v: View) {
    && LegalIndex(v)
    && v.capacity == CalculateCapacity(cc, v.backends, if v.clusterIP.Some? then 0 else |v.targets|, v.activators)
    && (v.clusterIP.Some? ==> v.dests == {})
    && (v.clusterIP.None? ==> v.backends == |v.dests| && v.targets == Assignment(cc, v))
  }

  /** In direct mode no target occurs twice, and there is none exactly when there
      are no backends. */
  lemma DirectTargets(cc: nat, v: View)
    requires cc > 0 && Consistent(cc, v) && v.clusterIP.None?
    ensures Distinct(v.targets) && (v.targets == [] <==> v.backends == 0)
  {
    StrictlySortedIsDistinct(Listing(v.dests));
    SliceIsDistinct(Listing(v.dests), v.index, v.activators);
    assert |Listing(v.dests)| == v.backends;
  }

  lemma UpdateCapacityIsConsistent(cc: nat, v: View, backends: nat)
    requires LegalIndex(v)
    requires if v.clusterIP.Some? then v.dests == {} else backends == |v.dests|
    ensures Consistent(cc, UpdateCapacity(cc, v, backends))
  {
    var w := UpdateCapacity(cc, v, backends);
    assert v.clusterIP.None? ==> Assignment(cc, w) == Assignment(cc, v);
  }

  /** Both kinds of update keep the state consistent. */
  lemma UpdatesKeepConsistency(cc: nat, v: View, clusterIPDest: string, dests: set<string>, healthy: set<string>, selfIP: string)
    requires Consistent(cc, v)
    ensures Consistent(cc, HandleUpdate(cc, v, clusterIPDest, dests))
    ensures Consistent(cc, HandlePubEpsUpdate(cc, v, healthy, selfIP))
  {
    if clusterIPDest == "" {
      UpdateCapacityIsConsistent(cc, v.(dests := dests, clusterIP := None), |dests|);
    } else {
      UpdateCapacityIsConsistent(cc, v.(dests := {}, clusterIP := Some(clusterIPDest)), |dests|);
    }
    if selfIP in healthy {
      InferIndexIsABijection(healthy);
      var w := v.(activators := |healthy|, index := InferIndex(Listing(healthy), selfIP));
      UpdateCapacityIsConsistent(cc, w, v.backends);
    }
  }

  datatype Event = Dests(clusterIPDest: string, dests: set<string>) | Endpoints(healthy: set<string>)

  ghost function Step(cc: nat, selfIP: string, v: View, e: Event): View
    requires LegalIndex(v)
  {
    match e
    case Dests(clusterIPDest, dests) => HandleUpdate(cc, v, clusterIPDest, dests)
    case Endpoints(healthy) => HandlePubEpsUpdate(cc, v, healthy, selfIP)
  }

  /** The state after a run of whole updates, in any order. */
  ghost function Run(cc: nat, selfIP: string, events: seq<Event>): (v: View)
    ensures Consistent(cc, v)
  {
    if events == [] then
      START
    else
      var v, e := Run(cc, selfIP, events[..|events| - 1]), events[|events| - 1];
      UpdatesKeepConsistency(cc, v, if e.Dests? then e.clusterIPDest else "", if e.Dests? then e.dests else {},
                             if e.Endpoints? then e.healthy else {}, selfIP);
      Step(cc, selfIP, v, e)
  }

  /** After every run: the revision-wide breaker admits requests exactly when
      there are backends, and then there is a target for them, so that no policy
      is handed an empty list. */
  lemma CapacityMeansATarget(cc: nat, selfIP: string, events: seq<Event>)
    ensures var v := Run(cc, selfIP, events);
      && (v.capacity > 0 <==> v.backends > 0)
      && (v.capacity > 0 && v.clusterIP.None? ==> v.targets != [])
  {
    var v := Run(cc, selfIP, events);
    CapacityIsPositive(cc, v.backends, if v.clusterIP.Some? then 0 else |v.targets|, v.activators);
    if v.clusterIP.None? {
      assert |Listing(v.dests)| == v.backends;
      assert v.targets == [] <==> Listing(v.dests) == [];
    }
  }

  lemma CapacityIsPositive(cc: nat, backends: nat, numTrackers: nat, n: int)
    requires backends == 0 ==> numTrackers == 0
    ensures CalculateCapacity(cc, backends, numTrackers, n) > 0 <==> backends > 0
  {
    if cc > 0 {
      MulMonotone(0, backends, cc);
      MulMonotone(0, numTrackers, cc);
      if backends > 0 { MulMonotone(1, backends, cc); }
      if numTrackers > 0 { MulMonotone(1, numTrackers, cc); }
    }
  }

  /** The last backend update of a run, and the last endpoints update that names
      this activator. */
  ghost function LastDests(events: seq<Event>): Option<Event> {
    if events == [] then None
    else if events[|events| - 1].Dests? then Some(events[|events| - 1])
    else LastDests(events[..|events| - 1])
  }

  ghost function LastHealthy(selfIP: string, events: seq<Event>): Option<set<string>> {
    if events == [] then None
    else
      var e := events[|events| - 1];
      if e.Endpoints? && selfIP in e.healthy then Some(e.healthy) else LastHealthy(selfIP, events[..|events| - 1])
  }

  /** The state forgets everything but the last update of each kind. */
  lemma {:induction false} RunRemembersTheLastUpdates(cc: nat, selfIP: string, events: seq<Event>)
    ensures var v := Run(cc, selfIP, events);
      && (match LastHealthy(selfIP, events)
          case None => v.index == -1 && v.activators == 0
          case Some(healthy) => v.index == InferIndex(Listing(healthy), selfIP) && v.activators == |healthy|)
      && (match LastDests(events)
          case None => v.dests == {} && v.clusterIP.None? && v.backends == 0
          case Some(e) => e.Dests? && v.backends == |e.dests| && if e.clusterIPDest == "" then v.dests == e.dests && v.clusterIP.None?
                                      else v.dests == {} && v.clusterIP == Some(e.clusterIPDest))
  {
    if events != [] {
      RunRemembersTheLastUpdates(cc, selfIP, events[..|events| - 1]);
      var e := events[|events| - 1];
      if e.Endpoints? && selfIP in e.healthy {
        InferIndexIsABijection(e.healthy);
      }
    }
  }

  /** In direct mode the targets after every run, in order: all pods without a container
      concurrency, or as long as no update has named this activator; otherwise the
      slice of the sorted pods that belongs to the place of this activator among the
      sorted addresses. */
  lemma RunTargets(cc: nat, selfIP: string, events: seq<Event>, dests: set<string>)
    requires LastDests(events) == Some(Dests("", dests))
    ensures var v := Run(cc, selfIP, events);
      && (cc == 0 || LastHealthy(selfIP, events).None? ==> v.targets == Listing(dests))
      && (cc > 0 && LastHealthy(selfIP, events).Some? ==>
            var eps := Listing(LastHealthy(selfIP, events).value);
            exists i :: 0 <= i < |eps| && eps[i] == selfIP && HoldsSlice(v.targets, Listing(dests), i, |eps|))
  {
    RunRemembersTheLastUpdates(cc, selfIP, events);
    var v := Run(cc, selfIP, events);
    SliceIsInOrder(Listing(dests), v.index, v.activators);
    if LastHealthy(selfIP, events).Some? {
      HealthyNamesSelf(selfIP, events);
      var healthy := LastHealthy(selfIP, events).value;
      InferIndexIsABijection(healthy);
      assert Listing(healthy)[v.index] == selfIP;
    }
  }

  lemma {:induction false} HealthyNamesSelf(selfIP: string, events: seq<Event>)
    ensures LastHealthy(selfIP, events).Some? ==> selfIP in LastHealthy(selfIP, events).value
  {
    if events != [] {
      HealthyNamesSelf(selfIP, events[..|events| - 1]);
    }
  }

  /** The capacity after every run, in numbers: nothing without backends; the maximum
      of 2147483647 without a container concurrency; what the targets take in direct
      mode; and behind a cluster IP an equal share, rounded down, of what the backends
      take, the whole of it as long as no update has named this activator. */
  lemma RunCapacity(cc: nat, selfIP: string, events: seq<Event>)
    requires LastDests(events).Some?
    ensures var v, e := Run(cc, selfIP, events), LastDests(events).value;
      e.Dests? &&
      var all := cc * |e.dests|;
      var n := if LastHealthy(selfIP, events).Some? then |LastHealthy(selfIP, events).value| else 0;
      if e.dests == {} then v.capacity == 0
      else if cc == 0 then v.capacity == 2147483647
      else if e.clusterIPDest == "" then
        v.targets != [] && v.capacity == if cc * |v.targets| < 2147483647 then cc * |v.targets| else 2147483647
      else if n <= 1 then v.capacity == if all < 2147483647 then all else 2147483647
      else
        && 1 <= v.capacity <= 2147483647
        && (v.capacity > 1 ==> v.capacity * n <= all)
        && (v.capacity < 2147483647 ==> all < (v.capacity + 1) * n)
  {
    RunRemembersTheLastUpdates(cc, selfIP, events);
    var v := Run(cc, selfIP, events);
    var numTrackers := if v.clusterIP.Some? then 0 else |v.targets|;
    if v.clusterIP.None? {
      assert |Listing(v.dests)| == v.backends;
      assert v.targets == [] <==> Listing(v.dests) == [];
    }
    CapacityIs(cc, v.backends, numTrackers, v.activators);
  }

  /** ... so that an activator no update has named yet takes all pods and offers all
      their capacity. */
  lemma UnnamedTakesAll(cc: nat, selfIP: string, events: seq<Event>, dests: set<string>)
    requires LastDests(events) == Some(Dests("", dests)) && LastHealthy(selfIP, events).None?
    ensures Run(cc, selfIP, events).targets == Listing(dests)
    ensures cc > 0 ==> Run(cc, selfIP, events).capacity == Clamped(cc * |dests|)
  {
    RunTargets(cc, selfIP, events, dests);
    RunCapacity(cc, selfIP, events);
  }

  /** Behind a cluster IP the targets of before are kept, unused. */
  lemma ClusterIPKeepsTargets(cc: nat, selfIP: string, events: seq<Event>, e: Event)
    requires Run(cc, selfIP, events + [e]).clusterIP.Some?
    ensures Run(cc, selfIP, events + [e]).targets == Run(cc, selfIP, events).targets
  {
    assert (events + [e])[..|events|] == events;
  }

  /** Every activator of `healthy` has last heard of `healthy` and of `dests`, in
      whatever order and after whatever history of its own. */
  ghost predicate InSync(runs: map<string, seq<Event>>, healthy: set<string>, dests: set<string>) {
    InSyncBehind("", runs, healthy, dests)
  }

  /** The same for a revision whose pods are addressed by `clusterIPDest`, unless that
      is empty. */
  ghost predicate InSyncBehind(clusterIPDest: string, runs: map<string, seq<Event>>, healthy: set<string>, dests: set<string>) {
    && runs.Keys == healthy
    && forall ip :: ip in healthy ==>
         LastHealthy(ip, runs[ip]) == Some(healthy) && LastDests(runs[ip]) == Some(Dests(clusterIPDest, dests))
  }

  /** What activator `ip` computes from the two sets alone. */
  ghost function LocalSlice(healthy: set<string>, dests: set<string>, ip: string): seq<string>
    requires ip in healthy
  {
    InferIndexIsABijection(healthy);
    AssignSlice(Listing(dests), InferIndex(Listing(healthy), ip), |healthy|)
  }

  lemma InSyncAssignment(cc: nat, runs: map<string, seq<Event>>, healthy: set<string>, dests: set<string>, ip: string)
    requires cc > 0 && InSync(runs, healthy, dests) && ip in healthy
    ensures Run(cc, ip, runs[ip]).targets == LocalSlice(healthy, dests, ip)
  {
    RunRemembersTheLastUpdates(cc, ip, runs[ip]);
  }

  lemma PodIsServedOnce(healthy: set<string>, dests: set<string>, d: string)
    requires 1 <= |healthy| <= |dests| && d in dests
    ensures exists ip :: ip in healthy && d in LocalSlice(healthy, dests, ip)
    ensures forall ip, ip' ::
      ip in healthy && ip' in healthy && d in LocalSlice(healthy, dests, ip) && d in LocalSlice(healthy, dests, ip') ==> ip == ip'
  {
    var pods, eps := Listing(dests), Listing(healthy);
    StrictlySortedIsDistinct(pods);
    InferIndexIsABijection(healthy);
    assert d in Elements(pods);
    EveryPodHasOneOwner(pods, |healthy|, d);
    var i :| 0 <= i < |healthy| && d in AssignSlice(pods, i, |healthy|);
    assert eps[i] in Elements(eps);
    assert d in LocalSlice(healthy, dests, eps[i]);
  }

  /** Without talking to each other, activators that are in sync partition the
      pods: every pod is a target of exactly one of them. */
  lemma FleetPartitionsThePods(cc: nat, runs: map<string, seq<Event>>, healthy: set<string>, dests: set<string>, d: string)
    requires cc > 0 && InSync(runs, healthy, dests) && 1 <= |healthy| <= |dests|
    ensures d in dests <==> exists ip :: ip in healthy && d in Run(cc, ip, runs[ip]).targets
    ensures forall ip, ip' ::
      ip in healthy && ip' in healthy && d in Run(cc, ip, runs[ip]).targets && d in Run(cc, ip', runs[ip']).targets ==> ip == ip'
  {
    forall ip | ip in healthy
      ensures Run(cc, ip, runs[ip]).targets == LocalSlice(healthy, dests, ip)
      ensures d in LocalSlice(healthy, dests, ip) ==> d in dests
    {
      InSyncAssignment(cc, runs, healthy, dests, ip);
      assert d in Listing(dests) ==> d in Elements(Listing(dests));
    }
    if d in dests {
      PodIsServedOnce(healthy, dests, d);
      var ip :| ip in healthy && d in LocalSlice(healthy, dests, ip);
      assert d in Run(cc, ip, runs[ip]).targets;
    }
  }

  /** No activator lists a pod twice, and slices differ by at most one pod. */
  lemma FleetIsBalanced(cc: nat, runs: map<string, seq<Event>>, healthy: set<string>, dests: set<string>, ip: string)
    requires cc > 0 && InSync(runs, healthy, dests) && |healthy| <= |dests| && ip in healthy
    ensures var v := Run(cc, ip, runs[ip]);
      && Distinct(v.targets)
      && |v.targets| == |dests| / |healthy| + (if v.index < |dests| % |healthy| then 1 else 0)
  {
    RunRemembersTheLastUpdates(cc, ip, runs[ip]);
    InferIndexIsABijection(healthy);
    var i := InferIndex(Listing(healthy), ip);
    StrictlySortedIsDistinct(Listing(dests));
    SliceIsDistinct(Listing(dests), i, |healthy|);
    SliceSize(Listing(dests), i, |healthy|);
  }

  /** The activators in `eps` that send to pod `t`. */
  ghost function Servers<T, U>(trackers: seq<T>, t: T, eps: seq<U>, n: int): (r: set<U>)
    requires |eps| <= n
    ensures forall ip :: ip in r ==> ip in eps
  {
    if eps == [] then {}
    else
      var m := |eps| - 1;
      Servers(trackers, t, eps[..m], n) + (if t in AssignSlice(trackers, m, n) then {eps[m]} else {})
  }

  lemma {:induction false} ServersCount<T, U>(trackers: seq<T>, t: T, eps: seq<U>, n: int)
    requires Distinct(eps) && |eps| <= n
    ensures |Servers(trackers, t, eps, n)| == OwnerCount(trackers, t, n, |eps|)
    ensures forall i :: 0 <= i < |eps| ==> (eps[i] in Servers(trackers, t, eps, n) <==> t in AssignSlice(trackers, i, n))
  {
    if eps != [] {
      var m := |eps| - 1;
      ServersCount(trackers, t, eps[..m], n);
      assert eps[m] !in eps[..m];
    }
  }

  lemma ServersAreSlices(healthy: set<string>, dests: set<string>, j: nat, ip: string)
    requires j < |dests| && 1 <= |healthy|
    ensures ip in Servers(Listing(dests), Listing(dests)[j], Listing(healthy), |healthy|)
            <==> ip in healthy && Listing(dests)[j] in LocalSlice(healthy, dests, ip)
  {
    var pods, eps := Listing(dests), Listing(healthy);
    StrictlySortedIsDistinct(eps);
    InferIndexIsABijection(healthy);
    ServersCount(pods, pods[j], eps, |healthy|);
    if ip in healthy {
      assert eps[InferIndex(eps, ip)] == ip;
    } else {
      assert ip !in Elements(eps);
    }
  }

  lemma ServersShare(healthy: set<string>, dests: set<string>, j: nat)
    requires j < |dests| < |healthy|
    ensures |Servers(Listing(dests), Listing(dests)[j], Listing(healthy), |healthy|)| == Share(|healthy|, |dests|, j)
  {
    StrictlySortedIsDistinct(Listing(dests));
    StrictlySortedIsDistinct(Listing(healthy));
    PodsShareActivators(Listing(dests), j, |healthy|, |healthy|);
    ServersCount(Listing(dests), Listing(dests)[j], Listing(healthy), |healthy|);
  }

  /** The activators that send to pod `d`. */
  ghost function Serving(cc: nat, runs: map<string, seq<Event>>, d: string): set<string> {
    set ip | ip in runs.Keys && d in Run(cc, ip, runs[ip]).targets
  }

  /** With more activators than pods no pod is left out: pod `j` of `l` is served
      by floor(n/l) of the `n` activators, one more if `j < n % l`. */
  lemma FleetSharesThePods(cc: nat, runs: map<string, seq<Event>>, healthy: set<string>, dests: set<string>, j: nat)
    requires cc > 0 && InSync(runs, healthy, dests) && j < |dests| < |healthy|
    ensures |Serving(cc, runs, Listing(dests)[j])| == Share(|healthy|, |dests|, j)
  {
    var d := Listing(dests)[j];
    var servers := Servers(Listing(dests), d, Listing(healthy), |healthy|);
    forall ip ensures ip in servers <==> ip in Serving(cc, runs, d) {
      ServersAreSlices(healthy, dests, j, ip);
      if ip in healthy {
        InSyncAssignment(cc, runs, healthy, dests, ip);
      }
    }
    assert servers == Serving(cc, runs, d);
    ServersShare(healthy, dests, j);
  }

  /** ... and each activator serves one pod. */
  lemma FleetNeverIdles(cc: nat, runs: map<string, seq<Event>>, healthy: set<string>, dests: set<string>, ip: string)
    requires cc > 0 && InSync(runs, healthy, dests) && 1 <= |dests| < |healthy| && ip in healthy
    ensures |Run(cc, ip, runs[ip]).targets| == 1
  {
    InSyncAssignment(cc, runs, healthy, dests, ip);
    InferIndexIsABijection(healthy);
    SliceIsInOrder(Listing(dests), InferIndex(Listing(healthy), ip), |healthy|);
  }

  /** The capacities of the revision-wide breakers of the given activators, summed. */
  ghost function TotalCapacity(cc: nat, runs: map<string, seq<Event>>, eps: seq<string>): int
    requires forall k :: 0 <= k < |eps| ==> eps[k] in runs
  {
    if eps == [] then 0
    else
      var m := |eps| - 1;
      TotalCapacity(cc, runs, eps[..m]) + Run(cc, eps[m], runs[eps[m]]).capacity
  }

  lemma InSyncCapacity(cc: nat, runs: map<string, seq<Event>>, healthy: set<string>, dests: set<string>, i: nat)
    requires cc > 0 && InSync(runs, healthy, dests) && i < |healthy|
    ensures Listing(healthy)[i] in healthy
    ensures Run(cc, Listing(healthy)[i], runs[Listing(healthy)[i]]).capacity
            == CalculateCapacity(cc, |dests|, |AssignSlice(Listing(dests), i, |healthy|)|, |healthy|)
  {
    var ip := Listing(healthy)[i];
    assert ip in Elements(Listing(healthy));
    InferIndexIsABijection(healthy);
    RunRemembersTheLastUpdates(cc, ip, runs[ip]);
  }

  lemma {:induction false} TotalIsClaimed(cc: nat, runs: map<string, seq<Event>>, eps: seq<string>, backends: int, sizes: seq<int>, n: int)
    requires |sizes| == |eps|
    requires forall k :: 0 <= k < |eps| ==> eps[k] in runs
    requires forall k :: 0 <= k < |eps| ==>
               Run(cc, eps[k], runs[eps[k]]).capacity == CalculateCapacity(cc, backends, sizes[k], n)
    ensures TotalCapacity(cc, runs, eps) == ClaimedCapacity(cc, backends, sizes, n)
  {
    if eps != [] {
      TotalIsClaimed(cc, runs, eps[..|eps| - 1], backends, sizes[..|eps| - 1], n);
    }
  }

  /** Activators in sync, each after its own history, together admit exactly as many
      requests as the pods take if and only if there are no pods, or the largest
      slice of at least as many pods as activators is not clamped (or the clamp
      happens to make up for the excess). With fewer pods than activators each
      admits as many as one pod takes, so together they admit too many. */
  lemma FleetCapacityIsConserved(cc: nat, runs: map<string, seq<Event>>, healthy: set<string>, dests: set<string>)
    requires cc > 0 && InSync(runs, healthy, dests)
    ensures forall k :: 0 <= k < |healthy| ==> Listing(healthy)[k] in runs
    ensures TotalCapacity(cc, runs, Listing(healthy)) == cc * |dests| <==> CapacityFits(cc, |dests|, |healthy|)
    ensures 1 <= |dests| < |healthy| ==> TotalCapacity(cc, runs, Listing(healthy)) == |healthy| * Clamped(cc)
    ensures 1 <= |dests| < |healthy| && cc <= REVISION_MAX_CONCURRENCY ==>
              TotalCapacity(cc, runs, Listing(healthy)) > cc * |dests|
  {
    var n := |healthy|;
    var eps, sizes := Listing(healthy), seq(n, i requires 0 <= i < n => |AssignSlice(Listing(dests), i, n)|);
    forall k | 0 <= k < n
      ensures eps[k] in runs
      ensures Run(cc, eps[k], runs[eps[k]]).capacity == CalculateCapacity(cc, |dests|, sizes[k], n)
    {
      InSyncCapacity(cc, runs, healthy, dests, k);
    }
    TotalIsClaimed(cc, runs, eps, |dests|, sizes, n);
    FleetCapacityIsPodCapacity(cc, Listing(dests), n);
  }

  /** What a fleet in sync behind a cluster IP admits together: never more than the
      backends take, except that each activator keeps one slot; less than one slot
      an activator is lost to rounding; and exactly what the backends take if and
      only if that divides evenly and is not clamped. */
  lemma FleetBehindAClusterIP(cc: nat, clusterIPDest: string, runs: map<string, seq<Event>>, healthy: set<string>, dests: set<string>)
    requires cc > 0 && clusterIPDest != "" && InSyncBehind(clusterIPDest, runs, healthy, dests) && healthy != {}
    ensures forall k :: 0 <= k < |healthy| ==> Listing(healthy)[k] in runs
    ensures var total, all, n := TotalCapacity(cc, runs, Listing(healthy)), cc * |dests|, |healthy|;
      && total <= (if all > n then all else n)
      && (n <= all && all / n <= REVISION_MAX_CONCURRENCY ==> all - total < n)
      && (total == all <==> all % n == 0 && all / n <= REVISION_MAX_CONCURRENCY)
  {
    var eps, sizes, n := Listing(healthy), seq(|healthy|, i => 0), |healthy|;
    forall k | 0 <= k < n
      ensures eps[k] in runs
      ensures Run(cc, eps[k], runs[eps[k]]).capacity == CalculateCapacity(cc, |dests|, sizes[k], n)
    {
      assert eps[k] in Elements(eps);
      RunRemembersTheLastUpdates(cc, eps[k], runs[eps[k]]);
    }
    TotalIsClaimed(cc, runs, eps, |dests|, sizes, n);
    EqualClaims(cc, |dests|, sizes, n, 0);
    if |dests| > 0 {
      ClusterIPCapacity(cc, |dests|, n);
    } else {
      NothingToShare(cc, n);
    }
  }

  lemma NothingToShare(cc: nat, n: nat)
    requires n > 0
    ensures n * CalculateCapacity(cc, 0, 0, n) == 0 == cc * 0 && 0 % n == 0 && 0 / n == 0
  {
    QuotientBounds(0, 0, n);
  }
}
