# Verified model of the modified Knative activator

This project models, in Dafny, the parts of the activator that decide where a
request goes and when: how the pods of a revision are divided over the
activators, how much each activator may admit, how requests are queued and
preempt each other, how the load-balancing policies choose a pod, and what the
accounting they read is worth. `dafny verify dfyconfig.toml` checks everything.

| file | what it models |
|---|---|
| `Ordering.dfy` | Go's string order; a set has exactly one sorted listing |
| `Slicing.dfy` | the slice of pods an activator takes and the capacity it claims |
| `ThrottlerSpec.dfy` | what a whole update does to the visible state of a revision throttler; all runs; a fleet of activators |
| `Throttler.dfy` | the throttler, its breakers and its pod trackers as objects, proved against `ThrottlerSpec` |
| `Admission.dfy` | requests passing the outer and the inner semaphore while updates happen |
| `InfiniteBreaker.dfy` | the broadcast breaker, as an object and as a protocol over all interleavings |
| `LoadBalancing.dfy` | the round-robin policies and the two-choice draws |
| `Groups.dfy` | job groups, preemption and waiting time |
| `Accounting.dfy` | jobs in flight per pod and the policies that read them |
| `QueueSpec.dfy` | the critical sections of the queue as functions; experiments 1 and 2 |
| `RequestQueue.dfy` | the queue on linked nodes, with the manager's walk as a loop under interference |
| `QueueMachine.dfy` | adders, manager, clock and timers in every interleaving |
| `DoneChannel.dfy` | who closes the `done` channel of a request, in real time |
| `Cdf.dfy` | drawing from a cumulative distribution, Python's search against Go's scan |

Two levels occur throughout. A class holds the fields the source updates in
place, and its methods are proved to take the abstract state to a function of the
old one. The lemmas about those functions then speak about all runs. Where
goroutines interleave, one event is one critical section, and the theorems are
about every execution, that is, every sequence of states linked by enabled events.

Conventions. A breaker of the queue package is an abstract semaphore: a capacity,
the slots in use, a non-blocking `Reserve`; a request passes the outer one only
while fewer slots than the capacity are in use. Random draws, timer deliveries
and the order in which a Go map is iterated are arbitrary inputs. Floating-point
numbers are reals, and the natural logarithm is any function that is positive
above 1. Integers are unbounded.

## Where the properties need a condition

- A request that is admitted can find no free slot, and is then put back, only if an
  update lowered the capacity after it was admitted
  (`ReenqueueMeansCapacityWasLowered`). In any reachable state an admitted request can
  still come to that, without a further update, if and only if the admitted requests
  and those on the current pods are more than these pods take, and the pods are not
  behind a cluster IP (`StarvesExactly`).
  `AnUpdateInBetweenCanStarve` is such a run, with an empty list, on which
  `randomChoice2Policy` and `simpleRandomChoice2Policy` fail.
- The capacities of a fleet add up to what the pods take if and only if there are no
  pods, or there are at least as many pods as activators and the largest slice is not
  clamped (`FleetCapacityIsConserved`; above 2^31-1 for the container concurrency the
  clamp may also happen to make up for the excess). With fewer pods than activators
  each activator admits what a whole pod takes, so n activators admit n times that.
  Behind a cluster IP the capacities add up exactly if the slots divide evenly among
  the activators and the share is not clamped (`FleetBehindAClusterIP`).
- The front of the queue is the least one in experiment 1. In experiment 2 the
  manager may take the front itself: `TakingKeepsFrontLeast` says exactly when that
  is harmless, `FrontTestStaysRightExactly` says it for runs, and
  `Experiment2CanOvertakeASmallerJob` shows a bad run with real arrival times.
- The counters of all pods are right all along a history if and only if every report in
  it is about a job in flight, or about no group, or about a group of which no job is in
  flight on the pod (`CountersStayExactExactly`). If at any point of a history a job in
  flight is reported with another rate of its group, the rate sum stays off by the
  difference (`MisreportShiftsTheRateSum`), so
  that a rate reported too small leaves the pod busy for good as long as later reports
  are harmless (`UnmatchedReportLeavesAPodBusy`); another wrong report can make up for it
  (`WrongReportsCanCancelOut`). The job counts stay consistent even then.
- `done` is closed at most once in every run if and only if dispatch comes within
  20 s of the handler starting to wait (`DispatchBoundIsExact`).
- The Python search and the Go scan agree on every draw only for tables of at most
  two entries. In general they agree off the entries, and on an entry if and only if
  halving the index range meets its first occurrence before the later ones and
  before the value after them (`AgreesExactly`).
- The test on `Lambda*D` in `AddReq` never decides anything: with the constants in
  force it is implied by the test on the group (`PreemptsExactly`).

Where the code and its comments disagree the model follows the code: the comment on
`ManageQueue1` (modified-knative-file/queue.go:131) speaks of the front of the queue,
while the code takes the back, which is what keeps the front the least.

## Model

| member | source | states |
|---|---|---|
| `Ordering.ListingIsUnique` | modified-knative-file/throttler.go:315-318 | sorting distinct addresses is deterministic: any two sorted sequences with the same elements are equal, so activators that see the same pods in any order sort them alike |
| `Ordering.ListSorted` | modified-knative-file/throttler.go:639-640 | the list of a set is its unique sorted listing, however the set is iterated |
| `Ordering.LessIsLexicographic` | modified-knative-file/throttler.go:315-318 | the order used is that of a dictionary: the first difference decides, and a proper prefix is smaller |
| `Slicing.PickIndices` | modified-knative-file/throttler.go:365-382 | for a legal index the range is nonempty, lies inside the pods and ends before the remnants; there are fewer remnants than activators |
| `Slicing.AssignSlice` | modified-knative-file/throttler.go:388-414 | the slice holds only given trackers and is empty only if there are none; `SliceIsInOrder` says which |
| `Slicing.SliceIsInOrder` | modified-knative-file/throttler.go:365-414 | the contents of every slice in order: all trackers for an unknown index, else the i-th run of floor(pods/activators) trackers and for the first few activators one remnant, or the single pod i mod pods |
| `Slicing.EveryPodHasOneOwner` | modified-knative-file/throttler.go:385-414 | with at least as many pods as activators each pod is in the slice of exactly one activator |
| `Slicing.SliceIsDistinct` | modified-knative-file/throttler.go:405-413 | no slice lists a pod twice, the shared remnant included |
| `Slicing.SliceSize` | modified-knative-file/throttler.go:375-381 | a slice has floor(pods/activators) pods, one more for the first pods mod activators of them |
| `Slicing.PodsShareActivators` | modified-knative-file/throttler.go:366-373 | with more activators than pods, the first m activators are dealt to the pods in turn, floor(m/pods) to each and one more to the first m mod pods |
| `Slicing.CapacityIs` | modified-knative-file/throttler.go:255-282 | the capacity in numbers: 0 without backends, 2147483647 without a container concurrency, what the trackers take up to that maximum, or an equal share of what the backends take, rounded down and at least 1 |
| `Slicing.FleetCapacityIsPodCapacity` | modified-knative-file/throttler.go:255-282 | the capacities the activators claim for their slices add up to cc times pods if and only if there are no pods, or there are at least as many pods as activators and the largest slice is not clamped, or cc exceeds the clamp and the clamped claims happen to match; with fewer pods the claims are n times one pod's, which is too many |
| `Slicing.ClusterIPCapacity` | modified-knative-file/throttler.go:263-270 | behind a cluster IP, n activators together claim at most max(cc*backends, n); rounding loses less than n; and they claim exactly cc*backends if and only if n divides it and the share is not clamped |
| `ThrottlerSpec.InferIndex` | modified-knative-file/throttler.go:667-675 | the place of the address in the sorted list; -1 if and only if it is not there |
| `ThrottlerSpec.InferIndexIsABijection` | modified-knative-file/throttler.go:660-675 | the activators of one healthy set infer exactly the indices 0 to n-1, each a different one, and nobody else infers a legal index |
| `ThrottlerSpec.UpdatesKeepConsistency` | modified-knative-file/throttler.go:300-362 | both kinds of whole update keep the index legal, the capacity equal to what the recorded backends and targets give, and in direct mode the backend count equal to the pods and the targets equal to the slice |
| `ThrottlerSpec.Run` | modified-knative-file/throttler.go:511-524 | every run of updates in any order ends in such a consistent state; slice bounds and divisors are legal on the way |
| `ThrottlerSpec.CapacityMeansATarget` | modified-knative-file/throttler.go:340-361 | after every run the breaker has capacity exactly when backends are recorded, and then there is a cluster IP or a nonempty target list |
| `ThrottlerSpec.RunRemembersTheLastUpdates` | modified-knative-file/throttler.go:631-658 | whatever the history, index, activator count, pods, backend count and cluster IP are those of the last backend update and of the last endpoints update naming this activator |
| `ThrottlerSpec.RunTargets` | modified-knative-file/throttler.go:300-330 | in direct mode, after every run: all pods in order without a container concurrency or before any update names this activator, else exactly the slice at its place among the sorted addresses |
| `ThrottlerSpec.RunCapacity` | modified-knative-file/throttler.go:255-282 | the capacity after every run in numbers, for both modes, with and without a container concurrency, before and after an update names this activator |
| `ThrottlerSpec.UnnamedTakesAll` | modified-knative-file/throttler.go:137-141 | an activator no update has named takes all pods and offers all their capacity |
| `ThrottlerSpec.ClusterIPKeepsTargets` | modified-knative-file/throttler.go:310-313 | behind a cluster IP the targets of before are kept |
| `ThrottlerSpec.FleetPartitionsThePods` | modified-knative-file/throttler.go:385-414 | activators with different histories but the same last healthy set and pod set, deciding alone, partition the pods: every pod is a target of exactly one, and nothing else is a target |
| `ThrottlerSpec.FleetIsBalanced` | modified-knative-file/throttler.go:375-381 | in such a fleet no target list has duplicates and lengths differ by at most one, the longer ones at the lower indices |
| `ThrottlerSpec.FleetSharesThePods` | modified-knative-file/throttler.go:366-373 | in a fleet larger than the pod set, pod j is served by floor(n/l) activators, one more if j < n mod l |
| `ThrottlerSpec.FleetNeverIdles` | modified-knative-file/throttler.go:366-373 | in such a fleet each activator has exactly one target |
| `ThrottlerSpec.FleetCapacityIsConserved` | modified-knative-file/throttler.go:255-282 | the revision-wide breakers of a fleet in sync, of any size, together admit exactly cc times pods under the same exact condition; with fewer pods than activators they admit n times what one pod takes |
| `ThrottlerSpec.FleetBehindAClusterIP` | modified-knative-file/throttler.go:263-270 | activators in sync behind a cluster IP, after arbitrary histories, admit together at most max(cc*backends, n), lose less than n to rounding, and admit exactly cc*backends if and only if n divides it and the share is not clamped |
| `Throttler.FirstAvailable` | modified-knative-file/lb_policy.go:85-92 | takes a slot of the breaker of the first tracker that has one free and of no other breaker; none if and only if all are full |
| `Throttler.RevisionThrottler.AcquireDest` | modified-knative-file/throttler.go:213-226 | behind a cluster IP that tracker and no slot; otherwise a slot of the first assigned tracker that has one free, and of no other tracker ever made, since no two share a breaker; the object invariant is kept |
| `Throttler.SortByDest` | modified-knative-file/throttler.go:315-318 | the same tracker objects, in the order of the sorted listing of their addresses |
| `Throttler.RevisionThrottler.constructor` | modified-knative-file/throttler.go:198-206 | a new throttler is in the start state: index -1, no activators, no capacity, no tracker ever created, nothing held |
| `Throttler.RevisionThrottler.ResetTrackers` | modified-knative-file/throttler.go:286-294 | every pod breaker is back at the container concurrency |
| `Throttler.RevisionThrottler.AssignTrackers` | modified-knative-file/throttler.go:304-330 | the trackers are sorted and the assigned ones are exactly this activator's slice of them |
| `Throttler.RevisionThrottler.UpdateCapacity` | modified-knative-file/throttler.go:300-338 | the new visible state is the specified function of the old one; the tracker objects are the same |
| `Throttler.RevisionThrottler.UpdateThrottlerState` | modified-knative-file/throttler.go:340-362 | likewise for new trackers and cluster IP, with zero backends if there is nothing to address |
| `Throttler.RevisionThrottler.HandleUpdate` | modified-knative-file/throttler.go:418-457 | the object invariant holds again; in direct mode there is exactly one tracker per destination, every retained destination keeps its tracker object, all others and their breakers are new, and no weight changes |
| `Throttler.RevisionThrottler.HandlePubEpsUpdate` | modified-knative-file/throttler.go:631-658 | the object invariant holds again and the state is the specified one; no tracker comes or goes |
| `Throttler.RevisionThrottler.SemaphoresAgree` | modified-knative-file/throttler.go:284-338 | in direct mode the revision-wide capacity equals the sum of the capacities of the assigned trackers' breakers, cut off at the largest breaker capacity |
| `Throttler.RevisionThrottler.AdmittedFindsATracker` | modified-knative-file/throttler.go:228-253 | if the assigned pods serve fewer requests than the revision-wide capacity, one of them has a free slot |
| `Throttler.ChooseOfTwo` | modified-knative-file/lb_policy.go:46-81 | the pick is one of the two contestants and not the heavier |
| `Throttler.RevisionThrottler.PickOfTwo` | modified-knative-file/lb_policy.go:79-80 | the picked tracker gains one holder; for every tracker ever made the weight still equals the requests that hold it |
| `Throttler.RevisionThrottler.Finish` | modified-knative-file/throttler.go:69 | a finished request takes one from the weight of the tracker it held, which may have left the throttler; no weight becomes negative |
| `Throttler.Perform` | modified-knative-file/lb_policy.go:46-81 | one update, pick or callback on any throttler: the visible state and the requests that hold each tracker become what they should, the object invariant is kept, and what is new is fresh |
| `Throttler.Play` | modified-knative-file/throttler.go:64-90 | every run from a new throttler that mixes whole updates, picks by `randomChoice2Policy` and their callbacks ends in the visible state of the updates alone; a request gets a tracker exactly when there are targets and no cluster IP; and every tracker ever created has as its weight the number of requests that hold it, never negative |
| `Throttler.TellsIsExplained` | modified-knative-file/throttler.go:64-90 | the log kept step by step says for every point of the run what that step did, in terms of the run of the updates before it and the trackers held then |
| `Admission.InvAlways` | modified-knative-file/throttler.go:228-253 | in every execution, with updates to pods and to a cluster IP in any order, both semaphores count exactly the requests that hold their slots, no pod serves more than cc, and a request admitted since the last update keeps the outer count within the capacity |
| `Admission.UpdateIsAThrottlerUpdate` | modified-knative-file/throttler.go:300-338 | the update event of the admission model sets the capacity that the throttler model computes in direct mode |
| `Admission.ClusterIPUpdateIsAThrottlerUpdate` | modified-knative-file/throttler.go:300-338 | likewise behind a cluster IP |
| `Admission.RequestsGoTheirWay` | modified-knative-file/throttler.go:213-253 | in every execution a request passes from the queue, when an outer slot is free, to the cluster IP, the first pod with a free slot, or none, and then out or, from none, back into the queue; nothing else moves it |
| `Admission.OnlyTheQueueHoldsUp` | modified-knative-file/throttler.go:228-253 | a request that is not done can take a step if and only if it is not queued in front of a full outer semaphore |
| `Admission.RoomWithinCapacity` | modified-knative-file/throttler.go:213-253 | while the outer semaphore is within its capacity every admitted request finds a tracker with a free slot, or the cluster IP |
| `Admission.AdmittedFindsATracker` | modified-knative-file/throttler.go:213-253 | in particular a request admitted since the last update does |
| `Admission.ReenqueueMeansCapacityWasLowered` | modified-knative-file/throttler.go:231-243 | a request is put back into the queue only if an update, of either mode, lowered the capacity during the same admission |
| `Admission.StarvesExactly` | modified-knative-file/throttler.go:231-243 | in every reachable state an admitted request can come to find all current pods full, without a further update, if and only if there is no cluster IP and the admitted requests and those on current pods exceed cc times the pods |
| `Admission.AnUpdateInBetweenCanStarve` | modified-knative-file/throttler.go:231-243 | an execution in which that happens, with an empty target list |
| `Admission.SlotsAreReturned` | modified-knative-file/throttler.go:237-248 | when no request is under way, both semaphores are at zero, on pods that have left as well |
| `InfiniteBreaker.Breaker.UpdateConcurrency` | modified-knative-file/throttler.go:740-757 | the capacity becomes 0 for 0 and 1 for anything else, and the channel follows; no channel is closed twice, a replaced channel is closed, and capacity closes the channel callers wait on |
| `InfiniteBreaker.InvAlways` | modified-knative-file/throttler.go:740-783 | in every execution the locks exclude each other, superseded channels are closed, and capacity and current channel agree except inside one update |
| `InfiniteBreaker.CapacityIsTheChannel` | modified-knative-file/throttler.go:703-714 | outside the write lock the capacity is 1 exactly when the current channel is closed, and all older channels are closed |
| `InfiniteBreaker.NoDoubleClose` | modified-knative-file/throttler.go:749-755 | an update that is about to close the channel finds it open |
| `InfiniteBreaker.StuckMeansNoCapacity` | modified-knative-file/throttler.go:768-783 | a caller that cannot go on waits on the current channel, and there is no capacity unless an update is about to close it |
| `InfiniteBreaker.NoLostWakeup` | modified-knative-file/throttler.go:760-783 | a caller that waits while there is capacity can go on from then on, for as long as it waits, even if the capacity goes away again |
| `InfiniteBreaker.RunsExactlyWhenLetThrough` | modified-knative-file/throttler.go:760-783 | a step lets a caller run if and only if it finds capacity when it asks, or the channel it waits on is closed; without capacity it goes on to wait |
| `InfiniteBreaker.CallersGoTheirWay` | modified-knative-file/throttler.go:760-783 | a caller asks, takes the read lock, the current channel, gives the lock back and waits, and is let through, gives up or is left alone at each step |
| `InfiniteBreaker.NoDeadlock` | modified-knative-file/throttler.go:740-783 | in every reachable state in which some goroutine is neither through nor waiting on its channel, somebody can go on |
| `InfiniteBreaker.RanWasLetThrough` | modified-knative-file/throttler.go:760-783 | whoever has run was let through in that way once |
| `InfiniteBreaker.UpdateTakesEffect` | modified-knative-file/throttler.go:733-757 | an update with cc holds the capacity at 0 if cc is 0 and at 1 otherwise from its swap until it gives the lock back, and leaves the channel to match, whatever the others do |
| `LoadBalancing.DrawsAreOrderedPairs` | modified-knative-file/lb_policy.go:55-66 | drawing and shifting reaches every ordered pair of distinct indices and no other, each from one pair of draws, in the order of the draws |
| `LoadBalancing.PureRoundRobin.Pick` | modified-knative-file/lb_policy.go:100-112 | picks at the index, reset if the list has shrunk, and moves on by one |
| `LoadBalancing.PicksInTurn` | modified-knative-file/lb_policy.go:95-113 | any number of calls take the targets in turn from the index on, and from the first one if the list has shrunk below the index |
| `LoadBalancing.PureRoundRobinIsFair` | modified-knative-file/lb_policy.go:95-113 | any l calls in a row pick each of l targets exactly once, from any index |
| `LoadBalancing.RoundRobin.Pick` | modified-knative-file/lb_policy.go:121-139 | finds a target exactly when some probe says idle, and then the one probed first with that answer, counting round from the index |
| `LoadBalancing.FirstIdleFinishes` | modified-knative-file/lb_policy.go:121-139 | a call that finds its first idle answer at n is a finished call in the sense of the next row, and picks the n-th target from the index on |
| `LoadBalancing.IdleTargetIsPickedWithinACircle` | modified-knative-file/lb_policy.go:116-141 | a target that is idle whenever asked is picked within l calls, however the answers for the others change |
| `Groups.GetGroupIndex` | modified-knative-file/real_world_support.go:186-193 | returns the first group whose edge lies above, -1 if there is none |
| `Groups.GroupsAreIntervals` | modified-knative-file/real_world_support.go:186-193 | the groups are consecutive half-open intervals; from 30000 on there is no group |
| `Groups.GroupsByRate` | modified-knative-file/real_world_support.go:186-193 | the group of every rate, with the edges in numbers |
| `Groups.PreemptsExactly` | modified-knative-file/queue.go:169-173 | a job preempts if and only if its rate is below 12 or at least 30000; otherwise the argument of the logarithm is at least 7.5 |
| `Groups.WaitIsRight` | modified-knative-file/queue.go:181-183 | the waiting time of every queued job to the millisecond, multiplied out: t*D <= 200*ln(10*D/1000)*m < (t+1)*D below the cap of 4000, with D = rate - 12 + 750 and m the table value for the rate |
| `Groups.WaitIsBounded` | modified-knative-file/queue.go:181-183 | every queued job waits 0 to 4000 ms |
| `Accounting.RequestStatic.AddReqToRS` | modified-knative-file/shared.go:97-119 | only the entry of this pod changes, by one job of the group of the rate; nothing is counted without a group |
| `Accounting.RequestStatic.DelReqFromRS` | modified-knative-file/shared.go:122-141 | only the entry of this pod changes, and only if it has a job of that group |
| `Accounting.CountersAreExact` | modified-knative-file/shared.go:97-141 | after every history of harmless reports (those about a job in flight, or no group, or a group with no job there), all counts and the rate sum of each pod are those of the jobs in flight on it |
| `Accounting.DeletedIsExact` | modified-knative-file/shared.go:122-141 | a report keeps a right entry right if and only if it is harmless |
| `Accounting.CountersStayExactExactly` | modified-knative-file/shared.go:97-141 | the entries of all pods are right after every step of a history if and only if every report in it is harmless |
| `Accounting.MatchedIsHarmless` | modified-knative-file/shared.go:122-141 | histories in which each report matches a job in flight on that pod are such histories |
| `Accounting.BusyMeansWeighingJob` | modified-knative-file/shared.go:166-169 | for rates of 0 and more, a pod is reported busy if and only if a job with a rate from 1 to 29999 is in flight on it |
| `Accounting.BusyMeansAJob` | modified-knative-file/shared.go:166-169 | for rates of 1 and more, busy, a positive job count and a counted job in flight are the same |
| `Accounting.ChoiceIsIdle` | modified-knative-file/shared.go:171-183 | the idle pod named is the first of the two without such a job; none if both have one |
| `Accounting.SimpleRandomChoice2` | modified-knative-file/lb_policy.go:148-169 | computes the specified choice for the two draws; `LessWorkIsPicked` says what it means |
| `Accounting.HostOfDest` | modified-knative-file/lb_policy.go:164 | the host of a destination is what precedes its first colon, or all of it |
| `Accounting.LessWorkIsPicked` | modified-knative-file/lb_policy.go:148-169 | the policy end to end: after a history of harmless reports, of the two targets drawn the one on whose host less rate is outstanding, the first on a tie |
| `Accounting.LighterPodIsChosen` | modified-knative-file/shared.go:144-153 | after a history of harmless reports the pod chosen has no more outstanding rate than the other |
| `Accounting.JobsAreTheSumOfGroups` | modified-knative-file/shared.go:113-140 | after every history, matched or not, the job number is the sum of the group counts and none is negative |
| `Accounting.MisreportShiftsTheRateSum` | modified-knative-file/shared.go:133-140 | if, after any history of harmless reports, a job in flight is reported with another rate of its group, then after every continuation that would have been harmless the group counts and job number are right and the rate sum is off by the difference |
| `Accounting.UnmatchedReportLeavesAPodBusy` | modified-knative-file/shared.go:133-140 | if the rate reported is smaller, the pod is busy after every such continuation, for rates that are not negative |
| `Accounting.WrongReportsCanCancelOut` | modified-knative-file/shared.go:133-140 | a history with wrong reports that ends with an idle pod |
| `QueueSpec.ArrivalsAreDecided` | modified-knative-file/queue.go:147-186 | in numbers: a request is turned away from a queue of 40000, served at once for a rate below 12 or at least 30000, and otherwise put at the back with the waiting time of its rate |
| `QueueSpec.ArrivalsAreDecided12` | modified-knative-file/queue.go:101-129 | likewise for experiments 1 and 2, where a rate below that of the front is served at once |
| `QueueSpec.FrontStaysLeast` | modified-knative-file/queue.go:101-145 | while only the back is taken, the front has the least rate, and the queue keeps its bound |
| `QueueSpec.FrontTestIsExact` | modified-knative-file/queue.go:115-125 | comparing with the front means "below everything queued" for every rate if and only if the front is the least |
| `QueueSpec.PreemptsExactlyBelowAll` | modified-knative-file/queue.go:101-145 | experiment 1, every run: a request preempts if and only if its rate is below every queued rate |
| `QueueSpec.TakingKeepsFrontLeast` | modified-knative-file/queue.go:198-209 | taking out a request keeps the front least if and only if it is not the front, or the next is least |
| `QueueSpec.FrontTestStaysRightExactly` | modified-knative-file/queue.go:101-129 | the test against the front is right at every point of a run of experiment 2 with room in the queue if and only if the front is only ever taken with the next one least |
| `QueueSpec.Experiment2CanOvertakeASmallerJob` | modified-knative-file/queue.go:101-129 | a run of experiment 2, with the fixed waiting time and timers that deliver on time, in which a request preempts while a smaller one is queued |
| `RequestQueue.Queue.PushBack` | modified-knative-file/queue.go:184 | the ring stays well linked and the contents grow by the unit at the back |
| `RequestQueue.Queue.Remove` | modified-knative-file/queue.go:204 | the ring stays well linked and exactly this element is gone |
| `RequestQueue.Queue.AddReq` | modified-knative-file/queue.go:147-186 | turned away, served at once or queued in the cases given in numbers, with the contents and the recorded maximum length that go with it; nodes already in the list stay where they are |
| `RequestQueue.Queue.AddReq12` | modified-knative-file/queue.go:101-129 | likewise with the comparison against the front |
| `RequestQueue.Queue.TakeBack` | modified-knative-file/queue.go:137-140 | takes the last unit, and it alone, off the queue |
| `RequestQueue.Queue.Inspect` | modified-knative-file/queue.go:199-209 | unlinks the node if its timer has delivered, and returns the node in front of it, which is in the list |
| `RequestQueue.Queue.Sweep` | modified-knative-file/queue.go:195-210 | the walk, with arbitrary arrivals between its critical sections: never leaves the list, ends, serves exactly the expired units from back to front, and leaves the specified queue |
| `RequestQueue.SweepKeepsOrder` | modified-knative-file/queue.go:195-210 | that queue is the surviving old units in order followed by the arrivals in order |
| `RequestQueue.SweepConserves` | modified-knative-file/queue.go:195-210 | served and surviving units together are the old units, none lost and none twice |
| `RequestQueue.ServedExactly` | modified-knative-file/queue.go:195-210 | a walk serves exactly the units whose timers have delivered when it comes to them, the last unit first |
| `RequestQueue.ExpiredAreGone` | modified-knative-file/queue.go:202-206 | no unit that had expired when the walk began survives it |
| `QueueMachine.StepKeepsInv` | modified-knative-file/queue.go:147-212 | every critical section, clock tick and timer keeps: each submitted unit in exactly one of rejected, queued, dispatched, and dispatched at most once; arrival order; at most 40000 units and at most one more than the recorded maximum; no dispatch before the timer; a valid cursor; an unnotified parked manager has an empty queue |
| `QueueMachine.InvAlways` | modified-knative-file/queue.go:147-212 | all of that in every reachable state of every interleaving |
| `QueueMachine.ArrivalsAreDecided` | modified-knative-file/queue.go:147-186 | in every execution a new unit ends up rejected, dispatched at once or at the back of the queue as the numbers say; the maximum length is recorded and a parked manager notified |
| `QueueMachine.LooksAreDecided` | modified-knative-file/queue.go:195-210 | every look of the manager is at a queued unit; if its timer has delivered, that unit is taken out and dispatched at that moment, else nothing moves; and the walk goes on to the unit before |
| `QueueMachine.UnitsAreTimed` | modified-knative-file/queue.go:165-184 | in every reachable state every unit that is queued, or was dispatched from the queue, has the waiting time of its rate, and all others were served on arrival for their rate |
| `QueueMachine.QueuedCanBeServed` | modified-knative-file/queue.go:188-212 | from every reachable state every queued unit can still be dispatched, by time passing, its timer delivering and the manager walking on |
| `QueueMachine.ManagerIsNeverStuckWithWork` | modified-knative-file/queue.go:182-210 | while anything is queued the manager can step, so no signal is lost; and the node it looks at next is in the list |
| `QueueMachine.SweepUnderInterference` | modified-knative-file/queue.go:195-210 | after n looks of a sweep the next look is at the n-th last unit of the queue at its start, the queue is the old units not looked at, the surviving ones and the arrivals in order, and what had expired at the start and was looked at is gone |
| `QueueMachine.FinishedSweep` | modified-knative-file/queue.go:195-210 | a sweep ends after exactly as many looks as there were units at its start, however many arrive, with no unit left that had expired at its start |
| `DoneChannel.ClosedBy` | modified-knative-file/queue.go:214-228 | in every timed run a return within 300 s of the dispatch closes the channel once, a rejection and a handler giving up do, and nothing else does |
| `DoneChannel.ClockedAlways` | modified-knative-file/handler.go:250-258 | service is timed from the dispatch and waiting from its beginning; a handler never waits longer than 320 s and gives up no earlier |
| `DoneChannel.ServedInTimeWakes` | modified-knative-file/queue.go:217-226 | after a return in time a waiting handler can wake, and can neither give up nor let time pass |
| `DoneChannel.WaitingEnds` | modified-knative-file/handler.go:250-258 | a waiting handler is never stuck: it wakes exactly when the channel is closed, gives up exactly when 320 s are over, and until then time can pass |
| `DoneChannel.RequestGoesOn` | modified-knative-file/queue.go:147-228 | the request is never stuck either: accepted or rejected, dispatched within the delay, and free to return |
| `DoneChannel.ClosedExactlyOnce` | modified-knative-file/handler.go:247-258 | if dispatch comes within 20 s of the handler starting to wait, no timed run closes the channel twice, and it is closed once the handler is through |
| `DoneChannel.LateDispatchClosesTwice` | modified-knative-file/queue.go:214-228 | for every larger bound, a run in which the handler gives up and the server closes again |
| `DoneChannel.DispatchBoundIsExact` | modified-knative-file/handler.go:247-258 | no run closes twice if and only if the bound is at most 20 s |
| `Cdf.BinarySearch` | slb-simplified/real-world/utils.py:16-33 | the loop ends in bounds and computes the specified search |
| `Cdf.MiddleHalves` | slb-simplified/real-world/utils.py:25 | the probe leaves as many indices above as below it, or one more above |
| `Cdf.SearchIsRight` | slb-simplified/real-world/utils.py:16-33 | the search returns an index at which a nondecreasing table reaches the target and before which it does not exceed it, in spite of the wrapped test at 0; the last index if the target is above all |
| `Cdf.WrappedTestNeverMatters` | slb-simplified/real-world/utils.py:24-31 | whenever the search looks at index 0 and does not go right, it returns 0, in any table and whatever the wrapped read gives |
| `Cdf.Scan` | modified-knative-file/real_world_support.go:113-122 | the first index at which the table reaches the draw, -1 if none |
| `Cdf.AgreesOffTheEntries` | slb-simplified/real-world/utils.py:16-33 | search and scan agree on every target that is not an entry |
| `Cdf.AgreesEverywhereExactlyOnShortTables` | slb-simplified/real-world/utils.py:24-31 | they agree on all targets if and only if the table has at most two entries |
| `Cdf.SearchMeets` | slb-simplified/real-world/utils.py:24-31 | within any index range the search ends at the first index that reaches the target if and only if halving the range meets it before the others the search accepts, repeated entries and the wrapped test included |
| `Cdf.AgreesExactly` | slb-simplified/real-world/utils.py:24-31 | for every nondecreasing table and every target it reaches, search and scan agree if and only if that holds of the whole range |
| `Cdf.OnlyChoice` | slb-simplified/real-world/utils.py:24-31 | the index of the scan is the only one the search accepts if and only if the target is no entry |

## Left out

- HTTP proxying, headers, tracing, TLS, informers, YAML, benchmark logs, load generators and the ALU burn loops: input and output or fixed data.
- The semaphore inside a breaker of the queue package is not part of this model; it is abstracted as said above. The same holds for the semantics of mutexes, channels, timers and condition variables of Go, which the events encode.
- Integer widths: weights, counts, indices and `ratesum` are unbounded here. The source wraps weights and indices at 32 bits and the others at 64.
- The container concurrency is taken to be nonnegative, as the platform validates it; `CalculateCapacity` itself is defined for all integers.
- States in the middle of an update, between the two lock sections of `updateThrottlerState`, are not described; the invariants hold between whole updates.
- Sharing of one backing array by `podTrackers` and `assignedTrackers`: both are sequences here, so the in-place sort is an assignment.
- Throttler.RevisionThrottler.AdmittedFindsATracker: speaks about `firstAvailableLBPolicy`, which the source keeps but does not install; the installed policy reserves no inner slot.
- Throttler.RevisionThrottler.AcquireDest: likewise; `simpleRandomChoice2Policy`, which the source calls there, is `Accounting.SimpleRandomChoice2` and takes no slot.
- `ManageQueueEarly`, `ManageQueueLate` and `AddReq0`: first in, first out, easy beside the others. `lateRandomChoice2Policy` spins on `ChooseIdlePod`, whose answer is described.
- The branch of the handler for the ALU service, whose 120 s limit is below the 300 s of the server, and `GenRate`.
- `GetRandIAT`, `GetRandZipf`, `GetRandPowerLaw`: distributions of random draws.
- DoneChannel.ClosedExactlyOnce: assumes that timers deliver on time and that a parked `select` is decided by its first event.
- Rounding of floating-point values, in the waiting time and in the tables.
