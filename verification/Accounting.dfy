/** What the activator believes about the pods: for every pod how many jobs of each
    group are on it and the sum of their rates. It is kept up to date one job at a
    time and read by the load-balancing policies. */
module Accounting {
  import opened Groups
  import LoadBalancing

  datatype PodInfo = PodInfo(reqs: seq<int>, ratesum: int, jobnum: int)

  const ZERO: PodInfo := PodInfo([0, 0, 0, 0, 0, 0, 0, 0, 0, 0], 0, 0)

  type Data = map<string, PodInfo>

  /** Reading an absent key of a map gives the zero value. */
  function Info(data: Data, podip: string): PodInfo {
    if podip in data then data[podip] else ZERO
  }

  ghost predicate WellFormed(data: Data) {
    forall podip :: podip in data ==> |data[podip].reqs| == 10
  }

  function Added(info: PodInfo, rate: int): PodInfo
    requires |info.reqs| == 10
  {
    var index := GroupOf(rate);
    GroupFromIs(rate, 0);
    if index == -1 then info
    else PodInfo(info.reqs[index := info.reqs[index] + 1], info.ratesum + rate, info.jobnum + 1)
  }

  function Deleted(info: PodInfo, rate: int): PodInfo
    requires |info.reqs| == 10
  {
    var index := GroupOf(rate);
    GroupFromIs(rate, 0);
    if index == -1 then info
    else if info.reqs[index] > 0 then PodInfo(info.reqs[index := info.reqs[index] - 1], info.ratesum - rate, info.jobnum - 1)
    else info
  }

  class RequestStatic {
    var data: Data

    constructor ()
      ensures data == map[]
    {
      data := map[];
    }

    /** A job with this rate has been sent to the pod. */
    method AddReqToRS(podip: string, rate: int)
      requires WellFormed(data)
      modifies this
      ensures data == old(data)[podip := Added(Info(old(data), podip), rate)] && WellFormed(data)
    {
      if podip !in data {
        data := data[podip := ZERO];
      }
      var index := GetGroupIndex(rate);
      if index == -1 {
        assert data == old(data)[podip := Info(old(data), podip)];
        return;
      }
      GroupFromIs(rate, 0);
      var podInfo := data[podip];
      podInfo := podInfo.(reqs := podInfo.reqs[index := podInfo.reqs[index] + 1]);
      podInfo := podInfo.(ratesum := podInfo.ratesum + rate);
      podInfo := podInfo.(jobnum := podInfo.jobnum + 1);
      data := data[podip := podInfo];
    }

    /** The pod has reported the end of a job with this rate. */
    method DelReqFromRS(podip: string, rate: int)
      requires WellFormed(data)
      modifies this
      ensures data == (if podip in old(data) then old(data)[podip := Deleted(old(data)[podip], rate)] else old(data))
      ensures WellFormed(data)
    {
      if podip !in data {
        return;
      }
      var index := GetGroupIndex(rate);
      if index == -1 {
        assert data == data[podip := data[podip]];
        return;
      }
      GroupFromIs(rate, 0);
      var podInfo := data[podip];
      if podInfo.reqs[index] > 0 {
        podInfo := podInfo.(reqs := podInfo.reqs[index := podInfo.reqs[index] - 1]);
        podInfo := podInfo.(ratesum := podInfo.ratesum - rate);
        podInfo := podInfo.(jobnum := podInfo.jobnum - 1);
      }
      data := data[podip := podInfo];
    }
  }

  function ChoosePodByRate(data: Data, podip1: string, podip2: string): string {
    if Info(data, podip1).ratesum > Info(data, podip2).ratesum then podip2 else podip1
  }

  predicate CheckPodBusy(data: Data, podip: string) {
    Info(data, podip).ratesum != 0
  }

  function ChooseIdlePod(data: Data, podip1: string, podip2: string): string {
    if Info(data, podip1).ratesum == 0 then podip1
    else if Info(data, podip2).ratesum == 0 then podip2
    else ""
  }

  datatype Op = Add(podip: string, rate: int) | Del(podip: string, rate: int)

  function Apply(data: Data, op: Op): (data': Data)
    requires WellFormed(data)
    ensures WellFormed(data')
  {
    match op
    case Add(podip, rate) => data[podip := Added(Info(data, podip), rate)]
    case Del(podip, rate) => if podip in data then data[podip := Deleted(data[podip], rate)] else data
  }

  /** The data after a history of operations. */
  ghost function Run(ops: seq<Op>): (data: Data)
    ensures WellFormed(data)
  {
    if ops == [] then map[] else Apply(Run(ops[..|ops| - 1]), ops[|ops| - 1])
  }

  /** On a pod that is not in the map a report changes nothing, as on an empty entry. */
  lemma AppliedToEntry(data: Data, op: Op, podip: string)
    requires WellFormed(data)
    ensures Info(Apply(data, op), podip)
            == if op.podip != podip then Info(data, podip)
               else if op.Add? then Added(Info(data, podip), op.rate) else Deleted(Info(data, podip), op.rate)
  {
    GroupFromIs(op.rate, 0);
  }

  lemma RunStep(ops: seq<Op>, op: Op)
    ensures Run(ops + [op]) == Apply(Run(ops), op)
  {
    assert (ops + [op])[..|ops|] == ops;
  }

  ghost function RemoveOne(jobs: seq<int>, rate: int): seq<int> {
    if jobs == [] then [] else if jobs[0] == rate then jobs[1..] else [jobs[0]] + RemoveOne(jobs[1..], rate)
  }

  /** The rates of the jobs that were sent to the pod and have not been reported. */
  ghost function InFlight(ops: seq<Op>, podip: string): seq<int> {
    if ops == [] then []
    else
      var before, op := InFlight(ops[..|ops| - 1], podip), ops[|ops| - 1];
      if op.podip != podip then before
      else if op.Add? then before + [op.rate]
      else RemoveOne(before, op.rate)
  }

  /** Every report is about a job that is in flight on that pod. */
  ghost predicate Matched(ops: seq<Op>) {
    ops == [] || (
      && Matched(ops[..|ops| - 1])
      && (ops[|ops| - 1].Del? ==> ops[|ops| - 1].rate in InFlight(ops[..|ops| - 1], ops[|ops| - 1].podip)))
  }

  /** A report that leaves the entry right when `jobs` are in flight: it is about one
      of them, or about no group, or about a group none of them has. */
  ghost predicate Harmless(jobs: seq<int>, rate: int) {
    rate in jobs || GroupOf(rate) == -1 || GroupCount(jobs, GroupOf(rate)) == 0
  }

  ghost predicate HarmlessReports(ops: seq<Op>) {
    ops == [] || (
      && HarmlessReports(ops[..|ops| - 1])
      && (ops[|ops| - 1].Del? ==> Harmless(InFlight(ops[..|ops| - 1], ops[|ops| - 1].podip), ops[|ops| - 1].rate)))
  }

  lemma {:induction false} MatchedIsHarmless(ops: seq<Op>)
    requires Matched(ops)
    ensures HarmlessReports(ops)
  {
    if ops != [] {
      MatchedIsHarmless(ops[..|ops| - 1]);
    }
  }

  /** Jobs of group `g`. */
  ghost function GroupCount(jobs: seq<int>, g: int): int {
    if jobs == [] then 0 else GroupCount(jobs[1..], g) + (if GroupOf(jobs[0]) == g then 1 else 0)
  }

  /** Jobs that have a group, and the sum of their rates. */
  ghost function Counted(jobs: seq<int>): int {
    if jobs == [] then 0 else Counted(jobs[1..]) + (if GroupOf(jobs[0]) != -1 then 1 else 0)
  }

  ghost function RateSum(jobs: seq<int>): int {
    if jobs == [] then 0 else RateSum(jobs[1..]) + (if GroupOf(jobs[0]) != -1 then jobs[0] else 0)
  }

  lemma {:induction false} AfterAppend(jobs: seq<int>, rate: int)
    ensures forall g :: GroupCount(jobs + [rate], g) == GroupCount(jobs, g) + (if GroupOf(rate) == g then 1 else 0)
    ensures Counted(jobs + [rate]) == Counted(jobs) + (if GroupOf(rate) != -1 then 1 else 0)
    ensures RateSum(jobs + [rate]) == RateSum(jobs) + (if GroupOf(rate) != -1 then rate else 0)
  {
    if jobs != [] {
      AfterAppend(jobs[1..], rate);
      assert (jobs + [rate])[1..] == jobs[1..] + [rate];
    }
  }

  lemma {:induction false} AfterRemove(jobs: seq<int>, rate: int)
    requires rate in jobs
    ensures forall g :: GroupCount(RemoveOne(jobs, rate), g) == GroupCount(jobs, g) - (if GroupOf(rate) == g then 1 else 0)
    ensures Counted(RemoveOne(jobs, rate)) == Counted(jobs) - (if GroupOf(rate) != -1 then 1 else 0)
    ensures RateSum(RemoveOne(jobs, rate)) == RateSum(jobs) - (if GroupOf(rate) != -1 then rate else 0)
    ensures multiset(RemoveOne(jobs, rate)) == multiset(jobs) - multiset{rate}
  {
    assert jobs == [jobs[0]] + jobs[1..];
    if jobs[0] != rate {
      AfterRemove(jobs[1..], rate);
      assert RemoveOne(jobs, rate)[1..] == RemoveOne(jobs[1..], rate);
    }
  }

  lemma {:induction false} CountsAreNatural(jobs: seq<int>, rate: int)
    ensures forall g :: GroupCount(jobs, g) >= 0
    ensures rate in jobs ==> GroupCount(jobs, GroupOf(rate)) > 0
  {
    if jobs != [] {
      CountsAreNatural(jobs[1..], rate);
    }
  }

  /** The entry of a pod says what is in flight on it. */
  ghost predicate Exact(info: PodInfo, jobs: seq<int>) {
    && |info.reqs| == 10
    && (forall g :: 0 <= g < 10 ==> info.reqs[g] == GroupCount(jobs, g))
    && info.jobnum == Counted(jobs)
    && info.ratesum == RateSum(jobs)
  }

  lemma AddedIsExact(info: PodInfo, jobs: seq<int>, rate: int)
    requires Exact(info, jobs)
    ensures Exact(Added(info, rate), jobs + [rate])
  {
    AfterAppend(jobs, rate);
    GroupFromIs(rate, 0);
  }

  lemma {:induction false} RemoveNothing(jobs: seq<int>, rate: int)
    requires rate !in jobs
    ensures RemoveOne(jobs, rate) == jobs
  {
    if jobs != [] {
      RemoveNothing(jobs[1..], rate);
      assert jobs == [jobs[0]] + jobs[1..];
    }
  }

  /** A report leaves the entry right exactly when it is harmless. */
  lemma DeletedIsExact(info: PodInfo, jobs: seq<int>, rate: int)
    requires Exact(info, jobs)
    ensures Exact(Deleted(info, rate), RemoveOne(jobs, rate)) <==> Harmless(jobs, rate)
  {
    CountsAreNatural(jobs, rate);
    GroupFromIs(rate, 0);
    if rate in jobs {
      AfterRemove(jobs, rate);
    } else {
      RemoveNothing(jobs, rate);
      assert !Harmless(jobs, rate) ==> Deleted(info, rate).jobnum != info.jobnum;
    }
  }

  /** The incremental counters equal the counts and the rate sum of the jobs in
      flight after every history of harmless reports, in particular after every
      matched one. */
  lemma {:induction false} CountersAreExact(ops: seq<Op>, podip: string)
    requires HarmlessReports(ops)
    ensures Exact(Info(Run(ops), podip), InFlight(ops, podip))
  {
    if ops != [] {
      var before, op := ops[..|ops| - 1], ops[|ops| - 1];
      CountersAreExact(before, podip);
      if op.podip == podip {
        if op.Add? {
          AddedIsExact(Info(Run(before), podip), InFlight(before, podip), op.rate);
        } else {
          AppliedToEntry(Run(before), op, podip);
          DeletedIsExact(Info(Run(before), podip), InFlight(before, podip), op.rate);
        }
      }
    }
  }

  /** All entries are right after each step of the history. */
  ghost predicate AlwaysExact(ops: seq<Op>) {
    forall n, podip :: 0 <= n <= |ops| ==> Exact(Info(Run(ops[..n]), podip), InFlight(ops[..n], podip))
  }

  lemma {:induction false} PrefixIsHarmless(ops: seq<Op>, n: nat)
    requires HarmlessReports(ops) && n <= |ops|
    ensures HarmlessReports(ops[..n])
    decreases |ops|
  {
    if n < |ops| {
      PrefixIsHarmless(ops[..|ops| - 1], n);
      assert ops[..|ops| - 1][..n] == ops[..n];
    } else {
      assert ops[..n] == ops;
    }
  }

  lemma {:induction false} AlwaysExactIsHarmless(ops: seq<Op>)
    requires AlwaysExact(ops)
    ensures HarmlessReports(ops)
  {
    if ops != [] {
      var before, op := ops[..|ops| - 1], ops[|ops| - 1];
      assert forall n :: 0 <= n <= |before| ==> before[..n] == ops[..n];
      AlwaysExactIsHarmless(before);
      if op.Del? {
        assert ops[..|ops|] == ops;
        assert Exact(Info(Run(ops), op.podip), InFlight(ops, op.podip));
        assert Exact(Info(Run(before), op.podip), InFlight(before, op.podip));
        AppliedToEntry(Run(before), op, op.podip);
        DeletedIsExact(Info(Run(before), op.podip), InFlight(before, op.podip), op.rate);
      }
    }
  }

  /** The counters are right for every pod all along a history exactly when every
      report in it is harmless. */
  lemma CountersStayExactExactly(ops: seq<Op>)
    ensures AlwaysExact(ops) <==> HarmlessReports(ops)
  {
    if AlwaysExact(ops) {
      AlwaysExactIsHarmless(ops);
    } else if HarmlessReports(ops) {
      forall n, podip | 0 <= n <= |ops| ensures Exact(Info(Run(ops[..n]), podip), InFlight(ops[..n], podip)) {
        PrefixIsHarmless(ops, n);
        CountersAreExact(ops[..n], podip);
      }
    }
  }

  ghost predicate NonNegative(jobs: seq<int>) {
    forall k :: 0 <= k < |jobs| ==> jobs[k] >= 0
  }

  /** One of the jobs has a rate from 1 to 29999. Jobs of 30000 and more are not
      counted, and a job of rate 0 weighs nothing. */
  ghost predicate HasWeighingJob(jobs: seq<int>) {
    exists k :: 0 <= k < |jobs| && 0 < jobs[k] < 30000
  }

  lemma {:induction false} RateSumOfNaturals(jobs: seq<int>)
    requires NonNegative(jobs)
    ensures RateSum(jobs) >= 0
    ensures RateSum(jobs) != 0 <==> HasWeighingJob(jobs)
  {
    if jobs != [] {
      RateSumOfNaturals(jobs[1..]);
      GroupFromIs(jobs[0], 0);
      if HasWeighingJob(jobs[1..]) {
        var k :| 0 <= k < |jobs[1..]| && 0 < jobs[1..][k] < 30000;
        assert 0 < jobs[k + 1] < 30000;
      }
      if HasWeighingJob(jobs) && !(0 < jobs[0] < 30000) {
        var k :| 0 <= k < |jobs| && 0 < jobs[k] < 30000;
        assert 0 < jobs[1..][k - 1] < 30000;
      }
    }
  }

  /** A pod is reported busy exactly when a weighing job is in flight on it. */
  lemma BusyMeansWeighingJob(ops: seq<Op>, podip: string)
    requires HarmlessReports(ops) && NonNegative(InFlight(ops, podip))
    ensures CheckPodBusy(Run(ops), podip) <==> HasWeighingJob(InFlight(ops, podip))
  {
    CountersAreExact(ops, podip);
    RateSumOfNaturals(InFlight(ops, podip));
  }

  lemma {:induction false} WeighingJobsAreCounted(jobs: seq<int>)
    requires forall k :: 0 <= k < |jobs| ==> jobs[k] >= 1
    ensures Counted(jobs) >= 0
    ensures Counted(jobs) > 0 <==> RateSum(jobs) != 0
    ensures RateSum(jobs) >= Counted(jobs)
  {
    if jobs != [] {
      WeighingJobsAreCounted(jobs[1..]);
    }
  }

  /** With rates of 1 and more, as the generators draw them, "busy" and "has a counted
      job" are the same for the pod, in each of the three ways the entry says it. */
  lemma BusyMeansAJob(ops: seq<Op>, podip: string)
    requires HarmlessReports(ops) && forall k :: 0 <= k < |InFlight(ops, podip)| ==> InFlight(ops, podip)[k] >= 1
    ensures CheckPodBusy(Run(ops), podip) <==> Counted(InFlight(ops, podip)) > 0
    ensures CheckPodBusy(Run(ops), podip) <==> Info(Run(ops), podip).jobnum > 0
  {
    CountersAreExact(ops, podip);
    WeighingJobsAreCounted(InFlight(ops, podip));
  }

  /** The address part of a destination, in front of the port. */
  function HostOf(dest: string): string {
    if dest == "" || dest[0] == ':' then "" else [dest[0]] + HostOf(dest[1..])
  }

  /** What precedes the first colon, the whole destination if there is none. */
  lemma {:induction false} HostOfDest(host: string, port: string)
    requires ':' !in host
    ensures HostOf(host + ":" + port) == host && HostOf(host) == host
  {
    if host != "" {
      HostOfDest(host[1..], port);
      assert (host + ":" + port)[1..] == host[1..] + ":" + port;
      assert host == [host[0]] + host[1..];
    } else {
      assert host + ":" + port == ":" + port;
    }
  }

  function RandomChoice2(data: Data, targets: seq<string>, r1: nat, draw: nat): (pick: nat)
    requires targets != []
    requires |targets| > 1 ==> r1 < |targets| && draw < |targets| - 1
    ensures pick < |targets|
  {
    if |targets| == 1 then 0
    else
      var r2 := LoadBalancing.ShiftDraw(r1, draw);
      if Info(data, HostOf(targets[r2])).ratesum < Info(data, HostOf(targets[r1])).ratesum then r2 else r1
  }

  /** `simpleRandomChoice2Policy`, for two draws: of two different targets the one with
      the smaller rate sum, the first if they are equal. It has no answer for an empty
      list. */
  method SimpleRandomChoice2(data: Data, targets: seq<string>, r1: nat, draw: nat) returns (pick: nat)
    requires targets != []
    requires |targets| > 1 ==> r1 < |targets| && draw < |targets| - 1
    ensures pick == RandomChoice2(data, targets, r1, draw)
  {
    var l := |targets|;
    if l == 1 {
      return 0;
    }
    var r2 := draw;
    if r2 >= r1 {
      r2 := r2 + 1;
    }
    var pick1ip, pick2ip := HostOf(targets[r1]), HostOf(targets[r2]);
    if pick1ip == ChoosePodByRate(data, pick1ip, pick2ip) {
      return r1;
    } else {
      return r2;
    }
  }

  /** The policy end to end: after a history of harmless reports, of the two targets
      drawn the one on whose host less work is outstanding, the first if it is equal. */
  lemma LessWorkIsPicked(ops: seq<Op>, targets: seq<string>, r1: nat, draw: nat, hosts: seq<string>, ports: seq<string>)
    requires HarmlessReports(ops) && |hosts| == |ports| == |targets| > 1
    requires forall i :: 0 <= i < |targets| ==>
               ':' !in hosts[i] && (targets[i] == hosts[i] || targets[i] == hosts[i] + ":" + ports[i])
    requires r1 < |targets| && draw < |targets| - 1
    ensures var r2 := if draw < r1 then draw else draw + 1;
      RandomChoice2(Run(ops), targets, r1, draw)
      == if RateSum(InFlight(ops, hosts[r2])) < RateSum(InFlight(ops, hosts[r1])) then r2 else r1
  {
    var r2 := if draw < r1 then draw else draw + 1;
    HostOfDest(hosts[r1], ports[r1]);
    HostOfDest(hosts[r2], ports[r2]);
    CountersAreExact(ops, hosts[r1]);
    CountersAreExact(ops, hosts[r2]);
  }

  /** What the policy reads is the work outstanding: after a history of harmless
      reports the pod chosen by rate has no more of it than the other. */
  lemma LighterPodIsChosen(ops: seq<Op>, podip1: string, podip2: string)
    requires HarmlessReports(ops)
    ensures var pick := ChoosePodByRate(Run(ops), podip1, podip2);
      && RateSum(InFlight(ops, pick)) <= RateSum(InFlight(ops, podip1))
      && RateSum(InFlight(ops, pick)) <= RateSum(InFlight(ops, podip2))
  {
    CountersAreExact(ops, podip1);
    CountersAreExact(ops, podip2);
  }

  /** `ChooseIdlePod` names a pod exactly when one of the two is free of weighing
      jobs, and then names one that is, the first if both are. */
  lemma ChoiceIsIdle(ops: seq<Op>, podip1: string, podip2: string)
    requires HarmlessReports(ops) && NonNegative(InFlight(ops, podip1)) && NonNegative(InFlight(ops, podip2))
    ensures ChooseIdlePod(Run(ops), podip1, podip2)
            == if !HasWeighingJob(InFlight(ops, podip1)) then podip1
               else if !HasWeighingJob(InFlight(ops, podip2)) then podip2
               else ""
  {
    BusyMeansWeighingJob(ops, podip1);
    BusyMeansWeighingJob(ops, podip2);
  }

  ghost function Sum(s: seq<int>): int {
    if s == [] then 0 else s[0] + Sum(s[1..])
  }

  lemma {:induction false} SumAfterUpdate(s: seq<int>, i: nat, x: int)
    requires i < |s|
    ensures Sum(s[i := x]) == Sum(s) - s[i] + x
  {
    if i > 0 {
      SumAfterUpdate(s[1..], i - 1, x);
      assert s[i := x][1..] == s[1..][i - 1 := x];
    }
  }

  ghost predicate Tallied(info: PodInfo) {
    |info.reqs| == 10 && info.jobnum == Sum(info.reqs) && forall g :: 0 <= g < 10 ==> info.reqs[g] >= 0
  }

  lemma ChangesKeepTallied(info: PodInfo, rate: int)
    requires Tallied(info)
    ensures Tallied(Added(info, rate)) && Tallied(Deleted(info, rate))
  {
    GroupFromIs(rate, 0);
    if GroupOf(rate) != -1 {
      SumAfterUpdate(info.reqs, GroupOf(rate), info.reqs[GroupOf(rate)] + 1);
      SumAfterUpdate(info.reqs, GroupOf(rate), info.reqs[GroupOf(rate)] - 1);
    }
  }

  /** Even when reports match nothing, the number of jobs is the sum over the groups
      and nothing is negative. */
  lemma {:induction false} JobsAreTheSumOfGroups(ops: seq<Op>, podip: string)
    ensures Tallied(Info(Run(ops), podip))
  {
    if ops != [] {
      JobsAreTheSumOfGroups(ops[..|ops| - 1], podip);
      ChangesKeepTallied(Info(Run(ops[..|ops| - 1]), podip), ops[|ops| - 1].rate);
    } else {
      SumOfZeros(ZERO.reqs);
    }
  }

  lemma {:induction false} SumOfZeros(s: seq<int>)
    requires forall i :: 0 <= i < |s| ==> s[i] == 0
    ensures Sum(s) == 0
  {
    if s != [] {
      SumOfZeros(s[1..]);
    }
  }

  /** The two entries differ by `d` in the rate sum and in nothing else. */
  ghost predicate Shifted(info: PodInfo, base: PodInfo, d: int) {
    |base.reqs| == 10 && info == base.(ratesum := base.ratesum + d)
  }

  lemma ShiftedEntry(info: PodInfo, base: PodInfo, rate: int, d: int)
    requires Shifted(info, base, d)
    ensures Shifted(Added(info, rate), Added(base, rate), d) && Shifted(Deleted(info, rate), Deleted(base, rate), d)
  {
    GroupFromIs(rate, 0);
  }

  lemma ShiftedStep(data: Data, base: Data, op: Op, podip: string, d: int)
    requires WellFormed(data) && WellFormed(base) && Shifted(Info(data, podip), Info(base, podip), d)
    ensures Shifted(Info(Apply(data, op), podip), Info(Apply(base, op), podip), d)
  {
    AppliedToEntry(data, op, podip);
    AppliedToEntry(base, op, podip);
    ShiftedEntry(Info(data, podip), Info(base, podip), op.rate, d);
  }

  /** Where two histories have left entries of a pod that differ in the rate sum, they
      go on to differ by as much. */
  lemma {:induction false} ShiftStays(first: seq<Op>, base: seq<Op>, later: seq<Op>, podip: string, d: int)
    requires Shifted(Info(Run(first), podip), Info(Run(base), podip), d)
    ensures Shifted(Info(Run(first + later), podip), Info(Run(base + later), podip), d)
  {
    if later == [] {
      assert first + later == first && base + later == base;
    } else {
      var most, op := later[..|later| - 1], later[|later| - 1];
      ShiftStays(first, base, most, podip, d);
      assert first + later == (first + most) + [op] && base + later == (base + most) + [op];
      RunStep(first + most, op);
      RunStep(base + most, op);
      ShiftedStep(Run(first + most), Run(base + most), op, podip, d);
    }
  }

  /** Reporting one rate instead of another of the same group. */
  lemma MisreportShifts(before: seq<Op>, podip: string, a: int, b: int)
    requires HarmlessReports(before) && a in InFlight(before, podip)
    requires GroupOf(a) == GroupOf(b) != -1
    ensures Shifted(Info(Run(before + [Del(podip, b)]), podip), Info(Run(before + [Del(podip, a)]), podip), a - b)
  {
    CountersAreExact(before, podip);
    CountsAreNatural(InFlight(before, podip), a);
    GroupFromIs(a, 0);
    RunStep(before, Del(podip, a));
    RunStep(before, Del(podip, b));
    AppliedToEntry(Run(before), Del(podip, a), podip);
    AppliedToEntry(Run(before), Del(podip, b), podip);
  }

  /** After any history of harmless reports, the end of a job of rate `a` is reported
      with the rate `b` of the same group. However the history goes on, with reports
      that would have been harmless otherwise, the number of jobs is right, and the
      rate sum is off by `a - b` for good: the pod is reported idle exactly when jobs
      of the rate `b - a` together are in flight on it. */
  lemma MisreportShiftsTheRateSum(before: seq<Op>, podip: string, a: int, b: int, later: seq<Op>)
    requires a in InFlight(before, podip) && GroupOf(a) == GroupOf(b) != -1
    requires HarmlessReports(before + [Del(podip, a)] + later)
    ensures var data, jobs := Run(before + [Del(podip, b)] + later), InFlight(before + [Del(podip, a)] + later, podip);
      && (forall g :: 0 <= g < 10 ==> Info(data, podip).reqs[g] == GroupCount(jobs, g))
      && Info(data, podip).jobnum == Counted(jobs)
      && Info(data, podip).ratesum == RateSum(jobs) + a - b
      && (CheckPodBusy(data, podip) <==> RateSum(jobs) != b - a)
  {
    var told := before + [Del(podip, a)];
    assert (told + later)[..|before|] == before;
    PrefixIsHarmless(told + later, |before|);
    MisreportShifts(before, podip, a, b);
    ShiftStays(before + [Del(podip, b)], told, later, podip, a - b);
    CountersAreExact(told + later, podip);
  }

  /** ... so that, if the rate reported is too small, the pod is never idle again, as
      long as rates are not negative and later reports harmless. */
  lemma UnmatchedReportLeavesAPodBusy(before: seq<Op>, podip: string, a: int, b: int, later: seq<Op>)
    requires a in InFlight(before, podip) && GroupOf(a) == GroupOf(b) != -1 && a > b
    requires HarmlessReports(before + [Del(podip, a)] + later)
    requires NonNegative(InFlight(before + [Del(podip, a)] + later, podip))
    ensures CheckPodBusy(Run(before + [Del(podip, b)] + later), podip)
  {
    MisreportShiftsTheRateSum(before, podip, a, b, later);
    RateSumOfNaturals(InFlight(before + [Del(podip, a)] + later, podip));
  }

  /** A second wrong report can make up for the first. */
  lemma WrongReportsCanCancelOut()
    ensures var ops := [Add("p", 100), Del("p", 50), Add("p", 50), Del("p", 100)];
      && !HarmlessReports(ops)
      && !CheckPodBusy(Run(ops), "p") && Info(Run(ops), "p").jobnum == 0
  {
    var ops := [Add("p", 100), Del("p", 50), Add("p", 50), Del("p", 100)];
    assert ops[..3][..2] == ops[..2] && ops[..2][..1] == ops[..1] && ops[..1][..0] == [];
    GroupsAreIntervals(100, 3);
    GroupsAreIntervals(50, 3);
    assert Run(ops[..1]) == map["p" := Added(ZERO, 100)];
    assert Run(ops[..2]) == map["p" := Deleted(Added(ZERO, 100), 50)];
    assert Run(ops[..3]) == map["p" := Added(Deleted(Added(ZERO, 100), 50), 50)];
    assert InFlight(ops[..1], "p") == [100];
    assert GroupCount([100], 3) == 1;
    assert !HarmlessReports(ops[..2]);
    assert !HarmlessReports(ops[..3]);
  }
}
