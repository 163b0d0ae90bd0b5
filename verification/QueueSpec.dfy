/** What each critical section of the request queue does to the queue, as
    functions on sequences. RequestQueue.dfy implements them on linked nodes and
    QueueMachine.dfy interleaves them. */
module QueueSpec {
  import opened Groups

  const MAX_QUEUE_SIZE: nat := 40000

  /** A request in the queue. `fireAt` is when its timer runs out, in milliseconds;
      the timer may deliver later, never earlier. */
  datatype SchedulingUnit = SchedulingUnit(id: nat, rate: int, arrival: int, fireAt: int)

  datatype Outcome = Rejected | Preempting | Queued

  /** `AddReq`: what becomes of a request when `len` requests are queued. */
  function AddReqOutcome(len: nat, rate: int): Outcome {
    if len >= MAX_QUEUE_SIZE then Rejected else if Preempts(rate) then Preempting else Queued
  }

  function QueuedUnit(id: nat, rate: int, now: int, ln: real -> real): SchedulingUnit
    requires !Preempts(rate)
  {
    SchedulingUnit(id, rate, now, now + WaitingTime(rate, ln))
  }

  function AddReqQueue(q: seq<SchedulingUnit>, id: nat, rate: int, now: int, ln: real -> real): seq<SchedulingUnit> {
    if AddReqOutcome(|q|, rate).Queued? then q + [QueuedUnit(id, rate, now, ln)] else q
  }

  function AddReqMaxLen(maxLen: nat, len: nat): nat {
    if len > maxLen then len else maxLen
  }

  /** What becomes of a request that arrives at `now`, in numbers: turned away from a
      queue of 40000, served at once if its rate is below 12 or at least 30000, and
      otherwise put at the back, to wait as long as its rate demands. */
  lemma ArrivalsAreDecided(q: seq<SchedulingUnit>, id: nat, rate: int, now: int, ln: real -> real)
    ensures AddReqOutcome(|q|, rate) == if |q| >= 40000 then Rejected
                                        else if rate < 12 || rate >= 30000 then Preempting
                                        else Queued
    ensures var r := AddReqQueue(q, id, rate, now, ln);
      if |q| < 40000 && 12 <= rate < 30000 then Queueing(q, id, rate, now, ln, r) else r == q
  {
    PreemptsExactly(rate);
    if 12 <= rate < 30000 {
      WaitIsRight(rate, ln);
    }
  }

  /** `r` is `q` with this request at the back. */
  ghost predicate Queueing(q: seq<SchedulingUnit>, id: nat, rate: int, now: int, ln: real -> real, r: seq<SchedulingUnit>) {
    && |r| == |q| + 1 && r[..|q|] == q
    && var u := r[|q|];
       u.id == id && u.rate == rate && u.arrival == now && RightWait(rate, u.fireAt - now, ln)
  }

  /** `AddReq12`: compares with the front only. */
  function AddReq12Outcome(q: seq<SchedulingUnit>, rate: int): Outcome {
    if |q| >= MAX_QUEUE_SIZE then Rejected else if q != [] && rate < q[0].rate then Preempting else Queued
  }

  /** A queue without its element `i`. */
  function Without<T>(q: seq<T>, i: nat): seq<T>
    requires i < |q|
  {
    q[..i] + q[i + 1..]
  }

  /** The place of a unit, `|q|` if it is not there. */
  function IndexOf(q: seq<SchedulingUnit>, id: nat): (i: nat)
    ensures i <= |q|
    ensures i < |q| ==> q[i].id == id
    ensures forall k :: 0 <= k < i ==> q[k].id != id
  {
    if q == [] || q[0].id == id then 0 else 1 + IndexOf(q[1..], id)
  }

  // Experiment 1: `AddReq12` on one side, `ManageQueue1` on the other.

  ghost predicate FrontIsLeast(q: seq<SchedulingUnit>) {
    forall i :: 0 <= i < |q| ==> q[0].rate <= q[i].rate
  }

  ghost predicate BelowAll(q: seq<SchedulingUnit>, rate: int) {
    q != [] && forall i :: 0 <= i < |q| ==> rate < q[i].rate
  }

  datatype Op12 = Add12(u: SchedulingUnit) | TakeBack | TakeAt(i: nat)

  function Apply12(q: seq<SchedulingUnit>, op: Op12): seq<SchedulingUnit> {
    match op
    case Add12(u) => if AddReq12Outcome(q, u.rate).Queued? then q + [u] else q
    case TakeBack => if q == [] then q else q[..|q| - 1]
    case TakeAt(i) => if i < |q| then Without(q, i) else q
  }

  ghost function Run12(ops: seq<Op12>): seq<SchedulingUnit> {
    if ops == [] then [] else Apply12(Run12(ops[..|ops| - 1]), ops[|ops| - 1])
  }

  /** As long as only `ManageQueue1` takes requests out, from the back, the front is
      the least of the queue. */
  lemma {:induction false} FrontStaysLeast(ops: seq<Op12>)
    requires forall k :: 0 <= k < |ops| ==> !ops[k].TakeAt?
    ensures FrontIsLeast(Run12(ops))
    ensures |Run12(ops)| <= MAX_QUEUE_SIZE
  {
    if ops != [] {
      FrontStaysLeast(ops[..|ops| - 1]);
    }
  }

  /** What becomes of a request in experiments 1 and 2, in numbers. */
  lemma ArrivalsAreDecided12(q: seq<SchedulingUnit>, u: SchedulingUnit)
    ensures AddReq12Outcome(q, u.rate) == if |q| >= 40000 then Rejected
                                          else if |q| > 0 && u.rate < q[0].rate then Preempting
                                          else Queued
    ensures Apply12(q, Add12(u)) == if |q| >= 40000 || (|q| > 0 && u.rate < q[0].rate) then q else q + [u]
  {
  }

  ghost predicate FrontTestRight(q: seq<SchedulingUnit>) {
    forall rate :: AddReq12Outcome(q, rate).Preempting? <==> BelowAll(q, rate)
  }

  /** The constant-time test against the front means "below everything queued", for
      every rate, exactly when the front is the least. */
  lemma FrontTestIsExact(q: seq<SchedulingUnit>)
    requires |q| < MAX_QUEUE_SIZE
    ensures FrontTestRight(q) <==> FrontIsLeast(q)
  {
    if FrontTestRight(q) {
      forall i | 0 <= i < |q| ensures q[0].rate <= q[i].rate {
        assert AddReq12Outcome(q, q[i].rate).Preempting? <==> BelowAll(q, q[i].rate);
      }
    }
  }

  /** Experiment 1, every run: a request preempts exactly when its rate is strictly
      below every queued rate. */
  lemma PreemptsExactlyBelowAll(ops: seq<Op12>, rate: int)
    requires forall k :: 0 <= k < |ops| ==> !ops[k].TakeAt?
    requires |Run12(ops)| < MAX_QUEUE_SIZE
    ensures AddReq12Outcome(Run12(ops), rate).Preempting? <==> BelowAll(Run12(ops), rate)
  {
    FrontStaysLeast(ops);
    FrontTestIsExact(Run12(ops));
  }

  ghost predicate SecondIsLeast(q: seq<SchedulingUnit>) {
    forall k :: 1 <= k < |q| ==> q[1].rate <= q[k].rate
  }

  /** Experiment 2 lets `ManageQueue` take any request. Taking request `i` out keeps
      the front least exactly when it is not the front, or the next one is least. */
  lemma TakingKeepsFrontLeast(q: seq<SchedulingUnit>, i: nat)
    requires FrontIsLeast(q) && i < |q|
    ensures FrontIsLeast(Without(q, i)) <==> i > 0 || SecondIsLeast(q)
  {
    var r := Without(q, i);
    if i == 0 && |q| > 1 {
      assert forall k :: 0 <= k < |r| ==> r[k] == q[k + 1];
      if FrontIsLeast(r) {
        forall k | 1 <= k < |q| ensures q[1].rate <= q[k].rate {
          assert r[0].rate <= r[k - 1].rate;
        }
      }
    }
  }

  /** Whenever the front is taken, the next one is least. */
  ghost predicate FrontsLeaveInOrder(ops: seq<Op12>) {
    forall n :: 0 <= n < |ops| && ops[n] == TakeAt(0) ==> SecondIsLeast(Run12(ops[..n]))
  }

  lemma RunStep12(ops: seq<Op12>, n: nat)
    requires n < |ops|
    ensures Run12(ops[..n + 1]) == Apply12(Run12(ops[..n]), ops[n])
  {
    assert ops[..n + 1][..n] == ops[..n];
  }

  lemma StepKeepsFrontLeast(q: seq<SchedulingUnit>, op: Op12)
    requires FrontIsLeast(q) && (op == TakeAt(0) ==> SecondIsLeast(q))
    ensures FrontIsLeast(Apply12(q, op))
  {
    if op.TakeAt? && op.i < |q| {
      TakingKeepsFrontLeast(q, op.i);
    }
  }

  lemma {:induction false} FrontStaysLeastAt(ops: seq<Op12>, n: nat)
    requires FrontsLeaveInOrder(ops) && n <= |ops|
    ensures FrontIsLeast(Run12(ops[..n]))
  {
    if n > 0 {
      FrontStaysLeastAt(ops, n - 1);
      RunStep12(ops, n - 1);
      StepKeepsFrontLeast(Run12(ops[..n - 1]), ops[n - 1]);
    }
  }

  lemma {:induction false} QueueIsBounded(ops: seq<Op12>, n: nat)
    requires n <= |ops|
    ensures |Run12(ops[..n])| <= MAX_QUEUE_SIZE
  {
    if n > 0 {
      QueueIsBounded(ops, n - 1);
      RunStep12(ops, n - 1);
    }
  }

  /** Experiment 2, every run: the test against the front is right all along, wherever
      the queue has room, exactly when the front is only ever taken with the next
      one least. */
  lemma FrontTestStaysRightExactly(ops: seq<Op12>)
    ensures (forall n :: 0 <= n <= |ops| && |Run12(ops[..n])| < MAX_QUEUE_SIZE ==> FrontTestRight(Run12(ops[..n])))
            <==> FrontsLeaveInOrder(ops)
  {
    if FrontsLeaveInOrder(ops) {
      forall n | 0 <= n <= |ops| && |Run12(ops[..n])| < MAX_QUEUE_SIZE ensures FrontTestRight(Run12(ops[..n])) {
        FrontStaysLeastAt(ops, n);
        FrontTestIsExact(Run12(ops[..n]));
      }
    } else {
      var n :| 0 <= n < |ops| && ops[n] == TakeAt(0) && !SecondIsLeast(Run12(ops[..n]));
      QueueIsBounded(ops, n);
      RunStep12(ops, n);
      SecondBecomesFront(Run12(ops[..n]));
      FrontTestIsExact(Run12(ops[..n + 1]));
    }
  }

  lemma SecondBecomesFront(q: seq<SchedulingUnit>)
    requires !SecondIsLeast(q)
    ensures |q| > 0 && !FrontIsLeast(Without(q, 0))
  {
    var k :| 1 <= k < |q| && q[1].rate > q[k].rate;
    assert Without(q, 0)[0] == q[1] && Without(q, 0)[k - 1] == q[k];
  }

  /** `MaxWaitingTime`, 1000 divided by `Lambda`, in milliseconds. */
  const MAX_WAITING_TIME: int := 100

  /** Step `n`, at `times[n]`, is one of experiment 2 with timers that deliver on time:
      a request gets the fixed waiting time, and the walk from the back takes a
      request out once its time is over, those behind it first. */
  ghost predicate OnTime12(ops: seq<Op12>, times: seq<int>, n: nat)
    requires n < |ops| == |times|
  {
    var q, now := Run12(ops[..n]), times[n];
    && (n > 0 ==> times[n - 1] <= now)
    && match ops[n]
       case Add12(u) => u.arrival == now && u.fireAt == now + MAX_WAITING_TIME
       case TakeBack => false
       case TakeAt(i) => i < |q| && q[i].fireAt <= now && forall k :: i < k < |q| ==> q[k].fireAt > now
  }

  /** ... so in experiment 2 a request can preempt although a smaller one is queued:
      requests arrive every 10 ms, and the first leaves when its time is over. */
  lemma Experiment2CanOvertakeASmallerJob() returns (ops: seq<Op12>, times: seq<int>)
    ensures |ops| == |times| && forall n :: 0 <= n < |ops| ==> OnTime12(ops, times, n)
    ensures AddReq12Outcome(Run12(ops), 8).Preempting? && exists i :: 0 <= i < |Run12(ops)| && Run12(ops)[i].rate < 8
  {
    var a, b, c := SchedulingUnit(0, 5, 0, 100), SchedulingUnit(1, 9, 10, 110), SchedulingUnit(2, 7, 20, 120);
    ops, times := [Add12(a), Add12(b), Add12(c), TakeAt(0)], [0, 10, 20, 100];
    RunStep12(ops, 0);
    RunStep12(ops, 1);
    RunStep12(ops, 2);
    RunStep12(ops, 3);
    assert ops[..0] == [] && ops[..4] == ops;
    assert Run12(ops[..3]) == [a, b, c];
    assert Run12(ops) == [b, c];
    assert Run12(ops)[1].rate < 8;
  }
}
