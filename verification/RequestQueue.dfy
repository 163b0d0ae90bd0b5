/** The request queue on a doubly linked list that is changed in place. Each method
    is one critical section under the queue's mutex, except `Sweep`, which is the
    manager's walk and gives the mutex away between nodes. */
module RequestQueue {
  import opened Groups
  import opened QueueSpec

  /** An element of a ring. */
  class Node {
    const value: SchedulingUnit
    var prev: Node?
    var next: Node?

    constructor (value: SchedulingUnit)
      ensures this.value == value
    {
      this.value, prev, next := value, null, null;
    }
  }

  ghost function Values(nodes: seq<Node>): (r: seq<SchedulingUnit>)
    ensures |r| == |nodes|
    ensures forall i :: 0 <= i < |nodes| ==> r[i] == nodes[i].value
  {
    seq(|nodes|, i requires 0 <= i < |nodes| => nodes[i].value)
  }

  /** The node at a place of the ring; the root closes it at either end. */
  ghost function At(root: Node, nodes: seq<Node>, i: int): Node {
    if 0 <= i < |nodes| then nodes[i] else root
  }

  /** The node at place `k` and its two neighbours. */
  ghost predicate Linked(root: Node, nodes: seq<Node>, k: int)
    reads root, nodes
  {
    At(root, nodes, k).prev == At(root, nodes, k - 1) && At(root, nodes, k).next == At(root, nodes, k + 1)
  }

  ghost predicate Separate(root: Node, nodes: seq<Node>) {
    root !in nodes && forall i, j :: 0 <= i < j < |nodes| ==> nodes[i] != nodes[j]
  }

  lemma WithoutNode(root: Node, nodes: seq<Node>, i: nat)
    requires i < |nodes| && Separate(root, nodes)
    ensures Values(Without(nodes, i)) == Without(Values(nodes), i)
    ensures Separate(root, Without(nodes, i)) && nodes[i] !in Without(nodes, i)
    ensures forall k :: -1 <= k < |nodes| ==>
              At(root, Without(nodes, i), k) == At(root, nodes, if k < i then k else k + 1)
  {
  }

  /** The node at place `k` and its two neighbours, when node `i` is passed over. */
  ghost predicate LinkedAround(root: Node, nodes: seq<Node>, i: int, k: int)
    reads root, nodes
  {
    && At(root, nodes, k).prev == At(root, nodes, if k == i + 1 then i - 1 else k - 1)
    && At(root, nodes, k).next == At(root, nodes, if k == i - 1 then i + 1 else k + 1)
  }

  lemma OthersStayLinked(root: Node, nodes: seq<Node>, i: nat, k: nat)
    requires i < |nodes| && k < |nodes| - 1 && Separate(root, nodes)
    requires LinkedAround(root, nodes, i, if k < i then k else k + 1)
    ensures Linked(root, Without(nodes, i), k)
  {
    WithoutNode(root, nodes, i);
  }

  class Queue {
    const root: Node
    var len: nat
    var maxActualLen: nat
    /** The nodes from front to back. */
    ghost var nodes: seq<Node>
    /** The objects this queue may change. */
    ghost var repr: set<object>

    ghost predicate Valid()
      reads this, repr
    {
      && this in repr && root in repr
      && (forall k :: 0 <= k < |nodes| ==> nodes[k] in repr)
      && len == |nodes|
      && Ring()
    }

    ghost predicate Ring()
      reads this`nodes, root, nodes
    {
      && root.prev == At(root, nodes, |nodes| - 1) && root.next == At(root, nodes, 0)
      && Separate(root, nodes)
      && (forall k :: 0 <= k < |nodes| ==> Linked(root, nodes, k))
    }

    ghost function Contents(): seq<SchedulingUnit>
      reads this
    {
      Values(nodes)
    }

    constructor ()
      ensures Valid() && Contents() == [] && maxActualLen == 0 && fresh(repr)
    {
      var r := new Node(SchedulingUnit(0, 0, 0, 0));
      r.prev, r.next := r, r;
      root := r;
      len, maxActualLen, nodes, repr := 0, 0, [], {this, r};
    }

    method PushBack(u: SchedulingUnit)
      requires Valid()
      modifies repr
      ensures Valid() && fresh(repr - old(repr)) && maxActualLen == old(maxActualLen)
      ensures Contents() == old(Contents()) + [u] && old(nodes) <= nodes
    {
      var e := new Node(u);
      var last := root.prev;
      e.prev, e.next := last, root;
      last.next := e;
      root.prev := e;
      len := len + 1;
      ghost var was := nodes;
      nodes := was + [e];
      repr := repr + {e};
      forall k | 0 <= k < |nodes| ensures Linked(root, nodes, k) {
        assert k < |was| ==> old(Linked(root, was, k));
      }
    }

    /** Lets the neighbours of a node point at each other. */
    method Unlink(e: Node, ghost i: nat)
      requires Ring() && i < |nodes| && nodes[i] == e
      modifies e, At(root, nodes, i - 1)`next, At(root, nodes, i + 1)`prev
      ensures At(root, nodes, i - 1).next == At(root, nodes, i + 1)
      ensures At(root, nodes, i + 1).prev == At(root, nodes, i - 1)
      ensures forall k :: 0 <= k < |nodes| && k != i ==> LinkedAround(root, nodes, i, k)
    {
      assert Linked(root, nodes, i);
      e.prev.next := e.next;
      e.next.prev := e.prev;
      e.prev, e.next := null, null;
      forall k | 0 <= k < |nodes| && k != i ensures LinkedAround(root, nodes, i, k) {
        assert old(Linked(root, nodes, k));
      }
    }

    method Detach(e: Node, ghost i: nat)
      requires Ring() && i < |nodes| && nodes[i] == e
      modifies this`nodes, root, nodes
      ensures Ring() && nodes == Without(old(nodes), i)
    {
      Unlink(e, i);
      ghost var was := nodes;
      WithoutNode(root, was, i);
      nodes := Without(was, i);
      forall k | 0 <= k < |nodes| ensures Linked(root, nodes, k) {
        OthersStayLinked(root, was, i, k);
      }
    }

    /** Takes a node off the list. */
    method Remove(e: Node, ghost i: nat)
      requires Valid() && i < |nodes| && nodes[i] == e
      modifies repr
      ensures Valid() && repr == old(repr) && maxActualLen == old(maxActualLen)
      ensures nodes == Without(old(nodes), i)
      ensures Contents() == Without(old(Contents()), i)
    {
      WithoutNode(root, nodes, i);
      Detach(e, i);
      len := len - 1;
    }

    method Front() returns (e: Node?)
      requires Valid()
      ensures e == if nodes == [] then null else nodes[0]
    {
      e := if len == 0 then null else root.next;
    }

    method Back() returns (e: Node?)
      requires Valid()
      ensures e == Before(|nodes|)
    {
      e := if len == 0 then null else root.prev;
    }

    /** The node in front of place `i`, null at the front. */
    ghost function Before(i: int): Node?
      reads this`nodes
    {
      if 0 < i <= |nodes| then nodes[i - 1] else null
    }

    /** `e.Prev()` for a node of the list. */
    method Prev(e: Node, ghost i: nat) returns (p: Node?)
      requires Valid() && i < |nodes| && nodes[i] == e
      ensures p == Before(i)
    {
      assert Linked(root, nodes, i);
      p := if e.prev != root then e.prev else null;
    }

    /** A request arrives. `outcome` says whether it is turned away, served at once,
        or queued with a timer. */
    method AddReq(id: nat, rate: int, now: int, ln: real -> real) returns (outcome: Outcome)
      requires Valid()
      modifies repr
      ensures Valid() && fresh(repr - old(repr))
      ensures outcome == Rejected <==> old(len) >= 40000
      ensures outcome == Preempting <==> old(len) < 40000 && (rate < 12 || rate >= 30000)
      ensures outcome == Queued <==> old(len) < 40000 && 12 <= rate < 30000
      ensures if outcome == Queued then Queueing(old(Contents()), id, rate, now, ln, Contents())
              else Contents() == old(Contents())
      ensures outcome == AddReqOutcome(old(len), rate)
      ensures Contents() == AddReqQueue(old(Contents()), id, rate, now, ln)
      ensures maxActualLen == if old(len) > old(maxActualLen) then old(len) else old(maxActualLen)
      ensures old(nodes) <= nodes
    {
      ArrivalsAreDecided(Contents(), id, rate, now, ln);
      if len > maxActualLen {
        maxActualLen := len;
      }
      if len >= MAX_QUEUE_SIZE {
        return Rejected;
      }
      if Preempts(rate) {
        return Preempting;
      }
      PushBack(QueuedUnit(id, rate, now, ln));
      return Queued;
    }

    /** A request arrives in experiments 1 and 2. */
    method AddReq12(u: SchedulingUnit) returns (outcome: Outcome)
      requires Valid()
      modifies repr
      ensures Valid() && fresh(repr - old(repr))
      ensures outcome == AddReq12Outcome(old(Contents()), u.rate)
      ensures outcome == Rejected <==> old(len) >= 40000
      ensures outcome == Preempting <==> 0 < old(len) < 40000 && u.rate < old(Contents())[0].rate
      ensures Contents() == old(Contents()) + (if outcome == Queued then [u] else [])
      ensures Contents() == Apply12(old(Contents()), Add12(u)) && maxActualLen == old(maxActualLen)
    {
      if len >= MAX_QUEUE_SIZE {
        return Rejected;
      }
      if len > 0 {
        var e := Front();
        if u.rate < e.value.rate {
          return Preempting;
        }
      }
      PushBack(u);
      return Queued;
    }

    /** What `ManageQueue1` does once the queue is not empty. */
    method TakeBack() returns (u: SchedulingUnit)
      requires Valid() && Contents() != []
      modifies repr
      ensures Valid() && fresh(repr - old(repr))
      ensures Contents() == old(Contents())[..|old(Contents())| - 1]
      ensures Contents() == Apply12(old(Contents()), QueueSpec.TakeBack) && u == old(Contents())[|old(Contents())| - 1]
      ensures maxActualLen == old(maxActualLen)
    {
      var e := Back();
      u := e.value;
      Remove(e, |nodes| - 1);
    }

    /** One node of the manager's walk: reads the previous node, and unlinks this one
        if its timer has delivered. */
    method Inspect(e: Node, fired: set<nat>, ghost k: nat) returns (prev: Node?, ready: bool)
      requires Valid() && 0 < k <= |nodes| && nodes[k - 1] == e
      modifies repr
      ensures Valid() && fresh(repr - old(repr))
      ensures ready <==> e.value.id in fired
      ensures Contents() == Looked(old(Contents()), k, fired) && maxActualLen == old(maxActualLen)
      ensures k - 1 <= |nodes| && nodes[..k - 1] == old(nodes)[..k - 1] && prev == Before(k - 1)
    {
      prev := Prev(e, k - 1);
      ready := e.value.id in fired;
      if ready {
        Remove(e, k - 1);
      }
    }

    /** Adders at work while the manager does not hold the mutex. */
    method Arrive(arrivals: seq<Arrival>, ln: real -> real)
      requires Valid()
      modifies repr
      ensures Valid() && fresh(repr - old(repr))
      ensures Contents() == AfterArrivals(old(Contents()), arrivals, ln)
      ensures old(nodes) <= nodes
    {
      for i := 0 to |arrivals|
        invariant Valid() && fresh(repr - old(repr))
        invariant AfterArrivals(Contents(), arrivals[i..], ln) == AfterArrivals(old(Contents()), arrivals, ln)
        invariant old(nodes) <= nodes
      {
        var a := arrivals[i];
        var outcome := AddReq(a.id, a.rate, a.now, ln);
      }
    }

    /** Others at work, then one node of the walk, the one with `k - 1` before it. */
    method SweepNode(e: Node, round: Round, ln: real -> real, ghost k: nat) returns (prev: Node?, ready: bool)
      requires Valid() && 0 < k <= |nodes| && e == nodes[k - 1]
      modifies repr
      ensures Valid() && fresh(repr - old(repr))
      ensures ready <==> old(Contents())[k - 1].id in round.fired
      ensures Contents() == AfterSweepNode(old(Contents()), k, round, ln)
      ensures k - 1 <= |nodes| && nodes[..k - 1] == old(nodes)[..k - 1] && prev == Before(k - 1)
    {
      Arrive(round.arrivals, ln);
      assert nodes[k - 1] == e && nodes[..k - 1] == old(nodes)[..k - 1];
      prev, ready := Inspect(e, round.fired, k);
    }

    /** The manager's walk from back to front. `rounds[j]` is what the others do before
        its j-th critical section: requests that arrive, and the timers that have
        delivered by then. The walk holds on to a node while others append. */
    method Sweep(rounds: seq<Round>, ln: real -> real) returns (served: seq<SchedulingUnit>)
      requires Valid() && |rounds| >= len
      modifies repr
      ensures Valid() && fresh(repr - old(repr))
      ensures Contents() == AfterSweep(old(Contents()), old(len), rounds, ln)
      ensures served == Expired(old(Contents()), rounds)
    {
      served := [];
      var e := Back();
      var j := 0;
      ghost var k := len;
      ghost var olds := Contents();
      WalkStarts(olds, rounds, ln);
      while e != null
        invariant Valid() && fresh(repr - old(repr))
        invariant e == Before(k) && Walked(olds, rounds, j, k, Contents(), served, ln)
        decreases k
      {
        WalkOn(olds, rounds, j, k, Contents(), served, ln);
        var u := e.value;
        var ready;
        e, ready := SweepNode(e, rounds[j], ln, k);
        if ready {
          served := served + [u];
        }
        j, k := j + 1, k - 1;
      }
      WalkEnds(olds, rounds, j, Contents(), served, ln);
    }
  }

  /** Where a walk over `olds` stands after `j` turns, with `k` nodes to go. */
  ghost predicate Walked(olds: seq<SchedulingUnit>, rounds: seq<Round>, j: nat, k: int,
                         q: seq<SchedulingUnit>, served: seq<SchedulingUnit>, ln: real -> real)
    requires |olds| <= |rounds|
  {
    && 0 <= k <= |q| && k + j == |olds| && q[..k] == olds[..k]
    && AfterSweep(q, k, rounds[j..], ln) == AfterSweep(olds, |olds|, rounds, ln)
    && served + Expired(olds[..k], rounds[j..]) == Expired(olds, rounds)
  }

  lemma WalkStarts(olds: seq<SchedulingUnit>, rounds: seq<Round>, ln: real -> real)
    requires |olds| <= |rounds|
    ensures Walked(olds, rounds, 0, |olds|, olds, [], ln)
  {
    assert olds[..|olds|] == olds && rounds[0..] == rounds;
  }

  lemma WalkEnds(olds: seq<SchedulingUnit>, rounds: seq<Round>, j: nat, q: seq<SchedulingUnit>,
                 served: seq<SchedulingUnit>, ln: real -> real)
    requires |olds| <= |rounds| && Walked(olds, rounds, j, 0, q, served, ln)
    ensures q == AfterSweep(olds, |olds|, rounds, ln) && served == Expired(olds, rounds)
  {
    assert served + [] == served;
  }

  lemma WalkOn(olds: seq<SchedulingUnit>, rounds: seq<Round>, j: nat, k: int,
               q: seq<SchedulingUnit>, served: seq<SchedulingUnit>, ln: real -> real)
    requires |olds| <= |rounds| && Walked(olds, rounds, j, k, q, served, ln) && k > 0
    ensures Walked(olds, rounds, j + 1, k - 1, AfterSweepNode(q, k, rounds[j], ln),
                   if q[k - 1].id in rounds[j].fired then served + [q[k - 1]] else served, ln)
  {
    UnrollSweep(q, olds, k, rounds, j, ln);
  }

  datatype Arrival = Arrival(id: nat, rate: int, now: int)
  datatype Round = Round(arrivals: seq<Arrival>, fired: set<nat>)

  /** The queue after some arrivals, each at the back or not at all. */
  ghost function AfterArrivals(q: seq<SchedulingUnit>, arrivals: seq<Arrival>, ln: real -> real): (r: seq<SchedulingUnit>)
    ensures q <= r
    decreases |arrivals|
  {
    if arrivals == [] then q
    else AfterArrivals(AddReqQueue(q, arrivals[0].id, arrivals[0].rate, arrivals[0].now, ln), arrivals[1..], ln)
  }

  /** The queue after the manager has looked at place `k - 1`. */
  ghost function Looked(q: seq<SchedulingUnit>, k: nat, fired: set<nat>): (r: seq<SchedulingUnit>)
    requires 0 < k <= |q|
    ensures |r| >= k - 1
  {
    if q[k - 1].id in fired then Without(q, k - 1) else q
  }

  ghost function AfterSweepNode(q: seq<SchedulingUnit>, k: nat, round: Round, ln: real -> real): (r: seq<SchedulingUnit>)
    requires 0 < k <= |q|
    ensures |r| >= k - 1
  {
    Looked(AfterArrivals(q, round.arrivals, ln), k, round.fired)
  }

  /** The queue after a walk that has `k` nodes left to look at. */
  ghost function AfterSweep(q: seq<SchedulingUnit>, k: nat, rounds: seq<Round>, ln: real -> real): seq<SchedulingUnit>
    requires k <= |q| && k <= |rounds|
    decreases k
  {
    if k == 0 then q else AfterSweep(AfterSweepNode(q, k, rounds[0], ln), k - 1, rounds[1..], ln)
  }

  /** The units a walk serves, in the order in which it meets them. */
  ghost function Expired(olds: seq<SchedulingUnit>, rounds: seq<Round>): seq<SchedulingUnit>
    requires |olds| <= |rounds|
  {
    if olds == [] then []
    else
      var last := olds[|olds| - 1];
      (if last.id in rounds[0].fired then [last] else []) + Expired(olds[..|olds| - 1], rounds[1..])
  }

  /** The units a walk leaves, in their old order. */
  ghost function Survivors(olds: seq<SchedulingUnit>, rounds: seq<Round>): seq<SchedulingUnit>
    requires |olds| <= |rounds|
  {
    if olds == [] then []
    else
      var last := olds[|olds| - 1];
      Survivors(olds[..|olds| - 1], rounds[1..]) + (if last.id in rounds[0].fired then [] else [last])
  }

  /** The requests that a walk finds appended when it is over. */
  ghost function Appended(q: seq<SchedulingUnit>, k: nat, rounds: seq<Round>, ln: real -> real): seq<SchedulingUnit>
    requires k <= |q| && k <= |rounds|
    decreases k
  {
    if k == 0 then []
    else
      AfterArrivals(q, rounds[0].arrivals, ln)[|q|..]
      + Appended(AfterSweepNode(q, k, rounds[0], ln), k - 1, rounds[1..], ln)
  }

  lemma Splice<T>(q: seq<T>, q1: seq<T>, i: nat)
    requires q <= q1 && i < |q|
    ensures q1 == q[..i] + ([q[i]] + q[i + 1..] + q1[|q|..])
    ensures Without(q1, i) == q[..i] + ([] + q[i + 1..] + q1[|q|..])
  {
    assert q1 == q + q1[|q|..];
  }

  lemma SweepNodeIs(q: seq<SchedulingUnit>, k: nat, round: Round, ln: real -> real)
    requires 0 < k <= |q|
    ensures q <= AfterArrivals(q, round.arrivals, ln)
    ensures AfterSweepNode(q, k, round, ln)
            == q[..k - 1] + ((if q[k - 1].id in round.fired then [] else [q[k - 1]]) + q[k..] + AfterArrivals(q, round.arrivals, ln)[|q|..])
  {
    Splice(q, AfterArrivals(q, round.arrivals, ln), k - 1);
  }

  /** One turn of the walk, seen from the queue as it was at the start. */
  lemma UnrollSweep(q: seq<SchedulingUnit>, olds: seq<SchedulingUnit>, k: nat, rounds: seq<Round>, j: nat, ln: real -> real)
    requires 0 < k <= |q| && k <= |olds| && q[..k] == olds[..k] && j + k <= |rounds|
    ensures var q2 := AfterSweepNode(q, k, rounds[j], ln);
      && q[k - 1] == olds[k - 1] && q2[..k - 1] == olds[..k - 1]
      && AfterSweep(q, k, rounds[j..], ln) == AfterSweep(q2, k - 1, rounds[j + 1..], ln)
      && Expired(olds[..k], rounds[j..])
         == (if olds[k - 1].id in rounds[j].fired then [olds[k - 1]] else []) + Expired(olds[..k - 1], rounds[j + 1..])
  {
    SweepNodeIs(q, k, rounds[j], ln);
    assert q[k - 1] == q[..k][k - 1] == olds[..k][k - 1];
    assert q[..k - 1] == q[..k][..k - 1] == olds[..k][..k - 1] == olds[..k - 1];
    assert rounds[j..][1..] == rounds[j + 1..];
  }

  /** However the others interleave, a walk leaves the surviving old units in their
      order, followed by everything that arrived meanwhile in its order. */
  lemma {:induction false} SweepKeepsOrder(q: seq<SchedulingUnit>, k: nat, rounds: seq<Round>, ln: real -> real)
    requires k <= |q| && k <= |rounds|
    ensures AfterSweep(q, k, rounds, ln) == Survivors(q[..k], rounds) + q[k..] + Appended(q, k, rounds, ln)
    decreases k
  {
    if k > 0 {
      var q2 := AfterSweepNode(q, k, rounds[0], ln);
      var kept := if q[k - 1].id in rounds[0].fired then [] else [q[k - 1]];
      SweepNodeIs(q, k, rounds[0], ln);
      var newer := AfterArrivals(q, rounds[0].arrivals, ln)[|q|..];
      var survivors, appended := Survivors(q[..k - 1], rounds[1..]), Appended(q2, k - 1, rounds[1..], ln);
      SweepKeepsOrder(q2, k - 1, rounds[1..], ln);
      Regroup(q, k, q2, kept, newer, survivors, appended);
      assert q[..k][..k - 1] == q[..k - 1] && q[..k][k - 1] == q[k - 1];
      assert Survivors(q[..k], rounds) == survivors + kept;
      assert Appended(q, k, rounds, ln) == newer + appended;
      assert AfterSweep(q, k, rounds, ln) == survivors + q2[k - 1..] + appended;
    }
  }

  lemma Regroup<T>(q: seq<T>, k: nat, q2: seq<T>, kept: seq<T>, newer: seq<T>, survivors: seq<T>, appended: seq<T>)
    requires 0 < k <= |q| && q2 == q[..k - 1] + (kept + q[k..] + newer)
    ensures q2[..k - 1] == q[..k - 1]
    ensures survivors + q2[k - 1..] + appended == survivors + kept + q[k..] + (newer + appended)
  {
    assert q2[k - 1..] == kept + q[k..] + newer;
  }

  lemma AddedLast<T>(s: seq<T>, x: T)
    ensures multiset(s + [x]) == multiset(s) + multiset{x}
    ensures multiset([x] + s) == multiset(s) + multiset{x}
  {
  }

  /** A walk loses nothing and serves nothing twice. */
  lemma {:induction false} SweepConserves(olds: seq<SchedulingUnit>, rounds: seq<Round>)
    requires |olds| <= |rounds|
    ensures multiset(Survivors(olds, rounds)) + multiset(Expired(olds, rounds)) == multiset(olds)
  {
    if olds != [] {
      var front, last := olds[..|olds| - 1], olds[|olds| - 1];
      SweepConserves(front, rounds[1..]);
      AddedLast(front, last);
      AddedLast(Survivors(front, rounds[1..]), last);
      assert olds == front + [last];
    }
  }

  /** A walk serves exactly the units whose timers have delivered when their turn comes:
      the unit at place `i` is looked at in round `|olds| - 1 - i`. */
  lemma {:induction false} ServedExactly(olds: seq<SchedulingUnit>, rounds: seq<Round>, i: nat)
    requires i < |olds| <= |rounds| && forall k, m :: 0 <= k < m < |olds| ==> olds[k] != olds[m]
    ensures olds[i] in Expired(olds, rounds) <==> olds[i].id in rounds[|olds| - 1 - i].fired
    ensures olds[i] in Survivors(olds, rounds) <==> olds[i].id !in rounds[|olds| - 1 - i].fired
  {
    var m := |olds| - 1;
    NewestDecided(olds, rounds, olds[i]);
    if i < m {
      assert olds[..m][i] == olds[i];
      ServedExactly(olds[..m], rounds[1..], i);
    } else {
      OnlyOldUnits(olds[..m], rounds[1..], olds[i]);
    }
  }

  lemma NewestDecided(olds: seq<SchedulingUnit>, rounds: seq<Round>, u: SchedulingUnit)
    requires 0 < |olds| <= |rounds|
    ensures var front, last := olds[..|olds| - 1], olds[|olds| - 1];
      && (u in Expired(olds, rounds) <==> (u == last && u.id in rounds[0].fired) || u in Expired(front, rounds[1..]))
      && (u in Survivors(olds, rounds) <==> (u == last && u.id !in rounds[0].fired) || u in Survivors(front, rounds[1..]))
  {
  }

  lemma {:induction false} OnlyOldUnits(olds: seq<SchedulingUnit>, rounds: seq<Round>, u: SchedulingUnit)
    requires |olds| <= |rounds| && u !in olds
    ensures u !in Expired(olds, rounds) && u !in Survivors(olds, rounds)
  {
    if olds != [] {
      NewestDecided(olds, rounds, u);
      OnlyOldUnits(olds[..|olds| - 1], rounds[1..], u);
    }
  }

  /** Whatever had expired when the walk began is gone when it ends: timers that have
      delivered stay delivered. */
  lemma {:induction false} ExpiredAreGone(olds: seq<SchedulingUnit>, rounds: seq<Round>, fired: set<nat>)
    requires |olds| <= |rounds|
    requires forall j :: 0 <= j < |rounds| ==> fired <= rounds[j].fired
    ensures forall u :: u in Survivors(olds, rounds) ==> u.id !in fired
  {
    if olds != [] {
      ExpiredAreGone(olds[..|olds| - 1], rounds[1..], fired);
    }
  }
}
