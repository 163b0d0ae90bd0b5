/** All interleavings of the adders (`AddReq`), the manager (`ManageQueue`), the
    clock and the timers. Each event is one critical section, or the clock or a
    timer making progress. The manager remembers the node it will look at next by
    the id of its unit. */
module QueueMachine {
  import opened Groups
  import opened QueueSpec

  datatype Cursor = End | On(id: nat)

  /** `Parked` is inside `QueueCond.Wait`; a parked manager goes on once notified. */
  datatype Manager = Top | Parked(notified: bool) | Sweeping(cursor: Cursor)

  datatype Dispatch = Dispatch(u: SchedulingUnit, at: int)

  datatype State = State(
    queue: seq<SchedulingUnit>, maxLen: nat, mgr: Manager,
    now: int, fired: set<nat>, nextId: nat,
    rejected: set<nat>, dispatched: seq<Dispatch>)

  datatype Event = Add(rate: int) | Tick(ms: nat) | Fire(id: nat) | Lock | Look | Restart

  predicate Initial(s: State) {
    s.queue == [] && s.maxLen == 0 && s.mgr == Top && s.fired == {} && s.nextId == 0 && s.rejected == {} && s.dispatched == []
  }

  ghost predicate Enabled(s: State, e: Event) {
    match e
    case Add(_) => true
    case Tick(_) => true
    case Fire(id) => exists k :: 0 <= k < |s.queue| && s.queue[k].id == id && s.queue[k].fireAt <= s.now
    case Lock => s.mgr == Top || s.mgr == Parked(true)
    case Look => s.mgr.Sweeping? && s.mgr.cursor.On?
    case Restart => s.mgr == Sweeping(End)
  }

  function CursorAt(q: seq<SchedulingUnit>, i: int): Cursor {
    if 0 <= i < |q| then On(q[i].id) else End
  }

  function AddReq(s: State, rate: int, ln: real -> real): State {
    var s' := s.(nextId := s.nextId + 1, maxLen := AddReqMaxLen(s.maxLen, |s.queue|),
                 queue := AddReqQueue(s.queue, s.nextId, rate, s.now, ln));
    match AddReqOutcome(|s.queue|, rate)
    case Rejected => s'.(rejected := s.rejected + {s.nextId})
    case Preempting => s'.(dispatched := s.dispatched + [Dispatch(SchedulingUnit(s.nextId, rate, s.now, s.now), s.now)])
    case Queued => s'.(mgr := if s.mgr.Parked? then Parked(true) else s.mgr)
  }

  /** An element that is no longer in the list has no previous element. */
  function LookAt(s: State, id: nat): State {
    var i := IndexOf(s.queue, id);
    if i == |s.queue| then s.(mgr := Sweeping(End))
    else
      var s' := s.(mgr := Sweeping(CursorAt(s.queue, i - 1)));
      if id in s.fired then
        s'.(queue := Without(s.queue, i), dispatched := s.dispatched + [Dispatch(s.queue[i], s.now)])
      else s'
  }

  function Next(s: State, e: Event, ln: real -> real): State {
    match e
    case Add(rate) => AddReq(s, rate, ln)
    case Tick(ms) => s.(now := s.now + ms)
    case Fire(id) => s.(fired := s.fired + {id})
    case Lock => s.(mgr := if s.queue == [] then Parked(false) else Sweeping(CursorAt(s.queue, |s.queue| - 1)))
    case Look => if s.mgr.Sweeping? && s.mgr.cursor.On? then LookAt(s, s.mgr.cursor.id) else s
    case Restart => s.(mgr := Top)
  }

  ghost predicate Execution(states: seq<State>, events: seq<Event>, ln: real -> real) {
    && |states| == |events| + 1
    && Initial(states[0])
    && PositiveAboveOne(ln)
    && forall i :: 0 <= i < |events| ==> StepAt(states, events, ln, i)
  }

  ghost predicate StepAt(states: seq<State>, events: seq<Event>, ln: real -> real, i: nat)
    requires i < |events| < |states|
  {
    Enabled(states[i], events[i]) && states[i + 1] == Next(states[i], events[i], ln)
  }

  ghost predicate InQueue(s: State, id: nat) {
    exists k :: 0 <= k < |s.queue| && s.queue[k].id == id
  }

  ghost predicate WasDispatched(s: State, id: nat) {
    exists k :: 0 <= k < |s.dispatched| && s.dispatched[k].u.id == id
  }

  /** The queue is in arrival order. */
  ghost predicate Ordered(s: State) {
    && (forall i, j :: 0 <= i < j < |s.queue| ==> s.queue[i].id < s.queue[j].id)
    && (forall i :: 0 <= i < |s.queue| ==> s.queue[i].id < s.nextId)
  }

  /** Every submitted unit is in exactly one place, and dispatched at most once. */
  ghost predicate Conserved(s: State) {
    && (forall id: nat :: id < s.nextId <==> InQueue(s, id) || WasDispatched(s, id) || id in s.rejected)
    && (forall id: nat :: !(InQueue(s, id) && WasDispatched(s, id)))
    && (forall id :: id in s.rejected ==> !InQueue(s, id) && !WasDispatched(s, id))
    && (forall i, j :: 0 <= i < j < |s.dispatched| ==> s.dispatched[i].u.id != s.dispatched[j].u.id)
  }

  ghost predicate Bounded(s: State) {
    |s.queue| <= MAX_QUEUE_SIZE && |s.queue| <= s.maxLen + 1
  }

  ghost predicate OnTime(s: State) {
    && (forall k :: 0 <= k < |s.queue| ==> s.queue[k].arrival <= s.queue[k].fireAt <= s.queue[k].arrival + 4000)
    && (forall k :: 0 <= k < |s.queue| && s.queue[k].id in s.fired ==> s.queue[k].fireAt <= s.now)
    && (forall k :: 0 <= k < |s.dispatched| ==> s.dispatched[k].u.fireAt <= s.dispatched[k].at)
    && (forall id :: id in s.fired ==> id < s.nextId)
  }

  ghost predicate ManagerFine(s: State) {
    && (s.mgr == Parked(false) ==> s.queue == [])
    && (s.mgr.Sweeping? && s.mgr.cursor.On? ==> InQueue(s, s.mgr.cursor.id))
  }

  ghost predicate Inv(s: State) {
    Ordered(s) && Conserved(s) && Bounded(s) && OnTime(s) && ManagerFine(s)
  }

  lemma InQueueAt(s: State, id: nat)
    requires Ordered(s)
    ensures InQueue(s, id) <==> IndexOf(s.queue, id) < |s.queue|
    ensures forall k :: 0 <= k < |s.queue| && s.queue[k].id == id ==> IndexOf(s.queue, id) == k
  {
    var i := IndexOf(s.queue, id);
    if InQueue(s, id) {
      var k :| 0 <= k < |s.queue| && s.queue[k].id == id;
    }
  }

  /** What each event does to the places a unit can be in. */
  lemma AddMoves(s: State, rate: int, ln: real -> real, id: nat)
    ensures var s', o := AddReq(s, rate, ln), AddReqOutcome(|s.queue|, rate);
      && (InQueue(s', id) <==> InQueue(s, id) || (o.Queued? && id == s.nextId))
      && (WasDispatched(s', id) <==> WasDispatched(s, id) || (o.Preempting? && id == s.nextId))
  {
    var s' := AddReq(s, rate, ln);
    if InQueue(s, id) {
      var k :| 0 <= k < |s.queue| && s.queue[k].id == id;
      assert s'.queue[k].id == id;
    }
    if WasDispatched(s, id) {
      var k :| 0 <= k < |s.dispatched| && s.dispatched[k].u.id == id;
      assert s'.dispatched[k].u.id == id;
    }
    if id == s.nextId {
      assert |s'.queue| > |s.queue| ==> s'.queue[|s.queue|].id == id;
      assert |s'.dispatched| > |s.dispatched| ==> s'.dispatched[|s.dispatched|].u.id == id;
    }
  }

  lemma LookMoves(s: State, c: nat, id: nat)
    requires Ordered(s) && InQueue(s, c)
    ensures var s' := LookAt(s, c);
      && (InQueue(s', id) <==> InQueue(s, id) && !(c in s.fired && id == c))
      && (WasDispatched(s', id) <==> WasDispatched(s, id) || (c in s.fired && id == c))
  {
    InQueueAt(s, c);
    var s' := LookAt(s, c);
    if c in s.fired {
      WithoutMembers(s, IndexOf(s.queue, c), s', id);
      AppendedMembers(s, s.queue[IndexOf(s.queue, c)], s', id);
    } else {
      assert s'.queue == s.queue && s'.dispatched == s.dispatched;
      assert InQueue(s', id) <==> InQueue(s, id);
    }
  }

  lemma WithoutMembers(s: State, i: nat, s': State, id: nat)
    requires Ordered(s) && i < |s.queue| && s'.queue == Without(s.queue, i)
    ensures InQueue(s', id) <==> InQueue(s, id) && id != s.queue[i].id
  {
    if InQueue(s, id) && id != s.queue[i].id {
      var k :| 0 <= k < |s.queue| && s.queue[k].id == id;
      assert s'.queue[if k < i then k else k - 1] == s.queue[k];
    }
    if InQueue(s', id) {
      var k :| 0 <= k < |s'.queue| && s'.queue[k].id == id;
      assert s'.queue[k] == s.queue[if k < i then k else k + 1];
    }
  }

  lemma AppendedMembers(s: State, u: SchedulingUnit, s': State, id: nat)
    requires s'.dispatched == s.dispatched + [Dispatch(u, s.now)]
    ensures WasDispatched(s', id) <==> WasDispatched(s, id) || id == u.id
  {
    if WasDispatched(s, id) {
      var k :| 0 <= k < |s.dispatched| && s.dispatched[k].u.id == id;
      assert s'.dispatched[k].u.id == id;
    }
    assert s'.dispatched[|s.dispatched|].u == u;
  }

  lemma AddKeepsConserved(s: State, rate: int, ln: real -> real)
    requires Inv(s)
    ensures Conserved(AddReq(s, rate, ln)) && Ordered(AddReq(s, rate, ln)) && Bounded(AddReq(s, rate, ln))
  {
    forall id: nat
      ensures var s', o := AddReq(s, rate, ln), AddReqOutcome(|s.queue|, rate);
        && (InQueue(s', id) <==> InQueue(s, id) || (o.Queued? && id == s.nextId))
        && (WasDispatched(s', id) <==> WasDispatched(s, id) || (o.Preempting? && id == s.nextId))
    {
      AddMoves(s, rate, ln, id);
    }
    assert forall k :: 0 <= k < |s.dispatched| ==> WasDispatched(s, s.dispatched[k].u.id);
  }

  lemma AddKeepsTime(s: State, rate: int, ln: real -> real)
    requires Inv(s) && PositiveAboveOne(ln)
    ensures OnTime(AddReq(s, rate, ln)) && ManagerFine(AddReq(s, rate, ln))
  {
    if AddReqOutcome(|s.queue|, rate).Queued? {
      WaitIsBounded(rate, ln);
    }
    if s.mgr.Sweeping? && s.mgr.cursor.On? {
      AddMoves(s, rate, ln, s.mgr.cursor.id);
    }
  }

  lemma LookKeepsConserved(s: State, c: nat)
    requires Inv(s) && InQueue(s, c)
    ensures Conserved(LookAt(s, c)) && Ordered(LookAt(s, c)) && Bounded(LookAt(s, c))
  {
    InQueueAt(s, c);
    forall id: nat
      ensures var s' := LookAt(s, c);
        && (InQueue(s', id) <==> InQueue(s, id) && !(c in s.fired && id == c))
        && (WasDispatched(s', id) <==> WasDispatched(s, id) || (c in s.fired && id == c))
    {
      LookMoves(s, c, id);
    }
    assert forall k :: 0 <= k < |s.dispatched| ==> WasDispatched(s, s.dispatched[k].u.id);
  }

  lemma LookKeepsTime(s: State, c: nat)
    requires Inv(s) && InQueue(s, c)
    ensures OnTime(LookAt(s, c)) && ManagerFine(LookAt(s, c))
  {
    InQueueAt(s, c);
    var s', i := LookAt(s, c), IndexOf(s.queue, c);
    if i > 0 {
      assert s'.queue[i - 1] == s.queue[i - 1];
    }
  }

  lemma SamePlaces(s: State, s': State)
    requires s'.queue == s.queue && s'.dispatched == s.dispatched && s'.rejected == s.rejected && s'.nextId == s.nextId
    ensures Conserved(s) ==> Conserved(s')
    ensures forall id: nat :: InQueue(s', id) <==> InQueue(s, id)
  {
    assert forall id: nat :: (InQueue(s', id) <==> InQueue(s, id)) && (WasDispatched(s', id) <==> WasDispatched(s, id));
  }

  lemma StepKeepsInv(s: State, e: Event, ln: real -> real)
    requires Inv(s) && Enabled(s, e) && PositiveAboveOne(ln)
    ensures Inv(Next(s, e, ln))
  {
    var s' := Next(s, e, ln);
    match e
    case Add(rate) =>
      AddKeepsConserved(s, rate, ln);
      AddKeepsTime(s, rate, ln);
    case Look =>
      LookKeepsConserved(s, s.mgr.cursor.id);
      LookKeepsTime(s, s.mgr.cursor.id);
    case Lock =>
      assert s.queue != [] ==> s.queue[|s.queue| - 1].id == s'.mgr.cursor.id;
      SamePlaces(s, s');
    case Tick(_) => SamePlaces(s, s');
    case Fire(_) => SamePlaces(s, s');
    case Restart => SamePlaces(s, s');
  }

  /** In every reachable state: conservation, order, bounds, no dispatch before its
      time, a valid cursor, and a parked manager that is not notified has nothing
      to do. */
  lemma {:induction false} InvAlways(states: seq<State>, events: seq<Event>, ln: real -> real, i: nat)
    requires Execution(states, events, ln) && i < |states|
    ensures Inv(states[i])
  {
    if i > 0 {
      InvAlways(states, events, ln, i - 1);
      assert StepAt(states, events, ln, i - 1);
      StepKeepsInv(states[i - 1], events[i - 1], ln);
    } else {
      assert forall id: nat :: !InQueue(states[0], id) && !WasDispatched(states[0], id);
    }
  }

  /** Condition variable and cursor together: while anything is queued the manager
      can always take a step, so no signal is lost and the walk never dangles. */
  lemma ManagerIsNeverStuckWithWork(states: seq<State>, events: seq<Event>, ln: real -> real, i: nat)
    requires Execution(states, events, ln) && i < |states|
    ensures states[i].queue != [] ==>
              Enabled(states[i], Lock) || Enabled(states[i], Look) || Enabled(states[i], Restart)
    ensures Enabled(states[i], Look) ==> IndexOf(states[i].queue, states[i].mgr.cursor.id) < |states[i].queue|
  {
    InvAlways(states, events, ln, i);
    if Enabled(states[i], Look) {
      InQueueAt(states[i], states[i].mgr.cursor.id);
    }
  }

  /** Whenever a request arrives: its unit is rejected, dispatched at once, or put at
      the back of the queue with the waiting time of its rate, as the numbers say. */
  lemma ArrivalsAreDecided(states: seq<State>, events: seq<Event>, ln: real -> real, i: nat, rate: int)
    requires Execution(states, events, ln) && i < |events| && events[i] == Add(rate)
    ensures var s, s', id := states[i], states[i + 1], states[i].nextId;
      && s'.nextId == id + 1 && s'.now == s.now && s'.fired == s.fired
      && s'.maxLen == (if |s.queue| > s.maxLen then |s.queue| else s.maxLen)
      && if |s.queue| >= 40000 then
           s'.rejected == s.rejected + {id} && s'.dispatched == s.dispatched && s'.queue == s.queue && s'.mgr == s.mgr
         else if rate < 12 || rate >= 30000 then
           && s'.dispatched == s.dispatched + [Dispatch(SchedulingUnit(id, rate, s.now, s.now), s.now)]
           && s'.rejected == s.rejected && s'.queue == s.queue && s'.mgr == s.mgr
         else
           && Queueing(s.queue, id, rate, s.now, ln, s'.queue)
           && s'.rejected == s.rejected && s'.dispatched == s.dispatched
           && s'.mgr == if s.mgr.Parked? then Parked(true) else s.mgr
  {
    assert StepAt(states, events, ln, i);
    QueueSpec.ArrivalsAreDecided(states[i].queue, states[i].nextId, rate, states[i].now, ln);
  }

  /** Whenever the manager looks at a node, it is that of a queued unit, the one at some
      place `k`. If its timer has delivered it is taken out and dispatched at that
      moment, otherwise nothing moves; and the walk goes on to the place before. */
  lemma LooksAreDecided(states: seq<State>, events: seq<Event>, ln: real -> real, i: nat) returns (k: nat)
    requires Execution(states, events, ln) && i < |events| && events[i] == Look
    ensures k < |states[i].queue| && states[i].mgr == Sweeping(On(states[i].queue[k].id))
    ensures var s, s', u := states[i], states[i + 1], states[i].queue[k];
      && s'.mgr == Sweeping(if k == 0 then End else On(s.queue[k - 1].id))
      && s'.now == s.now && s'.fired == s.fired && s'.rejected == s.rejected && s'.nextId == s.nextId && s'.maxLen == s.maxLen
      && if u.id in s.fired then
           s'.queue == s.queue[..k] + s.queue[k + 1..] && s'.dispatched == s.dispatched + [Dispatch(u, s.now)]
         else
           s'.queue == s.queue && s'.dispatched == s.dispatched
  {
    InvAlways(states, events, ln, i);
    assert StepAt(states, events, ln, i);
    InQueueAt(states[i], states[i].mgr.cursor.id);
    k := IndexOf(states[i].queue, states[i].mgr.cursor.id);
  }

  /** A unit that waits, or has waited, for as long as its rate demands. */
  ghost predicate Waits(u: SchedulingUnit, ln: real -> real) {
    12 <= u.rate < 30000 && RightWait(u.rate, u.fireAt - u.arrival, ln)
  }

  ghost predicate Timed(s: State, ln: real -> real) {
    && (forall k :: 0 <= k < |s.queue| ==> Waits(s.queue[k], ln))
    && (forall k :: 0 <= k < |s.dispatched| ==>
          var d := s.dispatched[k];
          Waits(d.u, ln) || (!(12 <= d.u.rate < 30000) && d.at == d.u.fireAt == d.u.arrival))
  }

  /** In every reachable state the queued units have the waiting time of their rate,
      and so had those dispatched, unless they were served on arrival for their rate. */
  lemma {:induction false} UnitsAreTimed(states: seq<State>, events: seq<Event>, ln: real -> real, i: nat)
    requires Execution(states, events, ln) && i < |states|
    ensures Timed(states[i], ln)
  {
    if i > 0 {
      UnitsAreTimed(states, events, ln, i - 1);
      assert StepAt(states, events, ln, i - 1);
      StepKeepsTimed(states[i - 1], events[i - 1], ln);
    }
  }

  lemma AddKeepsTimed(s: State, rate: int, ln: real -> real)
    requires Timed(s, ln)
    ensures Timed(AddReq(s, rate, ln), ln)
  {
    QueueSpec.ArrivalsAreDecided(s.queue, s.nextId, rate, s.now, ln);
    var q := AddReq(s, rate, ln).queue;
    assert forall k :: 0 <= k < |s.queue| ==> q[k] == s.queue[k];
  }

  lemma StepKeepsTimed(s: State, e: Event, ln: real -> real)
    requires Timed(s, ln)
    ensures Timed(Next(s, e, ln), ln)
  {
    if e.Add? {
      AddKeepsTimed(s, e.rate, ln);
    }
  }

  /** The machine can go on from `s`, without further arrivals, so that `id` is dispatched. */
  ghost predicate CanBeServed(s: State, id: nat, ln: real -> real) {
    exists states, events :: Serves(s, id, ln, states, events)
  }

  ghost predicate Serves(s: State, id: nat, ln: real -> real, states: seq<State>, events: seq<Event>) {
    && |states| == |events| + 1 && states[0] == s
    && (forall i :: 0 <= i < |events| ==> StepAt(states, events, ln, i) && !events[i].Add?)
    && WasDispatched(states[|events|], id)
  }

  lemma ServedLater(s: State, e: Event, id: nat, ln: real -> real)
    requires Enabled(s, e) && !e.Add? && CanBeServed(Next(s, e, ln), id, ln)
    ensures CanBeServed(s, id, ln)
  {
    var states, events :| Serves(Next(s, e, ln), id, ln, states, events);
    var states', events' := [s] + states, [e] + events;
    forall i | 0 <= i < |events'| ensures StepAt(states', events', ln, i) && !events'[i].Add? {
      assert i > 0 ==> StepAt(states, events, ln, i - 1);
    }
    assert Serves(s, id, ln, states', events');
  }

  /** The timer of this unit has delivered, and the unit is still queued. */
  ghost predicate Ready(s: State, id: nat) {
    Inv(s) && InQueue(s, id) && id in s.fired
  }

  lemma LookMovesCursor(s: State, c: nat)
    requires Inv(s) && InQueue(s, c)
    ensures var s', i := LookAt(s, c), IndexOf(s.queue, c);
      && i < |s.queue| && Ordered(s') && s'.fired == s.fired
      && s'.mgr == Sweeping(CursorAt(s.queue, i - 1))
      && i <= |s'.queue| && s'.queue[..i] == s.queue[..i]
  {
    InQueueAt(s, c);
    LookKeepsConserved(s, c);
  }

  lemma SamePlace(s: State, s': State, i: nat, j: nat)
    requires Ordered(s') && j < i <= |s.queue| && i <= |s'.queue| && s'.queue[..i] == s.queue[..i]
    ensures IndexOf(s'.queue, s.queue[j].id) == j
  {
    assert s'.queue[j] == s'.queue[..i][j] == s.queue[..i][j] == s.queue[j];
    InQueueAt(s', s.queue[j].id);
  }

  lemma LookMovesOn(s: State, id: nat, c: nat)
    requires Ready(s, id) && InQueue(s, c) && c != id
    ensures var s', i := LookAt(s, c), IndexOf(s.queue, c);
      && InQueue(s', id) && s'.fired == s.fired
      && (i == 0 ==> s'.mgr == Sweeping(End))
      && (i > 0 ==> s'.mgr == Sweeping(On(s.queue[i - 1].id)) && IndexOf(s'.queue, s.queue[i - 1].id) == i - 1)
      && (IndexOf(s.queue, id) < i ==> IndexOf(s'.queue, id) == IndexOf(s.queue, id))
  {
    var s', i, j := LookAt(s, c), IndexOf(s.queue, c), IndexOf(s.queue, id);
    InQueueAt(s, id);
    LookMoves(s, c, id);
    LookMovesCursor(s, c);
    if i > 0 {
      SamePlace(s, s', i, i - 1);
    }
    if j < i {
      SamePlace(s, s', i, j);
    }
  }

  /** The walk comes to this unit. */
  lemma {:induction false} WalkReaches(s: State, id: nat, ln: real -> real)
    requires Ready(s, id) && PositiveAboveOne(ln) && s.mgr.Sweeping? && s.mgr.cursor.On?
    requires IndexOf(s.queue, id) <= IndexOf(s.queue, s.mgr.cursor.id)
    ensures CanBeServed(s, id, ln)
    decreases IndexOf(s.queue, s.mgr.cursor.id)
  {
    var c := s.mgr.cursor.id;
    var s' := LookAt(s, c);
    InQueueAt(s, c);
    InQueueAt(s, id);
    if c == id {
      LookMoves(s, c, id);
      assert Serves(s', id, ln, [s'], []);
    } else {
      LookMovesOn(s, id, c);
      StepKeepsInv(s, Look, ln);
      WalkReaches(s', id, ln);
    }
    ServedLater(s, Look, id, ln);
  }

  lemma NextWalk(s: State, id: nat, ln: real -> real)
    requires Ready(s, id) && PositiveAboveOne(ln) && Enabled(s, Lock)
    ensures CanBeServed(s, id, ln)
  {
    var s' := Next(s, Lock, ln);
    StepKeepsInv(s, Lock, ln);
    InQueueAt(s, id);
    InQueueAt(s', s.queue[|s.queue| - 1].id);
    SamePlaces(s, s');
    WalkReaches(s', id, ln);
    ServedLater(s, Lock, id, ln);
  }

  /** The walk under way comes to this unit, or ends, and the next one does. */
  lemma {:induction false} ThisWalkOrTheNext(s: State, id: nat, ln: real -> real)
    requires Ready(s, id) && PositiveAboveOne(ln) && s.mgr.Sweeping?
    ensures CanBeServed(s, id, ln)
    decreases if s.mgr.cursor.On? then IndexOf(s.queue, s.mgr.cursor.id) + 1 else 0
  {
    if s.mgr.cursor == End {
      StepKeepsInv(s, Restart, ln);
      SamePlaces(s, Next(s, Restart, ln));
      NextWalk(Next(s, Restart, ln), id, ln);
      ServedLater(s, Restart, id, ln);
    } else {
      var c := s.mgr.cursor.id;
      if IndexOf(s.queue, id) <= IndexOf(s.queue, c) {
        WalkReaches(s, id, ln);
      } else {
        LookMovesOn(s, id, c);
        StepKeepsInv(s, Look, ln);
        ThisWalkOrTheNext(LookAt(s, c), id, ln);
        ServedLater(s, Look, id, ln);
      }
    }
  }

  /** No request is left behind: in every reachable state every queued unit can still
      be dispatched, by time passing, its timer delivering and the manager walking. */
  lemma QueuedCanBeServed(states: seq<State>, events: seq<Event>, ln: real -> real, i: nat, id: nat)
    requires Execution(states, events, ln) && i < |states| && InQueue(states[i], id)
    ensures CanBeServed(states[i], id, ln)
  {
    var s := states[i];
    InvAlways(states, events, ln, i);
    var k :| 0 <= k < |s.queue| && s.queue[k].id == id;
    var tick := Tick(if s.queue[k].fireAt > s.now then s.queue[k].fireAt - s.now else 0);
    var s1 := Next(s, tick, ln);
    var s2 := Next(s1, Fire(id), ln);
    assert s1.queue[k].id == id && s1.queue[k].fireAt <= s1.now;
    StepKeepsInv(s, tick, ln);
    StepKeepsInv(s1, Fire(id), ln);
    SamePlaces(s, s1);
    SamePlaces(s1, s2);
    if s2.mgr.Sweeping? {
      ThisWalkOrTheNext(s2, id, ln);
    } else {
      NextWalk(s2, id, ln);
    }
    ServedLater(s1, Fire(id), id, ln);
    ServedLater(s, tick, id, ln);
  }

  /** The units of `us` that have not been dispatched, in order. */
  ghost function Kept(us: seq<SchedulingUnit>, s: State): seq<SchedulingUnit> {
    if us == [] then [] else (if WasDispatched(s, us[0].id) then [] else [us[0]]) + Kept(us[1..], s)
  }

  /** How many nodes the manager looks at in the steps from `a` to `b`. */
  ghost function Looks(events: seq<Event>, a: nat, b: nat): nat
    requires a <= b <= |events|
    decreases b
  {
    if a == b then 0 else Looks(events, a, b - 1) + (if events[b - 1] == Look then 1 else 0)
  }

  /** The units that the steps from `a` to `b` put into the queue, in order. */
  ghost function Arrived(states: seq<State>, a: nat, b: nat): seq<SchedulingUnit>
    requires a <= b < |states|
    decreases b
  {
    if a == b then []
    else Arrived(states, a, b - 1) + NewcomerOf(states[b - 1], states[b])
  }

  /** A sweep that began with the queue `olds`, when `fired0` were the timers that had
      delivered: `k` nodes are left to look at, `arrived` came meanwhile. */
  datatype Sweep = Sweep(olds: seq<SchedulingUnit>, fired0: set<nat>, k: int, arrived: seq<SchedulingUnit>)

  ghost predicate MidSweep(w: Sweep, s: State) {
    && 0 <= w.k <= |w.olds|
    && s.mgr == Sweeping(CursorAt(w.olds, w.k - 1))
    && s.queue == w.olds[..w.k] + Kept(w.olds[w.k..], s) + w.arrived
    && Accounted(w, s)
  }

  ghost predicate Accounted(w: Sweep, s: State)
    requires 0 <= w.k <= |w.olds|
  {
    && (forall m :: w.k <= m < |w.olds| && w.olds[m].id in w.fired0 ==> WasDispatched(s, w.olds[m].id))
    && w.fired0 <= s.fired
    && (forall m :: 0 <= m < |w.olds| ==> w.olds[m].id < s.nextId)
    && (forall m, n :: 0 <= m < n < |w.olds| ==> w.olds[m].id < w.olds[n].id)
  }

  ghost function NewcomerOf(s: State, s': State): seq<SchedulingUnit> {
    if |s'.queue| > |s.queue| then [s'.queue[|s'.queue| - 1]] else []
  }

  ghost function SweepAfter(w: Sweep, s: State, e: Event, s': State): Sweep {
    w.(k := if e == Look then w.k - 1 else w.k, arrived := w.arrived + NewcomerOf(s, s'))
  }

  lemma {:induction false} KeptSame(us: seq<SchedulingUnit>, s: State, s': State)
    requires forall m :: 0 <= m < |us| ==> (WasDispatched(s, us[m].id) <==> WasDispatched(s', us[m].id))
    ensures Kept(us, s) == Kept(us, s')
  {
    if us != [] {
      assert WasDispatched(s, us[0].id) <==> WasDispatched(s', us[0].id);
      assert forall m :: 0 <= m < |us| - 1 ==> us[1..][m] == us[m + 1];
      KeptSame(us[1..], s, s');
    }
  }

  lemma SweepAdd(w: Sweep, s: State, rate: int, ln: real -> real)
    requires MidSweep(w, s)
    ensures MidSweep(SweepAfter(w, s, Add(rate), AddReq(s, rate, ln)), AddReq(s, rate, ln))
  {
    var s' := AddReq(s, rate, ln);
    forall m | 0 <= m < |w.olds| ensures WasDispatched(s, w.olds[m].id) <==> WasDispatched(s', w.olds[m].id) {
      AddMoves(s, rate, ln, w.olds[m].id);
    }
    KeptSame(w.olds[w.k..], s, s');
  }

  /** The next node to look at is still in the list, at its old place. */
  ghost predicate Ahead(w: Sweep, s: State) {
    0 < w.k <= |w.olds| && IndexOf(s.queue, w.olds[w.k - 1].id) == w.k - 1 && !WasDispatched(s, w.olds[w.k - 1].id)
  }

  lemma CursorIsAhead(w: Sweep, s: State)
    requires MidSweep(w, s) && w.k > 0 && Ordered(s) && Conserved(s)
    ensures Ahead(w, s) && s.mgr.cursor == On(w.olds[w.k - 1].id)
  {
    assert s.queue[w.k - 1] == w.olds[w.k - 1];
    assert InQueue(s, w.olds[w.k - 1].id);
    InQueueAt(s, w.olds[w.k - 1].id);
  }

  /** Only the unit looked at can change from kept to dispatched. */
  lemma LookDispatches(s: State, u: SchedulingUnit, id: nat)
    requires IndexOf(s.queue, u.id) < |s.queue| && s.queue[IndexOf(s.queue, u.id)] == u
    ensures WasDispatched(LookAt(s, u.id), id) <==> WasDispatched(s, id) || (u.id in s.fired && id == u.id)
  {
    if u.id in s.fired {
      AppendedMembers(s, u, LookAt(s, u.id), id);
    } else {
      SameDispatched(s, LookAt(s, u.id), id);
    }
  }

  lemma LookDispatchesOld(w: Sweep, s: State, m: nat)
    requires MidSweep(w, s) && Ahead(w, s) && m < |w.olds|
    ensures var u := w.olds[w.k - 1];
      WasDispatched(LookAt(s, u.id), w.olds[m].id) <==> WasDispatched(s, w.olds[m].id) || (u.id in s.fired && m == w.k - 1)
  {
    assert s.queue[w.k - 1] == w.olds[w.k - 1];
    LookDispatches(s, w.olds[w.k - 1], w.olds[m].id);
  }

  lemma LookAccounts(w: Sweep, s: State)
    requires MidSweep(w, s) && Ahead(w, s)
    ensures Accounted(w.(k := w.k - 1), LookAt(s, w.olds[w.k - 1].id))
  {
    var s' := LookAt(s, w.olds[w.k - 1].id);
    forall m | w.k - 1 <= m < |w.olds| && w.olds[m].id in w.fired0 ensures WasDispatched(s', w.olds[m].id) {
      LookDispatchesOld(w, s, m);
    }
  }

  lemma LookKept(w: Sweep, s: State)
    requires MidSweep(w, s) && Ahead(w, s)
    ensures var u := w.olds[w.k - 1];
      Kept(w.olds[w.k - 1..], LookAt(s, u.id)) == (if u.id in s.fired then [] else [u]) + Kept(w.olds[w.k..], s)
  {
    var u, rest := w.olds[w.k - 1], w.olds[w.k..];
    var s' := LookAt(s, u.id);
    forall m | 0 <= m < |rest| ensures WasDispatched(s, rest[m].id) <==> WasDispatched(s', rest[m].id) {
      LookDispatchesOld(w, s, w.k + m);
    }
    KeptSame(rest, s, s');
    LookDispatchesOld(w, s, w.k - 1);
    KeptOfCons(u, rest, s');
    assert w.olds[w.k - 1..] == [u] + rest;
  }

  lemma KeptOfCons(u: SchedulingUnit, rest: seq<SchedulingUnit>, s: State)
    ensures Kept([u] + rest, s) == (if WasDispatched(s, u.id) then [] else [u]) + Kept(rest, s)
  {
    assert ([u] + rest)[1..] == rest;
  }

  lemma SameDispatched(s: State, s': State, id: nat)
    requires s'.dispatched == s.dispatched
    ensures WasDispatched(s', id) <==> WasDispatched(s, id)
  {
  }

  /** The queue a look leaves, when `rest` is what follows the node looked at. */
  lemma LookLeaves(s: State, before: seq<SchedulingUnit>, u: SchedulingUnit, rest: seq<SchedulingUnit>)
    requires s.queue == before + [u] + rest && IndexOf(s.queue, u.id) == |before|
    ensures LookAt(s, u.id).queue == before + (if u.id in s.fired then [] else [u]) + rest
    ensures LookAt(s, u.id).mgr == Sweeping(CursorAt(before, |before| - 1))
    ensures |LookAt(s, u.id).queue| <= |s.queue|
  {
  }

  lemma SweepLook(w: Sweep, s: State)
    requires MidSweep(w, s) && Ahead(w, s)
    ensures var s' := LookAt(s, w.olds[w.k - 1].id);
      MidSweep(w.(k := w.k - 1), s') && |s'.queue| <= |s.queue|
  {
    LookKept(w, s);
    LookAccounts(w, s);
    var before, u, rest := w.olds[..w.k - 1], w.olds[w.k - 1], Kept(w.olds[w.k..], s) + w.arrived;
    Reassociate(before, u, w.olds, w.k, Kept(w.olds[w.k..], s), w.arrived, if u.id in s.fired then [] else [u]);
    LookLeaves(s, before, u, rest);
  }

  lemma Reassociate<T>(before: seq<T>, u: T, olds: seq<T>, k: nat, kept: seq<T>, arrived: seq<T>, mid: seq<T>)
    requires 0 < k <= |olds| && before == olds[..k - 1] && u == olds[k - 1]
    ensures olds[..k] + kept + arrived == before + [u] + (kept + arrived)
    ensures before + mid + (kept + arrived) == before + (mid + kept) + arrived
  {
  }

  lemma SweepOther(w: Sweep, s: State, s': State)
    requires MidSweep(w, s)
    requires s'.queue == s.queue && s'.dispatched == s.dispatched && s'.mgr == s.mgr && s'.nextId == s.nextId && s.fired <= s'.fired
    ensures MidSweep(w, s')
  {
    assert forall id: nat :: WasDispatched(s, id) <==> WasDispatched(s', id);
    KeptSame(w.olds[w.k..], s, s');
  }

  lemma SweepStart(s: State, ln: real -> real)
    requires Ordered(s) && s.queue != []
    ensures MidSweep(Sweep(s.queue, s.fired, |s.queue|, []), Next(s, Lock, ln))
  {
    assert s.queue[..|s.queue|] == s.queue && s.queue[|s.queue|..] == [];
  }

  /** The sweep that step `i` begins, as it stands at step `j`: as many looks less
      to do as were done, and what the adders queued meanwhile. */
  ghost function SweepAt(states: seq<State>, events: seq<Event>, i: nat, j: nat): Sweep
    requires i < j < |states| == |events| + 1
  {
    Sweep(states[i].queue, states[i].fired, |states[i].queue| - Looks(events, i + 1, j), Arrived(states, i + 1, j))
  }

  lemma SweepBegins(states: seq<State>, events: seq<Event>, ln: real -> real, i: nat)
    requires Execution(states, events, ln) && i < |events| && events[i] == Lock && states[i].queue != []
    ensures MidSweep(SweepAt(states, events, i, i + 1), states[i + 1])
  {
    InvAlways(states, events, ln, i);
    assert StepAt(states, events, ln, i);
    SweepStart(states[i], ln);
  }

  lemma SweepGoesOn(states: seq<State>, events: seq<Event>, ln: real -> real, i: nat, j: nat)
    requires Execution(states, events, ln) && i < j < |events| && events[j] != Restart
    requires MidSweep(SweepAt(states, events, i, j), states[j])
    ensures MidSweep(SweepAt(states, events, i, j + 1), states[j + 1])
  {
    SweepStep(states, events, ln, j, SweepAt(states, events, i, j));
    SweepAtNext(states, events, i, j);
  }

  lemma SweepAtNext(states: seq<State>, events: seq<Event>, i: nat, j: nat)
    requires i < j < |events| && |states| == |events| + 1
    ensures SweepAt(states, events, i, j + 1) == SweepAfter(SweepAt(states, events, i, j), states[j], events[j], states[j + 1])
  {
  }

  lemma CursorIsAheadAt(states: seq<State>, events: seq<Event>, ln: real -> real, j: nat, w: Sweep)
    requires Execution(states, events, ln) && j < |states|
    requires MidSweep(w, states[j]) && w.k > 0
    ensures Ahead(w, states[j]) && states[j].mgr.cursor == On(w.olds[w.k - 1].id)
  {
    InvAlways(states, events, ln, j);
    CursorIsAhead(w, states[j]);
  }

  lemma SweepStep(states: seq<State>, events: seq<Event>, ln: real -> real, j: nat, w: Sweep)
    requires Execution(states, events, ln) && j < |events| && events[j] != Restart
    requires MidSweep(w, states[j])
    ensures MidSweep(SweepAfter(w, states[j], events[j], states[j + 1]), states[j + 1])
  {
    assert StepAt(states, events, ln, j);
    var s, e := states[j], events[j];
    if e.Add? {
      SweepAdd(w, s, e.rate, ln);
    } else {
      assert w.arrived + [] == w.arrived;
      if e == Look {
        CursorIsAheadAt(states, events, ln, j, w);
        SweepLook(w, s);
      } else {
        SweepOther(w, s, states[j + 1]);
      }
    }
  }

  /** A sweep under interference. However many units arrive between its steps, after
      n looks the manager is about to look at the n-th last unit of the queue as it
      was at the start, so it inspects each of those exactly once and ends after as
      many looks as there were. The queue is what survives of the old units, in
      order, followed by the new ones, in order; and every unit it has looked at
      whose timer had delivered at the start is gone. */
  lemma {:induction false} SweepUnderInterference(states: seq<State>, events: seq<Event>, ln: real -> real, i: nat, j: nat)
    requires Execution(states, events, ln) && i < j <= |events|
    requires events[i] == Lock && states[i].queue != []
    requires forall m :: i < m < j ==> events[m] != Restart
    ensures MidSweep(SweepAt(states, events, i, j), states[j])
    decreases j
  {
    if j == i + 1 {
      SweepBegins(states, events, ln, i);
    } else {
      SweepUnderInterference(states, events, ln, i, j - 1);
      SweepGoesOn(states, events, ln, i, j - 1);
    }
  }

  /** ... in particular when the sweep is over. */
  lemma FinishedSweep(states: seq<State>, events: seq<Event>, ln: real -> real, i: nat, j: nat)
    requires Execution(states, events, ln) && i < j <= |events|
    requires events[i] == Lock && states[i].queue != []
    requires forall m :: i < m < j ==> events[m] != Restart
    requires Enabled(states[j], Restart)
    ensures Looks(events, i + 1, j) == |states[i].queue|
    ensures states[j].queue == Kept(states[i].queue, states[j]) + Arrived(states, i + 1, j)
    ensures forall m :: 0 <= m < |states[i].queue| && states[i].queue[m].id in states[i].fired
                        ==> !InQueue(states[j], states[i].queue[m].id)
  {
    SweepUnderInterference(states, events, ln, i, j);
    InvAlways(states, events, ln, j);
    SweepEnd(SweepAt(states, events, i, j), states[j]);
  }

  lemma SweepEnd(w: Sweep, s: State)
    requires MidSweep(w, s) && Conserved(s) && Enabled(s, Restart)
    ensures w.k == 0 && s.queue == Kept(w.olds, s) + w.arrived
    ensures forall m :: 0 <= m < |w.olds| && w.olds[m].id in w.fired0 ==> !InQueue(s, w.olds[m].id)
  {
    assert w.olds[..0] == [] && w.olds[0..] == w.olds;
  }
}
