/** The life of the `done` channel of one request in the sequence branch of the
    handler. Three parties may close it: the adder when the queue is full, the
    goroutine that serves the request, and the handler when it gives up waiting.
    Closing it twice panics. Time is real, in seconds; a parked `select` is
    decided by whichever of its events comes first. */
module DoneChannel {

  const SERVE_LIMIT: real := 300.0
  const HANDLER_LIMIT: real := 320.0

  datatype Unit = New | Accepted | Rejected | Serving(since: real) | Served(closed: bool)
  datatype Handler = Before | Waiting(since: real) | Woken | GaveUp(since: real)

  datatype State = State(now: real, u: Unit, h: Handler, closes: nat)

  datatype Event = Reject | Accept | Wait | Dispatch | Return | Wake | GiveUp | Elapse(dt: real)

  predicate Initial(s: State) {
    s.u == New && s.h == Before && s.closes == 0
  }

  /** `delay` bounds the time from the moment the handler starts to wait to the
      moment the request is dispatched. */
  predicate Enabled(s: State, e: Event, delay: real) {
    match e
    case Reject => s.u == New
    case Accept => s.u == New
    case Wait => s.h == Before && s.u != New
    case Dispatch =>
      s.u == Accepted && (s.h.Waiting? || s.h.GaveUp? ==> s.now <= s.h.since + delay)
    case Return => s.u.Serving?
    case Wake => s.h.Waiting? && s.closes > 0
    case GiveUp => s.h.Waiting? && s.closes == 0 && s.now >= s.h.since + HANDLER_LIMIT
    case Elapse(dt) =>
      // a handler whose select is decided goes on at once
      dt >= 0.0 && (s.h.Waiting? ==> s.closes == 0 && s.now + dt <= s.h.since + HANDLER_LIMIT)
  }

  function Next(s: State, e: Event): State {
    match e
    case Reject => s.(u := Rejected, closes := s.closes + 1)
    case Accept => s.(u := Accepted)
    case Wait => s.(h := Waiting(s.now))
    case Dispatch => s.(u := Serving(s.now))
    case Return =>
      if s.u.Serving? && s.now < s.u.since + SERVE_LIMIT then s.(u := Served(true), closes := s.closes + 1)
      else s.(u := Served(false))
    case Wake => s.(h := Woken)
    case GiveUp => s.(h := GaveUp(if s.h.Waiting? then s.h.since else 0.0), closes := s.closes + 1)
    case Elapse(dt) => s.(now := s.now + dt)
  }

  ghost predicate Execution(states: seq<State>, events: seq<Event>, delay: real) {
    && |states| == |events| + 1
    && Initial(states[0])
    && forall i :: 0 <= i < |events| ==> Enabled(states[i], events[i], delay) && states[i + 1] == Next(states[i], events[i])
  }

  /** Who closes the channel: the adder that turns the request away, the server that
      returns within 300 s of the dispatch, the handler that gives up; nobody else. */
  lemma ClosedBy(states: seq<State>, events: seq<Event>, delay: real, i: nat)
    requires Execution(states, events, delay) && i < |events|
    ensures events[i] == Return ==> states[i].u.Serving?
    ensures events[i] == Return ==>
              states[i + 1].closes == states[i].closes + (if states[i].now < states[i].u.since + 300.0 then 1 else 0)
    ensures events[i] == Reject || events[i] == GiveUp ==> states[i + 1].closes == states[i].closes + 1
    ensures events[i] != Return && events[i] != Reject && events[i] != GiveUp ==> states[i + 1].closes == states[i].closes
  {
    assert Enabled(states[i], events[i], delay);
  }

  /** What the clock has shown: service counts from the dispatch, waiting from the
      moment the handler began to wait, and it gives up at 320 s and not before. */
  ghost predicate Clocked(states: seq<State>, events: seq<Event>, i: nat)
    requires i < |states| == |events| + 1
  {
    var s := states[i];
    && (s.u.Serving? ==> exists k :: 0 <= k < i && events[k] == Dispatch && s.u.since == states[k].now)
    && (s.h.Waiting? || s.h.GaveUp? ==> exists k :: 0 <= k < i && events[k] == Wait && s.h.since == states[k].now)
    && (s.h.Waiting? ==> s.h.since <= s.now <= s.h.since + 320.0)
    && (s.h.GaveUp? ==> s.now >= s.h.since + 320.0)
  }

  lemma {:induction false} ClockedAlways(states: seq<State>, events: seq<Event>, delay: real, i: nat)
    requires Execution(states, events, delay) && i < |states|
    ensures Clocked(states, events, i)
  {
    if i > 0 {
      ClockedAlways(states, events, delay, i - 1);
      var e := events[i - 1];
      assert Enabled(states[i - 1], e, delay);
      assert e.Elapse? ==> states[i].now == states[i - 1].now + e.dt;
    }
  }

  /** A request served in time reaches the handler: one that waits can wake up at once,
      and can neither give up nor let time pass. */
  lemma ServedInTimeWakes(states: seq<State>, events: seq<Event>, delay: real, i: nat, since: real, dt: real)
    requires Execution(states, events, delay) && i < |events| && events[i] == Return && states[i].u == Serving(since)
    requires states[i].now < since + 300.0 && states[i].h.Waiting?
    ensures var s := states[i + 1];
      && s.h.Waiting? && s.u == Served(true)
      && Enabled(s, Wake, delay) && Next(s, Wake).h == Woken
      && !Enabled(s, GiveUp, delay) && !Enabled(s, Elapse(dt), delay)
  {
    ClosedBy(states, events, delay, i);
  }

  /** The request is never stuck: a new one is accepted or rejected, an accepted one
      can be dispatched as long as the delay allows, and one that is served can return. */
  lemma RequestGoesOn(states: seq<State>, events: seq<Event>, delay: real, i: nat)
    requires Execution(states, events, delay) && i < |states|
    ensures var s := states[i];
      match s.u
      case New => Enabled(s, Accept, delay) && Enabled(s, Reject, delay)
      case Accepted => Enabled(s, Dispatch, delay) <==> (s.h.Waiting? || s.h.GaveUp? ==> s.now <= s.h.since + delay)
      case Serving(_) => Enabled(s, Return, delay)
      case _ => s.h == Before ==> Enabled(s, Wait, delay)
  {
  }

  /** A waiting handler is never stuck: it wakes if the channel is closed, gives up if
      320 s are over, and otherwise up to that moment time can pass. */
  lemma WaitingEnds(states: seq<State>, events: seq<Event>, delay: real, i: nat)
    requires Execution(states, events, delay) && i < |states| && states[i].h.Waiting?
    ensures var s := states[i]; var left := s.h.since + 320.0 - s.now;
      && (Enabled(s, Wake, delay) <==> s.closes > 0)
      && (Enabled(s, GiveUp, delay) <==> s.closes == 0 && left == 0.0)
      && (s.closes == 0 ==> Enabled(s, Elapse(left), delay) && Next(s, Elapse(left)).now == s.h.since + 320.0)
  {
    ClockedAlways(states, events, delay, i);
  }

  ghost predicate Inv(s: State) {
    && s.closes == (if s.u == Rejected || s.u == Served(true) then 1 else 0) + (if s.h.GaveUp? then 1 else 0)
    && (s.u == New ==> s.h == Before)
    && (s.h == Woken ==> s.closes > 0)
    && (s.h.Waiting? ==> s.h.since <= s.now)
    && (s.u.Serving? ==> s.u.since <= s.now)
    && (s.h.GaveUp? ==> s.now >= s.h.since + HANDLER_LIMIT && s.u != Rejected && s.u != Served(true))
    && (s.u.Serving? && (s.h.Waiting? || s.h.GaveUp?) ==> s.u.since <= s.h.since + (HANDLER_LIMIT - SERVE_LIMIT))
  }

  lemma {:induction false} InvAlways(states: seq<State>, events: seq<Event>, delay: real, i: nat)
    requires Execution(states, events, delay) && i < |states|
    requires delay <= HANDLER_LIMIT - SERVE_LIMIT
    ensures Inv(states[i])
  {
    if i > 0 {
      InvAlways(states, events, delay, i - 1);
    }
  }

  /** If the request is dispatched within 20 s of the handler starting to wait, the
      channel is never closed twice, and once the handler is through it has been
      closed exactly once. */
  lemma ClosedExactlyOnce(states: seq<State>, events: seq<Event>, delay: real, i: nat)
    requires Execution(states, events, delay) && i < |states|
    requires delay <= 20.0
    ensures states[i].closes <= 1
    ensures states[i].h == Woken || states[i].h.GaveUp? ==> states[i].closes == 1
  {
    InvAlways(states, events, delay, i);
  }

  /** A run in which the handler gives up while the request is still within its own
      limit: both close the channel. */
  lemma LateDispatchClosesTwice(delay: real) returns (states: seq<State>, events: seq<Event>)
    requires delay > 20.0
    ensures Execution(states, events, delay) && states[|events|].closes == 2
  {
    var d := if delay < 30.0 then delay else 30.0;
    events := [Accept, Wait, Elapse(d), Dispatch, Elapse(HANDLER_LIMIT - d), GiveUp, Elapse((d - 20.0) / 2.0), Return];
    var s0 := State(0.0, New, Before, 0);
    var s1 := Next(s0, events[0]);
    var s2 := Next(s1, events[1]);
    var s3 := Next(s2, events[2]);
    var s4 := Next(s3, events[3]);
    var s5 := Next(s4, events[4]);
    var s6 := Next(s5, events[5]);
    var s7 := Next(s6, events[6]);
    var s8 := Next(s7, events[7]);
    states := [s0, s1, s2, s3, s4, s5, s6, s7, s8];
  }

  ghost predicate NeverClosedTwice(states: seq<State>) {
    forall i :: 0 <= i < |states| ==> states[i].closes <= 1
  }

  /** The bound is exact: no run closes twice if and only if dispatch comes within
      the 20 s by which the handler's limit exceeds the server's. */
  lemma DispatchBoundIsExact(delay: real)
    ensures (forall states: seq<State>, events: seq<Event> :: Execution(states, events, delay) ==> NeverClosedTwice(states))
            <==> delay <= 20.0
  {
    if delay <= 20.0 {
      forall states: seq<State>, events: seq<Event> | Execution(states, events, delay) ensures NeverClosedTwice(states) {
        forall i | 0 <= i < |states| ensures states[i].closes <= 1 {
          ClosedExactlyOnce(states, events, delay, i);
        }
      }
    } else {
      var states, events := LateDispatchClosesTwice(delay);
      assert states[|events|].closes == 2;
      assert !NeverClosedTwice(states);
    }
  }
}
