/** The breaker for unlimited container concurrency: it lets everyone pass while
    there is capacity and parks everyone on a broadcast channel while there is
    none. First the object, one call at a time; then all interleavings. */
module InfiniteBreaker {

  function ZeroOrOne(x: int): int {
    if x == 0 then 0 else 1
  }

  class Channel {
    var closed: bool

    constructor ()
      ensures !closed
    {
      closed := false;
    }

    /** Closing a closed channel panics. */
    method Close()
      requires !closed
      modifies this
      ensures closed
    {
      closed := true;
    }
  }

  class Breaker {
    var broadcast: Channel
    var concurrency: int

    ghost predicate Valid()
      reads this, broadcast
    {
      (concurrency == 0 && !broadcast.closed) || (concurrency == 1 && broadcast.closed)
    }

    constructor ()
      ensures Valid() && concurrency == 0 && fresh(broadcast)
    {
      broadcast := new Channel();
      concurrency := 0;
    }

    /** Whoever waited on the channel can go on as soon as there is capacity, and
        stays free to go on when the capacity disappears again. */
    method UpdateConcurrency(cc: int)
      requires Valid()
      modifies this, broadcast
      ensures Valid() && concurrency == if cc == 0 then 0 else 1
      ensures broadcast == old(broadcast) || (fresh(broadcast) && old(broadcast).closed)
      ensures cc != 0 ==> old(broadcast).closed
      ensures old(broadcast.closed) ==> old(broadcast).closed
    {
      var rcc := ZeroOrOne(cc);
      var before := concurrency;
      concurrency := rcc;
      if before != rcc {
        if rcc == 0 {
          broadcast := new Channel();
        } else {
          broadcast.Close();
        }
      }
    }
  }

  /** Where a goroutine is. Between `Locked` and the end of `Unlocking` it holds the
      write lock, in `RLocked` and `HasChannel` the read lock. The capacity is read
      without a lock. */
  datatype Pc =
    | WantsLock(rcc: int) | Locked(rcc: int) | Swapped(rcc: int, before: int) | Unlocking
    | Checking | WantsRLock | RLocked | HasChannel(ch: nat)
    | Waiting(ch: nat) | Ran | Cancelled | Returned
  {
    predicate Writes() { Locked? || Swapped? || Unlocking? }
    predicate Reads() { RLocked? || HasChannel? }
  }

  /** `closed[i]` is the state of the i-th channel made; the last is the current one. */
  datatype State = State(concurrency: int, closed: seq<bool>, pcs: map<nat, Pc>) {
    function Current(): int { |closed| - 1 }
  }

  datatype Event = CallUpdate(g: nat, cc: int) | CallMaybe(g: nat) | Advance(g: nat) | Cancel(g: nat)

  predicate Initial(s: State) {
    s == State(0, [false], map[])
  }

  ghost predicate Enabled(s: State, e: Event) {
    match e
    case CallUpdate(g, cc) => g !in s.pcs
    case CallMaybe(g) => g !in s.pcs
    case Cancel(g) => g in s.pcs && s.pcs[g].Waiting?
    case Advance(g) =>
      g in s.pcs && (
        match s.pcs[g]
        case WantsLock(_) => forall h :: h in s.pcs ==> !s.pcs[h].Writes() && !s.pcs[h].Reads()
        case WantsRLock => forall h :: h in s.pcs ==> !s.pcs[h].Writes()
        case Waiting(ch) => ch < |s.closed| && s.closed[ch]
        case Ran => false
        case Cancelled => false
        case Returned => false
        case _ => true)
  }

  function At(s: State, g: nat, pc: Pc): State {
    s.(pcs := s.pcs[g := pc])
  }

  function Next(s: State, e: Event): State {
    match e
    case CallUpdate(g, cc) => At(s, g, WantsLock(ZeroOrOne(cc)))
    case CallMaybe(g) => At(s, g, Checking)
    case Cancel(g) => At(s, g, Cancelled)
    case Advance(g) => if g in s.pcs then Move(s, g) else s
  }

  function Move(s: State, g: nat): State
    requires g in s.pcs
  {
    match s.pcs[g]
    case WantsLock(rcc) => At(s, g, Locked(rcc))
    case Locked(rcc) => At(s, g, Swapped(rcc, s.concurrency)).(concurrency := rcc)
    case Swapped(rcc, before) =>
      if before == rcc then At(s, g, Unlocking)
      else if rcc == 0 then At(s, g, Unlocking).(closed := s.closed + [false])
      else if |s.closed| > 0 then At(s, g, Unlocking).(closed := s.closed[s.Current() := true])
      else s
    case Unlocking => At(s, g, Returned)
    case Checking => At(s, g, if s.concurrency > 0 then Ran else WantsRLock)
    case WantsRLock => At(s, g, RLocked)
    case RLocked => if |s.closed| > 0 then At(s, g, HasChannel(s.Current())) else s
    case HasChannel(ch) => At(s, g, Waiting(ch))
    case Waiting(ch) => At(s, g, Ran)
    case _ => s
  }

  ghost predicate Execution(states: seq<State>, events: seq<Event>) {
    && |states| == |events| + 1
    && Initial(states[0])
    && forall i :: 0 <= i < |events| ==> Enabled(states[i], events[i]) && states[i + 1] == Next(states[i], events[i])
  }

  /** No writer is between swapping the capacity and moving the channel along. */
  ghost predicate Settled(s: State) {
    forall g :: g in s.pcs ==> !s.pcs[g].Swapped?
  }

  ghost predicate Exclusive(s: State) {
    forall g, h :: g in s.pcs && h in s.pcs && g != h && s.pcs[g].Writes() ==> !s.pcs[h].Writes() && !s.pcs[h].Reads()
  }

  ghost predicate Channels(s: State) {
    && |s.closed| > 0
    && (forall i :: 0 <= i < s.Current() ==> s.closed[i])
    && 0 <= s.concurrency <= 1
    && (Settled(s) ==> (s.concurrency == 1 <==> s.closed[s.Current()]))
  }

  ghost predicate Local(s: State, g: nat)
    requires g in s.pcs
  {
    match s.pcs[g]
    case WantsLock(rcc) => 0 <= rcc <= 1
    case Locked(rcc) => 0 <= rcc <= 1
    case Swapped(rcc, before) =>
      0 <= rcc <= 1 && 0 <= before <= 1 && s.concurrency == rcc && |s.closed| > 0 && (s.closed[s.Current()] <==> before == 1)
    case HasChannel(ch) => ch == s.Current()
    case Waiting(ch) => ch < |s.closed|
    case _ => true
  }

  ghost predicate Inv(s: State) {
    Exclusive(s) && Channels(s) && forall g :: g in s.pcs ==> Local(s, g)
  }

  lemma StepKeepsExclusive(s: State, e: Event)
    requires Inv(s) && Enabled(s, e)
    ensures Exclusive(Next(s, e))
  {
  }

  lemma StepKeepsChannels(s: State, e: Event)
    requires Inv(s) && Enabled(s, e)
    ensures Channels(Next(s, e))
  {
    var s' := Next(s, e);
    if e.Advance? && s.pcs[e.g].Swapped? {
      assert !s'.pcs[e.g].Swapped?;
      assert forall h :: h in s.pcs && h != e.g ==> !s.pcs[h].Writes();
    } else if e.Advance? && s.pcs[e.g].Locked? {
      assert s'.pcs[e.g].Swapped?;
    } else {
      assert Settled(s') ==> Settled(s) by {
        forall h | h in s.pcs && s.pcs[h].Swapped? ensures !Settled(s') {
          assert s'.pcs[h].Swapped?;
        }
      }
    }
  }

  /** Only a writer changes the capacity and the channels, and then nobody else is
      between reading them and using what was read. */
  lemma OtherKeepsLocal(s: State, g: nat, h: nat)
    requires Inv(s) && g in s.pcs && h in s.pcs && g != h
    ensures h in Move(s, g).pcs && Local(Move(s, g), h)
  {
    assert Local(s, h);
    if s.pcs[g].Writes() {
      assert !s.pcs[h].Writes() && !s.pcs[h].Reads();
    }
  }

  lemma LockedIsSettled(s: State, g: nat)
    requires Inv(s) && g in s.pcs && s.pcs[g].Locked?
    ensures Settled(s)
  {
    assert forall k :: k in s.pcs && k != g ==> !s.pcs[k].Writes();
  }

  lemma MoverKeepsLocal(s: State, g: nat)
    requires Inv(s) && Enabled(s, Advance(g))
    ensures g in Move(s, g).pcs && Local(Move(s, g), g)
  {
    assert Local(s, g);
    if s.pcs[g].Locked? {
      LockedIsSettled(s, g);
    }
  }

  lemma StepKeepsLocal(s: State, e: Event, h: nat)
    requires Inv(s) && Enabled(s, e) && h in Next(s, e).pcs
    ensures Local(Next(s, e), h)
  {
    if e.Advance? {
      if h == e.g {
        MoverKeepsLocal(s, h);
      } else {
        OtherKeepsLocal(s, e.g, h);
      }
    } else if h != e.g {
      assert Local(s, h);
    }
  }

  lemma {:induction false} InvAlways(states: seq<State>, events: seq<Event>, i: nat)
    requires Execution(states, events) && i < |states|
    ensures Inv(states[i])
  {
    if i > 0 {
      InvAlways(states, events, i - 1);
      StepKeepsExclusive(states[i - 1], events[i - 1]);
      StepKeepsChannels(states[i - 1], events[i - 1]);
      forall g | g in states[i].pcs ensures Local(states[i], g) {
        StepKeepsLocal(states[i - 1], events[i - 1], g);
      }
    }
  }

  /** In every reachable state outside the lock: the capacity is 1 exactly when the
      current channel is closed, and all older channels are closed. */
  lemma CapacityIsTheChannel(states: seq<State>, events: seq<Event>, i: nat)
    requires Execution(states, events) && i < |states|
    requires forall g :: g in states[i].pcs ==> !states[i].pcs[g].Writes()
    ensures |states[i].closed| > 0 && (states[i].concurrency == 1 <==> states[i].closed[states[i].Current()])
    ensures forall k :: 0 <= k < states[i].Current() ==> states[i].closed[k]
  {
    InvAlways(states, events, i);
  }

  /** No channel is ever closed twice, which would panic. */
  lemma NoDoubleClose(states: seq<State>, events: seq<Event>, i: nat, g: nat)
    requires Execution(states, events) && i < |events| && events[i] == Advance(g)
    requires g in states[i].pcs && states[i].pcs[g].Swapped? && states[i].pcs[g].rcc == 1 && states[i].pcs[g].before != 1
    ensures |states[i].closed| > 0 && !states[i].closed[states[i].Current()]
  {
    InvAlways(states, events, i);
    assert Local(states[i], g);
  }

  /** A caller that is stuck holds the current channel, and unless a writer is just
      about to close it, there is no capacity. */
  lemma StuckMeansNoCapacity(states: seq<State>, events: seq<Event>, i: nat, g: nat)
    requires Execution(states, events) && i < |states|
    requires g in states[i].pcs && states[i].pcs[g].Waiting? && !Enabled(states[i], Advance(g))
    ensures states[i].pcs[g].ch == states[i].Current()
    ensures Settled(states[i]) ==> states[i].concurrency == 0
  {
    InvAlways(states, events, i);
    assert Local(states[i], g);
  }

  lemma {:induction false} ClosedStaysClosed(states: seq<State>, events: seq<Event>, i: nat, j: nat, ch: nat)
    requires Execution(states, events) && i <= j < |states|
    requires ch < |states[i].closed| && states[i].closed[ch]
    ensures ch < |states[j].closed| && states[j].closed[ch]
  {
    if i < j {
      ClosedStaysClosed(states, events, i, j - 1, ch);
    }
  }

  /** No wakeup is lost: a caller that waits when the capacity is there can go on,
      from then on and for as long as it waits, even if the capacity has gone again. */
  lemma NoLostWakeup(states: seq<State>, events: seq<Event>, i: nat, j: nat, g: nat)
    requires Execution(states, events) && i <= j < |states|
    requires Settled(states[i]) && states[i].concurrency == 1
    requires g in states[i].pcs && states[i].pcs[g].Waiting?
    requires g in states[j].pcs && states[j].pcs[g] == states[i].pcs[g]
    ensures Enabled(states[j], Advance(g))
  {
    InvAlways(states, events, i);
    var ch := states[i].pcs[g].ch;
    assert Local(states[i], g);
    ClosedStaysClosed(states, events, i, j, ch);
  }

  /** Goroutine `g` is let through at step `i`: at once because there is capacity, or
      because the channel it waits on is closed. */
  ghost predicate LetThrough(states: seq<State>, events: seq<Event>, i: nat, g: nat)
    requires i < |events| < |states|
  {
    && events[i] == Advance(g) && g in states[i].pcs
    && var s := states[i];
       match s.pcs[g]
       case Checking => s.concurrency == 1
       case Waiting(ch) => ch < |s.closed| && s.closed[ch]
       case _ => false
  }

  /** A step lets a caller run exactly when it is let through; without capacity a
      caller that asks goes on to wait. */
  lemma RunsExactlyWhenLetThrough(states: seq<State>, events: seq<Event>, i: nat, g: nat)
    requires Execution(states, events) && i < |events| && g in states[i].pcs
    ensures g in states[i + 1].pcs
    ensures states[i].pcs[g] != Ran && states[i + 1].pcs[g] == Ran <==> LetThrough(states, events, i, g)
    ensures states[i].pcs[g] == Ran ==> states[i + 1].pcs[g] == Ran
    ensures events[i] == Advance(g) && states[i].pcs[g] == Checking && states[i].concurrency == 0
            ==> states[i + 1].pcs[g] == WantsRLock
  {
    InvAlways(states, events, i);
    assert Enabled(states[i], events[i]);
  }

  /** The way of a caller, one step at a time, up to being let through: it asks, takes
      the read lock, takes the current channel, gives the lock back, waits. */
  ghost predicate AsksAndWaits(s: State, pc: Pc, pc': Pc) {
    match pc
    case Checking => pc' == WantsRLock
    case WantsRLock => pc' == RLocked
    case RLocked => pc'.HasChannel? && pc'.ch == |s.closed| - 1
    case HasChannel(ch) => pc' == Waiting(ch)
    case Waiting(_) => pc' == Cancelled
    case _ => false
  }

  /** A caller begins by asking, and every step moves it along its way, lets it
      through, or leaves it alone. */
  lemma CallersGoTheirWay(states: seq<State>, events: seq<Event>, i: nat, g: nat)
    requires Execution(states, events) && i < |events|
    ensures events[i] == CallMaybe(g) ==> g in states[i + 1].pcs && states[i + 1].pcs[g] == Checking
    ensures g in states[i].pcs && IsCaller(states[i].pcs[g]) ==>
              && g in states[i + 1].pcs
              && (LetThrough(states, events, i, g)
                  || AsksAndWaits(states[i], states[i].pcs[g], states[i + 1].pcs[g])
                  || (states[i + 1].pcs[g] == states[i].pcs[g] && events[i] != Advance(g) && events[i] != Cancel(g)))
  {
    InvAlways(states, events, i);
    assert Enabled(states[i], events[i]);
  }

  predicate IsCaller(pc: Pc) {
    pc.Checking? || pc.WantsRLock? || pc.RLocked? || pc.HasChannel? || pc.Waiting? || pc.Ran? || pc.Cancelled?
  }

  /** No deadlock: as long as a goroutine is neither through nor waiting on its channel,
      somebody can go on. */
  lemma NoDeadlock(states: seq<State>, events: seq<Event>, i: nat, g: nat)
    requires Execution(states, events) && i < |states| && g in states[i].pcs
    requires var pc := states[i].pcs[g]; !pc.Waiting? && !pc.Ran? && !pc.Cancelled? && !pc.Returned?
    ensures exists h :: Enabled(states[i], Advance(h))
  {
    var s := states[i];
    if h :| h in s.pcs && (s.pcs[h].Writes() || s.pcs[h].Reads()) {
      assert Enabled(s, Advance(h));
    } else {
      assert Enabled(s, Advance(g));
    }
  }

  /** Nobody runs without: whoever has run was let through once. */
  lemma {:induction false} RanWasLetThrough(states: seq<State>, events: seq<Event>, i: nat, g: nat)
    requires Execution(states, events) && i < |states| && g in states[i].pcs && states[i].pcs[g] == Ran
    ensures exists k :: 0 <= k < i && LetThrough(states, events, k, g)
  {
    if i > 0 {
      assert Enabled(states[i - 1], events[i - 1]);
      if g in states[i - 1].pcs {
        RunsExactlyWhenLetThrough(states, events, i - 1, g);
        if states[i - 1].pcs[g] == Ran {
          RanWasLetThrough(states, events, i - 1, g);
        }
      }
    }
  }

  /** How far the update of goroutine `g` to `rcc` has come. From the swap to the
      release of the lock the capacity is `rcc`, and at the end the channel agrees. */
  ghost predicate Updating(s: State, g: nat, rcc: int) {
    && g in s.pcs
    && match s.pcs[g]
       case WantsLock(r) => r == rcc
       case Locked(r) => r == rcc
       case Swapped(r, _) => r == rcc == s.concurrency
       case Unlocking => s.concurrency == rcc && |s.closed| > 0 && (s.closed[s.Current()] <==> rcc == 1)
       case Returned => true
       case _ => false
  }

  lemma UpdatingMoves(s: State, g: nat, rcc: int)
    requires Inv(s) && Updating(s, g, rcc) && Enabled(s, Advance(g))
    ensures Updating(Move(s, g), g, rcc)
  {
    assert Local(s, g);
  }

  lemma UpdatingStays(s: State, e: Event, g: nat, rcc: int)
    requires Inv(s) && Updating(s, g, rcc) && Enabled(s, e) && e != Advance(g)
    ensures Updating(Next(s, e), g, rcc)
  {
    if e.Advance? {
      assert Local(s, e.g);
      if s.pcs[g].Writes() {
        assert !s.pcs[e.g].Writes();
      }
    }
  }

  /** An update takes effect: a call with `cc` sets the capacity to 0 if `cc` is 0 and
      to 1 otherwise, and hands the lock on with the channel open or closed to match. */
  lemma {:induction false} UpdateTakesEffect(states: seq<State>, events: seq<Event>, a: nat, i: nat, g: nat, cc: int)
    requires Execution(states, events) && a < i < |states| && events[a] == CallUpdate(g, cc)
    ensures Updating(states[i], g, if cc == 0 then 0 else 1)
  {
    assert Enabled(states[i - 1], events[i - 1]);
    if a < i - 1 {
      UpdateTakesEffect(states, events, a, i - 1, g, cc);
      InvAlways(states, events, i - 1);
      if events[i - 1] == Advance(g) {
        UpdatingMoves(states[i - 1], g, if cc == 0 then 0 else 1);
      } else {
        UpdatingStays(states[i - 1], events[i - 1], g, if cc == 0 then 0 else 1);
      }
    }
  }
}
