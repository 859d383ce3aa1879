/** The redaction circuit breaker: a tumbling fault window, a trip, a cooldown, a half-open. */
module Breaker {
  import opened Prelude

  /** Times and durations are in one unit; `threshold` is at least one. */
  datatype Config = Config(threshold: nat, window: nat, cooldown: nat) {
    ghost predicate Valid() { threshold >= 1 }
  }

  datatype State = State(windowStart: nat, faults: nat, openedAt: Option<nat>) {
    predicate Open() { openedAt.Some? }
  }

  datatype Event = Call(at: nat) | Fault(at: nat)

  function Since(now: nat, t: nat): nat {
    if now >= t then now - t else 0
  }

  predicate Allows(c: Config, s: State, now: nat) {
    s.Open() ==> Since(now, s.openedAt.value) >= c.cooldown
  }

  function AfterCall(c: Config, s: State, now: nat): State {
    if s.Open() && Allows(c, s, now) then State(now, 0, None) else s
  }

  /** The window a fault at `now` is counted in. */
  function Counted(c: Config, s: State, now: nat): State {
    var t := if Since(now, s.windowStart) > c.window then s.(windowStart := now, faults := 0) else s;
    t.(faults := t.faults + 1)
  }

  predicate Trips(c: Config, s: State, now: nat) {
    Counted(c, s, now).faults >= c.threshold && !s.Open()
  }

  function AfterFault(c: Config, s: State, now: nat): State {
    if Trips(c, s, now) then Counted(c, s, now).(openedAt := Some(now)) else Counted(c, s, now)
  }

  class CircuitBreaker {
    const config: Config
    var windowStart: nat
    var faults: nat
    var openedAt: Option<nat>

    function Value(): State
      reads this
    {
      State(windowStart, faults, openedAt)
    }

    constructor (threshold: nat, window: nat, cooldown: nat, now: nat)
      ensures config == Config(if threshold == 0 then 1 else threshold, window, cooldown)
      ensures config.Valid() && Value() == State(now, 0, None)
    {
      config := Config(if threshold == 0 then 1 else threshold, window, cooldown);
      windowStart, faults, openedAt := now, 0, None;
    }

    method AllowAt(now: nat) returns (allowed: bool)
      modifies this
      ensures allowed == Allows(config, old(Value()), now)
      ensures Value() == AfterCall(config, old(Value()), now)
    {
      if openedAt.Some? {
        if Since(now, openedAt.value) < config.cooldown {
          return false;
        }
        openedAt := None;
        faults := 0;
        windowStart := now;
      }
      return true;
    }

    method RecordFaultAt(now: nat) returns (tripped: bool)
      modifies this
      ensures tripped == Trips(config, old(Value()), now)
      ensures Value() == AfterFault(config, old(Value()), now)
    {
      if Since(now, windowStart) > config.window {
        windowStart := now;
        faults := 0;
      }
      faults := faults + 1;
      if faults >= config.threshold && openedAt.None? {
        openedAt := Some(now);
        return true;
      }
      return false;
    }
  }

  // ----- runs

  function After(c: Config, s: State, e: Event): State {
    if e.Call? then AfterCall(c, s, e.at) else AfterFault(c, s, e.at)
  }

  function Run(c: Config, s: State, events: seq<Event>): State {
    if events == [] then s
    else After(c, Run(c, s, events[..|events| - 1]), events[|events| - 1])
  }

  /** Times never go back, and start no earlier than `from`. */
  ghost predicate Ordered(events: seq<Event>, from: nat) {
    && (forall e <- events :: from <= e.at)
    && forall i, j | 0 <= i < j < |events| :: events[i].at <= events[j].at
  }

  function FaultsFrom(events: seq<Event>, t: nat): nat {
    if events == [] then 0
    else
      var e := events[|events| - 1];
      FaultsFrom(events[..|events| - 1], t) + if e.Fault? && e.at >= t then 1 else 0
  }

  /** The event at `i` trips the breaker, in a run from `s`. */
  predicate TripsAt(c: Config, s: State, events: seq<Event>, i: nat)
    requires i < |events|
  {
    events[i].Fault? && Trips(c, Run(c, s, events[..i]), events[i].at)
  }

  /** The event at `i` is a call that half-opens the breaker. */
  predicate HalfOpensAt(c: Config, s: State, events: seq<Event>, i: nat)
    requires i < |events|
  {
    var before := Run(c, s, events[..i]);
    events[i].Call? && before.Open() && Allows(c, before, events[i].at)
  }

  lemma {:induction false} FaultsFromMonotonic(events: seq<Event>, t: nat, u: nat)
    requires t <= u
    ensures FaultsFrom(events, u) <= FaultsFrom(events, t)
  {
    if events != [] { FaultsFromMonotonic(events[..|events| - 1], t, u); }
  }

  lemma {:induction false} NoFaultsAhead(events: seq<Event>, t: nat)
    requires forall e <- events :: e.at < t
    ensures FaultsFrom(events, t) == 0
  {
    if events != [] { NoFaultsAhead(events[..|events| - 1], t); }
  }

  /** The counted faults all happened since the window started, which is not in the future. */
  lemma {:induction false} CountedFaultsHappened(c: Config, start: nat, events: seq<Event>)
    requires Ordered(events, start)
    ensures var s := Run(c, State(start, 0, None), events);
      && s.faults <= FaultsFrom(events, s.windowStart)
      && start <= s.windowStart <= if events == [] then start else events[|events| - 1].at
  {
    if events != [] {
      var before, e := events[..|events| - 1], events[|events| - 1];
      CountedFaultsHappened(c, start, before);
      if |before| > 0 { assert before[|before| - 1].at <= e.at; }
    }
  }

  /** A trip means that `threshold` faults happened within one window's length of it. */
  lemma TripNeedsThreshold(c: Config, start: nat, events: seq<Event>, i: nat)
    requires Ordered(events, start) && i < |events| && TripsAt(c, State(start, 0, None), events, i)
    ensures FaultsFrom(events[..i + 1], if events[i].at >= c.window then events[i].at - c.window else 0) >= c.threshold
  {
    var now, upto := events[i].at, events[..i + 1];
    assert upto[..i] == events[..i];
    var s := Counted(c, Run(c, State(start, 0, None), events[..i]), now);
    CountedFaultsHappened(c, start, upto);
    FaultsFromMonotonic(upto, if now >= c.window then now - c.window else 0, s.windowStart);
  }

  /** While closed, the breaker has counted fewer faults than its threshold. */
  lemma {:induction false} ClosedIsBelowThreshold(c: Config, start: nat, events: seq<Event>)
    requires c.Valid()
    ensures var s := Run(c, State(start, 0, None), events); !s.Open() ==> s.faults < c.threshold
  {
    if events != [] { ClosedIsBelowThreshold(c, start, events[..|events| - 1]); }
  }

  /** Faults of a burst that has not tripped: those of the window it found open, then those of
      at most one window more. */
  lemma {:induction false} BurstBound(c: Config, s: State, a: nat, events: seq<Event>)
    requires c.Valid() && !s.Open() && s.faults < c.threshold
    requires forall e <- events :: a <= e.at <= a + c.window
    requires forall i | 0 <= i < |events| :: !TripsAt(c, s, events, i)
    ensures var t, n := Run(c, s, events), FaultsFrom(events, 0);
      && !t.Open() && t.faults < c.threshold
      && (t.faults == s.faults + n || (t.windowStart >= a && n <= c.threshold - 1 - s.faults + t.faults))
  {
    if events != [] {
      var before, last := events[..|events| - 1], |events| - 1;
      forall i | 0 <= i < |before| ensures !TripsAt(c, s, before, i) {
        assert before[..i] == events[..i];
        assert !TripsAt(c, s, events, i);
      }
      BurstBound(c, s, a, before);
      assert !TripsAt(c, s, events, last);
    }
  }

  /** Any 2 * threshold - 1 faults recorded from a closed state, within an interval no longer
      than the window and with any calls in between, force a trip. */
  lemma BurstForcesTrip(c: Config, s: State, a: nat, events: seq<Event>)
    requires c.Valid() && !s.Open() && s.faults < c.threshold
    requires forall e <- events :: a <= e.at <= a + c.window
    requires FaultsFrom(events, 0) >= 2 * c.threshold - 1
    ensures exists i | 0 <= i < |events| :: TripsAt(c, s, events, i)
  {
    if forall i | 0 <= i < |events| :: !TripsAt(c, s, events, i) {
      BurstBound(c, s, a, events);
      assert false;
    }
  }

  // ----- a fresh window, at the start and after each half-open

  lemma {:induction false} FaultsOfPrefix(events: seq<Event>, i: nat)
    requires i <= |events|
    ensures FaultsFrom(events[..i], 0) <= FaultsFrom(events, 0)
    decreases |events|
  {
    if i < |events| {
      assert events[..|events| - 1][..i] == events[..i];
      FaultsOfPrefix(events[..|events| - 1], i);
    } else {
      assert events[..i] == events;
    }
  }

  lemma {:induction false} FreshBelowThreshold(c: Config, now: nat, events: seq<Event>)
    requires forall e <- events :: now <= e.at <= now + c.window
    requires FaultsFrom(events, 0) < c.threshold
    ensures Run(c, State(now, 0, None), events) == State(now, FaultsFrom(events, 0), None)
    ensures forall i | 0 <= i < |events| :: !TripsAt(c, State(now, 0, None), events, i)
  {
    if events != [] {
      var s, before := State(now, 0, None), events[..|events| - 1];
      FaultsOfPrefix(events, |before|);
      FreshBelowThreshold(c, now, before);
      forall i | 0 <= i < |events| ensures !TripsAt(c, s, events, i) {
        if i < |before| {
          assert before[..i] == events[..i];
          assert !TripsAt(c, s, before, i);
        }
      }
    }
  }

  /** The event that is the `n`-th fault. */
  lemma {:induction false} NthFault(events: seq<Event>, n: nat) returns (i: nat)
    requires 0 < n <= FaultsFrom(events, 0)
    ensures i < |events| && events[i].Fault? && FaultsFrom(events[..i], 0) == n - 1
  {
    var before := events[..|events| - 1];
    if FaultsFrom(before, 0) >= n {
      i := NthFault(before, n);
      assert before[..i] == events[..i];
    } else {
      i := |before|;
    }
  }

  /** A half-open starts a window of its own: of what follows within one window's length of it,
      exactly `threshold` faults or more trip the breaker again, whatever was counted before. */
  lemma HalfOpenRestarts(c: Config, s: State, now: nat, events: seq<Event>)
    requires c.Valid() && s.Open() && now >= s.openedAt.value + c.cooldown
    requires forall e <- events :: now <= e.at <= now + c.window
    ensures !After(c, s, Call(now)).Open()
    ensures (exists i | 0 <= i < |events| :: TripsAt(c, After(c, s, Call(now)), events, i))
      <==> FaultsFrom(events, 0) >= c.threshold
  {
    FreshTrips(c, now, events);
  }

  /** And so does a new breaker. */
  lemma FreshTrips(c: Config, now: nat, events: seq<Event>)
    requires c.Valid() && forall e <- events :: now <= e.at <= now + c.window
    ensures (exists i | 0 <= i < |events| :: TripsAt(c, State(now, 0, None), events, i))
      <==> FaultsFrom(events, 0) >= c.threshold
  {
    if FaultsFrom(events, 0) >= c.threshold {
      var i := NthFault(events, c.threshold);
      FreshBelowThreshold(c, now, events[..i]);
      assert TripsAt(c, State(now, 0, None), events, i);
    } else {
      FreshBelowThreshold(c, now, events);
    }
  }

  // ----- the bound is tight: the window tumbles

  function Volley(n: nat, at: nat): seq<Event> {
    seq(n, _ => Fault(at))
  }

  lemma {:induction false} VolleyCounts(c: Config, s: State, n: nat, at: nat)
    requires !s.Open() && s.faults + n < c.threshold && s.windowStart <= at <= s.windowStart + c.window
    ensures Run(c, s, Volley(n, at)) == s.(faults := s.faults + n)
    ensures FaultsFrom(Volley(n, at), 0) == n
  {
    if n > 0 {
      VolleyCounts(c, s, n - 1, at);
      assert Volley(n, at)[..n - 1] == Volley(n - 1, at);
    }
  }

  lemma {:induction false} RunConcat(c: Config, s: State, x: seq<Event>, y: seq<Event>)
    ensures Run(c, s, x + y) == Run(c, Run(c, s, x), y)
    ensures FaultsFrom(x + y, 0) == FaultsFrom(x, 0) + FaultsFrom(y, 0)
  {
    if y == [] {
      assert x + y == x;
    } else {
      RunConcat(c, s, x, y[..|y| - 1]);
      assert (x + y)[..|x + y| - 1] == x + y[..|y| - 1];
    }
  }

  /** Two volleys either side of a window boundary: 2 * threshold - 2 faults within one unit of
      time leave the breaker closed. */
  lemma BurstBoundIsTight(c: Config, start: nat)
    requires c.threshold >= 2 && c.window >= 1
    ensures var n, edge := c.threshold - 1, start + c.window;
      var events := Volley(n, edge) + ([Fault(edge + 1)] + Volley(n - 1, edge + 1));
      && FaultsFrom(events, 0) == 2 * c.threshold - 2
      && (forall e <- events :: edge <= e.at <= edge + c.window)
      && !Run(c, State(start, 0, None), events).Open()
  {
    hide *;
    var n, edge := c.threshold - 1, start + c.window;
    var s0 := State(start, 0, None);
    var last := Volley(n - 1, edge + 1);
    StateParts(start, 0);
    StateParts(start, n);
    StateParts(edge + 1, 1);
    StateParts(edge + 1, n);
    VolleyCounts(c, s0, n, edge);
    OneFaultResets(c, start, edge + 1);
    VolleyCounts(c, State(edge + 1, 1, None), n - 1, edge + 1);
    RunConcat(c, State(start, n, None), [Fault(edge + 1)], last);
    RunConcat(c, s0, Volley(n, edge), [Fault(edge + 1)] + last);
    VolleyAt(n, edge);
    VolleyAt(n - 1, edge + 1);
  }

  lemma StateParts(windowStart: nat, faults: nat)
    ensures !State(windowStart, faults, None).Open()
  {
  }

  lemma VolleyAt(n: nat, at: nat)
    ensures forall e <- Volley(n, at) :: e == Fault(at)
  {
  }

  lemma OneFaultResets(c: Config, start: nat, now: nat)
    requires c.threshold >= 2 && now > start + c.window
    ensures forall n :: Run(c, State(start, n, None), [Fault(now)]) == State(now, 1, None)
    ensures FaultsFrom([Fault(now)], 0) == 1
  {
    assert [Fault(now)][..0] == [];
    forall n ensures Run(c, State(start, n, None), [Fault(now)]) == State(now, 1, None) {
      assert Run(c, State(start, n, None), []) == State(start, n, None);
    }
  }

  // ----- trips alternate with half-opens, and the cooldown is respected

  function TripCount(c: Config, s: State, events: seq<Event>): nat {
    if events == [] then 0
    else TripCount(c, s, events[..|events| - 1]) + if TripsAt(c, s, events, |events| - 1) then 1 else 0
  }

  function HalfOpenCount(c: Config, s: State, events: seq<Event>): nat {
    if events == [] then 0
    else HalfOpenCount(c, s, events[..|events| - 1]) + if HalfOpensAt(c, s, events, |events| - 1) then 1 else 0
  }

  /** In every run from a closed state, and so in each of its prefixes, trips and half-opens
      alternate, a trip coming first: their counts differ by whether the breaker is open. */
  lemma {:induction false} TripsAlternate(c: Config, s: State, events: seq<Event>)
    requires !s.Open()
    ensures TripCount(c, s, events) == HalfOpenCount(c, s, events) + if Run(c, s, events).Open() then 1 else 0
  {
    if events != [] { TripsAlternate(c, s, events[..|events| - 1]); }
  }

  /** After a trip, whatever faults and calls follow within the cooldown, the breaker stays open
      since that trip; so every such call is refused, and the first call after it is allowed. */
  lemma {:induction false} CooldownHolds(c: Config, s: State, tripped: nat, events: seq<Event>, call: nat)
    requires s.openedAt == Some(tripped)
    requires forall e <- events :: tripped <= e.at < tripped + c.cooldown
    requires call >= tripped
    ensures Run(c, s, events).openedAt == Some(tripped)
    ensures Allows(c, Run(c, s, events), call) <==> call >= tripped + c.cooldown
  {
    if events != [] { CooldownHolds(c, s, tripped, events[..|events| - 1], call); }
  }
}
