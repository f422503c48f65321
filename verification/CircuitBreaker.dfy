/** SelectionCircuitBreaker: closed, open and half-open, over whole runs. */
module CircuitBreaker {
  import opened Basics

  datatype Config = Config(failureThreshold: uint32, resetTimeoutMs: uint32, halfOpenMaxRequests: uint32,
                           successThreshold: uint32)

  const DEFAULT_CONFIG := Config(5, 30000, 1, 3)

  datatype CircuitState = Closed | Open | HalfOpen

  datatype Breaker = Breaker(state: CircuitState, failures: nat, consecutive: nat, successes: nat, requests: nat,
                             openedAt: int)

  const FRESH := Breaker(Closed, 0, 0, 0, 0, 0)

  datatype Event = Allow(now: int) | Success(now: int) | Failure(now: int) | Reset(now: int)

  /** ++ on an uint32. */
  function Increment(n: nat): nat { (n + 1) % UINT32 }

  // ----- one call as a function of the state

  /** The elapsed milliseconds are cut to an uint32 before the comparison. */
  predicate HasResetTimeoutExpired(cfg: Config, b: Breaker, now: int) {
    (now - b.openedAt) % UINT32 >= cfg.resetTimeoutMs
  }

  predicate Admits(cfg: Config, b: Breaker, now: int) {
    match b.state
    case Closed => true
    case Open => HasResetTimeoutExpired(cfg, b, now)
    case HalfOpen => b.requests < cfg.halfOpenMaxRequests
  }

  function Trip(b: Breaker, now: int): Breaker { b.(state := Open, openedAt := now) }

  function Next(cfg: Config, b: Breaker, e: Event): Breaker {
    match e
    case Allow(now) =>
      if !Admits(cfg, b, now) || b.state == Closed then b
      else if b.state == Open then b.(state := HalfOpen, successes := 0, requests := 0)
      else b.(requests := b.requests + 1)
    case Success(_) =>
      var c := b.(consecutive := 0);
      if b.state != HalfOpen then c else
      var n := Increment(b.successes);
      if n >= cfg.successThreshold then c.(state := Closed, failures := 0, successes := n) else c.(successes := n)
    case Failure(now) =>
      var c := b.(consecutive := Increment(b.consecutive), failures := Increment(b.failures));
      if b.state == HalfOpen || (b.state == Closed && c.consecutive >= cfg.failureThreshold) then Trip(c, now) else c
    case Reset(_) => b.(state := Closed, failures := 0, consecutive := 0)
  }

  // ----- the breaker itself

  class SelectionCircuitBreaker {
    const config: Config
    var state: CircuitState
    var failureCount: nat
    var consecutiveFailures: nat
    var halfOpenSuccessCount: nat
    var halfOpenRequestCount: nat
    var openedAt: int

    function View(): Breaker
      reads this
    {
      Breaker(state, failureCount, consecutiveFailures, halfOpenSuccessCount, halfOpenRequestCount, openedAt)
    }

    constructor (cfg: Config)
      ensures config == cfg && View() == FRESH
    {
      config := cfg;
      state := Closed;
      failureCount, consecutiveFailures, halfOpenSuccessCount, halfOpenRequestCount, openedAt := 0, 0, 0, 0, 0;
    }

    method AllowRequest(now: int) returns (allowed: bool)
      modifies this
      ensures View() == Next(config, old(View()), Allow(now)) && allowed == Admits(config, old(View()), now)
    {
      match state
      case Closed => return true;
      case Open =>
        if HasResetTimeoutExpired(config, View(), now) {
          state := HalfOpen;
          halfOpenSuccessCount, halfOpenRequestCount := 0, 0;
          return true;
        }
        return false;
      case HalfOpen =>
        if halfOpenRequestCount < config.halfOpenMaxRequests {
          halfOpenRequestCount := halfOpenRequestCount + 1;
          return true;
        }
        return false;
    }

    method RecordSuccess(now: int)
      modifies this
      ensures View() == Next(config, old(View()), Success(now))
    {
      consecutiveFailures := 0;
      if state == HalfOpen {
        halfOpenSuccessCount := Increment(halfOpenSuccessCount);
        if halfOpenSuccessCount >= config.successThreshold {
          state := Closed;
          failureCount := 0;
        }
      }
    }

    method RecordFailure(now: int)
      modifies this
      ensures View() == Next(config, old(View()), Failure(now))
    {
      consecutiveFailures := Increment(consecutiveFailures);
      failureCount := Increment(failureCount);
      if state == HalfOpen {
        TripToOpen(now);
      } else if state == Closed && consecutiveFailures >= config.failureThreshold {
        TripToOpen(now);
      }
    }

    method TripToOpen(now: int)
      modifies this
      ensures View() == Trip(old(View()), now)
    {
      state := Open;
      openedAt := now;
    }

    method Reset(now: int)
      modifies this
      ensures View() == Next(config, old(View()), Event.Reset(now))
    {
      state := Closed;
      failureCount, consecutiveFailures := 0, 0;
    }
  }

  // ----- runs

  function Run(cfg: Config, events: seq<Event>): Breaker {
    if events == [] then FRESH else Next(cfg, Run(cfg, events[..|events| - 1]), events[|events| - 1])
  }

  /** The state before event i, and after the last one. */
  function At(cfg: Config, events: seq<Event>, i: nat): Breaker
    requires i <= |events|
  {
    Run(cfg, events[..i])
  }

  lemma AtNext(cfg: Config, events: seq<Event>, i: nat)
    requires i < |events|
    ensures At(cfg, events, i + 1) == Next(cfg, At(cfg, events, i), events[i])
  {
    assert events[..i + 1][..i] == events[..i];
  }

  predicate AdmittedAt(cfg: Config, events: seq<Event>, i: nat)
    requires i < |events|
  {
    events[i].Allow? && Admits(cfg, At(cfg, events, i), events[i].now)
  }

  ghost predicate Monotone(events: seq<Event>) {
    forall i, j :: 0 <= i < j < |events| ==> events[i].now <= events[j].now
  }

  predicate TripsAt(cfg: Config, events: seq<Event>, i: nat)
    requires i < |events|
  {
    At(cfg, events, i).state != Open && At(cfg, events, i + 1).state == Open
  }

  /** After a trip, and until a Reset: still open since then, or the timeout has passed. */
  lemma {:induction false} Quarantine(cfg: Config, events: seq<Event>, i: nat, j: nat)
    requires Monotone(events) && i < j <= |events| && TripsAt(cfg, events, i)
    requires forall k :: i < k < j ==> !events[k].Reset?
    ensures var b := At(cfg, events, j);
            || (b.state == Open && b.openedAt >= events[i].now)
            || (events[j - 1].now - events[i].now >= cfg.resetTimeoutMs)
  {
    AtNext(cfg, events, j - 1);
    if j - 1 > i {
      Quarantine(cfg, events, i, j - 1);
      var b := At(cfg, events, j - 1);
      assert events[j - 2].now <= events[j - 1].now && events[i].now <= events[j - 1].now;
      if b.state == Open && b.openedAt >= events[i].now && events[j - 1].Allow? {
        ElapsedBound(events[j - 1].now - b.openedAt);
        OpenedInPast(cfg, events, j - 1);
      }
    }
  }

  lemma ElapsedBound(elapsed: int)
    ensures elapsed >= 0 ==> elapsed % UINT32 <= elapsed
  {
  }

  lemma {:induction false} OpenedInPast(cfg: Config, events: seq<Event>, j: nat)
    requires Monotone(events) && j < |events| && At(cfg, events, j).state == Open
    ensures At(cfg, events, j).openedAt <= events[j].now
  {
    if j > 0 {
      AtNext(cfg, events, j - 1);
      assert events[j - 1].now <= events[j].now;
      if At(cfg, events, j - 1).state == Open {
        OpenedInPast(cfg, events, j - 1);
      }
    }
  }

  /** Nothing is admitted until resetTimeoutMs after a trip, unless Reset is called. */
  lemma NothingAdmittedBeforeTimeout(cfg: Config, events: seq<Event>, i: nat, j: nat)
    requires Monotone(events) && i < j < |events| && TripsAt(cfg, events, i)
    requires forall k :: i < k < j ==> !events[k].Reset?
    requires AdmittedAt(cfg, events, j)
    ensures events[j].now - events[i].now >= cfg.resetTimeoutMs
  {
    Quarantine(cfg, events, i, j);
    assert events[j - 1].now <= events[j].now && events[i].now <= events[j].now;
    var b := At(cfg, events, j);
    if b.state == Open && b.openedAt >= events[i].now {
      OpenedInPast(cfg, events, j);
      ElapsedBound(events[j].now - b.openedAt);
    }
  }

  /** The cut to uint32 shows: past the timeout an open breaker admits exactly when the
      elapsed time modulo 2^32 has passed it too. */
  lemma ExpiryWraps(cfg: Config, b: Breaker, elapsed: nat)
    requires b.state == Open
    ensures elapsed >= cfg.resetTimeoutMs && !Admits(cfg, b, b.openedAt + elapsed) <==>
            elapsed >= UINT32 && elapsed % UINT32 < cfg.resetTimeoutMs
  {
  }

  // ----- half-open episodes

  /** Events i .. j-1 form (the beginning of) one episode: event i is admitted by an open
      breaker and the breaker is half-open from then on up to event j. */
  ghost predicate Episode(cfg: Config, events: seq<Event>, i: nat, j: nat) {
    && i < j <= |events|
    && At(cfg, events, i).state == Open && AdmittedAt(cfg, events, i)
    && forall k :: i < k <= j ==> At(cfg, events, k).state == HalfOpen
  }

  function Admissions(cfg: Config, events: seq<Event>, i: nat, j: nat): nat
    requires i <= j <= |events|
  {
    if i == j then 0 else Admissions(cfg, events, i, j - 1) + if AdmittedAt(cfg, events, j - 1) then 1 else 0
  }

  function Successes(events: seq<Event>, i: nat, j: nat): nat
    requires i <= j <= |events|
  {
    if i == j then 0 else Successes(events, i, j - 1) + if events[j - 1].Success? then 1 else 0
  }

  function Outcomes(events: seq<Event>, i: nat, j: nat): nat
    requires i <= j <= |events|
  {
    if i == j then 0 else Outcomes(events, i, j - 1) + if events[j - 1].Success? || events[j - 1].Failure? then 1 else 0
  }

  /** A half-open breaker is always inside an episode. */
  lemma {:induction false} EpisodeStart(cfg: Config, events: seq<Event>, j: nat) returns (i: nat)
    requires j <= |events| && At(cfg, events, j).state == HalfOpen
    ensures Episode(cfg, events, i, j)
  {
    assert j > 0;
    AtNext(cfg, events, j - 1);
    if At(cfg, events, j - 1).state == HalfOpen {
      i := EpisodeStart(cfg, events, j - 1);
    } else {
      i := j - 1;
    }
  }

  /** The counters of a half-open breaker against what its episode admitted and reported. */
  ghost predicate Tally(cfg: Config, b: Breaker, admissions: nat, successes: nat, outcomes: nat) {
    && admissions == 1 + b.requests && b.requests <= cfg.halfOpenMaxRequests
    && b.successes == successes == outcomes && (successes < cfg.successThreshold || successes == 0)
  }

  lemma TallyStep(cfg: Config, b: Breaker, e: Event, admissions: nat, successes: nat, outcomes: nat)
    requires b.state == HalfOpen && Tally(cfg, b, admissions, successes, outcomes)
    ensures Next(cfg, b, e).state == HalfOpen ==>
              && !e.Failure? && !e.Reset?
              && Tally(cfg, Next(cfg, b, e), admissions + (if e.Allow? && Admits(cfg, b, e.now) then 1 else 0),
                   successes + (if e.Success? then 1 else 0), outcomes + (if e.Success? || e.Failure? then 1 else 0))
  {
  }

  /** Inside an episode the counters count what the episode admitted and saw succeed, and
      no failure has been seen. */
  lemma {:induction false} EpisodeCounts(cfg: Config, events: seq<Event>, i: nat, j: nat)
    requires Episode(cfg, events, i, j)
    ensures Tally(cfg, At(cfg, events, j), Admissions(cfg, events, i, j), Successes(events, i + 1, j),
              Outcomes(events, i + 1, j))
    ensures forall k :: i < k < j ==> !events[k].Failure? && !events[k].Reset?
    decreases j
  {
    AtNext(cfg, events, j - 1);
    if j == i + 1 {
      assert Admissions(cfg, events, i, i) == 0;
    } else {
      EpisodeCounts(cfg, events, i, j - 1);
      TallyStep(cfg, At(cfg, events, j - 1), events[j - 1], Admissions(cfg, events, i, j - 1),
        Successes(events, i + 1, j - 1), Outcomes(events, i + 1, j - 1));
    }
  }

  /** Inside an episode a request is admitted exactly while at most halfOpenMaxRequests were, the
      one that opened it included. */
  lemma EpisodeAdmitsExactly(cfg: Config, events: seq<Event>, i: nat, j: nat)
    requires Episode(cfg, events, i, j) && j < |events| && events[j].Allow?
    ensures AdmittedAt(cfg, events, j) <==> Admissions(cfg, events, i, j) <= cfg.halfOpenMaxRequests
  {
    EpisodeCounts(cfg, events, i, j);
  }

  /** At most halfOpenMaxRequests + 1 requests are admitted per half-open episode. */
  lemma EpisodeAdmitsFew(cfg: Config, events: seq<Event>, i: nat, j: nat)
    requires Episode(cfg, events, i, j)
    ensures Admissions(cfg, events, i, j) <= cfg.halfOpenMaxRequests + 1
  {
    EpisodeCounts(cfg, events, i, j);
  }

  /** Half-open turns closed only by Reset or by the success that completes the threshold,
      all successes counted inside one episode that saw no failure. */
  lemma ClosesOnSuccesses(cfg: Config, events: seq<Event>, j: nat) returns (i: nat)
    requires j < |events| && At(cfg, events, j).state == HalfOpen && At(cfg, events, j + 1).state == Closed
    requires !events[j].Reset?
    ensures Episode(cfg, events, i, j) && events[j].Success?
    ensures Successes(events, i + 1, j + 1) >= cfg.successThreshold
    ensures forall k :: i < k <= j ==> !events[k].Failure?
  {
    AtNext(cfg, events, j);
    i := EpisodeStart(cfg, events, j);
    EpisodeCounts(cfg, events, i, j);
  }

  /** When fewer requests are admitted than successes needed, closing takes more outcomes
      than the episode admitted requests. */
  lemma ClosingTakesForeignOutcomes(cfg: Config, events: seq<Event>, j: nat) returns (i: nat)
    requires cfg.halfOpenMaxRequests + 1 < cfg.successThreshold
    requires j < |events| && At(cfg, events, j).state == HalfOpen && At(cfg, events, j + 1).state == Closed
    requires !events[j].Reset?
    ensures Episode(cfg, events, i, j) && Outcomes(events, i + 1, j + 1) > Admissions(cfg, events, i, j + 1)
  {
    i := ClosesOnSuccesses(cfg, events, j);
    EpisodeCounts(cfg, events, i, j);
  }

  /** Outcomes are reported only for requests that the same episode admitted. */
  ghost predicate OutcomesFromEpisodes(cfg: Config, events: seq<Event>) {
    forall i: nat, j: nat :: j < |events| && Episode(cfg, events, i, j) ==>
        Outcomes(events, i + 1, j + 1) <= Admissions(cfg, events, i, j + 1)
  }

  /** Then a breaker with halfOpenMaxRequests + 1 < successThreshold, as the default one is,
      leaves half-open for closed only by Reset. */
  lemma NeverClosesByItself(cfg: Config, events: seq<Event>, j: nat)
    requires cfg.halfOpenMaxRequests + 1 < cfg.successThreshold && OutcomesFromEpisodes(cfg, events)
    requires j < |events| && At(cfg, events, j).state == HalfOpen && At(cfg, events, j + 1).state == Closed
    ensures events[j].Reset?
  {
    if !events[j].Reset? {
      var i := ClosingTakesForeignOutcomes(cfg, events, j);
    }
  }

  lemma DefaultNeverClosesByItself(events: seq<Event>, j: nat)
    requires OutcomesFromEpisodes(DEFAULT_CONFIG, events)
    requires j < |events| && At(DEFAULT_CONFIG, events, j).state == HalfOpen
    requires At(DEFAULT_CONFIG, events, j + 1).state == Closed
    ensures events[j].Reset?
  {
    NeverClosesByItself(DEFAULT_CONFIG, events, j);
  }

  function Play(cfg: Config, b: Breaker, events: seq<Event>): Breaker
    decreases events
  {
    if events == [] then b else Play(cfg, Next(cfg, b, events[0]), events[1..])
  }

  /** Once an episode has used up its requests, asking again is refused at any time: there
      is no timeout out of half-open. */
  lemma {:induction false} ExhaustedRefusesForever(cfg: Config, b: Breaker, asks: seq<Event>, now: int)
    requires b.state == HalfOpen && b.requests >= cfg.halfOpenMaxRequests && forall e :: e in asks ==> e.Allow?
    decreases asks
    ensures Play(cfg, b, asks) == b && !Admits(cfg, Play(cfg, b, asks), now)
  {
    if asks != [] {
      ExhaustedRefusesForever(cfg, b, asks[1..], now);
    }
  }

  // ----- tripping from closed

  function FailuresSinceSuccess(events: seq<Event>): nat {
    if events == [] then 0 else
    match events[|events| - 1]
    case Allow(_) => FailuresSinceSuccess(events[..|events| - 1])
    case Failure(_) => FailuresSinceSuccess(events[..|events| - 1]) + 1
    case Success(_) => 0
    case Reset(_) => 0
  }

  lemma IncrementModulo(n: nat)
    ensures Increment(n % UINT32) == (n + 1) % UINT32
  {
  }

  lemma {:induction false} ConsecutiveCountsFailures(cfg: Config, events: seq<Event>)
    ensures Run(cfg, events).consecutive == FailuresSinceSuccess(events) % UINT32
  {
    if events != [] {
      ConsecutiveCountsFailures(cfg, events[..|events| - 1]);
      IncrementModulo(FailuresSinceSuccess(events[..|events| - 1]));
    }
  }

  /** A closed breaker trips exactly on the failure that completes the threshold of failures
      in a row (counted modulo 2^32). */
  lemma ClosedTripsExactly(cfg: Config, events: seq<Event>, i: nat)
    requires i < |events| && At(cfg, events, i).state == Closed
    ensures TripsAt(cfg, events, i) <==>
              events[i].Failure? && (FailuresSinceSuccess(events[..i]) + 1) % UINT32 >= cfg.failureThreshold
  {
    AtNext(cfg, events, i);
    ConsecutiveCountsFailures(cfg, events[..i]);
    IncrementModulo(FailuresSinceSuccess(events[..i]));
  }

  // ----- the whole breaker, from the history

  /** Closed; open since event `trip`; half-open since event `opening`. */
  datatype Phase = InClosed | InOpen(trip: nat) | InHalfOpen(opening: nat)

  /** The phase before event j, read off the events without any counter. */
  function PhaseAt(cfg: Config, events: seq<Event>, j: nat): (p: Phase)
    requires j <= |events|
    ensures p.InOpen? ==> p.trip < j
    ensures p.InHalfOpen? ==> p.opening < j
  {
    if j == 0 then InClosed else
    var p, e := PhaseAt(cfg, events, j - 1), events[j - 1];
    if e.Reset? then InClosed else
    match p
    case InClosed =>
      if e.Failure? && FailuresSinceSuccess(events[..j]) >= cfg.failureThreshold then InOpen(j - 1) else p
    case InOpen(trip) =>
      if e.Allow? && (e.now - events[trip].now) % UINT32 >= cfg.resetTimeoutMs then InHalfOpen(j - 1) else p
    case InHalfOpen(opening) =>
      if e.Failure? then InOpen(j - 1)
      else if e.Success? && Successes(events, opening + 1, j) >= cfg.successThreshold then InClosed
      else p
  }

  /** How many of the events i .. j-1 are requests. */
  function Asked(events: seq<Event>, i: nat, j: nat): nat
    requires i <= j <= |events|
  {
    if i == j then 0 else Asked(events, i, j - 1) + if events[j - 1].Allow? then 1 else 0
  }

  function AtMost(n: nat, limit: nat): nat { if n < limit then n else limit }

  ghost predicate InPhase(cfg: Config, b: Breaker, events: seq<Event>, j: nat, p: Phase)
    requires j <= |events|
  {
    match p
    case InClosed =>
      && b.state == Closed && b.consecutive == FailuresSinceSuccess(events[..j])
      && (b.consecutive == 0 || b.consecutive < cfg.failureThreshold)
    case InOpen(trip) => b.state == Open && trip < j && b.openedAt == events[trip].now
    case InHalfOpen(opening) =>
      && b.state == HalfOpen && opening < j && b.successes == Successes(events, opening + 1, j)
      && (b.successes == 0 || b.successes < cfg.successThreshold)
      && b.requests == AtMost(Asked(events, opening + 1, j), cfg.halfOpenMaxRequests)
  }

  lemma PhaseStep(cfg: Config, b: Breaker, events: seq<Event>, j: nat)
    requires j < |events| && InPhase(cfg, b, events, j, PhaseAt(cfg, events, j))
    ensures InPhase(cfg, Next(cfg, b, events[j]), events, j + 1, PhaseAt(cfg, events, j + 1))
  {
    assert events[..j + 1][..j] == events[..j];
    match PhaseAt(cfg, events, j) {
      case InClosed =>
      case InOpen(trip) =>
        if events[j].Allow? {
          assert Successes(events, j + 1, j + 1) == 0;
        }
      case InHalfOpen(opening) =>
    }
  }

  lemma {:induction false} BreakerFollowsHistory(cfg: Config, events: seq<Event>, j: nat)
    requires j <= |events|
    ensures InPhase(cfg, At(cfg, events, j), events, j, PhaseAt(cfg, events, j))
  {
    if j > 0 {
      BreakerFollowsHistory(cfg, events, j - 1);
      PhaseStep(cfg, At(cfg, events, j - 1), events, j - 1);
      AtNext(cfg, events, j - 1);
    }
  }

  /** Which requests are admitted: all while closed, none within the timeout of a trip (cut to an
      uint32), the first halfOpenMaxRequests after the one that opened it while half-open. */
  lemma AdmittedExactly(cfg: Config, events: seq<Event>, j: nat)
    requires j < |events| && events[j].Allow?
    ensures AdmittedAt(cfg, events, j) <==> AdmissibleIn(cfg, events, j, PhaseAt(cfg, events, j))
  {
    BreakerFollowsHistory(cfg, events, j);
    AdmitsInPhase(cfg, At(cfg, events, j), events, j, PhaseAt(cfg, events, j));
  }

  predicate AdmissibleIn(cfg: Config, events: seq<Event>, j: nat, p: Phase)
    requires j < |events| && (p.InOpen? ==> p.trip < j) && (p.InHalfOpen? ==> p.opening < j)
  {
    match p
    case InClosed => true
    case InOpen(trip) => (events[j].now - events[trip].now) % UINT32 >= cfg.resetTimeoutMs
    case InHalfOpen(opening) => Asked(events, opening + 1, j) < cfg.halfOpenMaxRequests
  }

  lemma AdmitsInPhase(cfg: Config, b: Breaker, events: seq<Event>, j: nat, p: Phase)
    requires j < |events| && InPhase(cfg, b, events, j, p)
    ensures Admits(cfg, b, events[j].now) <==> AdmissibleIn(cfg, events, j, p)
  {
  }

  /** No event before j completes a threshold of failures in a row. */
  ghost predicate NoStreak(cfg: Config, events: seq<Event>, j: nat)
    requires j <= |events|
  {
    forall k :: 0 <= k < j && events[k].Failure? ==> FailuresSinceSuccess(events[..k + 1]) < cfg.failureThreshold
  }

  lemma NoStreakStep(cfg: Config, events: seq<Event>, j: nat)
    requires j < |events|
    ensures NoStreak(cfg, events, j + 1) <==>
              && NoStreak(cfg, events, j)
              && (events[j].Failure? ==> FailuresSinceSuccess(events[..j + 1]) < cfg.failureThreshold)
  {
  }

  /** The breaker is closed all the way to j, and admits everything, exactly when no streak of
      failures reaches the threshold before. */
  lemma {:induction false} ClosedUntilStreak(cfg: Config, events: seq<Event>, j: nat)
    requires j <= |events|
    ensures NoStreak(cfg, events, j) <==> forall k :: 0 <= k <= j ==> At(cfg, events, k).state == Closed
    ensures NoStreak(cfg, events, j) && j < |events| && events[j].Allow? ==> AdmittedAt(cfg, events, j)
  {
    BreakerFollowsHistory(cfg, events, j);
    if j > 0 {
      ClosedUntilStreak(cfg, events, j - 1);
      BreakerFollowsHistory(cfg, events, j - 1);
      NoStreakStep(cfg, events, j - 1);
    }
  }
}
