/** SelectionRateLimiter: sliding window, token bucket and fixed window, per key. */
module RateLimiter {
  import opened Basics
  import Counting

  const UINT64 := 0x1_0000_0000_0000_0000
  const MAX_KEY_LEN := 128
  const MAX_CONTEXT_COUNT := 256

  datatype Strategy = SlidingWindow | TokenBucket | FixedWindow

  datatype Config = Config(windowMs: uint32, capacity: uint32, refillPerSec: uint32, strategy: Strategy)

  datatype Stat = Stat(acquired: nat, rejected: nat, lastAcquire: nat, lastReject: nat)

  /** What the limiter keeps for one key; 0 marks a time that was never set. */
  datatype Context = Context(timestamps: seq<nat>, tokens: real, lastRefill: nat, windowStart: nat, count: nat,
                             stat: Stat)

  const NEW_CONTEXT := Context([], 0.0, 0, 0, 0, Stat(0, 0, 0, 0))

  predicate IsValidKey(key: string) { 0 < |key| <= MAX_KEY_LEN }

  predicate IsValidConfig(cfg: Config) {
    cfg.windowMs != 0 && cfg.capacity != 0 && (cfg.strategy == TokenBucket ==> cfg.refillPerSec != 0)
  }

  // ----- one request as a function of the context

  function WindowStart(cfg: Config, now: nat): nat { if now >= cfg.windowMs then now - cfg.windowMs else 0 }

  function Prune(ts: seq<nat>, start: nat): seq<nat>
    decreases ts
  {
    if ts != [] && ts[0] <= start then Prune(ts[1..], start) else ts
  }

  function Refill(cfg: Config, ms: int): real { ms as real / 1000.0 * cfg.refillPerSec as real }

  function MinReal(a: real, b: real): real { if a < b then a else b }

  function Refilled(cfg: Config, c: Context, now: nat): Context {
    if c.lastRefill == 0 then c.(tokens := cfg.capacity as real, lastRefill := now)
    else if now <= c.lastRefill then c
    else c.(tokens := MinReal(cfg.capacity as real, c.tokens + Refill(cfg, now - c.lastRefill)), lastRefill := now)
  }

  /** uint64 subtraction. */
  function Elapsed(now: nat, since: nat): nat { (now - since) % UINT64 }

  predicate WindowIsOver(cfg: Config, c: Context, now: nat) {
    c.windowStart == 0 || Elapsed(now, c.windowStart) >= cfg.windowMs
  }

  function Windowed(cfg: Config, c: Context, now: nat): Context {
    if WindowIsOver(cfg, c, now) then c.(windowStart := now, count := 0) else c
  }

  /** The context brought up to date, before deciding. */
  function Updated(cfg: Config, c: Context, now: nat): Context {
    match cfg.strategy
    case SlidingWindow => c.(timestamps := Prune(c.timestamps, WindowStart(cfg, now)))
    case TokenBucket => Refilled(cfg, c, now)
    case FixedWindow => Windowed(cfg, c, now)
  }

  predicate HasRoom(cfg: Config, c: Context) {
    match cfg.strategy
    case SlidingWindow => |c.timestamps| < cfg.capacity
    case TokenBucket => c.tokens >= 1.0
    case FixedWindow => c.count < cfg.capacity
  }

  function Spend(cfg: Config, c: Context, now: nat): Context {
    match cfg.strategy
    case SlidingWindow => c.(timestamps := c.timestamps + [now])
    case TokenBucket => c.(tokens := c.tokens - 1.0)
    case FixedWindow => c.(count := c.count + 1)
  }

  predicate Grants(cfg: Config, c: Context, now: nat) { HasRoom(cfg, Updated(cfg, c, now)) }

  /** TryAcquireSliding, TryAcquireToken or TryAcquireFixed. */
  function Decided(cfg: Config, c: Context, now: nat): Context {
    var u := Updated(cfg, c, now);
    if HasRoom(cfg, u) then Spend(cfg, u, now) else u
  }

  function Recorded(c: Context, granted: bool, now: nat): Context {
    c.(stat := if granted then c.stat.(acquired := c.stat.acquired + 1, lastAcquire := now)
               else c.stat.(rejected := c.stat.rejected + 1, lastReject := now))
  }

  function AfterRequest(cfg: Config, c: Context, now: nat): Context {
    Recorded(Decided(cfg, c, now), Grants(cfg, c, now), now)
  }

  // ----- the limiter itself

  function LastUse(c: Context): nat {
    if c.stat.lastAcquire < c.stat.lastReject then c.stat.lastReject else c.stat.lastAcquire
  }

  function ContextOf(contexts: map<string, Context>, key: string): Context {
    if key in contexts then contexts[key] else NEW_CONTEXT
  }

  ghost predicate Oldest(contexts: map<string, Context>, k: string) {
    k in contexts && forall m :: m in contexts ==> LastUse(contexts[k]) <= LastUse(contexts[m])
  }

  /** One least recently used key is gone, unless every key was used at the end of time. */
  ghost predicate EvictsOldest(before: map<string, Context>, after: map<string, Context>) {
    || (exists k :: Oldest(before, k) && after == before - {k})
    || (after == before && forall m :: m in before ==> LastUse(before[m]) >= UINT64 - 1)
  }

  ghost predicate EvictedTo(before: map<string, Context>, after: map<string, Context>) {
    if |before| <= MAX_CONTEXT_COUNT then after == before else EvictsOldest(before, after)
  }

  datatype Request = Request(key: string, cfg: Config, now: nat)

  /** No key, one of more than 128 characters, or a configuration that could never grant. */
  predicate Unacceptable(key: string, cfg: Config) {
    || key == "" || |key| > 128 || cfg.windowMs == 0 || cfg.capacity == 0
    || (cfg.strategy == TokenBucket && cfg.refillPerSec == 0)
  }

  /** How a request is answered, and what it leaves: bad requests are refused and listed keys
      bypass the limiter; otherwise only the key's context changes, after any eviction. */
  ghost predicate Answers(before: map<string, Context>, allowlist: set<string>, blocklist: set<string>, r: Request,
      after: map<string, Context>, acquired: bool)
  {
    if Unacceptable(r.key, r.cfg) then !acquired && after == before
    else if r.key in allowlist || r.key in blocklist then acquired == (r.key in allowlist) && after == before
    else exists kept: map<string, Context> :: EvictedTo(before, kept) && AnswersFrom(kept, r, after, acquired)
  }

  ghost predicate AnswersFrom(kept: map<string, Context>, r: Request, after: map<string, Context>, acquired: bool) {
    && acquired == Grants(r.cfg, ContextOf(kept, r.key), r.now)
    && after == kept[r.key := AfterRequest(r.cfg, ContextOf(kept, r.key), r.now)]
  }

  lemma AnsweredFrom(before: map<string, Context>, kept: map<string, Context>, allowlist: set<string>,
      blocklist: set<string>, r: Request, after: map<string, Context>, acquired: bool)
    requires IsValidKey(r.key) && IsValidConfig(r.cfg) && r.key !in allowlist && r.key !in blocklist
    requires EvictedTo(before, kept) && AnswersFrom(kept, r, after, acquired)
    ensures Answers(before, allowlist, blocklist, r, after, acquired)
  {
  }

  class SelectionRateLimiter {
    var contexts: map<string, Context>
    var blocklist: set<string>
    var allowlist: set<string>

    constructor ()
      ensures contexts == map[] && blocklist == {} && allowlist == {}
    {
      contexts, blocklist, allowlist := map[], {}, {};
    }

    method TryAcquireSliding(c: Context, cfg: Config, now: nat) returns (d: Context, acquired: bool)
      requires cfg.strategy == SlidingWindow
      ensures d == Decided(cfg, c, now) && acquired == Grants(cfg, c, now)
    {
      var ts: seq<nat> := c.timestamps;
      var windowStart := if now >= cfg.windowMs then now - cfg.windowMs else 0;
      while ts != [] && ts[0] <= windowStart
        invariant Prune(ts, windowStart) == Prune(c.timestamps, windowStart)
        decreases |ts|
      {
        ts := ts[1..];
      }
      if |ts| >= cfg.capacity {
        return c.(timestamps := ts), false;
      }
      ts := ts + [now];
      return c.(timestamps := ts), true;
    }

    method TryAcquireToken(c: Context, cfg: Config, now: nat) returns (d: Context, acquired: bool)
      requires cfg.strategy == TokenBucket
      ensures d == Decided(cfg, c, now) && acquired == Grants(cfg, c, now)
    {
      d := Refilled(cfg, c, now);
      if d.tokens < 1.0 {
        return d, false;
      }
      return d.(tokens := d.tokens - 1.0), true;
    }

    method TryAcquireFixed(c: Context, cfg: Config, now: nat) returns (d: Context, acquired: bool)
      requires cfg.strategy == FixedWindow
      ensures d == Decided(cfg, c, now) && acquired == Grants(cfg, c, now)
    {
      d := c;
      if d.windowStart == 0 || Elapsed(now, d.windowStart) >= cfg.windowMs {
        d := d.(windowStart := now, count := 0);
      }
      if d.count >= cfg.capacity {
        return d, false;
      }
      return d.(count := d.count + 1), true;
    }

    predicate Valid()
      reads this
    {
      forall k :: k in contexts ==> IsValidKey(k)
    }

    /** Past 256 contexts, one least recently used context goes. */
    method EvictIfNeeded()
      requires Valid()
      modifies this`contexts
      ensures Valid()
      ensures |old(contexts)| <= MAX_CONTEXT_COUNT ==> contexts == old(contexts)
      ensures |old(contexts)| > MAX_CONTEXT_COUNT ==> EvictsOldest(old(contexts), contexts)
    {
      if |contexts| <= MAX_CONTEXT_COUNT {
        return;
      }
      var oldest := UINT64 - 1;
      var oldestKey := "";
      var rest := contexts.Keys;
      while rest != {}
        invariant rest <= contexts.Keys && oldest < UINT64
        invariant forall m :: m in contexts && m !in rest ==> oldest <= LastUse(contexts[m])
        invariant if oldestKey == "" then oldest == UINT64 - 1
                  else oldestKey in contexts && oldest == LastUse(contexts[oldestKey])
        decreases |rest|
      {
        var k: string :| k in rest;
        rest := rest - {k};
        if LastUse(contexts[k]) < oldest {
          oldest := LastUse(contexts[k]);
          oldestKey := k;
        }
      }
      if oldestKey != "" {
        contexts := contexts - {oldestKey};
        assert Oldest(old(contexts), oldestKey);
      }
    }

    method TryAcquire(key: string, cfg: Config, now: nat) returns (acquired: bool)
      requires Valid()
      modifies this`contexts
      ensures Valid()
      ensures Answers(old(contexts), allowlist, blocklist, Request(key, cfg, now), contexts, acquired)
    {
      if !IsValidKey(key) || !IsValidConfig(cfg) {
        return false;
      }
      if key in allowlist {
        return true;
      }
      if key in blocklist {
        return false;
      }
      EvictIfNeeded();
      ghost var kept := contexts;
      var c := ContextOf(contexts, key);
      match cfg.strategy {
        case SlidingWindow => c, acquired := TryAcquireSliding(c, cfg, now);
        case TokenBucket => c, acquired := TryAcquireToken(c, cfg, now);
        case FixedWindow => c, acquired := TryAcquireFixed(c, cfg, now);
      }
      contexts := contexts[key := Recorded(c, acquired, now)];
      AnsweredFrom(old(contexts), kept, allowlist, blocklist, Request(key, cfg, now), contexts, acquired);
    }

    /** The quota is that of the key's context, and asking for it changes no later decision. */
    method GetRemainingQuota(key: string, cfg: Config, now: nat) returns (remaining: nat)
      requires Valid()
      modifies this`contexts
      ensures Valid() && contexts.Keys == old(contexts).Keys
      ensures Unacceptable(key, cfg) ==> remaining == 0 && contexts == old(contexts)
      ensures !Unacceptable(key, cfg) ==> remaining == Quota(cfg, ContextOf(old(contexts), key), now)
      ensures forall k :: k in contexts && k != key ==> contexts[k] == old(contexts)[k]
      ensures forall later :: key in contexts && later >= now ==>
                Decided(cfg, contexts[key], later) == Decided(cfg, old(contexts)[key], later)
    {
      if !IsValidKey(key) || !IsValidConfig(cfg) {
        return 0;
      }
      if key !in contexts {
        NewQuota(cfg, now);
        return cfg.capacity;
      }
      var c := contexts[key];
      forall later | later >= now && cfg.strategy != FixedWindow
        ensures Decided(cfg, Updated(cfg, c, now), later) == Decided(cfg, c, later)
      {
        UpdatedTwice(cfg, c, now, later);
      }
      match cfg.strategy {
        case SlidingWindow =>
          c := c.(timestamps := Prune(c.timestamps, WindowStart(cfg, now)));
          remaining := if |c.timestamps| < cfg.capacity then cfg.capacity - |c.timestamps| else 0;
        case TokenBucket =>
          c := Refilled(cfg, c, now);
          remaining := if c.tokens < 0.0 then 0 else c.tokens.Floor;
        case FixedWindow =>
          if c.windowStart == 0 || Elapsed(now, c.windowStart) >= cfg.windowMs {
            remaining := cfg.capacity;
          } else {
            remaining := if c.count < cfg.capacity then cfg.capacity - c.count else 0;
          }
      }
      contexts := contexts[key := c];
    }
  }

  // ----- the quota

  /** What room the context has, once brought up to date. */
  function Quota(cfg: Config, c: Context, now: nat): nat {
    var u := Updated(cfg, c, now);
    match cfg.strategy
    case SlidingWindow => if |u.timestamps| < cfg.capacity then cfg.capacity - |u.timestamps| else 0
    case TokenBucket => if u.tokens < 0.0 then 0 else u.tokens.Floor
    case FixedWindow => if u.count < cfg.capacity then cfg.capacity - u.count else 0
  }

  lemma NewQuota(cfg: Config, now: nat)
    ensures Quota(cfg, NEW_CONTEXT, now) == cfg.capacity
  {
  }

  /** The context after n requests at one instant. */
  function Burst(cfg: Config, c: Context, now: nat, n: nat): Context {
    if n == 0 then c else AfterRequest(cfg, Burst(cfg, c, now, n - 1), now)
  }

  /** The quota is exactly how many requests would be granted at this instant. */
  lemma {:induction false} QuotaIsBurst(cfg: Config, c: Context, now: nat, n: nat)
    requires IsValidConfig(cfg) && now > 0
    ensures Grants(cfg, Burst(cfg, c, now, n), now) <==> n < Quota(cfg, c, now)
    ensures Quota(cfg, Burst(cfg, c, now, n), now) == if n < Quota(cfg, c, now) then Quota(cfg, c, now) - n else 0
  {
    if n > 0 {
      QuotaIsBurst(cfg, c, now, n - 1);
      QuotaStep(cfg, Burst(cfg, c, now, n - 1), now);
    }
    QuotaStep(cfg, Burst(cfg, c, now, n), now);
  }

  /** A grant costs one; a refusal costs nothing and means that there is none left. */
  lemma QuotaStep(cfg: Config, c: Context, now: nat)
    requires IsValidConfig(cfg) && now > 0
    ensures Grants(cfg, c, now) <==> Quota(cfg, c, now) > 0
    ensures Quota(cfg, AfterRequest(cfg, c, now), now) == if Grants(cfg, c, now) then Quota(cfg, c, now) - 1 else 0
  {
    var u := Updated(cfg, c, now);
    match cfg.strategy {
      case SlidingWindow =>
        PruneIdle(c.timestamps, WindowStart(cfg, now), now);
      case TokenBucket =>
        TokenQuota(u.tokens);
      case FixedWindow =>
    }
  }

  lemma {:induction false} PruneIdle(ts: seq<nat>, start: nat, now: nat)
    requires start < now
    ensures var p := Prune(ts, start); Prune(p, start) == p && Prune(p + [now], start) == p + [now]
    decreases ts
  {
    if ts != [] && ts[0] <= start {
      PruneIdle(ts[1..], start, now);
    } else if ts != [] {
      assert (ts + [now])[0] == ts[0];
    }
  }

  lemma TokenQuota(tokens: real)
    ensures tokens >= 1.0 <==> tokens >= 0.0 && tokens.Floor > 0
    ensures tokens >= 1.0 ==> (tokens - 1.0).Floor == tokens.Floor - 1
  {
  }

  lemma {:induction false} PruneTwice(ts: seq<nat>, a: nat, b: nat)
    requires a <= b
    ensures Prune(Prune(ts, a), b) == Prune(ts, b)
    decreases ts
  {
    if ts != [] && ts[0] <= a {
      PruneTwice(ts[1..], a, b);
    }
  }

  lemma RefillAdds(cfg: Config, a: int, b: int)
    requires a >= 0 && b >= 0
    ensures Refill(cfg, a + b) == Refill(cfg, a) + Refill(cfg, b) && Refill(cfg, a) >= 0.0
  {
    var x, y, r := a as real / 1000.0, b as real / 1000.0, cfg.refillPerSec as real;
    assert (x + y) * r == x * r + y * r;
    assert x * r >= 0.0;
  }

  /** Bringing a window or a bucket up to date early changes nothing later. */
  lemma UpdatedTwice(cfg: Config, c: Context, now: nat, later: nat)
    requires cfg.strategy != FixedWindow && now <= later
    ensures Updated(cfg, Updated(cfg, c, now), later) == Updated(cfg, c, later)
  {
    if cfg.strategy == SlidingWindow {
      PruneTwice(c.timestamps, WindowStart(cfg, now), WindowStart(cfg, later));
    } else {
      RefillAdds(cfg, later - now, 0);
      if c.lastRefill <= now {
        RefillAdds(cfg, now - c.lastRefill, later - now);
      }
    }
  }

  // ----- runs on one key: requests at the given times, nothing else

  /** A clock that starts after 0 and never goes back. */
  ghost predicate ClockTimes(times: seq<nat>) {
    && (forall i :: 0 <= i < |times| ==> 0 < times[i] < UINT64)
    && (forall i, j :: 0 <= i < j < |times| ==> times[i] <= times[j])
  }

  /** The context after the first n requests. */
  function After(cfg: Config, times: seq<nat>, n: nat): Context
    requires n <= |times|
  {
    if n == 0 then NEW_CONTEXT else AfterRequest(cfg, After(cfg, times, n - 1), times[n - 1])
  }

  predicate GrantedAt(cfg: Config, times: seq<nat>, i: nat)
    requires i < |times|
  {
    Grants(cfg, After(cfg, times, i), times[i])
  }

  /** How many of requests i .. j-1 are granted. */
  function GrantCount(cfg: Config, times: seq<nat>, i: nat, j: nat): nat
    requires i <= j <= |times|
  {
    if i == j then 0 else GrantCount(cfg, times, i, j - 1) + if GrantedAt(cfg, times, j - 1) then 1 else 0
  }

  /** Statistics are conserved: each request is counted once, as what it was. */
  lemma {:induction false} StatCountsRequests(cfg: Config, times: seq<nat>, n: nat)
    requires n <= |times|
    ensures After(cfg, times, n).stat.acquired == GrantCount(cfg, times, 0, n)
    ensures After(cfg, times, n).stat.acquired + After(cfg, times, n).stat.rejected == n
  {
    if n > 0 {
      StatCountsRequests(cfg, times, n - 1);
      StatUntouched(cfg, After(cfg, times, n - 1), times[n - 1]);
    }
  }

  /** What eviction goes by is the time of the key's last request. */
  lemma LastUseIsLatest(cfg: Config, times: seq<nat>, n: nat)
    requires ClockTimes(times) && n <= |times|
    ensures LastUse(After(cfg, times, n)) == if n == 0 then 0 else times[n - 1]
  {
    LastTimes(cfg, times, n);
  }

  lemma {:induction false} LastTimes(cfg: Config, times: seq<nat>, n: nat)
    requires ClockTimes(times) && n <= |times|
    ensures var st := After(cfg, times, n).stat;
            if n == 0 then st.lastAcquire == st.lastReject == 0
            else st.lastAcquire <= times[n - 1] && st.lastReject <= times[n - 1]
                 && (st.lastAcquire == times[n - 1] || st.lastReject == times[n - 1])
  {
    if n > 0 {
      LastTimes(cfg, times, n - 1);
      StatUntouched(cfg, After(cfg, times, n - 1), times[n - 1]);
    }
  }

  lemma StatUntouched(cfg: Config, c: Context, now: nat)
    ensures Decided(cfg, c, now).stat == c.stat
  {
  }

  // ----- sliding window

  /** The reference: count the grants of the whole history in (now - W, now]. */
  function CountIn(grants: seq<nat>, lo: int, hi: int): nat {
    if grants == [] then 0 else
    CountIn(grants[..|grants| - 1], lo, hi) + if lo < grants[|grants| - 1] <= hi then 1 else 0
  }

  function Extended(cfg: Config, grants: seq<nat>, now: nat): seq<nat> {
    if CountIn(grants, now - cfg.windowMs, now) < cfg.capacity then grants + [now] else grants
  }

  function FullHistory(cfg: Config, times: seq<nat>, n: nat): seq<nat>
    requires n <= |times|
  {
    if n == 0 then [] else Extended(cfg, FullHistory(cfg, times, n - 1), times[n - 1])
  }

  /** The grants later than lo, of a history in time order. */
  function Later(grants: seq<nat>, lo: int): seq<nat> {
    if grants == [] then [] else
    Later(grants[..|grants| - 1], lo) + if lo < grants[|grants| - 1] then [grants[|grants| - 1]] else []
  }

  ghost predicate Ordered(grants: seq<nat>, hi: nat) {
    && (forall i :: 0 <= i < |grants| ==> 0 < grants[i] <= hi)
    && (forall i, j :: 0 <= i < j < |grants| ==> grants[i] <= grants[j])
  }

  lemma {:induction false} CountIsLater(grants: seq<nat>, lo: int, hi: nat)
    requires Ordered(grants, hi)
    ensures CountIn(grants, lo, hi) == |Later(grants, lo)|
  {
    if grants != [] {
      CountIsLater(grants[..|grants| - 1], lo, hi);
    }
  }

  lemma {:induction false} LaterAll(grants: seq<nat>, lo: int)
    requires forall i :: 0 <= i < |grants| ==> lo < grants[i]
    ensures Later(grants, lo) == grants
  {
    if grants != [] {
      LaterAll(grants[..|grants| - 1], lo);
    }
  }

  lemma {:induction false} LaterDropsFirst(grants: seq<nat>, lo: int)
    requires grants != [] && grants[0] <= lo
    ensures Later(grants, lo) == Later(grants[1..], lo)
  {
    if |grants| > 1 {
      LaterDropsFirst(grants[..|grants| - 1], lo);
      assert grants[..|grants| - 1][1..] == grants[1..][..|grants| - 2];
    }
  }

  lemma {:induction false} LaterTwice(grants: seq<nat>, a: int, b: int)
    requires a <= b
    ensures Later(Later(grants, a), b) == Later(grants, b)
  {
    if grants != [] {
      var init, x := grants[..|grants| - 1], grants[|grants| - 1];
      LaterTwice(init, a, b);
      if a < x {
        assert (Later(init, a) + [x])[..|Later(init, a)|] == Later(init, a);
      } else {
        assert Later(init, a) + [] == Later(init, a);
      }
    }
  }

  lemma {:induction false} LaterOrdered(grants: seq<nat>, lo: int, hi: nat)
    requires Ordered(grants, hi)
    ensures Ordered(Later(grants, lo), hi) && forall x :: x in Later(grants, lo) ==> x in grants
  {
    if grants != [] {
      var init, x := grants[..|grants| - 1], grants[|grants| - 1];
      LaterOrdered(init, lo, hi);
      forall i | 0 <= i < |Later(init, lo)| ensures Later(init, lo)[i] <= x {
        assert Later(init, lo)[i] in init;
      }
    }
  }

  /** On an ordered deque, popping the front prunes exactly what is out of the window. */
  lemma {:induction false} PruneIsLater(ts: seq<nat>, start: nat, hi: nat)
    requires Ordered(ts, hi)
    ensures Prune(ts, start) == Later(ts, start)
    decreases ts
  {
    if ts != [] && ts[0] <= start {
      PruneIsLater(ts[1..], start, hi);
      LaterDropsFirst(ts, start);
    } else {
      LaterAll(ts, start);
    }
  }

  lemma {:induction false} CountNarrows(grants: seq<nat>, lo: int, hi: int, lo': int, hi': int)
    requires forall i :: 0 <= i < |grants| && lo < grants[i] <= hi ==> lo' < grants[i] <= hi'
    ensures CountIn(grants, lo, hi) <= CountIn(grants, lo', hi')
  {
    if grants != [] {
      CountNarrows(grants[..|grants| - 1], lo, hi, lo', hi');
    }
  }

  lemma HistoryWindow(cfg: Config, grants: seq<nat>, now: nat)
    requires Ordered(grants, now)
    ensures CountIn(grants, now - cfg.windowMs, now) == |Later(grants, WindowStart(cfg, now))|
  {
    CountIsLater(grants, WindowStart(cfg, now), now);
    CountNarrows(grants, now - cfg.windowMs, now, WindowStart(cfg, now), now);
    CountNarrows(grants, WindowStart(cfg, now), now, now - cfg.windowMs, now);
  }

  lemma LaterSnoc(grants: seq<nat>, now: nat, lo: int)
    ensures Later(grants + [now], lo) == Later(grants, lo) + if lo < now then [now] else []
  {
    assert (grants + [now])[..|grants|] == grants;
  }

  lemma {:induction false} HistoryOrdered(cfg: Config, times: seq<nat>, n: nat, hi: nat)
    requires n <= |times| && ClockTimes(times) && forall i :: 0 <= i < n ==> times[i] <= hi
    ensures Ordered(FullHistory(cfg, times, n), hi)
  {
    if n > 0 {
      HistoryOrdered(cfg, times, n - 1, times[n - 1]);
      OrderedSnoc(FullHistory(cfg, times, n - 1), times[n - 1], hi);
    }
  }

  lemma OrderedSnoc(grants: seq<nat>, now: nat, hi: nat)
    requires Ordered(grants, now) && 0 < now <= hi
    ensures Ordered(grants, hi) && Ordered(grants + [now], hi)
  {
  }

  predicate Synced(cfg: Config, c: Context, grants: seq<nat>, start: nat) { c.timestamps == Later(grants, start) }

  function StartAfter(cfg: Config, times: seq<nat>, n: nat): nat
    requires n <= |times|
  {
    if n == 0 then 0 else WindowStart(cfg, times[n - 1])
  }

  ghost predicate DequeSynced(cfg: Config, times: seq<nat>, n: nat)
    requires n <= |times|
  {
    Synced(cfg, After(cfg, times, n), FullHistory(cfg, times, n), StartAfter(cfg, times, n))
  }

  /** The pruned deque is what the full history leaves in the window ... */
  lemma {:induction false} DequeIsWindow(cfg: Config, times: seq<nat>, n: nat)
    requires cfg.strategy == SlidingWindow && cfg.windowMs > 0 && ClockTimes(times) && n <= |times|
    ensures DequeSynced(cfg, times, n)
  {
    if n > 0 {
      DequeIsWindow(cfg, times, n - 1);
      DequeNext(cfg, times, n);
    } else {
      DequeStart(cfg, times);
    }
  }

  lemma DequeStart(cfg: Config, times: seq<nat>)
    ensures DequeSynced(cfg, times, 0)
  {
  }

  lemma DequeNext(cfg: Config, times: seq<nat>, n: nat)
    requires cfg.strategy == SlidingWindow && cfg.windowMs > 0 && ClockTimes(times) && 0 < n <= |times|
    requires DequeSynced(cfg, times, n - 1)
    ensures DequeSynced(cfg, times, n)
  {
    var c, g, now := After(cfg, times, n - 1), FullHistory(cfg, times, n - 1), times[n - 1];
    HistoryOrdered(cfg, times, n - 1, now);
    SlidingStep(cfg, c, g, StartAfter(cfg, times, n - 1), now);
  }

  lemma SlidingStep(cfg: Config, c: Context, g: seq<nat>, previous: nat, now: nat)
    requires cfg.strategy == SlidingWindow && cfg.windowMs > 0 && now > 0 && Ordered(g, now)
    requires Synced(cfg, c, g, previous) && previous <= WindowStart(cfg, now)
    ensures Grants(cfg, c, now) <==> CountIn(g, now - cfg.windowMs, now) < cfg.capacity
    ensures Synced(cfg, AfterRequest(cfg, c, now), if Grants(cfg, c, now) then g + [now] else g, WindowStart(cfg, now))
  {
    var start := WindowStart(cfg, now);
    LaterOrdered(g, previous, now);
    PruneIsLater(c.timestamps, start, now);
    LaterTwice(g, previous, start);
    HistoryWindow(cfg, g, now);
    LaterSnoc(g, now, start);
  }

  /** ... so each decision is the one that counting the whole history would take. */
  lemma SlidingDecidesByHistory(cfg: Config, times: seq<nat>, i: nat)
    requires cfg.strategy == SlidingWindow && cfg.windowMs > 0 && ClockTimes(times) && i < |times|
    ensures GrantedAt(cfg, times, i) <==>
              CountIn(FullHistory(cfg, times, i), times[i] - cfg.windowMs, times[i]) < cfg.capacity
  {
    DequeIsWindow(cfg, times, i);
    HistoryOrdered(cfg, times, i, times[i]);
    SlidingStep(cfg, After(cfg, times, i), FullHistory(cfg, times, i), StartAfter(cfg, times, i), times[i]);
  }

  /** No window (t - W, t] holds more than capacity grants, wherever it is placed. */
  lemma {:induction false} SlidingWindowBound(cfg: Config, times: seq<nat>, n: nat, t: int)
    requires ClockTimes(times) && n <= |times|
    ensures CountIn(FullHistory(cfg, times, n), t - cfg.windowMs, t) <= cfg.capacity
  {
    if n > 0 {
      SlidingWindowBound(cfg, times, n - 1, t);
      HistoryOrdered(cfg, times, n - 1, times[n - 1]);
      GrantFits(cfg, FullHistory(cfg, times, n - 1), times[n - 1], t);
    }
  }

  /** So requests within one window are granted at most capacity times. */
  lemma SlidingGrantBound(cfg: Config, times: seq<nat>, i: nat, j: nat, t: int)
    requires cfg.strategy == SlidingWindow && cfg.windowMs > 0 && ClockTimes(times) && i <= j <= |times|
    requires forall k :: i <= k < j ==> t - cfg.windowMs < times[k] <= t
    ensures GrantCount(cfg, times, i, j) <= cfg.capacity
  {
    GrantsAreHistory(cfg, times, i, j, t);
    SlidingWindowBound(cfg, times, j, t);
  }

  lemma {:induction false} GrantsAreHistory(cfg: Config, times: seq<nat>, i: nat, j: nat, t: int)
    requires cfg.strategy == SlidingWindow && cfg.windowMs > 0 && ClockTimes(times) && i <= j <= |times|
    requires forall k :: i <= k < j ==> t - cfg.windowMs < times[k] <= t
    ensures GrantCount(cfg, times, i, j) <= CountIn(FullHistory(cfg, times, j), t - cfg.windowMs, t)
    decreases j
  {
    if i < j {
      GrantsAreHistory(cfg, times, i, j - 1, t);
      GrantsAreHistoryNext(cfg, times, i, j - 1, t);
    } else {
      assert GrantCount(cfg, times, i, i) == 0;
    }
  }

  lemma GrantsAreHistoryNext(cfg: Config, times: seq<nat>, i: nat, k: nat, t: int)
    requires cfg.strategy == SlidingWindow && cfg.windowMs > 0 && ClockTimes(times) && i <= k < |times|
    requires t - cfg.windowMs < times[k] <= t
    requires GrantCount(cfg, times, i, k) <= CountIn(FullHistory(cfg, times, k), t - cfg.windowMs, t)
    ensures GrantCount(cfg, times, i, k + 1) <= CountIn(FullHistory(cfg, times, k + 1), t - cfg.windowMs, t)
  {
    HistoryGrows(cfg, times, k, t);
  }

  lemma HistoryGrows(cfg: Config, times: seq<nat>, k: nat, t: int)
    requires cfg.strategy == SlidingWindow && cfg.windowMs > 0 && ClockTimes(times) && k < |times|
    requires t - cfg.windowMs < times[k] <= t
    ensures CountIn(FullHistory(cfg, times, k + 1), t - cfg.windowMs, t) ==
              CountIn(FullHistory(cfg, times, k), t - cfg.windowMs, t) + if GrantedAt(cfg, times, k) then 1 else 0
  {
    SlidingDecidesByHistory(cfg, times, k);
    CountSnoc(FullHistory(cfg, times, k), times[k], t - cfg.windowMs, t);
  }

  lemma CountSnoc(grants: seq<nat>, now: nat, lo: int, hi: int)
    ensures CountIn(grants + [now], lo, hi) == CountIn(grants, lo, hi) + if lo < now <= hi then 1 else 0
  {
    assert (grants + [now])[..|grants|] == grants;
  }

  lemma GrantFits(cfg: Config, grants: seq<nat>, now: nat, t: int)
    requires Ordered(grants, now) && CountIn(grants, t - cfg.windowMs, t) <= cfg.capacity
    ensures CountIn(Extended(cfg, grants, now), t - cfg.windowMs, t) <= cfg.capacity
  {
    assert (grants + [now])[..|grants|] == grants;
    if t - cfg.windowMs < now <= t && CountIn(grants, now - cfg.windowMs, now) < cfg.capacity {
      CountNarrows(grants, t - cfg.windowMs, t, now - cfg.windowMs, now);
    }
  }

  // ----- token bucket

  lemma {:induction false} TokensInRange(cfg: Config, times: seq<nat>, n: nat)
    requires cfg.strategy == TokenBucket && ClockTimes(times) && n <= |times|
    ensures 0.0 <= After(cfg, times, n).tokens <= cfg.capacity as real
    ensures n > 0 ==> After(cfg, times, n).lastRefill == times[n - 1]
    ensures n == 0 ==> After(cfg, times, n).lastRefill == 0
  {
    if n > 0 {
      TokensInRange(cfg, times, n - 1);
      if n > 1 {
        RefillAdds(cfg, times[n - 1] - times[n - 2], 0);
      }
    }
  }

  /** Grants in requests i .. j-1 plus the tokens left are paid by one full bucket and the
      refill of the time between. */
  lemma {:induction false} TokensPayForGrants(cfg: Config, times: seq<nat>, i: nat, j: nat)
    requires cfg.strategy == TokenBucket && ClockTimes(times) && i < j <= |times|
    ensures GrantCount(cfg, times, i, j) as real + After(cfg, times, j).tokens <=
              cfg.capacity as real + Refill(cfg, times[j - 1] - times[i])
    decreases j
  {
    TokensInRange(cfg, times, j - 1);
    TokenStep(cfg, After(cfg, times, j - 1), times[j - 1]);
    if j == i + 1 {
      assert GrantCount(cfg, times, i, i) == 0;
      RefillAdds(cfg, 0, 0);
    } else {
      TokensPayForGrants(cfg, times, i, j - 1);
      RefillAdds(cfg, times[j - 2] - times[i], times[j - 1] - times[j - 2]);
      assert After(cfg, times, j - 1).lastRefill == times[j - 2];
    }
  }

  /** One request: a grant and the tokens left never exceed a full bucket, nor the tokens
      there were plus the refill. */
  lemma TokenStep(cfg: Config, c: Context, now: nat)
    requires cfg.strategy == TokenBucket && c.lastRefill <= now && 0.0 <= c.tokens <= cfg.capacity as real
    ensures var spent := (if Grants(cfg, c, now) then 1.0 else 0.0) + AfterRequest(cfg, c, now).tokens;
            spent <= cfg.capacity as real && (c.lastRefill > 0 ==> spent <= c.tokens + Refill(cfg, now - c.lastRefill))
  {
    RefillAdds(cfg, now - c.lastRefill, 0);
  }

  /** In any interval [s, t] the bucket grants at most capacity + refillPerSec (t - s) / 1000. */
  lemma TokenBucketBound(cfg: Config, times: seq<nat>, i: nat, j: nat, s: nat, t: nat)
    requires cfg.strategy == TokenBucket && ClockTimes(times) && i <= j <= |times| && s <= t
    requires forall k :: i <= k < j ==> s <= times[k] <= t
    ensures GrantCount(cfg, times, i, j) as real <= cfg.capacity as real + Refill(cfg, t - s)
  {
    RefillAdds(cfg, t - s, 0);
    if i < j {
      TokensPayForGrants(cfg, times, i, j);
      TokensInRange(cfg, times, j);
      RefillAdds(cfg, times[j - 1] - times[i], (t - s) - (times[j - 1] - times[i]));
      RefillAdds(cfg, (t - s) - (times[j - 1] - times[i]), 0);
    }
  }

  /** The tokens in the bucket when request j is decided. */
  function Level(cfg: Config, times: seq<nat>, j: nat): real
    requires j < |times|
  {
    Refilled(cfg, After(cfg, times, j), times[j]).tokens
  }

  function Seconds(from: int, to: int): real { (to - from) as real / 1000.0 }

  /** What a bucket that was full at request i has gained and paid out since. */
  ghost function Room(cfg: Config, times: seq<nat>, i: nat, j: nat): real
    requires ClockTimes(times) && i <= j < |times|
  {
    cfg.capacity as real + Refill(cfg, times[j] - times[i]) - GrantCount(cfg, times, i, j) as real
  }

  lemma FullRoom(cfg: Config, times: seq<nat>, j: nat)
    requires ClockTimes(times) && j < |times|
    ensures Room(cfg, times, j, j) == cfg.capacity as real
  {
    assert GrantCount(cfg, times, j, j) == 0;
    RefillAdds(cfg, 0, 0);
  }

  /** From one request to the next every room moves by the same amount. */
  lemma RoomStep(cfg: Config, times: seq<nat>, i: nat, j: nat)
    requires ClockTimes(times) && i < j < |times|
    ensures Room(cfg, times, i, j) ==
              Room(cfg, times, i, j - 1) + Refill(cfg, times[j] - times[j - 1])
              - (if GrantedAt(cfg, times, j - 1) then 1.0 else 0.0)
  {
    RefillAdds(cfg, times[j - 1] - times[i], times[j] - times[j - 1]);
    RoomSums(cfg, times[j - 1] - times[i], times[j] - times[j - 1], GrantCount(cfg, times, i, j - 1),
      GrantedAt(cfg, times, j - 1), Room(cfg, times, i, j), Room(cfg, times, i, j - 1));
  }

  lemma RoomSums(cfg: Config, a: int, b: int, grants: nat, granted: bool, after: real, before: real)
    requires Refill(cfg, a + b) == Refill(cfg, a) + Refill(cfg, b)
    requires after == cfg.capacity as real + Refill(cfg, a + b) - (grants + if granted then 1 else 0) as real
    requires before == cfg.capacity as real + Refill(cfg, a) - grants as real
    ensures after == before + Refill(cfg, b) - (if granted then 1.0 else 0.0)
  {
  }

  lemma LevelStep(cfg: Config, times: seq<nat>, j: nat)
    requires cfg.strategy == TokenBucket && ClockTimes(times) && 0 < j < |times|
    ensures Level(cfg, times, j) ==
              MinReal(cfg.capacity as real,
                Level(cfg, times, j - 1) - (if GrantedAt(cfg, times, j - 1) then 1.0 else 0.0)
                + Refill(cfg, times[j] - times[j - 1]))
  {
    TokensInRange(cfg, times, j);
    RefillAdds(cfg, times[j] - times[j - 1], 0);
    var c := After(cfg, times, j - 1);
    assert After(cfg, times, j) == AfterRequest(cfg, c, times[j - 1]);
    assert After(cfg, times, j).tokens ==
      Level(cfg, times, j - 1) - (if GrantedAt(cfg, times, j - 1) then 1.0 else 0.0);
  }

  /** The level is the least room: a full bucket at any earlier request has gained at least this. */
  lemma {:induction false} LevelIsLeastRoom(cfg: Config, times: seq<nat>, j: nat) returns (least: nat)
    requires cfg.strategy == TokenBucket && ClockTimes(times) && j < |times|
    ensures forall i :: 0 <= i <= j ==> Level(cfg, times, j) <= Room(cfg, times, i, j)
    ensures least <= j && Level(cfg, times, j) == Room(cfg, times, least, j)
  {
    FullRoom(cfg, times, j);
    if j == 0 {
      return 0;
    }
    least := LevelIsLeastRoom(cfg, times, j - 1);
    LevelStep(cfg, times, j);
    RoomStep(cfg, times, least, j);
    forall i | 0 <= i <= j ensures Level(cfg, times, j) <= Room(cfg, times, i, j) {
      if i < j {
        RoomStep(cfg, times, i, j);
      }
    }
    if Level(cfg, times, j) != Room(cfg, times, least, j) {
      least := j;
    }
  }

  /** The grants since request i, and one more at request j, fit in a full bucket and the refill
      of the time between. */
  predicate FitsSince(cfg: Config, times: seq<nat>, i: nat, j: nat)
    requires i <= j < |times|
  {
    GrantCount(cfg, times, i, j) as real + 1.0 <=
      cfg.capacity as real + Seconds(times[i], times[j]) * cfg.refillPerSec as real
  }

  lemma FitsIsRoom(cfg: Config, times: seq<nat>, i: nat, j: nat)
    requires ClockTimes(times) && i <= j < |times|
    ensures FitsSince(cfg, times, i, j) <==> Room(cfg, times, i, j) >= 1.0
  {
    SecondsRefill(cfg, times[i], times[j]);
  }

  lemma SecondsRefill(cfg: Config, from: int, to: int)
    ensures Refill(cfg, to - from) == Seconds(from, to) * cfg.refillPerSec as real
  {
  }

  /** Each decision, from the history: granted exactly when it fits since every earlier request. */
  lemma TokenDecidesByHistory(cfg: Config, times: seq<nat>, j: nat)
    requires cfg.strategy == TokenBucket && ClockTimes(times) && j < |times|
    ensures GrantedAt(cfg, times, j) <==> forall i :: 0 <= i <= j ==> FitsSince(cfg, times, i, j)
  {
    var least := LevelIsLeastRoom(cfg, times, j);
    LevelDecides(cfg, times, j);
    FitsIsRoom(cfg, times, least, j);
    forall i | 0 <= i <= j ensures Level(cfg, times, j) >= 1.0 ==> FitsSince(cfg, times, i, j) {
      FitsIsRoom(cfg, times, i, j);
    }
  }

  lemma LevelDecides(cfg: Config, times: seq<nat>, j: nat)
    requires cfg.strategy == TokenBucket && j < |times|
    ensures GrantedAt(cfg, times, j) <==> Level(cfg, times, j) >= 1.0
  {
  }

  // ----- fixed window

  lemma {:induction false} FixedInRange(cfg: Config, times: seq<nat>, n: nat)
    requires cfg.strategy == FixedWindow && cfg.windowMs > 0 && ClockTimes(times) && n <= |times|
    ensures var c := After(cfg, times, n);
            && c.count <= cfg.capacity
            && (n > 0 ==> 0 < c.windowStart <= times[n - 1] && times[n - 1] - c.windowStart < cfg.windowMs)
            && (n == 0 ==> c.windowStart == 0)
  {
    if n > 0 {
      FixedInRange(cfg, times, n - 1);
      var c, now := After(cfg, times, n - 1), times[n - 1];
      assert 0 <= now - c.windowStart < UINT64 by {
        if n > 1 { assert times[n - 2] <= times[n - 1]; }
      }
      ElapsedExact(now, c.windowStart);
    }
  }

  lemma ElapsedExact(now: nat, since: nat)
    requires since <= now < UINT64
    ensures Elapsed(now, since) == now - since
  {
  }

  /** Since the window w0 of a request at t0: still in it, or once in a later one that began
      after t0. */
  predicate TwoWindows(cfg: Config, w0: nat, t0: nat, c: Context, grants: nat) {
    (c.windowStart == w0 && grants <= c.count) || (c.windowStart > t0 && grants <= cfg.capacity + c.count)
  }

  ghost predicate WithinTwo(cfg: Config, times: seq<nat>, i: nat, j: nat)
    requires i < j <= |times|
  {
    TwoWindows(cfg, After(cfg, times, i + 1).windowStart, times[i], After(cfg, times, j), GrantCount(cfg, times, i, j))
  }

  lemma {:induction false} FixedTwoWindows(cfg: Config, times: seq<nat>, i: nat, j: nat)
    requires cfg.strategy == FixedWindow && cfg.windowMs > 0 && ClockTimes(times) && i < j <= |times|
    requires times[j - 1] - times[i] <= cfg.windowMs
    ensures WithinTwo(cfg, times, i, j)
    decreases j
  {
    if j == i + 1 {
      FirstOfTwo(cfg, times, i);
    } else {
      FixedTwoWindows(cfg, times, i, j - 1);
      NextOfTwo(cfg, times, i, j - 1);
    }
  }

  lemma FirstOfTwo(cfg: Config, times: seq<nat>, i: nat)
    requires cfg.strategy == FixedWindow && cfg.windowMs > 0 && ClockTimes(times) && i < |times|
    ensures WithinTwo(cfg, times, i, i + 1)
  {
    FixedInRange(cfg, times, i);
    assert GrantCount(cfg, times, i, i) == 0;
    FixedStep(cfg, After(cfg, times, i), times[i]);
  }

  lemma NextOfTwo(cfg: Config, times: seq<nat>, i: nat, k: nat)
    requires cfg.strategy == FixedWindow && cfg.windowMs > 0 && ClockTimes(times) && i < k < |times|
    requires times[k] - times[i] <= cfg.windowMs && WithinTwo(cfg, times, i, k)
    ensures WithinTwo(cfg, times, i, k + 1)
  {
    FixedInRange(cfg, times, i + 1);
    FixedInRange(cfg, times, k);
    TwoWindowsStep(cfg, After(cfg, times, i + 1).windowStart, times[i], After(cfg, times, k),
      GrantCount(cfg, times, i, k), times[k]);
  }

  lemma TwoWindowsStep(cfg: Config, w0: nat, t0: nat, c: Context, grants: nat, now: nat)
    requires cfg.strategy == FixedWindow && TwoWindows(cfg, w0, t0, c, grants)
    requires 0 < w0 <= t0 <= now && now - t0 <= cfg.windowMs && 0 < c.windowStart <= now < UINT64
    requires c.count <= cfg.capacity
    requires t0 - w0 < cfg.windowMs
    ensures TwoWindows(cfg, w0, t0, AfterRequest(cfg, c, now), grants + if Grants(cfg, c, now) then 1 else 0)
  {
    FixedStep(cfg, c, now);
  }

  /** One request stays in the window, or starts a new one at least windowMs later. */
  lemma FixedStep(cfg: Config, c: Context, now: nat)
    requires cfg.strategy == FixedWindow && c.windowStart <= now < UINT64
    ensures var d, g := AfterRequest(cfg, c, now), if Grants(cfg, c, now) then 1 else 0;
            || (d.windowStart == c.windowStart && d.count == c.count + g)
            || (d.windowStart == now && d.count == g && (c.windowStart > 0 ==> now - c.windowStart >= cfg.windowMs))
  {
    ElapsedExact(now, c.windowStart);
  }

  /** The request that began the window which request j falls in. */
  function WindowFirst(cfg: Config, times: seq<nat>, j: nat): (f: nat)
    requires j < |times|
    ensures f <= j
  {
    if j == 0 then 0 else
    var f := WindowFirst(cfg, times, j - 1);
    if times[j] - times[f] >= cfg.windowMs then j else f
  }

  /** The context after request j: the window that it falls in, and what was granted in it. */
  ghost predicate WindowShows(cfg: Config, times: seq<nat>, j: nat)
    requires j < |times|
  {
    var c, f := After(cfg, times, j + 1), WindowFirst(cfg, times, j);
    c.windowStart == times[f] && c.count == if j - f < cfg.capacity then j - f + 1 else cfg.capacity
  }

  lemma {:induction false} FixedFollowsWindows(cfg: Config, times: seq<nat>, j: nat)
    requires cfg.strategy == FixedWindow && cfg.windowMs > 0 && ClockTimes(times) && j < |times|
    ensures WindowShows(cfg, times, j)
    ensures GrantedAt(cfg, times, j) <==> j - WindowFirst(cfg, times, j) < cfg.capacity
  {
    if j == 0 {
      assert After(cfg, times, 0) == NEW_CONTEXT;
    } else {
      FixedFollowsWindows(cfg, times, j - 1);
      FixedNext(cfg, times, j);
    }
  }

  lemma FixedNext(cfg: Config, times: seq<nat>, j: nat)
    requires cfg.strategy == FixedWindow && cfg.windowMs > 0 && ClockTimes(times) && 0 < j < |times|
    requires WindowShows(cfg, times, j - 1)
    ensures WindowShows(cfg, times, j)
    ensures GrantedAt(cfg, times, j) <==> j - WindowFirst(cfg, times, j) < cfg.capacity
  {
    var f := WindowFirst(cfg, times, j - 1);
    assert times[f] <= times[j];
    ElapsedExact(times[j], times[f]);
  }

  /** Each decision, from the history: windows begin with the first request and with every one
      that comes windowMs after the begin of the last; the first `capacity` in each are granted. */
  lemma FixedDecidesByHistory(cfg: Config, times: seq<nat>, j: nat)
    requires cfg.strategy == FixedWindow && cfg.windowMs > 0 && ClockTimes(times) && j < |times|
    ensures GrantedAt(cfg, times, j) <==> j - WindowFirst(cfg, times, j) < cfg.capacity
  {
    FixedFollowsWindows(cfg, times, j);
  }

  /** A closed interval as long as the window sees at most twice the capacity. */
  lemma FixedWindowBound(cfg: Config, times: seq<nat>, i: nat, j: nat)
    requires cfg.strategy == FixedWindow && cfg.windowMs > 0 && ClockTimes(times) && i <= j <= |times|
    requires i < j ==> times[j - 1] - times[i] <= cfg.windowMs
    ensures GrantCount(cfg, times, i, j) <= 2 * cfg.capacity
  {
    if i < j {
      FixedTwoWindows(cfg, times, i, j);
      FixedInRange(cfg, times, j);
    }
  }

  // ----- runs of the whole limiter, keys interleaved

  /** The contexts and answers of a run of requests on a new limiter. */
  ghost predicate IsRun(reqs: seq<Request>, states: seq<map<string, Context>>, answers: seq<bool>,
      allowlist: set<string>, blocklist: set<string>)
  {
    && |states| == |reqs| + 1 && |answers| == |reqs| && states[0] == map[]
    && forall i :: 0 <= i < |reqs| ==> AnswersAt(reqs, states, answers, allowlist, blocklist, i)
  }

  ghost predicate AnswersAt(reqs: seq<Request>, states: seq<map<string, Context>>, answers: seq<bool>,
      allowlist: set<string>, blocklist: set<string>, i: nat)
    requires i < |reqs| == |answers| && |states| == |reqs| + 1
  {
    Answers(states[i], allowlist, blocklist, reqs[i], states[i + 1], answers[i])
  }

  /** The times of the first n requests for key. */
  function TimesOf(reqs: seq<Request>, key: string, n: nat): seq<nat>
    requires n <= |reqs|
  {
    if n == 0 then [] else TimesOf(reqs, key, n - 1) + if reqs[n - 1].key == key then [reqs[n - 1].now] else []
  }

  /** How many of the requests i .. j-1 for key are granted. */
  function GrantsTo(reqs: seq<Request>, answers: seq<bool>, key: string, i: nat, j: nat): nat
    requires i <= j <= |reqs| == |answers|
  {
    if i == j then 0 else
    GrantsTo(reqs, answers, key, i, j - 1) + if reqs[j - 1].key == key && answers[j - 1] then 1 else 0
  }

  /** At most 256 keys are used, and this one is neither listed nor asked for with changing limits. */
  ghost predicate SteadyKey(reqs: seq<Request>, keys: set<string>, key: string, cfg: Config,
      allowlist: set<string>, blocklist: set<string>)
  {
    && |keys| <= MAX_CONTEXT_COUNT && (forall i :: 0 <= i < |reqs| ==> reqs[i].key in keys)
    && IsValidKey(key) && IsValidConfig(cfg) && key !in allowlist && key !in blocklist
    && forall i :: 0 <= i < |reqs| && reqs[i].key == key ==> reqs[i].cfg == cfg
  }

  /** Before request n the key's context is that of its own requests alone. */
  ghost predicate OwnContext(reqs: seq<Request>, state: map<string, Context>, keys: set<string>, key: string,
      cfg: Config, n: nat)
    requires n <= |reqs|
  {
    var times := TimesOf(reqs, key, n);
    state.Keys <= keys && ContextOf(state, key) == After(cfg, times, |times|)
  }

  lemma {:induction false} TimesPrefix(reqs: seq<Request>, key: string, n: nat, m: nat)
    requires n <= m <= |reqs|
    ensures TimesOf(reqs, key, n) <= TimesOf(reqs, key, m)
  {
    if n < m {
      TimesPrefix(reqs, key, n, m - 1);
    }
  }

  lemma {:induction false} AfterPrefix(cfg: Config, times: seq<nat>, longer: seq<nat>, n: nat)
    requires times <= longer && n <= |times|
    ensures After(cfg, times, n) == After(cfg, longer, n)
  {
    if n > 0 {
      AfterPrefix(cfg, times, longer, n - 1);
      assert times[n - 1] == longer[n - 1];
    }
  }

  lemma AfterSnoc(cfg: Config, times: seq<nat>, now: nat)
    ensures After(cfg, times + [now], |times| + 1) == AfterRequest(cfg, After(cfg, times, |times|), now)
  {
    AfterPrefix(cfg, times, times + [now], |times|);
  }

  /** With so few keys nothing is evicted, so other keys' requests change nothing. */
  lemma OwnStep(reqs: seq<Request>, state: map<string, Context>, next: map<string, Context>, acquired: bool,
      keys: set<string>, key: string, cfg: Config, n: nat, allowlist: set<string>, blocklist: set<string>)
    requires SteadyKey(reqs, keys, key, cfg, allowlist, blocklist) && n < |reqs|
    requires OwnContext(reqs, state, keys, key, cfg, n)
    requires Answers(state, allowlist, blocklist, reqs[n], next, acquired)
    ensures OwnContext(reqs, next, keys, key, cfg, n + 1)
    ensures reqs[n].key == key ==>
              var times := TimesOf(reqs, key, n); acquired == Grants(cfg, After(cfg, times, |times|), reqs[n].now)
  {
    var times := TimesOf(reqs, key, n);
    Counting.SubsetSize(state.Keys, keys);
    assert |state| == |state.Keys| <= MAX_CONTEXT_COUNT;
    AfterSnoc(cfg, times, reqs[n].now);
    assert times + [] == times;
    OwnNext(state, next, acquired, reqs[n], keys, key, cfg, After(cfg, times, |times|), allowlist, blocklist);
  }

  lemma OwnNext(state: map<string, Context>, next: map<string, Context>, acquired: bool, r: Request,
      keys: set<string>, key: string, cfg: Config, c: Context, allowlist: set<string>, blocklist: set<string>)
    requires IsValidKey(key) && IsValidConfig(cfg) && key !in allowlist && key !in blocklist
    requires state.Keys <= keys && r.key in keys && |state| <= MAX_CONTEXT_COUNT && (r.key == key ==> r.cfg == cfg)
    requires ContextOf(state, key) == c && Answers(state, allowlist, blocklist, r, next, acquired)
    ensures next.Keys <= keys
    ensures ContextOf(next, key) == if r.key == key then AfterRequest(cfg, c, r.now) else c
    ensures r.key == key ==> acquired == Grants(cfg, c, r.now)
  {
    if IsValidKey(r.key) && IsValidConfig(r.cfg) && r.key !in allowlist && r.key !in blocklist {
      assert AnswersFrom(state, r, next, acquired);
    }
  }

  lemma {:induction false} OwnRun(reqs: seq<Request>, states: seq<map<string, Context>>, answers: seq<bool>,
      keys: set<string>, key: string, cfg: Config, n: nat, allowlist: set<string>, blocklist: set<string>)
    requires IsRun(reqs, states, answers, allowlist, blocklist) && n <= |reqs|
    requires SteadyKey(reqs, keys, key, cfg, allowlist, blocklist)
    ensures OwnContext(reqs, states[n], keys, key, cfg, n)
  {
    if n > 0 {
      assert AnswersAt(reqs, states, answers, allowlist, blocklist, n - 1);
      OwnRun(reqs, states, answers, keys, key, cfg, n - 1, allowlist, blocklist);
      OwnStep(reqs, states[n - 1], states[n], answers[n - 1], keys, key, cfg, n - 1, allowlist, blocklist);
    }
  }

  /** What a key is granted among the requests of others is what its own requests are granted
      alone, so every bound above holds for it. */
  lemma {:induction false} InterleavedGrants(reqs: seq<Request>, states: seq<map<string, Context>>, answers: seq<bool>,
      keys: set<string>, key: string, cfg: Config, i: nat, j: nat, allowlist: set<string>, blocklist: set<string>)
    requires IsRun(reqs, states, answers, allowlist, blocklist) && i <= j <= |reqs|
    requires SteadyKey(reqs, keys, key, cfg, allowlist, blocklist)
    ensures var times := TimesOf(reqs, key, |reqs|);
            && |TimesOf(reqs, key, i)| <= |TimesOf(reqs, key, j)| <= |times|
            && GrantsTo(reqs, answers, key, i, j) ==
                 GrantCount(cfg, times, |TimesOf(reqs, key, i)|, |TimesOf(reqs, key, j)|)
    decreases j
  {
    TimesPrefix(reqs, key, i, j);
    TimesPrefix(reqs, key, j, |reqs|);
    if i < j {
      InterleavedGrants(reqs, states, answers, keys, key, cfg, i, j - 1, allowlist, blocklist);
      assert AnswersAt(reqs, states, answers, allowlist, blocklist, j - 1);
      OwnRun(reqs, states, answers, keys, key, cfg, j - 1, allowlist, blocklist);
      OwnStep(reqs, states[j - 1], states[j], answers[j - 1], keys, key, cfg, j - 1, allowlist, blocklist);
      GrantsNext(cfg, TimesOf(reqs, key, |reqs|), |TimesOf(reqs, key, i)|, TimesOf(reqs, key, j - 1),
        reqs[j - 1], key, answers[j - 1], TimesOf(reqs, key, j));
    }
  }

  lemma GrantsNext(cfg: Config, times: seq<nat>, first: nat, before: seq<nat>, r: Request, key: string, acquired: bool,
      upTo: seq<nat>)
    requires first <= |before| && upTo == before + (if r.key == key then [r.now] else []) && upTo <= times
    requires r.key == key ==> acquired == Grants(cfg, After(cfg, before, |before|), r.now)
    ensures GrantCount(cfg, times, first, |upTo|) ==
              GrantCount(cfg, times, first, |before|) + if r.key == key && acquired then 1 else 0
  {
    if r.key == key {
      GrantedInOrder(cfg, before, r.now, times);
    }
  }

  lemma GrantedInOrder(cfg: Config, before: seq<nat>, now: nat, times: seq<nat>)
    requires before + [now] <= times
    ensures GrantedAt(cfg, times, |before|) == Grants(cfg, After(cfg, before, |before|), now)
  {
    assert before <= times && times[|before|] == (before + [now])[|before|];
    AfterPrefix(cfg, before, times, |before|);
  }

  ghost predicate ClockRequests(reqs: seq<Request>) {
    && (forall i :: 0 <= i < |reqs| ==> 0 < reqs[i].now < UINT64)
    && (forall i, j :: 0 <= i < j < |reqs| ==> reqs[i].now <= reqs[j].now)
  }

  /** A key's own times are in clock order, and each is the time of one of the requests. */
  lemma {:induction false} TimesInOrder(reqs: seq<Request>, key: string, i: nat, j: nat)
    requires ClockRequests(reqs) && i <= j <= |reqs|
    ensures var times := TimesOf(reqs, key, j);
            && ClockTimes(times) && |TimesOf(reqs, key, i)| <= |times|
            && forall k :: |TimesOf(reqs, key, i)| <= k < |times| ==> exists m :: i <= m < j && reqs[m].now == times[k]
    decreases j
  {
    if i < j {
      TimesInOrder(reqs, key, i, j - 1);
    } else if j > 0 {
      TimesInOrder(reqs, key, j - 1, j - 1);
    }
    if j > 0 {
      TimesBelow(reqs, key, j - 1);
    }
  }

  lemma {:induction false} TimesBelow(reqs: seq<Request>, key: string, j: nat)
    requires ClockRequests(reqs) && j < |reqs|
    ensures forall k :: 0 <= k < |TimesOf(reqs, key, j)| ==> TimesOf(reqs, key, j)[k] <= reqs[j].now
  {
    if j > 0 {
      TimesBelow(reqs, key, j - 1);
    }
  }

  /** Where a key's requests among i .. j-1 stand in its own times, all between s and t. */
  lemma TimesBetween(reqs: seq<Request>, key: string, i: nat, j: nat, s: int, t: int)
    requires ClockRequests(reqs) && i <= j <= |reqs| && forall m :: i <= m < j ==> s <= reqs[m].now <= t
    ensures var times := TimesOf(reqs, key, |reqs|);
            && ClockTimes(times) && |TimesOf(reqs, key, i)| <= |TimesOf(reqs, key, j)| <= |times|
            && forall k :: |TimesOf(reqs, key, i)| <= k < |TimesOf(reqs, key, j)| ==> s <= times[k] <= t
  {
    TimesInOrder(reqs, key, i, j);
    TimesInOrder(reqs, key, |reqs|, |reqs|);
    TimesPrefix(reqs, key, j, |reqs|);
    var mine := TimesOf(reqs, key, j);
    forall k | |TimesOf(reqs, key, i)| <= k < |mine| ensures s <= TimesOf(reqs, key, |reqs|)[k] <= t {
      var m :| i <= m < j && reqs[m].now == mine[k];
      assert mine[k] == TimesOf(reqs, key, |reqs|)[k];
    }
  }

  /** However the requests for other keys are mixed in, a key keeps its strategy's bound. */
  lemma InterleavedBounds(reqs: seq<Request>, states: seq<map<string, Context>>, answers: seq<bool>,
      keys: set<string>, key: string, cfg: Config, i: nat, j: nat, allowlist: set<string>, blocklist: set<string>)
    requires IsRun(reqs, states, answers, allowlist, blocklist) && ClockRequests(reqs) && i < j <= |reqs|
    requires SteadyKey(reqs, keys, key, cfg, allowlist, blocklist)
    ensures var grants, span := GrantsTo(reqs, answers, key, i, j), reqs[j - 1].now - reqs[i].now;
            && (cfg.strategy == SlidingWindow && span < cfg.windowMs ==> grants <= cfg.capacity)
            && (cfg.strategy == FixedWindow && span <= cfg.windowMs ==> grants <= 2 * cfg.capacity)
            && (cfg.strategy == TokenBucket ==> grants as real <= cfg.capacity as real + Refill(cfg, span))
  {
    var s, t := reqs[i].now, reqs[j - 1].now;
    TimesBetween(reqs, key, i, j, s, t);
    InterleavedGrants(reqs, states, answers, keys, key, cfg, i, j, allowlist, blocklist);
    OwnBounds(cfg, TimesOf(reqs, key, |reqs|), |TimesOf(reqs, key, i)|, |TimesOf(reqs, key, j)|, s, t);
  }

  lemma OwnBounds(cfg: Config, times: seq<nat>, i: nat, j: nat, s: nat, t: nat)
    requires cfg.windowMs > 0 && ClockTimes(times) && i <= j <= |times| && s <= t
    requires forall k :: i <= k < j ==> s <= times[k] <= t
    ensures cfg.strategy == SlidingWindow && t - s < cfg.windowMs ==> GrantCount(cfg, times, i, j) <= cfg.capacity
    ensures cfg.strategy == FixedWindow && t - s <= cfg.windowMs ==> GrantCount(cfg, times, i, j) <= 2 * cfg.capacity
    ensures cfg.strategy == TokenBucket ==>
              GrantCount(cfg, times, i, j) as real <= cfg.capacity as real + Refill(cfg, t - s)
  {
    match cfg.strategy {
      case SlidingWindow =>
        if t - s < cfg.windowMs {
          SlidingGrantBound(cfg, times, i, j, t);
        }
      case TokenBucket =>
        TokenBucketBound(cfg, times, i, j, s, t);
      case FixedWindow =>
        if t - s <= cfg.windowMs {
          FixedWindowBound(cfg, times, i, j);
        }
    }
  }
}
