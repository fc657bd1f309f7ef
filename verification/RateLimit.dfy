/** The sliding-window rate limiter (network/rate_limit.py) refines its specification:
    an event is allowed exactly when its key has had fewer than `max_events` allowed
    events in the closed window that ends now. */
module RateLimit {
  datatype Event = Event(key: string, time: real)

  /** The allowed events of `key` in `history`, as times, oldest first. */
  function TimesOf(history: seq<Event>, key: string): seq<real> {
    if history == [] then []
    else
      var last := history[|history| - 1];
      TimesOf(history[..|history| - 1], key) + (if last.key == key then [last.time] else [])
  }

  /** How many of `times` lie in [lo, hi]. */
  function CountIn(times: seq<real>, lo: real, hi: real): nat {
    if times == [] then 0
    else CountIn(times[..|times| - 1], lo, hi) + (if lo <= times[|times| - 1] <= hi then 1 else 0)
  }

  ghost predicate Ascending(times: seq<real>) {
    forall i, j :: 0 <= i < j < |times| ==> times[i] <= times[j]
  }

  ghost predicate AllAtMost(times: seq<real>, hi: real) {
    forall i :: 0 <= i < |times| ==> times[i] <= hi
  }

  ghost predicate AllBefore(times: seq<real>, lo: real) {
    forall i :: 0 <= i < |times| ==> times[i] < lo
  }

  /** The specification of `allow`. */
  predicate Permits(history: seq<Event>, key: string, now: real, maxEvents: int, window: real) {
    CountIn(TimesOf(history, key), now - window, now) < maxEvents
  }

  lemma {:induction false} CountConcat(a: seq<real>, b: seq<real>, lo: real, hi: real)
    ensures CountIn(a + b, lo, hi) == CountIn(a, lo, hi) + CountIn(b, lo, hi)
  {
    if b == [] {
      assert a + b == a;
    } else {
      assert (a + b)[..|a + b| - 1] == a + b[..|b| - 1];
      CountConcat(a, b[..|b| - 1], lo, hi);
    }
  }

  lemma {:induction false} CountNone(times: seq<real>, lo: real, hi: real)
    requires AllBefore(times, lo)
    ensures CountIn(times, lo, hi) == 0
  {
    if times != [] {
      CountNone(times[..|times| - 1], lo, hi);
    }
  }

  lemma {:induction false} CountAll(times: seq<real>, lo: real, hi: real)
    requires AllAtMost(times, hi) && forall i :: 0 <= i < |times| ==> lo <= times[i]
    ensures CountIn(times, lo, hi) == |times|
  {
    if times != [] {
      CountAll(times[..|times| - 1], lo, hi);
    }
  }

  lemma TimesOfAppend(history: seq<Event>, e: Event, key: string)
    ensures TimesOf(history + [e], key) == if e.key == key then TimesOf(history, key) + [e.time] else TimesOf(history, key)
  {
    assert (history + [e])[..|history|] == history;
  }

  /** The events of every other key. */
  function Without(history: seq<Event>, key: string): seq<Event> {
    if history == [] then []
    else
      var last := history[|history| - 1];
      Without(history[..|history| - 1], key) + (if last.key == key then [] else [last])
  }

  lemma {:induction false} TimesWithout(history: seq<Event>, key: string, other: string)
    ensures TimesOf(Without(history, key), other) == if other == key then [] else TimesOf(history, other)
  {
    if history != [] {
      var front, last := history[..|history| - 1], history[|history| - 1];
      TimesWithout(front, key, other);
      if last.key != key {
        TimesOfAppend(Without(front, key), last, other);
      } else {
        assert Without(history, key) == Without(front, key);
        assert other != key ==> TimesOf(history, other) == TimesOf(front, other);
      }
    }
  }

  // ---------- what the limiter's fields mean ----------

  function Deque(events: map<string, seq<real>>, key: string): seq<real> {
    if key in events then events[key] else []
  }

  /** `kept` is `times` without some oldest ones, all before `cutoff`. */
  ghost predicate KeptFrom(kept: seq<real>, times: seq<real>, cutoff: real) {
    exists n: nat :: CutsAt(kept, times, cutoff, n)
  }

  ghost predicate CutsAt(kept: seq<real>, times: seq<real>, cutoff: real, n: nat) {
    n <= |times| && kept == times[n..] && AllBefore(times[..n], cutoff)
  }

  /** One key's deque and last access against its allowed events. */
  ghost predicate KeyFits(key: string, events: map<string, seq<real>>, lastAccess: map<string, real>,
                          times: seq<real>, latest: real, window: real) {
    && KeptFrom(Deque(events, key), times, latest - window)
    && Ascending(times) && AllAtMost(times, latest)
    && (key in lastAccess ==> AllAtMost(times, lastAccess[key]))
  }

  ghost predicate Fits(events: map<string, seq<real>>, lastAccess: map<string, real>,
                       history: seq<Event>, latest: real, window: real) {
    && events.Keys == lastAccess.Keys
    && forall key :: KeyFits(key, events, lastAccess, TimesOf(history, key), latest, window)
  }

  lemma LaterFits(events: map<string, seq<real>>, lastAccess: map<string, real>,
                  history: seq<Event>, latest: real, now: real, window: real)
    requires Fits(events, lastAccess, history, latest, window) && latest <= now
    ensures Fits(events, lastAccess, history, now, window)
  {
    forall key ensures KeyFits(key, events, lastAccess, TimesOf(history, key), now, window) {
      var times := TimesOf(history, key);
      assert KeyFits(key, events, lastAccess, times, latest, window);
      var n: nat :| CutsAt(Deque(events, key), times, latest - window, n);
      assert CutsAt(Deque(events, key), times, now - window, n);
    }
  }

  /** Dropping a key whose last access has left the window drops nothing that counts. */
  lemma StaleKeyFits(events: map<string, seq<real>>, lastAccess: map<string, real>,
                     history: seq<Event>, latest: real, window: real, stale: string)
    requires Fits(events, lastAccess, history, latest, window)
    requires stale in lastAccess && lastAccess[stale] < latest - window
    ensures Fits(events - {stale}, lastAccess - {stale}, history, latest, window)
  {
    forall key ensures KeyFits(key, events - {stale}, lastAccess - {stale}, TimesOf(history, key), latest, window) {
      var times := TimesOf(history, key);
      assert KeyFits(key, events, lastAccess, times, latest, window);
      if key == stale {
        assert times[|times|..] == [] && times[..|times|] == times;
        assert CutsAt([], times, latest - window, |times|);
      }
    }
  }

  /** The deque of `key` after its old events are popped. */
  lemma PoppedCounts(kept: seq<real>, times: seq<real>, now: real, window: real)
    requires KeptFrom(kept, times, now - window) && Ascending(times) && AllAtMost(times, now)
    requires kept != [] ==> kept[0] >= now - window
    ensures CountIn(times, now - window, now) == |kept|
  {
    var n: nat :| CutsAt(kept, times, now - window, n);
    assert times == times[..n] + times[n..];
    CountConcat(times[..n], times[n..], now - window, now);
    CountNone(times[..n], now - window, now);
    CountAll(kept, now - window, now);
  }

  lemma PopKeeps(kept: seq<real>, times: seq<real>, cutoff: real)
    requires KeptFrom(kept, times, cutoff) && kept != [] && kept[0] < cutoff
    ensures KeptFrom(kept[1..], times, cutoff)
  {
    var n: nat :| CutsAt(kept, times, cutoff, n);
    assert times[n] == kept[0] && times[n + 1..] == kept[1..];
    assert forall i :: 0 <= i < n ==> times[..n + 1][i] == times[..n][i];
    assert CutsAt(kept[1..], times, cutoff, n + 1);
  }

  lemma AppendAscending(times: seq<real>, now: real)
    requires Ascending(times) && AllAtMost(times, now)
    ensures Ascending(times + [now]) && AllAtMost(times + [now], now)
  {
  }

  lemma AppendKept(kept: seq<real>, times: seq<real>, cutoff: real, now: real)
    requires KeptFrom(kept, times, cutoff)
    ensures KeptFrom(kept + [now], times + [now], cutoff)
  {
    var n: nat :| CutsAt(kept, times, cutoff, n);
    assert (times + [now])[..n] == times[..n] && (times + [now])[n..] == kept + [now];
    assert CutsAt(kept + [now], times + [now], cutoff, n);
  }

  lemma StoreFitsKey(events: map<string, seq<real>>, lastAccess: map<string, real>, times: seq<real>,
                     now: real, window: real, key: string, kept: seq<real>, allowed: bool)
    requires Ascending(times) && AllAtMost(times, now) && KeptFrom(kept, times, now - window)
    ensures KeyFits(key, events[key := if allowed then kept + [now] else kept], lastAccess[key := now],
                    if allowed then times + [now] else times, now, window)
  {
    AppendAscending(times, now);
    AppendKept(kept, times, now - window, now);
  }

  lemma StoreFitsOther(events: map<string, seq<real>>, lastAccess: map<string, real>, times: seq<real>,
                       now: real, window: real, key: string, deque: seq<real>, other: string)
    requires other != key && KeyFits(other, events, lastAccess, times, now, window)
    ensures KeyFits(other, events[key := deque], lastAccess[key := now], times, now, window)
  {
    assert Deque(events[key := deque], other) == Deque(events, other);
  }

  /** Storing the popped deque, with or without the new event. */
  lemma StoreFits(events: map<string, seq<real>>, lastAccess: map<string, real>, history: seq<Event>,
                  now: real, window: real, key: string, kept: seq<real>, allowed: bool)
    requires Fits(events, lastAccess, history, now, window)
    requires KeptFrom(kept, TimesOf(history, key), now - window)
    ensures Fits(events[key := if allowed then kept + [now] else kept], lastAccess[key := now],
                 if allowed then history + [Event(key, now)] else history, now, window)
  {
    var history' := if allowed then history + [Event(key, now)] else history;
    var deque := if allowed then kept + [now] else kept;
    forall k ensures KeyFits(k, events[key := deque], lastAccess[key := now], TimesOf(history', k), now, window) {
      var times := TimesOf(history, k);
      assert KeyFits(k, events, lastAccess, times, now, window);
      TimesOfAppend(history, Event(key, now), k);
      if k == key {
        StoreFitsKey(events, lastAccess, times, now, window, key, kept, allowed);
      } else {
        StoreFitsOther(events, lastAccess, times, now, window, key, deque, k);
      }
    }
  }

  lemma ResetFits(events: map<string, seq<real>>, lastAccess: map<string, real>,
                  history: seq<Event>, latest: real, window: real, key: string)
    requires Fits(events, lastAccess, history, latest, window)
    ensures Fits(events - {key}, lastAccess - {key}, Without(history, key), latest, window)
  {
    forall k ensures KeyFits(k, events - {key}, lastAccess - {key}, TimesOf(Without(history, key), k), latest, window) {
      TimesWithout(history, key, k);
      assert KeyFits(k, events, lastAccess, TimesOf(history, k), latest, window);
      if k == key {
        var none: seq<real> := [];
        assert CutsAt(none, none, latest - window, 0);
      }
    }
  }

  class SlidingWindowRateLimiter {
    const maxEvents: int
    const window: real
    var events: map<string, seq<real>>
    var lastAccess: map<string, real>
    var lastPrune: real

    /** Every event allowed since its key was last reset, and the latest time seen. */
    ghost var history: seq<Event>
    ghost var latest: real

    ghost predicate Valid()
      reads this
    {
      Fits(events, lastAccess, history, latest, window)
    }

    constructor (maxEvents: int, window: real, ghost start: real)
      ensures Valid() && history == [] && latest == start
      ensures this.maxEvents == maxEvents && this.window == window
    {
      this.maxEvents := maxEvents;
      this.window := window;
      events := map[];
      lastAccess := map[];
      lastPrune := 0.0;
      history := [];
      latest := start;
      new;
      forall key ensures KeyFits(key, events, lastAccess, TimesOf(history, key), latest, window) {
        var none: seq<real> := [];
        assert CutsAt(none, none, latest - window, 0);
      }
    }

    /** `_prune_stale_keys`: invisible, since it only drops events that have left the window. */
    method PruneStaleKeys(current: real)
      requires Valid() && latest == current
      modifies this
      ensures Valid() && history == old(history) && latest == old(latest)
    {
      if current - lastPrune < window {
        return;
      }
      lastPrune := current;
      var cutoff := current - window;
      var stale := set key | key in lastAccess && lastAccess[key] < cutoff;
      while stale != {}
        invariant Valid() && history == old(history) && latest == old(latest)
        invariant forall key :: key in stale ==> key in lastAccess && lastAccess[key] < cutoff
        decreases stale
      {
        var key :| key in stale;
        StaleKeyFits(events, lastAccess, history, latest, window, key);
        events := events - {key};
        lastAccess := lastAccess - {key};
        stale := stale - {key};
      }
    }

    /** The loop that pops the old events. */
    static method PopOld(all: seq<real>, cutoff: real, ghost times: seq<real>) returns (deque: seq<real>)
      requires KeptFrom(all, times, cutoff)
      ensures KeptFrom(deque, times, cutoff) && (deque != [] ==> deque[0] >= cutoff)
    {
      deque := all;
      while deque != [] && deque[0] < cutoff
        invariant KeptFrom(deque, times, cutoff)
        decreases |deque|
      {
        PopKeeps(deque, times, cutoff);
        deque := deque[1..];
      }
    }

    /** `allow`. */
    method Allow(key: string, now: real) returns (allowed: bool)
      requires Valid() && latest <= now
      modifies this
      ensures Valid() && latest == now
      ensures allowed <==> Permits(old(history), key, now, maxEvents, window)
      ensures history == if allowed then old(history) + [Event(key, now)] else old(history)
    {
      LaterFits(events, lastAccess, history, latest, now, window);
      latest := now;
      PruneStaleKeys(now);
      allowed := AllowAfterPruning(key, now);
    }

    /** `allow` once stale keys are pruned. */
    method AllowAfterPruning(key: string, now: real) returns (allowed: bool)
      requires Valid() && latest == now
      modifies this
      ensures Valid() && latest == now
      ensures allowed <==> Permits(old(history), key, now, maxEvents, window)
      ensures history == if allowed then old(history) + [Event(key, now)] else old(history)
    {
      var deque := Recent(key, now);
      allowed := |deque| < maxEvents;
      StoreFits(events, lastAccess, history, now, window, key, deque, allowed);
      lastAccess := lastAccess[key := now];
      if allowed {
        events := events[key := deque + [now]];
        history := history + [Event(key, now)];
      } else {
        events := events[key := deque];
      }
    }

    /** The deque of `key` with the old events popped. */
    method Recent(key: string, now: real) returns (deque: seq<real>)
      requires Valid() && latest == now
      ensures |deque| == CountIn(TimesOf(history, key), now - window, now)
      ensures KeptFrom(deque, TimesOf(history, key), now - window)
    {
      ghost var times := TimesOf(history, key);
      assert KeyFits(key, events, lastAccess, times, now, window);
      deque := PopOld(if key in events then events[key] else [], now - window, times);
      PoppedCounts(deque, times, now, window);
    }

    /** `reset`: the key starts over, every other key is untouched. */
    method Reset(key: string)
      requires Valid()
      modifies this
      ensures Valid() && latest == old(latest)
      ensures history == Without(old(history), key)
    {
      ResetFits(events, lastAccess, history, latest, window, key);
      events := events - {key};
      lastAccess := lastAccess - {key};
      history := Without(history, key);
    }
  }

  // ---------- the promise over whole runs ----------

  datatype Call = Ask(key: string, now: real) | Reset(key: string)

  /** The history after a sequence of calls, as the contracts above fix it. */
  function Answer(history: seq<Event>, call: Call, maxEvents: int, window: real): seq<Event> {
    match call
    case Ask(key, now) => if Permits(history, key, now, maxEvents, window) then history + [Event(key, now)] else history
    case Reset(key) => Without(history, key)
  }

  function AnswerAll(history: seq<Event>, calls: seq<Call>, maxEvents: int, window: real): seq<Event>
    decreases |calls|
  {
    if calls == [] then history else AnswerAll(Answer(history, calls[0], maxEvents, window), calls[1..], maxEvents, window)
  }

  /** The calls come in order of time, none before `latest`. */
  predicate InOrder(latest: real, calls: seq<Call>)
    decreases |calls|
  {
    calls != [] ==>
      match calls[0]
      case Ask(_, now) => latest <= now && InOrder(now, calls[1..])
      case Reset(_) => InOrder(latest, calls[1..])
  }

  /** How many of `times` lie in the closed window that ends at `t`. */
  function WindowCount(times: seq<real>, window: real, t: real): nat {
    CountIn(times, t - window, t)
  }

  /** Every closed window of the given length holds at most `most` of `times`. */
  ghost predicate Bounded(times: seq<real>, window: real, most: nat) {
    forall t: real :: WindowCount(times, window, t) <= most
  }

  lemma {:induction false} CountMonotone(times: seq<real>, lo: real, hi: real, lo': real, hi': real)
    requires AllAtMost(times, hi') && lo' <= lo
    ensures CountIn(times, lo, hi) <= CountIn(times, lo', hi')
  {
    if times != [] {
      CountMonotone(times[..|times| - 1], lo, hi, lo', hi');
    }
  }

  /** An allowed event keeps every window within the bound. */
  lemma AppendBounded(times: seq<real>, now: real, window: real, most: nat)
    requires Bounded(times, window, most) && AllAtMost(times, now)
    requires CountIn(times, now - window, now) < most
    ensures Bounded(times + [now], window, most)
  {
    forall t: real ensures WindowCount(times + [now], window, t) <= most {
      CountConcat(times, [now], t - window, t);
      assert [now][..0] == [];
      if t - window <= now <= t {
        CountMonotone(times, t - window, t, now - window, now);
      } else {
        assert WindowCount(times, window, t) <= most;
      }
    }
  }

  lemma EmptyBounded(window: real, most: nat)
    ensures Bounded([], window, most)
  {
    forall t: real ensures WindowCount([], window, t) <= most {
    }
  }

  ghost predicate Sound(history: seq<Event>, latest: real, window: real, most: nat) {
    forall key :: Bounded(TimesOf(history, key), window, most) && AllAtMost(TimesOf(history, key), latest)
  }

  lemma ResetSound(history: seq<Event>, latest: real, key: string, window: real, most: nat)
    requires Sound(history, latest, window, most)
    ensures Sound(Without(history, key), latest, window, most)
  {
    EmptyBounded(window, most);
    forall k ensures Bounded(TimesOf(Without(history, key), k), window, most) && AllAtMost(TimesOf(Without(history, key), k), latest) {
      TimesWithout(history, key, k);
      assert Bounded(TimesOf(history, k), window, most) && AllAtMost(TimesOf(history, k), latest);
    }
  }

  lemma LaterSound(history: seq<Event>, latest: real, now: real, window: real, most: nat)
    requires Sound(history, latest, window, most) && latest <= now
    ensures Sound(history, now, window, most)
  {
    forall k ensures Bounded(TimesOf(history, k), window, most) && AllAtMost(TimesOf(history, k), now) {
      assert Bounded(TimesOf(history, k), window, most) && AllAtMost(TimesOf(history, k), latest);
    }
  }

  lemma AllowedSound(history: seq<Event>, key: string, now: real, maxEvents: int, window: real, most: nat)
    requires Sound(history, now, window, most) && most >= maxEvents && Permits(history, key, now, maxEvents, window)
    ensures Sound(history + [Event(key, now)], now, window, most)
  {
    var longer := history + [Event(key, now)];
    forall k ensures Bounded(TimesOf(longer, k), window, most) && AllAtMost(TimesOf(longer, k), now) {
      var times := TimesOf(history, k);
      assert Bounded(times, window, most) && AllAtMost(times, now);
      TimesOfAppend(history, Event(key, now), k);
      if k == key {
        AppendBounded(times, now, window, most);
      }
    }
  }

  lemma AnswerSound(history: seq<Event>, latest: real, call: Call, maxEvents: int, window: real, most: nat)
    requires Sound(history, latest, window, most) && most >= maxEvents
    requires call.Ask? ==> latest <= call.now
    ensures Sound(Answer(history, call, maxEvents, window), if call.Ask? then call.now else latest, window, most)
  {
    match call
    case Reset(key) => ResetSound(history, latest, key, window, most);
    case Ask(key, now) =>
      LaterSound(history, latest, now, window, most);
      if Permits(history, key, now, maxEvents, window) {
        AllowedSound(history, key, now, maxEvents, window, most);
      }
  }

  lemma {:induction false} RunSound(history: seq<Event>, latest: real, calls: seq<Call>, maxEvents: int, window: real, most: nat)
    requires Sound(history, latest, window, most) && most >= maxEvents && InOrder(latest, calls)
    ensures forall key :: Bounded(TimesOf(AnswerAll(history, calls, maxEvents, window), key), window, most)
    decreases |calls|
  {
    if calls != [] {
      AnswerSound(history, latest, calls[0], maxEvents, window, most);
      var latest' := if calls[0].Ask? then calls[0].now else latest;
      RunSound(Answer(history, calls[0], maxEvents, window), latest', calls[1..], maxEvents, window, most);
    }
  }

  /** Over any run of calls with non-decreasing times, every closed window of the configured length
      holds at most `max_events` allowed events of a key since the key's last reset. */
  lemma WindowNeverExceeded(start: real, calls: seq<Call>, maxEvents: nat, window: real, key: string, t: real)
    requires InOrder(start, calls)
    ensures WindowCount(TimesOf(AnswerAll([], calls, maxEvents, window), key), window, t) <= maxEvents
  {
    EmptyBounded(window, maxEvents);
    RunSound([], start, calls, maxEvents, window, maxEvents);
    assert Bounded(TimesOf(AnswerAll([], calls, maxEvents, window), key), window, maxEvents);
  }

  // ---------- runs with resets ----------

  /** Every event allowed in the course of the calls, also those a reset has forgotten. */
  function AllowedEver(history: seq<Event>, log: seq<Event>, calls: seq<Call>, maxEvents: int, window: real): seq<Event>
    decreases |calls|
  {
    if calls == [] then log
    else
      var c := calls[0];
      var allowed := c.Ask? && Permits(history, c.key, c.now, maxEvents, window);
      AllowedEver(Answer(history, c, maxEvents, window), if allowed then log + [Event(c.key, c.now)] else log,
                  calls[1..], maxEvents, window)
  }

  function Resets(calls: seq<Call>, key: string): nat {
    if calls == [] then 0 else (if calls[0] == Reset(key) then 1 else 0) + Resets(calls[1..], key)
  }

  /** The events of `key` in one window: at most `extra` more in the log than in the history. */
  ghost predicate Ahead(history: seq<Event>, log: seq<Event>, window: real, key: string, t: real, extra: nat) {
    WindowCount(TimesOf(log, key), window, t) <= WindowCount(TimesOf(history, key), window, t) + extra
  }

  lemma AllowedStaysAhead(history: seq<Event>, log: seq<Event>, e: Event, window: real, key: string, t: real, extra: nat)
    requires Ahead(history, log, window, key, t, extra)
    ensures Ahead(history + [e], log + [e], window, key, t, extra)
  {
    TimesOfAppend(history, e, key);
    TimesOfAppend(log, e, key);
    if e.key == key {
      CountConcat(TimesOf(history, key), [e.time], t - window, t);
      CountConcat(TimesOf(log, key), [e.time], t - window, t);
    }
  }

  lemma ResetStaysAhead(history: seq<Event>, log: seq<Event>, reset: string, latest: real, window: real, most: nat,
                        key: string, t: real, extra: nat)
    requires Sound(history, latest, window, most) && Ahead(history, log, window, key, t, extra)
    ensures Ahead(Without(history, reset), log, window, key, t, if reset == key then extra + most else extra)
  {
    TimesWithout(history, reset, key);
    assert Bounded(TimesOf(history, key), window, most);
    assert WindowCount(TimesOf(history, key), window, t) <= most;
  }

  /** `most` for every reset of the key. */
  function Allowance(calls: seq<Call>, key: string, most: nat): nat {
    if calls == [] then 0 else (if calls[0] == Reset(key) then most else 0) + Allowance(calls[1..], key, most)
  }

  lemma OneMore(n: nat, most: nat)
    ensures (n + 1) * most == n * most + most
  {
  }

  lemma {:induction false} AllowanceIs(calls: seq<Call>, key: string, most: nat)
    ensures Allowance(calls, key, most) == Resets(calls, key) * most
  {
    if calls != [] {
      AllowanceIs(calls[1..], key, most);
      OneMore(Resets(calls[1..], key), most);
    }
  }

  lemma {:induction false} AllowedEverBound(history: seq<Event>, log: seq<Event>, latest: real, calls: seq<Call>, maxEvents: int,
                                            window: real, most: nat, key: string, t: real, extra: nat)
    requires Sound(history, latest, window, most) && most >= maxEvents && InOrder(latest, calls)
    requires Ahead(history, log, window, key, t, extra)
    ensures WindowCount(TimesOf(AllowedEver(history, log, calls, maxEvents, window), key), window, t)
         <= extra + most + Allowance(calls, key, most)
    decreases |calls|
  {
    if calls == [] {
      assert Bounded(TimesOf(history, key), window, most);
      assert WindowCount(TimesOf(history, key), window, t) <= most;
    } else {
      var c := calls[0];
      AnswerSound(history, latest, c, maxEvents, window, most);
      var next := Answer(history, c, maxEvents, window);
      match c
      case Reset(reset) =>
        ResetStaysAhead(history, log, reset, latest, window, most, key, t, extra);
        AllowedEverBound(next, log, latest, calls[1..], maxEvents, window, most, key, t, if reset == key then extra + most else extra);
      case Ask(_, now) =>
        var log' := log;
        if Permits(history, c.key, now, maxEvents, window) {
          AllowedStaysAhead(history, log, Event(c.key, now), window, key, t, extra);
          log' := log + [Event(c.key, now)];
        }
        AllowedEverBound(next, log', now, calls[1..], maxEvents, window, most, key, t, extra);
    }
  }

  /** Counting also what resets have forgotten, a window holds at most `max_events` allowed
      events of a key for the run and for each reset of that key. */
  lemma ResetsExtendBound(start: real, calls: seq<Call>, maxEvents: nat, window: real, key: string, t: real)
    requires InOrder(start, calls)
    ensures WindowCount(TimesOf(AllowedEver([], [], calls, maxEvents, window), key), window, t)
         <= maxEvents + Resets(calls, key) * maxEvents
  {
    EmptyBounded(window, maxEvents);
    AllowedEverBound([], [], start, calls, maxEvents, window, maxEvents, key, t, 0);
    AllowanceIs(calls, key, maxEvents);
  }

  // ---------- the rule in plain numbers ----------

  /** The positions of the events of `key` between two times. */
  function EventsIn(history: seq<Event>, key: string, lo: real, hi: real): set<int> {
    set i | 0 <= i < |history| && history[i].key == key && lo <= history[i].time <= hi
  }

  lemma EventsNext(front: seq<Event>, e: Event, key: string, lo: real, hi: real)
    ensures EventsIn(front + [e], key, lo, hi) ==
      EventsIn(front, key, lo, hi) + if e.key == key && lo <= e.time <= hi then {|front|} else {}
  {
  }

  lemma CountNext(front: seq<Event>, e: Event, key: string, lo: real, hi: real)
    ensures CountIn(TimesOf(front + [e], key), lo, hi) ==
      CountIn(TimesOf(front, key), lo, hi) + if e.key == key && lo <= e.time <= hi then 1 else 0
  {
    TimesOfAppend(front, e, key);
    CountConcat(TimesOf(front, key), [e.time], lo, hi);
    assert [e.time][..0] == [];
  }

  lemma {:induction false} CountIsNumber(history: seq<Event>, key: string, lo: real, hi: real)
    ensures CountIn(TimesOf(history, key), lo, hi) == |EventsIn(history, key, lo, hi)|
  {
    if history != [] {
      var n := |history| - 1;
      CountIsNumber(history[..n], key, lo, hi);
      CountNext(history[..n], history[n], key, lo, hi);
      EventsNext(history[..n], history[n], key, lo, hi);
      assert history[..n] + [history[n]] == history;
      assert n !in EventsIn(history[..n], key, lo, hi);
    }
  }

  /** An event is permitted exactly when fewer than `max_events` of its key lie in the closed window that ends now. */
  lemma PermitsExactly(history: seq<Event>, key: string, now: real, maxEvents: int, window: real)
    ensures Permits(history, key, now, maxEvents, window) <==> |EventsIn(history, key, now - window, now)| < maxEvents
  {
    CountIsNumber(history, key, now - window, now);
  }

  /** What a call makes of the history: a permitted event is added at the end, a refused one is not; a reset
      leaves the events of the other keys in every window and none of its own. */
  lemma AnswerExactly(history: seq<Event>, call: Call, maxEvents: int, window: real, key: string, lo: real, hi: real)
    ensures call.Ask? ==>
      Answer(history, call, maxEvents, window) ==
        if |EventsIn(history, call.key, call.now - window, call.now)| < maxEvents then history + [Event(call.key, call.now)]
        else history
    ensures call.Reset? ==>
      |EventsIn(Answer(history, call, maxEvents, window), key, lo, hi)| ==
        if key == call.key then 0 else |EventsIn(history, key, lo, hi)|
  {
    match call
    case Ask(k, now) => PermitsExactly(history, k, now, maxEvents, window);
    case Reset(k) =>
      TimesWithout(history, k, key);
      CountIsNumber(Without(history, k), key, lo, hi);
      CountIsNumber(history, key, lo, hi);
  }
}
