/** Exponential reconnect backoff (network/reconnect.py).

    Python floats are exact reals here. `math.ceil(log(q) / log(m))` is the least
    natural exponent whose power of m reaches q. */
module Reconnect {
  import opened Reals

  datatype ReconnectSettings = ReconnectSettings(
    enabled: bool,
    initialDelay: real,
    maxDelay: real,
    maxAttempts: int,
    multiplier: real)

  function Min(a: real, b: real): real {
    if a <= b then a else b
  }

  // ---------- the clamped exponent ----------

  lemma ScaleUp(m: real, p: real)
    requires m >= 1.0 && p >= 0.0
    ensures m * p >= p
  {
    assert (m - 1.0) * p >= 0.0;
  }

  lemma {:induction false} PowerMonotone(m: real, a: nat, b: nat)
    requires m >= 1.0 && a <= b
    ensures Power(m, a) <= Power(m, b)
    decreases b - a
  {
    if a < b {
      ScaleUp(m, Power(m, b - 1));
      PowerMonotone(m, a, b - 1);
    }
  }

  /** Bernoulli's inequality. */
  lemma {:induction false} PowerGrows(m: real, n: nat)
    requires m >= 1.0
    ensures Power(m, n) >= 1.0 + n as real * (m - 1.0)
  {
    if n > 0 {
      PowerGrows(m, n - 1);
      var k, d := (n - 1) as real, m - 1.0;
      assert n as real == k + 1.0;
      BernoulliStep(Power(m, n - 1), k, d);
    }
  }

  lemma BernoulliStep(p: real, k: real, d: real)
    requires p >= 1.0 + k * d && p >= 1.0 && d >= 0.0
    ensures (d + 1.0) * p >= 1.0 + (k + 1.0) * d
  {
    assert d * p >= d * 1.0;
    assert (d + 1.0) * p == d * p + p;
    assert (k + 1.0) * d == k * d + d;
  }

  /** An exponent that certainly suffices. */
  function EnoughExponent(m: real, q: real): (n: nat)
    requires m > 1.0 && q > 1.0
    ensures Power(m, n) >= q
  {
    var ratio := (q - 1.0) / (m - 1.0);
    QuotientAbove(q - 1.0, m - 1.0, 0.0);
    var n := ratio.Floor + 1;
    EnoughSteps(q - 1.0, m - 1.0, n);
    PowerGrows(m, n);
    n
  }

  lemma EnoughSteps(a: real, b: real, n: int)
    requires a > 0.0 && b > 0.0 && n == (a / b).Floor + 1
    ensures n as real * b >= a
  {
    var r := a / b;
    assert r * b == a && n as real >= r;
    assert (n as real - r) * b >= 0.0;
  }

  /** `ceil(log(q) / log(m))` for m > 1 and q > 1. */
  function CeilLog(m: real, q: real): (n: nat)
    requires m > 1.0 && q > 1.0
    ensures Power(m, n) >= q
    ensures forall k: nat :: k < n ==> Power(m, k) < q
  {
    Search(m, q, 0, EnoughExponent(m, q))
  }

  function Search(m: real, q: real, from: nat, enough: nat): (n: nat)
    requires m > 1.0 && from <= enough && Power(m, enough) >= q
    requires forall k: nat :: k < from ==> Power(m, k) < q
    ensures Power(m, n) >= q
    ensures forall k: nat :: k < n ==> Power(m, k) < q
    decreases enough - from
  {
    if Power(m, from) >= q then from else Search(m, q, from + 1, enough)
  }

  /** The exponent `record_failure` uses after `attempts` failures. */
  function Exponent(s: ReconnectSettings, attempts: nat): nat
    requires attempts >= 1
  {
    var exponent := attempts - 1;
    if s.multiplier > 1.0 && s.initialDelay > 0.0 then
      if s.maxDelay > s.initialDelay then
        QuotientAbove(s.maxDelay, s.initialDelay, 1.0);
        var cap := CeilLog(s.multiplier, s.maxDelay / s.initialDelay);
        if exponent <= cap then exponent else cap
      else 0
    else exponent
  }

  /** The delay for one exponent. */
  function Backoff(s: ReconnectSettings, exponent: nat): real {
    Min(s.initialDelay * Power(s.multiplier, exponent), s.maxDelay)
  }

  /** The delay the code computes. */
  function Delay(s: ReconnectSettings, attempts: nat): real
    requires attempts >= 1
  {
    Backoff(s, Exponent(s, attempts))
  }

  /** The documented backoff, without any clamp. */
  function PlainDelay(s: ReconnectSettings, attempts: nat): real
    requires attempts >= 1
  {
    Backoff(s, attempts - 1)
  }

  /** An exponent that reaches the ceiling of the delay. */
  lemma AtCeiling(s: ReconnectSettings, e: nat)
    requires s.initialDelay > 0.0 && s.maxDelay / s.initialDelay <= Power(s.multiplier, e)
    ensures Backoff(s, e) == s.maxDelay
  {
    CeilingReached(s.initialDelay, s.maxDelay, Power(s.multiplier, e));
  }

  lemma CeilingReached(d: real, ceiling: real, p: real)
    requires d > 0.0 && ceiling / d <= p
    ensures Min(d * p, ceiling) == ceiling
  {
    assert (ceiling / d) * d == ceiling;
    ProductMonotone(ceiling / d, p, d);
  }

  lemma CappedBackoff(s: ReconnectSettings, attempts: nat)
    requires attempts >= 1 && s.multiplier > 1.0 && s.initialDelay > 0.0 && Exponent(s, attempts) < attempts - 1
    ensures Backoff(s, Exponent(s, attempts)) == Backoff(s, attempts - 1)
  {
    var e := Exponent(s, attempts);
    PowerMonotone(s.multiplier, e, attempts - 1);
    assert s.maxDelay / s.initialDelay <= Power(s.multiplier, e) by {
      if s.maxDelay <= s.initialDelay {
        QuotientAtMost(s.maxDelay, s.initialDelay, 1.0);
        assert Power(s.multiplier, 0) == 1.0;
      }
    }
    AtCeiling(s, e);
    AtCeiling(s, attempts - 1);
  }

  /** Clamping the exponent never changes the delay, for any settings and any number of failures. */
  lemma ClampIsInvisible(s: ReconnectSettings, attempts: nat)
    requires attempts >= 1
    ensures Delay(s, attempts) == PlainDelay(s, attempts)
  {
    if Exponent(s, attempts) < attempts - 1 {
      CappedBackoff(s, attempts);
    }
  }

  /** The delay with the exponent clamped at `cap`. */
  function Clamped(s: ReconnectSettings, cap: nat, attempts: nat): real
    requires attempts >= 1
  {
    Backoff(s, if attempts - 1 <= cap then attempts - 1 else cap)
  }

  /** One more step of a positive delay below its ceiling lengthens it. */
  lemma NextGrows(m: real, d: real, p: real, ceiling: real)
    requires m > 1.0 && d > 0.0 && p > 0.0 && d * p < ceiling
    ensures Min(d * (m * p), ceiling) > Min(d * p, ceiling)
  {
    ProductStrict(0.0, d, p);
    ProductStrict(1.0, m, d * p);
    assert d * (m * p) == m * (d * p);
  }

  lemma StaysAtCeiling(s: ReconnectSettings, cap: nat, e: nat)
    requires s.multiplier > 1.0 && s.initialDelay > 0.0 && cap <= e && Backoff(s, cap) == s.maxDelay
    ensures Backoff(s, e) == s.maxDelay
  {
    PowerMonotone(s.multiplier, cap, e);
    ProductMonotone(Power(s.multiplier, cap), Power(s.multiplier, e), s.initialDelay);
  }

  /** Whatever exponent `cap` the quotient of logarithms is rounded to: the clamp is invisible for
      all attempts if and only if the delay at `cap` has reached its maximum. */
  lemma ClampInvisibleExactly(s: ReconnectSettings, cap: nat)
    requires s.multiplier > 1.0 && s.initialDelay > 0.0
    ensures (forall attempts: nat :: attempts >= 1 ==> Clamped(s, cap, attempts) == PlainDelay(s, attempts))
       <==> Backoff(s, cap) == s.maxDelay
  {
    if Backoff(s, cap) == s.maxDelay {
      forall attempts: nat | attempts >= 1 ensures Clamped(s, cap, attempts) == PlainDelay(s, attempts) {
        if attempts - 1 > cap {
          StaysAtCeiling(s, cap, attempts - 1);
        }
      }
    } else {
      NextGrows(s.multiplier, s.initialDelay, Power(s.multiplier, cap), s.maxDelay);
      assert Clamped(s, cap, cap + 2) != PlainDelay(s, cap + 2);
    }
  }

  lemma BackoffGrows(d: real, ceiling: real, p: real, q: real)
    requires d >= 0.0 && p <= q
    ensures Min(d * p, ceiling) <= Min(d * q, ceiling)
  {
    ProductMonotone(p, q, d);
  }

  lemma PlainDelayGrows(s: ReconnectSettings, a: nat, b: nat)
    requires 1 <= a <= b && s.multiplier >= 1.0 && s.initialDelay >= 0.0
    ensures PlainDelay(s, a) <= PlainDelay(s, b)
  {
    PowerMonotone(s.multiplier, a - 1, b - 1);
    BackoffGrows(s.initialDelay, s.maxDelay, Power(s.multiplier, a - 1), Power(s.multiplier, b - 1));
  }

  /** The delay never shrinks with further failures. */
  lemma DelayMonotone(s: ReconnectSettings, a: nat, b: nat)
    requires 1 <= a <= b && s.multiplier >= 1.0 && s.initialDelay >= 0.0
    ensures Delay(s, a) <= Delay(s, b) <= s.maxDelay
  {
    PlainDelayGrows(s, a, b);
    ClampIsInvisible(s, a);
    ClampIsInvisible(s, b);
  }

  lemma {:induction false} PowerPositive(m: real, n: nat)
    requires m > 0.0
    ensures Power(m, n) > 0.0
  {
    if n > 0 {
      PowerPositive(m, n - 1);
      ProductStrict(0.0, m, Power(m, n - 1));
    }
  }

  lemma {:induction false} PowerOfReciprocal(m: real, n: nat)
    requires m > 0.0
    ensures Power(m, n) * Power(1.0 / m, n) == 1.0
  {
    if n > 0 {
      PowerOfReciprocal(m, n - 1);
      var p, q := Power(m, n - 1), Power(1.0 / m, n - 1);
      assert m * (1.0 / m) == 1.0;
      assert (m * p) * ((1.0 / m) * q) == (m * (1.0 / m)) * (p * q);
    }
  }

  /** The inverse w of a large number p makes the product small. */
  lemma InverseShrinks(initial: real, ceiling: real, w: real, p: real)
    requires initial > 0.0 && ceiling > 0.0 && w > 0.0 && w * p == 1.0 && p > initial / ceiling
    ensures 0.0 < initial * w < ceiling
  {
    ProductStrict(0.0, initial, w);
    assert (initial * w) * p == initial * (w * p);
    QuotientAbove(initial, ceiling, 0.0);
    ProductStrict(initial / ceiling, p, ceiling);
    assert (initial / ceiling) * ceiling == initial;
    CancelStrict(initial * w, ceiling, p);
  }

  /** With a multiplier in (0, 1) the delay falls below its ceiling after some failures. */
  lemma PowerVanishes(m: real, initial: real, ceiling: real) returns (n: nat)
    requires 0.0 < m < 1.0 && initial > 0.0 && ceiling > 0.0
    ensures 0.0 < initial * Power(m, n) < ceiling
  {
    QuotientAbove(1.0, m, 1.0);
    QuotientAbove(initial, ceiling, 0.0);
    n := EnoughExponent(1.0 / m, initial / ceiling + 1.0);
    PowerPositive(m, n);
    PowerOfReciprocal(m, n);
    InverseShrinks(initial, ceiling, Power(m, n), Power(1.0 / m, n));
  }

  /** A positive delay below its ceiling shrinks with a multiplier below one. */
  lemma NextShrinks(m: real, d: real, p: real, ceiling: real)
    requires m < 1.0 && 0.0 < d * p < ceiling
    ensures Min(d * (m * p), ceiling) < Min(d * p, ceiling)
  {
    ProductStrict(m, 1.0, d * p);
    assert d * (m * p) == m * (d * p);
  }

  /** So does the first delay with a multiplier that is not positive. */
  lemma SecondShrinks(m: real, d: real, ceiling: real)
    requires m <= 0.0 && d > 0.0 && ceiling > 0.0
    ensures Min(d * m, ceiling) < Min(d, ceiling)
  {
    ProductMonotone(m, 0.0, d);
  }

  lemma ShrinksLate(s: ReconnectSettings) returns (a: nat)
    requires 0.0 < s.multiplier < 1.0 && s.initialDelay > 0.0 && s.maxDelay > 0.0
    ensures a >= 1 && PlainDelay(s, a + 1) < PlainDelay(s, a)
  {
    var n := PowerVanishes(s.multiplier, s.initialDelay, s.maxDelay);
    NextShrinks(s.multiplier, s.initialDelay, Power(s.multiplier, n), s.maxDelay);
    a := n + 1;
  }

  lemma ShrinksAtOnce(s: ReconnectSettings)
    requires s.multiplier <= 0.0 && s.initialDelay > 0.0 && s.maxDelay > 0.0
    ensures PlainDelay(s, 2) < PlainDelay(s, 1)
  {
    SecondShrinks(s.multiplier, s.initialDelay, s.maxDelay);
    FirstPowers(s.multiplier, s.initialDelay);
  }

  lemma FirstPowers(m: real, d: real)
    ensures d * Power(m, 0) == d && d * Power(m, 1) == d * m
  {
    assert Power(m, 1) == m * Power(m, 0);
  }

  /** For delays that make sense, further failures never shorten the delay if and only if
      the multiplier is at least one or the initial delay is zero. */
  lemma DelayMonotoneExactly(s: ReconnectSettings)
    requires s.initialDelay >= 0.0 && s.maxDelay > 0.0
    ensures (forall a: nat, b: nat :: 1 <= a <= b ==> Delay(s, a) <= Delay(s, b))
       <==> s.initialDelay == 0.0 || s.multiplier >= 1.0
  {
    if s.initialDelay > 0.0 && s.multiplier < 1.0 {
      var a := 1;
      if s.multiplier > 0.0 { a := ShrinksLate(s); } else { ShrinksAtOnce(s); }
      ClampIsInvisible(s, a);
      ClampIsInvisible(s, a + 1);
      assert !(Delay(s, a) <= Delay(s, a + 1));
    } else {
      forall a: nat, b: nat | 1 <= a <= b ensures Delay(s, a) <= Delay(s, b) {
        if s.multiplier >= 1.0 {
          DelayMonotone(s, a, b);
        }
      }
    }
  }

  // ---------- the manager against its history ----------

  datatype Event = Failed(url: string, now: real) | Cleared(url: string)

  /** Failures of `url` since it last succeeded or was cleared. */
  function Failures(history: seq<Event>, url: string): nat {
    if history == [] then 0
    else
      var last := history[|history| - 1];
      if last.url != url then Failures(history[..|history| - 1], url)
      else if last.Cleared? then 0
      else Failures(history[..|history| - 1], url) + 1
  }

  /** Time of the last failure of `url`. */
  function LastFailure(history: seq<Event>, url: string): real {
    if history == [] then 0.0
    else
      var last := history[|history| - 1];
      if last.url == url && last.Failed? then last.now else LastFailure(history[..|history| - 1], url)
  }

  /** The specification of `should_retry`: at once without recorded failures, never
      once the attempts are used up, and otherwise after the plain backoff. */
  predicate MayRetry(s: ReconnectSettings, history: seq<Event>, url: string, now: real) {
    var n := Failures(history, url);
    !s.enabled || n == 0 ||
    (!(0 < s.maxAttempts <= n) && now >= LastFailure(history, url) + PlainDelay(s, n))
  }

  lemma HistoryAppend(history: seq<Event>, e: Event, url: string)
    ensures Failures(history + [e], url) ==
      if e.url != url then Failures(history, url) else if e.Cleared? then 0 else Failures(history, url) + 1
    ensures LastFailure(history + [e], url) == if e.url == url && e.Failed? then e.now else LastFailure(history, url)
  {
    assert (history + [e])[..|history|] == history;
  }

  /** `_next_retry_at`: a time, or `float("inf")`. */
  datatype RetryAt = AtTime(t: real) | Never

  /** What the two maps hold for one URL with `n` failures, the last one at `last`. */
  ghost predicate UrlFits(s: ReconnectSettings, attempts: map<string, nat>, next: map<string, RetryAt>,
                          url: string, n: nat, last: real) {
    && (url in attempts <==> n > 0) && (url in next <==> n > 0)
    && (n > 0 ==> attempts[url] == n && next[url] == NextRetry(s, n, last))
  }

  function NextRetry(s: ReconnectSettings, n: nat, last: real): RetryAt
    requires n >= 1
  {
    if 0 < s.maxAttempts <= n then Never else AtTime(last + PlainDelay(s, n))
  }

  ghost predicate Fits(s: ReconnectSettings, attempts: map<string, nat>, next: map<string, RetryAt>, history: seq<Event>) {
    forall url :: UrlFits(s, attempts, next, url, Failures(history, url), LastFailure(history, url))
  }

  lemma FailureFits(s: ReconnectSettings, attempts: map<string, nat>, next: map<string, RetryAt>, history: seq<Event>, url: string, now: real)
    requires Fits(s, attempts, next, history)
    ensures var n := (if url in attempts then attempts[url] else 0) + 1;
      Fits(s, attempts[url := n], next[url := NextRetry(s, n, now)], history + [Failed(url, now)])
  {
    var n := (if url in attempts then attempts[url] else 0) + 1;
    var history' := history + [Failed(url, now)];
    forall u ensures UrlFits(s, attempts[url := n], next[url := NextRetry(s, n, now)], u,
                             Failures(history', u), LastFailure(history', u)) {
      HistoryAppend(history, Failed(url, now), u);
      assert UrlFits(s, attempts, next, u, Failures(history, u), LastFailure(history, u));
    }
  }

  lemma SuccessFits(s: ReconnectSettings, attempts: map<string, nat>, next: map<string, RetryAt>, history: seq<Event>, url: string)
    requires Fits(s, attempts, next, history)
    ensures Fits(s, attempts - {url}, next - {url}, history + [Cleared(url)])
  {
    var history' := history + [Cleared(url)];
    forall u ensures UrlFits(s, attempts - {url}, next - {url}, u, Failures(history', u), LastFailure(history', u)) {
      HistoryAppend(history, Cleared(url), u);
      assert UrlFits(s, attempts, next, u, Failures(history, u), LastFailure(history, u));
    }
  }

  class ReconnectManager {
    const settings: ReconnectSettings
    var attempts: map<string, nat>
    var nextRetryAt: map<string, RetryAt>
    ghost var history: seq<Event>

    ghost predicate Valid()
      reads this
    {
      Fits(settings, attempts, nextRetryAt, history)
    }

    constructor (settings: ReconnectSettings)
      ensures Valid() && history == [] && this.settings == settings
    {
      this.settings := settings;
      attempts := map[];
      nextRetryAt := map[];
      history := [];
    }

    /** `record_failure`; a disabled manager records nothing. */
    method RecordFailure(url: string, now: real)
      requires Valid()
      modifies this
      ensures Valid()
      ensures history == if settings.enabled then old(history) + [Failed(url, now)] else old(history)
    {
      if !settings.enabled {
        return;
      }
      FailureFits(settings, attempts, nextRetryAt, history, url, now);
      history := history + [Failed(url, now)];
      var n := (if url in attempts then attempts[url] else 0) + 1;
      attempts := attempts[url := n];
      if settings.maxAttempts > 0 && n >= settings.maxAttempts {
        nextRetryAt := nextRetryAt[url := Never];
        return;
      }
      ClampIsInvisible(settings, n);
      nextRetryAt := nextRetryAt[url := AtTime(now + Delay(settings, n))];
    }

    /** `record_success`, and `clear`, which does the same. */
    method RecordSuccess(url: string)
      requires Valid()
      modifies this
      ensures Valid()
      ensures history == old(history) + [Cleared(url)]
    {
      SuccessFits(settings, attempts, nextRetryAt, history, url);
      history := history + [Cleared(url)];
      attempts := attempts - {url};
      nextRetryAt := nextRetryAt - {url};
    }

    /** `should_retry`. */
    method ShouldRetry(url: string, now: real) returns (retry: bool)
      requires Valid()
      ensures retry <==> MayRetry(settings, history, url, now)
    {
      assert UrlFits(settings, attempts, nextRetryAt, url, Failures(history, url), LastFailure(history, url));
      if !settings.enabled || url !in nextRetryAt {
        return true;
      }
      match nextRetryAt[url]
      case Never => retry := false;
      case AtTime(t) => retry := now >= t;
    }
  }

  // ---------- runs ----------

  /** Once the attempts are used up, no retry is allowed at any time until the URL
      succeeds or is cleared, whatever else happens. */
  lemma {:induction false} ExhaustedStaysExhausted(s: ReconnectSettings, history: seq<Event>, later: seq<Event>, url: string, now: real)
    requires s.enabled && 0 < s.maxAttempts <= Failures(history, url)
    requires Cleared(url) !in later
    ensures !MayRetry(s, history + later, url, now)
    decreases |later|
  {
    if later == [] {
      assert history + later == history;
    } else {
      assert history + later == (history + [later[0]]) + later[1..];
      HistoryAppend(history, later[0], url);
      assert later[0] in later;
      ExhaustedStaysExhausted(s, history + [later[0]], later[1..], url, now);
    }
  }

  /** A success or a clear makes the next retry free. */
  lemma ClearAllowsRetry(s: ReconnectSettings, history: seq<Event>, url: string, now: real)
    ensures MayRetry(s, history + [Cleared(url)], url, now)
  {
    HistoryAppend(history, Cleared(url), url);
  }

  // ---------- the rule in plain numbers ----------

  /** The positions of the failures of `url` after its last success or clear. */
  function OpenFailures(history: seq<Event>, url: string): set<int> {
    set i | 0 <= i < |history| && history[i].url == url && history[i].Failed? && Cleared(url) !in history[i..]
  }

  /** One more event at the end of the history. */
  lemma OpenFailuresNext(front: seq<Event>, e: Event, url: string)
    ensures OpenFailures(front + [e], url) ==
      if e.url != url then OpenFailures(front, url) else if e.Cleared? then {} else OpenFailures(front, url) + {|front|}
  {
    var history := front + [e];
    forall i | 0 <= i < |front| ensures history[i..] == front[i..] + [e] && history[i] == front[i] {
    }
    assert history[|front|..] == [e];
    if e == Cleared(url) {
      forall i | 0 <= i < |history| ensures Cleared(url) in history[i..] {
        assert history[i..][|front| - i] == e;
      }
    }
  }

  lemma {:induction false} FailuresAreNumber(history: seq<Event>, url: string)
    ensures Failures(history, url) == |OpenFailures(history, url)|
  {
    if history != [] {
      var n := |history| - 1;
      FailuresAreNumber(history[..n], url);
      OpenFailuresNext(history[..n], history[n], url);
      assert history[..n] + [history[n]] == history;
      assert n !in OpenFailures(history[..n], url);
    }
  }

  /** The last failure of `url` is the one no other follows. */
  lemma {:induction false} LastFailureExactly(history: seq<Event>, url: string, k: nat)
    requires k < |history| && history[k].url == url && history[k].Failed?
    requires forall i :: k < i < |history| ==> !(history[i].url == url && history[i].Failed?)
    ensures LastFailure(history, url) == history[k].now
  {
    if k < |history| - 1 {
      LastFailureExactly(history[..|history| - 1], url, k);
    }
  }

  /** `should_retry` by the history: at once if the manager is disabled or nothing has failed since the last success
      or clear; never once `max_attempts`, if positive, are used up; otherwise when the last failure is at least
      min(initial * multiplier^(n-1), max) seconds ago, n being the number of failures. */
  lemma MayRetryExactly(s: ReconnectSettings, history: seq<Event>, url: string, now: real, k: nat)
    requires k < |history| && history[k].url == url && history[k].Failed? && k in OpenFailures(history, url)
    requires forall i :: k < i < |history| ==> !(history[i].url == url && history[i].Failed?)
    ensures var n := |OpenFailures(history, url)|;
      && n >= 1
      && (MayRetry(s, history, url, now) <==>
            || !s.enabled
            || ((s.maxAttempts <= 0 || n < s.maxAttempts)
                && now >= history[k].now + (if s.initialDelay * Power(s.multiplier, n - 1) <= s.maxDelay
                                            then s.initialDelay * Power(s.multiplier, n - 1) else s.maxDelay)))
  {
    FailuresAreNumber(history, url);
    LastFailureExactly(history, url, k);
    assert OpenFailures(history, url) != {};
  }

  lemma NothingOpenRetries(s: ReconnectSettings, history: seq<Event>, url: string, now: real)
    requires OpenFailures(history, url) == {}
    ensures MayRetry(s, history, url, now)
  {
    FailuresAreNumber(history, url);
  }
}
