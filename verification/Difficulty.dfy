/** Bounds on the PoW difficulty over whole chains, and the shape of one retarget. */
module Difficulty {
  import opened Types
  import opened Reals
  import opened ProofOfWork
  import opened Rules

  lemma DivideMonotone(a: real, x: real, y: real)
    requires a >= 0.0 && 0.0 < x <= y
    ensures 0.0 <= a / y <= a / x
  {
    var q, r := a / x, a / y;
    assert q * x == a && r * y == a;
    assert q >= 0.0 && r >= 0.0;
    if r > q {
      ProductMonotone(x, y, q);
      ProductStrict(q, r, y);
      assert false;
    }
  }

  lemma DivideByReciprocal(a: real, f: real)
    requires f >= 1.0
    ensures 0.0 < 1.0 / f <= 1.0
    ensures a / (1.0 / f) == a * f
  {
    DivideMonotone(1.0, 1.0, f);
    var g := 1.0 / f;
    assert g * f == 1.0;
    assert (a * f) * g == a * (g * f) == a;
  }

  /** Rounding a quotient down or up is monotone. */
  lemma RoundMonotone(x: real, y: real)
    requires 0.0 <= x <= y
    ensures Truncate(x) <= Truncate(y) && Ceiling(x) <= Ceiling(y)
    ensures 0 <= Truncate(x) == x.Floor
  {
  }

  lemma RoundInteger(n: nat)
    ensures Truncate(n as real) == n && Ceiling(n as real) == n
  {
  }

  /** The least and the largest difficulty one retarget can give. */
  function Least(p: PowSettings, first: int): int {
    Ceiling(Quotient(p, first as real, p.maxAdjustmentFactor))
  }

  function Most(p: PowSettings, first: int): int {
    Truncate(Quotient(p, first as real, Quotient(p, 1.0, p.maxAdjustmentFactor)))
  }

  /** A float quotient of a difficulty by a number of at least one lies in 0..first. */
  lemma ShrunkQuotient(p: PowSettings, first: int, x: real)
    requires 0 <= first <= MaxExact && x >= 1.0
    ensures 0.0 <= Quotient(p, first as real, x) <= first as real
    ensures 0 <= Truncate(Quotient(p, first as real, x)) <= first && Ceiling(Quotient(p, first as real, x)) <= first
  {
    var d := first as real;
    assert d / 1.0 == d;
    DivideMonotone(d, 1.0, x);
    RoundAtMost(p.round, d / x, first);
    RoundMonotone(Quotient(p, d, x), d);
    RoundInteger(first);
  }

  /** A float quotient of a difficulty by a positive number of at most one is at least first. */
  lemma GrownQuotient(p: PowSettings, first: int, x: real)
    requires 0 <= first <= MaxExact && 0.0 < x <= 1.0
    ensures first as real <= Quotient(p, first as real, x) && first <= Truncate(Quotient(p, first as real, x))
  {
    var d := first as real;
    assert d / 1.0 == d;
    DivideMonotone(d, x, 1.0);
    RoundAtLeast(p.round, d / x, first);
    RoundMonotone(d, Quotient(p, d, x));
    RoundInteger(first);
  }

  /** Dividing by less gives no less, also in floats. */
  lemma QuotientAntitone(p: PowSettings, first: int, x: real, y: real)
    requires 0 <= first <= MaxExact && 0.0 < x <= y
    ensures 0.0 <= Quotient(p, first as real, y) <= Quotient(p, first as real, x)
    ensures Truncate(Quotient(p, first as real, y)) <= Truncate(Quotient(p, first as real, x))
  {
    var d := first as real;
    DivideMonotone(d, x, y);
    RoundAtLeast(p.round, d / y, 0);
    RoundMonotone(Quotient(p, d, y), Quotient(p, d, x));
  }

  lemma ReciprocalRange(p: PowSettings)
    ensures 0.0 < Quotient(p, 1.0, p.maxAdjustmentFactor) <= 1.0
  {
    assert 1 as real == 1.0;
    ShrunkQuotient(p, 1, p.maxAdjustmentFactor);
  }

  /** A slow interval lowers the difficulty by at most the factor, rounded up. */
  lemma LoweredBounds(p: PowSettings, first: int, ratio: real)
    requires 1 <= first <= MaxExact && ratio > 1.0
    ensures 1 <= Lowered(p, first, ratio) <= first
    ensures Least(p, first) <= Lowered(p, first, ratio)
  {
    ShrunkQuotient(p, first, if ratio <= p.maxAdjustmentFactor then ratio else p.maxAdjustmentFactor);
    ShrunkQuotient(p, first, p.maxAdjustmentFactor);
  }

  /** A fast interval raises the difficulty by at most the factor, rounded down. */
  lemma RaisedBounds(p: PowSettings, first: int, ratio: real)
    requires 1 <= first <= MaxExact && ratio < 1.0
    ensures first <= Raised(p, first, ratio) <= Most(p, first)
  {
    var reciprocal := Quotient(p, 1.0, p.maxAdjustmentFactor);
    var divisor := if ratio >= reciprocal then ratio else reciprocal;
    ReciprocalRange(p);
    GrownQuotient(p, first, divisor);
    QuotientAntitone(p, first, reciprocal, divisor);
  }

  lemma UnchangedBounds(p: PowSettings, first: int)
    requires 1 <= first <= MaxExact
    ensures Least(p, first) <= first <= Most(p, first)
  {
    ShrunkQuotient(p, first, p.maxAdjustmentFactor);
    ReciprocalRange(p);
    GrownQuotient(p, first, Quotient(p, 1.0, p.maxAdjustmentFactor));
  }

  /** Every retarget stays within one factor, as floats compute it, of the interval's first difficulty. */
  lemma RetargetBounds(p: PowSettings, first: int, actual: int, expected: int)
    requires 1 <= first <= MaxExact
    ensures Least(p, first) <= Retarget(p, first, actual, expected) <= Most(p, first)
    ensures Retarget(p, first, actual, expected) >= 1
  {
    UnchangedBounds(p, first);
    if expected > 0 && actual > 0 {
      var ratio := Quotient(p, actual as real, expected as real);
      if ratio > 1.0 {
        LoweredBounds(p, first, ratio);
      } else if ratio < 1.0 {
        RaisedBounds(p, first, ratio);
      }
    }
  }

  lemma LoweredAntitone(p: PowSettings, first: int, fast: real, slow: real)
    requires 1 <= first <= MaxExact && 1.0 < fast <= slow
    ensures Lowered(p, first, slow) <= Lowered(p, first, fast)
  {
    var x := if fast <= p.maxAdjustmentFactor then fast else p.maxAdjustmentFactor;
    var y := if slow <= p.maxAdjustmentFactor then slow else p.maxAdjustmentFactor;
    QuotientAntitone(p, first, x, y);
  }

  lemma RaisedAntitone(p: PowSettings, first: int, fast: real, slow: real)
    requires 1 <= first <= MaxExact && fast <= slow
    ensures Raised(p, first, slow) <= Raised(p, first, fast)
  {
    var reciprocal := Quotient(p, 1.0, p.maxAdjustmentFactor);
    ReciprocalRange(p);
    QuotientAntitone(p, first, if fast >= reciprocal then fast else reciprocal, if slow >= reciprocal then slow else reciprocal);
  }

  lemma RatioAntitone(p: PowSettings, first: int, quick: real, tardy: real)
    requires 1 <= first <= MaxExact && quick <= tardy
    ensures ByRatio(p, first, tardy) <= ByRatio(p, first, quick)
  {
    if quick > 1.0 {
      LoweredAntitone(p, first, quick, tardy);
    } else if tardy < 1.0 {
      RaisedAntitone(p, first, quick, tardy);
    } else {
      if tardy > 1.0 { LoweredBounds(p, first, tardy); }
      if quick < 1.0 { RaisedBounds(p, first, quick); }
    }
  }

  /** Slower blocks never raise the difficulty. */
  lemma RetargetAntitone(p: PowSettings, first: int, fast: int, slow: int, expected: int)
    requires 1 <= first <= MaxExact && 0 < fast <= slow && expected > 0
    ensures Retarget(p, first, slow, expected) <= Retarget(p, first, fast, expected)
  {
    DivideMonotoneLeft(fast as real, slow as real, expected as real);
    RatioAntitone(p, first, Quotient(p, fast as real, expected as real), Quotient(p, slow as real, expected as real));
  }

  // ---------- whole chains ----------

  lemma DivideSmall(k: nat, n: nat)
    requires k < n
    ensures k / n == 0
  {
  }

  lemma DivideStep(k: nat, n: nat)
    requires 1 <= n <= k
    ensures k / n == (k - n) / n + 1
  {
    var q, m := (k - n) / n, (k - n) % n;
    assert k - n == q * n + m;
    DivideUnique(k, n, q + 1, m);
  }

  lemma DivideUnique(k: nat, n: nat, q: nat, m: nat)
    requires m < n && k == q * n + m
    ensures k / n == q
  {
    var d := k / n - q;
    assert k == (k / n) * n + k % n;
    assert d * n == m - k % n;
    MultipleBelow(d, n);
  }

  lemma MultipleBelow(d: int, n: int)
    requires n > 0 && -n < d * n < n
    ensures d == 0
  {
  }

  /** x lies within a factor base^n of `initial`. */
  predicate Within(x: real, initial: real, base: real, n: nat)
    requires base >= 1.0
  {
    initial / Power(base, n) <= x <= initial * Power(base, n)
  }

  lemma QuotientOfQuotient(a: real, b: real, c: real)
    requires b >= 1.0 && c >= 1.0
    ensures b * c > 0.0 && (a / b) / c == a / (b * c)
  {
    var q := (a / b) / c;
    assert q * c == a / b && (a / b) * b == a;
    assert q * (b * c) == (q * c) * b == a;
  }

  lemma DivideMonotoneLeft(a: real, b: real, c: real)
    requires a <= b && c >= 1.0
    ensures a / c <= b / c
  {
    var p, q := a / c, b / c;
    assert p * c == a && q * c == b;
    if q < p {
      ProductStrict(q, p, c);
      assert false;
    }
  }

  /** One retarget widens the band by one factor. */
  lemma WithinStep(x: real, initial: real, base: real, n: nat, y: real)
    requires base >= 1.0 && Within(x, initial, base, n)
    requires x / base <= y <= x * base
    ensures Within(y, initial, base, n + 1)
  {
    var p := Power(base, n);
    DivideMonotoneLeft(initial / p, x, base);
    QuotientOfQuotient(initial, p, base);
    ProductMonotone(x, initial * p, base);
    assert Power(base, n + 1) == base * p;
    assert (initial * p) * base == initial * (base * p);
  }

  /** A retarget refers to the block `adjustment_interval` back. */
  lemma DifficultyIsRetarget(settings: PowSettings, prefix: Chain, first: int) returns (actual: int, expected: int)
    requires |prefix| >= settings.adjustmentInterval
    requires prefix[|prefix| - settings.adjustmentInterval].header.difficulty == Some(first)
    ensures GetDifficulty(settings, prefix) == Retarget(settings, first, actual, expected)
  {
    var recent := prefix[|prefix| - settings.adjustmentInterval..];
    assert recent[0] == prefix[|prefix| - settings.adjustmentInterval];
    actual := ElapsedSeconds(settings, recent[0], recent[|recent| - 1]);
    expected := settings.targetBlockTimeSeconds * (settings.adjustmentInterval - 1);
  }

  lemma RealBounds(x: real, n: int, y: real)
    requires Ceiling(x) <= n <= y.Floor
    ensures x <= n as real <= y
  {
  }

  /** y lies within one factor of x. */
  predicate WithinFactor(g: real, x: int, y: int)
    requires g >= 1.0
  {
    x as real / g <= y as real <= x as real * g
  }

  /** In floats, one retarget of `first` stays within the factor g. */
  predicate SlackAt(p: PowSettings, g: real, first: int)
    requires g >= 1.0
  {
    && first as real / g <= Quotient(p, first as real, p.maxAdjustmentFactor)
    && Quotient(p, first as real, Quotient(p, 1.0, p.maxAdjustmentFactor)) <= first as real * g
  }

  /** g is the factor with room for rounding, for every difficulty a block can have. */
  ghost predicate Slack(p: PowSettings, g: real) {
    g >= 1.0 && forall first {:trigger SlackAt(p, g, first)} :: 1 <= first <= 64 ==> SlackAt(p, g, first)
  }

  lemma ExactSlackAt(p: PowSettings, first: int)
    requires first >= 1 && p.round(1.0 / p.maxAdjustmentFactor) == 1.0 / p.maxAdjustmentFactor
    requires p.round(first as real / p.maxAdjustmentFactor) == first as real / p.maxAdjustmentFactor
    requires p.round(first as real * p.maxAdjustmentFactor) == first as real * p.maxAdjustmentFactor
    ensures SlackAt(p, p.maxAdjustmentFactor, first)
  {
    DivideByReciprocal(first as real, p.maxAdjustmentFactor);
  }

  /** Without rounding there is no need for room: g is the configured factor itself. */
  lemma ExactSlack(p: PowSettings)
    requires forall x: real :: p.round(x) == x
    ensures Slack(p, p.maxAdjustmentFactor)
  {
    forall first | 1 <= first <= 64 ensures SlackAt(p, p.maxAdjustmentFactor, first) {
      ExactSlackAt(p, first);
    }
  }

  /** The float quotient is within the relative error u of the exact one. */
  predicate Near(p: PowSettings, u: real, a: real, b: real)
    requires b != 0.0
  {
    (a / b) * (1.0 - u) <= Quotient(p, a, b) <= (a / b) * (1.0 + u)
  }

  predicate NearAt(p: PowSettings, u: real, first: int) {
    && Near(p, u, first as real, p.maxAdjustmentFactor)
    && Near(p, u, first as real, Quotient(p, 1.0, p.maxAdjustmentFactor))
  }

  lemma LowerSlack(d: real, f: real, u: real, g: real, q: real)
    requires d > 0.0 && f >= 1.0 && 0.0 <= u < 1.0 && g > 0.0 && g * (1.0 - u) == f * (1.0 + u)
    requires (d / f) * (1.0 - u) <= q
    ensures d / g <= q
  {
    var a := d / f;
    assert a * f == d;
    assert (a * (1.0 - u)) * g == a * (g * (1.0 - u)) == (a * f) * (1.0 + u) == d * (1.0 + u);
    ProductMonotone(1.0, 1.0 + u, d);
    QuotientAtMost(d, g, a * (1.0 - u));
  }

  lemma UpperSlack(d: real, f: real, u: real, g: real, r: real, q: real)
    requires d > 0.0 && f >= 1.0 && 0.0 <= u < 1.0 && g > 0.0 && g * (1.0 - u) == f * (1.0 + u)
    requires r > 0.0 && (1.0 / f) * (1.0 - u) <= r && q <= (d / r) * (1.0 + u)
    ensures q <= d * g
  {
    var z := d / r;
    QuotientAbove(d, r, 0.0);
    assert z * r == d;
    UnitBelow(f, u, r);
    ProductMonotone(1.0 - u, r * f, z * (1.0 + u));
    assert (z * (1.0 + u)) * (r * f) == (z * r) * (f * (1.0 + u)) == d * (g * (1.0 - u)) == (d * g) * (1.0 - u);
    CancelFactor(z * (1.0 + u), d * g, 1.0 - u);
  }

  lemma UnitBelow(f: real, u: real, r: real)
    requires f >= 1.0 && (1.0 / f) * (1.0 - u) <= r
    ensures 1.0 - u <= r * f
  {
    ProductMonotone((1.0 / f) * (1.0 - u), r, f);
    assert ((1.0 / f) * (1.0 - u)) * f == ((1.0 / f) * f) * (1.0 - u);
    assert (1.0 / f) * f == 1.0;
  }

  lemma RelativeLower(p: PowSettings, u: real, g: real, first: int)
    requires 0.0 <= u < 1.0 && g > 0.0 && g * (1.0 - u) == p.maxAdjustmentFactor * (1.0 + u)
    requires first >= 1 && Near(p, u, first as real, p.maxAdjustmentFactor)
    ensures first as real / g <= Quotient(p, first as real, p.maxAdjustmentFactor)
  {
    LowerSlack(first as real, p.maxAdjustmentFactor, u, g, Quotient(p, first as real, p.maxAdjustmentFactor));
  }

  lemma RelativeUpper(p: PowSettings, u: real, g: real, first: int, r: real)
    requires 0.0 <= u < 1.0 && g > 0.0 && g * (1.0 - u) == p.maxAdjustmentFactor * (1.0 + u)
    requires r == Quotient(p, 1.0, p.maxAdjustmentFactor)
    requires first >= 1 && Near(p, u, 1.0, p.maxAdjustmentFactor) && Near(p, u, first as real, r)
    ensures Quotient(p, first as real, r) <= first as real * g
  {
    UpperSlack(first as real, p.maxAdjustmentFactor, u, g, r, Quotient(p, first as real, r));
  }

  lemma RelativeSlackAt(p: PowSettings, u: real, g: real, first: int)
    requires 0.0 <= u < 1.0 && g >= 1.0 && g * (1.0 - u) == p.maxAdjustmentFactor * (1.0 + u)
    requires first >= 1 && Near(p, u, 1.0, p.maxAdjustmentFactor) && NearAt(p, u, first)
    ensures SlackAt(p, g, first)
  {
    RelativeLower(p, u, g, first);
    RelativeUpper(p, u, g, first, Quotient(p, 1.0, p.maxAdjustmentFactor));
  }

  /** With a relative error of u per division, F * (1 + u) / (1 - u) is room enough. */
  lemma RelativeSlack(p: PowSettings, u: real, g: real)
    requires 0.0 <= u < 1.0 && g >= 1.0 && g * (1.0 - u) == p.maxAdjustmentFactor * (1.0 + u)
    requires Near(p, u, 1.0, p.maxAdjustmentFactor)
    requires forall first {:trigger NearAt(p, u, first)} :: 1 <= first <= 64 ==> NearAt(p, u, first)
    ensures Slack(p, g)
  {
    forall first | 1 <= first <= 64 ensures SlackAt(p, g, first) {
      assert NearAt(p, u, first);
      RelativeSlackAt(p, u, g, first);
    }
  }

  lemma RetargetRealBounds(p: PowSettings, g: real, first: int, actual: int, expected: int)
    requires 1 <= first <= MaxExact && g >= 1.0 && SlackAt(p, g, first)
    ensures WithinFactor(g, first, Retarget(p, first, actual, expected))
  {
    RetargetBounds(p, first, actual, expected);
    ReciprocalRange(p);
    GrownQuotient(p, first, Quotient(p, 1.0, p.maxAdjustmentFactor));
    RealBounds(Quotient(p, first as real, p.maxAdjustmentFactor), Retarget(p, first, actual, expected),
               Quotient(p, first as real, Quotient(p, 1.0, p.maxAdjustmentFactor)));
  }

  /** It stays within one factor of that block's difficulty. */
  lemma RetargetOfChain(settings: PowSettings, g: real, prefix: Chain, first: int)
    requires |prefix| >= settings.adjustmentInterval && 1 <= first <= MaxExact && g >= 1.0 && SlackAt(settings, g, first)
    requires prefix[|prefix| - settings.adjustmentInterval].header.difficulty == Some(first)
    ensures WithinFactor(g, first, GetDifficulty(settings, prefix))
  {
    var actual, expected := DifficultyIsRetarget(settings, prefix, first);
    RetargetRealBounds(settings, g, first, actual, expected);
  }

  lemma PositiveProduct(a: int, b: int)
    requires a >= 1 && b >= 1
    ensures a * b >= 1
  {
  }

  /** The float ratio lies on the side of one that the exact ratio lies on, or is one. */
  lemma RatioAgainstOne(p: PowSettings, actual: int, expected: int)
    requires actual > 0 && expected > 0
    ensures actual >= expected ==> Quotient(p, actual as real, expected as real) >= 1.0
    ensures actual <= expected ==> Quotient(p, actual as real, expected as real) <= 1.0
  {
    assert 1 as real == 1.0;
    var q := actual as real / expected as real;
    if actual >= expected {
      QuotientAtLeast(actual as real, expected as real, 1.0);
      RoundAtLeast(p.round, q, 1);
    }
    if actual <= expected {
      QuotientAtLeast(actual as real, expected as real, 0.0);
      QuotientAtMost(actual as real, expected as real, 1.0);
      RoundAtMost(p.round, q, 1);
    }
  }

  lemma RetargetDirection(p: PowSettings, first: int, actual: int, expected: int)
    requires 1 <= first <= MaxExact && actual > 0 && expected > 0
    ensures actual == expected ==> Retarget(p, first, actual, expected) == first
    ensures actual > expected ==> Retarget(p, first, actual, expected) <= first
    ensures actual < expected ==> Retarget(p, first, actual, expected) >= first
  {
    RatioAgainstOne(p, actual, expected);
    var ratio := Quotient(p, actual as real, expected as real);
    if ratio > 1.0 {
      LoweredBounds(p, first, ratio);
    } else if ratio < 1.0 {
      RaisedBounds(p, first, ratio);
    }
  }

  /** Seconds the last interval of a chain took, at least one. */
  function IntervalSeconds(settings: PowSettings, prefix: Chain): int
    requires |prefix| >= settings.adjustmentInterval
  {
    var first, last := prefix[|prefix| - settings.adjustmentInterval].item, prefix[|prefix| - 1].item;
    if first.At? && last.At? && last.seconds - first.seconds >= 1 then last.seconds - first.seconds else 1
  }

  /** The difficulty follows the clock: an interval that took as long as planned keeps the
      difficulty it began with, a longer one never raises it, a shorter one never lowers it. */
  lemma DifficultyFollowsClock(settings: PowSettings, prefix: Chain, first: int)
    requires |prefix| >= settings.adjustmentInterval >= 2 && settings.targetBlockTimeSeconds >= 1 && 1 <= first <= MaxExact
    requires prefix[|prefix| - settings.adjustmentInterval].header.difficulty == Some(first)
    requires prefix[|prefix| - settings.adjustmentInterval].item.At? && prefix[|prefix| - 1].item.At?
    ensures var expected := settings.targetBlockTimeSeconds * (settings.adjustmentInterval - 1);
      var taken, d := IntervalSeconds(settings, prefix), GetDifficulty(settings, prefix);
      if taken > expected then d <= first else if taken < expected then d >= first else d == first
  {
    var n := settings.adjustmentInterval;
    var expected := settings.targetBlockTimeSeconds * (n - 1);
    PositiveProduct(settings.targetBlockTimeSeconds, n - 1);
    var recent := prefix[|prefix| - n..];
    assert recent[0] == prefix[|prefix| - n] && recent[|recent| - 1] == prefix[|prefix| - 1];
    var taken := IntervalSeconds(settings, prefix);
    assert ElapsedSeconds(settings, recent[0], recent[|recent| - 1]) == taken;
    RetargetDirection(settings, first, taken, expected);
  }

  /** A block that passes declares the expected difficulty, and it lies in 1..64. */
  lemma DeclaredDifficulty(r: Rules, prefix: Chain, b: Block)
    requires r.Pow? && Accepts(r, prefix, b)
    ensures b.header.difficulty == Some(GetDifficulty(r.pow, prefix))
    ensures 1 <= GetDifficulty(r.pow, prefix) <= 64
  {
    ValidExactly(r.env, r.pow, b, prefix);
    assert b.header == Sealed(r.env, b, GetDifficulty(r.pow, prefix), b.header.nonce.value).header;
  }

  /** x lies within a factor g^(k div I) of the initial difficulty. */
  predicate InBand(settings: PowSettings, g: real, k: nat, x: int)
    requires g >= 1.0
  {
    Within(x as real, settings.initialDifficulty as real, g, k / settings.adjustmentInterval)
  }

  lemma BandStart(settings: PowSettings, g: real, k: nat, x: int)
    requires k < settings.adjustmentInterval && g >= 1.0
    ensures InBand(settings, g, k, x) <==> x == settings.initialDifficulty
  {
    DivideSmall(k, settings.adjustmentInterval);
    assert settings.initialDifficulty as real / 1.0 == settings.initialDifficulty as real;
  }

  lemma BandStep(settings: PowSettings, g: real, k: nat, first: int, x: int)
    requires k >= settings.adjustmentInterval && g >= 1.0
    requires InBand(settings, g, k - settings.adjustmentInterval, first)
    requires WithinFactor(g, first, x)
    ensures InBand(settings, g, k, x)
  {
    var n := settings.adjustmentInterval;
    DivideStep(k, n);
    WithinStep(first as real, settings.initialDifficulty as real, g, (k - n) / n, x as real);
  }

  /** The first interval: every block declares what its parent does. */
  lemma EarlyDifficulty(settings: PowSettings, prefix: Chain)
    requires 0 < |prefix| < settings.adjustmentInterval && prefix[|prefix| - 1].header.difficulty.Some?
    ensures GetDifficulty(settings, prefix) == prefix[|prefix| - 1].header.difficulty.value
  {
  }

  lemma BlockDeclares(r: Rules, chain: Chain, k: nat)
    requires r.Pow? && ValidChain(r, chain) && k < |chain|
    ensures chain[k].header.difficulty == Some(GetDifficulty(r.pow, chain[..k]))
    ensures 1 <= GetDifficulty(r.pow, chain[..k]) <= 64
  {
    assert Accepts(r, chain[..k], chain[k]);
    DeclaredDifficulty(r, chain[..k], chain[k]);
  }

  /** The band of one block follows from that of the block it is computed from. */
  lemma BandOfNext(settings: PowSettings, g: real, prefix: Chain)
    requires prefix != [] && Slack(settings, g)
    requires var back := if |prefix| < settings.adjustmentInterval then |prefix| - 1 else |prefix| - settings.adjustmentInterval;
      prefix[back].header.difficulty.Some? && 1 <= prefix[back].header.difficulty.value <= 64
      && InBand(settings, g, back, prefix[back].header.difficulty.value)
    ensures InBand(settings, g, |prefix|, GetDifficulty(settings, prefix))
  {
    var k := |prefix|;
    if k < settings.adjustmentInterval {
      EarlyDifficulty(settings, prefix);
      BandStart(settings, g, k - 1, prefix[k - 1].header.difficulty.value);
      BandStart(settings, g, k, prefix[k - 1].header.difficulty.value);
    } else {
      var first := prefix[k - settings.adjustmentInterval].header.difficulty.value;
      assert SlackAt(settings, g, first);
      RetargetOfChain(settings, g, prefix, first);
      BandStep(settings, g, k, first, GetDifficulty(settings, prefix));
    }
  }

  /** In a valid PoW chain the difficulty at position k is within a factor g^(k div I) of the
      initial difficulty, where g is the configured factor with room for rounding, and always
      within 1..64. */
  lemma {:induction false} ChainDifficultyBounds(r: Rules, g: real, chain: Chain, k: nat)
    requires r.Pow? && Slack(r.pow, g) && ValidChain(r, chain) && k < |chain|
    ensures chain[k].header.difficulty.Some?
    ensures InBand(r.pow, g, k, chain[k].header.difficulty.value)
    ensures 1 <= chain[k].header.difficulty.value <= 64
    decreases k
  {
    BlockDeclares(r, chain, k);
    if k == 0 {
      BandStart(r.pow, g, 0, r.pow.initialDifficulty);
    } else {
      var back := if k < r.pow.adjustmentInterval then k - 1 else k - r.pow.adjustmentInterval;
      ChainDifficultyBounds(r, g, chain, back);
      assert chain[..k][back] == chain[back];
      BandOfNext(r.pow, g, chain[..k]);
    }
  }

  // ---------- the value of one retarget ----------

  /** n is the quotient a / b rounded down. */
  predicate IsFloor(n: int, a: real, b: real)
    requires b > 0.0
  {
    n as real * b <= a < (n + 1) as real * b
  }

  /** n is the quotient a / b rounded up. */
  predicate IsCeiling(n: int, a: real, b: real)
    requires b > 0.0
  {
    (n - 1) as real * b < a <= n as real * b
  }

  lemma FloorOf(a: real, b: real)
    requires a >= 0.0 && b > 0.0
    ensures IsFloor(Truncate(a / b), a, b) && Truncate(a / b) >= 0
  {
    var q := a / b;
    QuotientAtLeast(a, b, 0.0);
    assert q * b == a;
    FloorScaled(q.Floor, q, b);
  }

  lemma CeilingRange(q: real)
    ensures (Ceiling(q) - 1) as real < q <= Ceiling(q) as real
  {
    var m := (-q).Floor;
    assert m as real <= -q < (m + 1) as real;
    assert Ceiling(q) == -m && (Ceiling(q) - 1) as real == -((m + 1) as real);
  }

  lemma CeilingOf(a: real, b: real)
    requires a >= 0.0 && b > 0.0
    ensures IsCeiling(Ceiling(a / b), a, b)
  {
    var q := a / b;
    assert q * b == a;
    CeilingRange(q);
    CeilingScaled(Ceiling(q), q, b);
  }

  lemma CeilingScaled(n: int, q: real, b: real)
    requires b > 0.0 && (n - 1) as real < q <= n as real
    ensures IsCeiling(n, q * b, b)
  {
    ProductMonotone(q, n as real, b);
    ProductStrict((n - 1) as real, q, b);
  }

  /** The ratio of the times, as a float, kept within the factor. */
  function ClampedRatio(p: PowSettings, ratio: real): real {
    var least := p.round(1.0 / p.maxAdjustmentFactor);
    if ratio < least then least else if ratio > p.maxAdjustmentFactor then p.maxAdjustmentFactor else ratio
  }

  lemma ClampedPositive(p: PowSettings, ratio: real)
    ensures ClampedRatio(p, ratio) > 0.0
    ensures ratio > 1.0 ==> ClampedRatio(p, ratio) == if ratio > p.maxAdjustmentFactor then p.maxAdjustmentFactor else ratio
    ensures ratio < 1.0 ==> ClampedRatio(p, ratio) == if ratio < p.round(1.0 / p.maxAdjustmentFactor) then p.round(1.0 / p.maxAdjustmentFactor) else ratio
    ensures ratio == 1.0 ==> ClampedRatio(p, ratio) == 1.0
  {
    ReciprocalRange(p);
  }

  lemma FloorByOne(x: real)
    requires x >= 0.0
    ensures IsFloor(Truncate(x), x, 1.0) && IsCeiling(Ceiling(x), x, 1.0)
  {
    assert x / 1.0 == x;
    FloorOf(x, 1.0);
    CeilingOf(x, 1.0);
  }

  lemma RoundedPositive(p: PowSettings, first: int, x: real)
    requires 1 <= first <= MaxExact && x > 0.0
    ensures 0.0 <= p.round(first as real / x)
  {
    QuotientAtLeast(first as real, x, 0.0);
    RoundAtLeast(p.round, first as real / x, 0);
  }

  lemma UnchangedQuotient(p: PowSettings, first: int)
    requires 1 <= first <= MaxExact
    ensures p.round(first as real / 1.0) == first as real && Truncate(p.round(first as real / 1.0)) == first
  {
    assert first as real / 1.0 == first as real;
    assert KeepsInt(p.round, first);
    RoundInteger(first);
  }

  /** What a ratio makes of the first difficulty. */
  lemma RatioValue(p: PowSettings, first: int, ratio: real)
    requires 1 <= first <= MaxExact
    ensures ClampedRatio(p, ratio) > 0.0
    ensures var n := Truncate(p.round(first as real / ClampedRatio(p, ratio)));
      ByRatio(p, first, ratio) ==
        if ratio > 1.0 then Max(Max(1, n), Ceiling(p.round(first as real / p.maxAdjustmentFactor))) else Max(1, n)
  {
    ClampedPositive(p, ratio);
    UnchangedQuotient(p, first);
  }

  lemma RetargetByRatio(p: PowSettings, first: int, actual: int, expected: int)
    requires actual > 0 && expected > 0
    ensures Retarget(p, first, actual, expected) == ByRatio(p, first, Quotient(p, actual as real, expected as real))
  {
  }

  /** The new difficulty for any rounding: the first difficulty over the clamped ratio, rounded down,
      at least 1 and, after a slow interval, at least the first difficulty over the factor, rounded up. */
  lemma RetargetValue(p: PowSettings, first: int, actual: int, expected: int, ratio: real) returns (n: int, c: int)
    requires 1 <= first <= MaxExact && actual > 0 && expected > 0 && ratio == Quotient(p, actual as real, expected as real)
    ensures ClampedRatio(p, ratio) > 0.0
    ensures IsFloor(n, p.round(first as real / ClampedRatio(p, ratio)), 1.0)
    ensures IsCeiling(c, p.round(first as real / p.maxAdjustmentFactor), 1.0)
    ensures Retarget(p, first, actual, expected) == if ratio > 1.0 then Max(Max(1, n), c) else Max(1, n)
  {
    RetargetByRatio(p, first, actual, expected);
    RatioValue(p, first, ratio);
    n, c := RoundedValues(p, first, ClampedRatio(p, ratio));
  }

  lemma RoundedValues(p: PowSettings, first: int, clamped: real) returns (n: int, c: int)
    requires 1 <= first <= MaxExact && clamped > 0.0
    ensures n == Truncate(p.round(first as real / clamped)) && c == Ceiling(p.round(first as real / p.maxAdjustmentFactor))
    ensures IsFloor(n, p.round(first as real / clamped), 1.0)
    ensures IsCeiling(c, p.round(first as real / p.maxAdjustmentFactor), 1.0)
  {
    RoundedPositive(p, first, clamped);
    RoundedPositive(p, first, p.maxAdjustmentFactor);
    n, c := Truncate(p.round(first as real / clamped)), Ceiling(p.round(first as real / p.maxAdjustmentFactor));
    FloorByOne(p.round(first as real / clamped));
    FloorByOne(p.round(first as real / p.maxAdjustmentFactor));
  }

  /** first / (actual / expected), rounded down, is first * expected / actual in integers. */
  lemma FloorInIntegers(n: int, first: int, actual: int, expected: int)
    requires actual > 0 && expected > 0
    requires actual as real / expected as real > 0.0 && IsFloor(n, first as real, actual as real / expected as real)
    ensures Shares(n, first, actual, expected)
  {
    var q := actual as real / expected as real;
    assert q * expected as real == actual as real;
    ProductMonotone(n as real * q, first as real, expected as real);
    ProductStrict(first as real, (n + 1) as real * q, expected as real);
    assert (n as real * q) * expected as real == n as real * (q * expected as real);
    assert ((n + 1) as real * q) * expected as real == (n + 1) as real * (q * expected as real);
    assert n as real * actual as real == (n * actual) as real;
    assert (n + 1) as real * actual as real == ((n + 1) * actual) as real;
    assert first as real * expected as real == (first * expected) as real;
  }

  lemma FloorRescaled(n: int, a: real, b: real)
    requires b > 0.0 && IsFloor(n, a / b, 1.0)
    ensures IsFloor(n, a, b)
  {
    assert (a / b) * b == a;
    FloorScaled(n, a / b, b);
  }

  lemma FloorScaled(n: int, q: real, b: real)
    requires b > 0.0 && n as real <= q < (n + 1) as real
    ensures IsFloor(n, q * b, b)
  {
    ProductMonotone(n as real, q, b);
    ProductStrict(q, (n + 1) as real, b);
  }

  lemma CeilingRescaled(n: int, a: real, b: real)
    requires b > 0.0 && IsCeiling(n, a / b, 1.0)
    ensures IsCeiling(n, a, b)
  {
    assert (a / b) * b == a;
    CeilingScaled(n, a / b, b);
  }

  /** Where the exact ratio lies. */
  lemma RatioOrder(actual: int, expected: int, f: real)
    requires actual > 0 && expected > 0 && f >= 1.0
    ensures var ratio := actual as real / expected as real;
      && ratio > 0.0 && 1.0 / f > 0.0
      && (ratio > 1.0 <==> actual > expected) && (ratio < 1.0 <==> actual < expected)
      && (ratio > f <==> actual as real > expected as real * f)
      && (ratio < 1.0 / f <==> actual as real * f < expected as real)
  {
    var ratio := actual as real / expected as real;
    var a, e := actual as real, expected as real;
    assert ratio * e == a;
    QuotientAbove(a, e, 0.0);
    QuotientAbove(1.0, f, 0.0);
    RatioAgainst(a, e, 1.0);
    RatioAgainst(a, e, f);
    RatioAgainst(a, e, 1.0 / f);
    assert (1.0 / f) * f == 1.0;
    assert ((1.0 / f) * e) * f == e;
    if a < (1.0 / f) * e { ProductStrict(a, (1.0 / f) * e, f); }
    if (1.0 / f) * e <= a { ProductMonotone((1.0 / f) * e, a, f); }
  }

  lemma RatioAgainst(a: real, e: real, c: real)
    requires e > 0.0
    ensures a / e > c <==> a > c * e
    ensures a / e < c <==> a < c * e
  {
    if a > c * e {
      QuotientAbove(a, e, c);
    } else {
      QuotientAtMost(a, e, c);
    }
    if a >= c * e {
      QuotientAtLeast(a, e, c);
    } else {
      QuotientBelow(a, e, c);
    }
  }

  /** Division without rounding. */
  ghost predicate ExactDivision(p: PowSettings) {
    forall x: real :: p.round(x) == x
  }

  /** How the time taken compares with the time planned, under the factor f. */
  datatype Pace = Fast | Steady | Slow | Tardy

  function PaceOf(f: real, taken: int, planned: int): Pace {
    if taken as real * f < planned as real then Fast
    else if taken <= planned then Steady
    else if taken as real <= planned as real * f then Slow
    else Tardy
  }

  /** The clamped ratio without rounding, by the pace. */
  function PaceRatio(f: real, taken: int, planned: int): real
    requires f >= 1.0 && planned > 0
  {
    match PaceOf(f, taken, planned)
    case Fast => 1.0 / f
    case Steady => taken as real / planned as real
    case Slow => taken as real / planned as real
    case Tardy => f
  }

  lemma PaceSides(f: real, taken: int, planned: int)
    requires f >= 1.0 && taken > 0 && planned > 0
    ensures PaceOf(f, taken, planned).Fast? || PaceOf(f, taken, planned).Steady? <==> taken <= planned
    ensures taken as real * f < planned as real ==> taken <= planned
    ensures taken as real > planned as real * f ==> taken > planned
  {
    ProductMonotone(1.0, f, taken as real);
    ProductMonotone(1.0, f, planned as real);
  }

  lemma PaceClamps(p: PowSettings, taken: int, planned: int)
    requires taken > 0 && planned > 0 && ExactDivision(p)
    ensures PaceRatio(p.maxAdjustmentFactor, taken, planned) > 0.0
    ensures ClampedRatio(p, taken as real / planned as real) == PaceRatio(p.maxAdjustmentFactor, taken, planned)
    ensures taken as real / planned as real > 1.0 <==> taken > planned
  {
    RatioOrder(taken, planned, p.maxAdjustmentFactor);
    PaceSides(p.maxAdjustmentFactor, taken, planned);
  }

  /** The value without rounding. */
  lemma ExactValue(p: PowSettings, first: int, taken: int, planned: int, clamped: real) returns (n: int, c: int)
    requires 1 <= first <= MaxExact && taken > 0 && planned > 0 && ExactDivision(p)
    requires clamped == PaceRatio(p.maxAdjustmentFactor, taken, planned)
    ensures clamped > 0.0 && IsFloor(n, first as real, clamped) && IsCeiling(c, first as real, p.maxAdjustmentFactor)
    ensures Retarget(p, first, taken, planned) == if taken > planned then Max(Max(1, n), c) else Max(1, n)
  {
    PaceClamps(p, taken, planned);
    n, c := RetargetValue(p, first, taken, planned, taken as real / planned as real);
    FloorRescaled(n, first as real, clamped);
    CeilingRescaled(c, first as real, p.maxAdjustmentFactor);
  }

  /** n is first * planned / taken, rounded down. */
  predicate Shares(n: int, first: int, taken: int, planned: int) {
    n * taken <= first * planned < (n + 1) * taken
  }

  /** d is first * f, rounded down. */
  predicate ScaledBy(d: int, first: int, f: real) {
    d as real <= first as real * f < (d + 1) as real
  }

  lemma SteadyValue(p: PowSettings, first: int, taken: int, planned: int)
    requires 1 <= first <= MaxExact && taken > 0 && planned > 0 && ExactDivision(p)
    requires PaceOf(p.maxAdjustmentFactor, taken, planned).Steady?
    ensures Shares(Retarget(p, first, taken, planned), first, taken, planned)
  {
    var n, _ := ExactValue(p, first, taken, planned, taken as real / planned as real);
    FloorInIntegers(n, first, taken, planned);
    AtLeastFirst(n, first, taken, planned);
  }

  lemma IntProductMonotone(a: int, b: int, c: int)
    requires a <= b && c >= 0
    ensures a * c <= b * c && c * a <= c * b
  {
  }

  lemma AtLeastFirst(n: int, first: int, taken: int, planned: int)
    requires 0 < taken <= planned && first >= 1 && Shares(n, first, taken, planned)
    ensures n >= first
  {
    if n < first {
      IntProductMonotone(n + 1, first, taken);
      IntProductMonotone(taken, planned, first);
      assert false;
    }
  }

  lemma FastValue(p: PowSettings, first: int, taken: int, planned: int)
    requires 1 <= first <= MaxExact && taken > 0 && planned > 0 && ExactDivision(p)
    requires PaceOf(p.maxAdjustmentFactor, taken, planned).Fast?
    ensures ScaledBy(Retarget(p, first, taken, planned), first, p.maxAdjustmentFactor)
  {
    PaceSides(p.maxAdjustmentFactor, taken, planned);
    var n, _ := ExactValue(p, first, taken, planned, 1.0 / p.maxAdjustmentFactor);
    FloorByReciprocal(n, first, p.maxAdjustmentFactor);
  }

  lemma FloorByReciprocal(n: int, first: int, f: real)
    requires first >= 1 && f >= 1.0 && 1.0 / f > 0.0 && IsFloor(n, first as real, 1.0 / f)
    ensures ScaledBy(n, first, f) && n >= 1
  {
    var r, d := 1.0 / f, first as real;
    assert r * f == 1.0;
    ProductMonotone(n as real * r, d, f);
    ProductStrict(d, (n + 1) as real * r, f);
    assert (n as real * r) * f == n as real * (r * f) && ((n + 1) as real * r) * f == (n + 1) as real * (r * f);
    ProductMonotone(1.0, f, d);
  }

  lemma SlowValue(p: PowSettings, first: int, taken: int, planned: int) returns (n: int, c: int)
    requires 1 <= first <= MaxExact && taken > 0 && planned > 0 && ExactDivision(p)
    requires PaceOf(p.maxAdjustmentFactor, taken, planned).Slow?
    ensures Shares(n, first, taken, planned) && IsCeiling(c, first as real, p.maxAdjustmentFactor)
    ensures Retarget(p, first, taken, planned) == Max(1, Max(n, c))
  {
    PaceSides(p.maxAdjustmentFactor, taken, planned);
    n, c := ExactValue(p, first, taken, planned, taken as real / planned as real);
    FloorInIntegers(n, first, taken, planned);
  }

  lemma TardyValue(p: PowSettings, first: int, taken: int, planned: int)
    requires 1 <= first <= MaxExact && taken > 0 && planned > 0 && ExactDivision(p)
    requires PaceOf(p.maxAdjustmentFactor, taken, planned).Tardy?
    ensures IsCeiling(Retarget(p, first, taken, planned), first as real, p.maxAdjustmentFactor)
  {
    PaceSides(p.maxAdjustmentFactor, taken, planned);
    var n, c := ExactValue(p, first, taken, planned, p.maxAdjustmentFactor);
    FloorBelowCeiling(n, c, first as real, p.maxAdjustmentFactor);
  }

  lemma FloorBelowCeiling(n: int, c: int, a: real, b: real)
    requires a > 0.0 && b > 0.0 && IsFloor(n, a, b) && IsCeiling(c, a, b)
    ensures n <= c && c >= 1
  {
    CancelFactor(n as real, c as real, b);
    assert 0.0 * b == 0.0;
    CancelStrict(0.0, c as real, b);
  }

  // ---------- the difficulty of the next block ----------

  /** The seconds between two blocks, at least one; the planned time of a whole interval if a time is missing. */
  function Seconds(settings: PowSettings, first: Block, last: Block): int {
    if !first.item.At? || !last.item.At? then settings.targetBlockTimeSeconds * settings.adjustmentInterval
    else if last.item.seconds - first.item.seconds < 1 then 1
    else last.item.seconds - first.item.seconds
  }

  /** Before the first interval is full the difficulty is the configured one, then that of the tip. */
  lemma EarlyExactly(settings: PowSettings, prefix: Chain)
    requires |prefix| < settings.adjustmentInterval
    ensures GetDifficulty(settings, prefix) ==
      if prefix != [] && prefix[|prefix| - 1].header.difficulty.Some? then prefix[|prefix| - 1].header.difficulty.value
      else settings.initialDifficulty
  {
  }

  /** The block `adjustment_interval` back, the last one, and the times that count. */
  lemma NextIsRetarget(settings: PowSettings, prefix: Chain, first: int)
    requires |prefix| >= settings.adjustmentInterval
    requires prefix[|prefix| - settings.adjustmentInterval].header.difficulty == Some(first)
    ensures GetDifficulty(settings, prefix) ==
      Retarget(settings, first, Seconds(settings, prefix[|prefix| - settings.adjustmentInterval], prefix[|prefix| - 1]),
               settings.targetBlockTimeSeconds * (settings.adjustmentInterval - 1))
  {
    var recent := prefix[|prefix| - settings.adjustmentInterval..];
    assert recent[0] == prefix[|prefix| - settings.adjustmentInterval] && recent[|recent| - 1] == prefix[|prefix| - 1];
  }

  /** d follows from the first difficulty and the two times for any rounding: n is the first difficulty
      over the clamped ratio, rounded down, c the first difficulty over the factor, rounded up. */
  predicate ValueIs(p: PowSettings, first: int, taken: int, planned: int, d: int, n: int, c: int)
    requires planned != 0
  {
    var ratio := p.round(taken as real / planned as real);
    && ClampedRatio(p, ratio) > 0.0
    && IsFloor(n, p.round(first as real / ClampedRatio(p, ratio)), 1.0)
    && IsCeiling(c, p.round(first as real / p.maxAdjustmentFactor), 1.0)
    && d == if ratio > 1.0 then Max(Max(1, n), c) else Max(1, n)
  }

  lemma RetargetValueIs(p: PowSettings, first: int, taken: int, planned: int, d: int) returns (n: int, c: int)
    requires 1 <= first <= MaxExact && taken > 0 && planned > 0 && d == Retarget(p, first, taken, planned)
    ensures ValueIs(p, first, taken, planned, d, n, c)
  {
    n, c := RetargetValue(p, first, taken, planned, Quotient(p, taken as real, planned as real));
  }

  /** d follows from them where division does not round, in integers: within the factor the difficulty times
      the time taken just reaches the first difficulty times the time planned; a faster interval
      multiplies by the factor, rounded down; a slower one takes the larger of the two quotients,
      and beyond the factor divides by it, rounded up. */
  ghost predicate ExactlyIs(f: real, first: int, taken: int, planned: int, d: int)
    requires f >= 1.0
  {
    match PaceOf(f, taken, planned)
    case Fast => ScaledBy(d, first, f)
    case Steady => Shares(d, first, taken, planned)
    case Slow => exists n: int, c: int :: Shares(n, first, taken, planned) && IsCeiling(c, first as real, f) && d == Max(1, Max(n, c))
    case Tardy => IsCeiling(d, first as real, f)
  }

  lemma RetargetExactlyIs(p: PowSettings, first: int, taken: int, planned: int, d: int)
    requires 1 <= first <= MaxExact && taken > 0 && planned > 0 && ExactDivision(p) && d == Retarget(p, first, taken, planned)
    ensures ExactlyIs(p.maxAdjustmentFactor, first, taken, planned, d)
  {
    match PaceOf(p.maxAdjustmentFactor, taken, planned)
    case Fast => FastValue(p, first, taken, planned);
    case Steady => SteadyValue(p, first, taken, planned);
    case Slow =>
      var n, c := SlowValue(p, first, taken, planned);
      assert Shares(n, first, taken, planned);
    case Tardy => TardyValue(p, first, taken, planned);
  }

  /** The time the last interval took, and the time planned for it. */
  function Taken(settings: PowSettings, prefix: Chain): int
    requires |prefix| >= settings.adjustmentInterval
  {
    Seconds(settings, prefix[|prefix| - settings.adjustmentInterval], prefix[|prefix| - 1])
  }

  function Planned(settings: PowSettings): int {
    settings.targetBlockTimeSeconds * (settings.adjustmentInterval - 1)
  }

  /** The difficulty of the next block, from the difficulty and time of the block one interval back and
      the time of the tip: the first difficulty where no time is planned or taken, and otherwise
      the value above, for any rounding and in integers without. */
  lemma NextDifficulty(settings: PowSettings, prefix: Chain, first: int)
    requires |prefix| >= settings.adjustmentInterval && 1 <= first <= MaxExact
    requires prefix[|prefix| - settings.adjustmentInterval].header.difficulty == Some(first)
    ensures Taken(settings, prefix) <= 0 || Planned(settings) <= 0 ==> GetDifficulty(settings, prefix) == first
    ensures (
      Taken(settings, prefix) > 0 && Planned(settings) > 0
      ==> exists n, c :: ValueIs(settings, first, Taken(settings, prefix), Planned(settings), GetDifficulty(settings, prefix), n, c))
    ensures (
      Taken(settings, prefix) > 0 && Planned(settings) > 0 && ExactDivision(settings)
      ==> ExactlyIs(settings.maxAdjustmentFactor, first, Taken(settings, prefix), Planned(settings), GetDifficulty(settings, prefix)))
  {
    NextIsRetarget(settings, prefix, first);
    var d := GetDifficulty(settings, prefix);
    if Taken(settings, prefix) > 0 && Planned(settings) > 0 {
      var n, c := RetargetValueIs(settings, first, Taken(settings, prefix), Planned(settings), d);
      if ExactDivision(settings) {
        RetargetExactlyIs(settings, first, Taken(settings, prefix), Planned(settings), d);
      }
    }
  }
}
