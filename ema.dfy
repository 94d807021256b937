/**
 * The exponential moving average of cmd/ema.go: a smoothing factor fixed at
 * construction, a current value and an "initialised" flag.  Float64 arithmetic
 * is modelled over `real`, which is exact.
 */
module EmaFilter {
  import opened Wrappers
  import opened GoInts

  /**
   * The smoothing factor derived from a span: 2 / (span + 1), where span + 1
   * is an int64 sum and so wraps to -2^63 for the largest span.
   */
  function AlphaOf(span: Int64): (a: real)
    requires span > 0
    ensures span < TwoTo63 - 1 ==> 0.0 < a <= 1.0
    ensures span == TwoTo63 - 1 ==> a == -2.0 / TwoTo63 as real
    ensures a == 1.0 <==> span == 1
  {
    2.0 / WrapInt64(span + 1) as real
  }

  /**
   * At the largest span the factor is negative, so an update moves the value
   * away from the new sample instead of toward it.
   */
  lemma LargestSpanExtrapolates(prev: real, x: real)
    requires prev < x
    ensures AlphaOf(TwoTo63 - 1) < 0.0
    ensures Blend(AlphaOf(TwoTo63 - 1), prev, x) < prev
  {
    var a := AlphaOf(TwoTo63 - 1);
    assert Blend(a, prev, x) - prev == a * (x - prev);
  }

  /** One smoothing step: a convex combination of the new sample and the old value. */
  function Blend(alpha: real, prev: real, x: real): real
  {
    alpha * x + (1.0 - alpha) * prev
  }

  /** A smoothing step lands between the old value and the sample, inclusive. */
  lemma BlendBetween(alpha: real, prev: real, x: real)
    requires 0.0 < alpha <= 1.0
    ensures prev <= x ==> prev <= Blend(alpha, prev, x) <= x
    ensures x <= prev ==> x <= Blend(alpha, prev, x) <= prev
    ensures alpha == 1.0 ==> Blend(alpha, prev, x) == x
  {
    var r := Blend(alpha, prev, x);
    assert r - prev == alpha * (x - prev);
    assert x - r == (1.0 - alpha) * (x - prev);
    ScaledStaysBetween(alpha, x - prev);
    ScaledStaysBetween(1.0 - alpha, x - prev);
  }

  /** Scaling by a factor in [0, 1] keeps a difference's sign and does not enlarge it. */
  lemma ScaledStaysBetween(a: real, d: real)
    requires 0.0 <= a <= 1.0
    ensures d >= 0.0 ==> 0.0 <= a * d <= d
    ensures d <= 0.0 ==> d <= a * d <= 0.0
  {
    assert d - a * d == (1.0 - a) * d;
  }

  /** The value an estimator holds after being fed the samples `xs`, in order. */
  function EmaOf(alpha: real, xs: seq<real>): real
    requires |xs| > 0
    decreases |xs|
  {
    if |xs| == 1 then xs[0]
    else Blend(alpha, EmaOf(alpha, xs[..|xs| - 1]), xs[|xs| - 1])
  }

  /** The value after `n` further samples all equal to `y`, starting from `v`. */
  function Approach(alpha: real, v: real, y: real, n: nat): real
  {
    if n == 0 then v else Blend(alpha, Approach(alpha, v, y, n - 1), y)
  }

  function Pow(b: real, n: nat): real
  {
    if n == 0 then 1.0 else b * Pow(b, n - 1)
  }

  /** `n` copies of `y`. */
  function Repeat(y: real, n: nat): (s: seq<real>)
    ensures |s| == n && forall i :: 0 <= i < n ==> s[i] == y
  {
    seq(n, _ => y)
  }

  /** The smoothed value always lies between the smallest and largest sample fed. */
  lemma {:induction false} EmaOfWithin(alpha: real, xs: seq<real>, lo: real, hi: real)
    requires 0.0 < alpha <= 1.0
    requires |xs| > 0
    requires forall i :: 0 <= i < |xs| ==> lo <= xs[i] <= hi
    ensures lo <= EmaOf(alpha, xs) <= hi
    decreases |xs|
  {
    if |xs| > 1 {
      EmaOfWithin(alpha, xs[..|xs| - 1], lo, hi);
      BlendBetween(alpha, EmaOf(alpha, xs[..|xs| - 1]), xs[|xs| - 1]);
    }
  }

  /** The first sample seeds the value; the second is blended into it. */
  lemma FirstTwoSamples(alpha: real, x: real, y: real)
    ensures EmaOf(alpha, [x]) == x
    ensures EmaOf(alpha, [x, y]) == alpha * y + (1.0 - alpha) * x
  {
    assert [x, y][..1] == [x];
  }

  /** An estimator seeded with 0 holds alpha times its second sample. */
  lemma ZeroSeedThen(alpha: real, y: real)
    ensures EmaOf(alpha, [0.0, y]) == alpha * y
  {
    FirstTwoSamples(alpha, 0.0, y);
  }

  /** Span 10 fed 10 then 20: alpha is 2/11 and the value is 130/11 (about 11.82). */
  lemma SpanTenExample()
    ensures AlphaOf(10) == 2.0 / 11.0
    ensures EmaOf(AlphaOf(10), [10.0, 20.0]) == 130.0 / 11.0
  {
    FirstTwoSamples(AlphaOf(10), 10.0, 20.0);
  }

  /** Feeding a constant `y` after any history behaves as `Approach` from the current value. */
  lemma {:induction false} ConstantFeed(alpha: real, xs: seq<real>, y: real, n: nat)
    requires |xs| > 0
    ensures EmaOf(alpha, xs + Repeat(y, n)) == Approach(alpha, EmaOf(alpha, xs), y, n)
  {
    if n == 0 {
      assert xs + Repeat(y, 0) == xs;
    } else {
      ConstantFeed(alpha, xs, y, n - 1);
      var s := xs + Repeat(y, n);
      assert s[..|s| - 1] == xs + Repeat(y, n - 1);
    }
  }

  /** Repeated constant input moves the value monotonically toward `y` and never past it. */
  lemma {:induction false} ApproachMonotone(alpha: real, v: real, y: real, n: nat)
    requires 0.0 < alpha <= 1.0
    ensures v <= y ==> v <= Approach(alpha, v, y, n) <= Approach(alpha, v, y, n + 1) <= y
    ensures y <= v ==> y <= Approach(alpha, v, y, n + 1) <= Approach(alpha, v, y, n) <= v
  {
    BlendBetween(alpha, Approach(alpha, v, y, n), y);
    if n > 0 {
      ApproachMonotone(alpha, v, y, n - 1);
    }
  }

  /** The distance to `y` shrinks by the factor (1 - alpha) per sample. */
  lemma {:induction false} ApproachGap(alpha: real, v: real, y: real, n: nat)
    ensures y - Approach(alpha, v, y, n) == Pow(1.0 - alpha, n) * (y - v)
  {
    if n > 0 {
      ApproachGap(alpha, v, y, n - 1);
      var a := Approach(alpha, v, y, n - 1);
      BlendGap(alpha, a, y);
      ProductRegroup(1.0 - alpha, Pow(1.0 - alpha, n - 1), y - v);
    }
  }

  /** One step toward `y` multiplies the remaining distance by (1 - alpha). */
  lemma BlendGap(alpha: real, a: real, y: real)
    ensures y - Blend(alpha, a, y) == (1.0 - alpha) * (y - a)
  {
  }

  lemma ProductRegroup(b: real, p: real, d: real)
    ensures b * (p * d) == (b * p) * d
  {
  }

  /** The estimator object of cmd/ema.go. */
  class Ema {
    /** Fixed by the constructor: no method assigns it. */
    const alpha: real
    var value: real
    var init: bool
    /** The samples fed so far, oldest first. */
    ghost var history: seq<real>

    ghost predicate Valid()
      reads this
    {
      && init == (|history| > 0)
      && (init ==> value == EmaOf(alpha, history))
    }

    constructor (span: Int64)
      requires span > 0
      ensures Valid()
      ensures alpha == AlphaOf(span)
      ensures !init && history == []
    {
      alpha := AlphaOf(span);
      init := false;
      history := [];
    }

    /** NewEMA: a span of zero or less panics and yields no estimator. */
    static method NewEma(span: Int64) returns (e: Option<Ema>)
      ensures e.None? <==> span <= 0
      ensures e.Some? ==> fresh(e.value) && e.value.Valid()
      ensures e.Some? ==> e.value.alpha == AlphaOf(span) && !e.value.init && e.value.history == []
    {
      if span <= 0 {
        return None;
      }
      var created := new Ema(span);
      return Some(created);
    }

    /** Update: the first sample seeds the value, later ones are blended in. */
    method Update(x: real) returns (r: real)
      requires Valid()
      modifies this
      ensures Valid()
      ensures init && value == r
      ensures history == old(history) + [x]
      ensures r == EmaOf(alpha, history)
      ensures r == if old(init) then Blend(alpha, old(value), x) else x
    {
      if !init {
        value := x;
        init := true;
      } else {
        value := alpha * x + (1.0 - alpha) * value;
      }
      history := history + [x];
      assert history[..|history| - 1] == old(history);
      r := value;
    }

    /** GetValue: panics (None) before the first Update, else the current smoothed value. */
    method GetValue() returns (r: Option<real>)
      requires Valid()
      ensures r.Some? <==> |history| > 0
      ensures r.Some? ==> r.value == EmaOf(alpha, history)
    {
      if !init {
        return None;
      }
      return Some(value);
    }
  }
}
