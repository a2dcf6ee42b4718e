/** What the conversions and the charge of a channel test come to in plain arithmetic. */
module QuotaMeaning {
  import opened QuotaMath

  // ---------- Rounding ----------

  /** Truncation goes towards zero, by less than one. */
  lemma TruncateMeaning(r: real)
    ensures var t := Truncate(r) as real;
      (r >= 0.0 ==> 0.0 <= t && t <= r < t + 1.0) && (r <= 0.0 ==> t <= 0.0 && t - 1.0 < r <= t)
  {
  }

  /** Rounding goes to the nearest integer, and away from zero where two are equally near. */
  lemma RoundAwayMeaning(r: real)
    ensures var n := RoundAway(r) as real;
      && Abs(n - r) <= 0.5 && (Abs(n - r) == 0.5 ==> Abs(n) > Abs(r))
      && RoundAway(-r) == -RoundAway(r)
  {
    RoundAwayFacts(r, r);
  }

  // ---------- Saturation ----------

  /** Every case of a saturating conversion, with its marker. */
  lemma SaturateCases(v: Float, max: int, min: int)
    requires min <= 0 <= max
    ensures Saturate(v, max, min) ==
      match v
      case NaN => (0, NotANumber)
      case PosInf => (max, Overflow)
      case NegInf => (min, Underflow)
      case Fin(r) =>
        if r > max as real then (max, Overflow)
        else if r < min as real then (min, Underflow)
        else (Truncate(r), Unclamped)
  {
  }

  /** The balance conversion returns the truncated amount exactly when it lies in a range that is one. */
  lemma BalanceMeaning(d: real, min: int, max: int)
    ensures var b := BalanceFromDecimal(d, min, max);
      && (b.Ok? <==> min <= Truncate(d) <= max) && (b.Ok? ==> b.value == Truncate(d))
      && (b.Err? ==> (b.error.InvalidRange? <==> max < min))
  {
  }

  /** A whole number within the limits is its own quota. */
  lemma WholeQuota(n: int)
    requires MIN_QUOTA <= n <= MAX_QUOTA
    ensures QuotaRound(Fin(n as real)) == (n, Unclamped) && QuotaFromFloat(Fin(n as real)) == (n, Unclamped)
  {
    assert RoundAway(n as real) == n && Truncate(n as real) == n;
  }

  /** Infinities: like ones add up, unlike ones cancel to nothing known, and a product keeps the sign. */
  lemma InfiniteArithmetic(fl: real -> Float, x: real)
    requires x != 0.0
    ensures Add(fl, PosInf, PosInf) == PosInf && Add(fl, NegInf, NegInf) == NegInf && Add(fl, PosInf, NegInf).NaN?
    ensures Add(fl, Fin(x), NegInf) == NegInf == Add(fl, NegInf, Fin(x))
    ensures Mul(fl, Fin(x), PosInf) == if x > 0.0 then PosInf else NegInf
    ensures Mul(fl, NegInf, NegInf) == PosInf && Mul(fl, PosInf, NegInf) == NegInf && Mul(fl, Fin(0.0), PosInf).NaN?
  {
  }

  // ---------- The charge ----------

  /** The charge from its three intermediate amounts. */
  lemma ChargeSteps(fl: real -> Float, prompt: int, completion: int, p: Price, weighted: int, tokens: int, quota: int)
    requires !p.usePrice && Scaled(fl, completion, p.completionRatio) == weighted
    requires QuotaRound(Add(fl, fl(prompt as real), fl(weighted as real))).0 == tokens
    requires Scaled(fl, tokens, p.modelRatio) == quota
    ensures Charge(fl, prompt, completion, p) == if p.modelRatio != Fin(0.0) && quota <= 0 then 1 else quota
  {
  }

  lemma WholeProduct(fl: real -> Float, a: int, b: int, n: int)
    requires Rounding(fl) && -EXACT <= a <= EXACT && -EXACT <= n <= EXACT && n == a * b
    ensures Mul(fl, fl(a as real), Fin(b as real)) == Fin(n as real)
  {
    ExactInteger(a, fl);
    ExactInteger(n, fl);
    assert a as real * b as real == n as real;
  }

  /** A whole ratio multiplies, without loss in any floating-point arithmetic. */
  lemma WholeScaled(fl: real -> Float, a: int, b: int, n: int)
    requires Rounding(fl) && -EXACT <= a <= EXACT && 0 <= n <= MAX_QUOTA && n == a * b
    ensures Scaled(fl, a, Fin(b as real)) == n
  {
    WholeProduct(fl, a, b, n);
    WholeQuota(n);
  }

  lemma WholeTokens(fl: real -> Float, prompt: int, quota: int)
    requires Rounding(fl) && 0 <= prompt && 0 <= quota && prompt + quota <= MAX_QUOTA
    ensures QuotaRound(Add(fl, fl(prompt as real), fl(quota as real))).0 == prompt + quota
  {
    ExactInteger(prompt, fl);
    ExactInteger(quota, fl);
    ExactInteger(prompt + quota, fl);
    WholeQuota(prompt + quota);
  }

  /**
   The charge in any floating-point arithmetic, within the limits: the
   completion tokens are scaled by their ratio, added to the prompt tokens, and
   the sum is scaled by the model's; it is at least one unless the model is free.
   */
  lemma ChargeMeaning(fl: real -> Float, prompt: nat, completion: nat, p: Price)
    requires Rounding(fl) && !p.usePrice
    ensures var weighted := Scaled(fl, completion, p.completionRatio);
      0 <= weighted && prompt + weighted <= MAX_QUOTA ==>
        var cost := Scaled(fl, prompt + weighted, p.modelRatio);
        Charge(fl, prompt, completion, p) == if p.modelRatio != Fin(0.0) && cost <= 0 then 1 else cost
  {
    var weighted := Scaled(fl, completion, p.completionRatio);
    if 0 <= weighted && prompt + weighted <= MAX_QUOTA {
      WholeTokens(fl, prompt, weighted);
      ChargeSteps(fl, prompt, completion, p, weighted, prompt + weighted, Scaled(fl, prompt + weighted, p.modelRatio));
    }
  }

  /** A fixed price is charged for as it is, truncated, whatever the tokens. */
  lemma PriceCharge(fl: real -> Float, prompt: int, completion: int, p: Price, amount: real)
    requires p.usePrice && Mul(fl, p.modelPrice, p.quotaPerUnit) == Fin(amount)
    ensures Charge(fl, prompt, completion, p) == Clamped(Truncate(amount), MAX_QUOTA, MIN_QUOTA)
  {
    SaturateMeaning(Fin(amount), MAX_QUOTA, MIN_QUOTA);
  }

  /** Arithmetic without rounding. */
  ghost predicate Ideal(fl: real -> Float) {
    forall x: real :: fl(x) == Fin(x)
  }

  lemma RoundedQuota(x: real)
    requires 0.0 <= x <= MAX_QUOTA as real
    ensures 0 <= QuotaRound(Fin(x)).0 <= MAX_QUOTA && Abs(QuotaRound(Fin(x)).0 as real - x) <= 0.5
  {
    RoundAwayFacts(x, MAX_QUOTA as real);
    RoundAwayFacts(0.0, x);
    assert RoundAway(MAX_QUOTA as real) == MAX_QUOTA && RoundAway(0.0) == 0;
    WholeQuota(RoundAway(x));
  }

  lemma IdealTokens(fl: real -> Float, prompt: nat, weighted: nat)
    requires Ideal(fl) && prompt + weighted <= MAX_QUOTA
    ensures QuotaRound(Add(fl, fl(prompt as real), fl(weighted as real))).0 == prompt + weighted
  {
    WholeQuota(prompt + weighted);
  }

  /** A difference of at most a half, scaled. */
  lemma HalfScaled(d: real, ratio: real)
    requires -0.5 <= d <= 0.5 && 0.0 <= ratio
    ensures -(0.5 * ratio) <= d * ratio <= 0.5 * ratio
  {
    ProductMonotone(d, 0.5, ratio);
    ProductMonotone(-0.5, d, ratio);
    assert -0.5 * ratio == -(0.5 * ratio);
  }

  lemma ScaledDifference(a: real, b: real, ratio: real)
    ensures a * ratio - b * ratio == (a - b) * ratio
  {
  }

  /**
   Rounding the weight of the completion to a whole number of tokens changes
   the cost by at most half the model ratio.
   */
  lemma CostNear(prompt: nat, weighted: nat, exact: real, ratio: real, scaled: real, cost: real)
    requires Abs(weighted as real - exact) <= 0.5 && 0.0 <= ratio
    requires scaled == (prompt + weighted) as real * ratio && cost == (prompt as real + exact) * ratio
    ensures Abs(scaled - cost) <= 0.5 * ratio
  {
    ScaledDifference((prompt + weighted) as real, prompt as real + exact, ratio);
    HalfScaled(weighted as real - exact, ratio);
  }

  /**
   For any ratios, in arithmetic without rounding: the completion weighs its
   rounded product with its ratio, and the charge is within a half of the
   tokens' product with the model ratio, or it is the least charge.
   */
  lemma ChargeIsNear(fl: real -> Float, prompt: nat, completion: nat, p: Price, exact: real, weighted: nat, scaled: real)
    requires Ideal(fl) && !p.usePrice && 0.0 <= exact <= MAX_QUOTA as real && 0.0 <= scaled <= MAX_QUOTA as real
    requires Mul(fl, fl(completion as real), p.completionRatio) == Fin(exact)
    requires weighted == QuotaRound(Fin(exact)).0 && prompt + weighted <= MAX_QUOTA
    requires Mul(fl, fl((prompt + weighted) as real), p.modelRatio) == Fin(scaled)
    ensures Abs(weighted as real - exact) <= 0.5
    ensures var charge := Charge(fl, prompt, completion, p); charge == 1 || Abs(charge as real - scaled) <= 0.5
  {
    RoundedQuota(exact);
    IdealTokens(fl, prompt, weighted);
    RoundedQuota(scaled);
    ChargeSteps(fl, prompt, completion, p, weighted, prompt + weighted, QuotaRound(Fin(scaled)).0);
  }
}
