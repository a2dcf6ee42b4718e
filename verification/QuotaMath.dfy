/**
 Converting computed prices into integer quota. Floating-point numbers are the
 reals with infinities and NaN; the rounding of each operation is a parameter
 that is only assumed monotone and exact on integers up to 2^53.
 */
module QuotaMath {

  datatype Float = NaN | NegInf | Fin(r: real) | PosInf

  const MAX_QUOTA: int := 0x7FFF_FFFF
  const MIN_QUOTA: int := -0x8000_0000
  const MAX_WALLET: int := 500_000_000_000_000
  const EXACT: int := 0x20_0000_0000_0000

  /** The order of floating-point comparison; false when either side is NaN. */
  predicate Leq(a: Float, b: Float) {
    match (a, b)
    case (NaN, _) => false
    case (_, NaN) => false
    case (NegInf, _) => true
    case (_, PosInf) => true
    case (Fin(x), Fin(y)) => x <= y
    case _ => false
  }

  predicate Less(a: Float, b: Float) { Leq(a, b) && !Leq(b, a) }

  predicate IsExact(x: real) { x == x.Floor as real && -EXACT <= x.Floor <= EXACT }

  ghost predicate Monotone(fl: real -> Float) {
    forall x: real, y: real :: x <= y ==> Leq(fl(x), fl(y))
  }

  ghost predicate Rounding(fl: real -> Float) {
    && Monotone(fl)
    && (forall x: real :: IsExact(x) ==> fl(x) == Fin(x))
  }

  function Truncate(r: real): int { if r >= 0.0 then r.Floor else -(-r).Floor }

  /** To the nearest integer, halves away from zero. */
  function RoundAway(r: real): int { if r >= 0.0 then (r + 0.5).Floor else -(-r + 0.5).Floor }

  function RoundFloat(v: Float): Float { if v.Fin? then Fin(RoundAway(v.r) as real) else v }

  // ---------- Saturating and strict conversions ----------

  datatype Clamp = Unclamped | Overflow | Underflow | NotANumber

  function Saturate(v: Float, max: int, min: int): (int, Clamp) {
    if v.NaN? then (0, NotANumber)
    else if Less(Fin(max as real), v) then (max, Overflow)
    else if Less(v, Fin(min as real)) then (min, Underflow)
    else (Truncate(v.r), Unclamped)
  }

  datatype Result<E> = Ok(value: int) | Err(error: E)

  function Strict(q: (int, Clamp)): Result<Clamp> { if q.1.Unclamped? then Ok(q.0) else Err(q.1) }

  function QuotaFromFloat(v: Float): (int, Clamp) { Saturate(v, MAX_QUOTA, MIN_QUOTA) }

  function QuotaRound(v: Float): (int, Clamp) { Saturate(RoundFloat(v), MAX_QUOTA, MIN_QUOTA) }

  function QuotaFromDecimal(d: real, fl: real -> Float): (int, Clamp) {
    Saturate(fl(RoundAway(d) as real), MAX_QUOTA, MIN_QUOTA)
  }

  function WalletFromDecimal(d: real, fl: real -> Float): Result<Clamp> {
    Strict(Saturate(fl(RoundAway(d) as real), MAX_WALLET, -MAX_WALLET))
  }

  datatype BalanceError = InvalidRange | OutOfRange

  /** Truncates, then refuses what is out of range. */
  function BalanceFromDecimal(d: real, min: int, max: int): Result<BalanceError> {
    if min > max then Err(InvalidRange)
    else if Truncate(d) < min || Truncate(d) > max then Err(OutOfRange)
    else Ok(Truncate(d))
  }

  lemma FloorMonotone(x: real, y: real)
    requires x <= y
    ensures x.Floor <= y.Floor
  {
  }

  lemma TruncateMonotone(x: real, y: real)
    requires x <= y
    ensures Truncate(x) <= Truncate(y)
  {
    FloorMonotone(x, y);
    FloorMonotone(-y, -x);
  }

  /** Rounding is monotone and never off by more than a half. */
  lemma RoundAwayFacts(x: real, y: real)
    requires x <= y
    ensures RoundAway(x) <= RoundAway(y)
    ensures -0.5 <= RoundAway(x) as real - x <= 0.5
  {
    FloorMonotone(x + 0.5, y + 0.5);
    FloorMonotone(-y + 0.5, -x + 0.5);
  }

  function Clamped(n: int, max: int, min: int): int {
    if n > max then max else if n < min then min else n
  }

  /**
   Saturation is truncation followed by clamping, except for NaN; and the clamp
   marker is set exactly when the value itself, before truncation, is NaN or
   outside the bounds.
   */
  lemma SaturateMeaning(v: Float, max: int, min: int)
    requires min <= 0 <= max
    ensures v.Fin? ==> Saturate(v, max, min).0 == Clamped(Truncate(v.r), max, min)
    ensures min <= Saturate(v, max, min).0 <= max
    ensures !Saturate(v, max, min).1.Unclamped? <==>
            v.NaN? || Less(Fin(max as real), v) || Less(v, Fin(min as real))
  {
  }

  /** The strict form returns the saturating form's value exactly when nothing was clamped. */
  lemma StrictAgrees(v: Float, max: int, min: int)
    requires min <= 0 <= max
    ensures Strict(Saturate(v, max, min)).Ok? <==> v.Fin? && min as real <= v.r <= max as real
    ensures Strict(Saturate(v, max, min)).Ok? ==>
      Strict(Saturate(v, max, min)).value == Saturate(v, max, min).0 == Truncate(v.r)
  {
  }

  lemma SaturateMonotone(v: Float, w: Float, max: int, min: int)
    requires min <= 0 <= max && Leq(v, w)
    ensures Saturate(v, max, min).0 <= Saturate(w, max, min).0
  {
    if v.Fin? && w.Fin? { TruncateMonotone(v.r, w.r); }
  }

  lemma QuotaRoundMonotone(v: Float, w: Float)
    requires Leq(v, w)
    ensures QuotaRound(v).0 <= QuotaRound(w).0
  {
    if v.Fin? && w.Fin? { RoundAwayFacts(v.r, w.r); }
    SaturateMonotone(RoundFloat(v), RoundFloat(w), MAX_QUOTA, MIN_QUOTA);
  }

  // ---------- Through floating point without loss ----------

  lemma ExactInteger(n: int, fl: real -> Float)
    requires Rounding(fl) && -EXACT <= n <= EXACT
    ensures fl(n as real) == Fin(n as real)
  {
    assert IsExact(n as real);
  }

  lemma SaturateLarge(v: Float, max: int, min: int)
    requires min <= 0 <= max < EXACT && Leq(Fin(EXACT as real), v)
    ensures Saturate(v, max, min) == (max, Overflow)
  {
  }

  lemma SaturateSmall(v: Float, max: int, min: int)
    requires -EXACT < min <= 0 <= max && Leq(v, Fin((-EXACT) as real))
    ensures Saturate(v, max, min) == (min, Underflow)
  {
  }

  lemma SaturateInteger(n: int, max: int, min: int)
    requires min <= 0 <= max
    ensures Saturate(Fin(n as real), max, min) ==
      if n > max then (max, Overflow) else if n < min then (min, Underflow) else (n, Unclamped)
  {
  }

  lemma ConvertedOrdered(m: int, n: int, fl: real -> Float)
    requires Monotone(fl) && m <= n
    ensures Leq(fl(m as real), fl(n as real))
  {
  }

  /** Saturating an integer after its conversion to floating point decides as integer arithmetic would. */
  lemma IntegerSaturates(n: int, max: int, min: int, fl: real -> Float)
    requires Rounding(fl) && -EXACT < min <= 0 <= max < EXACT
    ensures Saturate(fl(n as real), max, min) ==
      if n > max then (max, Overflow) else if n < min then (min, Underflow) else (n, Unclamped)
  {
    if n > EXACT {
      ExactInteger(EXACT, fl);
      ConvertedOrdered(EXACT, n, fl);
      SaturateLarge(fl(n as real), max, min);
    } else if n < -EXACT {
      ExactInteger(-EXACT, fl);
      ConvertedOrdered(n, -EXACT, fl);
      SaturateSmall(fl(n as real), max, min);
    } else {
      ExactInteger(n, fl);
      SaturateInteger(n, max, min);
    }
  }

  lemma WalletIsExact(d: real, fl: real -> Float)
    requires Rounding(fl)
    ensures WalletFromDecimal(d, fl) ==
      if RoundAway(d) > MAX_WALLET then Err(Overflow)
      else if RoundAway(d) < -MAX_WALLET then Err(Underflow)
      else Ok(RoundAway(d))
  {
    IntegerSaturates(RoundAway(d), MAX_WALLET, -MAX_WALLET, fl);
  }

  lemma DecimalIsExact(d: real, fl: real -> Float)
    requires Rounding(fl)
    ensures QuotaFromDecimal(d, fl).0 == Clamped(RoundAway(d), MAX_QUOTA, MIN_QUOTA)
    ensures QuotaFromDecimal(d, fl).1.Unclamped? <==> MIN_QUOTA <= RoundAway(d) <= MAX_QUOTA
  {
    IntegerSaturates(RoundAway(d), MAX_QUOTA, MIN_QUOTA, fl);
  }

  function Abs(r: real): real { if r >= 0.0 then r else -r }

  /**
   The rounding and the truncating wallet conversions are at most one apart,
   and disagree on acceptance exactly for amounts from half a unit above the
   limit up to a whole unit above it.
   */
  lemma WalletConversionsCompare(d: real, fl: real -> Float)
    requires Rounding(fl)
    ensures var a, b := WalletFromDecimal(d, fl), BalanceFromDecimal(d, -MAX_WALLET, MAX_WALLET);
      && (a.Ok? && b.Ok? ==> -1 <= a.value - b.value <= 1)
      && (a.Ok? ==> b.Ok?)
      && (a.Ok? != b.Ok? <==> MAX_WALLET as real + 0.5 <= Abs(d) < MAX_WALLET as real + 1.0)
  {
    WalletIsExact(d, fl);
  }

  // ---------- The charge of a channel test ----------

  function Mul(fl: real -> Float, a: Float, b: Float): Float {
    match (a, b)
    case (NaN, _) => NaN
    case (_, NaN) => NaN
    case (Fin(x), Fin(y)) => fl(x * y)
    case _ =>
      var s := Sign(a) * Sign(b);
      if s == 0 then NaN else if s > 0 then PosInf else NegInf
  }

  function Sign(a: Float): int
    requires !a.NaN?
  {
    match a
    case NegInf => -1
    case PosInf => 1
    case Fin(x) => if x > 0.0 then 1 else if x < 0.0 then -1 else 0
  }

  function Add(fl: real -> Float, a: Float, b: Float): Float {
    match (a, b)
    case (NaN, _) => NaN
    case (_, NaN) => NaN
    case (Fin(x), Fin(y)) => fl(x + y)
    case (Fin(_), _) => b
    case (_, Fin(_)) => a
    case _ => if a == b then a else NaN
  }

  datatype Price = Price(usePrice: bool, completionRatio: Float, modelRatio: Float, modelPrice: Float, quotaPerUnit: Float)

  /** A token count or quota times a ratio, rounded to quota. */
  function Scaled(fl: real -> Float, n: int, ratio: Float): int {
    QuotaRound(Mul(fl, fl(n as real), ratio)).0
  }

  function Charge(fl: real -> Float, prompt: int, completion: int, p: Price): int {
    if p.usePrice then QuotaFromFloat(Mul(fl, p.modelPrice, p.quotaPerUnit)).0
    else
      var completionQuota := Scaled(fl, completion, p.completionRatio);
      var tokens := QuotaRound(Add(fl, fl(prompt as real), fl(completionQuota as real))).0;
      var quota := Scaled(fl, tokens, p.modelRatio);
      if p.modelRatio != Fin(0.0) && quota <= 0 then 1 else quota
  }

  /** The quota as it is reassigned step by step. */
  method SettleTestQuota(fl: real -> Float, prompt: int, completion: int, p: Price) returns (quota: int)
    ensures quota == Charge(fl, prompt, completion, p) && MIN_QUOTA <= quota <= MAX_QUOTA
  {
    quota := 0;
    if !p.usePrice {
      var completionQuota := QuotaRound(Mul(fl, fl(completion as real), p.completionRatio)).0;
      quota := QuotaRound(Add(fl, fl(prompt as real), fl(completionQuota as real))).0;
      quota := QuotaRound(Mul(fl, fl(quota as real), p.modelRatio)).0;
      if p.modelRatio != Fin(0.0) && quota <= 0 {
        quota := 1;
      }
      return;
    }
    quota := QuotaFromFloat(Mul(fl, p.modelPrice, p.quotaPerUnit)).0;
  }

  predicate NonNegative(ratio: Float) { ratio.PosInf? || (ratio.Fin? && ratio.r >= 0.0) }

  lemma ProductMonotone(x: real, y: real, r: real)
    requires x <= y && 0.0 <= r
    ensures x * r <= y * r
  {
    assert (y - x) * r >= 0.0;
  }

  /** An infinite ratio leaves only the sign, zero times infinity counting as zero. */
  lemma InfinitelyScaled(fl: real -> Float, a: Float)
    requires !a.NaN?
    ensures QuotaRound(Mul(fl, a, PosInf)).0 ==
      if Sign(a) > 0 then MAX_QUOTA else if Sign(a) < 0 then MIN_QUOTA else 0
  {
    assert Mul(fl, a, PosInf) == if Sign(a) > 0 then PosInf else if Sign(a) < 0 then NegInf else NaN;
  }

  lemma FiniteProducts(fl: real -> Float, x: real, y: real, r: real)
    requires Monotone(fl) && x <= y && 0.0 < r
    ensures Leq(fl(x * r), fl(y * r))
  {
    ProductMonotone(x, y, r);
  }

  lemma ProductsOrdered(fl: real -> Float, a: Float, b: Float, r: real)
    requires Monotone(fl) && Leq(a, b) && 0.0 < r
    ensures Leq(Mul(fl, a, Fin(r)), Mul(fl, b, Fin(r)))
  {
    if a.Fin? { FiniteProducts(fl, a.r, if b.Fin? then b.r else a.r, r); }
    if b.Fin? { FiniteProducts(fl, b.r, b.r, r); }
  }

  /** Scaling by a nonnegative ratio is monotone, zero times infinity included. */
  lemma ScaledMonotone(fl: real -> Float, m: int, n: int, ratio: Float)
    requires Rounding(fl) && m <= n && NonNegative(ratio)
    ensures Scaled(fl, m, ratio) <= Scaled(fl, n, ratio)
  {
    var a, b := fl(m as real), fl(n as real);
    assert Leq(a, b);
    if ratio.PosInf? {
      InfinitelyScaled(fl, a);
      InfinitelyScaled(fl, b);
    } else if ratio.r == 0.0 {
      ZeroScaled(fl, a);
      ZeroScaled(fl, b);
    } else {
      ProductsOrdered(fl, a, b, ratio.r);
      QuotaRoundMonotone(Mul(fl, a, ratio), Mul(fl, b, ratio));
    }
  }

  /** Anything times zero is zero quota: a number gives zero, an infinity NaN, which counts as zero. */
  lemma ZeroScaled(fl: real -> Float, a: Float)
    requires Rounding(fl)
    ensures QuotaRound(Mul(fl, a, Fin(0.0))).0 == 0
  {
    assert fl(0 as real) == Fin(0.0);
    if a.Fin? { assert a.r * 0.0 == 0.0; }
  }

  lemma TokensMonotone(fl: real -> Float, prompt: int, prompt': int, cq: int, cq': int)
    requires Rounding(fl) && prompt <= prompt' && MIN_QUOTA <= cq <= cq' <= MAX_QUOTA
    ensures QuotaRound(Add(fl, fl(prompt as real), fl(cq as real))).0 <=
            QuotaRound(Add(fl, fl(prompt' as real), fl(cq' as real))).0
  {
    assert Leq(fl(prompt as real), fl(prompt' as real));
    QuotaRoundMonotone(Add(fl, fl(prompt as real), fl(cq as real)), Add(fl, fl(prompt' as real), fl(cq' as real)));
  }

  lemma QuotaRoundBounded(v: Float)
    ensures MIN_QUOTA <= QuotaRound(v).0 <= MAX_QUOTA
  {
    SaturateMeaning(RoundFloat(v), MAX_QUOTA, MIN_QUOTA);
  }

  /**
   Through three roundings and a floor of one, more tokens never cost less; a
   positive ratio always costs something, a zero ratio nothing, and no charge
   exceeds the quota limit.
   */
  lemma ChargeMonotone(fl: real -> Float, prompt: int, completion: int, prompt': int, completion': int, p: Price)
    requires Rounding(fl) && prompt <= prompt' && completion <= completion'
    requires NonNegative(p.completionRatio) && NonNegative(p.modelRatio)
    ensures Charge(fl, prompt, completion, p) <= Charge(fl, prompt', completion', p) <= MAX_QUOTA
    ensures !p.usePrice ==>
      if p.modelRatio == Fin(0.0) then Charge(fl, prompt, completion, p) == 0
      else Charge(fl, prompt, completion, p) >= 1
  {
    if p.usePrice {
      SaturateMeaning(Mul(fl, p.modelPrice, p.quotaPerUnit), MAX_QUOTA, MIN_QUOTA);
    } else {
      var cq, cq' := Scaled(fl, completion, p.completionRatio), Scaled(fl, completion', p.completionRatio);
      ScaledMonotone(fl, completion, completion', p.completionRatio);
      QuotaRoundBounded(Mul(fl, fl(completion as real), p.completionRatio));
      QuotaRoundBounded(Mul(fl, fl(completion' as real), p.completionRatio));
      TokensMonotone(fl, prompt, prompt', cq, cq');
      var t := QuotaRound(Add(fl, fl(prompt as real), fl(cq as real))).0;
      var t' := QuotaRound(Add(fl, fl(prompt' as real), fl(cq' as real))).0;
      ScaledMonotone(fl, t, t', p.modelRatio);
      QuotaRoundBounded(Mul(fl, fl(t' as real), p.modelRatio));
      if p.modelRatio == Fin(0.0) { ZeroScaled(fl, fl(t as real)); }
    }
  }
}
