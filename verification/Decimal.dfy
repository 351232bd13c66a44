/** Exact decimals: rounding a quotient in every mode and for every sign, rescaling and division. */
module Decimal {

  datatype Decimal = Decimal(coefficient: int, scale: int)

  datatype Mode = Exact | TowardZero | Floor | Ceiling | HalfUp | HalfDown | HalfEven

  datatype Error = ResourceLimit | InvalidArgument | DivisionByZero | RescaleRequired

  datatype Result<+T> = Ok(value: T) | Err(error: Error)

  const MAX_SAFE_INTEGER: int := 0x1F_FFFF_FFFF_FFFF
  const MAX_POWER := 10000

  function Abs(x: int): nat { if x < 0 then -x else x }

  // ---- powers of ten

  function Pow10(n: nat): (r: int)
    ensures r >= 1
  {
    if n == 0 then 1 else Pow10(n - 1) * 10
  }

  lemma {:induction false} Pow10Adds(a: nat, b: nat)
    ensures Pow10(a + b) == Pow10(a) * Pow10(b)
  {
    if b > 0 {
      Pow10Adds(a, b - 1);
      assert Pow10(a + b) == Pow10(a + b - 1) * 10;
    }
  }

  function Power(n: int): Result<int> {
    if n < 0 || n > MAX_POWER then Err(ResourceLimit) else Ok(Pow10(n))
  }

  /** The shared table of powers, extended as far as it is needed. */
  class PowerTable {
    var table: seq<int>

    ghost predicate Valid()
      reads this
    {
      |table| >= 1 && forall i :: 0 <= i < |table| ==> table[i] == Pow10(i)
    }

    constructor ()
      ensures Valid()
    {
      table := [1];
    }

    method Lookup(n: int) returns (r: Result<int>)
      requires Valid()
      modifies this
      ensures Valid() && r == Power(n)
      ensures old(table) <= table
    {
      if n < 0 || n > MAX_POWER { return Err(ResourceLimit); }
      for i := |table| to (if n + 1 > |table| then n + 1 else |table|)
        invariant Valid() && |table| == i && old(table) <= table
      {
        table := table + [table[i - 1] * 10];
      }
      return Ok(table[n]);
    }
  }

  // ---- what rounding means

  /** p <= n < p + d, the other way round for a negative d: p / d is the whole part below n / d. */
  predicate Under(n: int, d: int, p: int) {
    if d > 0 then p <= n < p + d else p >= n > p + d
  }

  predicate Over(n: int, d: int, p: int) {
    if d > 0 then p - d < n <= p else p - d > n >= p
  }

  /** n / d is at most half a unit from p / d. */
  predicate Nearest(n: int, d: int, p: int) { 2 * Abs(n - p) <= Abs(d) }

  /** n / d is exactly between p / d and a neighbour. */
  predicate Tie(n: int, d: int, p: int) { 2 * Abs(n - p) == Abs(d) }

  /** The integer q = p / d is the quotient n / d rounded, each mode by its own meaning. */
  predicate RoundsTo(n: int, d: int, mode: Mode, q: int, p: int) {
    match mode
    case Exact => p == n
    case Floor => Under(n, d, p)
    case Ceiling => Over(n, d, p)
    case TowardZero => Abs(p) + Abs(n - p) == Abs(n) && Abs(n - p) < Abs(d)
    case HalfUp => Nearest(n, d, p) && (Tie(n, d, p) ==> Abs(p) > Abs(n))
    case HalfDown => Nearest(n, d, p) && (Tie(n, d, p) ==> Abs(p) < Abs(n))
    case HalfEven => Nearest(n, d, p) && (Tie(n, d, p) ==> q % 2 == 0)
  }

  predicate Rounds(n: int, d: int, mode: Mode, q: int) {
    RoundsTo(n, d, mode, q, q * d)
  }

  // ---- the code

  /** The host's integer division truncates toward zero. */
  function Quotient(n: int, d: int): int
    requires d != 0
  {
    if (n < 0) == (d < 0) then Abs(n) / Abs(d) else -(Abs(n) / Abs(d))
  }

  function Remainder(n: int, d: int): int
    requires d != 0
  {
    n - Quotient(n, d) * d
  }

  function RoundedQuotient(n: int, d: int, mode: Mode): Result<int> {
    if d == 0 then Err(DivisionByZero) else Adjusted(n, d, mode, Quotient(n, d), Remainder(n, d))
  }

  /** Step away from the truncated quotient where the mode asks for it. */
  function Adjusted(n: int, d: int, mode: Mode, q: int, r: int): Result<int> {
    if r == 0 then Ok(q)
    else if mode == Exact then Err(RescaleRequired)
    else
      var sameSign := (n < 0) == (d < 0);
      var away := if sameSign then 1 else -1;
      if mode == TowardZero then Ok(q)
      else if mode == Floor then Ok(if sameSign then q else q - 1)
      else if mode == Ceiling then Ok(if sameSign then q + 1 else q)
      else
        var twice, size := Abs(r) * 2, Abs(d);
        if twice < size then Ok(q)
        else if twice > size then Ok(q + away)
        else if mode == HalfUp then Ok(q + away)
        else if mode == HalfDown then Ok(q)
        else Ok(if q % 2 == 0 then q else q + away)
  }

  /** The quotient and remainder of the magnitudes. */
  lemma Magnitudes(n: int, d: int)
    requires d != 0
    ensures var a, b, k := Abs(n), Abs(d), Abs(n) / Abs(d);
            && a == k * b + a % b && 0 <= a % b < b
            && Quotient(n, d) * d == (if n < 0 then -(k * b) else k * b)
            && Abs(Remainder(n, d)) == a % b
  {
    var a, b, k := Abs(n), Abs(d), Abs(n) / Abs(d);
    assert a == b * k + a % b;
    Commute(b, k);
    if (n < 0) == (d < 0) {
      SignedProduct(k, d);
    } else {
      SignedProduct(-k, d);
      SignedProduct(k, d);
      assert (-k) * d == -(k * d) by { NegateProduct(k, d); }
    }
  }

  lemma Commute(a: int, b: int)
    ensures a * b == b * a
  {
  }

  lemma NegateProduct(a: int, b: int)
    ensures (-a) * b == -(a * b) && a * (-b) == -(a * b)
  {
  }

  lemma SignedProduct(k: int, d: int)
    ensures k * d == if d < 0 then -(k * Abs(d)) else k * Abs(d)
  {
    NegateProduct(k, Abs(d));
  }

  /** One of the two neighbours is right: p is the truncated multiple, r what is left. */
  lemma NeighbourRounds(n: int, d: int, mode: Mode, q: int, p: int, r: int)
    requires d != 0 && p + r == n && r != 0 && Abs(r) < Abs(d) && Abs(p) + Abs(r) == Abs(n) && mode != Exact
    ensures var away := if (n < 0) == (d < 0) then 1 else -1;
            var x := Adjusted(n, d, mode, q, r);
            || (x == Ok(q) && RoundsTo(n, d, mode, q, p))
            || (x == Ok(q + away) && RoundsTo(n, d, mode, q + away, if away == 1 then p + d else p - d))
  {
  }

  lemma NoRemainderRounds(n: int, d: int, mode: Mode, q: int)
    requires d != 0
    ensures RoundsTo(n, d, mode, q, n)
  {
  }

  lemma Neighbours(q: int, d: int)
    ensures (q + 1) * d == q * d + d && (q - 1) * d == q * d - d
  {
  }

  lemma RoundedByMagnitude(n: int, d: int, mode: Mode)
    requires d != 0
    ensures RoundedQuotient(n, d, mode).Err? <==> mode == Exact && Abs(n) % Abs(d) != 0
    ensures RoundedQuotient(n, d, mode).Ok? ==> Rounds(n, d, mode, RoundedQuotient(n, d, mode).value)
  {
    hide Quotient, RoundsTo;
    Magnitudes(n, d);
    var q, r := Quotient(n, d), Remainder(n, d);
    Neighbours(q, d);
    SplitMultiple(n, d);
    if r == 0 {
      NoRemainderRounds(n, d, mode, q);
    } else if mode != Exact {
      NeighbourRounds(n, d, mode, q, q * d, r);
    }
  }

  lemma SplitMultiple(n: int, d: int)
    requires d != 0
    ensures var p, r := Quotient(n, d) * d, Remainder(n, d);
            && p + r == n && Abs(r) == Abs(n) % Abs(d) < Abs(d) && Abs(p) + Abs(r) == Abs(n)
  {
    hide Quotient;
    Magnitudes(n, d);
    var k, b := Abs(n) / Abs(d), Abs(d);
    NonNegative(k, b);
    SplitSigned(n, k * b, Abs(n) % b, Quotient(n, d) * d);
  }

  lemma NonNegative(a: nat, b: nat)
    ensures a * b >= 0
  {
  }

  lemma SplitSigned(n: int, whole: int, m: int, p: int)
    requires Abs(n) == whole + m && whole >= 0 && m >= 0 && p == if n < 0 then -whole else whole
    ensures Abs(p) + Abs(n - p) == Abs(n)
  {
  }

  /** Dividing never fails for another reason, and the result is rounded as the mode says, for
      every combination of signs. */
  lemma RoundedQuotientRounds(n: int, d: int, mode: Mode)
    ensures RoundedQuotient(n, d, mode) == Err(DivisionByZero) <==> d == 0
    ensures d != 0 ==> (RoundedQuotient(n, d, mode) == Err(RescaleRequired) <==> mode == Exact && n % d != 0)
    ensures RoundedQuotient(n, d, mode).Ok? ==> Rounds(n, d, mode, RoundedQuotient(n, d, mode).value)
  {
    if d != 0 {
      RoundedByMagnitude(n, d, mode);
      SameDivisibility(n, d);
    }
  }

  lemma SameDivisibility(n: int, d: int)
    requires d != 0
    ensures Abs(n) % Abs(d) == 0 <==> n % d == 0
  {
    if n % d == 0 {
      var k := n / d;
      assert n == d * k;
      Divides(Abs(n), Abs(d), Abs(k)) by { assert Abs(n) == Abs(k) * Abs(d) by { AbsProduct(k, d); Commute(d, k); } }
    }
    if Abs(n) % Abs(d) == 0 {
      Magnitudes(n, d);
      var q := Quotient(n, d);
      assert n == q * d;
      DividesAny(n, d, q);
    }
  }

  lemma AbsProduct(a: int, b: int)
    ensures Abs(a * b) == Abs(a) * Abs(b)
  {
    NegateProduct(a, b);
    NegateProduct(-a, b);
  }

  lemma Divides(n: nat, d: nat, k: nat)
    requires d > 0 && n == k * d
    ensures n % d == 0
  {
    DividesAny(n, d, k);
  }

  lemma DividesAny(n: int, d: int, k: int)
    requires d != 0 && n == k * d
    ensures n % d == 0
  {
    var q, r := n / d, n % d;
    assert n == d * q + r && 0 <= r < Abs(d);
    assert r == d * (k - q) by { Commute(d, q); Commute(d, k); assert d * (k - q) == d * k - d * q; }
    AbsProduct(d, k - q);
    if k != q { AtLeastOne(Abs(d), Abs(k - q)); }
  }

  lemma AtLeastOne(a: nat, b: nat)
    requires b >= 1
    ensures a * b >= a
  {
  }

  // ---- the specification is exact

  lemma SmallMultiple(d: int, a: int, b: int)
    requires d != 0 && a != b
    ensures Abs(a * d - b * d) >= Abs(d)
    ensures Abs(a - b) >= 2 ==> Abs(a * d - b * d) >= 2 * Abs(d)
  {
    assert a * d - b * d == (a - b) * d;
    AbsProduct(a - b, d);
    ScalesUp(Abs(a - b), Abs(d));
  }

  lemma ScalesUp(k: nat, b: nat)
    ensures k >= 1 ==> k * b >= b
    ensures k >= 2 ==> k * b >= 2 * b
  {
  }

  /** Each mode admits one quotient, so the meanings above leave no choice. */
  lemma RoundsUnique(n: int, d: int, mode: Mode, a: int, b: int)
    requires d != 0 && Rounds(n, d, mode, a) && Rounds(n, d, mode, b)
    ensures a == b
  {
    hide RoundsTo, Abs;
    if a != b { SmallMultiple(d, a, b); }
    MultipleSize(d, a);
    MultipleSize(d, b);
    Parity(a, b);
    OneApart(n, d, mode, a, a * d, b, b * d);
  }

  lemma MultipleSize(d: int, a: int)
    ensures a * d == 0 || Abs(a * d) >= Abs(d)
  {
    AbsProduct(a, d);
    ScalesUp(Abs(a), Abs(d));
  }

  lemma Parity(a: int, b: int)
    ensures a == b || Abs(a - b) >= 2 || a % 2 != b % 2
  {
  }

  lemma OneApart(n: int, d: int, mode: Mode, a: int, p: int, b: int, r: int)
    requires d != 0 && RoundsTo(n, d, mode, a, p) && RoundsTo(n, d, mode, b, r)
    requires (a != b ==> Abs(p - r) >= Abs(d)) && (a != b && Abs(a - b) >= 2 ==> Abs(p - r) >= 2 * Abs(d))
    requires (p == 0 || Abs(p) >= Abs(d)) && (r == 0 || Abs(r) >= Abs(d))
    ensures a == b
  {
    Parity(a, b);
  }

  lemma ScaledOrder(x: int, y: int, k: int)
    requires k > 0
    ensures (x <= y <==> x * k <= y * k) && (x < y <==> x * k < y * k)
  {
    if x < y { assert (y - x) * k > 0; } else if x > y { assert (x - y) * k > 0; }
  }

  /** Cancelling a common factor changes nothing. */
  lemma RoundsScales(n: int, d: int, mode: Mode, q: int, k: int)
    requires k > 0 && d != 0
    ensures Rounds(n, d, mode, q) <==> Rounds(n * k, d * k, mode, q)
  {
    var p := q * d;
    assert q * (d * k) == p * k;
    RoundsToScales(n, d, mode, q, p, k);
  }

  lemma RoundsToScales(n: int, d: int, mode: Mode, q: int, p: int, k: int)
    requires k > 0 && d != 0
    ensures d * k != 0 && (RoundsTo(n, d, mode, q, p) <==> RoundsTo(n * k, d * k, mode, q, p * k))
  {
    hide RoundsTo;
    ScaledOrder(0, d, k);
    ScaledOrder(d, 0, k);
    Directed(n, d, p, k);
    Distances(n, d, p, k);
    SameVerdict(n, d, p, n * k, d * k, p * k, mode, q);
  }

  /** Two triples that agree on every comparison a mode makes. */
  ghost predicate SameDirected(n: int, d: int, p: int, n': int, d': int, p': int) {
    && (p <= n <==> p' <= n') && (n <= p <==> n' <= p')
    && (n < p + d <==> n' < p' + d') && (n > p + d <==> n' > p' + d')
    && (n > p - d <==> n' > p' - d') && (n < p - d <==> n' < p' - d')
  }

  ghost predicate SameDistances(n: int, d: int, p: int, n': int, d': int, p': int) {
    && (Abs(p) + Abs(n - p) == Abs(n) <==> Abs(p') + Abs(n' - p') == Abs(n'))
    && (Abs(n - p) < Abs(d) <==> Abs(n' - p') < Abs(d'))
    && (2 * Abs(n - p) <= Abs(d) <==> 2 * Abs(n' - p') <= Abs(d'))
    && (2 * Abs(n - p) == Abs(d) <==> 2 * Abs(n' - p') == Abs(d'))
    && (Abs(p) > Abs(n) <==> Abs(p') > Abs(n')) && (Abs(p) < Abs(n) <==> Abs(p') < Abs(n'))
  }

  lemma Directed(n: int, d: int, p: int, k: int)
    requires k > 0
    ensures SameDirected(n, d, p, n * k, d * k, p * k)
  {
    assert (p + d) * k == p * k + d * k && (p - d) * k == p * k - d * k;
    ScaledOrder(p, n, k);
    ScaledOrder(n, p, k);
    ScaledOrder(n, p + d, k);
    ScaledOrder(p + d, n, k);
    ScaledOrder(n, p - d, k);
    ScaledOrder(p - d, n, k);
  }

  lemma Distances(n: int, d: int, p: int, k: int)
    requires k > 0
    ensures SameDistances(n, d, p, n * k, d * k, p * k)
  {
    assert n * k - p * k == (n - p) * k;
    AbsScales(n, k);
    AbsScales(p, k);
    AbsScales(d, k);
    AbsScales(n - p, k);
    ScaledMagnitudes(Abs(n), Abs(d), Abs(p), Abs(n - p), k);
  }

  lemma ScaledMagnitudes(n: nat, d: nat, p: nat, e: nat, k: int)
    requires k > 0
    ensures (p + e == n <==> p * k + e * k == n * k) && (e < d <==> e * k < d * k)
    ensures (2 * e <= d <==> 2 * (e * k) <= d * k) && (2 * e == d <==> 2 * (e * k) == d * k)
    ensures (p > n <==> p * k > n * k) && (p < n <==> p * k < n * k)
  {
    assert (p + e) * k == p * k + e * k && (2 * e) * k == 2 * (e * k);
    ScaledOrder(p + e, n, k);
    ScaledOrder(n, p + e, k);
    ScaledOrder(e, d, k);
    ScaledOrder(2 * e, d, k);
    ScaledOrder(d, 2 * e, k);
    ScaledOrder(n, p, k);
    ScaledOrder(p, n, k);
  }

  lemma SameVerdict(n: int, d: int, p: int, n': int, d': int, p': int, mode: Mode, q: int)
    requires (d > 0 <==> d' > 0) && d != 0 && d' != 0
    requires SameDirected(n, d, p, n', d', p') && SameDistances(n, d, p, n', d', p')
    ensures RoundsTo(n, d, mode, q, p) <==> RoundsTo(n', d', mode, q, p')
  {
    if mode == Exact { assert p == n <==> p' == n'; }
  }

  lemma AbsScales(x: int, k: int)
    requires k > 0
    ensures Abs(x * k) == Abs(x) * k
  {
    AbsProduct(x, k);
  }

  // ---- decimals

  function Made(coefficient: int, scale: int): Result<Decimal> {
    if scale < 0 || scale > MAX_SAFE_INTEGER then Err(InvalidArgument) else Ok(Decimal(coefficient, scale))
  }

  predicate ValidDecimal(x: Decimal) { 0 <= x.scale <= MAX_SAFE_INTEGER }

  method DecimalRescale(powers: PowerTable, x: Decimal, scale: int, mode: Mode) returns (r: Result<Decimal>)
    requires powers.Valid() && ValidDecimal(x)
    modifies powers
    ensures powers.Valid()
    ensures r == Err(InvalidArgument) <==> scale < 0 || scale > MAX_SAFE_INTEGER
    ensures r.Err? ==> r.error in {InvalidArgument, ResourceLimit, RescaleRequired}
    ensures r.Ok? ==> r.value.scale == scale >= 0
    ensures r.Ok? && scale >= x.scale ==> r.value.coefficient == x.coefficient * Pow10(scale - x.scale)
    ensures r.Ok? && scale < x.scale ==> Rounds(x.coefficient, Pow10(x.scale - scale), mode, r.value.coefficient)
    ensures 0 <= scale <= MAX_SAFE_INTEGER ==> (r == Err(ResourceLimit) <==> Abs(x.scale - scale) > MAX_POWER)
    ensures r == Err(RescaleRequired) <==>
              && 0 <= scale < x.scale && x.scale - scale <= MAX_POWER
              && mode == Exact && x.coefficient % Pow10(x.scale - scale) != 0
  {
    hide Rounds, RoundedQuotient, Pow10;
    if scale < 0 || scale > MAX_SAFE_INTEGER { return Err(InvalidArgument); }
    var power := powers.Lookup(if scale >= x.scale then scale - x.scale else x.scale - scale);
    if power.Err? { return Err(power.error); }
    if scale >= x.scale { return Made(x.coefficient * power.value, scale); }
    var q := RoundedQuotient(x.coefficient, power.value, mode);
    RoundedQuotientRounds(x.coefficient, power.value, mode);
    OnlyTheseErrors(x.coefficient, power.value, mode);
    if q.Err? { return Err(q.error); }
    return Made(q.value, scale);
  }

  lemma OnlyTheseErrors(n: int, d: int, mode: Mode)
    ensures RoundedQuotient(n, d, mode).Err? ==>
              RoundedQuotient(n, d, mode).error.DivisionByZero? || RoundedQuotient(n, d, mode).error.RescaleRequired?
  {
  }

  /** The quotient of two decimals, counted in units of the result's last place, is rounded as
      the mode says. */
  method DecimalDiv(powers: PowerTable, a: Decimal, b: Decimal, resultScale: int, mode: Mode)
    returns (r: Result<Decimal>)
    requires powers.Valid() && ValidDecimal(a) && ValidDecimal(b)
    modifies powers
    ensures powers.Valid()
    ensures r == Err(DivisionByZero) <==> b.coefficient == 0
    ensures r.Ok? ==> r.value.scale == resultScale >= 0
    ensures r.Ok? ==>
              Rounds(a.coefficient * Pow10(b.scale + resultScale), b.coefficient * Pow10(a.scale), mode,
                  r.value.coefficient)
    ensures r == Err(ResourceLimit) <==> b.coefficient != 0 && Abs(resultScale + b.scale - a.scale) > MAX_POWER
    ensures r == Err(RescaleRequired) <==>
              InRange(a, b, resultScale) && mode == Exact && !DividesExactly(a, b, resultScale)
    ensures r == Err(InvalidArgument) <==>
              && InRange(a, b, resultScale) && (resultScale < 0 || resultScale > MAX_SAFE_INTEGER)
              && (mode == Exact ==> DividesExactly(a, b, resultScale))
    ensures r.Err? ==> r.error in {DivisionByZero, ResourceLimit, RescaleRequired, InvalidArgument}
  {
    hide Rounds, RoundedQuotient, Pow10;
    if b.coefficient == 0 { return Err(DivisionByZero); }
    var exponent := resultScale + b.scale - a.scale;
    var power := powers.Lookup(if exponent >= 0 then exponent else -exponent);
    if power.Err? { return Err(power.error); }
    var numerator := if exponent >= 0 then a.coefficient * power.value else a.coefficient;
    var denominator := if exponent >= 0 then b.coefficient else b.coefficient * power.value;
    NotZero(b.coefficient, power.value);
    var q := RoundedQuotient(numerator, denominator, mode);
    RoundedQuotientRounds(numerator, denominator, mode);
    OnlyTheseErrors(numerator, denominator, mode);
    if q.Err? { return Err(q.error); }
    if resultScale >= 0 { CommonPower(a, b, resultScale, mode, q.value); }
    return Made(q.value, resultScale);
  }

  /** The divisor is not zero and the power of ten can be had. */
  predicate InRange(a: Decimal, b: Decimal, resultScale: int) {
    b.coefficient != 0 && Abs(resultScale + b.scale - a.scale) <= MAX_POWER
  }

  /** The quotient is a whole number of units of the result's last place. */
  predicate DividesExactly(a: Decimal, b: Decimal, resultScale: int)
    requires b.coefficient != 0
  {
    var e := resultScale + b.scale - a.scale;
    if e >= 0 then (a.coefficient * Pow10(e)) % b.coefficient == 0
    else NotZero(b.coefficient, Pow10(-e)); a.coefficient % (b.coefficient * Pow10(-e)) == 0
  }

  /** Cancelling powers of ten does not change whether the whole quotient is exact. */
  lemma DividesWhole(a: Decimal, b: Decimal, resultScale: nat)
    requires ValidDecimal(a) && ValidDecimal(b) && b.coefficient != 0
    ensures b.coefficient * Pow10(a.scale) != 0
    ensures DividesExactly(a, b, resultScale) <==>
              (a.coefficient * Pow10(b.scale + resultScale)) % (b.coefficient * Pow10(a.scale)) == 0
  {
    hide Pow10;
    NotZero(b.coefficient, Pow10(a.scale));
    var e := resultScale + b.scale - a.scale;
    if e >= 0 {
      Pow10Adds(e, a.scale);
      assert e + a.scale == b.scale + resultScale;
      DivisibleScales(a.coefficient * Pow10(e), b.coefficient, Pow10(a.scale));
      Regroup(a.coefficient, Pow10(e), Pow10(a.scale));
    } else {
      Pow10Adds(-e, b.scale + resultScale);
      assert -e + (b.scale + resultScale) == a.scale;
      NotZero(b.coefficient, Pow10(-e));
      DivisibleScales(a.coefficient, b.coefficient * Pow10(-e), Pow10(b.scale + resultScale));
      Regroup(b.coefficient, Pow10(-e), Pow10(b.scale + resultScale));
    }
  }

  lemma DivisibleScales(n: int, d: int, k: int)
    requires d != 0 && k >= 1
    ensures d * k != 0 && (n % d == 0 <==> (n * k) % (d * k) == 0)
  {
    NotZero(d, k);
    if n % d == 0 {
      var q := n / d;
      assert n == d * q;
      assert n * k == q * (d * k) by { Commute(d, q); Regroup(q, d, k); }
      DividesAny(n * k, d * k, q);
    }
    if (n * k) % (d * k) == 0 {
      var q := (n * k) / (d * k);
      assert n * k == (d * k) * q;
      assert (n - q * d) * k == 0 by { Commute(d * k, q); Regroup(q, d, k); Distribute(n, q * d, k); }
      if n != q * d { NotZero(n - q * d, k); }
      DividesAny(n, d, q);
    }
  }

  lemma Distribute(x: int, y: int, k: int)
    ensures (x - y) * k == x * k - y * k
  {
  }

  lemma NotZero(x: int, k: int)
    requires x != 0 && k >= 1
    ensures x * k != 0
  {
    AbsProduct(x, k);
    AtLeastOne(Abs(x), k);
  }

  /** The code cancels the powers of ten it can; the rounding is that of the whole quotient. */
  lemma CommonPower(a: Decimal, b: Decimal, resultScale: nat, mode: Mode, q: int)
    requires ValidDecimal(a) && ValidDecimal(b) && b.coefficient != 0
    requires var e := resultScale + b.scale - a.scale;
             if e >= 0 then Rounds(a.coefficient * Pow10(e), b.coefficient, mode, q)
             else Rounds(a.coefficient, b.coefficient * Pow10(-e), mode, q)
    ensures Rounds(a.coefficient * Pow10(b.scale + resultScale), b.coefficient * Pow10(a.scale), mode, q)
  {
    hide Rounds, Pow10;
    var e := resultScale + b.scale - a.scale;
    if e >= 0 {
      Pow10Adds(e, a.scale);
      assert e + a.scale == b.scale + resultScale;
      RoundsScales(a.coefficient * Pow10(e), b.coefficient, mode, q, Pow10(a.scale));
      Regroup(a.coefficient, Pow10(e), Pow10(a.scale));
    } else {
      Pow10Adds(-e, b.scale + resultScale);
      assert -e + (b.scale + resultScale) == a.scale;
      NotZero(b.coefficient, Pow10(-e));
      RoundsScales(a.coefficient, b.coefficient * Pow10(-e), mode, q, Pow10(b.scale + resultScale));
      Regroup(b.coefficient, Pow10(-e), Pow10(b.scale + resultScale));
    }
  }

  lemma Regroup(x: int, y: int, z: int)
    ensures (x * y) * z == x * (y * z)
  {
  }
}
