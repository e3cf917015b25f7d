/** Rescaling decimals in 64-bit arithmetic, and the printers of money with a fixed number of
    fractional digits. */
module Money {
  import opened Bytes
  import opened Codec
  import opened Decimals

  /** Go's integer division truncates toward zero. */
  function Quotient(a: int, b: nat): int
    requires b > 0
  {
    if a >= 0 then a / b else -(-a / b)
  }

  function Remainder(a: int, b: nat): int
    requires b > 0
  {
    if a >= 0 then a % b else -(-a % b)
  }

  lemma QuotientFits(u: i64, b: nat)
    requires b > 0
    ensures MIN_INT64 <= Quotient(u, b) <= -(MIN_INT64 + 1)
  {
    Shrinks(AbsValue(u), b);
  }

  lemma Shrinks(n: nat, b: nat)
    requires b > 0
    ensures 0 <= n / b <= n
  {
    if n / b > n {
      MoreTimes(n, n / b - n - 1, b);
    }
    AtLeast(n, b);
  }

  lemma AtLeast(n: nat, b: nat)
    requires b > 0
    ensures n <= n * b
  {
  }

  /** The units of the same amount at another scale: wrapped when they grow, truncated toward
      zero when they shrink. */
  function Rescaled(units: i64, from: nat, to: nat): i64 {
    if from <= to then Wrap64(units * TenTo(to - from))
    else
      QuotientFits(units, TenTo(from - to));
      Quotient(units, TenTo(from - to))
  }

  lemma WrapTen(x: int)
    ensures Wrap64(Wrap64(x) * 10) == Wrap64(x * 10)
  {
    var w := Wrap64(x);
    var k := (x - MIN_INT64) / TWO64;
    assert x == w + k * TWO64;
    WrapAdd(w * 10, k * 10);
  }

  lemma WrapAdd(x: int, k: int)
    ensures Wrap64(x + k * TWO64) == Wrap64(x)
  {
    var y := x - MIN_INT64;
    QuotientUnique(y + k * TWO64, TWO64, y / TWO64 + k, y % TWO64);
  }

  lemma QuotientTen(u: int, p: nat)
    requires p > 0
    ensures Quotient(Quotient(u, p), 10) == Quotient(u, 10 * p)
  {
    DivideTwice(AbsValue(u), p);
    NegativeQuotient(u, p);
  }

  lemma NegativeQuotient(u: int, p: nat)
    requires p > 0
    ensures Quotient(u, p) == if u >= 0 then u / p else -(AbsValue(u) / p)
  {
  }

  lemma DivideTwice(n: nat, p: nat)
    requires p > 0
    ensures n / p / 10 == n / (10 * p) && n / p >= 0
  {
    var q, r := n / p, n % p;
    var q', r' := q / 10, q % 10;
    Recompose(n, p, q, r, q', r');
    QuotientUnique(n, 10 * p, q', r' * p + r);
  }

  lemma Recompose(n: nat, p: nat, q: nat, r: nat, q': nat, r': nat)
    requires n == q * p + r && q == 10 * q' + r' && r < p && r' < 10
    ensures n == q' * (10 * p) + (r' * p + r) && 0 <= r' * p + r < 10 * p
  {
    assert (10 * q' + r') * p == 10 * q' * p + r' * p;
    assert q' * (10 * p) == 10 * q' * p;
    assert r' * p <= 9 * p;
  }

  /** One more step of a rescaling loop. */
  lemma RescaleStep(units: i64, from: nat, k: nat)
    ensures Wrap64(Rescaled(units, from, from + k) * 10) == Rescaled(units, from, from + k + 1)
    ensures k < from ==> Quotient(Rescaled(units, from, from - k), 10) == Rescaled(units, from, from - k - 1)
    ensures Rescaled(units, from, from) == units
  {
    hide Wrap64, Quotient;
    WrapTen(units * TenTo(k));
    Regroup(units, TenTo(k), 10);
    assert TenTo(k + 1) == TenTo(k) * 10;
    SameUnits(units);
    if k < from {
      QuotientTen(units, TenTo(k));
      if k == 0 {
        assert TenTo(0) == 1;
      }
    }
  }

  lemma SameUnits(u: i64)
    ensures Wrap64(u * TenTo(0)) == u && Quotient(u, 1) == u
  {
    assert TenTo(0) == 1;
  }

  method RescaleUnits(units: i64, from: byte, to: byte) returns (r: i64)
    ensures r == Rescaled(units, from, to)
  {
    hide Rescaled, Wrap64, Quotient;
    r := units;
    var at: int := from;
    RescaleStep(units, from, 0);
    while at < to
      invariant from <= at && (at <= to || at == from) && r == Rescaled(units, from, at)
    {
      RescaleStep(units, from, at - from);
      r := Wrap64(r * 10);
      at := at + 1;
    }
    while at > to
      invariant at >= to && (at == to || at <= from) && r == Rescaled(units, from, at)
    {
      RescaleStep(units, from, from - at);
      QuotientFits(r, 10);
      r := Quotient(r, 10);
      at := at - 1;
    }
  }

  // ---- money with a fixed number of digits ----

  function PowerOfTen(n: nat): i64 {
    if n == 0 then 1 else Wrap64(10 * PowerOfTen(n - 1))
  }

  lemma {:induction false} PowerFits(n: nat)
    requires n <= 18
    ensures PowerOfTen(n) == TenTo(n)
  {
    hide Wrap64, TenTo;
    if n > 0 {
      PowerFits(n - 1);
      TenToStep(n);
      TenToGrows(n, 18 - n);
      PowersOfTen();
      WrapFits(10 * PowerOfTen(n - 1));
    } else {
      TenToStep(1);
    }
  }

  lemma TenToGrows(n: nat, k: nat)
    ensures TenTo(n) <= TenTo(n + k)
  {
    TenToAdd(n, k);
    AtLeast(TenTo(n), TenTo(k));
  }

  lemma WrapTimes(u: int, x: int)
    ensures Wrap64(u * Wrap64(x)) == Wrap64(u * x)
  {
    var w := Wrap64(x);
    var k := (x - MIN_INT64) / TWO64;
    assert x == w + k * TWO64;
    assert u * x == u * w + u * (k * TWO64) && u * (k * TWO64) == (u * k) * TWO64;
    WrapAdd(u * w, u * k);
  }

  lemma {:induction false} PowerWraps(n: nat)
    ensures PowerOfTen(n) == Wrap64(TenTo(n))
  {
    hide Wrap64;
    if n == 0 {
      WrapFits(1);
    } else {
      PowerWraps(n - 1);
      WrapTimes(10, TenTo(n - 1));
    }
  }

  function FiveTo(n: nat): nat { if n == 0 then 1 else 5 * FiveTo(n - 1) }

  lemma {:induction false} TenIsTwoFive(n: nat)
    ensures TenTo(n) == Pow2(n) * FiveTo(n) && FiveTo(n) % 2 == 1
  {
    hide TenTo, Pow2, FiveTo;
    FiveStep(n);
    if n == 0 {
      TenToStep(1);
      Pow2Step(0);
    } else {
      TenIsTwoFive(n - 1);
      TenToStep(n);
      Pow2Step(n - 1);
      TwoFive(Pow2(n - 1), FiveTo(n - 1));
    }
  }

  lemma FiveStep(n: nat)
    ensures FiveTo(0) == 1 && (n > 0 ==> FiveTo(n) == 5 * FiveTo(n - 1))
    ensures n > 0 && FiveTo(n - 1) % 2 == 1 ==> FiveTo(n) % 2 == 1
  {
    if n > 0 {
      var f := FiveTo(n - 1);
      assert FiveTo(n) == 5 * f;
      hide *;
      FiveOdd(f);
    }
  }

  lemma FiveOdd(f: nat)
    ensures f % 2 == 1 ==> (5 * f) % 2 == 1
  {
    if f % 2 == 1 {
      assert 5 * f == 2 * (5 * (f / 2) + 2) + 1;
    }
  }

  lemma TwoFive(a: nat, b: nat)
    ensures 10 * (a * b) == (2 * a) * (5 * b)
  {
    Regroup(2 * a, 5, b);
    Regroup(10, a, b);
  }

  lemma WordSize()
    ensures Pow2(64) == TWO64
  {
    PowersOfTwo();
    Pow2Sum(32, 32);
  }

  lemma WrapZero(x: int)
    ensures Wrap64(x) == 0 <==> x % TWO64 == 0
  {
  }

  /** The wrapped power of ten vanishes from the exponent 64 on. */
  lemma PowerVanishes(n: nat)
    ensures PowerOfTen(n) == 0 <==> n >= 64
  {
    hide Wrap64, TenTo, PowerOfTen, FiveTo;
    PowerWraps(n);
    WrapZero(TenTo(n));
    TenIsTwoFive(n);
    WordSize();
    if n >= 64 {
      Pow2Sum(64, n - 64);
      assert Pow2(64) * Pow2(n - 64) * FiveTo(n) == TWO64 * (Pow2(n - 64) * FiveTo(n));
      QuotientUnique(TenTo(n), TWO64, Pow2(n - 64) * FiveTo(n), 0);
    } else if TenTo(n) % TWO64 == 0 {
      var q: nat := TenTo(n) / TWO64;
      Pow2Sum(n, 64 - n);
      Pow2Step(63 - n);
      var half := Pow2(63 - n);
      Halved(Pow2(n), FiveTo(n), half, q);
    }
  }

  lemma Halved(p: nat, f: nat, half: nat, q: nat)
    requires p >= 1 && p * f == p * (2 * half) * q
    ensures f == 2 * (half * q)
  {
    Regroup(p, 2 * half, q);
    Regroup(2, half, q);
    CancelFactor(f, 2 * (half * q), p);
  }

  method Pow10(n: nat) returns (v: i64)
    ensures v == PowerOfTen(n)
  {
    v := 1;
    for i := 0 to n
      invariant v == PowerOfTen(i)
    {
      v := Wrap64(v * 10);
    }
  }

  /** rescaleMoneyUnits: digit by digit to two fractional digits. */
  method RescaleMoneyUnits(d: Decimal) returns (r: i64)
    ensures r == Rescaled(d.units, d.scale, 2)
  {
    hide Rescaled, Wrap64, Quotient;
    r := d.units;
    RescaleStep(d.units, d.scale, 0);
    if d.scale > 2 {
      for i := 2 to d.scale
        invariant r == Rescaled(d.units, d.scale, d.scale - (i - 2))
      {
        RescaleStep(d.units, d.scale, i - 2);
        QuotientFits(r, 10);
        r := Quotient(r, 10);
      }
    }
    if d.scale < 2 {
      for i := d.scale to 2
        invariant r == Rescaled(d.units, d.scale, i)
      {
        RescaleStep(d.units, d.scale, i - d.scale);
        r := Wrap64(r * 10);
      }
    }
  }

  method Fixed2(d: Decimal) returns (text: string)
    ensures text == Fixed(Decimal(Rescaled(d.units, d.scale, 2), 2))
  {
    var units := RescaleMoneyUnits(d);
    text := FixedDecimal(Decimal(units, 2));
  }

  method Fixed2Decimal(d: Decimal) returns (text: string)
    ensures text == Fixed(Decimal(Rescaled(d.units, d.scale, 2), 2))
  {
    hide Fixed;
    if d.scale == 2 {
      RescaleStep(d.units, 2, 0);
      text := FixedDecimal(d);
    } else {
      var units := RescaleMoneyUnits(d);
      text := FixedDecimal(Decimal(units, 2));
    }
  }

  /** Division truncating toward zero, by a divisor of either sign. */
  function QuotientBy(a: i64, b: i64): i64
    requires b != 0
  {
    Wrap64(if b > 0 then Quotient(a, b) else -Quotient(a, -(b as int)))
  }

  function RemainderBy(a: i64, b: i64): i64
    requires b != 0
  {
    RemainderFits(a, AbsValue(b));
    Remainder(a, AbsValue(b))
  }

  /** One multiplication or division by the wrapped power of ten; dividing by zero panics. */
  function AtOnce(units: i64, from: nat, to: nat): Option<i64> {
    if from <= to then Some(Wrap64(units * PowerOfTen(to - from)))
    else if PowerOfTen(from - to) == 0 then None
    else Some(QuotientBy(units, PowerOfTen(from - to)))
  }

  /** The gaps of scale at which the power of ten fits, or the amount is below what it has
      wrapped to. */
  predicate Representable(units: i64, gap: int) {
    gap <= 18 || (gap < 64 && AbsValue(units) < AbsValue(PowerOfTen(gap)))
  }

  lemma QuotientBySmall(a: i64, b: i64)
    requires b != 0
    ensures QuotientBy(a, b) == 0 <==> AbsValue(a) < AbsValue(b)
  {
    hide Quotient, Wrap64;
    var q := Quotient(a, AbsValue(b));
    QuotientBounds(a, AbsValue(b));
    QuotientFits(a, AbsValue(b));
    WrapFits(q);
    NotBeyond(q);
    ZeroExactly(AbsValue(a), AbsValue(b), AbsValue(q));
  }

  lemma ZeroExactly(n: nat, p: nat, q: nat)
    requires p > 0 && q * p <= n < q * p + p
    ensures q == 0 <==> n < p
  {
    if q > 0 {
      AtLeast(p, q);
    }
  }

  /** A quotient and its negative are zero together, also where the negative wraps. */
  lemma NotBeyond(q: int)
    requires MIN_INT64 <= q <= -(MIN_INT64 + 1)
    ensures Wrap64(-q) == 0 <==> q == 0
  {
  }

  lemma BeyondWord(units: i64, gap: nat)
    requires gap >= 19
    ensures AbsValue(units) < TenTo(gap)
  {
    PowersOfTen();
    TenToGrows(19, gap - 19);
  }

  lemma ZeroQuotient(units: i64, p: nat)
    requires p > 0 && AbsValue(units) < p
    ensures Quotient(units, p) == 0
  {
    QuotientUnique(AbsValue(units), p, 0, AbsValue(units));
    NegativeQuotient(units, p);
  }

  lemma QuotientByPositive(a: i64, b: i64)
    requires b > 0
    ensures QuotientBy(a, b) == Quotient(a, b)
  {
    QuotientFits(a, b);
    WrapFits(Quotient(a, b));
  }

  /** Rescaling at once panics exactly for gaps of 64 digits and more, and is rescaling digit by
      digit exactly when the amount is representable. */
  lemma AtOnceExact(units: i64, from: nat, to: nat)
    ensures AtOnce(units, from, to) == None <==> from >= to + 64
    ensures AtOnce(units, from, to) == Some(Rescaled(units, from, to)) <==> Representable(units, from - to)
  {
    hide Wrap64, Quotient, QuotientBy, TenTo, PowerOfTen;
    if from <= to {
      PowerWraps(to - from);
      WrapTimes(units, TenTo(to - from));
    } else {
      var gap := from - to;
      PowerVanishes(gap);
      if gap <= 18 {
        PowerFits(gap);
        QuotientByPositive(units, PowerOfTen(gap));
      } else if gap < 64 {
        BeyondWord(units, gap);
        ZeroQuotient(units, TenTo(gap));
        QuotientBySmall(units, PowerOfTen(gap));
      }
    }
  }

  method RescaleAtOnce(units: i64, from: nat, to: nat) returns (r: Option<i64>)
    ensures r == AtOnce(units, from, to)
  {
    hide Wrap64, QuotientBy;
    if from < to {
      var p := Pow10(to - from);
      return Some(Wrap64(units * p));
    }
    if from > to {
      var p := Pow10(from - to);
      return if p == 0 then None else Some(QuotientBy(units, p));
    }
    SameUnits(units);
    r := Some(units);
  }

  /** The text of fixedMoney, unless it panics. */
  function MoneyText(d: Decimal, scale: byte): Option<string> {
    var units :- AtOnce(d.units, d.scale, scale);
    Some(Fixed(Decimal(units, scale)))
  }

  method FixedMoney(d: Decimal, scale: byte) returns (text: Option<string>)
    ensures text == MoneyText(d, scale)
    ensures Representable(d.units, d.scale - scale) ==> text == Some(Fixed(Decimal(Rescaled(d.units, d.scale, scale), scale)))
  {
    hide Fixed, AtOnce, Rescaled, Representable;
    AtOnceExact(d.units, d.scale, scale);
    var units :- RescaleAtOnce(d.units, d.scale, scale);
    var t := FixedDecimal(Decimal(units, scale));
    text := Some(t);
  }

  /** The quotient and the remainder printed apart, the remainder after at most one zero. */
  function HundredthsText(units: i64): string {
    var neg := units < 0;
    var u := if neg then Wrap64(-(units as int)) else units;
    QuotientFits(u, 100);
    var frac := Remainder(u, 100);
    Signed(neg, IntText(Quotient(u, 100)) + "." + (if frac < 10 then "0" else "") + IntText(frac))
  }

  /** The units of moneyHundredths, whose power of ten is a floating-point number: beyond 10^18
      its conversion is left to the implementation and given here as `converted`. */
  function HundredthsUnits(d: Decimal, converted: i64): Option<i64> {
    if d.scale <= 20 then Some(Rescaled(d.units, d.scale, 2))
    else if converted == 0 then None
    else Some(QuotientBy(d.units, converted))
  }

  method MoneyHundredths(d: Decimal, converted: i64) returns (text: Option<string>)
    ensures text == match HundredthsUnits(d, converted) case None => None case Some(u) => Some(HundredthsText(u))
    ensures HundredthsUnits(d, converted).Some? && HundredthsUnits(d, converted) != Some(MIN_INT64) ==>
              text == Some(Fixed(Decimal(HundredthsUnits(d, converted).value, 2)))
  {
    hide Rescaled, IntText, Fixed, AtOnce, QuotientBy;
    var units := d.units;
    if d.scale > 20 {
      if converted == 0 {
        return None;
      }
      units := QuotientBy(d.units, converted);
    } else {
      AtOnceExact(d.units, d.scale, 2);
      var r := RescaleAtOnce(d.units, d.scale, 2);
      units := r.value;
    }
    assert HundredthsUnits(d, converted) == Some(units);
    ghost var all := units;
    if units != MIN_INT64 {
      HundredthsAgree(units);
    }
    var neg := units < 0;
    if neg {
      units := Wrap64(-(units as int));
    }
    QuotientFits(units, 100);
    var whole, frac := Quotient(units, 100), Remainder(units, 100);
    var t := IntText(whole) + ".";
    if frac < 10 {
      t := t + "0";
    }
    t := t + IntText(frac);
    HundredthsShape(whole, frac);
    if neg {
      t := "-" + t;
    }
    assert t == HundredthsText(all);
    text := Some(t);
  }

  lemma HundredthsShape(whole: i64, frac: i64)
    ensures IntText(whole) + "." + (if frac < 10 then "0" else "") + IntText(frac)
         == if frac < 10 then IntText(whole) + "." + "0" + IntText(frac) else IntText(whole) + "." + IntText(frac)
  {
    assert IntText(whole) + "." + "" == IntText(whole) + ".";
  }

  /** Quotient and remainder by the wrapped power of ten, the remainder padded to the scale;
      dividing by zero panics. */
  function SpecText(units: i64, scale: nat): Option<string> {
    var p := PowerOfTen(scale);
    if p == 0 then None
    else
      var u := if units < 0 then Wrap64(-(units as int)) else units;
      var whole := IntText(QuotientBy(u, p));
      Some(Signed(units < 0, if scale > 0 then whole + "." + Pad(IntText(RemainderBy(u, p)), scale) else whole))
  }

  /** The text of specDecimalFixed, unless it panics. */
  function SpecMoney(d: Decimal, scale: byte): Option<string> {
    var units :- AtOnce(d.units, d.scale, scale);
    SpecText(units, scale)
  }

  lemma RemainderFits(u: i64, b: nat)
    requires b > 0
    ensures MIN_INT64 <= Remainder(u, b) <= -(MIN_INT64 + 1)
  {
    RemainderShrinks(AbsValue(u), b);
  }

  lemma RemainderShrinks(n: nat, b: nat)
    requires b > 0
    ensures 0 <= n % b <= n
  {
    assert n < b ==> n % b == n by {
      if n < b {
        QuotientUnique(n, b, 0, n);
      }
    }
  }

  method SpecDecimalFixed(d: Decimal, scale: byte) returns (text: Option<string>)
    ensures text == SpecMoney(d, scale)
    ensures Representable(d.units, d.scale - scale) && Rescaled(d.units, d.scale, scale) != MIN_INT64
            && Representable(Rescaled(d.units, d.scale, scale), scale) ==>
              text == Some(Fixed(Decimal(Rescaled(d.units, d.scale, scale), scale)))
  {
    hide Rescaled, IntText, Pad, QuotientBy, RemainderBy, PowerOfTen, Wrap64, AtOnce, Fixed, Representable;
    AtOnceExact(d.units, d.scale, scale);
    var units :- RescaleAtOnce(d.units, d.scale, scale);
    if units != MIN_INT64 {
      SpecAgrees(units, scale);
    }
    var neg := units < 0;
    if neg {
      units := Wrap64(-(units as int));
    }
    var p := Pow10(scale);
    if p == 0 {
      return None;
    }
    var t := IntText(QuotientBy(units, p));
    var frac := IntText(RemainderBy(units, p));
    if scale > 0 {
      frac := PadLoop(frac, scale - 1);
      t := t + "." + frac;
    }
    if neg {
      t := "-" + t;
    }
    text := Some(t);
  }

  // ---- all printers agree ----

  lemma DivBounds(n: nat, p: nat)
    requires p > 0
    ensures n / p * p <= n < n / p * p + p
  {
  }

  lemma QuotientBounds(u: int, p: nat)
    requires p > 0
    ensures var q := Quotient(u, p);
            && AbsValue(q) * p <= AbsValue(u) < AbsValue(q) * p + p
            && (q > 0 ==> u > 0) && (q < 0 ==> u < 0)
  {
    DivBounds(AbsValue(u), p);
    NegativeQuotient(u, p);
    DivideTwice(AbsValue(u), p);
  }

  predicate Fits(x: int) { MIN_INT64 <= x <= -(MIN_INT64 + 1) }

  lemma WrapFits(x: int)
    ensures Fits(x) ==> Wrap64(x) == x
  {
  }

  /** Rescaling to fewer digits truncates toward zero; to more digits it is exact when the
      product fits. */
  lemma RescaledTruncates(u: i64, from: nat, to: nat)
    ensures from > to ==>
              var r, p := Rescaled(u, from, to), TenTo(from - to);
              AbsValue(r) * p <= AbsValue(u) < AbsValue(r) * p + p && (r > 0 ==> u > 0) && (r < 0 ==> u < 0)
    ensures from <= to && Fits(u * TenTo(to - from)) ==> Rescaled(u, from, to) == u * TenTo(to - from)
  {
    hide Quotient, Wrap64, Fits;
    if from > to {
      QuotientBounds(u, TenTo(from - to));
    } else {
      WrapFits(u * TenTo(to - from));
    }
  }

  /** Scaling up and down again restores the units exactly when the product fits. */
  lemma RescaleRoundTrip(u: i64, from: nat, to: nat)
    requires from < to
    ensures Rescaled(Rescaled(u, from, to), to, from) == u <==> Fits(u * TenTo(to - from))
  {
    hide Wrap64, Quotient, TenTo;
    var p := TenTo(to - from);
    var w := Wrap64(u * p);
    WrapFits(u * p);
    QuotientBounds(w, p);
    Negated(u, p);
    if Fits(u * p) {
      ExactQuotient(u, p);
    }
  }

  lemma ExactQuotient(u: int, p: nat)
    requires p > 0
    ensures Quotient(u * p, p) == u
  {
    QuotientUnique(AbsValue(u) * p, p, AbsValue(u), 0);
    Negated(u, p);
    SameSign(u, p, u, p);
  }

  lemma DigitSplit(n: nat, p: nat)
    requires p > 0
    ensures n / (10 * p) == n / 10 / p && n % (10 * p) / 10 == n / 10 % p && n % (10 * p) % 10 == n % 10
  {
    var m, d := n / 10, n % 10;
    var q, t := m / p, m % p;
    assert m == p * q + t;
    Recombine(n, p, q, t, d);
    QuotientUnique(n, 10 * p, q, 10 * t + d);
  }

  lemma Recombine(n: nat, p: nat, q: nat, t: nat, d: nat)
    requires n == 10 * (p * q + t) + d && t < p && d < 10
    ensures n == 10 * p * q + (10 * t + d) && 10 * t + d < 10 * p
  {
    Regroup(10, p, q);
  }

  lemma {:induction false} ShortText(r: nat, s: nat)
    requires s >= 1 && r < TenTo(s)
    ensures |NatText(r)| <= s
  {
    TenToStep(s);
    if r >= 10 && s > 1 {
      ShortText(r / 10, s - 1);
    }
  }

  function Upper(n: nat, s: nat): nat {
    Shrinks(n, TenTo(s));
    n / TenTo(s)
  }

  function Lower(n: nat, s: nat): nat { n % TenTo(s) }

  lemma HalvesStep(n: nat, s: nat)
    requires s >= 1
    ensures Upper(n, s) == Upper(n / 10, s - 1) && Lower(n, s) / 10 == Lower(n / 10, s - 1)
    ensures Lower(n, s) % 10 == n % 10 && Lower(n, s) < TenTo(s)
    ensures s == 1 ==> Upper(n, s) == n / 10 && Lower(n, s) == n % 10
  {
    TenToStep(s);
    DigitSplit(n, TenTo(s - 1));
  }

  /** The digits of n are those of its quotient followed by those of its remainder. */
  lemma {:induction false} SplitDigits(n: nat, s: nat)
    requires s >= 1
    ensures |Pad(NatText(Lower(n, s)), s)| == s
    ensures Pad(NatText(n), s + 1) == NatText(Upper(n, s)) + Pad(NatText(Lower(n, s)), s)
  {
    hide NatText, Pad, TenTo, Upper, Lower;
    PadLast(n, s + 1);
    HalvesStep(n, s);
    var r := Lower(n, s);
    ShortText(r, s);
    PadTo(NatText(r), s);
    if s == 1 {
      PadOne(n / 10);
      PadOne(r);
      OneDigit(r);
    } else {
      SplitDigits(n / 10, s - 1);
      PadLast(r, s);
      assert NatText(Upper(n, s)) + Pad(NatText(r / 10), s - 1) + [DigitChar(n % 10)]
          == NatText(Upper(n, s)) + (Pad(NatText(r / 10), s - 1) + [DigitChar(r % 10)]);
    }
  }

  lemma TenToStep(s: nat)
    requires s >= 1
    ensures TenTo(s) == 10 * TenTo(s - 1) && TenTo(0) == 1
  {
  }

  lemma PadTo(s: string, width: nat)
    requires |s| <= width
    ensures |Pad(s, width)| == width
  {
  }

  lemma PadOne(n: nat)
    ensures Pad(NatText(n), 1) == NatText(n)
  {
    NatTextValue(n);
  }

  lemma OneDigit(r: nat)
    requires r < 10
    ensures NatText(r) == [DigitChar(r)]
  {
  }

  lemma PlainSplit(n: nat, s: nat)
    requires s >= 1
    ensures Plain(n, s) == NatText(Upper(n, s)) + "." + Pad(NatText(Lower(n, s)), s)
  {
    hide NatText, Pad, TenTo, Upper, Lower;
    SplitDigits(n, s);
    PadLength(NatText(n), s + 1);
    var whole, frac := NatText(Upper(n, s)), Pad(NatText(Lower(n, s)), s);
    assert (whole + frac)[..|whole|] == whole && (whole + frac)[|whole|..] == frac;
  }

  /** specDecimalFixed prints like fixedDecimal exactly when the amount is representable at its
      scale. */
  lemma SpecAgrees(u: i64, s: byte)
    requires u != MIN_INT64
    ensures SpecText(u, s) == Some(Fixed(Decimal(u, s))) <==> Representable(u, s)
  {
    hide SpecText, Fixed, PowerOfTen;
    PowerVanishes(s);
    if s <= 18 {
      SpecFits(u, s);
    } else if s < 64 {
      if AbsValue(u) < AbsValue(PowerOfTen(s)) {
        SpecBelow(u, s);
      } else {
        SpecBeyond(u, s);
      }
    } else {
      SpecPanics(u, s);
    }
  }

  lemma SpecPanics(u: i64, s: byte)
    requires PowerOfTen(s) == 0
    ensures SpecText(u, s) == None
  {
  }

  lemma SpecFits(u: i64, s: byte)
    requires u != MIN_INT64 && s <= 18
    ensures SpecText(u, s) == Some(Fixed(Decimal(u, s)))
  {
    hide NatText, Pad, TenTo, Point, QuotientBy, PowerOfTen;
    FixedPlain(Decimal(u, s));
    PowerFits(s);
    QuotientByPositive(AbsValue(u), PowerOfTen(s));
    if s >= 1 {
      PlainSplit(AbsValue(u), s);
    } else {
      TenToStep(1);
      Whole(AbsValue(u));
    }
  }

  lemma SpecBelow(u: i64, s: byte)
    requires u != MIN_INT64 && s >= 19 && AbsValue(u) < AbsValue(PowerOfTen(s))
    ensures SpecText(u, s) == Some(Fixed(Decimal(u, s)))
  {
    hide NatText, Pad, TenTo, Plain, Fixed, QuotientBy, PowerOfTen, Upper, Lower;
    FixedPlain(Decimal(u, s));
    var n := AbsValue(u);
    PlainSplit(n, s);
    BeyondWord(u, s);
    BelowPower(n, TenTo(s), s);
    QuotientBySmall(n, PowerOfTen(s));
    SmallRemainder(n, PowerOfTen(s));
  }

  lemma BelowPower(n: nat, p: nat, s: nat)
    requires p == TenTo(s) && n < p
    ensures Upper(n, s) == 0 && Lower(n, s) == n
  {
    QuotientUnique(n, p, 0, n);
  }

  lemma SmallRemainder(n: i64, b: i64)
    requires b != 0 && 0 <= n < AbsValue(b)
    ensures RemainderBy(n, b) == n
  {
    QuotientUnique(n, AbsValue(b), 0, n);
  }

  /** The whole part of an amount that is too large for the wrapped power is not zero. */
  lemma SpecBeyond(u: i64, s: byte)
    requires u != MIN_INT64 && s >= 19 && PowerOfTen(s) != 0 && AbsValue(u) >= AbsValue(PowerOfTen(s))
    ensures SpecText(u, s) != Some(Fixed(Decimal(u, s)))
  {
    hide NatText, Pad, TenTo, Plain, Fixed, QuotientBy, PowerOfTen, Upper, Lower, Cut, IntText;
    FixedPlain(Decimal(u, s));
    var n := AbsValue(u);
    PlainSplit(n, s);
    BeyondWord(u, s);
    BelowPower(n, TenTo(s), s);
    QuotientBySmall(n, PowerOfTen(s));
    var q := QuotientBy(n, PowerOfTen(s));
    WholeText(q);
    WholeText(0);
    var a, b := Pad(IntText(RemainderBy(n, PowerOfTen(s))), s), Pad(NatText(n), s);
    DotAt(IntText(q), a);
    DotAt(IntText(0), b);
    SignKept(u < 0, IntText(q) + "." + a, IntText(0) + "." + b);
  }

  lemma SignKept(neg: bool, a: string, b: string)
    ensures Signed(neg, a) == Signed(neg, b) ==> a == b
  {
    assert ("-" + a)[1..] == a && ("-" + b)[1..] == b;
  }

  lemma WholeText(q: i64)
    ensures '.' !in IntText(q) && IntText(0) == NatText(0)
    ensures q != 0 ==> IntText(q) != IntText(0)
  {
    hide NatText, TextNat;
    NatTextValue(AbsValue(q));
    NatTextValue(0);
    DigitsHaveNoDot(NatText(AbsValue(q)));
    assert q < 0 ==> IntText(q)[0] == '-' && !IsDigit('-');
  }

  lemma Whole(n: nat)
    ensures n / 1 == n
  {
  }

  lemma HundredthsAgree(u: i64)
    requires u != MIN_INT64
    ensures HundredthsText(u) == Fixed(Decimal(u, 2))
  {
    hide NatText, Pad, Plain, Fixed, TenTo, Upper, Lower;
    FixedPlain(Decimal(u, 2));
    PlainSplit(AbsValue(u), 2);
    Hundredths(AbsValue(u));
    var r := AbsValue(u) % 100;
    TwoDigits(r);
    Zeroed(NatText(AbsValue(u) / 100), r);
  }

  lemma Hundredths(n: nat)
    ensures Upper(n, 2) == n / 100 && Lower(n, 2) == n % 100
  {
    PowersOfTen();
  }

  lemma TwoDigits(r: nat)
    requires r < 100
    ensures Pad(NatText(r), 2) == (if r < 10 then "0" else "") + NatText(r)
  {
    if r < 10 {
      OneDigit(r);
      assert Zeros(1) == "0";
    } else {
      PowersOfTen();
      NatTextLength(r, 1);
    }
  }

  lemma Zeroed(whole: string, r: nat)
    ensures whole + "." + (if r < 10 then "0" else "") + NatText(r) == whole + "." + ((if r < 10 then "0" else "") + NatText(r))
  {
  }

  lemma LeastEnds()
    ensures var fixed := Fixed(Decimal(MIN_INT64, 2)); |fixed| > 2 && fixed[|fixed| - 2] == '0'
  {
    hide NatText, Fixed;
    FixedLeast(2);
    LeastText();
    var n := NatText(-MIN_INT64);
    var text := "-" + n;
    assert Pad(text, 3) == text;
    var body := Point(text, 2);
    assert body[|body| - 2] == text[18] == n[17] == '0';
  }

  lemma HundredthsOfLeast()
    ensures HundredthsText(MIN_INT64) != Fixed(Decimal(MIN_INT64, 2))
  {
    hide NatText, Fixed;
    OneDigit(8);
    LeastEnds();
    var a := HundredthsText(MIN_INT64);
    assert IntText(Remainder(MIN_INT64, 100)) == "-8";
    assert a[|a| - 2] == '-';
  }

  lemma SpecOfLeast()
    ensures SpecText(MIN_INT64, 2) != Some(Fixed(Decimal(MIN_INT64, 2)))
  {
    hide NatText;
    LeastEnds();
    OneDigit(8);
    PowersOfTen();
    PowerFits(2);
    var a := SpecText(MIN_INT64, 2).value;
    assert RemainderBy(MIN_INT64, 100) == -8 && IntText(-8) == "-8" && Pad("-8", 2) == "-8";
    assert a[|a| - 2] == '-';
  }

  /** Where each of the five two-digit money printers prints the amount truncated toward zero,
      which reads back as its units: the two that divide digit by digit always do, by their
      contracts; the others exactly where the power of ten fits or exceeds the amount, and where
      they split the number only if the units are not the least 64-bit integer. */
  lemma MoneyPrintersAgree(d: Decimal, converted: i64)
    ensures var r := Rescaled(d.units, d.scale, 2);
            var text := Fixed(Decimal(r, 2));
            && ParseDecimal(text) == Some(Decimal(r, 2))
            && (MoneyText(d, 2) == Some(text) <==> Representable(d.units, d.scale - 2))
            && (SpecMoney(d, 2) == Some(text) <==> Representable(d.units, d.scale - 2) && r != MIN_INT64)
            && (d.scale <= 20 ==> (HundredthsText(r) == text <==> r != MIN_INT64))
            && (d.scale > 20 ==> (HundredthsUnits(d, converted) == Some(r) <==> AbsValue(d.units) < AbsValue(converted)))
  {
    hide Rescaled, Fixed, HundredthsText, SpecText, ParseDecimal, AtOnce, PowerOfTen, QuotientBy;
    var r := Rescaled(d.units, d.scale, 2);
    FixedRoundTrip(Decimal(r, 2));
    AtOnceExact(d.units, d.scale, 2);
    var units := AtOnce(d.units, d.scale, 2);
    if units.Some? {
      FixedRoundTrip(Decimal(units.value, 2));
      SpecParts(units.value);
      NeverLeast(d.units, d.scale, 2);
    }
    if r == MIN_INT64 {
      HundredthsOfLeast();
    } else {
      HundredthsAgree(r);
    }
    if d.scale > 20 {
      NothingLeft(d);
      if converted != 0 {
        QuotientBySmall(d.units, converted);
      }
    }
  }

  lemma {:induction false} PowerEven(n: nat)
    requires n > 0
    ensures PowerOfTen(n) % 2 == 0
  {
    PowerStep(PowerOfTen(n - 1));
  }

  lemma PowerStep(x: i64)
    ensures Wrap64(10 * x) % 2 == 0
  {
    var y := 10 * x - MIN_INT64;
    assert y == TWO64 * (y / TWO64) + y % TWO64;
    EvenRest(5 * x, y / TWO64, Wrap64(10 * x));
  }

  lemma EvenRest(half: int, turns: int, rest: int)
    requires 2 * half == TWO64 * turns + rest
    ensures rest % 2 == 0
  {
    var r := half - 0x8000_0000_0000_0000 * turns;
    assert rest == r + r;
  }

  /** A quotient by a power of ten is never the least integer. */
  lemma NeverLeast(units: i64, from: nat, to: nat)
    ensures from > to && AtOnce(units, from, to).Some? ==> AtOnce(units, from, to) != Some(MIN_INT64)
  {
    hide PowerOfTen, Quotient, Wrap64;
    if from > to && PowerOfTen(from - to) != 0 {
      var p := PowerOfTen(from - to);
      PowerEven(from - to);
      var q := Quotient(units, AbsValue(p));
      QuotientBounds(units, AbsValue(p));
      HalfAtMost(AbsValue(q), AbsValue(p), AbsValue(units));
      WrapFits(q);
      WrapFits(-q);
    }
  }

  lemma HalfAtMost(q: nat, p: nat, n: nat)
    requires p >= 2 && q * p <= n
    ensures 2 * q <= n
  {
    AtLeast(q, p - 1);
    assert q * p == q * (p - 1) + q;
  }

  /** What specDecimalFixed prints reads back as the units it printed, or as nothing. */
  lemma SpecParts(u: i64)
    ensures SpecText(u, 2) == Some(Fixed(Decimal(u, 2))) <==> u != MIN_INT64
    ensures u != MIN_INT64 ==> SpecText(u, 2).Some? && ParseDecimal(SpecText(u, 2).value) == Some(Decimal(u, 2))
  {
    hide SpecText, Fixed, ParseDecimal;
    if u == MIN_INT64 {
      SpecOfLeast();
    } else {
      SpecAgrees(u, 2);
      FixedRoundTrip(Decimal(u, 2));
    }
  }

  lemma NothingLeft(d: Decimal)
    requires d.scale > 20
    ensures Rescaled(d.units, d.scale, 2) == 0
  {
    BeyondWord(d.units, d.scale - 2);
    ZeroQuotient(d.units, TenTo(d.scale - 2));
  }
}
