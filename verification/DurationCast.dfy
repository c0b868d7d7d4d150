/**
 Conversions between integer types and between integral durations that report an error
 instead of changing a value. Integer types are written out with their widths: a
 static_cast wraps, a division truncates toward zero, and no operation of the cast may
 leave the type that it is carried out in.
 */
module DurationCast {
  import opened Words

  /** An integer type as std::numeric_limits describes it: digits does not count the sign bit. */
  datatype IntType = IntType(signed: bool, digits: nat)
  {
    function Max(): int {
      Pow2(digits) - 1
    }

    function Min(): int {
      var size: int := Pow2(digits);
      if signed then -size else 0
    }

    predicate Has(n: int) {
      Min() <= n <= Max()
    }

    function Size(): nat {
      if signed then 2 * Pow2(digits) else Pow2(digits)
    }

    /** static_cast from an arbitrary integer. */
    function Cast(n: int): (r: int)
      ensures Has(r)
      ensures Has(n) ==> r == n
    {
      CastInRange(n);
      if signed then (n + Pow2(digits)) % Size() - Pow2(digits) else n % Size()
    }

    lemma CastInRange(n: int)
      ensures Has(n) ==> (if signed then (n + Pow2(digits)) % Size() - Pow2(digits) else n % Size()) == n
    {
      if Has(n) {
        DivUnique(if signed then n + Pow2(digits) else n, Size(), 0, if signed then n + Pow2(digits) else n);
      }
    }

    /** Arithmetic that must stay inside the type. */
    function Times(a: int, b: int): int
      requires Has(a) && Has(a * b)
    {
      a * b
    }
  }

  const I64 := IntType(true, 63)
  const U64 := IntType(false, 64)

  /** The types of the language: at most 64 bits wide. */
  predicate Standard(t: IntType) {
    0 < t.digits && t.digits <= if t.signed then 63 else 64
  }

  lemma WiderHasMore(a: IntType, b: IntType)
    requires a.digits <= b.digits
    ensures a.Max() <= b.Max()
    ensures a.signed ==> b.signed ==> b.Min() <= a.Min()
  {
    Pow2Monotone(a.digits, b.digits);
  }

  /** lossless_integral_conversion, with its three overloads as the branches. */
  method LosslessConversion(from: int, f: IntType, t: IntType) returns (r: int, ec: int)
    requires f.Has(from)
    ensures ec == 0 || ec == 1
    ensures ec == 0 <==> t.Has(from)
    ensures r == if ec == 0 then from else 0
  {
    ec := 0;
    if f == t {
      return from, ec;
    }
    if f.digits <= t.digits {
      WiderHasMore(f, t);
    } else {
      WiderHasMore(t, f);
    }
    if f.signed == t.signed {
      if f.digits > t.digits && (from < t.Min() || from > t.Max()) {
        return 0, 1;
      }
      return t.Cast(from), ec;
    }
    if f.signed && !t.signed {
      if from < 0 {
        return 0, 1;
      }
      if f.digits > t.digits && from > f.Cast(t.Max()) {
        return 0, 1;
      }
    }
    if !f.signed && t.signed && f.digits >= t.digits && from > f.Cast(t.Max()) {
      return 0, 1;
    }
    return t.Cast(from), ec;
  }

  // ---------------------------------------------------------------- duration casts

  /** Division as the language defines it: the quotient is rounded toward zero. */
  function TruncDiv(a: int, b: int): int
    requires b > 0
  {
    if a >= 0 then a / b else -((-a) / b)
  }

  /** q is x / d rounded toward zero: the remainder is smaller than d and does not point past zero. */
  predicate IsTruncation(q: int, x: int, d: int) {
    var r := x - q * d;
    if x >= 0 then 0 <= r < d else -d < r <= 0
  }

  lemma TruncDivIsTruncation(x: int, d: int)
    requires d > 0
    ensures IsTruncation(TruncDiv(x, d), x, d)
  {
  }

  lemma TruncationUnique(q: int, x: int, d: int)
    requires d > 0 && IsTruncation(q, x, d)
    ensures q == TruncDiv(x, d)
  {
    if x >= 0 {
      DivUnique(x, d, q, x - q * d);
    } else {
      DivUnique(-x, d, -q, -(x - q * d));
    }
  }

  /** std::common_type of two representations and std::intmax_t. */
  function Intermediate(f: IntType, t: IntType): (i: IntType)
    ensures i == I64 || i == U64
  {
    if f == U64 || t == U64 then U64 else I64
  }

  /** When the cast succeeds: every value it goes through is exact. */
  ghost predicate Castable(f: IntType, t: IntType, num: int, den: int, count: int)
    requires den > 0
  {
    var i := Intermediate(f, t);
    i.Has(count) && i.Has(count * num) && t.Has(TruncDiv(count * num, den))
  }

  lemma MaxQuotient(max: int, num: int, count: int)
    requires num > 0 && max >= 0
    ensures count > TruncDiv(max, num) <==> count * num > max
  {
    var q := max / num;
    if count > q {
      assert count * num >= (q + 1) * num;
    } else {
      assert count * num <= q * num;
    }
  }

  lemma MinQuotient(min: int, num: int, count: int)
    requires num > 0 && min <= 0
    ensures count < TruncDiv(min, num) <==> count * num < min
  {
    MaxQuotient(-min, num, -count);
  }

  /** Multiplies a count, after checking that the product stays in the type. */
  method Multiply(i: IntType, from: int, num: int) returns (count: int, ec: int)
    requires i.Has(from) && num > 0
    ensures ec == 0 || ec == 1
    ensures ec == 0 <==> i.Has(from * num)
    ensures count == if ec == 0 then from * num else 0
  {
    if num != 1 {
      var max1 := TruncDiv(i.Max(), num);
      MaxQuotient(i.Max(), num, from);
      if from > max1 {
        return 0, 1;
      }
      var min1 := TruncDiv(i.Min(), num);
      MinQuotient(i.Min(), num, from);
      if from < min1 {
        return 0, 1;
      }
      return i.Times(from, num), 0;
    }
    return from, 0;
  }

  /** The cast of a count by the reduced ratio num / den of the two periods. */
  method SafeDurationCast(from: int, f: IntType, t: IntType, num: int, den: int) returns (r: int, ec: int)
    requires Standard(f) && Standard(t) && f.Has(from)
    requires 0 < num && I64.Has(num) && 0 < den && I64.Has(den)
    ensures ec == 0 || ec == 1
    ensures ec == 0 <==> Castable(f, t, num, den, from)
    ensures ec == 0 ==> IsTruncation(r, from * num, den)
    ensures ec != 0 ==> r == 0
  {
    var i := Intermediate(f, t);
    var count;
    count, ec := LosslessConversion(from, f, i);
    if ec != 0 {
      return 0, ec;
    }
    count, ec := Multiply(i, count, num);
    if ec != 0 {
      return 0, ec;
    }
    TruncDivIsTruncation(count, den);
    QuotientStays(i, count, den);
    if den != 1 {
      count := TruncDiv(count, den);
    }
    r, ec := LosslessConversion(count, i, t);
  }

  lemma QuotientBounds(a: int, d: int, q: int, r: int)
    requires a >= 0 && a == d * q + r && 0 <= r < d
    ensures 0 <= q <= a
  {
    assert d * q == -d - d * (-1 - q);
    assert q < 0 ==> d * (-1 - q) >= 0;
    assert d * q == q + (d - 1) * q;
    assert q >= 0 ==> (d - 1) * q >= 0;
  }

  lemma DivShrinks(a: int, d: int)
    requires a >= 0 && d > 0
    ensures 0 <= a / d <= a
  {
    QuotientBounds(a, d, a / d, a % d);
  }

  lemma QuotientStays(i: IntType, x: int, den: int)
    requires den > 0 && i.Has(x)
    ensures i.Has(TruncDiv(x, den))
  {
    DivShrinks(if x >= 0 then x else -x, den);
  }

  // ---------------------------------------------------------------- what a cast means

  /** A successful cast is exact up to the part of one target tick that is cut off. */
  lemma CastError(q: int, x: int, den: int)
    requires den > 0 && IsTruncation(q, x, den)
    ensures -den < x - q * den < den
    ensures x >= 0 ==> q >= 0
    ensures x <= 0 ==> q <= 0
  {
  }

  /** Casting to a finer unit and back gives the count back, whatever the types. */
  lemma FinerAndBack(count: int, num: int, fine: int, back: int)
    requires num > 0
    requires IsTruncation(fine, count * num, 1) && IsTruncation(back, fine * 1, num)
    ensures back == count
  {
    assert fine == count * num;
    TruncationUnique(count, count * num, num);
    TruncationUnique(back, fine, num);
  }

  lemma TruncationMonotone(x: int, y: int, den: int, p: int, q: int)
    requires den > 0 && x <= y && IsTruncation(p, x, den) && IsTruncation(q, y, den)
    ensures p <= q
  {
    if p > q {
      var gap := p - q - 1;
      assert gap * den >= 0;
      assert p * den == q * den + den + gap * den;
      if x < 0 <= y {
        CastError(p, x, den);
        CastError(q, y, den);
      }
    }
  }

  /** A cast never reverses the order of two durations. */
  lemma CastMonotone(a: int, b: int, num: int, den: int, p: int, q: int)
    requires num > 0 && den > 0 && a <= b
    requires IsTruncation(p, a * num, den) && IsTruncation(q, b * num, den)
    ensures p <= q
  {
    assert b * num == a * num + (b - a) * num;
    assert (b - a) * num >= 0;
    TruncationMonotone(a * num, b * num, den, p, q);
  }

  /** Without a change of unit the cast succeeds exactly for the values of the target type. */
  lemma SameUnitCastable(f: IntType, t: IntType, count: int)
    requires Standard(f) && Standard(t) && f.Has(count)
    ensures Castable(f, t, 1, 1, count) <==> t.Has(count)
  {
    var i := Intermediate(f, t);
    if i.signed {
      if f.signed { WiderHasMore(f, I64); } else { WiderHasMore(f, IntType(false, 63)); }
    } else {
      WiderHasMore(f, U64);
    }
  }
}
