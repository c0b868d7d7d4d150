/**
 The fields of a duration of |count| * num / den seconds, as numbers: hours, minutes, seconds
 and milliseconds, and the conditions under which the checked casts let them be computed.
 */
module ChronoFields {
  import opened Words
  import opened DurationCast

  /** The unsigned type that the formatter counts in: at least as wide as unsigned int. */
  function Counter(rep: IntType): (t: IntType)
    ensures Standard(rep) ==> Standard(t)
  {
    var width := rep.digits + if rep.signed then 1 else 0;
    IntType(false, if width < 32 then 32 else width)
  }

  function Abs(n: int): (a: nat)
    ensures a == n || a == -n
  {
    if n < 0 then -n else n
  }

  /** What std::chrono::duration and std::ratio guarantee, for a count of at least a byte. */
  predicate Period(rep: IntType, num: int, den: int) {
    Standard(rep) && rep.digits >= 7 && 0 < num && I64.Has(num) && 0 < den && I64.Has(den)
  }

  /** It has as many values as the representation, and at least those of 32 bits. */
  lemma CounterRange(rep: IntType, n: int)
    requires Standard(rep)
    ensures Counter(rep).Has(n) <==> 0 <= n && (n < rep.Size() || n < 0x1_0000_0000)
  {
    Pow2Widths();
    var width := rep.digits + if rep.signed then 1 else 0;
    assert Pow2(width) == rep.Size();
    if width < 32 {
      Pow2Monotone(width, 32);
    } else {
      Pow2Monotone(32, width);
    }
    hide Pow2;
  }

  lemma AbsFits(rep: IntType, count: int)
    requires Standard(rep) && rep.Has(count)
    ensures Counter(rep).Has(Abs(count))
  {
    Pow2Monotone(if rep.signed then rep.digits + 1 else rep.digits, Counter(rep).digits);
  }

  // ---------------------------------------------------------------- clock arithmetic

  /** x / den seconds, split as a clock shows them. */
  function Hour(x: nat, den: nat): (h: nat)
    requires den > 0
    ensures h < 24
  {
    x / den / 3600 % 24
  }

  function Hour12(x: nat, den: nat): (h: nat)
    requires den > 0
    ensures 1 <= h <= 12
  {
    var h := x / den / 3600 % 12;
    if h == 0 then 12 else h
  }

  function Minute(x: nat, den: nat): (m: nat)
    requires den > 0
    ensures m < 60
  {
    x / den / 60 % 60
  }

  function Second(x: nat, den: nat): (s: nat)
    requires den > 0
    ensures s < 60
  {
    x / den % 60
  }

  /** The fraction of a second in milliseconds, rounded down. */
  function Millis(x: nat, den: nat): (ms: nat)
    requires den > 0
  {
    1000 * (x % den) / den
  }

  lemma MillisBelowSecond(x: nat, den: nat)
    requires den > 0
    ensures Millis(x, den) < 1000
  {
    var p := 1000 * (x % den);
    var q := p / den;
    assert p == den * q + p % den;
    assert q >= 1000 ==> den * q >= den * 1000;
  }

  /** The whole seconds and the milliseconds behind them are the whole milliseconds of the duration. */
  lemma WholeMillis(x: nat, den: nat)
    requires den > 0
    ensures x / den * 1000 + Millis(x, den) == 1000 * x / den
  {
    var s, r := x / den, x % den;
    MillisBelowSecond(x, den);
    var ms := Millis(x, den);
    assert x == den * s + r;
    assert 1000 * x == den * (1000 * s + ms) + (1000 * r) % den by {
      assert 1000 * r == den * ms + (1000 * r) % den;
      assert 1000 * (den * s) == den * (1000 * s);
      assert den * (1000 * s + ms) == den * (1000 * s) + den * ms;
    }
    DivUnique(1000 * x, den, 1000 * s + ms, (1000 * r) % den);
  }

  /** The printed seconds and milliseconds are the whole milliseconds of the duration, modulo a minute. */
  lemma SecondsAndMillis(x: nat, den: nat)
    requires den > 0
    ensures Second(x, den) * 1000 + Millis(x, den) == (1000 * x / den) % 60000
  {
    WholeMillis(x, den);
    MillisBelowSecond(x, den);
    var s, ms := x / den, Millis(x, den);
    hide Millis;
    DivUnique(1000 * s + ms, 60000, s / 60, 1000 * (s % 60) + ms);
  }

  /** The printed hour, minute and second are the whole seconds of the duration, modulo a day. */
  lemma HourMinuteSecond(x: nat, den: nat)
    requires den > 0
    ensures Hour(x, den) * 3600 + Minute(x, den) * 60 + Second(x, den) == (x / den) % 86400
  {
    var s := x / den;
    assert s / 3600 == s / 60 / 60;
  }

  /** The twelve-hour clock shows the same hour. */
  lemma Hour12Agrees(x: nat, den: nat)
    requires den > 0
    ensures Hour12(x, den) % 12 == Hour(x, den) % 12
  {
    var t := x / den / 3600;
    assert t == 12 * (2 * (t / 24) + t % 24 / 12) + t % 24 % 12;
    DivUnique(t, 12, 2 * (t / 24) + t % 24 / 12, t % 24 % 12);
  }

  // ---------------------------------------------------------------- greatest common divisor

  function Gcd(a: nat, b: nat): (g: nat)
    requires a > 0
    ensures g > 0
    decreases b
  {
    if b == 0 then a else Gcd(b, a % b)
  }

  /** The greatest common divisor divides both numbers. */
  lemma {:induction false} GcdDivides(a: nat, b: nat)
    requires a > 0
    ensures a % Gcd(a, b) == 0 && b % Gcd(a, b) == 0
    decreases b
  {
    if b > 0 {
      GcdDivides(b, a % b);
      var g := Gcd(b, a % b);
      MultipleOf(b, g);
      MultipleOf(a % b, g);
      assert a == b * (a / b) + a % b;
      CombinedMultiple(g, b / g, a % b / g, a / b);
      DivUnique(a, g, b / g * (a / b) + a % b / g, 0);
    }
  }

  lemma MultipleOf(a: nat, g: nat)
    requires g > 0 && a % g == 0
    ensures a == g * (a / g)
  {
  }

  lemma CombinedMultiple(g: int, p: int, q: int, k: int)
    ensures (g * p) * k + g * q == g * (p * k + q)
  {
    assert g * (p * k) == (g * p) * k;
  }

  /** A quotient does not change when a common factor is cancelled. */
  lemma CancelFactor(a: nat, b: nat, g: nat)
    requires b > 0 && g > 0
    ensures (a * g) / (b * g) == a / b
  {
    var q, r := a / b, a % b;
    assert a * g == (b * g) * q + r * g by {
      assert a == b * q + r;
      assert (b * q + r) * g == b * q * g + r * g;
      assert (b * g) * q == b * q * g;
    }
    assert 0 <= r * g < b * g by {
      assert (b - r) * g > 0;
    }
    DivUnique(a * g, b * g, q, r * g);
  }

  // ---------------------------------------------------------------- milliseconds

  /** common_type of a representation and that of std::chrono::seconds. */
  function CommonRep(rep: IntType): IntType {
    Intermediate(rep, I64)
  }

  /** What is left of x / den seconds in ticks, without the whole seconds; it has the sign of x. */
  function Rest(x: int, den: nat): (r: int)
    requires den > 0
  {
    if x >= 0 then x % den else -(-x % den)
  }

  /** The fraction of a second in milliseconds, rounded toward zero. */
  function SignedMillis(x: int, den: nat): int
    requires den > 0
  {
    if x >= 0 then Millis(x, den) else 0 - Millis(-x, den)
  }

  /** When every cast behind the milliseconds of x / den seconds succeeds. */
  predicate MillisFit(rep: IntType, den: nat, x: int)
    requires den > 0
  {
    && CommonRep(rep).Has(x)
    && I64.Has(TruncDiv(x, den))
    && CommonRep(rep).Has(Rest(x, den) * (1000 / Gcd(1000, den)))
    && rep.Has(SignedMillis(x, den))
  }

  /** Above and below zero, they are what is left of the milliseconds behind the whole seconds. */
  lemma SignedWholeMillis(x: int, den: nat)
    requires den > 0
    ensures TruncDiv(x, den) * 1000 + SignedMillis(x, den) == TruncDiv(1000 * x, den)
  {
    WholeMillis(if x >= 0 then x else -x, den);
    hide Millis;
  }
}
