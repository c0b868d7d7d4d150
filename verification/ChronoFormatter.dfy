/**
 The writer for chrono format events. It counts in an unsigned type so that the lowest count has
 an absolute value, and keeps a flag for a minus sign that is still to be written. The output is
 a list of tokens; locale-dependent text and the unit stay abstract.
 */
module ChronoFormatter {
  import opened Words
  import opened DurationCast
  import opened ChronoFields
  import opened ChronoFormat
  import opened Decimals

  datatype Token =
    | Sign
    | Text(text: string)
    | Number(value: nat, width: nat)
    | Value(value: nat)
    | Unit
    | Localized(letter: char, alternative: bool, hour: nat, minute: nat, second: nat)

  const INT_MAX := 0x7fff_ffff

  /** An integral duration of count ticks of num / den seconds. */
  datatype Duration = Duration(rep: IntType, num: nat, den: nat, count: int)
  {
    predicate Valid() {
      Period(rep, num, den) && rep.Has(count)
    }

    /** |count| * num, so that the duration is X() / den seconds long. */
    function X(): nat {
      Abs(count) * num
    }
  }

  // ---------------------------------------------------------------- specification

  /** A slice of text, an escape, and the tokens that a field stands for, without any sign. */
  function Rendered(d: Duration, e: Event): (tokens: seq<Token>)
    requires d.den > 0
  {
    var h, h12, m, s := Hour(d.X(), d.den), Hour12(d.X(), d.den), Minute(d.X(), d.den), Second(d.X(), d.den);
    match e
    case Raw(text) => [Text(text)]
    case Escape(c) => [Text(if c == 'n' then "\n" else if c == 't' then "\t" else "%")]
    case Field('H', alternative) => if alternative then [Localized('H', true, h, 0, 0)] else [Number(h, 2)]
    case Field('I', alternative) => if alternative then [Localized('I', true, h12, 0, 0)] else [Number(h12, 2)]
    case Field('M', alternative) => if alternative then [Localized('M', true, 0, m, 0)] else [Number(m, 2)]
    case Field('S', alternative) =>
      var ms := Millis(d.X(), d.den);
      if alternative then [Localized('S', true, 0, 0, s)]
      else if ms == 0 then [Number(s, 2)]
      else [Number(s, 2), Text("."), Number(ms, 3)]
    case Field('R', _) => [Number(h, 2), Text(":"), Number(m, 2)]
    case Field('T', _) => [Number(h, 2), Text(":"), Number(m, 2), Text(":"), Number(s, 2)]
    case Field('r', _) => [Localized('r', false, h, m, s)]
    case Field('p', _) => [Localized('p', false, h, m, s)]
    case Field('Q', _) => [Value(Abs(d.count))]
    case Field('q', _) => [Unit]
    case Field(_, _) => []
  }

  function AllRendered(d: Duration, events: seq<Event>): seq<Token>
    requires d.den > 0
  {
    if events == [] then []
    else AllRendered(d, events[..|events| - 1]) + Rendered(d, events[|events| - 1])
  }

  /** Only %S computes milliseconds and converts the count back to its own type. */
  predicate Throws(d: Duration, e: Event)
    requires d.den > 0
  {
    e == Field('S', false) && !(d.rep.Has(Abs(d.count)) && MillisFit(d.rep, d.den, d.X()))
  }

  /** Whether a token is written by a field that writes a pending sign. */
  predicate Signed(t: Token) {
    t.Number? || t.Value?
  }

  /** Where the first signed token stands. */
  function FirstSigned(tokens: seq<Token>): (i: nat)
    ensures i <= |tokens|
    ensures i < |tokens| ==> Signed(tokens[i])
    ensures forall k :: 0 <= k < i ==> !Signed(tokens[k])
  {
    if tokens == [] || Signed(tokens[0]) then 0 else 1 + FirstSigned(tokens[1..])
  }

  /** A minus sign directly before the first signed token; nothing without such a token. */
  function WithSign(negative: bool, tokens: seq<Token>): seq<Token> {
    var i := FirstSigned(tokens);
    if negative && i < |tokens| then tokens[..i] + [Sign] + tokens[i..] else tokens
  }

  function SignCount(tokens: seq<Token>): nat {
    multiset(tokens)[Sign]
  }

  // ---------------------------------------------------------------- signs

  lemma FirstSignedIs(tokens: seq<Token>, i: nat)
    requires i <= |tokens| && (i < |tokens| ==> Signed(tokens[i])) && forall k :: 0 <= k < i ==> !Signed(tokens[k])
    ensures FirstSigned(tokens) == i
  {
  }

  /** Appending a token behind the place of the sign. */
  lemma InsertThenAppend(tokens: seq<Token>, i: nat, t: Token)
    requires i <= |tokens|
    ensures (tokens + [t])[..i] + [Sign] + (tokens + [t])[i..] == tokens[..i] + [Sign] + tokens[i..] + [t]
  {
  }

  lemma SignPlain(negative: bool, tokens: seq<Token>, t: Token)
    requires !Signed(t)
    ensures WithSign(negative, tokens + [t]) == WithSign(negative, tokens) + [t]
    ensures FirstSigned(tokens) == |tokens| <==> FirstSigned(tokens + [t]) == |tokens + [t]|
  {
    hide FirstSigned;
    var i := FirstSigned(tokens);
    if i < |tokens| {
      FirstSignedIs(tokens + [t], i);
      InsertThenAppend(tokens, i, t);
    } else {
      FirstSignedIs(tokens + [t], |tokens| + 1);
    }
  }

  lemma SignField(negative: bool, tokens: seq<Token>, t: Token)
    requires Signed(t)
    ensures FirstSigned(tokens + [t]) < |tokens + [t]|
    ensures WithSign(negative, tokens + [t])
         == WithSign(negative, tokens) + if negative && FirstSigned(tokens) == |tokens| then [Sign, t] else [t]
  {
    hide FirstSigned;
    var i := FirstSigned(tokens);
    FirstSignedIs(tokens + [t], i);
    InsertThenAppend(tokens, i, t);
    if i == |tokens| {
      assert tokens[..i] + [Sign] + tokens[i..] + [t] == tokens + [Sign, t];
    }
  }

  lemma {:induction false} RenderedUnsigned(d: Duration, events: seq<Event>)
    requires d.den > 0
    ensures Sign !in AllRendered(d, events)
  {
    if events != [] {
      RenderedUnsigned(d, events[..|events| - 1]);
    }
  }

  /** Over any events at most one sign is written: exactly for a negative count with a signed field. */
  lemma AtMostOneSign(d: Duration, events: seq<Event>)
    requires d.den > 0
    ensures var plain := AllRendered(d, events);
      SignCount(WithSign(d.count < 0, plain)) == if d.count < 0 && FirstSigned(plain) < |plain| then 1 else 0
  {
    RenderedUnsigned(d, events);
    hide AllRendered;
    NewSign(AllRendered(d, events), FirstSigned(AllRendered(d, events)));
  }

  lemma NewSign(tokens: seq<Token>, i: nat)
    requires Sign !in tokens && i <= |tokens|
    ensures SignCount(tokens) == 0 && SignCount(tokens[..i] + [Sign] + tokens[i..]) == 1
  {
    assert tokens == tokens[..i] + tokens[i..];
  }

  // ---------------------------------------------------------------- what the fields show

  /** %S shows the milliseconds of the duration modulo a minute, for every sign of the count. */
  lemma SecondShowsMilliseconds(d: Duration)
    requires d.den > 0
    ensures var t := Rendered(d, Field('S', false));
      && t[0].Number? && t[0].width == 2
      && (|t| == 1 || (|t| == 3 && t[1] == Text(".") && t[2].Number? && t[2].width == 3 && 0 < t[2].value < 1000))
      && t[0].value * 1000 + (if |t| == 1 then 0 else t[2].value) == (1000 * d.X() / d.den) % 60000
  {
    SecondsAndMillis(d.X(), d.den);
    MillisBelowSecond(d.X(), d.den);
  }

  /** %T shows the seconds of the duration modulo a day. */
  lemma IsoTimeShowsSeconds(d: Duration)
    requires d.den > 0
    ensures var t := Rendered(d, Field('T', false));
      && |t| == 5 && t[0].Number? && t[2].Number? && t[4].Number?
      && t[0].value * 3600 + t[2].value * 60 + t[4].value == (d.X() / d.den) % 86400
  {
    HourMinuteSecond(d.X(), d.den);
  }

  /** The count is converted back for %S, which fails for the lowest count and for no other. */
  lemma OnlyLowestHasNoAbsolute(d: Duration)
    requires d.Valid()
    ensures d.rep.Has(Abs(d.count)) <==> !(d.rep.signed && d.count == d.rep.Min())
    ensures d.rep.signed && d.count == d.rep.Min() ==> Throws(d, Field('S', false))
  {
  }

  /** As text, a number field is padded with zeros to its width. */
  function TextOf(t: Token): string
    requires t.Number?
  {
    Padded(t.value, t.width)
  }

  /** The text of %S is two digits, or two digits, a point and three digits, and reads back. */
  lemma SecondReadsBack(d: Duration)
    requires d.den > 0
    ensures var t := Rendered(d, Field('S', false));
      && t[0].Number? && |TextOf(t[0])| == 2 && NumberOf(TextOf(t[0])) == Second(d.X(), d.den)
      && (|t| == 3 ==> t[2].Number? && |TextOf(t[2])| == 3 && NumberOf(TextOf(t[2])) == Millis(d.X(), d.den))
      && (|t| != 3 ==> Millis(d.X(), d.den) == 0)
  {
    MillisBelowSecond(d.X(), d.den);
    PaddedReadsBack(Second(d.X(), d.den), 2);
    PaddedReadsBack(Millis(d.X(), d.den), 3);
    PaddedLength(Second(d.X(), d.den), 2);
    PaddedLength(Millis(d.X(), d.den), 3);
    hide Padded, NumberOf;
  }

  // ---------------------------------------------------------------- the writer

  class ChronoFormatter {
    const duration: Duration
    var out: seq<Token>
    var val: int
    var s: int
    var negative: bool
    /** Construction has not thrown. */
    var ready: bool

    /** plain is the output without its sign. */
    ghost var plain: seq<Token>

    ghost predicate Valid()
      reads this
    {
      && duration.Valid()
      && ready
      && val == Abs(duration.count)
      && s == duration.X() / duration.den
      && out == WithSign(duration.count < 0, plain)
      && (negative <==> duration.count < 0 && FirstSigned(plain) == |plain|)
    }

    constructor (d: Duration)
      requires d.Valid()
      ensures duration == d && plain == []
      ensures ready <==> Castable(Counter(d.rep), Counter(d.rep), d.num, d.den, Abs(d.count))
      ensures ready ==> Valid()
    {
      var counter := Counter(d.rep);
      var absolute := counter.Cast(d.count);
      if d.count < 0 {
        absolute := counter.Cast(0 - absolute);
      }
      AbsoluteValue(d.rep, d.count);
      AbsFits(d.rep, d.count);
      duration, out, negative, val, plain := d, [], d.count < 0, absolute, [];
      var seconds, ec := SafeDurationCast(absolute, counter, counter, d.num, d.den);
      s, ready := seconds, ec == 0;
      if ec == 0 {
        TruncationUnique(seconds, absolute * d.num, d.den);
      }
    }

    method WriteSign()
      requires Valid()
      modifies `out, `negative
      ensures out == old(out) + if old(negative) then [Sign] else []
      ensures !negative
    {
      if negative {
        out := out + [Sign];
        negative := false;
      }
    }

    /** Zero-padded decimal output; the value must be a non-negative int. */
    method Write(value: int, width: nat)
      requires Valid() && 0 <= value <= INT_MAX
      modifies `out, `negative, `plain
      ensures Valid() && plain == old(plain) + [Number(value, width)]
    {
      SignField(duration.count < 0, plain, Number(value, width));
      WriteSign();
      out := out + [Number(value, width)];
      plain := plain + [Number(value, width)];
    }

    /** Output that does not go through the sign. */
    method Put(t: Token)
      requires Valid() && !Signed(t)
      modifies `out, `plain
      ensures Valid() && plain == old(plain) + [t]
    {
      SignPlain(duration.count < 0, plain, t);
      out := out + [t];
      plain := plain + [t];
    }

    method OnDurationValue()
      requires Valid()
      modifies `out, `negative, `plain
      ensures Valid() && plain == old(plain) + [Value(Abs(duration.count))]
    {
      SignField(duration.count < 0, plain, Value(val));
      WriteSign();
      out := out + [Value(val)];
      plain := plain + [Value(val)];
    }

    function HourField(): (h: int)
      requires Valid()
      reads this
      ensures h == Hour(duration.X(), duration.den)
    {
      SmallFits(duration.rep);
      duration.rep.Cast(s / 3600 % 24)
    }

    function Hour12Field(): (h: int)
      requires Valid()
      reads this
      ensures h == Hour12(duration.X(), duration.den)
    {
      SmallFits(duration.rep);
      var h := duration.rep.Cast(s / 3600 % 12);
      if h <= 0 then 12 else h
    }

    function MinuteField(): (m: int)
      requires Valid()
      reads this
      ensures m == Minute(duration.X(), duration.den)
    {
      SmallFits(duration.rep);
      duration.rep.Cast(s / 60 % 60)
    }

    function SecondField(): (sec: int)
      requires Valid()
      reads this
      ensures sec == Second(duration.X(), duration.den)
    {
      SmallFits(duration.rep);
      duration.rep.Cast(s % 60)
    }

    method On24HourTime()
      requires Valid()
      modifies `out, `negative, `plain
      ensures Valid() && plain == old(plain) + Rendered(duration, Field('R', false))
    {
      Write(HourField(), 2);
      Put(Text(":"));
      Write(MinuteField(), 2);
    }

    method OnIsoTime()
      requires Valid()
      modifies `out, `negative, `plain
      ensures Valid() && plain == old(plain) + Rendered(duration, Field('T', false))
    {
      On24HourTime();
      Put(Text(":"));
      Write(SecondField(), 2);
    }

    /** %S: the seconds, and the milliseconds behind a point unless they are zero. */
    method OnSecond() returns (ok: bool)
      requires Valid()
      modifies `out, `negative, `plain
      ensures Valid()
      ensures ok <==> !Throws(duration, Field('S', false))
      ensures plain == old(plain) +
                       if ok then Rendered(duration, Field('S', false))
                       else [Number(Second(duration.X(), duration.den), 2)]
    {
      Write(SecondField(), 2);
      MillisBelowSecond(duration.X(), duration.den);
      hide Valid, Counter, MillisFit, Castable, Millis, Second, IntType.Has, Standard, IsTruncation;
      var rep := duration.rep;
      AbsFits(rep, duration.count);
      ThousandFits();
      HasBelow(I64, 1, 1000);
      SameUnitCastable(Counter(rep), rep, val);
      var count, ec := SafeDurationCast(val, Counter(rep), rep, 1, 1);
      if ec != 0 {
        return false;
      }
      var ms;
      ms, ec := GetMilliseconds(rep, duration.num, duration.den, count, duration.X());
      if ec != 0 {
        return false;
      }
      if ms != 0 {
        Put(Text("."));
        Write(ms, 3);
      }
      return true;
    }

    method OnField(letter: char, alternative: bool) returns (ok: bool)
      requires Valid()
      modifies `out, `negative, `plain
      ensures Valid()
      ensures ok <==> !Throws(duration, Field(letter, alternative))
      ensures ok ==> plain == old(plain) + Rendered(duration, Field(letter, alternative))
    {
      var h, m, sec := HourField(), MinuteField(), SecondField();
      match letter {
        case 'H' => if alternative { Put(Localized('H', true, h, 0, 0)); } else { Write(h, 2); }
        case 'I' =>
          if alternative { Put(Localized('I', true, Hour12Field(), 0, 0)); } else { Write(Hour12Field(), 2); }
        case 'M' => if alternative { Put(Localized('M', true, 0, m, 0)); } else { Write(m, 2); }
        case 'S' =>
          if alternative {
            Put(Localized('S', true, 0, 0, sec));
          } else {
            ok := OnSecond();
            return ok;
          }
        case 'R' => On24HourTime();
        case 'T' => OnIsoTime();
        case 'r' => Put(Localized('r', false, h, m, sec));
        case 'p' => Put(Localized('p', false, h, m, sec));
        case 'Q' => OnDurationValue();
        case 'q' => Put(Unit);
        case _ =>
      }
      return true;
    }

    method OnEvent(e: Event) returns (ok: bool)
      requires Valid()
      modifies `out, `negative, `plain
      ensures Valid()
      ensures ok <==> !Throws(duration, e)
      ensures ok ==> plain == old(plain) + Rendered(duration, e)
    {
      match e {
        case Raw(text) => Put(Text(text));
        case Escape(c) => Put(Text(if c == 'n' then "\n" else if c == 't' then "\t" else "%"));
        case Field(letter, alternative) =>
          ok := OnField(letter, alternative);
          return ok;
      }
      return true;
    }

    /** Events in order, until one throws: the output is their tokens with at most one sign. */
    method Format(events: seq<Event>) returns (ok: bool)
      requires Valid() && plain == []
      modifies `out, `negative, `plain
      ensures Valid()
      ensures ok <==> forall k :: 0 <= k < |events| ==> !Throws(duration, events[k])
      ensures ok ==> out == WithSign(duration.count < 0, AllRendered(duration, events))
    {
      hide Rendered, Throws, FirstSigned, WithSign;
      for k := 0 to |events|
        invariant Valid() && plain == AllRendered(duration, events[..k])
        invariant forall i :: 0 <= i < k ==> !Throws(duration, events[i])
      {
        assert events[..k + 1][..k] == events[..k];
        ok := OnEvent(events[k]);
        if !ok {
          return false;
        }
      }
      assert events[..|events|] == events;
      return true;
    }
  }

  /** Negating in an unsigned type gives the absolute value, for the lowest count too. */
  lemma AbsoluteValue(rep: IntType, count: int)
    requires Standard(rep) && rep.Has(count)
    ensures var u := Counter(rep);
      && (count >= 0 ==> u.Cast(count) == count)
      && (count < 0 ==> u.Cast(0 - u.Cast(count)) == -count)
  {
    AbsFits(rep, count);
    var size := Counter(rep).Size();
    if count < 0 {
      DivUnique(count, size, -1, count + size);
      DivUnique(-(count + size), size, -1, -count);
    }
  }

  lemma SmallFits(rep: IntType)
    requires Standard(rep) && rep.digits >= 7
    ensures forall n :: 0 <= n < 60 ==> rep.Has(n)
  {
    Pow2Monotone(7, rep.digits);
    assert Pow2(7) == 128;
  }

  lemma CommonHasCount(rep: IntType, count: int)
    requires Standard(rep) && rep.Has(count)
    ensures CommonRep(rep).Has(count)
  {
    WiderHasMore(rep, if rep.digits <= 63 then IntType(rep.signed, 63) else U64);
  }

  /** Ticks of the common period, 1 / den seconds. */
  lemma CommonTicks(rep: IntType, num: nat, count: int)
    requires Standard(rep) && rep.Has(count)
    ensures Castable(rep, CommonRep(rep), num, 1, count) <==> CommonRep(rep).Has(count * num)
  {
    CommonHasCount(rep, count);
  }

  lemma WholeSeconds(rep: IntType, den: nat, x: int)
    requires den > 0 && CommonRep(rep).Has(x)
    ensures Castable(CommonRep(rep), I64, 1, den, x) <==> I64.Has(TruncDiv(x, den))
  {
    assert x * 1 == x;
  }

  lemma HasBelow(t: IntType, a: int, b: int)
    requires 0 <= a <= b && t.Has(b)
    ensures t.Has(a)
  {
  }

  lemma HasAbove(t: IntType, a: int, b: int)
    requires b <= a <= 0 && t.Has(b)
    ensures t.Has(a)
  {
  }

  lemma ThousandFits()
    ensures I64.Has(1000)
  {
    Pow2Monotone(10, 63);
    assert Pow2(10) == 1024;
  }

  /** The ratio of a millisecond and 1 / den seconds, in lowest terms. */
  lemma ReducedRatio(den: nat)
    requires den > 0
    ensures var g := Gcd(1000, den);
      && 1000 / g * g == 1000 && den / g * g == den
      && 0 < 1000 / g <= 1000 && 0 < den / g <= den
  {
    var g := Gcd(1000, den);
    GcdDivides(1000, den);
    MultipleOf(1000, g);
    MultipleOf(den, g);
    QuotientBounds(1000, g, 1000 / g, 0);
    QuotientBounds(den, g, den / g, 0);
  }

  /** The reduced ratio of the last cast gives the milliseconds. */
  lemma ReducedMillis(den: nat, x: nat)
    requires den > 0
    ensures var g := Gcd(1000, den); den / g > 0 && x % den * (1000 / g) / (den / g) == Millis(x, den)
  {
    ReducedRatio(den);
    hide Gcd;
    var g := Gcd(1000, den);
    var r := x % den;
    assert r * (1000 / g) * g == r * 1000 by { Regroup(r, 1000 / g, g); }
    CancelFactor(r * (1000 / g), den / g, g);
  }

  lemma Regroup(r: int, q: int, g: int)
    ensures r * q * g == r * (q * g)
  {
  }

  /** It does so below zero as well. */
  lemma ReducedSignedMillis(den: nat, x: int)
    requires den > 0
    ensures var g := Gcd(1000, den);
      den / g > 0 && TruncDiv(Rest(x, den) * (1000 / g), den / g) == SignedMillis(x, den)
  {
    ReducedRatio(den);
    ReducedMillis(den, if x >= 0 then x else -x);
    hide Gcd, Millis;
    TruncOfProduct(if x >= 0 then x % den else -x % den, 1000 / Gcd(1000, den), den / Gcd(1000, den));
  }

  lemma TruncOfProduct(r: int, p: int, d: int)
    requires r >= 0 && p >= 0 && d > 0
    ensures TruncDiv(r * p, d) == r * p / d && TruncDiv(-r * p, d) == -(r * p / d)
  {
    var product := r * p;
    assert product >= 0 && -r * p == -product;
    TruncNegated(product, d);
  }

  lemma TruncNegated(n: int, d: int)
    requires n >= 0 && d > 0
    ensures TruncDiv(n, d) == n / d && TruncDiv(-n, d) == -(n / d)
  {
  }

  lemma LastCast(rep: IntType, den: nat, x: int)
    requires den > 0 && CommonRep(rep).Has(Rest(x, den))
    ensures var g := Gcd(1000, den);
      && den / g > 0
      && (Castable(CommonRep(rep), rep, 1000 / g, den / g, Rest(x, den))
          <==> CommonRep(rep).Has(Rest(x, den) * (1000 / g)) && rep.Has(SignedMillis(x, den)))
  {
    ReducedRatio(den);
    ReducedSignedMillis(den, x);
    hide Gcd, IntType.Has, SignedMillis, Rest, TruncDiv;
    assert Intermediate(CommonRep(rep), rep) == CommonRep(rep);
  }

  /** Whole seconds, counted in ticks again, and what is left of the ticks. */
  lemma WholeTicks(rep: IntType, den: nat, x: int)
    requires den > 0 && CommonRep(rep).Has(x)
    ensures var whole := TruncDiv(x, den);
      && CommonRep(rep).Has(whole) && CommonRep(rep).Has(whole * den) && CommonRep(rep).Has(Rest(x, den))
      && x - whole * den == Rest(x, den)
  {
    WholeIsBetween(x, den);
    hide IntType.Has, TruncDiv, Rest;
    var t, whole := CommonRep(rep), TruncDiv(x, den);
    if x >= 0 {
      HasBelow(t, whole, x);
      HasBelow(t, whole * den, x);
      HasBelow(t, Rest(x, den), x);
    } else {
      HasAbove(t, whole, x);
      HasAbove(t, whole * den, x);
      HasAbove(t, Rest(x, den), x);
    }
  }

  lemma WholeIsBetween(x: int, den: nat)
    requires den > 0
    ensures var whole, rest := TruncDiv(x, den), Rest(x, den);
      && x == whole * den + rest
      && (x >= 0 ==> 0 <= whole <= x && 0 <= whole * den <= x && 0 <= rest <= x)
      && (x < 0 ==> x <= whole <= 0 && x <= whole * den <= 0 && x <= rest <= 0)
  {
    DivShrinks(Abs(x), den);
    assert Abs(x) == den * (Abs(x) / den) + Abs(x) % den;
    assert den * (Abs(x) / den) >= 0;
    assert -(Abs(x) / den) * den == -(den * (Abs(x) / den));
  }

  /** The reduced ratio is one that a cast accepts. */
  lemma RatioFits(den: nat)
    requires 0 < den && I64.Has(den)
    ensures var g := Gcd(1000, den); 0 < 1000 / g && I64.Has(1000 / g) && 0 < den / g && I64.Has(den / g)
  {
    ReducedRatio(den);
    hide Gcd, IntType.Has;
    ThousandFits();
    HasBelow(I64, 1000 / Gcd(1000, den), 1000);
    HasBelow(I64, den / Gcd(1000, den), den);
  }

  /** What the last cast gives is the milliseconds. */
  lemma LastCastValue(den: nat, x: int, ms: int)
    requires 0 < den && den / Gcd(1000, den) > 0
    requires IsTruncation(ms, Rest(x, den) * (1000 / Gcd(1000, den)), den / Gcd(1000, den))
    ensures ms == SignedMillis(x, den)
  {
    ReducedSignedMillis(den, x);
    hide Gcd, IsTruncation, SignedMillis, Rest, TruncDiv;
    TruncationUnique(ms, Rest(x, den) * (1000 / Gcd(1000, den)), den / Gcd(1000, den));
  }

  /** What is left of a whole second, in milliseconds. */
  method MillisecondsOf(rep: IntType, den: nat, ghost x: int, diff: int) returns (ms: int, ec: int)
    requires Standard(rep) && 0 < den && I64.Has(den) && diff == Rest(x, den) && CommonRep(rep).Has(diff)
    ensures ec == 0 <==> CommonRep(rep).Has(diff * (1000 / Gcd(1000, den))) && rep.Has(SignedMillis(x, den))
    ensures ec == 0 ==> ms == SignedMillis(x, den)
  {
    RatioFits(den);
    LastCast(rep, den, x);
    hide Castable, IntType.Has, Gcd, SignedMillis, Rest, IsTruncation;
    ms, ec := SafeDurationCast(diff, CommonRep(rep), rep, 1000 / Gcd(1000, den), den / Gcd(1000, den));
    if ec == 0 {
      LastCastValue(den, x, ms);
    }
  }

  /** Ticks of 1 / den seconds, without the whole seconds in them. */
  method DropSeconds(rep: IntType, den: nat, ticks: int) returns (diff: int, ec: int)
    requires Standard(rep) && 0 < den && I64.Has(den) && CommonRep(rep).Has(ticks)
    ensures ec == 0 <==> I64.Has(TruncDiv(ticks, den))
    ensures ec == 0 ==> diff == Rest(ticks, den) && CommonRep(rep).Has(diff)
  {
    var common := CommonRep(rep);
    ThousandFits();
    HasBelow(I64, 1, 1000);
    WholeSeconds(rep, den, ticks);
    WholeTicks(rep, den, ticks);
    hide Castable, IntType.Has, Rest, TruncDiv, IsTruncation;
    var whole;
    whole, ec := SafeDurationCast(ticks, common, I64, 1, den);
    if ec != 0 {
      return 0, ec;
    }
    TruncationUnique(whole, ticks, den);
    diff := ticks - common.Times(whole, den);
  }

  /** The milliseconds of a count, over whole seconds in a common type. */
  method GetMilliseconds(rep: IntType, num: nat, den: nat, count: int, ghost x: int) returns (ms: int, ec: int)
    requires Period(rep, num, den) && rep.Has(count) && x == count * num
    ensures ec == 0 <==> MillisFit(rep, den, x)
    ensures ec == 0 ==> ms == SignedMillis(x, den)
  {
    ThousandFits();
    HasBelow(I64, 1, 1000);
    CommonTicks(rep, num, count);
    hide Castable, IntType.Has, Gcd, SignedMillis, Rest, TruncDiv;
    var ticks, diff;
    ticks, ec := SafeDurationCast(count, rep, CommonRep(rep), num, 1);
    if ec != 0 {
      return 0, ec;
    }
    ExactTicks(ticks, x);
    diff, ec := DropSeconds(rep, den, ticks);
    if ec != 0 {
      return 0, ec;
    }
    ms, ec := MillisecondsOf(rep, den, x, diff);
  }

  lemma ExactTicks(q: int, x: int)
    requires IsTruncation(q, x, 1)
    ensures q == x
  {
  }
}
