/**
 What each directive shows of a duration, told by the tokens that are written: together the
 fields are the time of day, and every directive stands for itself wherever it is written.
 */
module ChronoShown {
  import opened ChronoFields
  import opened ChronoFormat
  import opened ChronoFormatter
  import opened DurationFormatter
  import FormatParser
  import Decimals
  import ParseContext
  import FormatParts
  import FormatSpecs
  import opened Options
  import opened SpecSpelling

  /** The tokens of one directive. */
  function Written(d: Duration, letter: char, alternative: bool): seq<Token>
    requires d.den > 0
  {
    AllRendered(d, [Field(letter, alternative)])
  }

  lemma WrittenIsRendered(d: Duration, e: Event)
    requires d.den > 0
    ensures AllRendered(d, [e]) == Rendered(d, e)
  {
    assert [e][..0] == [];
  }

  /** Nothing that is written depends on what is written in front of it or behind it. */
  lemma {:induction false} WrittenInOrder(d: Duration, a: seq<Event>, b: seq<Event>)
    requires d.den > 0
    ensures AllRendered(d, a + b) == AllRendered(d, a) + AllRendered(d, b)
  {
    hide Rendered;
    if b == [] {
      assert a + b == a;
    } else {
      assert (a + b)[..|a + b| - 1] == a + b[..|b| - 1];
      WrittenInOrder(d, a, b[..|b| - 1]);
    }
  }

  /** A number in two digits. */
  predicate TwoDigits(tokens: seq<Token>, bound: nat) {
    |tokens| >= 1 && tokens[0].Number? && tokens[0].width == 2 && tokens[0].value < bound
  }

  /** %H, %M and %S together show the seconds of the duration modulo a day. */
  lemma TimeOfDay(d: Duration)
    requires d.den > 0
    ensures var h, m, s := Written(d, 'H', false), Written(d, 'M', false), Written(d, 'S', false);
      && |h| == 1 && TwoDigits(h, 24) && |m| == 1 && TwoDigits(m, 60) && TwoDigits(s, 60)
      && h[0].value * 3600 + m[0].value * 60 + s[0].value == (d.X() / d.den) % 86400
  {
    WrittenIsRendered(d, Field('H', false));
    WrittenIsRendered(d, Field('M', false));
    WrittenIsRendered(d, Field('S', false));
    hide AllRendered, Hour, Minute, Second, Hour12, Millis, Duration.X;
    HourMinuteSecond(d.X(), d.den);
  }

  /** %R and %T are %H, %M and the seconds of %S with colons between them. */
  lemma TimesAreComposed(d: Duration)
    requires d.den > 0
    ensures var h, m, s := Written(d, 'H', false), Written(d, 'M', false), Written(d, 'S', false);
      && s != []
      && Written(d, 'R', false) == h + [Text(":")] + m
      && Written(d, 'T', false) == h + [Text(":")] + m + [Text(":")] + s[..1]
  {
    WrittenIsRendered(d, Field('H', false));
    WrittenIsRendered(d, Field('M', false));
    WrittenIsRendered(d, Field('S', false));
    WrittenIsRendered(d, Field('R', false));
    WrittenIsRendered(d, Field('T', false));
    hide AllRendered, Hour, Minute, Second, Hour12, Millis, Duration.X;
  }

  /** %I shows the hour of %H on a clock from 1 to 12. */
  lemma TwelveHours(d: Duration)
    requires d.den > 0
    ensures var h, i := Written(d, 'H', false), Written(d, 'I', false);
      && |h| == 1 && h[0].Number? && |i| == 1 && TwoDigits(i, 13)
      && 1 <= i[0].value && i[0].value % 12 == h[0].value % 12
  {
    WrittenIsRendered(d, Field('H', false));
    WrittenIsRendered(d, Field('I', false));
    hide AllRendered, Hour, Minute, Second, Hour12, Millis, Duration.X;
    Hour12Agrees(d.X(), d.den);
  }

  /** %Q shows the count without its sign, and %q the unit. */
  lemma ValueAndUnit(d: Duration)
    requires d.den > 0
    ensures var q := Written(d, 'Q', false);
      && |q| == 1 && q[0].Value? && q[0].value == if d.count < 0 then 0 - d.count else d.count
    ensures Written(d, 'q', false) == [Unit]
  {
    WrittenIsRendered(d, Field('Q', false));
    WrittenIsRendered(d, Field('q', false));
  }

  /** The localized forms are given the same fields: one of them, or the whole time. */
  lemma LocalizedFields(d: Duration)
    requires d.den > 0
    ensures var h, i, m, s :=
        Written(d, 'H', false), Written(d, 'I', false), Written(d, 'M', false), Written(d, 'S', false);
      && |h| == |i| == |m| == 1 && |s| >= 1 && h[0].Number? && i[0].Number? && m[0].Number? && s[0].Number?
      && Written(d, 'H', true) == [Localized('H', true, h[0].value, 0, 0)]
      && Written(d, 'I', true) == [Localized('I', true, i[0].value, 0, 0)]
      && Written(d, 'M', true) == [Localized('M', true, 0, m[0].value, 0)]
      && Written(d, 'S', true) == [Localized('S', true, 0, 0, s[0].value)]
      && Written(d, 'r', false) == [Localized('r', false, h[0].value, m[0].value, s[0].value)]
      && Written(d, 'p', false) == [Localized('p', false, h[0].value, m[0].value, s[0].value)]
  {
    forall e: Event ensures AllRendered(d, [e]) == Rendered(d, e) {
      WrittenIsRendered(d, e);
    }
    hide AllRendered, Hour, Minute, Second, Hour12, Millis, Duration.X;
  }

  /** Text is written as it stands, and an escape as its character. */
  lemma TextIsWritten(d: Duration, text: string)
    requires d.den > 0
    ensures AllRendered(d, [Raw(text)]) == [Text(text)]
    ensures AllRendered(d, [Escape('n')]) == [Text("\n")]
    ensures AllRendered(d, [Escape('t')]) == [Text("\t")]
    ensures AllRendered(d, [Escape('%')]) == [Text("%")]
  {
    forall e: Event ensures AllRendered(d, [e]) == Rendered(d, e) {
      WrittenIsRendered(d, e);
    }
    hide AllRendered;
  }

  /** The directives that a duration has: the checking pass refuses exactly the other ones. */
  lemma DirectivesOfDurations(letter: char, alternative: bool)
    ensures Legal(Field(letter, alternative)) && !IsDate(Field(letter, alternative)) <==>
              if alternative then letter in "HIMS" else letter in "HIMSrRTpQq"
    ensures Legal(Escape(letter)) <==> letter in "%nt"
  {
  }

  // ---------------------------------------------------------------- the sign and the plain form

  /** Without directives the value is written with its sign, and then the unit. */
  lemma PlainForm(d: Duration)
    requires d.den > 0
    ensures Checked([])
    ensures var all := Shown(d, []);
      && |all| == (if d.count < 0 then 3 else 2)
      && all[|all| - 2..] == Written(d, 'Q', false) + Written(d, 'q', false)
      && (d.count < 0 ==> all[0] == Sign)
  {
    ValueAndUnit(d);
  }

  /** A sign stands directly in front of the first field that it can stand at. */
  lemma SignInFront(d: Duration, text: string, k: nat)
    requires d.den > 0 && Checked(text) && k < |Shown(d, text)| && Shown(d, text)[k] == Sign
    ensures k + 1 < |Shown(d, text)| && Signed(Shown(d, text)[k + 1])
    ensures forall i :: 0 <= i < k ==> !Signed(Shown(d, text)[i])
    ensures text != [] ==>
              Shown(d, text)[..k] + Shown(d, text)[k + 1..] == AllRendered(d, Scan(text, true).events)
  {
    hide AllRendered, FirstSigned, Scan;
    if text != [] {
      var plain := AllRendered(d, Scan(text, true).events);
      RenderedUnsigned(d, Scan(text, true).events);
      SignPlaced(d.count < 0, plain, k);
    }
  }

  lemma SignPlaced(negative: bool, plain: seq<Token>, k: nat)
    requires Sign !in plain && k < |WithSign(negative, plain)| && WithSign(negative, plain)[k] == Sign
    ensures var all := WithSign(negative, plain);
      && k == FirstSigned(plain) < |plain|
      && all[k + 1] == plain[k] && all[..k] == plain[..k] && all[..k] + all[k + 1..] == plain
  {
    hide FirstSigned;
    var i, all := FirstSigned(plain), WithSign(negative, plain);
    assert forall j :: 0 <= j < |plain| ==> plain[j] != Sign;
    if negative && i < |plain| {
      InsertedAt(plain, i, all, k);
    }
  }

  lemma InsertedAt(plain: seq<Token>, i: nat, all: seq<Token>, k: nat)
    requires Sign !in plain && i < |plain| && all == plain[..i] + [Sign] + plain[i..] && k < |all| && all[k] == Sign
    ensures k == i && all[k + 1] == plain[k] && all[..k] == plain[..k] && all[..k] + all[k + 1..] == plain
  {
    assert forall j :: 0 <= j < |plain| ==> plain[j] != Sign;
    assert forall j :: 0 <= j < i ==> all[j] == plain[j];
    assert forall j :: i < j < |all| ==> all[j] == plain[j - 1];
    assert all[i + 1..] == plain[i..];
    assert plain[..i] + plain[i..] == plain;
  }

  // ---------------------------------------------------------------- alignment and width

  /** A dynamic width refers to the next argument, to the given one, or to a name, and moves the numbering on. */
  lemma ResolvedWidth(mode: int, id: FormatParser.ArgId)
    ensures id.Next? && mode >= 0 ==> Resolve(mode, Some(id)) == Settled(Some(FormatParts.ByIndex(mode)), mode + 1)
    ensures id.Index? && mode <= 0 ==> Resolve(mode, Some(id)) == Settled(Some(FormatParts.ByIndex(id.n)), -1)
    ensures id.Name? ==> Resolve(mode, Some(id)) == Settled(Some(FormatParts.ByName(id.name)), mode)
    ensures Resolve(mode, None) == Settled(None, mode)
  {
    match id
    case Next => ParseContext.RunOne(mode, ParseContext.Automatic);
    case Index(n) => ParseContext.RunOne(mode, ParseContext.Manual(n));
    case Name(_) =>
  }

  /** The text in front of the directives that spells an alignment and a width. */
  function SpelledWidth(spec: Spec): string {
    SpelledAlign(spec) + SpelledMeasure(spec.width)
  }

  lemma WidthChars(m: Measure)
    requires LegalMeasure(m)
    ensures AllBody(SpelledMeasure(m)) && (SpelledMeasure(m) != [] ==> SpelledMeasure(m)[0] != '}')
  {
    MeasureBody(m);
    if !m.NoMeasure? {
      MeasureStarts(m);
    }
    hide SpelledMeasure, LegalMeasure;
  }

  lemma ReferredReadsBack(m: Measure, rest: string)
    requires LegalMeasure(m) && rest != [] && rest[0] != '{'
    ensures FormatSpecs.ReferredAt(SpelledMeasure(m) + rest) == if m.Dynamic? then Some(m.id) else None
  {
    hide FormatParser.ArgIdAt, SpelledId, LegalId, Decimals.Decimal;
    match m
    case NoMeasure => assert SpelledMeasure(m) + rest == rest;
    case Fixed(n) => assert (SpelledMeasure(m) + rest)[0] == Decimals.Decimal(n)[0];
    case Dynamic(id) =>
      IdReadsBack(false, id, "}" + rest);
      ReferenceReadsBack(id, SpelledId(id), rest);
  }

  lemma ReferenceReadsBack(id: FormatParser.ArgId, text: string, rest: string)
    requires FormatParser.ArgIdAt(false, text + ("}" + rest)) == FormatParser.GoodId(id, |text|)
    ensures FormatSpecs.ReferredAt("{" + text + "}" + rest) == Some(id)
  {
    hide FormatParser.ArgIdAt;
    assert ("{" + text + "}" + rest)[1..] == text + ("}" + rest);
  }

  /** Alignment and width are read to their end, and a reference is the one that is spelled. */
  lemma WidthReadsBack(spec: Spec, rest: string)
    requires LegalSpec(spec) && rest != [] && SpelledWidth(spec) != []
    requires !Decimals.IsDigit(rest[0]) && rest[0] != '{' && !FormatSpecs.IsAlign(rest[0])
    ensures WidthEnd(SpelledWidth(spec) + rest)
         == GoodWidth(|SpelledWidth(spec)|, if spec.width.Dynamic? then Some(spec.width.id) else None)
  {
    hide FormatSpecs.AlignAt, FormatSpecs.WidthAt, FormatSpecs.ReferredAt, SpelledMeasure, SpelledAlign;
    var align, width := SpelledAlign(spec), SpelledMeasure(spec.width);
    var s := SpelledWidth(spec) + rest;
    assert s == align + (width + rest) && s[|align|..] == width + rest;
    WidthChars(spec.width);
    FrontReadsBack(spec, width, rest);
    MeasureReadsBack(spec.width, rest);
    ReferredReadsBack(spec.width, rest);
  }
}
