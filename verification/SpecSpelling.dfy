/**
 Format specs as values and how they are spelled: whatever is spelled is read back to its end,
 with the arguments that it refers to.
 */
module SpecSpelling {
  import opened Decimals
  import opened FormatParser
  import opened FormatParts
  import opened FormatSpecs
  import opened Options
  import opened ParseContext

  // ---------------------------------------------------------------- argument ids

  function SpelledId(id: ArgId): string {
    match id
    case Next => ""
    case Index(n) => Decimal(n)
    case Name(name) => name
  }

  predicate LegalId(id: ArgId) {
    match id
    case Next => true
    case Index(n) => n <= INT_MAX
    case Name(name) =>
      name != [] && IsNameStart(name[0]) && forall k :: 0 <= k < |name| ==> IsNameStart(name[k]) || IsDigit(name[k])
  }

  lemma {:induction false} DigitsEnd(digits: string, rest: string)
    requires forall k :: 0 <= k < |digits| ==> IsDigit(digits[k])
    requires rest != [] ==> !IsDigit(rest[0])
    ensures DigitsLength(digits + rest) == |digits|
  {
    if digits == [] {
      assert digits + rest == rest;
    } else {
      assert (digits + rest)[1..] == digits[1..] + rest;
      DigitsEnd(digits[1..], rest);
    }
  }

  lemma {:induction false} NameEnds(name: string, rest: string)
    requires forall k :: 0 <= k < |name| ==> IsNameStart(name[k]) || IsDigit(name[k])
    requires rest != [] ==> !IsNameStart(rest[0]) && !IsDigit(rest[0])
    ensures NameLength(name + rest) == |name|
  {
    if name == [] {
      assert name + rest == rest;
    } else {
      assert (name + rest)[1..] == name[1..] + rest;
      NameEnds(name[1..], rest);
    }
  }

  /** Only zero is written with a zero in front. */
  lemma {:induction false} DecimalLeads(n: nat)
    ensures n == 0 ==> Decimal(n) == "0"
    ensures n > 0 ==> Decimal(n)[0] != '0'
  {
    if n >= 10 {
      DecimalLeads(n / 10);
      assert Decimal(n)[0] == Decimal(n / 10)[0];
    }
  }

  lemma NumberReadsBack(n: nat, rest: string)
    requires n <= INT_MAX && (rest != [] ==> !IsDigit(rest[0]))
    ensures DigitsLength(Decimal(n) + rest) == |Decimal(n)| && (Decimal(n) + rest)[..|Decimal(n)|] == Decimal(n)
    ensures NumberOf(Decimal(n)) == n && NumberAt(Decimal(n) + rest) == GoodSpecs(|Decimal(n)|, [])
  {
    DigitsEnd(Decimal(n), rest);
    NumberOfDecimal(n);
    hide Decimal, NumberOf;
    assert (Decimal(n) + rest)[..|Decimal(n)|] == Decimal(n);
  }

  /** An id in front of a colon or a closing brace reads back as itself, for every handler. */
  lemma IdReadsBack(tolerant: bool, id: ArgId, rest: string)
    requires LegalId(id) && rest != [] && EndsId(rest[0])
    ensures ArgIdAt(tolerant, SpelledId(id) + rest) == GoodId(id, |SpelledId(id)|)
  {
    hide ArgIdAt, Decimal;
    match id
    case Next => NextReadsBack(tolerant, rest);
    case Index(n) => IndexReadsBack(tolerant, n, rest);
    case Name(name) => NameReadsBack(tolerant, name, rest);
  }

  lemma NextReadsBack(tolerant: bool, rest: string)
    requires rest != [] && EndsId(rest[0])
    ensures ArgIdAt(tolerant, "" + rest) == GoodId(Next, 0)
  {
    assert "" + rest == rest;
  }

  lemma IndexReadsBack(tolerant: bool, n: nat, rest: string)
    requires n <= INT_MAX && rest != [] && EndsId(rest[0])
    ensures ArgIdAt(tolerant, Decimal(n) + rest) == GoodId(Index(n), |Decimal(n)|)
  {
    NumberReadsBack(n, rest);
    DecimalLeads(n);
    hide Decimal, NumberOf, NumberAt;
    var s := Decimal(n) + rest;
    assert s[0] == Decimal(n)[0] && s[|Decimal(n)|] == rest[0];
    hide DigitsLength;
  }

  lemma NameReadsBack(tolerant: bool, name: string, rest: string)
    requires LegalId(Name(name)) && rest != [] && EndsId(rest[0])
    ensures ArgIdAt(tolerant, name + rest) == GoodId(Name(name), |name|)
  {
    NameEnds(name, rest);
    hide NameLength, NumberOf;
    assert (name + rest)[..|name|] == name && (name + rest)[0] == name[0];
  }

  /** A spelled id is of letters, digits and underscores. */
  lemma IdLetters(id: ArgId)
    requires LegalId(id)
    ensures forall k :: 0 <= k < |SpelledId(id)| ==> IsNameStart(SpelledId(id)[k]) || IsDigit(SpelledId(id)[k])
  {
  }

  // ---------------------------------------------------------------- specs

  /** A width or a precision. */
  datatype Measure = NoMeasure | Fixed(n: nat) | Dynamic(id: ArgId)

  datatype Spec = Spec(
    fill: string, align: Option<char>, sign: Option<char>, alternate: bool, zero: bool,
    width: Measure, precision: Measure, kind: Option<char>)

  function Letter(c: Option<char>): string {
    if c.Some? then [c.value] else []
  }

  function Flags(spec: Spec): string {
    Letter(spec.sign) + (if spec.alternate then "#" else "") + (if spec.zero then "0" else "")
  }

  function SpelledMeasure(m: Measure): string {
    match m
    case NoMeasure => ""
    case Fixed(n) => Decimal(n)
    case Dynamic(id) => "{" + SpelledId(id) + "}"
  }

  function SpelledPrecision(m: Measure): string {
    if m.NoMeasure? then "" else "." + SpelledMeasure(m)
  }

  function SpelledAlign(spec: Spec): string {
    spec.fill + Letter(spec.align)
  }

  function Spelled(spec: Spec): string {
    SpelledAlign(spec) + (Flags(spec) + (SpelledMeasure(spec.width)
                                         + (SpelledPrecision(spec.precision) + Letter(spec.kind))))
  }

  predicate LegalMeasure(m: Measure) {
    match m
    case NoMeasure => true
    case Fixed(n) => n <= INT_MAX
    case Dynamic(id) => LegalId(id)
  }

  /** A fill is one code point of at most four bytes, and no brace. */
  predicate LegalFill(fill: string) {
    fill == [] || (fill[0] != '{' && fill[0] != '}' && CodePointSize(fill) == |fill| <= MAX_FILL)
  }

  /** A width is not written as zero, which is a flag; a type is a letter. */
  predicate LegalSpec(spec: Spec) {
    && LegalFill(spec.fill) && (spec.fill != [] ==> spec.align.Some?)
    && (spec.align.Some? ==> IsAlign(spec.align.value))
    && (spec.sign.Some? ==> spec.sign.value == '+' || spec.sign.value == '-' || spec.sign.value == ' ')
    && LegalMeasure(spec.width) && spec.width != Fixed(0)
    && LegalMeasure(spec.precision)
    && (spec.kind.Some? ==> IsNameStart(spec.kind.value))
  }

  function UsesOfMeasure(m: Measure): seq<Use> {
    if m.Dynamic? then UsesOf(m.id) else []
  }

  // ---------------------------------------------------------------- reading what is spelled

  lemma Behind(a: string, b: string)
    ensures (a + b)[|a|..] == b && (a + b)[..|a|] == a
  {
  }

  lemma MeasureReadsBack(m: Measure, rest: string)
    requires LegalMeasure(m) && rest != [] && !IsDigit(rest[0]) && rest[0] != '{'
    ensures WidthAt(SpelledMeasure(m) + rest) == GoodSpecs(|SpelledMeasure(m)|, UsesOfMeasure(m))
  {
    hide ArgIdAt, SpelledId, LegalId, UsesOf;
    match m
    case NoMeasure => assert SpelledMeasure(m) + rest == rest;
    case Fixed(n) => FixedReadsBack(n, rest);
    case Dynamic(id) =>
      IdReadsBack(false, id, "}" + rest);
      DynamicReadsBack(id, SpelledId(id), rest);
  }

  lemma FixedReadsBack(n: nat, rest: string)
    requires n <= INT_MAX && rest != [] && !IsDigit(rest[0])
    ensures WidthAt(Decimal(n) + rest) == GoodSpecs(|Decimal(n)|, [])
  {
    NumberReadsBack(n, rest);
    hide Decimal, NumberAt;
    assert (Decimal(n) + rest)[0] == Decimal(n)[0];
  }

  lemma DynamicReadsBack(id: ArgId, text: string, rest: string)
    requires ArgIdAt(false, text + ("}" + rest)) == GoodId(id, |text|)
    ensures WidthAt("{" + text + "}" + rest) == GoodSpecs(|text| + 2, UsesOf(id))
  {
    hide ArgIdAt, UsesOf;
    var s := "{" + text + "}" + rest;
    assert s[1..] == text + ("}" + rest) && s[1 + |text|] == '}';
  }

  lemma PrecisionReadsBack(m: Measure, rest: string)
    requires LegalMeasure(m) && rest != [] && !IsDigit(rest[0]) && rest[0] != '{' && rest[0] != '.'
    ensures PrecisionAt(SpelledPrecision(m) + rest) == GoodSpecs(|SpelledPrecision(m)|, UsesOfMeasure(m))
  {
    hide WidthAt, SpelledMeasure, LegalMeasure;
    if m.NoMeasure? {
      assert SpelledPrecision(m) + rest == rest;
    } else {
      MeasureReadsBack(m, rest);
      MeasureStarts(m);
      BehindPoint(SpelledMeasure(m), rest, UsesOfMeasure(m));
    }
  }

  lemma MeasureStarts(m: Measure)
    requires !m.NoMeasure?
    ensures SpelledMeasure(m) != [] && (IsDigit(SpelledMeasure(m)[0]) || SpelledMeasure(m)[0] == '{')
  {
    hide Decimal, SpelledId;
  }

  lemma BehindPoint(measure: string, rest: string, uses: seq<Use>)
    requires measure != [] && (IsDigit(measure[0]) || measure[0] == '{')
    requires WidthAt(measure + rest) == GoodSpecs(|measure|, uses)
    ensures PrecisionAt("." + measure + rest) == GoodSpecs(|measure| + 1, uses)
  {
    hide WidthAt;
    var s := "." + measure + rest;
    assert s[1..] == measure + rest && s[1] == measure[0];
  }

  lemma FlagsReadBack(spec: Spec, rest: string)
    requires LegalSpec(spec) && rest != []
    requires rest[0] != '+' && rest[0] != '-' && rest[0] != ' ' && rest[0] != '#' && rest[0] != '0'
    ensures FlagsSize(Flags(spec) + rest) == |Flags(spec)|
  {
    hide LegalMeasure, LegalFill;
  }

  /** The characters that the spelling without its alignment is made of. */
  predicate IsBody(c: char) {
    || c == '+' || c == '-' || c == ' ' || c == '#' || c == '.' || c == '{' || c == '}'
    || IsDigit(c) || IsNameStart(c)
  }

  predicate AllBody(s: string) {
    forall k :: 0 <= k < |s| ==> IsBody(s[k])
  }

  lemma MeasureBody(m: Measure)
    requires LegalMeasure(m)
    ensures AllBody(SpelledMeasure(m)) && AllBody(SpelledPrecision(m))
  {
    if m.Dynamic? {
      IdLetters(m.id);
      hide SpelledId;
    }
  }

  /** Without an alignment none is read, whatever the body is. */
  lemma NoAlignReadsBack(body: string, rest: string)
    requires AllBody(body) && body != [] && rest != [] && !IsAlign(rest[0])
    ensures AlignAt(body + rest) == GoodSpecs(0, [])
  {
  }

  lemma {:induction false} FillEnds(fill: string, rest: string)
    requires forall k :: 0 <= k < |fill| ==> IsContinuation(fill[k])
    requires rest != [] && !IsContinuation(rest[0])
    ensures ContinuationLength(fill + rest) == |fill|
  {
    if fill == [] {
      assert fill + rest == rest;
    } else {
      assert (fill + rest)[1..] == fill[1..] + rest;
      FillEnds(fill[1..], rest);
    }
  }

  /** A code point in front of an alignment is its fill, or refused as one. */
  lemma FillDecides(fill: string, align: char, rest: string)
    requires fill != [] && CodePointSize(fill) == |fill| && IsAlign(align)
    ensures AlignAt(fill + [align] + rest)
         == if fill[0] == '{' || |fill| > MAX_FILL then BadSpecs else GoodSpecs(|fill| + 1, [])
  {
    var s := fill + [align] + rest;
    if fill[0] as int >= 0x80 {
      assert s[1..] == fill[1..] + ([align] + rest);
      FillEnds(fill[1..], [align] + rest);
    }
    hide ContinuationLength;
  }

  lemma AlignReadsBack(fill: string, align: char, rest: string)
    requires LegalFill(fill) && IsAlign(align) && rest != [] && !IsAlign(rest[0])
    ensures AlignAt(fill + [align] + rest) == GoodSpecs(|fill| + 1, [])
  {
    if fill == [] {
      assert fill + [align] + rest == [align] + rest;
    } else {
      FillDecides(fill, align, rest);
      hide AlignAt, CodePointSize;
    }
  }

  /** Specs are refused for a fill that is a brace or longer than four bytes. */
  lemma BadFillIsRefused(fill: string, align: char, rest: string)
    requires fill != [] && CodePointSize(fill) == |fill| && IsAlign(align)
    requires fill[0] == '{' || |fill| > MAX_FILL
    ensures fill[0] != '}' ==> SpecsAt(fill + [align] + rest).BadSpecs?
  {
    FillDecides(fill, align, rest);
    hide AlignAt, CodePointSize, FlagsSize, WidthAt, PrecisionAt;
  }

  /** A point is refused without a number or an opening brace behind it. */
  lemma BadPrecisionIsRefused(rest: string)
    requires rest == [] || !(IsDigit(rest[0]) || rest[0] == '{')
    ensures PrecisionAt("." + rest).BadSpecs?
  {
    hide WidthAt;
  }

  /** Numbers above INT_MAX are refused. */
  lemma BadWidthIsRefused(digits: string, rest: string)
    requires digits != [] && forall k :: 0 <= k < |digits| ==> IsDigit(digits[k])
    requires (rest != [] ==> !IsDigit(rest[0])) && NumberOf(digits) > INT_MAX
    ensures WidthAt(digits + rest).BadSpecs?
  {
    DigitsEnd(digits, rest);
    assert (digits + rest)[..|digits|] == digits && (digits + rest)[0] == digits[0];
    hide NumberOf, DigitsLength;
  }

  /** What is spelled behind the alignment, in front of a closing brace. */
  lemma TailReadsBack(spec: Spec, rest: string)
    requires LegalSpec(spec)
    ensures var kind := Letter(spec.kind) + ("}" + rest);
      var precision := SpelledPrecision(spec.precision) + kind;
      var width := SpelledMeasure(spec.width) + precision;
      && FlagsSize(Flags(spec) + width) == |Flags(spec)|
      && WidthAt(width) == GoodSpecs(|SpelledMeasure(spec.width)|, UsesOfMeasure(spec.width))
      && PrecisionAt(precision) == GoodSpecs(|SpelledPrecision(spec.precision)|, UsesOfMeasure(spec.precision))
      && TypeSize(kind) == |Letter(spec.kind)|
  {
    var kind := Letter(spec.kind) + ("}" + rest);
    var precision := SpelledPrecision(spec.precision) + kind;
    assert kind[0] == if spec.kind.Some? then spec.kind.value else '}';
    PrecisionReadsBack(spec.precision, kind);
    assert precision[0] == if spec.precision.NoMeasure? then kind[0] else '.';
    hide PrecisionAt, SpelledPrecision;
    MeasureReadsBack(spec.width, precision);
    WidthStarts(spec.width, precision);
    hide WidthAt, SpelledMeasure;
    FlagsReadBack(spec, SpelledMeasure(spec.width) + precision);
    hide FlagsSize;
  }

  /** A width does not start like a flag. */
  lemma WidthStarts(m: Measure, rest: string)
    requires LegalMeasure(m) && m != Fixed(0) && rest != []
    ensures var c := (SpelledMeasure(m) + rest)[0];
      c == rest[0] || c == '{' || (IsDigit(c) && c != '0')
  {
    if m.Fixed? {
      DecimalLeads(m.n);
      hide Decimal;
    }
  }

  /** The alignment, in front of whatever is spelled behind it. */
  lemma FrontReadsBack(spec: Spec, body: string, rest: string)
    requires LegalSpec(spec) && AllBody(body) && SpelledAlign(spec) + body != []
    requires body != [] ==> body[0] != '}'
    requires rest != [] && !IsAlign(rest[0])
    ensures AlignAt(SpelledAlign(spec) + (body + rest)) == GoodSpecs(|SpelledAlign(spec)|, [])
    ensures (SpelledAlign(spec) + (body + rest))[0] != '}'
  {
    if spec.align.None? {
      assert SpelledAlign(spec) + (body + rest) == body + rest;
      NoAlignReadsBack(body, rest);
    } else {
      assert SpelledAlign(spec) + (body + rest) == spec.fill + [spec.align.value] + (body + rest);
      AlignReadsBack(spec.fill, spec.align.value, body + rest);
    }
    hide AlignAt;
  }

  function Tail(spec: Spec): string {
    SpelledMeasure(spec.width) + (SpelledPrecision(spec.precision) + Letter(spec.kind))
  }

  lemma BodyOfSpec(spec: Spec)
    requires LegalSpec(spec)
    ensures AllBody(Flags(spec) + Tail(spec))
    ensures Flags(spec) + Tail(spec) != [] ==> (Flags(spec) + Tail(spec))[0] != '}'
  {
    hide AllBody, Flags, Tail, LegalSpec;
    FlagsBody(spec);
    TailBody(spec);
    AllBodyConcat(Flags(spec), Tail(spec));
    if Flags(spec) == [] {
      assert Flags(spec) + Tail(spec) == Tail(spec);
    }
  }

  lemma AllBodyConcat(a: string, b: string)
    requires AllBody(a) && AllBody(b)
    ensures AllBody(a + b)
  {
    hide IsBody;
  }

  lemma FlagsBody(spec: Spec)
    requires LegalSpec(spec)
    ensures AllBody(Flags(spec)) && (Flags(spec) != [] ==> Flags(spec)[0] != '}')
  {
    hide LegalMeasure, LegalFill;
  }

  lemma TailBody(spec: Spec)
    requires LegalSpec(spec)
    ensures AllBody(Tail(spec)) && (Tail(spec) != [] ==> Tail(spec)[0] != '}')
  {
    hide SpelledMeasure, LegalFill, LegalMeasure, AllBody;
    MeasureBody(spec.width);
    MeasureBody(spec.precision);
    KindBody(spec);
    var behind := SpelledPrecision(spec.precision) + Letter(spec.kind);
    AllBodyConcat(SpelledPrecision(spec.precision), Letter(spec.kind));
    AllBodyConcat(SpelledMeasure(spec.width), behind);
    if spec.width.NoMeasure? {
      NoWidth(behind);
    } else {
      MeasureStarts(spec.width);
    }
    if spec.precision.NoMeasure? {
      assert behind == Letter(spec.kind);
    }
  }

  lemma NoWidth(behind: string)
    ensures SpelledMeasure(NoMeasure) + behind == behind
  {
  }

  lemma KindBody(spec: Spec)
    requires LegalSpec(spec)
    ensures AllBody(Letter(spec.kind)) && (spec.kind.Some? ==> spec.kind.value != '}')
  {
    hide LegalMeasure, LegalFill;
  }

  /** Legal specs are read to their end, with the arguments of their width and then of their precision. */
  lemma SpecsReadBack(spec: Spec, rest: string)
    requires LegalSpec(spec)
    ensures SpecsAt(Spelled(spec) + ("}" + rest))
         == GoodSpecs(|Spelled(spec)|, UsesOfMeasure(spec.width) + UsesOfMeasure(spec.precision))
  {
    hide AlignAt, FlagsSize, WidthAt, PrecisionAt, SpelledMeasure, SpelledPrecision, Flags, SpelledAlign, LegalSpec;
    hide UsesOfMeasure;
    var s := Spelled(spec) + ("}" + rest);
    if Spelled(spec) == [] {
      assert s[0] == '}';
      NothingSpelled(spec);
    } else {
      var body := Flags(spec) + Tail(spec);
      BodyOfSpec(spec);
      assert Spelled(spec) == SpelledAlign(spec) + body;
      FrontReadsBack(spec, body, "}" + rest);
      TailReadsBack(spec, rest);
      var kind := Letter(spec.kind) + ("}" + rest);
      var width, precision := SpelledMeasure(spec.width), SpelledPrecision(spec.precision);
      assert body + ("}" + rest) == Flags(spec) + (width + (precision + kind));
      assert s == SpelledAlign(spec) + (Flags(spec) + (width + (precision + kind)));
      Assembled(SpelledAlign(spec), Flags(spec), width, precision, kind,
                UsesOfMeasure(spec.width), UsesOfMeasure(spec.precision));
    }
  }

  /** The parts one behind the other. */
  lemma Assembled(a: string, f: string, w: string, p: string, k: string, widthUses: seq<Use>, precisionUses: seq<Use>)
    requires var s := a + (f + (w + (p + k)));
      && s != [] && s[0] != '}' && AlignAt(s) == GoodSpecs(|a|, [])
      && FlagsSize(f + (w + (p + k))) == |f|
      && WidthAt(w + (p + k)) == GoodSpecs(|w|, widthUses)
      && PrecisionAt(p + k) == GoodSpecs(|p|, precisionUses)
    ensures SpecsAt(a + (f + (w + (p + k))))
         == GoodSpecs(|a| + |f| + |w| + |p| + TypeSize(k), widthUses + precisionUses)
  {
    hide AlignAt, FlagsSize, WidthAt, PrecisionAt;
    SlicesOf(a, f, w, p, k);
  }

  lemma NothingSpelled(spec: Spec)
    requires Spelled(spec) == []
    ensures UsesOfMeasure(spec.width) + UsesOfMeasure(spec.precision) == []
  {
    hide SpelledAlign, Flags, Letter;
    assert SpelledMeasure(spec.width) == [] && SpelledPrecision(spec.precision) == [];
  }

  lemma SlicesOf(a: string, f: string, w: string, p: string, k: string)
    ensures var s := a + (f + (w + (p + k)));
      && s[|a|..] == f + (w + (p + k))
      && s[|a| + |f|..] == w + (p + k)
      && s[|a| + |f| + |w|..] == p + k
      && s[|a| + |f| + |w| + |p|..] == k
  {
  }

  /** So the emitting pass leaves a field with these specs at its closing brace. */
  lemma SpelledStops(spec: Spec, rest: string)
    requires LegalSpec(spec)
    ensures Closed(Spelled(spec) + ("}" + rest))
    ensures Stop(EMITTING, Spelled(spec) + ("}" + rest)) == |Spelled(spec)|
  {
    SpecsReadBack(spec, rest);
    hide SpecsAt, Spelled, LegalSpec;
    var s := Spelled(spec) + ("}" + rest);
    assert s[|Spelled(spec)|] == '}';
    assert SpecsEnd(s) == |Spelled(spec)|;
  }
}
