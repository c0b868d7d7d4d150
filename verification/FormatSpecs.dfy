/**
 The specs of a replacement field: alignment with a fill, sign, #, 0, width, precision and type,
 where width and precision may refer to arguments. Two handlers look for their end. One reads
 them; the other one only counts braces.
 */
module FormatSpecs {
  import opened Decimals
  import opened Options
  import opened FormatParser
  import opened ParseContext

  const MAX_FILL := 4

  /** How long the specs are, and the numbered arguments that they use, in order. */
  datatype SpecReading = BadSpecs | GoodSpecs(size: nat, uses: seq<Use>)

  // ---------------------------------------------------------------- reading specs

  predicate IsAlign(c: char) {
    c == '<' || c == '>' || c == '^'
  }

  /** Bytes of a UTF-8 sequence behind its first one. */
  predicate IsContinuation(c: char) {
    0x80 <= c as int < 0xC0
  }

  function ContinuationLength(s: string): (n: nat)
    ensures n <= |s| && forall k :: 0 <= k < n ==> IsContinuation(s[k])
  {
    if s == [] || !IsContinuation(s[0]) then 0 else 1 + ContinuationLength(s[1..])
  }

  /** next_code_point. */
  function CodePointSize(s: string): (n: nat)
    requires s != []
    ensures 0 < n <= |s| && forall k :: 0 < k < n ==> IsContinuation(s[k])
  {
    if s[0] as int < 0x80 then 1 else 1 + ContinuationLength(s[1..])
  }

  /** parse_align: a fill of one code point counts only in front of an alignment. */
  function AlignAt(s: string): (r: SpecReading)
    requires s != []
    ensures r.GoodSpecs? ==> r.size <= |s| && r.uses == []
  {
    var p := CodePointSize(s);
    if p < |s| && IsAlign(s[p]) then if s[0] == '{' || p > MAX_FILL then BadSpecs else GoodSpecs(p + 1, [])
    else GoodSpecs(if IsAlign(s[0]) then 1 else 0, [])
  }

  /** Sign, # and 0. */
  function FlagsSize(s: string): (n: nat)
    ensures n <= |s| && forall k :: 0 <= k < n ==> IsPlain(s[k])
  {
    var a := if s != [] && (s[0] == '+' || s[0] == '-' || s[0] == ' ') then 1 else 0;
    var b := if a < |s| && s[a] == '#' then a + 1 else a;
    if b < |s| && s[b] == '0' then b + 1 else b
  }

  /** A named argument does not take part in numbering. */
  function UsesOf(id: ArgId): seq<Use> {
    match id
    case Next => [Automatic]
    case Index(n) => [Manual(n)]
    case Name(_) => []
  }

  /** An argument id in braces. */
  function ReferenceAt(s: string): (r: SpecReading)
    requires s != [] && s[0] == '{'
    ensures r.GoodSpecs? ==> 2 <= r.size <= |s|
  {
    if |s| == 1 then BadSpecs
    else
      match ArgIdAt(false, s[1..])
      case BadId => BadSpecs
      case GoodId(id, k) => if 1 + k < |s| && s[1 + k] == '}' then GoodSpecs(k + 2, UsesOf(id)) else BadSpecs
  }

  function NumberAt(s: string): (r: SpecReading)
    ensures r.GoodSpecs? ==> r.size == DigitsLength(s) && r.uses == []
  {
    if NumberOf(s[..DigitsLength(s)]) <= INT_MAX then GoodSpecs(DigitsLength(s), []) else BadSpecs
  }

  /** The argument that a width or a precision refers to. */
  function ReferredAt(s: string): Option<ArgId> {
    if |s| > 1 && s[0] == '{' && ArgIdAt(false, s[1..]).GoodId? then Some(ArgIdAt(false, s[1..]).id) else None
  }

  function WidthAt(s: string): (r: SpecReading)
    ensures r.GoodSpecs? ==> r.size <= |s|
  {
    if s != [] && IsDigit(s[0]) then NumberAt(s)
    else if s != [] && s[0] == '{' then ReferenceAt(s)
    else GoodSpecs(0, [])
  }

  function PrecisionAt(s: string): (r: SpecReading)
    ensures r.GoodSpecs? ==> r.size <= |s|
  {
    if s == [] || s[0] != '.' then GoodSpecs(0, [])
    else if |s| == 1 || !(IsDigit(s[1]) || s[1] == '{') then BadSpecs
    else
      match WidthAt(s[1..])
      case BadSpecs => BadSpecs
      case GoodSpecs(size, uses) => GoodSpecs(1 + size, uses)
  }

  /** Any character but a closing brace is taken as the type. */
  function TypeSize(s: string): (n: nat)
    ensures n <= |s| && n <= 1
  {
    if s != [] && s[0] != '}' then 1 else 0
  }

  /** parse_format_specs, up to the type. */
  function BodyAt(s: string): (r: SpecReading)
    ensures r.GoodSpecs? ==> r.size <= |s|
  {
    if s == [] || s[0] == '}' then GoodSpecs(0, [])
    else
      match AlignAt(s)
      case BadSpecs => BadSpecs
      case GoodSpecs(a, _) =>
        var f := a + FlagsSize(s[a..]);
        match WidthAt(s[f..])
        case BadSpecs => BadSpecs
        case GoodSpecs(w, widthUses) =>
          match PrecisionAt(s[f + w..])
          case BadSpecs => BadSpecs
          case GoodSpecs(p, precisionUses) => GoodSpecs(f + w + p, widthUses + precisionUses)
  }

  function SpecsAt(s: string): (r: SpecReading)
    ensures r.GoodSpecs? ==> r.size <= |s|
  {
    match BodyAt(s)
    case BadSpecs => BadSpecs
    case GoodSpecs(size, uses) => GoodSpecs(size + TypeSize(s[size..]), uses)
  }

  /** The specs are read and the field is closed behind them. */
  predicate Closed(rest: string) {
    SpecsAt(rest).GoodSpecs? && SpecsAt(rest).size < |rest| && rest[SpecsAt(rest).size] == '}'
  }

  /** The type character of the specs is an opening brace. */
  predicate BraceType(rest: string) {
    SpecsAt(rest).GoodSpecs? && SpecsAt(rest).size > 0 && rest[SpecsAt(rest).size - 1] == '{'
  }

  // ---------------------------------------------------------------- the steps of parse_format_specs

  method NextCodePoint(s: string) returns (end: nat)
    requires s != []
    ensures end == CodePointSize(s)
  {
    if s[0] as int < 0x80 {
      return 1;
    }
    end := 1;
    while end < |s| && IsContinuation(s[end])
      invariant 0 < end <= |s| && CodePointSize(s) == end + ContinuationLength(s[end..])
    {
      assert s[end..][1..] == s[end + 1..];
      end := end + 1;
    }
  }

  /** Looks behind the first code point, and then at it. */
  method ParseAlign(s: string) returns (r: SpecReading)
    requires s != []
    ensures r == AlignAt(s)
  {
    var p := NextCodePoint(s);
    if p == |s| {
      p := 0;
    }
    while true
      invariant p == 0 || p == CodePointSize(s) < |s|
      invariant p == 0 && CodePointSize(s) < |s| ==> !IsAlign(s[CodePointSize(s)])
      decreases p
    {
      if IsAlign(s[p]) {
        if p == 0 {
          return GoodSpecs(1, []);
        }
        return if s[0] == '{' || p > MAX_FILL then BadSpecs else GoodSpecs(p + 1, []);
      }
      if p == 0 {
        return GoodSpecs(0, []);
      }
      p := 0;
    }
  }

  method ParseFlags(s: string, from: nat) returns (begin: nat)
    requires from <= |s|
    ensures begin == from + FlagsSize(s[from..])
  {
    begin := from;
    if begin < |s| && (s[begin] == '+' || s[begin] == '-' || s[begin] == ' ') {
      begin := begin + 1;
    }
    if begin < |s| && s[begin] == '#' {
      begin := begin + 1;
    }
    if begin < |s| && s[begin] == '0' {
      begin := begin + 1;
    }
  }

  /** A reference, which is passed on, or a number. Errors throw here. */
  method ParseWidth(s: string, from: nat) returns (r: SpecReading, referred: Option<ArgId>)
    requires from < |s|
    ensures r == WidthAt(s[from..])
    ensures r.GoodSpecs? ==> referred == ReferredAt(s[from..])
  {
    ghost var rest := s[from..];
    if IsDigit(s[from]) {
      var ok, value, end := ParseNonnegativeInt(s, from);
      NumberFits(rest[..DigitsLength(rest)]);
      return if ok then GoodSpecs(end - from, []) else BadSpecs, None;
    }
    if s[from] != '{' {
      return GoodSpecs(0, []), None;
    }
    var begin := from + 1;
    if begin == |s| {
      return BadSpecs, None;
    }
    assert rest[1..] == s[begin..];
    var id := ParseArgId(false, s, begin);
    if id.BadId? || begin + id.size == |s| || s[begin + id.size] != '}' {
      return BadSpecs, None;
    }
    return GoodSpecs(id.size + 2, UsesOf(id.id)), Some(id.id);
  }

  method ParsePrecision(s: string, from: nat) returns (r: SpecReading)
    requires from < |s| && s[from] == '.'
    ensures r == PrecisionAt(s[from..])
  {
    assert s[from..][1..] == s[from + 1..];
    if from + 1 == |s| || !(IsDigit(s[from + 1]) || s[from + 1] == '{') {
      return BadSpecs;
    }
    var referred;
    r, referred := ParseWidth(s, from + 1);
    if r.GoodSpecs? {
      r := GoodSpecs(1 + r.size, r.uses);
    }
  }

  /** Everything in front of the type, returning early at the end of the text. */
  method ParseBody(s: string) returns (r: SpecReading)
    ensures r == BodyAt(s)
  {
    hide AlignAt, WidthAt, PrecisionAt, FlagsSize;
    if s == [] || s[0] == '}' {
      return GoodSpecs(0, []);
    }
    var a := ParseAlign(s);
    if a.BadSpecs? {
      return BadSpecs;
    }
    var f := ParseFlags(s, a.size);
    var w, p := GoodSpecs(0, []), GoodSpecs(0, []);
    NothingLeft();
    if f < |s| {
      var referred;
      w, referred := ParseWidth(s, f);
    }
    if w.BadSpecs? {
      return BadSpecs;
    }
    var end := f + w.size;
    NoPrecision(s[end..]);
    if end < |s| && s[end] == '.' {
      p := ParsePrecision(s, end);
    }
    return if p.BadSpecs? then BadSpecs else GoodSpecs(end + p.size, w.uses + p.uses);
  }

  lemma NothingLeft()
    ensures WidthAt([]) == GoodSpecs(0, [])
  {
  }

  lemma NoPrecision(s: string)
    ensures s == [] || s[0] != '.' ==> PrecisionAt(s) == GoodSpecs(0, [])
  {
  }

  method ParseFormatSpecs(s: string) returns (r: SpecReading)
    ensures r == SpecsAt(s)
  {
    hide BodyAt;
    r := ParseBody(s);
    if r.GoodSpecs? && r.size < |s| && s[r.size] != '}' {
      r := GoodSpecs(r.size + 1, r.uses);
    }
  }

  // ---------------------------------------------------------------- counting braces

  /** The first closing brace at depth zero, or the end; d braces are open already. */
  function MatchingBrace(s: string, d: nat): (n: nat)
    ensures n <= |s| && (n < |s| ==> s[n] == '}')
  {
    if s == [] then 0
    else if s[0] == '{' then 1 + MatchingBrace(s[1..], d + 1)
    else if s[0] != '}' then 1 + MatchingBrace(s[1..], d)
    else if d == 0 then 0
    else 1 + MatchingBrace(s[1..], d - 1)
  }

  /** The depth behind a text that starts at depth d, or -1 if the text leaves depth zero. */
  function Walk(s: string, d: nat): (e: int)
    ensures e >= -1
  {
    if s == [] then d
    else if s[0] == '{' then Walk(s[1..], d + 1)
    else if s[0] != '}' then Walk(s[1..], d)
    else if d == 0 then -1
    else Walk(s[1..], d - 1)
  }

  lemma {:induction false} MatchWalk(s: string, k: nat, d: nat)
    requires k <= |s| && Walk(s[..k], d) >= 0
    ensures MatchingBrace(s, d) == k + MatchingBrace(s[k..], Walk(s[..k], d))
  {
    if k == 0 {
      assert s[0..] == s;
    } else {
      var t := s[..k];
      assert t[1..] == s[1..][..k - 1] && s[1..][k - 1..] == s[k..];
      var d' := if s[0] == '{' then d + 1 else if s[0] == '}' then d - 1 else d;
      MatchWalk(s[1..], k - 1, d');
    }
  }

  lemma {:induction false} WalkConcat(a: string, b: string, d: nat)
    requires Walk(a, d) >= 0
    ensures Walk(a + b, d) == Walk(b, Walk(a, d))
  {
    if a == [] {
      assert a + b == b;
    } else {
      assert (a + b)[1..] == a[1..] + b;
      var d' := if a[0] == '{' then d + 1 else if a[0] == '}' then d - 1 else d;
      WalkConcat(a[1..], b, d');
    }
  }

  lemma {:induction false} PlainWalk(s: string, d: nat)
    requires forall k :: 0 <= k < |s| ==> IsPlain(s[k])
    ensures Walk(s, d) == d
  {
    if s != [] {
      PlainWalk(s[1..], d);
    }
  }

  /** A text that keeps every depth and does not end with an opening brace. */
  ghost predicate Neutral(s: string) {
    (forall d: nat :: Walk(s, d) == d) && (s != [] ==> s[|s| - 1] != '{')
  }

  lemma NeutralConcat(a: string, b: string)
    requires Neutral(a) && Neutral(b)
    ensures Neutral(a + b)
  {
    forall d: nat ensures Walk(a + b, d) == d {
      WalkConcat(a, b, d);
    }
    if b == [] {
      assert a + b == a;
    }
  }

  lemma PlainNeutral(s: string)
    requires forall k :: 0 <= k < |s| ==> IsPlain(s[k])
    ensures Neutral(s)
  {
    forall d: nat ensures Walk(s, d) == d {
      PlainWalk(s, d);
    }
  }

  lemma IdIsPlain(s: string)
    requires s != [] && ArgIdAt(false, s).GoodId?
    ensures forall k :: 0 <= k < ArgIdAt(false, s).size ==> IsPlain(s[k])
  {
  }

  lemma ReferenceNeutral(s: string)
    requires s != [] && s[0] == '{' && ReferenceAt(s).GoodSpecs?
    ensures Neutral(s[..ReferenceAt(s).size])
  {
    IdIsPlain(s[1..]);
    var n := ReferenceAt(s).size;
    var t, id := s[..n], s[1..n - 1];
    assert t[1..] == id + "}";
    forall d: nat ensures Walk(t, d) == d {
      PlainWalk(id, d + 1);
      WalkConcat(id, "}", d + 1);
    }
  }

  lemma WidthNeutral(s: string)
    requires WidthAt(s).GoodSpecs?
    ensures Neutral(s[..WidthAt(s).size])
  {
    if s != [] && s[0] == '{' {
      ReferenceNeutral(s);
    } else {
      PlainNeutral(s[..WidthAt(s).size]);
    }
  }

  lemma PrecisionNeutral(s: string)
    requires PrecisionAt(s).GoodSpecs?
    ensures Neutral(s[..PrecisionAt(s).size])
  {
    if s != [] && s[0] == '.' {
      var w := WidthAt(s[1..]).size;
      WidthNeutral(s[1..]);
      PlainNeutral(".");
      NeutralConcat(".", s[1..][..w]);
      assert s[..1 + w] == "." + s[1..][..w];
    } else {
      PlainNeutral([]);
    }
  }

  lemma AlignNeutral(s: string)
    requires s != [] && s[0] != '}' && AlignAt(s).GoodSpecs?
    ensures Neutral(s[..AlignAt(s).size])
  {
    PlainNeutral(s[..AlignAt(s).size]);
  }

  lemma FlagsNeutral(s: string)
    ensures Neutral(s[..FlagsSize(s)])
  {
    PlainNeutral(s[..FlagsSize(s)]);
  }

  lemma NeutralExtend(s: string, k: nat, n: nat)
    requires k + n <= |s| && Neutral(s[..k]) && Neutral(s[k..][..n])
    ensures Neutral(s[..k + n])
  {
    hide Neutral;
    NeutralConcat(s[..k], s[k..][..n]);
    assert s[..k] + s[k..][..n] == s[..k + n];
  }

  /** Everything in front of the type keeps the depth of braces. */
  lemma BodyNeutral(s: string)
    requires BodyAt(s).GoodSpecs?
    ensures Neutral(s[..BodyAt(s).size])
  {
    hide Neutral, AlignAt, WidthAt, PrecisionAt, FlagsSize;
    if s == [] || s[0] == '}' {
      PlainNeutral([]);
    } else {
      var a := AlignAt(s).size;
      var flags := FlagsSize(s[a..]);
      var w := WidthAt(s[a + flags..]).size;
      AlignNeutral(s);
      FlagsNeutral(s[a..]);
      NeutralExtend(s, a, flags);
      WidthNeutral(s[a + flags..]);
      NeutralExtend(s, a + flags, w);
      PrecisionNeutral(s[a + flags + w..]);
      NeutralExtend(s, a + flags + w, PrecisionAt(s[a + flags + w..]).size);
    }
  }

  /** Specs open one brace if their type is an opening brace, and none otherwise. */
  lemma SpecsWalk(rest: string, d: nat)
    requires SpecsAt(rest).GoodSpecs?
    ensures Walk(rest[..SpecsAt(rest).size], d) == if BraceType(rest) then d + 1 else d
  {
    hide BodyAt;
    BodyNeutral(rest);
    var b, n := BodyAt(rest).size, SpecsAt(rest).size;
    var body := rest[..b];
    if n == b {
      assert n > 0 ==> body[n - 1] == rest[n - 1];
    } else {
      assert rest[..n] == body + [rest[b]];
      WalkConcat(body, [rest[b]], d);
    }
  }

  /** Both ways to the end of a closed field stop at the same place unless the type is an opening brace. */
  lemma StopsDiffer(rest: string)
    requires Closed(rest)
    ensures MatchingBrace(rest, 0) >= SpecsAt(rest).size
    ensures MatchingBrace(rest, 0) == SpecsAt(rest).size <==> !BraceType(rest)
  {
    hide SpecsAt, Walk;
    var n := SpecsAt(rest).size;
    SpecsWalk(rest, 0);
    MatchWalk(rest, n, 0);
    assert rest[n..][0] == '}';
  }
}
