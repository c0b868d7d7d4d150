/**
 The parser for replacement-field format strings. It has a simple loop for short strings and a
 form that searches for braces with memchr for long ones; both raise the same events up to the
 first error. How far the specs of a field reach, and whether parsing goes on after an error, is
 up to the handler.
 */
module FormatParser {
  import opened Decimals

  datatype ArgId = Next | Index(n: nat) | Name(name: string)

  /** Specs carries what the handler sees: everything behind the colon. */
  datatype Event = Text(text: string) | Arg(id: ArgId) | EmptyField | Specs(rest: string)

  /** Where a handler stops reading specs, and whether its on_error returns instead of throwing. */
  datatype Handler = Handler(stop: string -> nat, tolerant: bool)

  /** All events that are raised, and whether there was no error. */
  datatype Parse = Parse(events: seq<Event>, ok: bool)

  const SHORT := 32
  const INT_MAX: nat := 0x7fff_ffff

  // ---------------------------------------------------------------- replacement fields

  predicate IsNameStart(c: char) {
    ('a' <= c <= 'z') || ('A' <= c <= 'Z') || c == '_'
  }

  predicate EndsId(c: char) {
    c == '}' || c == ':'
  }

  function DigitsLength(s: string): (n: nat)
    ensures n <= |s| && (n < |s| ==> !IsDigit(s[n]))
    ensures forall k :: 0 <= k < n ==> IsDigit(s[k])
  {
    if s == [] || !IsDigit(s[0]) then 0 else 1 + DigitsLength(s[1..])
  }

  function NameLength(s: string): (n: nat)
    ensures n <= |s| && (n < |s| ==> !IsNameStart(s[n]) && !IsDigit(s[n]))
    ensures forall k :: 0 <= k < n ==> IsNameStart(s[k]) || IsDigit(s[k])
  {
    if s == [] || !(IsNameStart(s[0]) || IsDigit(s[0])) then 0 else 1 + NameLength(s[1..])
  }

  datatype IdReading = BadId | GoodId(id: ArgId, size: nat)

  /** A number passes if it fits; where errors return, one that is noticed at its last digit only passes too. */
  predicate NumberPasses(digits: string, tolerant: bool)
    requires forall k :: 0 <= k < |digits| ==> IsDigit(digits[k])
  {
    NumberOf(digits) <= INT_MAX || (tolerant && digits != [] && NumberOf(digits[..|digits| - 1]) <= INT_MAX / 10)
  }

  function ArgIdAt(tolerant: bool, s: string): (r: IdReading)
    requires s != []
    ensures r.GoodId? ==> r.size <= |s|
  {
    if EndsId(s[0]) then GoodId(Next, 0)
    else if IsDigit(s[0]) then
      var n := if s[0] == '0' then 1 else DigitsLength(s);
      if n == |s| || !EndsId(s[n]) || !NumberPasses(s[..n], tolerant) then BadId else GoodId(Index(NumberOf(s[..n])), n)
    else if IsNameStart(s[0]) then GoodId(Name(s[..NameLength(s)]), NameLength(s))
    else BadId
  }

  /** Where the handler stops reading specs; it cannot go past the end. */
  function Stop(h: Handler, rest: string): (n: nat)
    ensures n <= |rest|
  {
    if h.stop(rest) <= |rest| then h.stop(rest) else |rest|
  }

  /** A field at the front of the text: its events, its size, and whether it is well formed. */
  datatype FieldReading = FieldReading(events: seq<Event>, size: nat, ok: bool)

  function FieldAt(h: Handler, s: string): (f: FieldReading)
    requires s != [] && s[0] == '{'
    ensures f.ok ==> 2 <= f.size <= |s|
  {
    if |s| == 1 then FieldReading([], 0, false)
    else if s[1] == '}' then FieldReading([Arg(Next), EmptyField], 2, true)
    else if s[1] == '{' then FieldReading([Text("{")], 2, true)
    else
      match ArgIdAt(h.tolerant, s[1..])
      case BadId => FieldReading([], 0, false)
      case GoodId(id, size) =>
        var at := 1 + size;
        if at < |s| && s[at] == '}' then FieldReading([Arg(id), EmptyField], at + 1, true)
        else if at < |s| && s[at] == ':' then
          var end := at + 1 + Stop(h, s[at + 1..]);
          FieldReading([Arg(id), Specs(s[at + 1..])], if end < |s| then end + 1 else 0, end < |s| && s[end] == '}')
        else FieldReading([Arg(id)], 0, false)
  }

  // ---------------------------------------------------------------- reference parser

  predicate IsPlain(c: char) {
    c != '{' && c != '}'
  }

  function PlainLength(s: string): (n: nat)
    ensures n <= |s| && (n < |s| ==> !IsPlain(s[n]))
    ensures forall k :: 0 <= k < n ==> IsPlain(s[k])
  {
    if s == [] || !IsPlain(s[0]) then 0 else 1 + PlainLength(s[1..])
  }

  /** Handlers ignore empty text. */
  function TextEvent(text: string): seq<Event> {
    if text == [] then [] else [Text(text)]
  }

  function Then(events: seq<Event>, p: Parse): Parse {
    Parse(events + p.events, p.ok)
  }

  /** One step of parsing: the text up to a brace, a doubled closing brace with its text, or a field. */
  datatype Advance = Finish(events: seq<Event>, ok: bool) | Continue(events: seq<Event>, size: nat)

  function Step(h: Handler, s: string): (a: Advance)
    ensures a.Continue? ==> 0 < a.size <= |s|
  {
    var n := PlainLength(s);
    if n == |s| then Finish(TextEvent(s), true)
    else if s[n] == '}' then
      if n + 1 < |s| && s[n + 1] == '}' then Continue([Text(s[..n + 1])], n + 2) else Finish([], false)
    else if n > 0 then Continue([Text(s[..n])], n)
    else
      var f := FieldAt(h, s);
      if f.ok then Continue(f.events, f.size) else Finish(f.events, false)
  }

  /** The next opening brace, or the end. */
  function OpeningAt(s: string): (n: nat)
    ensures n <= |s| && (n < |s| ==> s[n] == '{') && forall k :: 0 <= k < n ==> s[k] != '{'
  {
    if s == [] || s[0] == '{' then 0 else 1 + OpeningAt(s[1..])
  }

  /** Text and then a closing brace that is not doubled. */
  predicate LoneBrace(s: string) {
    var n := PlainLength(s);
    n < |s| && s[n] == '}' && (n + 1 == |s| || s[n + 1] != '}')
  }

  /** The long form leaves the text of a lone closing brace and goes on, if the handler lets it. */
  predicate GoesOn(long: bool, h: Handler, s: string) {
    long && h.tolerant && LoneBrace(s) && OpeningAt(s) < |s|
  }

  function Scan(long: bool, h: Handler, s: string): (p: Parse)
    decreases |s|
  {
    if GoesOn(long, h, s) then Scan(long, h, s[OpeningAt(s)..]).(ok := false)
    else
      match Step(h, s)
      case Finish(events, ok) => Parse(events, ok)
      case Continue(events, size) => Then(events, Scan(long, h, s[size..]))
  }

  // ---------------------------------------------------------------- reading an id

  /** The overflow guard is exact: an error is raised if and only if the number is above INT_MAX. */
  method ParseNonnegativeInt(s: string, from: nat) returns (ok: bool, value: nat, end: nat)
    requires from < |s| && IsDigit(s[from])
    ensures var n := DigitsLength(s[from..]); var digits := s[from..][..n];
      && (ok <==> NumberOf(digits) <= INT_MAX)
      && from <= end <= from + n
      && (end == from + n <==> NumberOf(digits[..n - 1]) <= INT_MAX / 10)
      && (end == from + n ==> value == NumberOf(digits))
      && value < 0x1_0000_0000
  {
    var big := INT_MAX / 10;
    value, end := 0, from;
    assert s[from..from] == [];
    hide DigitsLength, NumberOf;
    while end < |s| && IsDigit(s[end])
      invariant AllDigits(s, from, end)
      invariant value == NumberOf(s[from..end]) && value <= 10 * big + 9
      invariant end > from ==> NumberOf(s[from..end - 1]) <= big
    {
      if value > big {
        ReadOverflow(s, from, end);
        return false, INT_MAX + 1, end;
      }
      ReadStep(s, from, end);
      value := value * 10 + (s[end] - '0') as int;
      end := end + 1;
    }
    ReadEnd(s, from, end);
    ok := value <= INT_MAX;
  }

  predicate AllDigits(s: string, from: nat, end: int) {
    from <= end <= |s| && forall k :: from <= k < end ==> IsDigit(s[k])
  }

  lemma ReadStep(s: string, from: nat, end: nat)
    requires AllDigits(s, from, end + 1) && from <= end
    ensures NumberOf(s[from..end + 1]) == 10 * NumberOf(s[from..end]) + (s[end] - '0') as int
  {
    assert s[from..end + 1][..end - from] == s[from..end];
  }

  lemma ReadEnd(s: string, from: nat, end: nat)
    requires AllDigits(s, from, end) && from < end && (end == |s| || !IsDigit(s[end]))
    ensures var n := DigitsLength(s[from..]);
      n == end - from && s[from..][..n] == s[from..end] && s[from..][..n][..n - 1] == s[from..end - 1]
  {
  }

  lemma ReadOverflow(s: string, from: nat, end: nat)
    requires AllDigits(s, from, end + 1) && from <= end && NumberOf(s[from..end]) > INT_MAX / 10
    ensures var n := DigitsLength(s[from..]); var digits := s[from..][..n];
      n > 0 && end < from + n && NumberOf(digits) > INT_MAX && NumberOf(digits[..n - 1]) > INT_MAX / 10
  {
    hide NumberOf;
    var rest := s[from..];
    var n := DigitsLength(rest);
    assert forall k :: 0 <= k <= end - from ==> rest[k] == s[from + k];
    assert n > end - from;
    assert rest[..n][..end - from] == s[from..end];
    EarlyOverflow(rest[..n], end - from);
  }

  lemma EarlyOverflow(digits: string, k: nat)
    requires k < |digits| && forall i :: 0 <= i < |digits| ==> IsDigit(digits[i])
    requires NumberOf(digits[..k]) > INT_MAX / 10
    ensures NumberOf(digits) > INT_MAX && NumberOf(digits[..|digits| - 1]) > INT_MAX / 10
  {
    var init := digits[..|digits| - 1];
    assert init[..k] == digits[..k];
    NumberGrows(init, k);
    assert NumberOf(digits) >= 10 * NumberOf(init);
  }

  lemma {:induction false} NumberGrows(digits: string, k: nat)
    requires k <= |digits| && forall i :: 0 <= i < |digits| ==> IsDigit(digits[i])
    ensures NumberOf(digits[..k]) <= NumberOf(digits)
  {
    if k < |digits| {
      NumberGrows(digits[..|digits| - 1], k);
      assert digits[..|digits| - 1][..k] == digits[..k];
    } else {
      assert digits[..k] == digits;
    }
  }

  method ParseName(s: string, from: nat) returns (end: nat)
    requires from < |s| && IsNameStart(s[from])
    ensures end == from + NameLength(s[from..])
  {
    end := from + 1;
    while end < |s| && (IsNameStart(s[end]) || IsDigit(s[end]))
      invariant from < end <= from + NameLength(s[from..])
    {
      end := end + 1;
    }
  }

  /** Errors that do not throw are raised and passed over. */
  method ParseArgId(tolerant: bool, s: string, from: nat) returns (r: IdReading)
    requires from < |s|
    ensures r == ArgIdAt(tolerant, s[from..])
  {
    var c := s[from];
    ghost var rest := s[from..];
    if EndsId(c) {
      return GoodId(Next, 0);
    }
    if IsDigit(c) {
      var ok, index, end := true, 0, from + 1;
      if c != '0' {
        ok, index, end := ParseNonnegativeInt(s, from);
        NumberFits(rest[..DigitsLength(rest)]);
      } else {
        assert rest[..1][..0] == [] && NumberOf(rest[..1]) == 0;
      }
      if !ok && !tolerant {
        return BadId;
      }
      if end == |s| || !EndsId(s[end]) {
        return BadId;
      }
      return GoodId(Index(index), end - from);
    }
    if !IsNameStart(c) {
      return BadId;
    }
    var end := ParseName(s, from);
    assert rest[..end - from] == s[from..end];
    return GoodId(Name(s[from..end]), end - from);
  }

  lemma NumberFits(digits: string)
    requires digits != [] && forall k :: 0 <= k < |digits| ==> IsDigit(digits[k])
    ensures NumberOf(digits) <= INT_MAX ==> NumberOf(digits[..|digits| - 1]) <= INT_MAX / 10
  {
  }

  method ParseReplacementField(h: Handler, s: string, from: nat) returns (f: FieldReading)
    requires from < |s| && s[from] == '{'
    ensures f == FieldAt(h, s[from..])
  {
    ghost var field := s[from..];
    var begin := from + 1;
    if begin == |s| {
      return FieldReading([], 0, false);
    }
    if s[begin] == '}' {
      return FieldReading([Arg(Next), EmptyField], 2, true);
    }
    if s[begin] == '{' {
      return FieldReading([Text("{")], 2, true);
    }
    assert field[1..] == s[begin..];
    var r := ParseArgId(h.tolerant, s, begin);
    if r.BadId? {
      return FieldReading([], 0, false);
    }
    begin := begin + r.size;
    if begin < |s| && s[begin] == '}' {
      return FieldReading([Arg(r.id), EmptyField], begin + 1 - from, true);
    }
    if begin < |s| && s[begin] == ':' {
      assert field[1 + r.size + 1..] == s[begin + 1..];
      var end := begin + 1 + Stop(h, s[begin + 1..]);
      return FieldReading([Arg(r.id), Specs(s[begin + 1..])], if end < |s| then end + 1 - from else 0,
                          end < |s| && s[end] == '}');
    }
    return FieldReading([Arg(r.id)], 0, false);
  }

  // ---------------------------------------------------------------- the two loops

  function After(events: seq<Event>, ok: bool, p: Parse): Parse {
    Parse(events + p.events, ok && p.ok)
  }

  /** The events raised so far and those of the rest make up all the events; ok tells of errors so far. */
  ghost predicate Progress(long: bool, h: Handler, s: string, events: seq<Event>, ok: bool, begin: nat) {
    begin <= |s| && Scan(long, h, s) == After(events, ok, Scan(long, h, s[begin..]))
  }

  lemma FirstProgress(long: bool, h: Handler, s: string)
    ensures Progress(long, h, s, [], true, 0)
  {
    assert s[0..] == s;
    assert [] + Scan(long, h, s).events == Scan(long, h, s).events;
  }

  lemma PlainUpTo(s: string, begin: nat, p: nat)
    requires begin <= p <= |s| && (p < |s| ==> !IsPlain(s[p])) && forall k :: begin <= k < p ==> IsPlain(s[k])
    ensures PlainLength(s[begin..]) == p - begin && s[begin..][..p - begin] == s[begin..p]
  {
  }

  lemma AfterThen(a: seq<Event>, ok: bool, b: seq<Event>, p: Parse)
    ensures After(a, ok, Then(b, p)) == After(a + b, ok, p)
  {
    assert a + (b + p.events) == a + b + p.events;
  }

  lemma StepProgress(long: bool, h: Handler, s: string, events: seq<Event>, ok: bool, begin: nat)
    requires Progress(long, h, s, events, ok, begin) && !GoesOn(long, h, s[begin..])
    ensures match Step(h, s[begin..])
            case Finish(more, fine) => Scan(long, h, s) == Parse(events + more, ok && fine)
            case Continue(more, size) => Progress(long, h, s, events + more, ok, begin + size)
  {
    hide Step;
    match Step(h, s[begin..])
    case Finish(more, fine) =>
    case Continue(more, size) =>
      assert s[begin..][size..] == s[begin + size..];
      AfterThen(events, ok, more, Scan(long, h, s[begin + size..]));
  }

  lemma TextProgress(long: bool, h: Handler, s: string, events: seq<Event>, ok: bool, begin: nat, p: nat)
    requires begin <= p < |s| && s[p] == '{' && forall k :: begin <= k < p ==> IsPlain(s[k])
    requires Progress(long, h, s, events, ok, begin)
    ensures Progress(long, h, s, events + TextEvent(s[begin..p]), ok, p)
  {
    hide Progress, FieldAt;
    if begin == p {
      assert events + [] == events;
    } else {
      PlainUpTo(s, begin, p);
      StepProgress(long, h, s, events, ok, begin);
    }
  }

  lemma FieldProgress(long: bool, h: Handler, s: string, events: seq<Event>, ok: bool, p: nat)
    requires p < |s| && s[p] == '{' && Progress(long, h, s, events, ok, p)
    ensures var f := FieldAt(h, s[p..]);
      && (f.ok ==> Progress(long, h, s, events + f.events, ok, p + f.size))
      && (!f.ok ==> Scan(long, h, s) == Parse(events + f.events, false))
  {
    hide Progress, FieldAt;
    PlainUpTo(s, p, p);
    StepProgress(long, h, s, events, ok, p);
  }

  lemma BraceProgress(long: bool, h: Handler, s: string, events: seq<Event>, ok: bool, begin: nat, p: nat)
    requires begin <= p && p + 1 < |s| && s[p] == s[p + 1] == '}' && forall k :: begin <= k < p ==> IsPlain(s[k])
    requires Progress(long, h, s, events, ok, begin)
    ensures Progress(long, h, s, events + [Text(s[begin..p + 1])], ok, p + 2)
  {
    hide Progress, FieldAt, Scan;
    PlainUpTo(s, begin, p);
    StepProgress(long, h, s, events, ok, begin);
    assert s[begin..][..p - begin + 1] == s[begin..p + 1];
  }

  lemma OpeningUpTo(s: string, begin: nat, to: nat)
    requires begin <= to <= |s| && (to < |s| ==> s[to] == '{') && forall k :: begin <= k < to ==> s[k] != '{'
    ensures OpeningAt(s[begin..]) == to - begin
  {
  }

  /** A lone closing brace ends the parse, or else the text up to the next opening brace. */
  lemma LoneProgress(long: bool, h: Handler, s: string, events: seq<Event>, ok: bool, begin: nat, p: nat, to: nat)
    requires begin <= p < to <= |s| && s[p] == '}' && (p + 1 == |s| || s[p + 1] != '}')
    requires forall k :: begin <= k < p ==> IsPlain(s[k])
    requires (to < |s| ==> s[to] == '{') && forall k :: begin <= k < to ==> s[k] != '{'
    requires Progress(long, h, s, events, ok, begin)
    ensures if long && h.tolerant && to < |s| then Progress(long, h, s, events, false, to)
            else Scan(long, h, s) == Parse(events, false)
  {
    hide Progress, FieldAt, Scan;
    PlainUpTo(s, begin, p);
    OpeningUpTo(s, begin, to);
    assert LoneBrace(s[begin..]);
    if long && h.tolerant && to < |s| {
      GoOn(long, h, s, events, ok, begin, to);
    } else {
      StepProgress(long, h, s, events, ok, begin);
      assert events + [] == events;
    }
  }

  lemma GoOn(long: bool, h: Handler, s: string, events: seq<Event>, ok: bool, begin: nat, to: nat)
    requires begin <= to <= |s| && GoesOn(long, h, s[begin..]) && OpeningAt(s[begin..]) == to - begin
    requires Progress(long, h, s, events, ok, begin)
    ensures Progress(long, h, s, events, false, to)
  {
    hide Step, GoesOn;
    assert s[begin..][to - begin..] == s[to..];
  }

  lemma LastText(long: bool, h: Handler, s: string, events: seq<Event>, ok: bool, begin: nat)
    requires begin <= |s| && forall k :: begin <= k < |s| ==> IsPlain(s[k])
    requires Progress(long, h, s, events, ok, begin)
    ensures Scan(long, h, s) == Parse(events + TextEvent(s[begin..]), ok)
  {
    hide Progress, FieldAt, Scan;
    PlainUpTo(s, begin, |s|);
    StepProgress(long, h, s, events, ok, begin);
  }

  /** The loop for short strings. */
  method ParseShort(h: Handler, s: string) returns (result: Parse)
    ensures result == Scan(false, h, s)
  {
    hide Scan, Progress, FieldAt;
    var begin: nat, p: nat := 0, 0;
    var events: seq<Event> := [];
    FirstProgress(false, h, s);
    while p != |s|
      invariant begin <= p <= |s| && forall k :: begin <= k < p ==> IsPlain(s[k])
      invariant Progress(false, h, s, events, true, begin)
      decreases |s| - p
    {
      var c := s[p];
      if c == '{' {
        TextProgress(false, h, s, events, true, begin, p);
        events := events + TextEvent(s[begin..p]);
        FieldProgress(false, h, s, events, true, p);
        var f := ParseReplacementField(h, s, p);
        events := events + f.events;
        if !f.ok {
          return Parse(events, false);
        }
        p := p + f.size;
        begin := p;
      } else if c == '}' {
        p := p + 1;
        if p == |s| || s[p] != '}' {
          LoneAtShort(h, s, events, begin, p - 1);
          return Parse(events, false);
        }
        BraceProgress(false, h, s, events, true, begin, p - 1);
        events := events + [Text(s[begin..p])];
        p := p + 1;
        begin := p;
      } else {
        p := p + 1;
      }
    }
    LastText(false, h, s, events, true, begin);
    return Parse(events + TextEvent(s[begin..]), true);
  }

  lemma LoneAtShort(h: Handler, s: string, events: seq<Event>, begin: nat, p: nat)
    requires begin <= p < |s| && s[p] == '}' && (p + 1 == |s| || s[p + 1] != '}')
    requires forall k :: begin <= k < p ==> IsPlain(s[k])
    requires Progress(false, h, s, events, true, begin)
    ensures Scan(false, h, s) == Parse(events, false)
  {
    hide Progress, Scan;
    PlainUpTo(s, begin, p);
    StepProgress(false, h, s, events, true, begin);
    assert events + [] == events;
  }

  /** memchr. */
  method Find(s: string, from: nat, to: nat, c: char) returns (found: bool, at: nat)
    requires from <= to <= |s|
    ensures from <= at <= to && (found <==> at < to) && (found ==> s[at] == c)
    ensures forall k :: from <= k < at ==> s[k] != c
  {
    at := from;
    while at != to
      invariant from <= at <= to && forall k :: from <= k < at ==> s[k] != c
    {
      if s[at] == c {
        return true, at;
      }
      at := at + 1;
    }
    return false, to;
  }

  /**
   The writer of the long form: text without an opening brace, with closing braces halved. At a
   lone one it reports an error and returns.
   */
  method WriteText(ghost h: Handler, s: string, from: nat, to: nat, events: seq<Event>, ghost fine: bool)
    returns (ok: bool, out: seq<Event>)
    requires from <= to <= |s| && (to < |s| ==> s[to] == '{')
    requires forall k :: from <= k < to ==> s[k] != '{'
    requires Progress(true, h, s, events, fine, from)
    ensures if to == |s| || (!ok && !h.tolerant) then Scan(true, h, s) == Parse(out, fine && ok)
            else Progress(true, h, s, out, fine && ok, to)
  {
    hide Scan, Progress;
    var pbegin: nat := from;
    out := events;
    while true
      invariant from <= pbegin <= to && Progress(true, h, s, out, fine, pbegin)
      decreases |s| - pbegin
    {
      var found, p := Find(s, pbegin, to, '}');
      if !found {
        if to < |s| {
          TextProgress(true, h, s, out, fine, pbegin, to);
        } else {
          LastText(true, h, s, out, fine, pbegin);
          assert s[pbegin..to] == s[pbegin..];
        }
        out := out + TextEvent(s[pbegin..to]);
        return true, out;
      }
      p := p + 1;
      if p == to || s[p] != '}' {
        LoneProgress(true, h, s, out, fine, pbegin, p - 1, to);
        return false, out;
      }
      BraceProgress(true, h, s, out, fine, pbegin, p - 1);
      out := out + [Text(s[pbegin..p])];
      pbegin := p + 1;
    }
  }

  /** The form for long strings. */
  method ParseLong(h: Handler, s: string) returns (result: Parse)
    ensures result == Scan(true, h, s)
  {
    hide Scan, Progress, FieldAt;
    var begin: nat := 0;
    var events: seq<Event> := [];
    var fine := true;
    FirstProgress(true, h, s);
    while begin != |s|
      invariant begin <= |s| && Progress(true, h, s, events, fine, begin)
      decreases |s| - begin
    {
      var p := begin;
      if s[begin] != '{' {
        var found;
        found, p := Find(s, begin + 1, |s|, '{');
      }
      var ok;
      ok, events := WriteText(h, s, begin, p, events, fine);
      fine := fine && ok;
      if p == |s| || (!ok && !h.tolerant) {
        return Parse(events, fine);
      }
      FieldProgress(true, h, s, events, fine, p);
      var f := ParseReplacementField(h, s, p);
      events := events + f.events;
      if !f.ok {
        return Parse(events, false);
      }
      begin := p + f.size;
    }
    LastText(true, h, s, events, fine, begin);
    return Parse(events, fine);
  }

  /** The form is selected by the length. */
  method ParseFormatString(h: Handler, s: string) returns (result: Parse)
    ensures result == Scan(|s| >= SHORT, h, s)
  {
    if |s| < SHORT {
      result := ParseShort(h, s);
    } else {
      result := ParseLong(h, s);
    }
  }

  // ---------------------------------------------------------------- the two forms agree

  lemma SameUntilError(h: Handler, s: string)
    requires !GoesOn(true, h, s)
    ensures var a := Step(h, s);
      if a.Finish? then Scan(true, h, s) == Scan(false, h, s)
      else
        && Scan(true, h, s) == Then(a.events, Scan(true, h, s[a.size..]))
        && Scan(false, h, s) == Then(a.events, Scan(false, h, s[a.size..]))
  {
    hide Step;
  }

  /** A lone brace before an opening one: the short form stops, the long form leaves the text and goes on. */
  lemma AtLoneBrace(h: Handler, s: string)
    requires GoesOn(true, h, s)
    ensures Scan(false, h, s) == Parse([], false)
    ensures Scan(true, h, s) == Scan(true, h, s[OpeningAt(s)..]).(ok := false)
  {
    hide FieldAt;
  }

  /**
   Both forms find the same strings without error, and raise the same events of them. Where errors
   throw they always agree; where they return, the long form may go on behind the events of the short one.
   */
  lemma {:induction false} FormsAgree(h: Handler, s: string)
    ensures Scan(true, h, s).ok == Scan(false, h, s).ok
    ensures Scan(false, h, s).events <= Scan(true, h, s).events
    ensures Scan(true, h, s).ok || !h.tolerant ==> Scan(true, h, s) == Scan(false, h, s)
    decreases |s|
  {
    hide Step, Scan, GoesOn;
    if GoesOn(true, h, s) {
      AtLoneBrace(h, s);
      GoesOnReturns(true, h, s);
    } else {
      SameUntilError(h, s);
      if Step(h, s).Continue? {
        FormsAgree(h, s[Step(h, s).size..]);
      }
    }
  }

  lemma GoesOnReturns(long: bool, h: Handler, s: string)
    requires GoesOn(long, h, s)
    ensures h.tolerant && 0 < OpeningAt(s) < |s|
  {
  }

  /** A brace or an argument id behind the opening brace: the field raises something. */
  predicate StartsField(h: Handler, s: string)
    requires s != [] && s[0] == '{'
  {
    |s| > 1 && (s[1] == '}' || s[1] == '{' || ArgIdAt(h.tolerant, s[1..]).GoodId?)
  }

  /** On the way through the string there is a lone brace that the handler passes over, and a field next. */
  predicate FieldBehindLone(h: Handler, s: string)
    decreases |s|
  {
    if GoesOn(true, h, s) then StartsField(h, s[OpeningAt(s)..])
    else
      match Step(h, s)
      case Finish(_, _) => false
      case Continue(_, size) => FieldBehindLone(h, s[size..])
  }

  lemma FieldRaises(h: Handler, s: string)
    requires s != [] && s[0] == '{'
    ensures FieldAt(h, s).events != [] <==> StartsField(h, s)
    ensures FieldAt(h, s).ok ==> StartsField(h, s)
  {
    hide ArgIdAt;
  }

  /** At an opening brace the parse raises nothing exactly if its field does not. */
  lemma ScanRaises(h: Handler, s: string)
    requires s != [] && s[0] == '{'
    ensures Scan(true, h, s).events != [] <==> StartsField(h, s)
  {
    FieldRaises(h, s);
    hide FieldAt, StartsField;
    assert PlainLength(s) == 0 && !GoesOn(true, h, s);
  }

  /** Both forms come to the same if and only if no field follows such a lone brace. */
  lemma {:induction false} FormsAgreeExactly(h: Handler, s: string)
    ensures Scan(true, h, s) == Scan(false, h, s) <==> !FieldBehindLone(h, s)
    ensures Scan(true, h, s).events == Scan(false, h, s).events <==> !FieldBehindLone(h, s)
    decreases |s|
  {
    hide Step, Scan, GoesOn, StartsField;
    FormsAgree(h, s);
    if GoesOn(true, h, s) {
      AtLoneBrace(h, s);
      GoesOnReturns(true, h, s);
      ScanRaises(h, s[OpeningAt(s)..]);
    } else {
      SameUntilError(h, s);
      if Step(h, s).Continue? {
        var rest := s[Step(h, s).size..];
        FormsAgreeExactly(h, rest);
        ThenInjective(Step(h, s).events, Scan(true, h, rest), Scan(false, h, rest));
      }
    }
  }

  lemma ThenInjective(events: seq<Event>, p: Parse, q: Parse)
    ensures Then(events, p) == Then(events, q) <==> p == q
    ensures Then(events, p).events == Then(events, q).events <==> p.events == q.events
  {
    assert Then(events, p).events[|events|..] == p.events && Then(events, q).events[|events|..] == q.events;
  }

  /** Where errors return, a field behind a lone brace is an event of the long form only. */
  lemma LongFormGoesOn(h: Handler, text: string)
    requires h.tolerant && PlainLength(text) == |text|
    ensures var s := text + "}{}";
      Scan(false, h, s).events == [] && Scan(true, h, s).events == [Arg(Next), EmptyField]
  {
    var s := text + "}{}";
    PlainUpTo(s, 0, |text|);
    OpeningUpTo(s, 0, |text| + 1);
    assert s[0..] == s;
    AtLoneBrace(h, s);
    assert s[|text| + 1..] == "{}" && "{}"[2..] == "";
    FieldOnly(h);
  }

  lemma FieldOnly(h: Handler)
    ensures Scan(true, h, "{}").events == [Arg(Next), EmptyField]
  {
    assert PlainLength("{}") == 0 && "{}"[2..] == "" && PlainLength("") == 0;
    assert Step(h, "{}") == Continue([Arg(Next), EmptyField], 2);
    assert Step(h, "") == Finish([], true);
    assert !GoesOn(true, h, "{}") && !GoesOn(true, h, "");
    hide Step, GoesOn;
    assert Scan(true, h, "") == Parse([], true);
  }

  // ---------------------------------------------------------------- what every parse is like

  predicate IsField(e: Event) {
    e.EmptyField? || e.Specs?
  }

  /** Each argument id is followed at once by its one field event; only the last may be missing. */
  predicate Paired(events: seq<Event>) {
    && (events != [] ==> !IsField(events[0]))
    && (forall k :: 0 < k < |events| ==> (IsField(events[k]) <==> events[k - 1].Arg?))
  }

  /** No id is left without its field. */
  predicate Complete(events: seq<Event>) {
    Paired(events) && (events != [] ==> !events[|events| - 1].Arg?)
  }

  lemma PairedConcat(a: seq<Event>, b: seq<Event>)
    requires Complete(a) && Paired(b)
    ensures Paired(a + b) && (Complete(b) ==> Complete(a + b))
  {
  }

  lemma StepPaired(h: Handler, s: string)
    ensures match Step(h, s)
            case Finish(events, ok) => Paired(events) && (ok ==> Complete(events))
            case Continue(events, size) => Complete(events)
  {
  }

  /** Whatever the string and the handler, fields are raised as an id and then one field event. */
  lemma {:induction false} ScanPaired(long: bool, h: Handler, s: string)
    ensures Paired(Scan(long, h, s).events) && (Scan(long, h, s).ok ==> Complete(Scan(long, h, s).events))
    decreases |s|
  {
    StepPaired(h, s);
    hide Step, GoesOn;
    if GoesOn(long, h, s) {
      GoesOnReturns(long, h, s);
      ScanPaired(long, h, s[OpeningAt(s)..]);
    } else if Step(h, s).Continue? {
      var a := Step(h, s);
      ScanPaired(long, h, s[a.size..]);
      PairedConcat(a.events, Scan(long, h, s[a.size..]).events);
    }
  }

  /** A text with every brace doubled. */
  function Escaped(text: string): string {
    if text == [] then []
    else (if IsPlain(text[0]) then [text[0]] else [text[0], text[0]]) + Escaped(text[1..])
  }

  function TextOf(events: seq<Event>): string {
    if events == [] then [] else (if events[0].Text? then events[0].text else []) + TextOf(events[1..])
  }

  /** A parse that only raises text, and this text. */
  predicate Spells(p: Parse, text: string) {
    p.ok && TextOf(p.events) == text && forall k :: 0 <= k < |p.events| ==> p.events[k].Text?
  }

  lemma SpellsMore(t: string, p: Parse, text: string)
    requires Spells(p, text)
    ensures Spells(Then([Text(t)], p), t + text)
  {
    assert ([Text(t)] + p.events)[1..] == p.events;
  }

  /** Up to its first brace a text is its own escaped form, and there the brace is doubled. */
  lemma {:induction false} EscapedAt(text: string)
    ensures var n, s := PlainLength(text), Escaped(text);
      && |s| >= n
      && (forall k :: 0 <= k < n ==> s[k] == text[k])
      && (n == |text| ==> |s| == n)
      && (n < |text| ==> |s| >= n + 2 && s[n] == s[n + 1] == text[n] && s[n + 2..] == Escaped(text[n + 1..]))
  {
    var n, s := PlainLength(text), Escaped(text);
    if n > 0 {
      var rest := text[1..];
      EscapedAt(rest);
      assert s[1..] == Escaped(rest) && PlainLength(rest) == n - 1;
      hide Escaped;
      if n < |text| {
        assert rest[n..] == text[n + 1..] && s[1..][n + 1..] == s[n + 2..];
      }
    } else if text != [] {
      assert s == [text[0], text[0]] + Escaped(text[1..]);
      assert s[2..] == Escaped(text[1..]);
    }
  }

  lemma ScanStep(long: bool, h: Handler, s: string, events: seq<Event>, size: nat)
    requires Step(h, s) == Continue(events, size)
    ensures !GoesOn(long, h, s) && Scan(long, h, s) == Then(events, Scan(long, h, s[size..]))
  {
    NotLone(h, s);
    hide Step;
  }

  lemma NotLone(h: Handler, s: string)
    requires Step(h, s).Continue?
    ensures !LoneBrace(s)
  {
    hide FieldAt;
  }

  lemma StepClosing(h: Handler, s: string, p: nat)
    requires p + 1 < |s| && s[p] == s[p + 1] == '}' && forall k :: 0 <= k < p ==> IsPlain(s[k])
    ensures Step(h, s) == Continue([Text(s[..p + 1])], p + 2)
  {
    hide FieldAt;
    PlainUpTo(s, 0, p);
    assert s[0..] == s;
  }

  lemma DoubledClosing(long: bool, h: Handler, s: string, p: nat, text: string)
    requires p + 1 < |s| && s[p] == s[p + 1] == '}' && forall k :: 0 <= k < p ==> IsPlain(s[k])
    requires Spells(Scan(long, h, s[p + 2..]), text)
    ensures Spells(Scan(long, h, s), s[..p + 1] + text)
  {
    hide Scan, Spells, Step;
    StepClosing(h, s, p);
    ScanStep(long, h, s, [Text(s[..p + 1])], p + 2);
    SpellsMore(s[..p + 1], Scan(long, h, s[p + 2..]), text);
  }

  lemma DoubledOpening(long: bool, h: Handler, s: string, text: string)
    requires |s| >= 2 && s[0] == s[1] == '{'
    requires Spells(Scan(long, h, s[2..]), text)
    ensures Spells(Scan(long, h, s), "{" + text)
  {
    assert Step(h, s) == Continue([Text("{")], 2);
    hide Scan, Spells, Step;
    ScanStep(long, h, s, [Text("{")], 2);
    SpellsMore("{", Scan(long, h, s[2..]), text);
  }

  lemma PlainThenOpening(long: bool, h: Handler, s: string, p: nat, text: string)
    requires 0 < p < |s| && s[p] == '{' && forall k :: 0 <= k < p ==> IsPlain(s[k])
    requires Spells(Scan(long, h, s[p..]), text)
    ensures Spells(Scan(long, h, s), s[..p] + text)
  {
    PlainUpTo(s, 0, p);
    assert s[0..] == s;
    assert Step(h, s) == Continue([Text(s[..p])], p);
    hide Scan, Spells, Step;
    ScanStep(long, h, s, [Text(s[..p])], p);
    SpellsMore(s[..p], Scan(long, h, s[p..]), text);
  }

  lemma ScanPlain(long: bool, h: Handler, text: string)
    requires PlainLength(text) == |text|
    ensures Spells(Scan(long, h, text), text)
  {
    if text != [] {
      assert [Text(text)][1..] == [] && text + [] == text;
    }
  }

  /** Formatting a text with its braces doubled gives the text back. */
  lemma {:induction false} EscapedSpellsText(long: bool, h: Handler, text: string)
    ensures Spells(Scan(long, h, Escaped(text)), text)
    decreases |text|
  {
    hide Spells, Scan, Escaped;
    var n, s := PlainLength(text), Escaped(text);
    EscapedAt(text);
    if n == |text| {
      assert s == text;
      ScanPlain(long, h, text);
    } else {
      var rest := text[n + 1..];
      EscapedSpellsText(long, h, rest);
      if text[n] == '}' {
        DoubledClosing(long, h, s, n, rest);
        assert s[..n + 1] + rest == text;
      } else {
        assert s[n..][2..] == s[n + 2..];
        DoubledOpening(long, h, s[n..], rest);
        if n > 0 {
          PlainThenOpening(long, h, s, n, "{" + rest);
          assert s[..n] + ("{" + rest) == text;
        } else {
          assert s[0..] == s && "{" + rest == text;
        }
      }
    }
  }
}
