/**
 The parser for put_time-like format strings. It moves two pointers over the text and raises
 an event for every text slice and every directive; it is run twice over the same text, once
 with a handler that refuses all date directives and once with the handler that writes.
 */
module ChronoFormat {

  const PLAIN: set<char> :=
    {'a', 'A', 'w', 'u', 'b', 'B', 'H', 'I', 'M', 'S', 'c', 'x', 'X', 'D', 'F',
     'r', 'R', 'T', 'p', 'Q', 'q', 'z', 'Z'}
  const ESCAPES: set<char> := {'%', 'n', 't'}
  const E_FORMS: set<char> := {'c', 'x', 'X'}
  const O_FORMS: set<char> := {'w', 'u', 'H', 'I', 'M', 'S'}
  const DATES: set<char> := {'a', 'A', 'w', 'u', 'b', 'B', 'c', 'x', 'X', 'D', 'F', 'z', 'Z'}

  /** A text slice, one of the three escapes, or a directive, possibly in its alternative form. */
  datatype Event =
    | Raw(text: string)
    | Escape(letter: char)
    | Field(letter: char, alternative: bool)

  /** What parsing comes to, with the events raised before an error. */
  datatype Outcome =
    | Parsed(end: nat, events: seq<Event>)
    | InvalidFormat(events: seq<Event>)
    | NoDate(events: seq<Event>)

  function Spelling(e: Event): string {
    match e
    case Raw(text) => text
    case Escape(c) => ['%', c]
    case Field(c, alternative) => if alternative then ['%', if c in E_FORMS then 'E' else 'O', c] else ['%', c]
  }

  function Flatten(events: seq<Event>): string {
    if events == [] then [] else Spelling(events[0]) + Flatten(events[1..])
  }

  predicate IsDate(e: Event) {
    e.Field? && e.letter in DATES
  }

  predicate IsPlain(c: char) {
    c != '%' && c != '}'
  }

  predicate Legal(e: Event) {
    match e
    case Raw(text) => text != [] && forall k :: 0 <= k < |text| ==> IsPlain(text[k])
    case Escape(c) => c in ESCAPES
    case Field(c, alternative) => if alternative then c in E_FORMS || c in O_FORMS else c in PLAIN
  }

  /** Legal events whose text slices are as long as possible. */
  ghost predicate WellFormed(events: seq<Event>) {
    && (forall k :: 0 <= k < |events| ==> Legal(events[k]))
    && (forall k :: 0 < k < |events| ==> !(events[k - 1].Raw? && events[k].Raw?))
  }

  // ---------------------------------------------------------------- reference parser

  /** The length of the longest text slice at the front. */
  function TextLength(s: string): (n: nat)
    ensures n <= |s|
    ensures forall k :: 0 <= k < n ==> IsPlain(s[k])
    ensures n == |s| || !IsPlain(s[n])
  {
    if s == [] || !IsPlain(s[0]) then 0 else 1 + TextLength(s[1..])
  }

  datatype Reading = NoDirective | Read(event: Event)

  /** The escape or directive at the front; it is determined by the text. */
  function Directive(s: string): (r: Reading)
    ensures r.Read? ==> Legal(r.event) && !r.event.Raw? && Spelling(r.event) <= s
  {
    if |s| < 2 || s[0] != '%' then NoDirective
    else if s[1] == 'E' then if |s| > 2 && s[2] in E_FORMS then Read(Field(s[2], true)) else NoDirective
    else if s[1] == 'O' then if |s| > 2 && s[2] in O_FORMS then Read(Field(s[2], true)) else NoDirective
    else if s[1] in ESCAPES then Read(Escape(s[1]))
    else if s[1] in PLAIN then Read(Field(s[1], false))
    else NoDirective
  }

  /** Spellings form a prefix-free code: what is spelled at the front is what is read there. */
  lemma DirectiveReads(e: Event, rest: string)
    requires Legal(e) && !e.Raw?
    ensures Directive(Spelling(e) + rest) == Read(e)
  {
    var s := Spelling(e) + rest;
    match e
    case Escape(c) => assert s[0] == '%' && s[1] == c;
    case Field(c, alternative) =>
      assert s[0] == '%' && s[|Spelling(e)| - 1] == c;
      assert alternative ==> s[1] == if c in E_FORMS then 'E' else 'O';
  }

  function Before(e: Event, o: Outcome): Outcome {
    match o
    case Parsed(end, events) => Parsed(|Spelling(e)| + end, [e] + events)
    case InvalidFormat(events) => InvalidFormat([e] + events)
    case NoDate(events) => NoDate([e] + events)
  }

  function Scan(s: string, checking: bool): Outcome {
    if s == [] || s[0] == '}' then Parsed(0, [])
    else if s[0] != '%' then
      var n := TextLength(s);
      Before(Raw(s[..n]), Scan(s[n..], checking))
    else
      match Directive(s)
      case NoDirective => InvalidFormat([])
      case Read(e) => if checking && IsDate(e) then NoDate([]) else Before(e, Scan(s[|Spelling(e)|..], checking))
  }

  // ---------------------------------------------------------------- the parser

  /** The outcome of a text after some events of it have been raised. */
  function After(events: seq<Event>, o: Outcome): Outcome {
    match o
    case Parsed(end, more) => Parsed(|Flatten(events)| + end, events + more)
    case InvalidFormat(more) => InvalidFormat(events + more)
    case NoDate(more) => NoDate(events + more)
  }

  lemma {:induction false} FlattenAppend(events: seq<Event>, e: Event)
    ensures Flatten(events + [e]) == Flatten(events) + Spelling(e)
  {
    if events == [] {
      assert [e][1..] == [];
      assert Flatten([e]) == Spelling(e) + [];
    } else {
      assert (events + [e])[1..] == events[1..] + [e];
      FlattenAppend(events[1..], e);
    }
  }

  lemma AfterNothing(o: Outcome)
    ensures After([], o) == o && Flatten([]) == []
  {
    match o
    case Parsed(_, more) => assert [] + more == more;
    case InvalidFormat(more) => assert [] + more == more;
    case NoDate(more) => assert [] + more == more;
  }

  lemma AfterBefore(events: seq<Event>, e: Event, o: Outcome)
    ensures After(events, Before(e, o)) == After(events + [e], o)
  {
    FlattenAppend(events, e);
    assert forall more: seq<Event> :: events + ([e] + more) == events + [e] + more;
  }

  /** The events raised so far spell the text before begin, and the rest is still to be scanned. */
  ghost predicate Progress(s: string, checking: bool, events: seq<Event>, begin: nat) {
    && |Flatten(events)| == begin <= |s|
    && Scan(s, checking) == After(events, Scan(s[begin..], checking))
  }

  lemma FirstProgress(s: string, checking: bool)
    ensures Progress(s, checking, [], 0)
  {
    AfterNothing(Scan(s, checking));
    assert s[0..] == s;
  }

  lemma RawProgress(s: string, checking: bool, events: seq<Event>, begin: nat, ptr: nat)
    requires begin < ptr <= |s| && forall k :: begin <= k < ptr ==> IsPlain(s[k])
    requires ptr == |s| || !IsPlain(s[ptr])
    requires Progress(s, checking, events, begin)
    ensures Progress(s, checking, events + [Raw(s[begin..ptr])], ptr)
  {
    var text, rest := s[begin..ptr], s[begin..];
    assert TextLength(rest) == |text| && rest[..|text|] == text && rest[|text|..] == s[ptr..];
    ScanRaw(rest, checking, text);
    hide Scan, TextLength;
    RawSpelling(text);
    FlattenAppend(events, Raw(text));
    AfterBefore(events, Raw(text), Scan(s[ptr..], checking));
  }

  lemma DirectiveProgress(s: string, checking: bool, events: seq<Event>, begin: nat, e: Event)
    requires begin < |s| && s[begin] == '%' && Directive(s[begin..]) == Read(e) && !(checking && IsDate(e))
    requires Progress(s, checking, events, begin)
    ensures Progress(s, checking, events + [e], begin + |Spelling(e)|)
  {
    FlattenAppend(events, e);
    assert s[begin..][|Spelling(e)|..] == s[begin + |Spelling(e)|..];
    AfterBefore(events, e, Scan(s[begin + |Spelling(e)|..], checking));
  }

  lemma StopAtDirective(s: string, checking: bool, events: seq<Event>, begin: nat)
    requires begin < |s| && s[begin] == '%' && Progress(s, checking, events, begin)
    ensures Directive(s[begin..]).NoDirective? ==> Scan(s, checking) == InvalidFormat(events)
    ensures Directive(s[begin..]).Read? && checking && IsDate(Directive(s[begin..]).event) ==>
              Scan(s, checking) == NoDate(events)
  {
  }

  lemma StopAtEnd(s: string, checking: bool, events: seq<Event>, begin: nat)
    requires Progress(s, checking, events, begin) && (begin == |s| || s[begin] == '}')
    ensures Scan(s, checking) == Parsed(begin, events)
  {
  }

  /** The two switch statements, on the letters behind a percent sign. */
  method ReadDirective(s: string, percent: nat) returns (r: Reading, ptr: nat)
    requires percent < |s| && s[percent] == '%'
    ensures r == Directive(s[percent..])
    ensures r.Read? ==> percent < ptr <= |s| && ptr == percent + |Spelling(r.event)|
  {
    ptr := percent + 1;
    if ptr == |s| {
      return NoDirective, ptr;
    }
    var c := s[ptr];
    ptr := ptr + 1;
    if c == 'E' || c == 'O' {
      if ptr == |s| {
        return NoDirective, ptr;
      }
      var letter := s[ptr];
      ptr := ptr + 1;
      r := if (c == 'E' && letter in E_FORMS) || (c == 'O' && letter in O_FORMS)
      then Read(Field(letter, true)) else NoDirective;
    } else if c in ESCAPES {
      r := Read(Escape(c));
    } else {
      r := if c in PLAIN then Read(Field(c, false)) else NoDirective;
    }
  }

  method ParseChronoFormat(s: string, checking: bool) returns (outcome: Outcome)
    ensures outcome == Scan(s, checking)
  {
    hide Spelling, Directive, Progress, Scan;
    var begin: nat, ptr: nat := 0, 0;
    var events: seq<Event> := [];
    FirstProgress(s, checking);
    while ptr != |s| && s[ptr] != '}'
      invariant begin <= ptr <= |s|
      invariant forall k :: begin <= k < ptr ==> IsPlain(s[k])
      invariant Progress(s, checking, events, begin)
      decreases |s| - ptr
    {
      if s[ptr] != '%' {
        ptr := ptr + 1;
        continue;
      }
      if begin != ptr {
        RawProgress(s, checking, events, begin, ptr);
        events := events + [Raw(s[begin..ptr])];
      }
      StopAtDirective(s, checking, events, ptr);
      var r, next := ReadDirective(s, ptr);
      if r.NoDirective? {
        return InvalidFormat(events);
      }
      if checking && IsDate(r.event) {
        return NoDate(events);
      }
      DirectiveProgress(s, checking, events, ptr, r.event);
      events := events + [r.event];
      ptr := next;
      begin := ptr;
    }
    if begin != ptr {
      RawProgress(s, checking, events, begin, ptr);
      events := events + [Raw(s[begin..ptr])];
    }
    StopAtEnd(s, checking, events, ptr);
    return Parsed(ptr, events);
  }

  // ---------------------------------------------------------------- what is accepted

  /** The spellings of the events cover s up to end without gap or overlap. */
  ghost predicate Tiles(s: string, end: nat, events: seq<Event>) {
    && WellFormed(events)
    && end == |Flatten(events)| <= |s| && s[..end] == Flatten(events)
    && (end == |s| || s[end] == '}')
  }

  predicate HasNoDate(events: seq<Event>) {
    forall k :: 0 <= k < |events| ==> !IsDate(events[k])
  }

  lemma TilesCons(s: string, e: Event, end: nat, events: seq<Event>)
    requires Legal(e) && Spelling(e) <= s && Tiles(s[|Spelling(e)|..], end, events)
    requires events != [] ==> !(e.Raw? && events[0].Raw?)
    ensures Tiles(s, |Spelling(e)| + end, [e] + events)
  {
    hide Spelling, Legal;
    var n, all := |Spelling(e)|, [e] + events;
    assert all[1..] == events;
    assert s[..n + end] == s[..n] + s[n..][..end];
  }

  lemma TilesTail(s: string, end: nat, events: seq<Event>)
    requires Tiles(s, end, events) && events != []
    ensures var e := events[0];
      && Legal(e) && Spelling(e) <= s && |Spelling(e)| <= end
      && Tiles(s[|Spelling(e)|..], end - |Spelling(e)|, events[1..])
  {
    hide Spelling, Legal;
    var n := |Spelling(events[0])|;
    assert s[..end][..n] == s[..n];
    assert s[n..][..end - n] == s[..end][n..];
  }

  lemma ScanStart(s: string, checking: bool)
    requires Scan(s, checking).Parsed? && s != [] && !IsPlain(s[0])
    ensures var events := Scan(s, checking).events; events != [] ==> !events[0].Raw?
  {
  }

  /** Whatever the parser accepts, the events it raises tile the text up to where it stops. */
  lemma {:induction false} ParsedTiles(s: string, checking: bool)
    requires Scan(s, checking).Parsed?
    ensures Tiles(s, Scan(s, checking).end, Scan(s, checking).events)
    ensures checking ==> HasNoDate(Scan(s, checking).events)
    decreases |s|
  {
    hide Spelling, Directive, Tiles;
    if s == [] || s[0] == '}' {
      TilesNothing(s);
    } else if s[0] != '%' {
      var n := TextLength(s);
      assert Spelling(Raw(s[..n])) == s[..n] by { RawSpelling(s[..n]); }
      ParsedTiles(s[n..], checking);
      if n < |s| {
        ScanStart(s[n..], checking);
      }
      TilesCons(s, Raw(s[..n]), Scan(s[n..], checking).end, Scan(s[n..], checking).events);
    } else {
      var e := Directive(s).event;
      DirectiveSize(e);
      var rest := s[|Spelling(e)|..];
      ParsedTiles(rest, checking);
      TilesCons(s, e, Scan(rest, checking).end, Scan(rest, checking).events);
    }
  }

  lemma RawSpelling(text: string)
    ensures Spelling(Raw(text)) == text
  {
  }

  lemma DirectiveSize(e: Event)
    requires !e.Raw?
    ensures |Spelling(e)| >= 2 && Spelling(e)[0] == '%'
  {
  }

  lemma TilesNothing(s: string)
    requires s == [] || s[0] == '}'
    ensures Tiles(s, 0, [])
  {
  }

  lemma ScanRaw(s: string, checking: bool, text: string)
    requires text != [] && text <= s && TextLength(s) == |text|
    ensures Scan(s, checking) == Before(Raw(text), Scan(s[|text|..], checking))
  {
    assert s[..|text|] == text && IsPlain(s[0]);
  }

  lemma ScanDirective(s: string, checking: bool, e: Event)
    requires Legal(e) && !e.Raw? && Spelling(e) <= s && !(checking && IsDate(e))
    ensures Scan(s, checking) == Before(e, Scan(s[|Spelling(e)|..], checking))
  {
    DirectiveSize(e);
    hide Spelling, Directive, Legal;
    assert s == Spelling(e) + s[|Spelling(e)|..];
    DirectiveReads(e, s[|Spelling(e)|..]);
  }

  /** Wherever the events tile the text, the parser raises exactly them. */
  lemma {:induction false} TiledParses(s: string, checking: bool, end: nat, events: seq<Event>)
    requires Tiles(s, end, events) && (checking ==> HasNoDate(events))
    ensures Scan(s, checking) == Parsed(end, events)
    decreases |events|
  {
    if events == [] {
    } else {
      hide Scan, Spelling, Tiles, Legal;
      var e := events[0];
      var n := |Spelling(e)|;
      TilesTail(s, end, events);
      TiledParses(s[n..], checking, end - n, events[1..]);
      assert events == [e] + events[1..];
      if e.Raw? {
        RawSpelling(e.text);
        TextEnds(s, end, events);
        ScanRaw(s, checking, e.text);
      } else {
        ScanDirective(s, checking, e);
      }
    }
  }

  /** A tiling text slice is as long as the text slice that the parser sees. */
  lemma TextEnds(s: string, end: nat, events: seq<Event>)
    requires Tiles(s, end, events) && events != [] && events[0].Raw?
    ensures events[0].text != [] && events[0].text <= s && TextLength(s) == |events[0].text|
  {
    var text := events[0].text;
    TilesTail(s, end, events);
    if |events| > 1 {
      TilesTail(s[|text|..], end - |text|, events[1..]);
      DirectiveSize(events[1]);
      hide Spelling;
      assert s[|text|] == s[|text|..][0];
    } else {
      assert events[1..] == [];
      assert Flatten(events) == text + [];
    }
    hide Spelling, Flatten;
  }

  /** The parser accepts a text with these events exactly when they tile it and dates are allowed or absent. */
  lemma ParsedExactly(s: string, checking: bool, end: nat, events: seq<Event>)
    ensures Scan(s, checking) == Parsed(end, events) <==> Tiles(s, end, events) && (checking ==> HasNoDate(events))
  {
    hide Scan, Tiles, HasNoDate;
    if Scan(s, checking) == Parsed(end, events) {
      ParsedTiles(s, checking);
    }
    if Tiles(s, end, events) && (checking ==> HasNoDate(events)) {
      TiledParses(s, checking, end, events);
    }
  }

  /** Two tilings of a text are the same. */
  lemma TilingUnique(s: string, end: nat, events: seq<Event>, end': nat, events': seq<Event>)
    requires Tiles(s, end, events) && Tiles(s, end', events')
    ensures end == end' && events == events'
  {
    TiledParses(s, false, end, events);
    TiledParses(s, false, end', events');
  }

  /** The second pass, over what the first one consumed, consumes it all and raises the same events. */
  lemma SecondPassRepeats(s: string, end: nat, events: seq<Event>)
    requires Scan(s, true) == Parsed(end, events)
    ensures end <= |s|
    ensures Scan(s[..end], false) == Parsed(end, events) && Scan(s[..end], true) == Parsed(end, events)
  {
    hide Scan, WellFormed;
    ParsedExactly(s, true, end, events);
    assert Tiles(s[..end], end, events);
    ParsedExactly(s[..end], false, end, events);
    ParsedExactly(s[..end], true, end, events);
  }
}
