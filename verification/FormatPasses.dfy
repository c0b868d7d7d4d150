/**
 The counting and the emitting pass over the same string. They raise the same events until a
 field whose type character is an opening brace: there the counting pass skips on to some later
 closing brace, and whatever is emitted behind the field is counted too low.
 */
module FormatPasses {
  import opened Decimals
  import opened FormatParser
  import opened FormatSpecs
  import opened FormatParts
  import opened ParseContext

  // ---------------------------------------------------------------- one step of a pass

  lemma CountStep(long: bool, s: string)
    requires Step(COUNTING, s).Continue?
    ensures var a := Step(COUNTING, s); CountPass(long, s) == Count(a.events) + CountPass(long, s[a.size..])
  {
    hide Step, Count;
    var a := Step(COUNTING, s);
    ScanStep(long, COUNTING, s, a.events, a.size);
    CountConcat(a.events, Scan(long, COUNTING, s[a.size..]).events);
  }

  lemma EmitStep(long: bool, st: State, s: string)
    requires Step(EMITTING, s).Continue?
    ensures var a := Step(EMITTING, s);
      && EmitPass(long, st, s) == EmitPass(long, Compiled(st, a.events), s[a.size..])
      && Scan(long, EMITTING, s).ok == Scan(long, EMITTING, s[a.size..]).ok
  {
    hide Step, Compiled;
    var a := Step(EMITTING, s);
    ScanStep(long, EMITTING, s, a.events, a.size);
    CompiledConcat(st, a.events, Scan(long, EMITTING, s[a.size..]).events);
  }

  lemma {:induction false} PartsGrow(st: State, events: seq<Event>)
    ensures Compiled(st, events).ok ==> st.ok
    ensures |st.parts| <= |Compiled(st, events).parts|
  {
    if events != [] {
      PartsGrow(st, events[..|events| - 1]);
      OneEvent(Compiled(st, events[..|events| - 1]), events[|events| - 1]);
      hide AfterEvent;
    }
  }

  /** What the events of one step can be. */
  predicate OneThing(events: seq<Event>) {
    || (|events| == 1 && events[0].Text? && events[0].text != [])
    || (|events| == 2 && events[0].Arg? && IsField(events[1]))
  }

  lemma StepIsOneThing(h: Handler, s: string)
    requires Step(h, s).Continue?
    ensures OneThing(Step(h, s).events)
  {
  }

  lemma OneThingCounts(st: State, events: seq<Event>)
    requires OneThing(events)
    ensures Count(events) == 1
    ensures |Compiled(st, events).parts| <= |st.parts| + 1
    ensures Compiled(st, events).ok ==> |Compiled(st, events).parts| == |st.parts| + 1
  {
    var init := events[..|events| - 1];
    assert |init| == 1 ==> init[..0] == [];
    assert Count(init) == if |init| == 1 then CountOf(events[0]) else 0;
    assert Compiled(st, init) == if |init| == 1 then AfterEvent(st, events[0]) else st;
    OneEvent(st, events[0]);
    if |init| == 1 {
      OneEvent(AfterEvent(st, events[0]), events[1]);
    }
    hide AfterEvent;
  }

  /** A step of the emitting pass adds one part, and the pass goes on without error behind it. */
  lemma EmitsOn(long: bool, st: State, s: string)
    requires Emits(long, st, s) && Step(EMITTING, s).Continue?
    ensures var a := Step(EMITTING, s); var st' := Compiled(st, a.events);
      && Emits(long, st', s[a.size..])
      && Added(long, st, s) == 1 + Added(long, st', s[a.size..])
  {
    hide Step, Compiled;
    var a := Step(EMITTING, s);
    EmitStep(long, st, s);
    PartsGrow(Compiled(st, a.events), Scan(long, EMITTING, s[a.size..]).events);
    StepIsOneThing(EMITTING, s);
    OneThingCounts(st, a.events);
  }

  // ---------------------------------------------------------------- the passes side by side

  lemma SameId(s: string)
    requires s != [] && ArgIdAt(false, s).GoodId?
    ensures ArgIdAt(true, s) == ArgIdAt(false, s)
  {
  }

  lemma ReadToTheEnd(rest: string)
    requires SpecsEnd(rest) < |rest| && rest[SpecsEnd(rest)] == '}'
    ensures Closed(rest)
  {
  }

  /** What follows the id of a field. */
  lemma BehindId(h: Handler, s: string, id: ArgId, k: nat)
    requires |s| > 1 && s[0] == '{' && s[1] != '}' && s[1] != '{' && ArgIdAt(h.tolerant, s[1..]) == GoodId(id, k)
    ensures var at := 1 + k;
      && (at < |s| && s[at] == '}' ==> FieldAt(h, s) == FieldReading([Arg(id), EmptyField], at + 1, true))
      && (at < |s| && s[at] == ':' ==>
            var end := at + 1 + Stop(h, s[at + 1..]);
            FieldAt(h, s) == FieldReading([Arg(id), Specs(s[at + 1..])], if end < |s| then end + 1 else 0,
                                          end < |s| && s[end] == '}'))
      && (at == |s| || (s[at] != '}' && s[at] != ':') ==> !FieldAt(h, s).ok)
  {
    hide ArgIdAt;
  }

  lemma HasId(s: string)
    requires |s| > 1 && s[0] == '{' && s[1] != '}' && s[1] != '{' && FieldAt(EMITTING, s).ok
    ensures ArgIdAt(false, s[1..]).GoodId?
  {
    hide ArgIdAt;
  }

  /** The end of a field with specs, for both handlers. */
  lemma SpecsTwice(s: string, from: nat)
    requires from < |s| && from + SpecsEnd(s[from..]) < |s| && s[from + SpecsEnd(s[from..])] == '}'
    ensures var rest := s[from..]; var size := from + SpecsEnd(rest) + 1;
      && Closed(rest)
      && (!BraceType(rest) ==> MatchingBrace(rest, 0) == SpecsEnd(rest))
      && (BraceType(rest) ==> from + MatchingBrace(rest, 0) == size + MatchingBrace(s[size..], 0))
  {
    hide SpecsAt;
    var rest := s[from..];
    ReadToTheEnd(rest);
    StopsDiffer(rest);
    if BraceType(rest) {
      SkippedBehind(rest);
      assert rest[SpecsEnd(rest) + 1..] == s[from + SpecsEnd(rest) + 1..];
    }
  }

  lemma SpecsFieldTwice(s: string, id: ArgId, k: nat)
    requires |s| > 1 && s[0] == '{' && s[1] != '}' && s[1] != '{' && 1 + k < |s| && s[1 + k] == ':'
    requires ArgIdAt(false, s[1..]) == GoodId(id, k) && ArgIdAt(true, s[1..]) == GoodId(id, k)
    requires FieldAt(EMITTING, s).ok
    ensures var rest := s[2 + k..]; var n := SpecsEnd(rest); var m := MatchingBrace(rest, 0);
      && n < |rest| && rest[n] == '}'
      && FieldAt(EMITTING, s) == FieldReading([Arg(id), Specs(rest)], 2 + k + n + 1, true)
      && FieldAt(COUNTING, s)
         == FieldReading([Arg(id), Specs(rest)], if m < |rest| then 2 + k + m + 1 else 0, m < |rest|)
  {
    hide ArgIdAt, FieldAt, SpecsEnd, MatchingBrace, Stop;
    BehindId(EMITTING, s, id, k);
    BehindId(COUNTING, s, id, k);
    StopsAre(s[2 + k..]);
  }

  /** A field that the emitting pass reads to its end, as the counting pass sees it. */
  lemma FieldTwice(s: string)
    requires s != [] && s[0] == '{' && FieldAt(EMITTING, s).ok
    ensures var f, g := FieldAt(EMITTING, s), FieldAt(COUNTING, s);
      && g.events == f.events
      && if HasBraceType(f.events) then
           var m := MatchingBrace(s[f.size..], 0);
           g.ok == (m < |s| - f.size) && (g.ok ==> g.size == f.size + m + 1)
         else g == f
  {
    hide ArgIdAt, FieldAt, BraceType, SpecsEnd, Stop, MatchingBrace, Closed;
    if |s| > 1 && s[1] != '}' && s[1] != '{' {
      HasId(s);
      SameId(s[1..]);
      var r := ArgIdAt(false, s[1..]);
      BehindId(EMITTING, s, r.id, r.size);
      BehindId(COUNTING, s, r.id, r.size);
      if s[1 + r.size] == ':' {
        SpecsFieldTwice(s, r.id, r.size);
        SpecsTwice(s, 2 + r.size);
      }
    } else {
      BracesTwice(s);
    }
  }

  lemma BracesTwice(s: string)
    requires s != [] && s[0] == '{' && (|s| == 1 || s[1] == '}' || s[1] == '{')
    ensures FieldAt(COUNTING, s) == FieldAt(EMITTING, s)
    ensures |s| > 1 ==> !HasBraceType(FieldAt(EMITTING, s).events)
  {
  }

  lemma StopsAre(rest: string)
    ensures Stop(EMITTING, rest) == SpecsEnd(rest) && Stop(COUNTING, rest) == MatchingBrace(rest, 0)
  {
    hide SpecsAt, MatchingBrace;
  }

  /** Behind an opening brace as its type, the field's own closing brace only closes that one. */
  lemma SkippedBehind(rest: string)
    requires Closed(rest) && BraceType(rest)
    ensures var n := SpecsEnd(rest); MatchingBrace(rest, 0) == n + 1 + MatchingBrace(rest[n + 1..], 0)
  {
    hide SpecsAt;
    var n := SpecsEnd(rest);
    SpecsWalk(rest, 0);
    MatchWalk(rest, n, 0);
    assert rest[n..][1..] == rest[n + 1..];
  }

  lemma StepTwice(s: string)
    requires Step(EMITTING, s).Continue?
    ensures var a, b := Step(EMITTING, s), Step(COUNTING, s);
      if HasBraceType(a.events) then
        var m := MatchingBrace(s[a.size..], 0);
        if m < |s| - a.size then b == Continue(a.events, a.size + m + 1) else b == Finish(a.events, false)
      else b == a
  {
    if PlainLength(s) == 0 && s[0] == '{' {
      StepAtField(EMITTING, s);
      StepAtField(COUNTING, s);
      FieldTwice(s);
      hide FieldAt;
    }
  }

  lemma StepAtField(h: Handler, s: string)
    requires s != [] && s[0] == '{'
    ensures var f := FieldAt(h, s);
      Step(h, s) == if f.ok then Continue(f.events, f.size) else Finish(f.events, false)
  {
    hide FieldAt;
    assert PlainLength(s) == 0;
  }

  // ---------------------------------------------------------------- braces of one step

  /** A text without closing braces at its own depth, in braces. */
  lemma WalkInBraces(inner: string, d: nat)
    requires Walk(inner, d + 1) >= 1
    ensures Walk("{" + inner + "}", d) == Walk(inner, d + 1) - 1
  {
    var t := "{" + inner + "}";
    assert t[1..] == inner + "}";
    WalkConcat(inner, "}", d + 1);
    assert "}"[1..] == "";
  }

  lemma WalkIdAndSpecs(s: string, from: nat, k: nat, d: nat)
    requires from + k < |s| && s[from + k] == ':' && forall i :: from <= i < from + k ==> IsPlain(s[i])
    requires SpecsAt(s[from + k + 1..]).GoodSpecs?
    ensures var rest := s[from + k + 1..];
      Walk(s[from..from + k + 1 + SpecsEnd(rest)], d) == if BraceType(rest) then d + 1 else d
  {
    hide SpecsAt;
    var rest := s[from + k + 1..];
    var id := s[from..from + k + 1];
    PlainWalk(id, d);
    SpecsWalk(rest, d);
    WalkConcat(id, rest[..SpecsEnd(rest)], d);
    assert id + rest[..SpecsEnd(rest)] == s[from..from + k + 1 + SpecsEnd(rest)];
  }

  lemma WalkOfField(s: string, k: nat, d: nat)
    requires 2 <= k <= |s| && s[0] == '{' && s[k - 1] == '}' && Walk(s[1..k - 1], d + 1) >= 1
    ensures Walk(s[..k], d) == Walk(s[1..k - 1], d + 1) - 1
  {
    hide Walk;
    assert s[..k] == "{" + s[1..k - 1] + "}";
    WalkInBraces(s[1..k - 1], d);
  }

  lemma SpecsFieldWalk(s: string, id: ArgId, k: nat, d: nat)
    requires |s| > 1 && s[0] == '{' && s[1] != '}' && s[1] != '{' && 1 + k < |s| && s[1 + k] == ':'
    requires ArgIdAt(false, s[1..]) == GoodId(id, k) && ArgIdAt(true, s[1..]) == GoodId(id, k)
    requires FieldAt(EMITTING, s).ok
    ensures var f := FieldAt(EMITTING, s);
      Walk(s[..f.size], d) == if HasBraceType(f.events) then d + 1 else d
  {
    hide ArgIdAt, FieldAt, BraceType, SpecsEnd, SpecsAt, MatchingBrace, Walk;
    IdIsPlain(s[1..]);
    assert forall i :: 1 <= i < 1 + k ==> s[i] == s[1..][i - 1];
    SpecsFieldTwice(s, id, k);
    ReadToTheEnd(s[2 + k..]);
    WalkIdAndSpecs(s, 1, k, d + 1);
    WalkOfField(s, FieldAt(EMITTING, s).size, d);
  }

  lemma FieldWalk(s: string, d: nat)
    requires s != [] && s[0] == '{' && FieldAt(EMITTING, s).ok && s[1] != '{'
    ensures var f := FieldAt(EMITTING, s);
      Walk(s[..f.size], d) == if HasBraceType(f.events) then d + 1 else d
  {
    hide ArgIdAt, FieldAt, BraceType, SpecsEnd, SpecsAt, MatchingBrace, Walk;
    if s[1] == '}' {
      EmptyBraces(s);
      PlainWalk(s[1..1], d + 1);
      WalkOfField(s, 2, d);
    } else {
      HasId(s);
      SameId(s[1..]);
      var r := ArgIdAt(false, s[1..]);
      BehindId(EMITTING, s, r.id, r.size);
      if s[1 + r.size] == ':' {
        SpecsFieldWalk(s, r.id, r.size, d);
      } else {
        IdIsPlain(s[1..]);
        assert s[1..1 + r.size] == s[1..][..r.size];
        PlainWalk(s[1..1 + r.size], d + 1);
        WalkOfField(s, 2 + r.size, d);
      }
    }
  }

  lemma EmptyBraces(s: string)
    requires |s| > 1 && s[0] == '{' && s[1] == '}'
    ensures FieldAt(EMITTING, s) == FieldReading([Arg(Next), EmptyField], 2, true)
  {
  }

  /** Where counting goes on if it is skipping at depth d in front of s. */
  function CountBehind(long: bool, s: string, d: nat): nat {
    var m := MatchingBrace(s, d);
    if m < |s| then CountPass(long, s[m + 1..]) else 0
  }

  lemma SkipOver(long: bool, s: string, k: nat, d: nat)
    requires k <= |s| && Walk(s[..k], d) >= 0
    ensures CountBehind(long, s, d) == CountBehind(long, s[k..], Walk(s[..k], d))
  {
    hide CountPass, Walk;
    MatchWalk(s, k, d);
    var e := Walk(s[..k], d);
    var m := MatchingBrace(s[k..], e);
    if m < |s| - k {
      assert s[k..][m + 1..] == s[k + m + 1..];
    }
  }

  // ---------------------------------------------------------------- counting is never too high

  lemma StepAtText(h: Handler, s: string)
    requires PlainLength(s) == |s|
    ensures Step(h, s) == Finish(TextEvent(s), true) && !LoneBrace(s)
  {
  }

  lemma ScanOfText(long: bool, h: Handler, s: string)
    requires PlainLength(s) == |s|
    ensures Scan(long, h, s) == Parse(TextEvent(s), true)
  {
    StepAtText(h, s);
    hide Step, LoneBrace, TextEvent;
  }

  /** The last text of a string. */
  lemma AtTheEnd(long: bool, st: State, s: string)
    requires PlainLength(s) == |s| && st.ok
    ensures CountPass(long, s) == Added(long, st, s) == if s == [] then 0 else 1
    ensures !BraceTypeInside(s)
  {
    hide Step, Scan, TextEvent, Count, Compiled;
    ScanOfText(long, COUNTING, s);
    ScanOfText(long, EMITTING, s);
    StepAtText(EMITTING, s);
    TextIsOnePart(st, s);
  }

  lemma TextIsOnePart(st: State, text: string)
    requires st.ok
    ensures var n := if text == [] then 0 else 1;
      Count(TextEvent(text)) == n && |Compiled(st, TextEvent(text)).parts| == |st.parts| + n
  {
    if text != [] {
      hide AfterEvent, CountOf, TextEvent;
      assert OneThing([Text(text)]);
      OneThingCounts(st, [Text(text)]);
      TextIsOk(st, text);
    }
  }

  lemma TextIsOk(st: State, text: string)
    requires st.ok && text != []
    ensures TextEvent(text) == [Text(text)] && Compiled(st, [Text(text)]).ok
  {
    assert [Text(text)][..0] == [];
  }

  lemma FinishIsText(long: bool, st: State, s: string)
    requires Emits(long, st, s) && Step(EMITTING, s).Finish?
    ensures PlainLength(s) == |s| && st.ok
  {
    hide Step, Compiled;
    FinishedOk(EMITTING, s);
    PartsGrow(st, Scan(long, EMITTING, s).events);
  }

  lemma FinishedOk(h: Handler, s: string)
    requires Step(h, s).Finish? && Step(h, s).ok
    ensures PlainLength(s) == |s|
  {
    hide FieldAt, TextEvent;
  }

  lemma PlainHasNoBrace(s: string, d: nat)
    requires PlainLength(s) == |s|
    ensures MatchingBrace(s, d) == |s|
  {
    PlainWalk(s, d);
    assert s[..|s|] == s && s[|s|..] == [];
    MatchWalk(s, |s|, d);
  }

  /** A field with an opening brace as its type is counted, and then counting skips on. */
  lemma CountAtBraceType(long: bool, s: string)
    requires Step(EMITTING, s).Continue? && HasBraceType(Step(EMITTING, s).events)
    ensures CountPass(long, s) == 1 + CountBehind(long, s[Step(EMITTING, s).size..], 0)
  {
    hide Step, HasBraceType, Count;
    var a := Step(EMITTING, s);
    var m := MatchingBrace(s[a.size..], 0);
    StepTwice(s);
    StepIsOneThing(EMITTING, s);
    OneThingCounts(START, a.events);
    if m < |s| - a.size {
      CountStep(long, s);
      assert s[a.size..][m + 1..] == s[a.size + m + 1..];
    } else {
      NotLone(EMITTING, s);
    }
  }

  /** Skipping in front of a doubled closing brace. */
  lemma BehindClosing(long: bool, s: string, d: nat)
    requires |s| >= 2 && s[0] == s[1] == '}'
    ensures CountBehind(long, s, d) ==
            if d == 0 then CountPass(long, s[1..])
            else if d == 1 then CountPass(long, s[2..])
            else CountBehind(long, s[2..], d - 2)
  {
    hide CountPass;
    if d >= 2 {
      var t := s[..2];
      assert t[1..] == "}" && "}"[1..] == "";
      assert Walk("", d - 2) == d - 2;
      assert Walk("}", d - 1) == d - 2;
      SkipOver(long, s, 2, d);
    } else if d == 1 {
      assert MatchingBrace(s[1..], 0) == 0;
    }
  }

  lemma StepOfClosing(h: Handler, s: string)
    requires PlainLength(s) < |s| && s[PlainLength(s)] == '}' && Step(h, s).Continue?
    ensures var n := PlainLength(s);
      Step(h, s) == Continue([Text(s[..n + 1])], n + 2) && n + 1 < |s| && s[n + 1] == '}'
  {
    hide FieldAt;
  }

  lemma StepOfText(h: Handler, s: string)
    requires 0 < PlainLength(s) < |s| && s[PlainLength(s)] == '{'
    ensures Step(h, s) == Continue([Text(s[..PlainLength(s)])], PlainLength(s))
  {
    hide FieldAt;
  }

  /** The kinds of steps of the emitting pass, by the first brace. */
  lemma StepKinds(s: string)
    requires Step(EMITTING, s).Continue?
    ensures var n, a := PlainLength(s), Step(EMITTING, s);
      && n < |s|
      && (s[n] == '}' ==> a == Continue([Text(s[..n + 1])], n + 2) && n + 1 < |s| && s[n + 1] == '}')
      && (s[n] == '{' && n > 0 ==> a == Continue([Text(s[..n])], n))
      && (n == 0 && s[0] == '{' ==>
            var f := FieldAt(EMITTING, s);
            f.ok && a == Continue(f.events, f.size))
  {
    hide FieldAt, Step, PlainLength;
    var n := PlainLength(s);
    if n == |s| {
      StepAtText(EMITTING, s);
    } else if s[n] == '}' {
      StepOfClosing(EMITTING, s);
    } else if n > 0 {
      StepOfText(EMITTING, s);
    } else {
      StepAtField(EMITTING, s);
    }
  }

  /** The braces of a field, and of an escaped opening brace, leave no depth. */
  lemma OpeningWalk(s: string, d: nat)
    requires s != [] && s[0] == '{' && FieldAt(EMITTING, s).ok
    ensures Walk(s[..FieldAt(EMITTING, s).size], d) >= d
  {
    if s[1] == '{' {
      var t := s[..2];
      assert FieldAt(EMITTING, s).size == 2;
      assert t[1..] == "{" && "{"[1..] == "";
      assert Walk("", d + 2) == d + 2;
      assert Walk("{", d + 1) == d + 2;
    } else {
      FieldWalk(s, d);
      hide FieldAt;
    }
  }

  /**
   A string that is emitted without error is never counted too high, and is counted exactly unless
   something is emitted behind a field with an opening brace as its type.
   */
  lemma {:induction false} CountIsAdded(long: bool, st: State, s: string)
    requires Emits(long, st, s)
    ensures CountPass(long, s) <= Added(long, st, s)
    ensures CountPass(long, s) == Added(long, st, s) <==> !BraceTypeInside(s)
    decreases |s|, 0
  {
    hide Step, Emits, Added, CountPass, HasBraceType, Compiled, Count;
    if Step(EMITTING, s).Finish? {
      FinishIsText(long, st, s);
      AtTheEnd(long, st, s);
    } else {
      var a := Step(EMITTING, s);
      var st', rest := Compiled(st, a.events), s[a.size..];
      EmitsOn(long, st, s);
      if HasBraceType(a.events) {
        CountAtBraceType(long, s);
        if rest == [] {
          EmitsIsOk(long, st', rest);
          AtTheEnd(long, st', rest);
        } else {
          SkippedIsBelow(long, st', rest, 0);
        }
      } else {
        StepTwice(s);
        StepIsOneThing(EMITTING, s);
        OneThingCounts(st, a.events);
        CountStep(long, s);
        CountIsAdded(long, st', rest);
      }
    }
  }

  lemma EmitsIsOk(long: bool, st: State, s: string)
    requires Emits(long, st, s)
    ensures st.ok && Added(long, st, s) >= 0
  {
    PartsGrow(st, Scan(long, EMITTING, s).events);
  }

  /** While counting skips, at least one part of every further text is lost. */
  lemma {:induction false} SkippedIsBelow(long: bool, st: State, s: string, d: nat)
    requires Emits(long, st, s)
    ensures CountBehind(long, s, d) <= Added(long, st, s)
    ensures s != [] ==> CountBehind(long, s, d) < Added(long, st, s)
    decreases |s|, 1
  {
    hide Step, Emits, Added, CountPass, Compiled, CountBehind, FieldAt, Walk, MatchingBrace;
    if Step(EMITTING, s).Finish? {
      FinishIsText(long, st, s);
      AtTheEnd(long, st, s);
      NothingBehind(long, s, d);
    } else {
      var a, n := Step(EMITTING, s), PlainLength(s);
      var st', rest := Compiled(st, a.events), s[a.size..];
      EmitsOn(long, st, s);
      StepKinds(s);
      PlainWalk(s[..n], d);
      SkipOver(long, s, n, d);
      if s[n] == '}' {
        assert s[n..][1..] == s[n + 1..] && s[n..][2..] == rest;
        BehindClosing(long, s[n..], d);
        if d == 0 {
          assert s[n + 1..][1..] == rest;
          MisreadIsBelow(long, st', s[n + 1..]);
        } else if d == 1 {
          CountIsAdded(long, st', rest);
        } else {
          SkippedIsBelow(long, st', rest, d - 2);
        }
      } else if n > 0 {
        SkippedIsBelow(long, st', rest, d);
      } else {
        OpeningWalk(s, d);
        SkipOver(long, s, a.size, d);
        SkippedIsBelow(long, st', rest, Walk(s[..a.size], d));
      }
    }
  }

  lemma NothingBehind(long: bool, s: string, d: nat)
    requires PlainLength(s) == |s|
    ensures CountBehind(long, s, d) == 0
  {
    PlainHasNoBrace(s, d);
  }

  /** Counting that goes on at the second of two closing braces does not catch up. */
  lemma {:induction false} MisreadIsBelow(long: bool, st: State, s: string)
    requires s != [] && s[0] == '}' && Emits(long, st, s[1..])
    ensures CountPass(long, s) <= Added(long, st, s[1..])
    decreases |s|, 0
  {
    hide Step, Emits, Added, CountPass, Compiled, Count;
    var rest := s[1..];
    EmitsIsOk(long, st, rest);
    if rest != [] && rest[0] == '}' {
      NotFinished(long, st, rest);
      StepKinds(rest);
      EmitsOn(long, st, rest);
      StepAtClosing(COUNTING, s);
      CountStep(long, s);
      OneThingCounts(st, [Text("}")]);
      assert s[2..][1..] == rest[2..];
      MisreadIsBelow(long, Compiled(st, Step(EMITTING, rest).events), s[2..]);
    } else {
      CountAtLone(long, s);
      if GoesOn(long, COUNTING, s) {
        OpeningBehind(s);
        var m := OpeningAt(rest);
        var st' := EmitsAtOpening(long, st, rest);
        assert s[m + 1..] == rest[m..];
        CountIsAdded(long, st', rest[m..]);
      }
    }
  }

  lemma NotFinished(long: bool, st: State, s: string)
    requires Emits(long, st, s) && PlainLength(s) < |s|
    ensures Step(EMITTING, s).Continue?
  {
    hide Step, Emits;
    if Step(EMITTING, s).Finish? {
      FinishIsText(long, st, s);
    }
  }

  lemma StepAtClosing(h: Handler, s: string)
    requires |s| >= 2 && s[0] == s[1] == '}'
    ensures Step(h, s) == Continue([Text("}")], 2)
  {
    assert PlainLength(s) == 0 && s[..1] == "}";
  }

  lemma CountAtLone(long: bool, s: string)
    requires s != [] && s[0] == '}' && (|s| == 1 || s[1] != '}')
    ensures CountPass(long, s) == if GoesOn(long, COUNTING, s) then CountPass(long, s[OpeningAt(s)..]) else 0
  {
    assert PlainLength(s) == 0;
    assert Step(COUNTING, s) == Finish([], false);
    hide Step, GoesOn;
  }

  lemma OpeningBehind(s: string)
    requires s != [] && s[0] == '}' && OpeningAt(s) < |s|
    ensures OpeningAt(s) == 1 + OpeningAt(s[1..]) && OpeningAt(s[1..]) < |s[1..]|
  {
  }

  /** The emitting pass comes to the next opening brace. */
  lemma {:induction false} EmitsAtOpening(long: bool, st: State, s: string) returns (st': State)
    requires Emits(long, st, s) && OpeningAt(s) < |s|
    ensures var rest := s[OpeningAt(s)..];
      Emits(long, st', rest) && Added(long, st', rest) <= Added(long, st, s)
    decreases |s|
  {
    hide Step, Emits, Added, Compiled, PlainLength, OpeningAt;
    var m := OpeningAt(s);
    if s[0] == '{' {
      assert s[0..] == s;
      st' := st;
    } else {
      BraceNotPlain(s, m);
      NotFinished(long, st, s);
      StepBeforeOpening(s);
      EmitsOn(long, st, s);
      var a := Step(EMITTING, s);
      OpeningUpTo(s, a.size, m);
      assert s[a.size..][m - a.size..] == s[m..];
      st' := EmitsAtOpening(long, Compiled(st, a.events), s[a.size..]);
    }
  }

  /** A step in front of an opening brace does not go past it. */
  lemma StepBeforeOpening(s: string)
    requires s != [] && s[0] != '{' && OpeningAt(s) < |s| && Step(EMITTING, s).Continue?
    ensures Step(EMITTING, s).size <= OpeningAt(s)
  {
    StepKinds(s);
    BraceNotPlain(s, OpeningAt(s));
    hide Step, FieldAt, PlainLength, OpeningAt;
  }

  lemma BraceNotPlain(s: string, m: nat)
    requires m < |s| && s[m] == '{' && forall k :: 0 <= k < m ==> s[k] != '{'
    ensures PlainLength(s) <= m
  {
  }

  /** A step of the counting pass counts at least one, whether it ends the pass or not. */
  lemma CountsAStep(long: bool, s: string)
    requires Step(EMITTING, s).Continue?
    ensures CountPass(long, s) >= 1
  {
    hide Step, HasBraceType, Count;
    if HasBraceType(Step(EMITTING, s).events) {
      CountAtBraceType(long, s);
    } else {
      StepTwice(s);
      StepIsOneThing(EMITTING, s);
      OneThingCounts(START, Step(EMITTING, s).events);
      CountStep(long, s);
    }
  }

  /** Where the emitting pass ends with an error nothing more is emitted. */
  lemma FinishAddsLittle(long: bool, st: State, s: string)
    requires Step(EMITTING, s).Finish?
    ensures Added(long, st, s) <= CountPass(long, s)
  {
    if PlainLength(s) == |s| {
      ScanOfText(long, COUNTING, s);
      ScanOfText(long, EMITTING, s);
      if st.ok {
        TextIsOnePart(st, s);
      } else {
        StaysStopped(st, TextEvent(s));
      }
      hide TextEvent, Scan, Compiled;
    } else {
      FinishedEvents(s);
      var events := Step(EMITTING, s).events;
      hide Step;
      assert Scan(long, EMITTING, s).events == events;
      AddsNothing(st, events);
    }
  }

  lemma {:induction false} StaysStopped(st: State, events: seq<Event>)
    requires !st.ok
    ensures Compiled(st, events) == st
  {
    if events != [] {
      StaysStopped(st, events[..|events| - 1]);
    }
  }

  /** The events of a step that ends with an error. */
  predicate Unfinished(events: seq<Event>) {
    || events == []
    || (|events| == 1 && events[0].Arg?)
    || (|events| == 2 && events[0].Arg? && events[1].Specs? && !Closed(events[1].rest))
  }

  lemma FinishedEvents(s: string)
    requires Step(EMITTING, s).Finish? && PlainLength(s) < |s|
    ensures Unfinished(Step(EMITTING, s).events) && !GoesOn(true, EMITTING, s) && !GoesOn(false, EMITTING, s)
  {
    var n := PlainLength(s);
    if s[n] == '{' {
      assert n == 0;
      StepAtField(EMITTING, s);
      FailedField(s);
      hide FieldAt;
    }
  }

  lemma FailedField(s: string)
    requires s != [] && s[0] == '{' && !FieldAt(EMITTING, s).ok
    ensures Unfinished(FieldAt(EMITTING, s).events)
  {
    if |s| > 1 && s[1] != '}' && s[1] != '{' && ArgIdAt(false, s[1..]).GoodId? {
      var at := 1 + ArgIdAt(false, s[1..]).size;
      if at < |s| && s[at] == ':' {
        StopsAre(s[at + 1..]);
        hide Stop;
      }
    }
    hide ArgIdAt, SpecsAt;
  }

  lemma AddsNothing(st: State, events: seq<Event>)
    requires Unfinished(events)
    ensures Compiled(st, events).parts == st.parts
  {
    hide Closed, SpecsAt, AfterArg;
    if |events| > 0 {
      ArgAddsNothing(st, events[0]);
      assert |events| == 1 ==> events[..0] == [];
      assert |events| == 2 ==> events[..1] == [events[0]] && [events[0]][..0] == [];
    }
  }

  lemma ArgAddsNothing(st: State, e: Event)
    requires e.Arg?
    ensures AfterEvent(st, e).parts == st.parts
  {
  }

  /** Without such a field inside, emitting never gets ahead of counting, errors or not. */
  lemma {:induction false} AddedIsCounted(long: bool, st: State, s: string)
    requires !BraceTypeInside(s)
    ensures Added(long, st, s) <= CountPass(long, s)
    decreases |s|
  {
    hide Step, CountPass, HasBraceType, Compiled, Count;
    if Step(EMITTING, s).Finish? {
      FinishAddsLittle(long, st, s);
    } else {
      var a := Step(EMITTING, s);
      var st', rest := Compiled(st, a.events), s[a.size..];
      EmitStep(long, st, s);
      StepIsOneThing(EMITTING, s);
      OneThingCounts(st, a.events);
      if HasBraceType(a.events) {
        CountsAStep(long, s);
        AddsAtMostNothing(long, st', rest);
      } else {
        StepTwice(s);
        CountStep(long, s);
        AddedIsCounted(long, st', rest);
      }
    }
  }

  lemma AddsAtMostNothing(long: bool, st: State, s: string)
    requires s == []
    ensures Added(long, st, s) == 0
  {
    ScanOfText(long, EMITTING, s);
  }

  /**
   The count of a string that compiles without error is never above the number of its parts. It is
   that number if and only if no field with an opening brace as its type has anything behind it.
   */
  lemma StringCountEqualsEmitted(s: string)
    requires Emits(|s| >= SHORT, START, s)
    ensures var parts := EmitPass(|s| >= SHORT, START, s).parts;
      && CountParts(s) <= |parts|
      && (CountParts(s) == |parts| <==> !BraceTypeInside(s))
  {
    CountIsAdded(|s| >= SHORT, START, s);
  }

  /** A width of one digit and then an opening brace as the type. */
  lemma WidthAndBrace(s: string)
    requires |s| >= 2 && '1' <= s[0] <= '9' && s[1] == '{'
    ensures SpecsAt(s) == GoodSpecs(2, [])
  {
    assert s[0..] == s && s[..1][..0] == [];
    assert DigitsLength(s) == 1 && NumberOf(s[..1]) == (s[0] - '0') as int;
    assert NumberAt(s) == GoodSpecs(1, []);
    assert AlignAt(s) == GoodSpecs(0, []);
    assert WidthAt(s) == GoodSpecs(1, []);
    assert FlagsSize(s) == 0;
    assert PrecisionAt(s[1..]) == GoodSpecs(0, []);
    hide WidthAt, AlignAt, PrecisionAt, FlagsSize, NumberAt, DigitsLength;
  }

  lemma SpecsWithBraceType()
    ensures SpecsAt("5{}abc") == GoodSpecs(2, [])
  {
    hide SpecsAt;
    WidthAndBrace("5{}abc");
  }

  /** A field without an id, up to the end of its specs. */
  lemma StepAtSpecs(s: string, rest: string)
    requires |s| > 2 && s[0] == '{' && s[1] == ':' && rest == s[2..]
    requires SpecsEnd(rest) < |rest| && rest[SpecsEnd(rest)] == '}'
    ensures Step(EMITTING, s) == Continue([Arg(Next), Specs(rest)], SpecsEnd(rest) + 3)
  {
    hide FieldAt, ArgIdAt, Stop, Step, SpecsEnd;
    StopsAre(rest);
    NoId(s[1..]);
    BehindId(EMITTING, s, Next, 0);
    StepAtField(EMITTING, s);
  }

  lemma StepsOfBraceType()
    ensures var s := "{:5{}abc";
      && Step(EMITTING, s) == Continue([Arg(Next), Specs("5{}abc")], 5)
      && s[5..] == "abc"
  {
    hide Step, SpecsAt;
    SpecsWithBraceType();
    var s := "{:5{}abc";
    assert s[2..] == "5{}abc" && s[5..] == "abc";
    StepAtSpecs(s, "5{}abc");
  }

  lemma NoId(s: string)
    requires s != [] && EndsId(s[0])
    ensures ArgIdAt(false, s) == GoodId(Next, 0)
  {
  }

  /** A string that compiles to two parts and is counted as one. */
  lemma DifferentStopsDisagree()
    ensures var s := "{:5{}abc";
      && Emits(|s| >= SHORT, START, s)
      && |EmitPass(|s| >= SHORT, START, s).parts| == 2 && CountParts(s) == 1
  {
    var s := "{:5{}abc";
    StepsOfBraceType();
    SpecsWithBraceType();
    hide Step, SpecsAt;
    EmitsBraceType(s);
    CountAtBraceType(false, s);
    PlainHasNoBrace("abc", 0);
  }

  lemma EmitsBraceType(s: string)
    requires s == "{:5{}abc"
    ensures Emits(false, START, s) && |EmitPass(false, START, s).parts| == 2
  {
    StepsOfBraceType();
    SpecsWithBraceType();
    hide Step, SpecsAt;
    var events := [Arg(Next), Specs("5{}abc")];
    EmitStep(false, START, s);
    assert events[..1] == [Arg(Next)] && [Arg(Next)][..0] == [];
    assert Run(1, []) == Ids([], 1);
    assert Compiled(START, [Arg(Next)]) == State(1, ByIndex(0), [], true);
    var st := Compiled(START, events);
    assert Closed("5{}abc") && "5{}abc"[..2] == "5{";
    assert st == State(1, ByIndex(0), [Replacement(ByIndex(0), "5{", [])], true);
    assert PlainLength("abc") == 3;
    ScanOfText(false, EMITTING, "abc");
    TextIsOk(st, "abc");
    TextIsOnePart(st, "abc");
    hide Compiled;
  }
}
