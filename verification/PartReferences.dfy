/**
 Which part every event of a stream compiles to, and which argument that part refers to: fields
 are numbered in the order of the string, the references of their specs in between.
 */
module PartReferences {
  import opened FormatParser
  import opened FormatSpecs
  import opened FormatParts
  import opened FormatPasses
  import opened ParseContext

  // ---------------------------------------------------------------- the exact condition for compiling

  predicate AllClosed(events: seq<Event>) {
    forall k :: 0 <= k < |events| && events[k].Specs? ==> Closed(events[k].rest)
  }

  /** The uses of a stream up to an event, and the mode behind them. */
  lemma EventExactly(st: State, e: Event, before: seq<Use>)
    requires st.ok && Run(0, before).Ids? && Run(0, before).mode == st.mode
    ensures var t := AfterEvent(st, e);
      && (t.ok <==> (e.Specs? ==> Closed(e.rest)) && Run(0, before + UsesOfEvent(e)).Ids?)
      && (t.ok ==> Run(0, before + UsesOfEvent(e)).mode == t.mode)
  {
    hide SpecsAt, Run, Closed;
    RunConcat(0, before, UsesOfEvent(e));
    match e
    case Arg(Next) => RunOne(st.mode, Automatic);
    case Arg(Index(n)) => RunOne(st.mode, Manual(n));
    case Specs(rest) =>
    case _ => assert before + [] == before;
  }

  lemma {:induction false} CompiledRuns(events: seq<Event>)
    ensures Compiled(START, events).ok <==> AllClosed(events) && Run(0, Uses(events)).Ids?
    ensures Compiled(START, events).ok ==> Run(0, Uses(events)).mode == Compiled(START, events).mode
  {
    hide Closed, AllClosed, UsesOfEvent, AfterEvent, Run;
    if events == [] {
      NothingRuns();
    } else {
      var n := |events| - 1;
      var init, last := events[..n], events[n];
      CompiledRuns(init);
      OneEvent(Compiled(START, init), last);
      RunConcat(0, Uses(init), UsesOfEvent(last));
      LastIsClosed(events);
      if Compiled(START, init).ok {
        EventExactly(Compiled(START, init), last, Uses(init));
      }
    }
  }

  lemma NothingRuns()
    ensures AllClosed([]) && Run(0, []) == Ids([], 0)
  {
  }

  lemma LastIsClosed(events: seq<Event>)
    requires events != []
    ensures var init, last := events[..|events| - 1], events[|events| - 1];
      AllClosed(events) <==> AllClosed(init) && (last.Specs? ==> Closed(last.rest))
  {
    hide Closed;
    var init := events[..|events| - 1];
    assert forall k :: 0 <= k < |init| ==> init[k] == events[k];
  }

  /** A stream compiles if and only if its specs are closed and its uses are all automatic or all manual. */
  lemma CompiledExactly(events: seq<Event>)
    ensures Compiled(START, events).ok <==>
              AllClosed(events) && (AllAutomatic(Uses(events)) || AllManual(Uses(events)))
  {
    hide Compiled, Uses, Run, AllClosed, AllAutomatic, AllManual;
    CompiledRuns(events);
    NumberingIsUniform(Uses(events));
  }

  lemma StepIsClosed(s: string)
    requires Step(EMITTING, s).Continue?
    ensures AllClosed(Step(EMITTING, s).events)
  {
    hide FieldAt, Closed, PlainLength;
    if PlainLength(s) == 0 && s != [] && s[0] == '{' {
      StepAtField(EMITTING, s);
      FieldIsClosed(s);
    }
  }

  lemma FieldIsClosed(s: string)
    requires s != [] && s[0] == '{' && FieldAt(EMITTING, s).ok
    ensures AllClosed(FieldAt(EMITTING, s).events)
  {
    hide FieldAt, ArgIdAt, Stop, SpecsEnd, Closed;
    BracesClosed(s);
    if |s| > 1 && s[1] != '}' && s[1] != '{' {
      HasId(s);
      var r := ArgIdAt(false, s[1..]);
      BehindId(EMITTING, s, r.id, r.size);
      if s[1 + r.size] == ':' {
        StopsAre(s[2 + r.size..]);
        ReadToTheEnd(s[2 + r.size..]);
      }
    }
  }

  lemma BracesClosed(s: string)
    requires s != [] && s[0] == '{' && FieldAt(EMITTING, s).ok
    ensures |s| > 1
    ensures s[1] == '}' || s[1] == '{' ==> AllClosed(FieldAt(EMITTING, s).events)
  {
    hide ArgIdAt, Closed;
  }

  lemma {:induction false} ScanIsClosed(long: bool, s: string)
    requires Scan(long, EMITTING, s).ok
    ensures AllClosed(Scan(long, EMITTING, s).events)
    decreases |s|
  {
    hide Step, Closed;
    if Step(EMITTING, s).Continue? {
      var a := Step(EMITTING, s);
      ScanStep(long, EMITTING, s, a.events, a.size);
      StepIsClosed(s);
      ScanIsClosed(long, s[a.size..]);
    } else {
      FinishedOk(EMITTING, s);
      ScanOfText(long, EMITTING, s);
    }
  }

  /** A string compiles if and only if it parses and its uses are all automatic or all manual. */
  lemma EmitsExactly(s: string)
    ensures var long := |s| >= SHORT; var p := Scan(long, EMITTING, s);
      Emits(long, START, s) <==> p.ok && (AllAutomatic(Uses(p.events)) || AllManual(Uses(p.events)))
  {
    hide Scan, Compiled, Uses, AllClosed, AllAutomatic, AllManual;
    var long := |s| >= SHORT;
    CompiledExactly(Scan(long, EMITTING, s).events);
    if Scan(long, EMITTING, s).ok {
      ScanIsClosed(long, s);
    }
  }

  // ---------------------------------------------------------------- the parts of a stream

  /** The id of a field: the number of uses in front of it, the number that is given, or the name. */
  function Reference(events: seq<Event>, k: nat): ArgRef
    requires k < |events| && events[k].Arg?
  {
    match events[k].id
    case Next => ByIndex(|Uses(events[..k])|)
    case Index(n) => ByIndex(n)
    case Name(name) => ByName(name)
  }

  /** The references of specs, numbered on from the uses in front of them, or as given. */
  function Numbered(from: nat, uses: seq<Use>): seq<nat> {
    seq(|uses|, j requires 0 <= j < |uses| => if uses[j].Automatic? then from + j else uses[j].id)
  }

  /** The part of a field whose id is the event k. */
  function FieldPart(events: seq<Event>, k: nat): Part
    requires k + 1 < |events| && events[k].Arg?
  {
    match events[k + 1]
    case Specs(rest) =>
      if SpecsAt(rest).GoodSpecs? then
        Replacement(Reference(events, k), rest[..SpecsAt(rest).size],
                    Numbered(|Uses(events[..k + 1])|, SpecsAt(rest).uses))
      else ArgPart(Reference(events, k))
    case _ => ArgPart(Reference(events, k))
  }

  /** The place of a part is the number of texts and fields in front of it. */
  ghost predicate Placed(events: seq<Event>, k: nat, parts: seq<Part>)
    requires k < |events|
  {
    var place := Count(events[..k]);
    && (events[k].Text? && events[k].text != [] ==> place < |parts| && parts[place] == TextPart(events[k].text))
    && (events[k].Arg? && k + 1 < |events| ==> place < |parts| && parts[place] == FieldPart(events, k))
  }

  lemma PlacedEarlier(events: seq<Event>, k: nat, parts: seq<Part>, more: seq<Part>)
    requires k + 1 < |events| && Placed(events[..|events| - 1], k, parts) && parts <= more
    requires events[k].Arg? ==> k + 2 < |events|
    ensures Placed(events, k, more)
  {
    hide SpecsAt;
    var init := events[..|events| - 1];
    assert init[..k] == events[..k];
    if k + 2 < |events| {
      assert init[..k + 1] == events[..k + 1];
    }
  }

  lemma AutomaticIndex(events: seq<Event>, k: nat)
    requires k < |events| && events[k].Arg? && Compiled(START, events[..k]).ok
    requires AfterEvent(Compiled(START, events[..k]), events[k]).ok
    ensures AfterEvent(Compiled(START, events[..k]), events[k]).arg == Reference(events, k)
  {
    CompiledRuns(events[..k]);
    RunNumbers(0, Uses(events[..k]));
    hide Run, Compiled, Uses;
  }

  lemma SpecsNumbers(st: State, before: seq<Use>, rest: string)
    requires st.ok && Run(0, before).Ids? && Run(0, before).mode == st.mode && AfterSpecs(st, rest).ok
    ensures SpecsAt(rest).GoodSpecs?
    ensures AfterSpecs(st, rest).parts
         == st.parts + [Replacement(st.arg, rest[..SpecsAt(rest).size], Numbered(|before|, SpecsAt(rest).uses))]
  {
    hide SpecsAt, Run;
    var uses := SpecsAt(rest).uses;
    RunNumbers(0, before);
    RunNumbers(st.mode, uses);
    assert AllAutomatic(before) ==> st.mode == |before|;
    assert Run(st.mode, uses).ids == Numbered(|before|, uses) by {
      if !AllAutomatic(before) {
        ManualStays(st.mode, uses);
      }
    }
  }

  lemma {:induction false} ManualStays(mode: int, uses: seq<Use>)
    requires mode < 0 && Run(mode, uses).Ids?
    ensures AllManual(uses) && Run(mode, uses).mode < 0
  {
    if uses != [] {
      ManualStays(mode, uses[..|uses| - 1]);
    }
  }

  /** In front of a field the compiler has its reference. */
  predicate HasReference(events: seq<Event>) {
    var n := |events| - 1;
    n > 0 && events[n - 1].Arg? && Compiled(START, events[..n]).arg == Reference(events, n - 1)
  }

  /** The last event of a stream, behind which everything is placed but an open field. */
  lemma LastIsPlaced(events: seq<Event>)
    requires events != [] && Paired(events) && Compiled(START, events).ok
    requires IsField(events[|events| - 1]) ==> HasReference(events)
    ensures var n, st := |events| - 1, Compiled(START, events);
      && Placed(events, n, st.parts)
      && (n > 0 && events[n - 1].Arg? ==> Placed(events, n - 1, st.parts))
      && (events[n].Arg? ==> st.arg == Reference(events, n))
  {
    hide SpecsAt, Run;
    var n := |events| - 1;
    var before := Compiled(START, events[..n]);
    OneEvent(before, events[n]);
    CompiledRuns(events[..n]);
    PrefixPaired(events, n);
    EmittedIsCounted(events[..n]);
    match events[n]
    case Arg(_) => AutomaticIndex(events, n);
    case Text(_) => TextIsPlaced(events);
    case EmptyField => FieldIsPlaced(events);
    case Specs(rest) => FieldIsPlaced(events);
  }

  lemma PrefixPaired(events: seq<Event>, n: nat)
    requires Paired(events) && n <= |events|
    ensures Paired(events[..n])
  {
  }

  lemma TextIsPlaced(events: seq<Event>)
    requires events != [] && events[|events| - 1].Text? && Paired(events) && Compiled(START, events).ok
    ensures Placed(events, |events| - 1, Compiled(START, events).parts)
  {
    hide SpecsAt;
    var n := |events| - 1;
    OneEvent(Compiled(START, events[..n]), events[n]);
    PrefixPaired(events, n);
    EmittedIsCounted(events[..n]);
    assert n > 0 ==> events[..n][n - 1] == events[n - 1];
  }

  lemma FieldIsPlaced(events: seq<Event>)
    requires events != [] && IsField(events[|events| - 1]) && HasReference(events) && Paired(events)
    requires Compiled(START, events).ok
    ensures var n, parts := |events| - 1, Compiled(START, events).parts;
      Placed(events, n, parts) && Placed(events, n - 1, parts)
  {
    hide SpecsAt, Run, Closed;
    var n := |events| - 1;
    var before := Compiled(START, events[..n]);
    OneEvent(before, events[n]);
    PrefixPaired(events, n);
    EmittedIsCounted(events[..n]);
    assert events[..n][..n - 1] == events[..n - 1] && events[..n][n - 1] == events[n - 1];
    assert |before.parts| == Count(events[..n - 1]);
    CompiledRuns(events[..n]);
    if events[n].Specs? {
      SpecsNumbers(before, Uses(events[..n]), events[n].rest);
    }
    hide Reference, Numbered;
  }

  lemma {:induction false} PartsArePlaced(events: seq<Event>)
    requires Paired(events) && Compiled(START, events).ok
    ensures var st := Compiled(START, events);
      && (forall k :: 0 <= k < |events| ==> Placed(events, k, st.parts))
      && (events != [] && events[|events| - 1].Arg? ==> st.arg == Reference(events, |events| - 1))
  {
    if events != [] {
      var n, st := |events| - 1, Compiled(START, events);
      var init, before := events[..n], Compiled(START, events[..n]);
      hide AfterEvent, Placed, Reference, Uses;
      OneEvent(before, events[n]);
      PrefixPaired(events, n);
      PartsArePlaced(init);
      if n > 0 && events[n - 1].Arg? {
        SameReference(events, n - 1);
      }
      LastIsPlaced(events);
      PartsAppended(before, events[n]);
      forall k | 0 <= k < |events| ensures Placed(events, k, st.parts) {
        if k < n && (events[k].Arg? ==> k + 1 < n) {
          PlacedEarlier(events, k, before.parts, st.parts);
        }
      }
    }
  }

  lemma SameReference(events: seq<Event>, k: nat)
    requires k + 1 < |events| && events[k].Arg?
    ensures Reference(events[..|events| - 1], k) == Reference(events, k)
  {
    assert events[..|events| - 1][..k] == events[..k];
  }

  lemma PartsAppended(st: State, e: Event)
    ensures st.parts <= AfterEvent(st, e).parts
  {
  }

  /**
   Every part of a stream that compiles, at its place: texts as they are, and fields with the
   argument that they refer to and with the arguments that their specs refer to.
   */
  lemma PartsRefer(events: seq<Event>, k: nat)
    requires Complete(events) && Compiled(START, events).ok && k < |events|
    ensures var parts, place := Compiled(START, events).parts, Count(events[..k]);
      && |parts| == Count(events)
      && (events[k].Text? && events[k].text != [] ==> place < |parts| && parts[place] == TextPart(events[k].text))
      && (events[k].Arg? ==> k + 1 < |events| && place < |parts| && parts[place] == FieldPart(events, k))
  {
    hide Compiled, FieldPart, Count;
    PartsArePlaced(events);
    CountEqualsEmitted(events);
    assert Placed(events, k, Compiled(START, events).parts);
  }

  /** So in every string that compiles. */
  lemma StringPartsRefer(s: string, k: nat)
    requires Emits(|s| >= SHORT, START, s) && k < |Scan(|s| >= SHORT, EMITTING, s).events|
    ensures var events := Scan(|s| >= SHORT, EMITTING, s).events;
      var parts, place := EmitPass(|s| >= SHORT, START, s).parts, Count(events[..k]);
      && |parts| == Count(events)
      && (events[k].Text? && events[k].text != [] ==> place < |parts| && parts[place] == TextPart(events[k].text))
      && (events[k].Arg? ==> k + 1 < |events| && place < |parts| && parts[place] == FieldPart(events, k))
  {
    hide Compiled, FieldPart, Count, Scan;
    ScanPaired(|s| >= SHORT, EMITTING, s);
    PartsRefer(Scan(|s| >= SHORT, EMITTING, s).events, k);
  }
}
