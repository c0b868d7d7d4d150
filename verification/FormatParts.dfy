/**
 Compiling a format string to a list of parts, in two passes over the string. One handler counts
 the parts, at the argument id of a field; another one emits them, at the end of the field, into
 an array of the counted size. The counting handler skips specs by counting braces and goes on
 after errors; the emitting handler reads the specs and throws.
 */
module FormatParts {
  import opened FormatParser
  import opened FormatSpecs
  import opened ParseContext

  datatype ArgRef = ByIndex(n: nat) | ByName(name: string)

  /** refs are the numbers of the arguments that the specs refer to. */
  datatype Part =
    | ArgPart(arg: ArgRef)
    | TextPart(text: string)
    | Replacement(arg: ArgRef, specs: string, refs: seq<nat>)

  // ---------------------------------------------------------------- specification

  function CountOf(e: Event): nat {
    if (e.Text? && e.text != []) || e.Arg? then 1 else 0
  }

  function Count(events: seq<Event>): nat {
    if events == [] then 0 else Count(events[..|events| - 1]) + CountOf(events[|events| - 1])
  }

  /** The compiler between two events. */
  datatype State = State(mode: int, arg: ArgRef, parts: seq<Part>, ok: bool)

  const START := State(0, ByIndex(0), [], true)

  function AfterArg(st: State, id: ArgId): State {
    match id
    case Next => if st.mode >= 0 then st.(mode := st.mode + 1, arg := ByIndex(st.mode)) else st.(ok := false)
    case Index(n) => if st.mode <= 0 then st.(mode := -1, arg := ByIndex(n)) else st.(ok := false)
    case Name(name) => st.(arg := ByName(name))
  }

  /** Specs that cannot be read, or are not closed, throw before the part is emitted. */
  function AfterSpecs(st: State, rest: string): State {
    if !Closed(rest) then st.(ok := false)
    else
      match Run(st.mode, SpecsAt(rest).uses)
      case Mixed => st.(ok := false)
      case Ids(refs, mode) =>
        st.(mode := mode, parts := st.parts + [Replacement(st.arg, rest[..SpecsAt(rest).size], refs)])
  }

  function AfterEvent(st: State, e: Event): State {
    if !st.ok then st
    else
      match e
      case Text(text) => if text == [] then st else st.(parts := st.parts + [TextPart(text)])
      case Arg(id) => AfterArg(st, id)
      case EmptyField => st.(parts := st.parts + [ArgPart(st.arg)])
      case Specs(rest) => AfterSpecs(st, rest)
  }

  function Compiled(st: State, events: seq<Event>): State {
    if events == [] then st else AfterEvent(Compiled(st, events[..|events| - 1]), events[|events| - 1])
  }

  lemma {:induction false} CountConcat(a: seq<Event>, b: seq<Event>)
    ensures Count(a + b) == Count(a) + Count(b)
  {
    if b == [] {
      assert a + b == a;
    } else {
      assert (a + b)[..|a + b| - 1] == a + b[..|b| - 1];
      CountConcat(a, b[..|b| - 1]);
    }
  }

  lemma {:induction false} CompiledConcat(st: State, a: seq<Event>, b: seq<Event>)
    ensures Compiled(st, a + b) == Compiled(Compiled(st, a), b)
  {
    if b == [] {
      assert a + b == a;
    } else {
      assert (a + b)[..|a + b| - 1] == a + b[..|b| - 1];
      CompiledConcat(st, a, b[..|b| - 1]);
    }
  }

  // ---------------------------------------------------------------- counting and emitting one stream

  /** One part is still to come after the id of a field. */
  function Open(events: seq<Event>): nat {
    if events != [] && events[|events| - 1].Arg? then 1 else 0
  }

  lemma {:induction false} EmittedIsCounted(events: seq<Event>)
    requires Paired(events)
    ensures var st := Compiled(START, events);
      && (st.ok ==> |st.parts| + Open(events) == Count(events))
      && (!st.ok ==> |st.parts| <= Count(events))
  {
    if events != [] {
      var n := |events| - 1;
      assert Paired(events[..n]);
      EmittedIsCounted(events[..n]);
      var before := Compiled(START, events[..n]);
      OneEvent(before, events[n]);
      assert n > 0 ==> events[..n][n - 1] == events[n - 1];
    }
  }

  lemma OneEvent(st: State, e: Event)
    ensures var st' := AfterEvent(st, e);
      && (!st.ok ==> st' == st)
      && (st.ok && !st'.ok ==> st'.parts == st.parts)
      && (st.ok && st'.ok && e.Text? ==> |st'.parts| == |st.parts| + CountOf(e))
      && (st.ok && st'.ok && e.Arg? ==> st'.parts == st.parts)
      && (st.ok && st'.ok && IsField(e) ==> |st'.parts| == |st.parts| + 1)
  {
  }

  /** For every complete event stream the counted parts are the emitted ones, however fields are numbered. */
  lemma CountEqualsEmitted(events: seq<Event>)
    requires Complete(events) && Compiled(START, events).ok
    ensures |Compiled(START, events).parts| == Count(events)
  {
    EmittedIsCounted(events);
  }

  /** All argument uses of a stream in order. */
  function Uses(events: seq<Event>): seq<Use> {
    if events == [] then [] else Uses(events[..|events| - 1]) + UsesOfEvent(events[|events| - 1])
  }

  function UsesOfEvent(e: Event): seq<Use> {
    match e
    case Arg(id) => UsesOf(id)
    case Specs(rest) => if Closed(rest) then SpecsAt(rest).uses else []
    case _ => []
  }

  // ---------------------------------------------------------------- the two passes over a string

  function SpecsEnd(rest: string): nat {
    if SpecsAt(rest).GoodSpecs? then SpecsAt(rest).size else 0
  }

  function SkippedEnd(rest: string): nat {
    MatchingBrace(rest, 0)
  }

  const COUNTING := Handler(SkippedEnd, true)
  const EMITTING := Handler(SpecsEnd, false)

  function CountPass(long: bool, s: string): nat {
    Count(Scan(long, COUNTING, s).events)
  }

  function EmitPass(long: bool, st: State, s: string): State {
    Compiled(st, Scan(long, EMITTING, s).events)
  }

  /** The emitting pass throws nothing. */
  predicate Emits(long: bool, st: State, s: string) {
    Scan(long, EMITTING, s).ok && EmitPass(long, st, s).ok
  }

  /** The parts that the emitting pass adds. */
  function Added(long: bool, st: State, s: string): int {
    |EmitPass(long, st, s).parts| - |st.parts|
  }

  function CountParts(s: string): nat {
    CountPass(|s| >= SHORT, s)
  }

  /** The events of one step are those of a field with an opening brace as its type. */
  predicate HasBraceType(events: seq<Event>) {
    |events| == 2 && events[1].Specs? && BraceType(events[1].rest)
  }

  /** On the way through the string there is a field with such a type that does not end the string. */
  predicate BraceTypeInside(s: string)
    decreases |s|
  {
    match Step(EMITTING, s)
    case Finish(_, _) => false
    case Continue(events, size) => (HasBraceType(events) && size < |s|) || BraceTypeInside(s[size..])
  }
}
