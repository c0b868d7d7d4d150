/**
 The two passes as they are carried out: the counter and the compiler with their fields, and an
 array of the counted size that the compiler fills part by part.
 */
module FormatCompiler {
  import opened FormatParser
  import opened FormatSpecs
  import opened FormatParts
  import opened FormatPasses
  import opened ParseContext

  // ---------------------------------------------------------------- counting

  class PartCounter {
    var numParts: nat

    constructor ()
      ensures numParts == 0
    {
      numParts := 0;
    }

    method OnEvent(e: Event)
      modifies this
      ensures numParts == old(numParts) + CountOf(e)
    {
      match e
      case Text(text) => if text != [] { numParts := numParts + 1; }
      case Arg(_) => numParts := numParts + 1;
      case _ =>
    }

    /** Skips specs without reading them. */
    method OnFormatSpecs(rest: string) returns (end: nat)
      ensures end == COUNTING.stop(rest)
    {
      var braces := 0;
      end := 0;
      while end < |rest|
        invariant end <= |rest| && braces >= 0
        invariant MatchingBrace(rest, 0) == end + MatchingBrace(rest[end..], braces)
      {
        assert rest[end..][1..] == rest[end + 1..];
        if rest[end] == '{' {
          braces := braces + 1;
        } else if rest[end] == '}' {
          if braces == 0 {
            break;
          }
          braces := braces - 1;
        }
        end := end + 1;
      }
    }
  }

  method CountStringParts(s: string) returns (count: nat)
    ensures count == CountParts(s)
  {
    var p := ParseFormatString(COUNTING, s);
    var counter := new PartCounter();
    for k := 0 to |p.events|
      invariant counter.numParts == Count(p.events[..k])
      invariant fresh(counter)
    {
      assert p.events[..k + 1][..k] == p.events[..k];
      counter.OnEvent(p.events[k]);
    }
    assert p.events[..|p.events|] == p.events;
    count := counter.numParts;
  }

  // ---------------------------------------------------------------- emitting

  /** An event is handled, or it throws, or it emits a part past the end of the array. */
  datatype Outcome = Handled | Thrown | Overrun

  class FormatStringCompiler {
    const data: array<Part>
    const context: Context
    var part: ArgRef
    var counter: nat

    /** The object has reached a state of the specification. */
    ghost predicate Holds(st: State)
      reads this, data, context
    {
      && counter == |st.parts| <= data.Length && data[..counter] == st.parts
      && part == st.arg && context.nextArgId == st.mode
    }

    constructor (data: array<Part>)
      ensures this.data == data && fresh(context) && Holds(START)
    {
      this.data := data;
      context := new Context();
      part, counter := ByIndex(0), 0;
    }

    method Emit(p: Part, ghost st: State) returns (r: Outcome)
      requires Holds(st)
      modifies this`counter, data
      ensures r == if |st.parts| < data.Length then Handled else Overrun
      ensures r.Handled? ==> Holds(st.(parts := st.parts + [p]))
    {
      if counter == data.Length {
        return Overrun;
      }
      data[counter] := p;
      counter := counter + 1;
      assert data[..counter] == st.parts + [p];
      return Handled;
    }

    method OnArgId(id: ArgId, ghost st: State) returns (ok: bool)
      requires Holds(st) && st.ok
      modifies this`part, context
      ensures ok == AfterArg(st, id).ok
      ensures ok ==> Holds(AfterArg(st, id))
    {
      match id
      case Next =>
        var index;
        ok, index := context.NextArgId();
        if ok { part := ByIndex(index); }
      case Index(n) =>
        ok := context.CheckArgId(n);
        if ok { part := ByIndex(n); }
      case Name(name) =>
        part := ByName(name);
        ok := true;
    }

    method TakeUses(uses: seq<Use>, ghost st: State) returns (ok: bool, refs: seq<nat>)
      requires Holds(st)
      modifies context
      ensures ok == Run(st.mode, uses).Ids?
      ensures ok ==> Holds(st.(mode := Run(st.mode, uses).mode)) && refs == Run(st.mode, uses).ids
    {
      refs := [];
      for k := 0 to |uses|
        invariant Run(st.mode, uses[..k]) == Ids(refs, context.nextArgId)
      {
        assert uses[..k + 1][..k] == uses[..k];
        var id;
        ok, id := context.Take(uses[k]);
        if !ok {
          UsesFail(st.mode, uses, k + 1);
          return false, [];
        }
        refs := refs + [id];
      }
      assert uses[..|uses|] == uses;
      return true, refs;
    }

    /** Reads the specs with their dynamic width and precision, then the closing brace, then emits. */
    method OnFormatSpecs(rest: string, ghost st: State) returns (r: Outcome)
      requires Holds(st) && st.ok
      modifies this`counter, data, context
      ensures r == OutcomeOf(AfterSpecs(st, rest), data.Length)
      ensures r.Handled? ==> Holds(AfterSpecs(st, rest))
    {
      hide SpecsAt, Run;
      var specs := ParseFormatSpecs(rest);
      if specs.BadSpecs? {
        return Thrown;
      }
      var ok, refs := TakeUses(specs.uses, st);
      if !ok || specs.size == |rest| || rest[specs.size] != '}' {
        return Thrown;
      }
      r := Emit(Replacement(part, rest[..specs.size], refs), st.(mode := Run(st.mode, specs.uses).mode));
    }

    method OnEvent(e: Event, ghost st: State) returns (r: Outcome)
      requires Holds(st) && st.ok
      modifies this, data, context
      ensures r == OutcomeOf(AfterEvent(st, e), data.Length)
      ensures r.Handled? ==> Holds(AfterEvent(st, e))
    {
      hide AfterSpecs;
      match e
      case Text(text) =>
        if text == [] {
          return Handled;
        }
        r := Emit(TextPart(text), st);
      case Arg(id) =>
        var ok := OnArgId(id, st);
        r := if ok then Handled else Thrown;
      case EmptyField => r := Emit(ArgPart(part), st);
      case Specs(rest) => r := OnFormatSpecs(rest, st);
    }
  }

  function OutcomeOf(st: State, room: nat): Outcome {
    if !st.ok then Thrown else if |st.parts| > room then Overrun else Handled
  }

  lemma UsesFail(mode: int, uses: seq<Use>, k: nat)
    requires k <= |uses| && Run(mode, uses[..k]).Mixed?
    ensures Run(mode, uses).Mixed?
  {
    assert uses[..k] + uses[k..] == uses;
    RunConcat(mode, uses[..k], uses[k..]);
  }

  // ---------------------------------------------------------------- both passes

  /** What the compiled array and the parts of the whole string have to do with each other. */
  function Result(s: string): Outcome {
    var st := EmitPass(|s| >= SHORT, START, s);
    if |st.parts| > Room(s) then Overrun
    else if Emits(|s| >= SHORT, START, s) then Handled
    else Thrown
  }

  /** num_format_parts */
  function Room(s: string): nat {
    if CountParts(s) == 0 then 1 else CountParts(s)
  }

  lemma CompiledStep(events: seq<Event>, k: nat)
    requires k < |events|
    ensures Compiled(START, events[..k + 1]) == AfterEvent(Compiled(START, events[..k]), events[k])
  {
    assert events[..k + 1][..k] == events[..k];
  }

  /** The state behind the first k events bounds what comes behind the others. */
  lemma CompiledRest(events: seq<Event>, k: nat)
    requires k <= |events|
    ensures var st, all := Compiled(START, events[..k]), Compiled(START, events);
      && |st.parts| <= |all.parts|
      && (!st.ok ==> all == st)
  {
    hide Compiled;
    assert events[..k] + events[k..] == events;
    CompiledConcat(START, events[..k], events[k..]);
    PartsGrow(Compiled(START, events[..k]), events[k..]);
    if !Compiled(START, events[..k]).ok {
      StaysStopped(Compiled(START, events[..k]), events[k..]);
    }
  }

  /** The emitting pass over the events of the string, with room for the counted parts. */
  method EmitAll(s: string, data: array<Part>) returns (r: Outcome, counter: nat)
    requires data.Length == Room(s)
    modifies data
    ensures r == Result(s)
    ensures r.Handled? ==>
              var parts := EmitPass(|s| >= SHORT, START, s).parts;
              counter == |parts| <= data.Length && data[..counter] == parts
  {
    hide Compiled, AfterEvent, CountParts, FormatStringCompiler.Holds;
    var p := ParseFormatString(EMITTING, s);
    var compiler := new FormatStringCompiler(data);
    CompiledNothing(p.events);
    for k := 0 to |p.events|
      invariant fresh(compiler) && fresh(compiler.context) && compiler.data == data
      invariant Compiled(START, p.events[..k]).ok && compiler.Holds(Compiled(START, p.events[..k]))
    {
      ghost var st := Compiled(START, p.events[..k]);
      HoldsLength(compiler, st);
      CompiledStep(p.events, k);
      CompiledRest(p.events, k + 1);
      OneEvent(st, p.events[k]);
      r := compiler.OnEvent(p.events[k], st);
      if !r.Handled? {
        return r, 0;
      }
    }
    assert p.events[..|p.events|] == p.events;
    HoldsLength(compiler, Compiled(START, p.events));
    return if p.ok then Handled else Thrown, compiler.counter;
  }

  lemma CompiledNothing(events: seq<Event>)
    ensures Compiled(START, events[..0]) == START
  {
  }

  lemma HoldsLength(compiler: FormatStringCompiler, st: State)
    requires compiler.Holds(st)
    ensures compiler.counter == |st.parts| <= compiler.data.Length && compiler.data[..compiler.counter] == st.parts
  {
  }

  /** Emitting runs past the end of the array only behind a field with an opening brace as its type. */
  lemma OverrunNeedsBraceType(s: string)
    requires Result(s).Overrun?
    ensures BraceTypeInside(s)
  {
    hide EmitPass, CountPass, BraceTypeInside;
    if !BraceTypeInside(s) {
      AddedIsCounted(|s| >= SHORT, START, s);
    }
  }

  lemma BraceTypeIsCounted(s: string)
    requires BraceTypeInside(s)
    ensures CountParts(s) >= 1
  {
    hide Step, HasBraceType, CountPass;
    CountsAStep(|s| >= SHORT, s);
  }

  /** A string that emits without error compiles to an array of its parts unless it has such a field inside. */
  lemma HandledExactly(s: string)
    ensures Result(s).Handled? <==> Emits(|s| >= SHORT, START, s) && !BraceTypeInside(s)
    ensures Emits(|s| >= SHORT, START, s) ==> (Result(s).Overrun? <==> BraceTypeInside(s))
    ensures Result(s).Handled? ==> |EmitPass(|s| >= SHORT, START, s).parts| == CountParts(s)
  {
    hide EmitPass, CountPass, BraceTypeInside, Emits;
    if Emits(|s| >= SHORT, START, s) {
      StringCountEqualsEmitted(s);
      if BraceTypeInside(s) {
        BraceTypeIsCounted(s);
      }
    }
  }

  /** Counts, makes an array of that size, emits into it, and puts an empty text into an empty one. */
  method CompileToParts(s: string) returns (r: Outcome, data: array<Part>)
    ensures fresh(data) && data.Length == Room(s)
    ensures r == Result(s)
    ensures r.Overrun? ==> BraceTypeInside(s)
    ensures r.Handled? <==> Emits(|s| >= SHORT, START, s) && !BraceTypeInside(s)
    ensures r.Handled? ==>
              var parts := EmitPass(|s| >= SHORT, START, s).parts;
              data[..] == if parts == [] then [TextPart([])] else parts
  {
    hide EmitPass, CountPass, BraceTypeInside, Emits, Result;
    var count := CountStringParts(s);
    data := new Part[if count == 0 then 1 else count](_ => ArgPart(ByIndex(0)));
    var counter;
    r, counter := EmitAll(s, data);
    HandledExactly(s);
    if r.Overrun? {
      OverrunNeedsBraceType(s);
    } else if r.Handled? && counter < data.Length {
      data[counter] := TextPart([]);
    }
  }
}
