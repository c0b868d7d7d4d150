/**
 Compiling a format string to a tree of literal text and replacement fields, which formats by
 walking the tree, and the direct interpretation of the string that it has to agree with. How
 an argument is written and how its specs are read depends on its type and is a parameter.
 */
module CompiledFormat {
  import opened FormatParser
  import opened ParseContext
  import FormatSpecs

  /** Specs are read from the text behind the colon up to some size, and use further arguments in order. */
  datatype Reading = Unreadable | Readable(spec: string, size: nat, uses: seq<Use>)

  /** refs are the numbers of the arguments that the specs refer to. */
  datatype Arguments = Arguments(
    count: nat,
    plain: nat -> string,
    read: (nat, string) -> Reading,
    formatted: (nat, string, seq<nat>) -> string)

  datatype Tree =
    | Literal(text: string)
    | CodeUnit(c: char)
    | Field(n: nat)
    | SpecField(n: nat, spec: string, refs: seq<nat>)
    | Concat(lhs: Tree, rhs: Tree)

  datatype Compilation = Compiled(tree: Tree) | UnknownFormat | CompileError

  // ---------------------------------------------------------------- the compiler

  /** parse_text. */
  method ParseText(s: string, from: nat) returns (pos: nat)
    requires from <= |s|
    ensures pos == from + PlainLength(s[from..])
  {
    pos := from;
    while pos != |s|
      invariant from <= pos <= from + PlainLength(s[from..])
    {
      if s[pos] == '{' || s[pos] == '}' {
        break;
      }
      pos := pos + 1;
    }
  }

  /** Specs with their references resolved, and the counter behind them. */
  datatype SpecReading = BadSpecs | GoodSpecs(spec: string, size: nat, refs: seq<nat>, next: nat)

  /** parse_specs of argument id: a context whose counter is at id + 1, read from and asked for its counter. */
  function ReadSpecs(args: Arguments, id: nat, rest: string): SpecReading {
    match args.read(id, rest)
    case Unreadable => BadSpecs
    case Readable(spec, size, uses) =>
      match Run(id + 1, uses)
      case Mixed => BadSpecs
      case Ids(refs, next) => NumberedOn(id + 1, uses); GoodSpecs(spec, size, refs, next)
  }

  /** The part compiled from the front of a string, with its size and the counter behind it. */
  datatype Piece = Head(tree: Tree, size: nat, next: nat) | Foreign | Malformed

  function PieceAt(args: Arguments, s: string, id: nat): (p: Piece)
    requires s != []
    ensures p.Head? ==> 0 < p.size <= |s|
  {
    if s[0] == '{' then
      if |s| == 1 then Malformed
      else if s[1] == '{' then Head(Literal("{"), 2, id)
      else if s[1] == '}' then if id < args.count then Head(Field(id), 2, id + 1) else Malformed
      else if s[1] == ':' then SpecPiece(args, s, id)
      else Foreign
    else if s[0] == '}' then
      if |s| == 1 then Malformed else Head(Literal("}"), 2, id)
    else
      var end := 1 + PlainLength(s[1..]);
      Head(if end > 1 then Literal(s[..end]) else CodeUnit(s[0]), end, id)
  }

  /** The character behind the specs is skipped, whatever it is. */
  function SpecPiece(args: Arguments, s: string, id: nat): (p: Piece)
    requires |s| >= 2
    ensures p.Head? ==> 2 < p.size <= |s|
  {
    if id >= args.count then Malformed
    else
      match ReadSpecs(args, id, s[2..])
      case BadSpecs => Malformed
      case GoodSpecs(spec, size, refs, next) =>
        if 2 + size + 1 <= |s| then Head(SpecField(id, spec, refs), 2 + size + 1, next) else Malformed
  }

  /** compile_format_string and parse_tail: a failing tail takes its head with it. */
  function Compile(args: Arguments, s: string, id: nat): Compilation
    requires s != []
    decreases |s|
  {
    match PieceAt(args, s, id)
    case Foreign => UnknownFormat
    case Malformed => CompileError
    case Head(tree, size, next) =>
      if size == |s| then Compiled(tree)
      else
        match Compile(args, s[size..], next)
        case Compiled(tail) => Compiled(Concat(tree, tail))
        case other => other
  }

  function CompileString(args: Arguments, s: string): Compilation {
    if s == [] then Compiled(Literal("")) else Compile(args, s, 0)
  }

  /** Formatting through a compiled tree. */
  function Format(args: Arguments, tree: Tree): string {
    match tree
    case Literal(text) => text
    case CodeUnit(c) => [c]
    case Field(n) => args.plain(n)
    case SpecField(n, spec, refs) => args.formatted(n, spec, refs)
    case Concat(lhs, rhs) => Format(args, lhs) + Format(args, rhs)
  }

  // ---------------------------------------------------------------- direct interpretation

  datatype Output = Shown(text: string) | OtherField | FormatError

  function Behind(text: string, o: Output): Output {
    if o.Shown? then Shown(text + o.text) else o
  }

  /** Character by character from left to right; fields with an explicit id are not followed. */
  function Interpret(args: Arguments, s: string, id: nat): Output
    decreases |s|
  {
    if s == [] then Shown("")
    else if s[0] == '}' then
      if |s| > 1 && s[1] == '}' then Behind("}", Interpret(args, s[2..], id)) else FormatError
    else if s[0] != '{' then Behind([s[0]], Interpret(args, s[1..], id))
    else if |s| == 1 then FormatError
    else if s[1] == '{' then Behind("{", Interpret(args, s[2..], id))
    else if s[1] != '}' && s[1] != ':' then OtherField
    else if id >= args.count then FormatError
    else if s[1] == '}' then Behind(args.plain(id), Interpret(args, s[2..], id + 1))
    else
      match ReadSpecs(args, id, s[2..])
      case BadSpecs => FormatError
      case GoodSpecs(spec, size, refs, next) =>
        if 2 + size < |s| && s[2 + size] == '}' then
          Behind(args.formatted(id, spec, refs), Interpret(args, s[2 + size + 1..], next))
        else FormatError
  }

  // ---------------------------------------------------------------- agreement

  /** The pieces whose last character the compiler does not look at: it should be a closing brace. */
  predicate SkipsCharacter(s: string) {
    s != [] && (s[0] == '}' || (s[0] == '{' && |s| > 1 && s[1] == ':'))
  }

  /** Every skipped character on the way through the string is a closing brace. */
  predicate ClosingDoubled(args: Arguments, s: string, id: nat)
    decreases |s|
  {
    if s == [] then true
    else
      match PieceAt(args, s, id)
      case Head(_, size, next) =>
        (SkipsCharacter(s) ==> s[size - 1] == '}') && ClosingDoubled(args, s[size..], next)
      case _ => true
  }

  /** Compiling and interpreting come to the same: the same text, a field for others, or an error. */
  predicate Agree(args: Arguments, c: Compilation, o: Output) {
    match c
    case Compiled(tree) => o == Shown(Format(args, tree))
    case UnknownFormat => o.OtherField?
    case CompileError => o.FormatError?
  }

  lemma BehindBehind(a: string, b: string, o: Output)
    ensures Behind(a, Behind(b, o)) == Behind(a + b, o)
  {
    if o.Shown? {
      assert a + (b + o.text) == a + b + o.text;
    }
  }

  /** A run of plain characters is interpreted as the run. */
  lemma {:induction false} InterpretText(args: Arguments, s: string, id: nat, n: nat)
    requires n <= |s| && forall k :: 0 <= k < n ==> IsPlain(s[k])
    ensures Interpret(args, s, id) == Behind(s[..n], Interpret(args, s[n..], id))
    decreases n
  {
    if n == 0 {
      assert s[0..] == s && s[..0] == [];
      BehindNothing(Interpret(args, s, id));
    } else {
      InterpretText(args, s[1..], id, n - 1);
      assert s[1..][n - 1..] == s[n..] && [s[0]] + s[1..][..n - 1] == s[..n];
      BehindBehind([s[0]], s[1..][..n - 1], Interpret(args, s[n..], id));
    }
  }

  lemma BehindNothing(o: Output)
    ensures Behind([], o) == o
  {
    if o.Shown? {
      assert [] + o.text == o.text;
    }
  }

  /** One piece: interpretation goes on behind it, unless its skipped character is wrong. */
  lemma InterpretPiece(args: Arguments, s: string, id: nat)
    requires s != []
    ensures match PieceAt(args, s, id)
            case Foreign => Interpret(args, s, id) == OtherField
            case Malformed => Interpret(args, s, id) == FormatError
            case Head(tree, size, next) =>
              Interpret(args, s, id) ==
              if SkipsCharacter(s) && s[size - 1] != '}' then FormatError
              else Behind(Format(args, tree), Interpret(args, s[size..], next))
  {
    hide PlainLength, ReadSpecs;
    if s[0] == '{' {
      InterpretField(args, s, id);
    } else if s[0] == '}' {
      hide SpecPiece;
    } else {
      InterpretRun(args, s, id);
      hide Interpret;
    }
  }

  lemma InterpretRun(args: Arguments, s: string, id: nat)
    requires s != [] && IsPlain(s[0])
    ensures PieceAt(args, s, id).Head?
    ensures var p := PieceAt(args, s, id);
      !SkipsCharacter(s) && Interpret(args, s, id) == Behind(Format(args, p.tree), Interpret(args, s[p.size..], p.next))
  {
    var end := 1 + PlainLength(s[1..]);
    InterpretText(args, s, id, end);
    hide Interpret, PlainLength;
    assert end == 1 ==> s[..1] == [s[0]];
  }

  lemma InterpretField(args: Arguments, s: string, id: nat)
    requires s != [] && s[0] == '{'
    ensures match PieceAt(args, s, id)
            case Foreign => Interpret(args, s, id) == OtherField
            case Malformed => Interpret(args, s, id) == FormatError
            case Head(tree, size, next) =>
              Interpret(args, s, id) ==
              if SkipsCharacter(s) && s[size - 1] != '}' then FormatError
              else Behind(Format(args, tree), Interpret(args, s[size..], next))
  {
    hide PlainLength, ReadSpecs;
    assert !IsPlain(s[0]);
  }

  /** If every closing brace is doubled, compiling agrees with interpreting, whatever they come to. */
  lemma {:induction false} CompileAgrees(args: Arguments, s: string, id: nat)
    requires s != [] && ClosingDoubled(args, s, id)
    ensures Agree(args, Compile(args, s, id), Interpret(args, s, id))
    decreases |s|
  {
    InterpretPiece(args, s, id);
    hide PieceAt, Interpret, SkipsCharacter;
    match PieceAt(args, s, id)
    case Head(tree, size, next) =>
      if size == |s| {
        assert s[size..] == [];
        InterpretNothing(args, next);
        assert Format(args, tree) + [] == Format(args, tree);
      } else {
        CompileAgrees(args, s[size..], next);
      }
    case _ =>
  }

  lemma InterpretNothing(args: Arguments, id: nat)
    ensures Interpret(args, [], id) == Shown([])
  {
  }

  /** Without that the string still may compile, but interpreting it is an error. */
  lemma {:induction false} UndoubledIsError(args: Arguments, s: string, id: nat)
    requires s != [] && !ClosingDoubled(args, s, id) && Compile(args, s, id).Compiled?
    ensures Interpret(args, s, id) == FormatError
    decreases |s|
  {
    InterpretPiece(args, s, id);
    hide PieceAt, Interpret, SkipsCharacter;
    match PieceAt(args, s, id)
    case Head(tree, size, next) =>
      if size == |s| {
        assert s[size..] == [];
      } else if !ClosingDoubled(args, s[size..], next) {
        UndoubledIsError(args, s[size..], next);
      }
    case _ =>
  }

  /** A compiled string means its interpretation exactly if its closing braces are doubled. */
  lemma CompiledMeansInterpreted(args: Arguments, s: string)
    requires CompileString(args, s).Compiled?
    ensures Interpret(args, s, 0) == Shown(Format(args, CompileString(args, s).tree)) <==> ClosingDoubled(args, s, 0)
  {
    hide Compile, Interpret, ClosingDoubled;
    if s == [] {
      InterpretNothing(args, 0);
      NothingDoubled(args);
    } else if ClosingDoubled(args, s, 0) {
      CompileAgrees(args, s, 0);
    } else {
      UndoubledIsError(args, s, 0);
    }
  }

  lemma NothingDoubled(args: Arguments)
    ensures ClosingDoubled(args, [], 0)
  {
  }

  /** A lone closing brace compiles, and swallows the character behind it. */
  lemma LoneBraceSwallows(args: Arguments, c: char)
    requires c != '}'
    ensures CompileString(args, ['}', c]) == Compiled(Literal("}"))
    ensures Interpret(args, ['}', c], 0) == FormatError
  {
  }

  /** The specs that the numeric and string types of the library read. */
  function BuiltIn(rest: string): Reading {
    match FormatSpecs.SpecsAt(rest)
    case BadSpecs => Unreadable
    case GoodSpecs(size, uses) => Readable(rest[..size], size, uses)
  }

  lemma TypeAndMore()
    ensures BuiltIn("dx}}") == Readable("d", 1, [])
  {
    var s := "dx}}";
    assert FormatSpecs.AlignAt(s) == FormatSpecs.GoodSpecs(0, []);
    assert s[0..] == s && FormatSpecs.FlagsSize(s) == 0;
    assert FormatSpecs.WidthAt(s) == FormatSpecs.GoodSpecs(0, []);
    assert FormatSpecs.PrecisionAt(s) == FormatSpecs.GoodSpecs(0, []);
    hide FormatSpecs.AlignAt, FormatSpecs.FlagsSize, FormatSpecs.WidthAt, FormatSpecs.PrecisionAt;
    assert s[..1] == "d";
  }

  /** So do specs that end at another character than a closing brace, for the built-in types. */
  lemma TypeSwallows(args: Arguments)
    requires args.count > 0 && args.read(0, "dx}}") == BuiltIn("dx}}")
    ensures CompileString(args, "{:dx}}") == Compiled(Concat(SpecField(0, "d", []), Literal("}")))
    ensures Interpret(args, "{:dx}}", 0) == FormatError
  {
    TypeAndMore();
    hide BuiltIn;
    var s := "{:dx}}";
    assert s[2..] == "dx}}" && s[4..] == "}}";
    assert Run(1, []) == Ids([], 1);
    assert ReadSpecs(args, 0, "dx}}") == GoodSpecs("d", 1, [], 1);
    hide ReadSpecs, Run;
    assert PieceAt(args, s, 0) == Head(SpecField(0, "d", []), 4, 1);
    assert Compile(args, "}}", 1) == Compiled(Literal("}"));
    hide PieceAt;
  }

  // ---------------------------------------------------------------- the runtime parser

  /** The formatting handler with its counter at id reads the specs of argument id. */
  function Formatting(args: Arguments, id: nat): Handler {
    Handler((rest: string) => SpecSize(args, id, rest), false)
  }

  function SpecSize(args: Arguments, id: nat, rest: string): nat {
    match ReadSpecs(args, id, rest)
    case GoodSpecs(_, size, _, _) => size
    case BadSpecs => 0
  }

  datatype Handled = Goes(text: string, next: nat) | Refused | NotFollowed

  /** What the formatting handler does with the events of one step of the parser. */
  function Handle(args: Arguments, events: seq<Event>, id: nat): Handled {
    if events == [] then Goes([], id)
    else
      match events[0]
      case Text(text) => Goes(text, id)
      case Arg(Next) =>
        if id >= args.count then Refused
        else if |events| == 1 || events[1] == EmptyField then Goes(args.plain(id), id + 1)
        else if events[1].Specs? then
          match ReadSpecs(args, id, events[1].rest)
          case BadSpecs => Refused
          case GoodSpecs(spec, _, refs, next) => Goes(args.formatted(id, spec, refs), next)
        else NotFollowed
      case _ => NotFollowed
  }

  /** The parser of format strings, step by step, with the formatting handler. */
  function RunFormat(args: Arguments, s: string, id: nat): Output
    decreases |s|
  {
    match Step(Formatting(args, id), s)
    case Finish(events, ok) =>
      (match Handle(args, events, id)
       case Goes(text, _) => if ok then Shown(text) else FormatError
       case Refused => FormatError
       case NotFollowed => OtherField)
    case Continue(events, size) =>
      match Handle(args, events, id)
      case Goes(text, next) => Behind(text, RunFormat(args, s[size..], next))
      case Refused => FormatError
      case NotFollowed => OtherField
  }

  lemma StepOverText(args: Arguments, s: string, id: nat)
    ensures var n := PlainLength(s);
      && (n == |s| ==> RunFormat(args, s, id) == Shown(s))
      && (0 < n < |s| && s[n] == '{' ==> RunFormat(args, s, id) == Behind(s[..n], RunFormat(args, s[n..], id)))
  {
    hide FieldAt;
  }

  lemma StepOverClosing(args: Arguments, s: string, id: nat)
    requires PlainLength(s) < |s| && s[PlainLength(s)] == '}'
    ensures var n := PlainLength(s);
      RunFormat(args, s, id) ==
      if n + 1 < |s| && s[n + 1] == '}' then Behind(s[..n + 1], RunFormat(args, s[n + 2..], id)) else FormatError
  {
    hide FieldAt;
  }

  lemma StepIsField(h: Handler, s: string)
    requires s != [] && s[0] == '{'
    ensures var f := FieldAt(h, s);
      Step(h, s) == if f.ok then Continue(f.events, f.size) else Finish(f.events, false)
  {
    hide FieldAt;
    assert PlainLength(s) == 0;
  }

  lemma FieldWithoutId(h: Handler, s: string)
    requires s != [] && s[0] == '{' && (|s| == 1 || s[1] == '{' || s[1] == '}' || s[1] == ':')
    ensures FieldAt(h, s) ==
            if |s| == 1 then FieldReading([], 0, false)
            else if s[1] == '{' then FieldReading([Text("{")], 2, true)
            else if s[1] == '}' then FieldReading([Arg(Next), EmptyField], 2, true)
            else
              var end := 2 + Stop(h, s[2..]);
              FieldReading([Arg(Next), Specs(s[2..])], if end < |s| then end + 1 else 0, end < |s| && s[end] == '}')
  {
    if |s| > 1 && s[1] == ':' {
      assert ArgIdAt(h.tolerant, s[1..]) == GoodId(Next, 0);
    }
    hide ArgIdAt;
  }

  /** A field without an id, and an escaped opening brace. */
  lemma StepOverField(args: Arguments, s: string, id: nat)
    requires s != [] && s[0] == '{' && (|s| == 1 || s[1] == '{' || s[1] == '}' || s[1] == ':')
    ensures RunFormat(args, s, id) ==
            if |s| == 1 then FormatError
            else if s[1] == '{' then Behind("{", RunFormat(args, s[2..], id))
            else if id >= args.count then FormatError
            else if s[1] == '}' then Behind(args.plain(id), RunFormat(args, s[2..], id + 1))
            else
              match ReadSpecs(args, id, s[2..])
              case BadSpecs => FormatError
              case GoodSpecs(spec, size, refs, next) =>
                if 2 + size < |s| && s[2 + size] == '}' then
                  Behind(args.formatted(id, spec, refs), RunFormat(args, s[2 + size + 1..], next))
                else FormatError
  {
    hide Step, FieldAt;
    StepIsField(Formatting(args, id), s);
    FieldWithoutId(Formatting(args, id), s);
  }

  lemma InterpretClosing(args: Arguments, s: string, id: nat)
    requires PlainLength(s) < |s| && s[PlainLength(s)] == '}'
    ensures var n := PlainLength(s);
      Interpret(args, s, id) ==
      if n + 1 < |s| && s[n + 1] == '}' then Behind(s[..n + 1], Interpret(args, s[n + 2..], id)) else FormatError
  {
    var n := PlainLength(s);
    InterpretText(args, s, id, n);
    if n + 1 < |s| && s[n + 1] == '}' {
      assert s[n..][2..] == s[n + 2..] && s[..n] + "}" == s[..n + 1];
      BehindBehind(s[..n], "}", Interpret(args, s[n + 2..], id));
    }
  }

  lemma WithoutId(args: Arguments, s: string, id: nat)
    requires s != [] && s[0] == '{' && !Interpret(args, s, id).OtherField?
    ensures |s| == 1 || s[1] == '{' || s[1] == '}' || s[1] == ':'
  {
  }

  /** Wherever it does not come to a field with an explicit id, interpretation is what the parser formats. */
  lemma {:induction false} RunIsInterpretation(args: Arguments, s: string, id: nat)
    requires !Interpret(args, s, id).OtherField?
    ensures RunFormat(args, s, id) == Interpret(args, s, id)
    decreases |s|, 1
  {
    hide RunFormat, Interpret, PlainLength;
    var n := PlainLength(s);
    StepOverText(args, s, id);
    InterpretText(args, s, id, n);
    if n == |s| {
      InterpretNothing(args, id);
      assert s[n..] == [] && s[..n] == s && s + [] == s;
    } else if s[n] == '}' {
      StepOverClosing(args, s, id);
      InterpretClosing(args, s, id);
      if n + 1 < |s| && s[n + 1] == '}' {
        RunIsInterpretation(args, s[n + 2..], id);
      }
    } else if n > 0 {
      RunIsInterpretation(args, s[n..], id);
    } else {
      FieldIsInterpretation(args, s, id);
    }
  }

  lemma {:induction false} FieldIsInterpretation(args: Arguments, s: string, id: nat)
    requires s != [] && s[0] == '{' && !Interpret(args, s, id).OtherField?
    ensures RunFormat(args, s, id) == Interpret(args, s, id)
    decreases |s|, 0
  {
    hide RunFormat, ReadSpecs;
    WithoutId(args, s, id);
    StepOverField(args, s, id);
    if |s| > 1 {
      if s[1] == '{' {
        RunIsInterpretation(args, s[2..], id);
      } else if s[1] == '}' && id < args.count {
        RunIsInterpretation(args, s[2..], id + 1);
      } else if s[1] == ':' && id < args.count {
        match ReadSpecs(args, id, s[2..])
        case BadSpecs =>
        case GoodSpecs(_, size, _, next) =>
          if 2 + size < |s| && s[2 + size] == '}' {
            RunIsInterpretation(args, s[2 + size + 1..], next);
          }
      }
    }
  }

  /** A compiled string formats to what the runtime parser formats exactly if its closing braces are doubled. */
  lemma CompiledMeansParsed(args: Arguments, s: string)
    requires CompileString(args, s).Compiled?
    ensures RunFormat(args, s, 0) == Shown(Format(args, CompileString(args, s).tree)) <==> ClosingDoubled(args, s, 0)
  {
    hide Compile, Interpret, ClosingDoubled, RunFormat;
    CompiledMeansInterpreted(args, s);
    if s != [] && ClosingDoubled(args, s, 0) {
      CompileAgrees(args, s, 0);
    } else if s != [] {
      UndoubledIsError(args, s, 0);
    } else {
      InterpretNothing(args, 0);
    }
    RunIsInterpretation(args, s, 0);
  }

  // ---------------------------------------------------------------- numbering

  /** The arguments of a tree in the order in which they are written. */
  function Fields(tree: Tree): seq<nat> {
    match tree
    case Field(n) => [n]
    case SpecField(n, _, _) => [n]
    case Concat(lhs, rhs) => Fields(lhs) + Fields(rhs)
    case _ => []
  }

  /** With the arguments that their specs refer to, behind each one. */
  function Numbers(tree: Tree): seq<nat> {
    match tree
    case Field(n) => [n]
    case SpecField(n, _, refs) => [n] + refs
    case Concat(lhs, rhs) => Numbers(lhs) + Numbers(rhs)
    case _ => []
  }

  lemma PieceNumbering(args: Arguments, s: string, id: nat)
    requires s != [] && PieceAt(args, s, id).Head?
    ensures var p := PieceAt(args, s, id);
      && (Fields(p.tree) == [] || (Fields(p.tree) == [id] && id < args.count))
      && p.next == id + |Numbers(p.tree)|
      && (Fields(p.tree) != [] ==> Numbers(p.tree) != [])
      && forall k :: 0 <= k < |Numbers(p.tree)| ==> Numbers(p.tree)[k] == id + k
  {
    if |s| > 1 && s[0] == '{' && s[1] == ':' {
      var r := args.read(id, s[2..]);
      NumberedOn(id + 1, r.uses);
      hide Run;
    }
  }

  /** Fields are numbered upwards from the counter, and every number has an argument. */
  lemma {:induction false} FieldsAreNumbered(args: Arguments, s: string, id: nat)
    requires s != [] && Compile(args, s, id).Compiled?
    ensures var f := Fields(Compile(args, s, id).tree);
      && (forall k :: 0 <= k < |f| ==> id <= f[k] < args.count)
      && (forall j, k :: 0 <= j < k < |f| ==> f[j] < f[k])
    decreases |s|
  {
    PieceNumbering(args, s, id);
    hide PieceAt;
    var p := PieceAt(args, s, id);
    if p.size < |s| {
      FieldsAreNumbered(args, s[p.size..], p.next);
      var tail := Compile(args, s[p.size..], p.next).tree;
      assert Compile(args, s, id) == Compiled(Concat(p.tree, tail));
      assert Fields(Concat(p.tree, tail)) == Fields(p.tree) + Fields(tail);
    }
  }

  /** Fields and the arguments that specs refer to are together numbered 0, 1, 2, ... */
  lemma {:induction false} NumbersAreConsecutive(args: Arguments, s: string, id: nat)
    requires s != [] && Compile(args, s, id).Compiled?
    ensures var f := Numbers(Compile(args, s, id).tree); forall k :: 0 <= k < |f| ==> f[k] == id + k
    decreases |s|
  {
    PieceNumbering(args, s, id);
    hide PieceAt;
    var p := PieceAt(args, s, id);
    if p.size < |s| {
      NumbersAreConsecutive(args, s[p.size..], p.next);
      var tail := Compile(args, s[p.size..], p.next).tree;
      assert Compile(args, s, id) == Compiled(Concat(p.tree, tail));
      assert Numbers(Concat(p.tree, tail)) == Numbers(p.tree) + Numbers(tail);
    }
  }
}
