/**
 The formatter of an integral duration. Parsing reads an alignment and a width, checks the rest
 and records it; formatting runs over the recorded text again and writes the fields of the
 duration, or its value and unit if nothing is recorded.
 */
module DurationFormatter {
  import opened ChronoFields
  import opened ChronoFormat
  import opened ChronoFormatter
  import opened DurationCast
  import opened Options
  import opened ParseContext
  import FormatParser
  import FormatParts
  import FormatSpecs

  // ---------------------------------------------------------------- specification

  /** Where alignment and width end, and the argument that the width refers to. */
  datatype WidthReading = BadWidth | GoodWidth(size: nat, referred: Option<FormatParser.ArgId>)

  function WidthEnd(specs: string): (r: WidthReading)
    ensures r.GoodWidth? ==> r.size <= |specs|
  {
    if specs == [] || specs[0] == '}' then GoodWidth(0, None)
    else
      match FormatSpecs.AlignAt(specs)
      case BadSpecs => BadWidth
      case GoodSpecs(a, _) =>
        match FormatSpecs.WidthAt(specs[a..])
        case BadSpecs => BadWidth
        case GoodSpecs(w, _) => GoodWidth(a + w, FormatSpecs.ReferredAt(specs[a..]))
  }

  /** A reference resolved in a context, with the mode behind it. */
  datatype Resolution = Clash | Settled(width: Option<FormatParts.ArgRef>, mode: int)

  /** A name takes no part in numbering; a number or the next one may clash with the mode. */
  function Resolve(mode: int, referred: Option<FormatParser.ArgId>): Resolution {
    if referred.None? then Settled(None, mode)
    else
      match Run(mode, FormatSpecs.UsesOf(referred.value))
      case Mixed => Clash
      case Ids(ids, next) =>
        match referred.value
        case Name(name) => Settled(Some(FormatParts.ByName(name)), next)
        case _ => Settled(Some(FormatParts.ByIndex(ids[0])), next)
  }

  datatype Recording = Refused | Recorded(text: string, end: nat, width: Option<FormatParts.ArgRef>, mode: int)

  /** do_parse: a precision is refused, and so is what the checking pass does not accept. */
  function DoParse(mode: int, specs: string): Recording {
    match WidthEnd(specs)
    case BadWidth => Refused
    case GoodWidth(begin, referred) =>
      match Resolve(mode, referred)
      case Clash => Refused
      case Settled(width, next) =>
        if begin < |specs| && specs[begin] == '.' then Refused
        else
          var outcome := Scan(specs[begin..], true);
          if outcome.Parsed? && begin + outcome.end <= |specs| then
            Recorded(specs[begin..begin + outcome.end], begin + outcome.end, width, next)
          else Refused
  }

  /** A text that the checking pass accepts as a whole. */
  predicate Checked(text: string) {
    Scan(text, true).Parsed? && Scan(text, true).end == |text|
  }

  /** What a duration is written as. */
  function Shown(d: Duration, text: string): seq<Token>
    requires d.den > 0 && Checked(text)
  {
    if text == [] then (if d.count < 0 then [Sign] else []) + [Value(Abs(d.count)), Unit]
    else WithSign(d.count < 0, AllRendered(d, Scan(text, true).events))
  }

  /** The whole seconds can be computed, and no field throws; the value and the unit alone never do. */
  ghost predicate Showable(d: Duration, text: string)
    requires d.den > 0 && Checked(text)
  {
    || text == []
    || (&& Castable(Counter(d.rep), Counter(d.rep), d.num, d.den, Abs(d.count))
        && forall k :: 0 <= k < |Scan(text, true).events| ==> !Throws(d, Scan(text, true).events[k]))
  }

  lemma RecordedIsChecked(mode: int, specs: string)
    requires DoParse(mode, specs).Recorded?
    ensures Checked(DoParse(mode, specs).text)
  {
    hide Scan, WidthEnd, Resolve;
    var begin := WidthEnd(specs).size;
    var outcome := Scan(specs[begin..], true);
    SecondPassRepeats(specs[begin..], outcome.end, outcome.events);
    assert specs[begin..][..outcome.end] == DoParse(mode, specs).text;
  }

  // ---------------------------------------------------------------- the formatter

  class DurationFormatter {
    var formatStr: string
    var widthRef: Option<FormatParts.ArgRef>

    ghost predicate Valid()
      reads this
    {
      Checked(formatStr)
    }

    constructor ()
      ensures Valid() && formatStr == [] && widthRef == None
    {
      formatStr, widthRef := [], None;
    }

    /** parse_align and parse_width. */
    method ParseWidthEnd(specs: string) returns (r: WidthReading)
      ensures r == WidthEnd(specs)
    {
      hide FormatSpecs.AlignAt, FormatSpecs.WidthAt, FormatSpecs.ReferredAt;
      if specs == [] || specs[0] == '}' {
        return GoodWidth(0, None);
      }
      var align := FormatSpecs.ParseAlign(specs);
      if align.BadSpecs? {
        return BadWidth;
      }
      if align.size == |specs| {
        NoWidthLeft();
        assert specs[align.size..] == [];
        return GoodWidth(align.size, None);
      }
      var w, referred := FormatSpecs.ParseWidth(specs, align.size);
      return if w.BadSpecs? then BadWidth else GoodWidth(align.size + w.size, referred);
    }

    /** on_dynamic_width and the three forms of make_arg_ref. */
    method OnDynamicWidth(context: Context, referred: Option<FormatParser.ArgId>) returns (ok: bool)
      modifies this`widthRef, context
      ensures var resolution := Resolve(old(context.nextArgId), referred);
        && (ok <==> resolution.Settled?)
        && (ok ==> context.nextArgId == resolution.mode)
        && widthRef == if ok && referred.Some? then resolution.width else old(widthRef)
    {
      if referred.None? {
        return true;
      }
      match referred.value
      case Next =>
        RunOne(context.nextArgId, Automatic);
        var id;
        ok, id := context.NextArgId();
        if ok { widthRef := Some(FormatParts.ByIndex(id)); }
      case Index(n) =>
        RunOne(context.nextArgId, Manual(n));
        ok := context.CheckArgId(n);
        if ok { widthRef := Some(FormatParts.ByIndex(n)); }
      case Name(name) =>
        widthRef := Some(FormatParts.ByName(name));
        ok := true;
    }

    /** Records the text behind alignment and width that the checking pass accepts. */
    method Parse(context: Context, specs: string) returns (ok: bool, end: nat)
      requires Valid()
      modifies this, context
      ensures Valid()
      ensures var recording := DoParse(old(context.nextArgId), specs);
        && (ok <==> recording.Recorded?)
        && (ok ==> formatStr == recording.text && end == recording.end && context.nextArgId == recording.mode)
        && (ok ==> widthRef == if recording.width.Some? then recording.width else old(widthRef))
        && (!ok ==> formatStr == old(formatStr))
    {
      hide WidthEnd, Scan, Resolve;
      ghost var mode := context.nextArgId;
      if DoParse(mode, specs).Recorded? {
        RecordedIsChecked(mode, specs);
      }
      var width := ParseWidthEnd(specs);
      if width.BadWidth? {
        return false, 0;
      }
      NoReference(mode, width.referred);
      ok := OnDynamicWidth(context, width.referred);
      if !ok {
        return false, 0;
      }
      var begin := width.size;
      if begin == |specs| {
        NothingToCheck(specs[begin..]);
        formatStr := [];
        return true, begin;
      }
      if specs[begin] == '.' {
        return false, 0;
      }
      var outcome := ParseChronoFormat(specs[begin..], true);
      if !outcome.Parsed? {
        return false, 0;
      }
      SecondPassRepeats(specs[begin..], outcome.end, outcome.events);
      end := begin + outcome.end;
      formatStr := specs[begin..end];
      return true, end;
    }

    /**
     Formats through the recorded text, in a second pass that cannot fail. gives says which
     arguments are there and can be a width.
     */
    method Format(d: Duration, gives: FormatParts.ArgRef -> bool) returns (ok: bool, out: seq<Token>)
      requires Valid() && d.Valid()
      ensures ok <==> (widthRef.Some? ==> gives(widthRef.value)) && Showable(d, formatStr)
      ensures ok ==> out == Shown(d, formatStr)
    {
      hide Scan, Castable, Throws, AllRendered, WithSign, Duration.Valid, ChronoFormatter.Valid;
      DenIsPositive(d);
      if widthRef.Some? && !gives(widthRef.value) {
        return false, [];
      }
      if formatStr == [] {
        return true, (if d.count < 0 then [Sign] else []) + [Value(Abs(d.count)), Unit];
      }
      var writer := new ChronoFormatter(d);
      if !writer.ready {
        return false, [];
      }
      var outcome := ParseChronoFormat(formatStr, false);
      assert formatStr[..|formatStr|] == formatStr;
      SecondPassRepeats(formatStr, |formatStr|, Scan(formatStr, true).events);
      ok := writer.Format(outcome.events);
      out := writer.out;
    }
  }

  lemma NoWidthLeft()
    ensures FormatSpecs.WidthAt([]) == FormatSpecs.GoodSpecs(0, []) && FormatSpecs.ReferredAt([]) == None
  {
  }

  lemma NoReference(mode: int, referred: Option<FormatParser.ArgId>)
    ensures Resolve(mode, referred).Settled? ==> (Resolve(mode, referred).width.Some? <==> referred.Some?)
  {
  }

  /** A dynamic width is refused exactly where it would mix automatic and manual numbering. */
  lemma ClashExactly(mode: int, referred: Option<FormatParser.ArgId>)
    ensures Resolve(mode, referred).Clash? <==>
              || (referred == Some(FormatParser.Next) && mode < 0)
              || (referred.Some? && referred.value.Index? && mode > 0)
  {
    if referred.Some? {
      match referred.value
      case Next => RunOne(mode, Automatic);
      case Index(n) => RunOne(mode, Manual(n));
      case Name(_) =>
    }
  }

  lemma DenIsPositive(d: Duration)
    requires d.Valid()
    ensures d.den > 0
  {
  }

  lemma NothingToCheck(s: string)
    requires s == []
    ensures Scan(s, true) == Parsed(0, [])
  {
  }

  /** From the text behind the colon and a duration to what is written, in the context of a format string. */
  method FormatDuration(context: Context, specs: string, d: Duration, gives: FormatParts.ArgRef -> bool)
    returns (ok: bool, out: seq<Token>)
    requires d.Valid()
    modifies context
    ensures var recording := DoParse(old(context.nextArgId), specs);
      && (recording.Recorded? ==> Checked(recording.text))
      && (ok <==> && recording.Recorded?
                  && (recording.width.Some? ==> gives(recording.width.value))
                  && Showable(d, recording.text))
      && (ok ==> out == Shown(d, recording.text) && context.nextArgId == recording.mode)
  {
    hide DoParse, Showable, Shown;
    var formatter := new DurationFormatter();
    if DoParse(context.nextArgId, specs).Recorded? {
      RecordedIsChecked(context.nextArgId, specs);
    }
    out := [];
    var end;
    ok, end := formatter.Parse(context, specs);
    if ok {
      ok, out := formatter.Format(d, gives);
    }
  }

  // ---------------------------------------------------------------- what is written

  /**
   The text behind the width is accepted if and only if the width resolves and directives without
   dates tile the text up to the closing brace, and then they are what is written.
   */
  lemma ShownExactly(mode: int, specs: string, d: Duration, end: nat, events: seq<Event>)
    requires d.den > 0 && WidthEnd(specs).GoodWidth?
    ensures var begin := WidthEnd(specs).size; var recording := DoParse(mode, specs);
      (&& recording.Recorded? && recording.end == begin + end && Checked(recording.text)
       && Scan(recording.text, true).events == events)
      <==> (&& Resolve(mode, WidthEnd(specs).referred).Settled?
            && (begin < |specs| ==> specs[begin] != '.')
            && Tiles(specs[begin..], end, events) && HasNoDate(events))
  {
    hide Scan, Tiles, HasNoDate, WidthEnd, Resolve;
    var begin := WidthEnd(specs).size;
    ParsedExactly(specs[begin..], true, end, events);
    if DoParse(mode, specs).Recorded? {
      var outcome := Scan(specs[begin..], true);
      SecondPassRepeats(specs[begin..], outcome.end, outcome.events);
      assert specs[begin..][..outcome.end] == DoParse(mode, specs).text;
    }
    if Tiles(specs[begin..], end, events) && HasNoDate(events) {
      SecondPassRepeats(specs[begin..], end, events);
    }
  }

  /** A negative duration is written with one sign if it has a field to put it at, and others without. */
  lemma ShownSign(d: Duration, text: string)
    requires d.den > 0 && Checked(text)
    ensures var signed := text == [] || exists k :: 0 <= k < |Shown(d, text)| && Signed(Shown(d, text)[k]);
      SignCount(Shown(d, text)) == if d.count < 0 && signed then 1 else 0
  {
    hide Scan, AllRendered;
    if text != [] {
      var plain := AllRendered(d, Scan(text, true).events);
      AtMostOneSign(d, Scan(text, true).events);
      SignKeepsSigned(d.count < 0, plain);
    }
  }

  lemma SignKeepsSigned(negative: bool, tokens: seq<Token>)
    ensures var all := WithSign(negative, tokens);
      FirstSigned(tokens) < |tokens| <==> exists k :: 0 <= k < |all| && Signed(all[k])
  {
    var all, i := WithSign(negative, tokens), FirstSigned(tokens);
    if i < |tokens| {
      assert Signed(all[if negative then i + 1 else i]);
    }
    hide FirstSigned;
  }
}
