/**
 Format strings as lists of characters and fields, and how they are spelled: whatever is spelled
 is what the parser raises, in both of its forms and with every handler.
 */
module FormatSpelling {
  import Decimals
  import opened FormatParser
  import opened FormatParts
  import opened FormatPasses
  import opened SpecSpelling

  /** A character of text, a field with its id, or a field with an id and specs. */
  datatype Item = Char(c: char) | Ref(id: ArgId) | RefSpecs(id: ArgId, specs: string)

  function SpelledItem(item: Item): string {
    match item
    case Char(c) => if IsPlain(c) then [c] else [c, c]
    case Ref(id) => "{" + SpelledId(id) + "}"
    case RefSpecs(id, specs) => "{" + SpelledId(id) + ":" + specs + "}"
  }

  function SpelledItems(items: seq<Item>): string {
    if items == [] then [] else SpelledItem(items[0]) + SpelledItems(items[1..])
  }

  /** The handler leaves specs at the closing brace of their field, whatever follows. */
  ghost predicate LeavesSpecs(h: Handler, specs: string) {
    forall rest: string :: Stop(h, specs + ("}" + rest)) == |specs|
  }

  ghost predicate LegalItem(h: Handler, item: Item) {
    match item
    case Char(_) => true
    case Ref(id) => LegalId(id)
    case RefSpecs(id, specs) => LegalId(id) && LeavesSpecs(h, specs)
  }

  function Chars(text: string): (items: seq<Item>)
    ensures |items| == |text|
  {
    seq(|text|, k requires 0 <= k < |text| => Char(text[k]))
  }

  /** What the events of a parse stand for; the handler reads specs up to its stop. */
  function Meaning(h: Handler, events: seq<Event>): seq<Item> {
    if events == [] then []
    else
      match events[0]
      case Text(text) => Chars(text) + Meaning(h, events[1..])
      case Arg(id) =>
        if |events| == 1 then []
        else if events[1].Specs? then
          [RefSpecs(id, events[1].rest[..Stop(h, events[1].rest)])] + Meaning(h, events[2..])
        else [Ref(id)] + Meaning(h, events[2..])
      case _ => []
  }

  /** The string parses without error, to the items. */
  ghost predicate Means(long: bool, h: Handler, s: string, items: seq<Item>) {
    Scan(long, h, s).ok && Meaning(h, Scan(long, h, s).events) == items
  }

  // ---------------------------------------------------------------- one step

  lemma MeaningOfText(h: Handler, text: string, events: seq<Event>)
    ensures Meaning(h, [Text(text)] + events) == Chars(text) + Meaning(h, events)
  {
    assert ([Text(text)] + events)[1..] == events;
  }

  lemma StepMeans(long: bool, h: Handler, s: string, text: string, size: nat, items: seq<Item>)
    requires Step(h, s) == Continue([Text(text)], size) && Means(long, h, s[size..], items)
    ensures Means(long, h, s, Chars(text) + items)
  {
    hide Step, Meaning, Scan;
    ScanStep(long, h, s, [Text(text)], size);
    MeaningOfText(h, text, Scan(long, h, s[size..]).events);
  }

  lemma FieldMeans(long: bool, h: Handler, s: string, id: ArgId, field: Event, size: nat, items: seq<Item>)
    requires Step(h, s) == Continue([Arg(id), field], size) && IsField(field) && Means(long, h, s[size..], items)
    ensures var item := if field.Specs? then RefSpecs(id, field.rest[..Stop(h, field.rest)]) else Ref(id);
      Means(long, h, s, [item] + items)
  {
    hide Step, Scan, Stop;
    ScanStep(long, h, s, [Arg(id), field], size);
    var more := Scan(long, h, s[size..]).events;
    assert ([Arg(id), field] + more)[2..] == more;
  }

  // ---------------------------------------------------------------- text

  lemma CharsCons(c: char, text: string)
    ensures Chars([c] + text) == [Char(c)] + Chars(text)
  {
  }

  lemma PlainCons(c: char, s: string)
    requires IsPlain(c)
    ensures PlainLength([c] + s) == 1 + PlainLength(s)
  {
    assert ([c] + s)[1..] == s;
  }

  /** Where a first text ends at a brace: the opening one is left, and of two closing ones one is text. */
  predicate EndsText(s: string, text: string, size: nat) {
    var n := PlainLength(s);
    && n < |s|
    && if s[n] == '{' then n > 0 && text == s[..n] && size == n
       else n + 1 < |s| && s[n + 1] == '}' && text == s[..n + 1] && size == n + 2
  }

  lemma StepText(h: Handler, s: string, text: string, size: nat)
    requires EndsText(s, text, size)
    ensures Step(h, s) == Continue([Text(text)], size)
  {
    hide Step, PlainLength;
    var n := PlainLength(s);
    if s[n] == '{' {
      StepOfText(h, s);
    } else {
      PlainUpTo(s, 0, n);
      assert s[0..] == s;
      StepClosing(h, s, n);
    }
  }

  lemma EndsTextCons(c: char, s: string, text: string, size: nat)
    requires IsPlain(c) && EndsText(s, text, size)
    ensures EndsText([c] + s, [c] + text, size + 1)
  {
    hide PlainLength;
    PlainCons(c, s);
    var n, all := PlainLength(s), [c] + s;
    assert all[n + 1] == s[n] && all[..n + 1] == [c] + s[..n];
    assert n + 1 < |s| ==> all[n + 2] == s[n + 1] && all[..n + 2] == [c] + s[..n + 1];
  }

  lemma FinishesText(long: bool, h: Handler, s: string)
    requires PlainLength(s) == |s| && s != []
    ensures Scan(long, h, s) == Parse([Text(s)], true)
  {
    hide FieldAt;
  }

  lemma AllText(long: bool, h: Handler, c: char, s: string, items: seq<Item>)
    requires IsPlain(c) && PlainLength(s) == |s| && Means(long, h, s, items)
    ensures Means(long, h, [c] + s, [Char(c)] + items)
  {
    hide Scan, PlainLength, Meaning, Means;
    PlainCons(c, s);
    FinishesText(long, h, [c] + s);
    MeansText(long, h, [c] + s);
    CharsCons(c, s);
    if s == [] {
      MeansNothing(long, h, items);
    } else {
      FinishesText(long, h, s);
      MeansText(long, h, s);
      MeansOnce(long, h, s, items, Chars(s));
    }
  }

  lemma MeansText(long: bool, h: Handler, s: string)
    requires Scan(long, h, s) == Parse([Text(s)], true)
    ensures Means(long, h, s, Chars(s))
  {
    hide Scan;
    assert [Text(s)] + [] == [Text(s)];
    MeaningOfText(h, s, []);
  }

  lemma MeansNothing(long: bool, h: Handler, items: seq<Item>)
    ensures Means(long, h, [], items) <==> items == []
  {
    assert PlainLength([]) == 0;
  }

  lemma MeansOnce(long: bool, h: Handler, s: string, a: seq<Item>, b: seq<Item>)
    requires Means(long, h, s, a) && Means(long, h, s, b)
    ensures a == b
  {
  }

  /** What a string means whose first step raises a text. */
  lemma FirstTextMeans(long: bool, h: Handler, s: string, text: string, size: nat, items: seq<Item>)
    requires Step(h, s) == Continue([Text(text)], size) && Means(long, h, s, items)
    ensures |items| >= |text| && items[..|text|] == Chars(text)
    ensures Means(long, h, s[size..], items[|text|..])
  {
    hide Step, Meaning, Scan;
    ScanStep(long, h, s, [Text(text)], size);
    MeaningOfText(h, text, Scan(long, h, s[size..]).events);
  }

  /** A plain character in front of a string is one more item. */
  lemma PlainMeans(long: bool, h: Handler, c: char, s: string, items: seq<Item>)
    requires IsPlain(c) && Means(long, h, s, items)
    ensures Means(long, h, [c] + s, [Char(c)] + items)
  {
    hide Step, Scan, Means, Meaning;
    var n, all := PlainLength(s), [c] + s;
    if n == |s| {
      AllText(long, h, c, s, items);
    } else if s[n] == '}' {
      NotAlone(long, h, s, items);
      LongerText(long, h, c, s, s[..n + 1], n + 2, items);
    } else if n > 0 {
      LongerText(long, h, c, s, s[..n], n, items);
    } else {
      PlainCons(c, s);
      assert all[1..] == s && all[..1] == [c];
      StepText(h, all, [c], 1);
      StepMeans(long, h, all, [c], 1, items);
      assert Chars([c]) == [Char(c)];
    }
  }

  lemma NotAlone(long: bool, h: Handler, s: string, items: seq<Item>)
    requires PlainLength(s) < |s| && s[PlainLength(s)] == '}' && Means(long, h, s, items)
    ensures PlainLength(s) + 1 < |s| && s[PlainLength(s) + 1] == '}'
  {
    hide FieldAt, Meaning;
  }

  lemma LongerText(long: bool, h: Handler, c: char, s: string, text: string, size: nat, items: seq<Item>)
    requires IsPlain(c) && EndsText(s, text, size) && Means(long, h, s, items)
    ensures Means(long, h, [c] + s, [Char(c)] + items)
  {
    hide Step, Scan, Means, Meaning, EndsText;
    StepText(h, s, text, size);
    EndsTextCons(c, s, text, size);
    StepText(h, [c] + s, [c] + text, size + 1);
    FirstTextMeans(long, h, s, text, size, items);
    assert ([c] + s)[size + 1..] == s[size..];
    StepMeans(long, h, [c] + s, [c] + text, size + 1, items[|text|..]);
    CharsCons(c, text);
    assert [Char(c)] + Chars(text) + items[|text|..] == [Char(c)] + items;
  }

  lemma DoubledMeans(long: bool, h: Handler, c: char, s: string, items: seq<Item>)
    requires !IsPlain(c) && Means(long, h, s, items)
    ensures Means(long, h, [c, c] + s, [Char(c)] + items)
  {
    hide Scan, Means, Meaning;
    var all := [c, c] + s;
    assert all[2..] == s && all[..1] == [c] && PlainLength(all) == 0;
    assert Step(h, all) == Continue([Text([c])], 2);
    hide Step;
    StepMeans(long, h, all, [c], 2, items);
    assert Chars([c]) == [Char(c)];
  }

  // ---------------------------------------------------------------- fields

  lemma StepOfField(h: Handler, s: string)
    requires s != [] && s[0] == '{' && FieldAt(h, s).ok
    ensures Step(h, s) == Continue(FieldAt(h, s).events, FieldAt(h, s).size)
  {
    hide FieldAt;
    assert PlainLength(s) == 0;
  }

  /** Behind the brace an id is no brace. */
  lemma IdStarts(id: ArgId, rest: string)
    requires LegalId(id) && rest != [] && EndsId(rest[0])
    ensures var c := (SpelledId(id) + rest)[0]; c != '{' && (c == '}' ==> id == Next && SpelledId(id) == [])
  {
    if id.Index? {
      hide Decimals.Decimal;
    }
  }

  /** A field whose id is known. */
  lemma FieldOfId(h: Handler, s: string, id: ArgId, k: nat)
    requires |s| > 1 && s[0] == '{' && s[1] != '{' && ArgIdAt(h.tolerant, s[1..]) == GoodId(id, k)
    requires s[1] == '}' ==> id == Next && k == 0
    requires 1 + k < |s|
    ensures s[1 + k] == '}' ==> FieldAt(h, s) == FieldReading([Arg(id), EmptyField], k + 2, true)
    ensures s[1 + k] == ':' ==>
              var end := k + 2 + Stop(h, s[k + 2..]);
              end < |s| && s[end] == '}' ==>
                FieldAt(h, s) == FieldReading([Arg(id), Specs(s[k + 2..])], end + 1, true)
  {
    hide ArgIdAt, Stop;
  }

  lemma RefMeans(long: bool, h: Handler, id: ArgId, s: string, items: seq<Item>)
    requires LegalId(id) && Means(long, h, s, items)
    ensures Means(long, h, "{" + SpelledId(id) + "}" + s, [Ref(id)] + items)
  {
    hide Scan, Means, Meaning, ArgIdAt, SpelledId, FieldAt, Step;
    var name, rest := SpelledId(id), "}" + s;
    var all := "{" + name + "}" + s;
    assert all[1..] == name + rest && all[1 + |name|] == '}' && all[|name| + 2..] == s;
    IdReadsBack(h.tolerant, id, rest);
    IdStarts(id, rest);
    FieldOfId(h, all, id, |name|);
    StepOfField(h, all);
    FieldMeans(long, h, all, id, EmptyField, |name| + 2, items);
  }

  lemma SlicesOfField(name: string, specs: string, s: string)
    ensures var all, behind := "{" + name + ":" + specs + "}" + s, specs + ("}" + s);
      && |all| == |name| + 3 + |specs| + |s| && all[0] == '{'
      && all[1..] == name + (":" + specs + "}" + s) && all[1] == (name + (":" + specs + "}" + s))[0]
      && all[1 + |name|] == ':' && all[|name| + 2..] == behind && all[|name| + 2 + |specs|] == '}'
      && all[|name| + 2 + |specs| + 1..] == s && behind[..|specs|] == specs
  {
    var all := "{" + name + ":" + specs + "}" + s;
    assert all[1..] == name + (":" + specs + "}" + s);
    assert all[|name| + 2..] == specs + ("}" + s);
    assert all[|name| + 2 + |specs| + 1..] == s;
  }

  lemma RefSpecsMeans(long: bool, h: Handler, id: ArgId, specs: string, s: string, items: seq<Item>)
    requires LegalId(id) && LeavesSpecs(h, specs) && Means(long, h, s, items)
    ensures Means(long, h, "{" + SpelledId(id) + ":" + specs + "}" + s, [RefSpecs(id, specs)] + items)
  {
    hide Scan, Means, Meaning, ArgIdAt, SpelledId, FieldAt, Step, Stop;
    var name, rest, behind := SpelledId(id), ":" + specs + "}" + s, specs + ("}" + s);
    var all := "{" + name + ":" + specs + "}" + s;
    SlicesOfField(name, specs, s);
    IdReadsBack(h.tolerant, id, rest);
    IdStarts(id, rest);
    assert Stop(h, behind) == |specs|;
    FieldOfId(h, all, id, |name|);
    StepOfField(h, all);
    FieldMeans(long, h, all, id, Specs(behind), |name| + 2 + |specs| + 1, items);
  }

  // ---------------------------------------------------------------- whole strings

  lemma ItemMeans(long: bool, h: Handler, item: Item, s: string, items: seq<Item>)
    requires LegalItem(h, item) && Means(long, h, s, items)
    ensures Means(long, h, SpelledItem(item) + s, [item] + items)
  {
    hide Means, LegalId, LeavesSpecs, SpelledId;
    match item
    case Char(c) =>
      if IsPlain(c) {
        PlainMeans(long, h, c, s, items);
      } else {
        DoubledMeans(long, h, c, s, items);
      }
    case Ref(id) => RefMeans(long, h, id, s, items);
    case RefSpecs(id, specs) => RefSpecsMeans(long, h, id, specs, s, items);
  }

  /** Every spelled list of characters and fields parses to itself. */
  lemma {:induction false} SpelledMeans(long: bool, h: Handler, items: seq<Item>)
    requires forall k :: 0 <= k < |items| ==> LegalItem(h, items[k])
    ensures Means(long, h, SpelledItems(items), items)
  {
    hide Means, LegalItem, SpelledItem;
    if items == [] {
      MeansNothing(long, h, []);
    } else {
      SpelledMeans(long, h, items[1..]);
      ItemMeans(long, h, items[0], SpelledItems(items[1..]), items[1..]);
      assert [items[0]] + items[1..] == items;
    }
  }

  /** Fields with spelled specs are legal for the handler that reads them. */
  lemma SpecsAreLegal(id: ArgId, spec: Spec)
    requires LegalId(id) && LegalSpec(spec)
    ensures LegalItem(EMITTING, RefSpecs(id, Spelled(spec)))
  {
    hide Stop, Spelled, LegalSpec;
    forall rest: string ensures Stop(EMITTING, Spelled(spec) + ("}" + rest)) == |Spelled(spec)| {
      SpelledStops(spec, rest);
    }
  }

  // ---------------------------------------------------------------- nothing else is accepted

  lemma {:induction false} SpelledConcat(a: seq<Item>, b: seq<Item>)
    ensures SpelledItems(a + b) == SpelledItems(a) + SpelledItems(b)
  {
    hide SpelledItem;
    if a == [] {
      assert a + b == b;
    } else {
      assert (a + b)[1..] == a[1..] + b;
      SpelledConcat(a[1..], b);
    }
  }

  lemma {:induction false} SpelledPlain(text: string)
    requires forall k :: 0 <= k < |text| ==> IsPlain(text[k])
    ensures SpelledItems(Chars(text)) == text
  {
    if text != [] {
      assert Chars(text)[1..] == Chars(text[1..]);
      SpelledPlain(text[1..]);
    }
  }

  /** Without leading zeros digits are spelled as they are read. */
  lemma {:induction false} DigitsAreDecimal(digits: string)
    requires digits != [] && forall k :: 0 <= k < |digits| ==> Decimals.IsDigit(digits[k])
    requires digits[0] == '0' ==> |digits| == 1
    ensures Decimals.Decimal(Decimals.NumberOf(digits)) == digits
    ensures digits[0] != '0' ==> Decimals.NumberOf(digits) > 0
  {
    hide Decimals.Decimal, Decimals.NumberOf;
    var n := |digits| - 1;
    var d := (digits[n] - '0') as int;
    LastDigit(digits);
    if n > 0 {
      var high := Decimals.NumberOf(digits[..n]);
      DigitsAreDecimal(digits[..n]);
      DigitAppended(high, d);
      assert digits == digits[..n] + [digits[n]];
    } else {
      OneDigit(d);
      assert digits == [digits[0]];
    }
  }

  lemma LastDigit(digits: string)
    requires digits != [] && forall k :: 0 <= k < |digits| ==> Decimals.IsDigit(digits[k])
    ensures var n := |digits| - 1;
      Decimals.NumberOf(digits)
      == (if n > 0 then 10 * Decimals.NumberOf(digits[..n]) else 0) + (digits[n] - '0') as int
  {
    if |digits| == 1 {
      assert digits[..0] == [];
    }
  }

  lemma DigitAppended(v: nat, d: nat)
    requires v > 0 && d < 10
    ensures Decimals.Decimal(10 * v + d) == Decimals.Decimal(v) + ['0' + d as char]
  {
    assert (10 * v + d) / 10 == v && (10 * v + d) % 10 == d;
  }

  lemma OneDigit(d: nat)
    requires d < 10
    ensures Decimals.Decimal(d) == ['0' + d as char]
  {
  }

  /** An id that is read is spelled by what was read. */
  lemma IdIsSpelled(s: string)
    requires s != [] && ArgIdAt(false, s).GoodId?
    ensures var r := ArgIdAt(false, s); LegalId(r.id) && SpelledId(r.id) == s[..r.size]
  {
    if Decimals.IsDigit(s[0]) {
      var n := if s[0] == '0' then 1 else DigitsLength(s);
      DigitsAreDecimal(s[..n]);
      hide Decimals.Decimal, Decimals.NumberOf;
    }
  }

  /** What the parser takes at one step is spelled by what it raises. */
  ghost predicate TakesSpelled(h: Handler, s: string, size: nat, events: seq<Event>)
    requires size <= |s|
  {
    && (forall k :: 0 <= k < |Meaning(h, events)| ==> Meaning(h, events)[k].Char? || LegalId(Meaning(h, events)[k].id))
    && SpelledItems(Meaning(h, events)) == s[..size]
  }

  lemma MeaningOfOne(h: Handler, text: string)
    ensures Meaning(h, [Text(text)]) == Chars(text)
  {
    assert [Text(text)] + [] == [Text(text)];
    MeaningOfText(h, text, []);
  }

  lemma PlainIsTaken(h: Handler, s: string, n: nat)
    requires n <= |s| && forall k :: 0 <= k < n ==> IsPlain(s[k])
    ensures TakesSpelled(h, s, n, [Text(s[..n])])
  {
    MeaningOfOne(h, s[..n]);
    SpelledPlain(s[..n]);
    hide Meaning, SpelledItems;
  }

  lemma ClosingIsTaken(h: Handler, s: string, n: nat)
    requires n + 1 < |s| && s[n] == s[n + 1] == '}' && forall k :: 0 <= k < n ==> IsPlain(s[k])
    ensures TakesSpelled(h, s, n + 2, [Text(s[..n + 1])])
  {
    hide Meaning, SpelledItems;
    MeaningOfOne(h, s[..n + 1]);
    SpelledPlain(s[..n]);
    assert Chars(s[..n + 1]) == Chars(s[..n]) + [Char('}')];
    SpelledConcat(Chars(s[..n]), [Char('}')]);
    OneItem(Char('}'));
    assert s[..n] + "}}" == s[..n + 2];
  }

  lemma OneItem(item: Item)
    ensures SpelledItems([item]) == SpelledItem(item)
  {
    assert [item][1..] == [];
  }

  lemma MeaningOfField(h: Handler, id: ArgId, field: Event)
    requires IsField(field)
    ensures Meaning(h, [Arg(id), field])
         == [if field.Specs? then RefSpecs(id, field.rest[..Stop(h, field.rest)]) else Ref(id)]
  {
    hide Stop;
    assert [Arg(id), field][2..] == [];
  }

  /** The forms of a field that is accepted. */
  lemma FieldForms(h: Handler, s: string)
    requires !h.tolerant && s != [] && s[0] == '{' && FieldAt(h, s).ok
    ensures var f := FieldAt(h, s);
      || (|s| > 1 && s[1] == '{' && f == FieldReading([Text("{")], 2, true))
      || (|s| > 1 && s[1] == '}' && f == FieldReading([Arg(Next), EmptyField], 2, true))
      || (&& |s| > 1 && ArgIdAt(false, s[1..]).GoodId?
          && var id, at := ArgIdAt(false, s[1..]).id, 1 + ArgIdAt(false, s[1..]).size;
            && at < |s|
            && if s[at] == '}' then f == FieldReading([Arg(id), EmptyField], at + 1, true)
               else
                 && s[at] == ':'
                 && var end := at + 1 + Stop(h, s[at + 1..]);
                   end < |s| && s[end] == '}' && f == FieldReading([Arg(id), Specs(s[at + 1..])], end + 1, true))
  {
    hide ArgIdAt, Stop;
  }

  lemma FieldIsTaken(h: Handler, s: string)
    requires !h.tolerant && s != [] && s[0] == '{' && FieldAt(h, s).ok
    ensures TakesSpelled(h, s, FieldAt(h, s).size, FieldAt(h, s).events)
  {
    hide ArgIdAt, Stop, FieldAt, Meaning, SpelledId, SpelledItems, LegalId;
    FieldForms(h, s);
    var f := FieldAt(h, s);
    if s[1] == '{' && f.events == [Text("{")] {
      BraceIsTaken(h, s);
    } else if s[1] == '}' && f == FieldReading([Arg(Next), EmptyField], 2, true) {
      EmptyIsTaken(h, s);
    } else {
      var r := ArgIdAt(false, s[1..]);
      IdIsSpelled(s[1..]);
      assert s[1..][..r.size] == s[1..1 + r.size];
      if s[1 + r.size] == '}' {
        RefIsTaken(h, s, r.id, 1 + r.size);
      } else {
        RefSpecsIsTaken(h, s, r.id, 1 + r.size);
      }
    }
  }

  lemma RefIsTaken(h: Handler, s: string, id: ArgId, at: nat)
    requires 0 < at < |s| && s[0] == '{' && s[at] == '}' && LegalId(id) && SpelledId(id) == s[1..at]
    ensures TakesSpelled(h, s, at + 1, [Arg(id), EmptyField])
  {
    hide Meaning, SpelledId, SpelledItems, LegalId;
    MeaningOfField(h, id, EmptyField);
    OneItem(Ref(id));
    assert "{" + s[1..at] + "}" == s[..at + 1];
  }

  lemma RefSpecsIsTaken(h: Handler, s: string, id: ArgId, at: nat)
    requires 0 < at < |s| && s[0] == '{' && s[at] == ':' && LegalId(id) && SpelledId(id) == s[1..at]
    requires var end := at + 1 + Stop(h, s[at + 1..]); end < |s| && s[end] == '}'
    ensures var end := at + 1 + Stop(h, s[at + 1..]); TakesSpelled(h, s, end + 1, [Arg(id), Specs(s[at + 1..])])
  {
    hide Meaning, SpelledId, SpelledItems, LegalId, Stop;
    var rest := s[at + 1..];
    var n := Stop(h, rest);
    MeaningOfField(h, id, Specs(rest));
    OneItem(RefSpecs(id, rest[..n]));
    assert rest[..n] == s[at + 1..at + 1 + n];
    assert "{" + s[1..at] + ":" + s[at + 1..at + 1 + n] + "}" == s[..at + 1 + n + 1];
  }

  lemma BraceIsTaken(h: Handler, s: string)
    requires |s| > 1 && s[0] == s[1] == '{'
    ensures TakesSpelled(h, s, 2, [Text("{")])
  {
    assert [Text("{")] + [] == [Text("{")];
    MeaningOfText(h, "{", []);
    assert Chars("{") == [Char('{')];
    OneItem(Char('{'));
    assert s[..2] == "{{";
    hide SpelledItems, Meaning;
  }

  lemma EmptyIsTaken(h: Handler, s: string)
    requires |s| > 1 && s[0] == '{' && s[1] == '}'
    ensures TakesSpelled(h, s, 2, [Arg(Next), EmptyField])
  {
    MeaningOfField(h, Next, EmptyField);
    OneItem(Ref(Next));
    assert s[..2] == "{}";
    hide SpelledItems, Meaning;
  }

  lemma StepIsTaken(h: Handler, s: string)
    requires !h.tolerant && Step(h, s).Continue?
    ensures TakesSpelled(h, s, Step(h, s).size, Step(h, s).events)
  {
    hide Step, FieldAt, PlainLength, TakesSpelled;
    var n := PlainLength(s);
    if n == |s| {
      StepAtText(h, s);
    } else if s[n] == '{' && n == 0 {
      StepAtField(h, s);
      FieldIsTaken(h, s);
    } else {
      if s[n] == '}' {
        StepOfClosing(h, s);
        ClosingIsTaken(h, s, n);
      } else {
        StepOfText(h, s);
        PlainIsTaken(h, s, n);
      }
    }
  }

  lemma CompleteTail(events: seq<Event>, n: nat)
    requires Complete(events) && events != [] && n == if events[0].Text? then 1 else 2
    ensures n <= |events| && Complete(events[n..])
    ensures events[0].Text? || (events[0].Arg? && IsField(events[1]))
  {
    if !events[0].Text? {
      assert events[0].Arg? && |events| > 1;
      assert IsField(events[1]) <==> events[0].Arg?;
      assert |events| > 2 ==> (IsField(events[2]) <==> events[1].Arg?);
    } else {
      assert |events| > 1 ==> (IsField(events[1]) <==> events[0].Arg?);
    }
    assert forall k :: 0 <= k < |events| - n ==> events[n..][k] == events[n + k];
  }

  lemma {:induction false} MeaningConcat(h: Handler, a: seq<Event>, b: seq<Event>)
    requires Complete(a)
    ensures Meaning(h, a + b) == Meaning(h, a) + Meaning(h, b)
    decreases |a|
  {
    if a == [] {
      assert a + b == b;
    } else if a[0].Text? {
      assert (a + b)[1..] == a[1..] + b;
      CompleteTail(a, 1);
      MeaningConcat(h, a[1..], b);
    } else {
      CompleteTail(a, 2);
      assert (a + b)[2..] == a[2..] + b;
      MeaningConcat(h, a[2..], b);
    }
  }

  /** Where errors throw, a string that parses is spelled by what it means: nothing else is accepted. */
  lemma {:induction false} ParsedIsSpelled(long: bool, h: Handler, s: string)
    requires !h.tolerant && Scan(long, h, s).ok
    ensures var items := Meaning(h, Scan(long, h, s).events);
      && SpelledItems(items) == s
      && forall k :: 0 <= k < |items| ==> items[k].Char? || LegalId(items[k].id)
    decreases |s|
  {
    hide Step, Meaning, SpelledItems, LegalId, Scan;
    if Step(h, s).Finish? {
      FinishedScan(long, h, s);
      ScanOfText(long, h, s);
      AllTextIsTaken(h, s);
    } else {
      var a := Step(h, s);
      StepIsTaken(h, s);
      StepPaired(h, s);
      ScanStep(long, h, s, a.events, a.size);
      ParsedIsSpelled(long, h, s[a.size..]);
      var more := Scan(long, h, s[a.size..]).events;
      MeaningConcat(h, a.events, more);
      SpelledConcat(Meaning(h, a.events), Meaning(h, more));
      assert s[..a.size] + s[a.size..] == s;
    }
  }

  lemma AllTextIsTaken(h: Handler, s: string)
    requires PlainLength(s) == |s|
    ensures Meaning(h, TextEvent(s)) == Chars(s) && SpelledItems(Chars(s)) == s
  {
    SpelledPlain(s);
    if s != [] {
      assert [Text(s)] + [] == [Text(s)];
      MeaningOfText(h, s, []);
    }
    hide SpelledItems;
  }

  lemma FinishedScan(long: bool, h: Handler, s: string)
    requires Step(h, s).Finish? && Scan(long, h, s).ok
    ensures PlainLength(s) == |s|
  {
    hide Step, GoesOn;
    if Step(h, s).ok {
      FinishedOk(h, s);
    }
  }
}
