/**
 C headers with byte arrays: the printer that turns a buffer into an array initialiser of hex
 bytes, 32 to a line, and a reader for what it prints.
 */
module HexHeader {
  import opened Decimals
  import opened Words

  const PER_LINE: nat := 32

  // ---------------------------------------------------------------- the printer

  function HexDigit(d: nat): (c: char)
    requires d < 16
  {
    if d < 10 then '0' + d as char else 'a' + (d - 10) as char
  }

  /** toString(16). */
  function Hex(n: nat): (s: string)
    ensures s != []
  {
    (if n < 16 then [] else Hex(n / 16)) + [HexDigit(n % 16)]
  }

  /** padStart(2, '0'). */
  function PadStart(s: string): string {
    seq(if |s| < 2 then 2 - |s| else 0, _ => '0') + s
  }

  function Element(b: Byte): string {
    "0x" + PadStart(Hex(b))
  }

  /** One element with its comma and its line break; trailing tells whether the last one has a comma. */
  function ElementAt(buf: seq<Byte>, i: nat, trailing: bool): string
    requires i < |buf|
  {
    Element(buf[i]) + (if trailing || i + 1 < |buf| then "," else "") + if (i + 1) % PER_LINE == 0 then "\n    " else ""
  }

  /** The first k elements as they are printed. */
  function Elements(buf: seq<Byte>, k: nat, trailing: bool): string
    requires k <= |buf|
  {
    if k == 0 then [] else Elements(buf, k - 1, trailing) + ElementAt(buf, k - 1, trailing)
  }

  /** The declared name and size, and the initialiser. */
  function Initialiser(name: string, size: nat, elements: string): string {
    name + "[" + Decimal(size) + "] = {\n    " + elements + "\n};\n"
  }

  function Binary(buf: seq<Byte>, namespace: string, name: string): string {
    "#pragma once\n\nnamespace " + namespace + " {\n\nstatic const unsigned char "
    + Initialiser(name, |buf|, Elements(buf, |buf|, false))
    + ("\n} // namespace " + namespace + "\n")
  }

  /** A text as its bytes, and the name that its array gets. */
  datatype Item = Item(name: string, bytes: seq<Byte>)

  /** Text arrays end with a zero byte. */
  function TextArray(item: Item): string {
    "\nstatic const char "
    + Initialiser(item.name, |item.bytes| + 1, Elements(item.bytes, |item.bytes|, true) + "0x00")
  }

  function TextArrays(items: seq<Item>): string {
    if items == [] then []
    else TextArrays(items[..|items| - 1]) + TextArray(items[|items| - 1])
  }

  function Bundle(namespace: string, items: seq<Item>): string {
    "#pragma once\n\nnamespace " + namespace + " {\n" + TextArrays(items) + ("\n} // namespace " + namespace + "\n")
  }

  /** The body of the loop over the bytes; b counts down to the next line break. */
  method PrintElement(buf: seq<Byte>, i: nat, b: nat, trailing: bool) returns (element: string, b': nat)
    requires i < |buf| && b == PER_LINE - i % PER_LINE
    ensures element == ElementAt(buf, i, trailing) && b' == PER_LINE - (i + 1) % PER_LINE
  {
    hide Element;
    element := Element(buf[i]) + if trailing || |buf| - i > 1 then "," else "";
    AppendNothing(element);
    b' := b - 1;
    if b' == 0 {
      b' := PER_LINE;
      element := element + "\n    ";
    }
  }

  method PrintElements(buf: seq<Byte>, start: string, trailing: bool) returns (out: string)
    ensures out == start + Elements(buf, |buf|, trailing)
  {
    out := start;
    AppendNothing(start);
    assert Elements(buf, 0, trailing) == "";
    hide Elements, ElementAt;
    var b := PER_LINE;
    for i := 0 to |buf|
      invariant b == PER_LINE - i % PER_LINE
      invariant out == start + Elements(buf, i, trailing)
    {
      var element;
      element, b := PrintElement(buf, i, b, trailing);
      ElementsStep(buf, i, trailing);
      Assoc(start, Elements(buf, i, trailing), element);
      out := out + element;
    }
  }

  lemma ElementsStep(buf: seq<Byte>, i: nat, trailing: bool)
    requires i < |buf|
    ensures Elements(buf, i + 1, trailing) == Elements(buf, i, trailing) + ElementAt(buf, i, trailing)
  {
  }

  lemma Assoc(a: string, b: string, c: string)
    ensures a + b + c == a + (b + c)
  {
  }

  lemma AppendNothing(s: string)
    ensures s + "" == s
  {
  }

  method Bin2h(buf: seq<Byte>, namespace: string, name: string) returns (out: string)
    ensures out == Binary(buf, namespace, name)
  {
    hide Elements;
    var start := name + "[" + Decimal(|buf|) + "] = {\n    ";
    out := PrintElements(buf, start, false);
    out := "#pragma once\n\nnamespace " + namespace + " {\n\nstatic const unsigned char " + (out + "\n};\n")
    + ("\n} // namespace " + namespace + "\n");
  }

  method Text2hInternal(buf: seq<Byte>, name: string) returns (out: string)
    ensures out == TextArray(Item(name, buf))
  {
    hide Elements;
    var start := name + "[" + Decimal(|buf| + 1) + "] = {\n    ";
    out := PrintElements(buf, start, true);
    assert out + "0x00" == start + (Elements(buf, |buf|, true) + "0x00");
    out := "\nstatic const char " + (out + "0x00" + "\n};\n");
  }

  method Text2h(buf: seq<Byte>, namespace: string, name: string) returns (out: string)
    ensures out == Bundle(namespace, [Item(name, buf)])
  {
    out := Text2hInternal(buf, name);
    assert [Item(name, buf)][..0] == [];
    assert TextArrays([Item(name, buf)]) == out;
    out := "#pragma once\n\nnamespace " + namespace + " {\n" + out + ("\n} // namespace " + namespace + "\n");
  }

  method Text2hBundle(namespace: string, items: seq<Item>) returns (out: string)
    ensures out == Bundle(namespace, items)
  {
    var start := "#pragma once\n\nnamespace " + namespace + " {\n";
    out := start;
    AppendNothing(start);
    assert items[..0] == [] && TextArrays([]) == "";
    hide TextArrays, TextArray;
    for k := 0 to |items|
      invariant out == start + TextArrays(items[..k])
    {
      var item := Text2hInternal(items[k].bytes, items[k].name);
      TextArraysStep(items, k);
      Assoc(start, TextArrays(items[..k]), item);
      out := out + item;
    }
    assert items[..|items|] == items;
    out := out + ("\n} // namespace " + namespace + "\n");
  }

  lemma TextArraysStep(items: seq<Item>, k: nat)
    requires k < |items|
    ensures TextArrays(items[..k + 1]) == TextArrays(items[..k]) + TextArray(items[k])
  {
    assert items[..k + 1][..k] == items[..k];
  }

  // ---------------------------------------------------------------- a reader

  datatype Array = Array(size: nat, bytes: seq<Byte>)

  /** Where the reader is; outside of arrays it only looks for an opening bracket. */
  datatype Mode =
    | Outside
    | InSize(size: nat)
    | BeforeList(size: nat)
    | InList(size: nat, bytes: seq<Byte>)
    | Zero(size: nat, bytes: seq<Byte>)
    | High(size: nat, bytes: seq<Byte>)
    | Low(size: nat, bytes: seq<Byte>, high: nat)
    | Behind(size: nat, bytes: seq<Byte>)
    | Failed

  datatype Reader = Reader(mode: Mode, arrays: seq<Array>)

  predicate IsBlank(c: char) {
    c == ' ' || c == '\n'
  }

  function HexValue(c: char): (d: int)
    ensures -1 <= d < 16
  {
    if '0' <= c <= '9' then c as int - '0' as int else if 'a' <= c <= 'f' then c as int - 'a' as int + 10 else -1
  }

  function Step(st: Reader, c: char): Reader {
    match st.mode
    case Outside => if c == '[' then st.(mode := InSize(0)) else st
    case InSize(n) =>
      if IsDigit(c) then st.(mode := InSize(10 * n + (c as int - '0' as int)))
      else if c == ']' then st.(mode := BeforeList(n)) else st.(mode := Failed)
    case BeforeList(n) => if c == '{' then st.(mode := InList(n, [])) else st
    case InList(n, bytes) =>
      if c == '}' then Reader(Outside, st.arrays + [Array(n, bytes)])
      else if c == '0' then st.(mode := Zero(n, bytes))
      else if IsBlank(c) then st else st.(mode := Failed)
    case Zero(n, bytes) => st.(mode := if c == 'x' then High(n, bytes) else Failed)
    case High(n, bytes) => st.(mode := if HexValue(c) >= 0 then Low(n, bytes, HexValue(c)) else Failed)
    case Low(n, bytes, high) =>
      st.(mode := if HexValue(c) >= 0 && 16 * high + HexValue(c) < 256 then Behind(n, bytes + [16 * high + HexValue(c)])
                  else Failed)
    case Behind(n, bytes) =>
      if c == '}' then Reader(Outside, st.arrays + [Array(n, bytes)])
      else if c == ',' then st.(mode := InList(n, bytes))
      else if IsBlank(c) then st else st.(mode := Failed)
    case Failed => st
  }

  function Read(st: Reader, text: string): Reader {
    if text == [] then st else Step(Read(st, text[..|text| - 1]), text[|text| - 1])
  }

  const START := Reader(Outside, [])

  function LineBreaks(text: string): nat {
    if text == [] then 0 else LineBreaks(text[..|text| - 1]) + if text[|text| - 1] == '\n' then 1 else 0
  }

  lemma {:induction false} LineBreaksConcat(a: string, b: string)
    ensures LineBreaks(a + b) == LineBreaks(a) + LineBreaks(b)
  {
    if b == [] {
      assert a + b == a;
    } else {
      assert (a + b)[..|a + b| - 1] == a + b[..|b| - 1];
      LineBreaksConcat(a, b[..|b| - 1]);
    }
  }

  lemma {:induction false} NoLineBreak(text: string)
    requires forall k :: 0 <= k < |text| ==> text[k] != '\n'
    ensures LineBreaks(text) == 0
  {
    if text != [] {
      NoLineBreak(text[..|text| - 1]);
    }
  }

  lemma ElementLine(buf: seq<Byte>, i: nat, trailing: bool)
    requires i < |buf|
    ensures LineBreaks(ElementAt(buf, i, trailing)) == if (i + 1) % PER_LINE == 0 then 1 else 0
  {
    var line := if (i + 1) % PER_LINE == 0 then "\n    " else "";
    var element := Element(buf[i]) + if trailing || i + 1 < |buf| then "," else "";
    ElementDigits(buf[i]);
    NoLineBreak(element);
    LineBreaksConcat(element, line);
    NoLineBreak("    ");
    LineBreaksConcat("\n", "    ");
    assert "\n" + "    " == "\n    " && "\n"[..0] == "";
    assert LineBreaks("\n") == 1;
    hide LineBreaks, Element, Hex, HexDigit;
  }

  /** The elements are printed in lines of 32. */
  lemma {:induction false} LinesAreFull(buf: seq<Byte>, k: nat, trailing: bool)
    requires k <= |buf|
    ensures LineBreaks(Elements(buf, k, trailing)) == k / 32
  {
    if k > 0 {
      hide LineBreaks, ElementAt;
      LinesAreFull(buf, k - 1, trailing);
      ElementLine(buf, k - 1, trailing);
      LineBreaksConcat(Elements(buf, k - 1, trailing), ElementAt(buf, k - 1, trailing));
    }
  }

  // ---------------------------------------------------------------- reading what is printed

  lemma {:induction false} ReadConcat(st: Reader, a: string, b: string)
    ensures Read(st, a + b) == Read(Read(st, a), b)
  {
    if b == [] {
      assert a + b == a;
    } else {
      assert (a + b)[..|a + b| - 1] == a + b[..|b| - 1];
      ReadConcat(st, a, b[..|b| - 1]);
    }
  }

  lemma ReadOne(st: Reader, c: char)
    ensures Read(st, [c]) == Step(st, c)
  {
    assert [c][..0] == [];
  }

  predicate NoBracket(s: string) {
    forall k :: 0 <= k < |s| ==> s[k] != '['
  }

  lemma {:induction false} SkipOutside(st: Reader, text: string)
    requires st.mode == Outside && NoBracket(text)
    ensures Read(st, text) == st
  {
    if text != [] {
      SkipOutside(st, text[..|text| - 1]);
    }
  }

  lemma {:induction false} SkipBlank(st: Reader, text: string)
    requires (st.mode.InList? || st.mode.Behind?) && forall k :: 0 <= k < |text| ==> IsBlank(text[k])
    ensures Read(st, text) == st
  {
    if text != [] {
      SkipBlank(st, text[..|text| - 1]);
    }
  }

  lemma {:induction false} ReadSize(st: Reader, digits: string)
    requires st.mode == InSize(0) && forall k :: 0 <= k < |digits| ==> IsDigit(digits[k])
    ensures Read(st, digits) == st.(mode := InSize(NumberOf(digits)))
  {
    if digits != [] {
      ReadSize(st, digits[..|digits| - 1]);
    }
  }

  /** A byte is printed as exactly two digits, which read back as the byte. */
  lemma ElementDigits(b: Byte)
    ensures Element(b) == ['0', 'x', HexDigit(b / 16), HexDigit(b % 16)]
    ensures HexValue(HexDigit(b / 16)) == b / 16 && HexValue(HexDigit(b % 16)) == b % 16
  {
    if b < 16 {
      assert Hex(b) == [HexDigit(b)];
    } else {
      assert Hex(b / 16) == [HexDigit(b / 16)];
      assert Hex(b) == [HexDigit(b / 16), HexDigit(b % 16)];
    }
  }

  lemma ReadElement(st: Reader, b: Byte)
    requires st.mode.InList?
    ensures Read(st, Element(b)) == st.(mode := Behind(st.mode.size, st.mode.bytes + [b]))
  {
    ElementDigits(b);
    hide Element, Hex, HexDigit;
    var hi, lo := HexDigit(b / 16), HexDigit(b % 16);
    var t := Element(b);
    assert t[..3] == ['0', 'x', hi] && t[..3][..2] == ['0', 'x'] && ['0', 'x'][..1] == ['0'] && ['0'][..0] == [];
    assert Read(st, ['0']) == Step(st, '0');
    assert Read(st, ['0', 'x']) == Step(Step(st, '0'), 'x');
    assert Read(st, ['0', 'x', hi]) == Step(Step(Step(st, '0'), 'x'), hi);
    assert Read(st, t) == Step(Step(Step(Step(st, '0'), 'x'), hi), lo);
  }

  lemma ReadElementAt(st: Reader, buf: seq<Byte>, i: nat, trailing: bool)
    requires st.mode.InList? && i < |buf|
    ensures var n, bytes := st.mode.size, st.mode.bytes + [buf[i]];
      Read(st, ElementAt(buf, i, trailing))
      == st.(mode := if trailing || i + 1 < |buf| then InList(n, bytes) else Behind(n, bytes))
  {
    hide Read, Step, Element;
    var element := Element(buf[i]);
    var comma := if trailing || i + 1 < |buf| then "," else "";
    var line := if (i + 1) % PER_LINE == 0 then "\n    " else "";
    ReadElement(st, buf[i]);
    ReadConcat(st, element, comma);
    ReadComma(Read(st, element), comma);
    ReadConcat(st, element + comma, line);
    SkipBlank(Read(st, element + comma), line);
  }

  /** After k elements the reader has their bytes, wherever lines were broken. */
  lemma {:induction false} ReadElements(st: Reader, buf: seq<Byte>, k: nat, trailing: bool)
    requires k <= |buf| && st.mode.InList? && st.mode.bytes == []
    ensures var n := st.mode.size;
      Read(st, Elements(buf, k, trailing))
      == st.(mode := if k == 0 || trailing || k < |buf| then InList(n, buf[..k]) else Behind(n, buf[..k]))
  {
    hide Step, Read, Elements;
    if k == 0 {
      ReadNoElements(st, buf, trailing);
    } else {
      ReadElements(st, buf, k - 1, trailing);
      ReadOneMore(st, buf, k - 1, trailing);
    }
  }

  lemma ReadNoElements(st: Reader, buf: seq<Byte>, trailing: bool)
    ensures Read(st, Elements(buf, 0, trailing)) == st
  {
  }

  lemma ReadOneMore(st: Reader, buf: seq<Byte>, k: nat, trailing: bool)
    requires k < |buf| && st.mode.InList?
    requires Read(st, Elements(buf, k, trailing)) == st.(mode := InList(st.mode.size, buf[..k]))
    ensures var n := st.mode.size;
      Read(st, Elements(buf, k + 1, trailing))
      == st.(mode := if trailing || k + 1 < |buf| then InList(n, buf[..k + 1]) else Behind(n, buf[..k + 1]))
  {
    hide Step, Read, ElementAt;
    var before := Elements(buf, k, trailing);
    ReadConcat(st, before, ElementAt(buf, k, trailing));
    ReadElementAt(Read(st, before), buf, k, trailing);
    assert buf[..k] + [buf[k]] == buf[..k + 1];
  }

  lemma ReadComma(st: Reader, comma: string)
    requires st.mode.Behind? && (comma == "," || comma == "")
    ensures Read(st, comma) == if comma == "" then st else st.(mode := InList(st.mode.size, st.mode.bytes))
  {
    if comma == "," {
      ReadOne(st, ',');
    }
  }

  /** The declaration up to the first element. */
  lemma ReadDeclaration(st: Reader, name: string, size: nat)
    requires st.mode == Outside && NoBracket(name)
    ensures Read(st, name + "[" + Decimal(size) + "] = {\n    ") == st.(mode := InList(size, []))
  {
    hide Read, Step;
    ReadConcat(st, name, "[");
    SkipOutside(st, name);
    ReadOpen(st);
    ReadConcat(st, name + "[", Decimal(size));
    ReadSize(st.(mode := InSize(0)), Decimal(size));
    NumberOfDecimal(size);
    ReadConcat(st, name + "[" + Decimal(size), "] = {\n    ");
    ReadEquals(st.(mode := InSize(size)));
  }

  lemma ReadOpen(st: Reader)
    requires st.mode == Outside
    ensures Read(st, "[") == st.(mode := InSize(0))
  {
    ReadOne(st, '[');
  }

  lemma ReadEquals(st: Reader)
    requires st.mode.InSize?
    ensures Read(st, "] = {\n    ") == st.(mode := InList(st.mode.size, []))
  {
    var list := st.(mode := InList(st.mode.size, []));
    assert "] = {\n    " == "] = {" + "\n    ";
    ReadConcat(st, "] = {", "\n    ");
    assert "] = {" == [']'] + [' '] + ['='] + [' '] + ['{'];
    ReadConcat(st, [']'] + [' '] + ['='] + [' '], ['{']);
    ReadConcat(st, [']'] + [' '] + ['='], [' ']);
    ReadConcat(st, [']'] + [' '], ['=']);
    ReadConcat(st, [']'], [' ']);
    hide Read;
    ReadOne(st, ']');
    var before := st.(mode := BeforeList(st.mode.size));
    ReadOne(before, ' ');
    ReadOne(before, '=');
    ReadOne(before, '{');
    SkipBlank(list, "\n    ");
  }

  lemma ReadClosing(st: Reader)
    requires st.mode.InList? || st.mode.Behind?
    ensures Read(st, "\n};\n") == Reader(Outside, st.arrays + [Array(st.mode.size, st.mode.bytes)])
  {
    hide Read;
    assert "\n};\n" == "\n" + "}" + ";\n";
    ReadConcat(st, "\n" + "}", ";\n");
    ReadConcat(st, "\n", "}");
    SkipBlank(st, "\n");
    ReadOne(st, '}');
    SkipOutside(Reader(Outside, st.arrays + [Array(st.mode.size, st.mode.bytes)]), ";\n");
  }

  /** An initialiser whose elements read as the bytes reads as one array of the declared size. */
  lemma ReadInitialiser(st: Reader, name: string, size: nat, elements: string, bytes: seq<Byte>)
    requires st.mode == Outside && NoBracket(name)
    requires var list := st.(mode := InList(size, []));
      || Read(list, elements) == st.(mode := InList(size, bytes))
      || Read(list, elements) == st.(mode := Behind(size, bytes))
    ensures Read(st, Initialiser(name, size, elements)) == Reader(Outside, st.arrays + [Array(size, bytes)])
  {
    hide Read;
    var start := name + "[" + Decimal(size) + "] = {\n    ";
    ReadConcat(st, start + elements, "\n};\n");
    ReadConcat(st, start, elements);
    ReadDeclaration(st, name, size);
    ReadClosing(Read(st, start + elements));
  }

  lemma ReadTail(st: Reader, namespace: string)
    requires st.mode == Outside && NoBracket(namespace)
    ensures Read(st, "\n} // namespace " + namespace + "\n") == st
  {
    SkipOutside(st, "\n} // namespace " + namespace + "\n");
  }

  lemma ReadAllElements(st: Reader, buf: seq<Byte>, trailing: bool)
    requires st.mode.InList? && st.mode.bytes == []
    ensures var n := st.mode.size;
      Read(st, Elements(buf, |buf|, trailing))
      == st.(mode := if buf == [] || trailing then InList(n, buf) else Behind(n, buf))
  {
    hide Read, Elements;
    ReadElements(st, buf, |buf|, trailing);
    assert buf[..|buf|] == buf;
  }

  lemma ReadBinaryHead(namespace: string)
    requires NoBracket(namespace)
    ensures Read(START, "#pragma once\n\nnamespace " + namespace + " {\n\nstatic const unsigned char ") == START
  {
    hide Read;
    SkipOutside(START, "#pragma once\n\nnamespace " + namespace + " {\n\nstatic const unsigned char ");
  }

  /** The header of a buffer reads back as one array: its size, and exactly its bytes. */
  lemma BinaryReadsBack(buf: seq<Byte>, namespace: string, name: string)
    requires NoBracket(namespace) && NoBracket(name)
    ensures Read(START, Binary(buf, namespace, name)) == Reader(Outside, [Array(|buf|, buf)])
  {
    hide Read, Elements, NoBracket, Initialiser;
    var head := "#pragma once\n\nnamespace " + namespace + " {\n\nstatic const unsigned char ";
    var body := Initialiser(name, |buf|, Elements(buf, |buf|, false));
    ReadBinaryHead(namespace);
    ReadAllElements(START.(mode := InList(|buf|, [])), buf, false);
    ReadInitialiser(START, name, |buf|, Elements(buf, |buf|, false), buf);
    ReadConcat(START, head, body);
    ReadConcat(START, head + body, "\n} // namespace " + namespace + "\n");
    assert START.arrays + [Array(|buf|, buf)] == [Array(|buf|, buf)];
    ReadTail(Reader(Outside, [Array(|buf|, buf)]), namespace);
  }

  lemma ReadTextHead(st: Reader)
    requires st.mode == Outside
    ensures Read(st, "\nstatic const char ") == st
  {
    hide Read;
    SkipOutside(st, "\nstatic const char ");
  }

  lemma ReadTextElements(st: Reader, buf: seq<Byte>)
    requires st.mode.InList? && st.mode.bytes == []
    ensures Read(st, Elements(buf, |buf|, true) + "0x00") == st.(mode := Behind(st.mode.size, buf + [0]))
  {
    hide Read, Elements;
    ReadAllElements(st, buf, true);
    ReadConcat(st, Elements(buf, |buf|, true), "0x00");
    ElementDigits(0);
    assert Element(0) == "0x00";
    ReadElement(Read(st, Elements(buf, |buf|, true)), 0);
  }

  function TextArrayOf(item: Item): Array {
    Array(|item.bytes| + 1, item.bytes + [0])
  }

  /** A text array reads back as the text's bytes and one final zero. */
  lemma TextArrayReadsBack(st: Reader, item: Item)
    requires st.mode == Outside && NoBracket(item.name)
    ensures Read(st, TextArray(item)) == Reader(Outside, st.arrays + [TextArrayOf(item)])
  {
    hide Read, Elements, NoBracket, Initialiser;
    var size, elements := |item.bytes| + 1, Elements(item.bytes, |item.bytes|, true) + "0x00";
    ReadTextHead(st);
    ReadTextElements(st.(mode := InList(size, [])), item.bytes);
    ReadInitialiser(st, item.name, size, elements, item.bytes + [0]);
    ReadConcat(st, "\nstatic const char ", Initialiser(item.name, size, elements));
  }

  function TextArraysOf(items: seq<Item>): (arrays: seq<Array>)
    ensures |arrays| == |items| && forall i :: 0 <= i < |items| ==> arrays[i] == TextArrayOf(items[i])
  {
    seq(|items|, i requires 0 <= i < |items| => TextArrayOf(items[i]))
  }

  lemma {:induction false} TextArraysReadBack(items: seq<Item>)
    requires forall k :: 0 <= k < |items| ==> NoBracket(items[k].name)
    ensures Read(START, TextArrays(items)) == Reader(Outside, TextArraysOf(items))
  {
    if items != [] {
      var init, last := items[..|items| - 1], items[|items| - 1];
      TextArraysReadBack(init);
      hide Read, TextArray, NoBracket, TextArrayOf;
      OneMoreTextArray(items);
      hide TextArraysOf;
      ReadConcat(START, TextArrays(init), TextArray(last));
      TextArrayReadsBack(Reader(Outside, TextArraysOf(init)), last);
    }
  }

  lemma OneMoreTextArray(items: seq<Item>)
    requires items != []
    ensures TextArraysOf(items) == TextArraysOf(items[..|items| - 1]) + [TextArrayOf(items[|items| - 1])]
  {
  }

  /** A bundle reads back as the arrays of its items, in order. */
  lemma BundleReadsBack(namespace: string, items: seq<Item>)
    requires NoBracket(namespace) && forall k :: 0 <= k < |items| ==> NoBracket(items[k].name)
    ensures Read(START, Bundle(namespace, items)) == Reader(Outside, TextArraysOf(items))
  {
    var head := "#pragma once\n\nnamespace " + namespace + " {\n";
    SkipOutside(START, head);
    TextArraysReadBack(items);
    hide Read, TextArrays, TextArraysOf;
    ReadConcat(START, head, TextArrays(items));
    ReadConcat(START, head + TextArrays(items), "\n} // namespace " + namespace + "\n");
    ReadTail(Reader(Outside, TextArraysOf(items)), namespace);
  }
}
