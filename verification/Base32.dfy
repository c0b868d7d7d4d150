/**
 Base32 encoding with the alphabet of section 6 of RFC 4648 and without padding
 characters (section 3.2). The encoder keeps its pending bits in one 32-bit int
 that is shifted left for every input byte and never masked; the specification
 knows only the bit string of the whole input.
 */
module Base32 {
  import opened Words

  const ALPHABET: string := "ABCDEFGHIJKLMNOPQRSTUVWXYZ234567"
  const MAX_LENGTH := 0x1000_0000
  const BYTE_BITS: nat := 8
  const GROUP_BITS: nat := 5

  // ---------------------------------------------------------------- bit strings

  /** The low n bits of v in two's complement, most significant first. */
  function LowBits(v: int, n: nat): (bits: seq<bool>)
    ensures |bits| == n
    decreases n, v
  {
    if n == 0 then [] else LowBits(v / 2, n - 1) + [v % 2 == 1]
  }

  function Value(bits: seq<bool>): (v: nat)
    ensures v < Pow2(|bits|)
  {
    if bits == [] then 0
    else 2 * Value(bits[..|bits| - 1]) + if bits[|bits| - 1] then 1 else 0
  }

  function Zeros(n: nat): (bits: seq<bool>)
    ensures |bits| == n
  {
    seq(n, _ => false)
  }

  function DataBits(data: seq<Byte>): (bits: seq<bool>)
    ensures |bits| == 8 * |data|
  {
    if data == [] then [] else LowBits(data[0], BYTE_BITS) + DataBits(data[1..])
  }

  /** Consecutive groups of five bits; the last one is completed with zeros. */
  function Groups(bits: seq<bool>): (groups: seq<nat>)
    ensures |groups| == (|bits| + 4) / 5
    ensures forall i :: 0 <= i < |groups| ==> groups[i] < 32
  {
    if bits == [] then []
    else if |bits| < 5 then
      var padded := bits + Zeros(5 - |bits|);
      assert Pow2(5) == 32;
      [Value(padded)]
    else
      assert Pow2(5) == 32;
      [Value(bits[..5])] + Groups(bits[5..])
  }

  /** The i-th letter of the alphabet, by rank instead of by table. */
  function Symbol(i: nat): (c: char)
    requires i < 32
  {
    if i < 26 then 'A' + i as char else '2' + (i - 26) as char
  }

  /** The table lookup of the encoder. */
  method Letter(index: nat) returns (c: char)
    requires index < 32
    ensures c == Symbol(index)
  {
    c := ALPHABET[index];
  }

  function Symbols(groups: seq<nat>): (text: string)
    requires forall i :: 0 <= i < |groups| ==> groups[i] < 32
    ensures |text| == |groups|
  {
    seq(|groups|, i requires 0 <= i < |groups| => Symbol(groups[i]))
  }

  /** The encoding of section 6 of RFC 4648: five bits to a symbol over the whole input. */
  function Encoding(data: seq<Byte>): (text: string)
    ensures |text| == (8 * |data| + 4) / 5
  {
    Symbols(Groups(DataBits(data)))
  }

  // ---------------------------------------------------------------- decoding

  function SymbolIndex(c: char): (i: nat)
    ensures i < 32
  {
    if 'A' <= c <= 'Z' then (c - 'A') as int
    else if '2' <= c <= '7' then (c - '2') as int + 26
    else 0
  }

  function TextBits(text: string): (bits: seq<bool>)
    ensures |bits| == 5 * |text|
  {
    if text == [] then [] else LowBits(SymbolIndex(text[0]), GROUP_BITS) + TextBits(text[1..])
  }

  function WholeBytes(bits: seq<bool>): (data: seq<Byte>)
    ensures |data| == |bits| / 8
  {
    if |bits| < 8 then []
    else
      assert Pow2(8) == 256;
      [Value(bits[..8])] + WholeBytes(bits[8..])
  }

  /** Every symbol gives five bits back; trailing bits that fill no byte are dropped. */
  function Decoding(text: string): seq<Byte> {
    WholeBytes(TextBits(text))
  }

  // ---------------------------------------------------------------- bit lemmas

  lemma {:induction false} LowBitsSplit(v: int, a: nat, b: nat)
    ensures LowBits(v, a + b) == LowBits(v / Pow2(b), a) + LowBits(v, b)
    decreases b
  {
    if b > 0 {
      LowBitsSplit(v / 2, a, b - 1);
      DivDiv2(v, Pow2(b - 1));
    }
  }

  /** Adding a multiple of a power of two leaves the bits below that power alone. */
  lemma {:induction false} LowBitsIgnoreHigh(v: int, k: int, m: nat, n: nat)
    requires n <= m
    ensures LowBits(v + k * Pow2(m), n) == LowBits(v, n)
    decreases n
  {
    if n > 0 {
      var h := k * Pow2(m - 1);
      assert k * Pow2(m) == 2 * h;
      assert (v + 2 * h) / 2 == v / 2 + h && (v + 2 * h) % 2 == v % 2;
      LowBitsIgnoreHigh(v / 2, k, m - 1, n - 1);
    }
  }

  lemma {:induction false} ValueOfLowBits(v: int, n: nat)
    ensures Value(LowBits(v, n)) == v % Pow2(n)
    decreases n
  {
    if n > 0 {
      ValueOfLowBits(v / 2, n - 1);
      ModDouble(v, Pow2(n - 1));
      assert LowBits(v, n)[..n - 1] == LowBits(v / 2, n - 1);
    }
  }

  lemma {:induction false} LowBitsOfValue(bits: seq<bool>)
    ensures LowBits(Value(bits), |bits|) == bits
  {
    if bits != [] {
      LowBitsOfValue(bits[..|bits| - 1]);
    }
  }

  // ---------------------------------------------------------------- the encoder

  /** Two's complement reduction to a signed 32-bit word. */
  function Wrap32(n: int): (w: int)
    ensures -0x8000_0000 <= w < 0x8000_0000
  {
    (n + 0x8000_0000) % 0x1_0000_0000 - 0x8000_0000
  }

  lemma WrapOffset(n: int) returns (k: int)
    ensures Wrap32(n) == n + k * 0x1_0000_0000
  {
    k := -((n + 0x8000_0000) / 0x1_0000_0000);
  }

  function ShiftLeft(word: int, n: nat): int {
    Wrap32(word * Pow2(n))
  }

  /** An arithmetic right shift is floor division. */
  function ShiftRight(word: int, n: nat): int {
    word / Pow2(n)
  }

  /** Or-ing a byte into a word whose low eight bits are clear. */
  function OrByte(word: int, b: Byte): int
    requires word % 256 == 0
  {
    word + b
  }

  /** Wrapping a word before low bits are added to it keeps the low bits of the sum. */
  lemma WrapBits(v: int, low: nat, n: nat)
    requires n <= 32
    ensures LowBits(Wrap32(v) + low, n) == LowBits(v + low, n)
  {
    var k := WrapOffset(v);
    Pow2Widths();
    LowBitsIgnoreHigh(v + low, k, 32, n);
  }

  /** Scaling a word by 2^k and adding k low bits appends those bits. */
  lemma {:induction false} AppendBits(word: int, low: nat, n: nat, k: nat)
    requires low < Pow2(k)
    ensures LowBits(word * Pow2(k) + low, n + k) == LowBits(word, n) + LowBits(low, k)
    decreases k
  {
    if k > 0 {
      var h := word * Pow2(k - 1);
      assert word * Pow2(k) == 2 * h;
      assert (2 * h + low) / 2 == h + low / 2 && (2 * h + low) % 2 == low % 2;
      AppendBits(word, low / 2, n, k - 1);
    }
  }

  lemma {:induction false} ZeroBits(k: nat)
    ensures LowBits(0, k) == Zeros(k)
  {
    if k > 0 {
      ZeroBits(k - 1);
    }
  }

  lemma ShiftLeftBits(word: int, s: nat, n: nat)
    requires n + s <= 32
    ensures LowBits(ShiftLeft(word, s), n + s) == LowBits(word, n) + Zeros(s)
  {
    WrapBits(word * Pow2(s), 0, n + s);
    AppendBits(word, 0, n, s);
    ZeroBits(s);
  }

  lemma ShiftLeftClearsByte(word: int)
    ensures ShiftLeft(word, BYTE_BITS) % 256 == 0
  {
    Pow2Widths();
    var k := WrapOffset(word * 256);
  }

  /** Pulling low bits into the accumulator appends them to the pending ones. */
  lemma PullBits(word: int, low: nat, n: nat, k: nat)
    requires low < Pow2(k) && n + k <= 32
    ensures LowBits(ShiftLeft(word, k) + low, n + k) == LowBits(word, n) + LowBits(low, k)
  {
    var scaled := word * Pow2(k);
    assert ShiftLeft(word, k) == Wrap32(scaled);
    WrapBits(scaled, low, n + k);
    AppendBits(word, low, n, k);
  }

  /** The bits not yet emitted: those waiting in the accumulator and those not yet read. */
  function Pending(word: int, n: nat, rest: seq<Byte>): seq<bool> {
    LowBits(word, n) + DataBits(rest)
  }

  /** The groups emitted so far and those of the pending bits make up all the groups. */
  ghost predicate Progress(bits: seq<bool>, emitted: seq<nat>, word: int, n: nat, rest: seq<Byte>) {
    Groups(bits) == emitted + Groups(Pending(word, n, rest))
  }

  lemma PullProgress(bits: seq<bool>, emitted: seq<nat>, word: int, n: nat, rest: seq<Byte>)
    requires n + BYTE_BITS <= 32 && rest != []
    requires Progress(bits, emitted, word, n, rest)
    ensures ShiftLeft(word, BYTE_BITS) % 256 == 0
    ensures Progress(bits, emitted, OrByte(ShiftLeft(word, BYTE_BITS), rest[0]), n + BYTE_BITS, rest[1..])
  {
    ShiftLeftClearsByte(word);
    assert Pow2(BYTE_BITS) == 256;
    PullBits(word, rest[0], n, BYTE_BITS);
    assert Pending(OrByte(ShiftLeft(word, BYTE_BITS), rest[0]), n + BYTE_BITS, rest[1..]) == Pending(word, n, rest);
  }

  lemma PadProgress(bits: seq<bool>, emitted: seq<nat>, word: int, n: nat)
    requires 0 < n < 5
    requires Progress(bits, emitted, word, n, [])
    ensures Progress(bits, emitted, ShiftLeft(word, 5 - n), 5, [])
  {
    var pending := LowBits(word, n);
    ShiftLeftBits(word, 5 - n, n);
    var padded := pending + Zeros(5 - n);
    assert Pending(ShiftLeft(word, 5 - n), 5, []) == padded;
    assert Pending(word, n, []) == pending;
    assert padded[..5] == padded && padded[5..] == [];
  }

  /** The symbol taken from the accumulator is the next group of five pending bits. */
  lemma EmitPending(word: int, n: nat, rest: seq<Byte>)
    requires n >= 5
    ensures Groups(Pending(word, n, rest)) == [ShiftRight(word, n - 5) % 32] + Groups(Pending(word, n - 5, rest))
  {
    var pending, high := Pending(word, n, rest), word / Pow2(n - 5);
    assert pending[..5] == LowBits(high, GROUP_BITS) && pending[5..] == Pending(word, n - 5, rest) by {
      hide DataBits, LowBits;
      LowBitsSplit(word, GROUP_BITS, n - 5);
    }
    assert Value(LowBits(high, GROUP_BITS)) == high % 32 by {
      hide LowBits, Value;
      ValueOfLowBits(high, GROUP_BITS);
      assert Pow2(GROUP_BITS) == 32;
    }
    hide LowBits, Value, DataBits, Pending;
  }

  lemma EmitProgress(bits: seq<bool>, emitted: seq<nat>, word: int, n: nat, rest: seq<Byte>)
    requires n >= 5
    requires Progress(bits, emitted, word, n, rest)
    ensures Progress(bits, emitted + [ShiftRight(word, n - 5) % 32], word, n - 5, rest)
  {
    EmitPending(word, n, rest);
    var g, tail := ShiftRight(word, n - 5) % 32, Groups(Pending(word, n - 5, rest));
    assert emitted + ([g] + tail) == emitted + [g] + tail;
  }

  lemma EmittedPrefix(bits: seq<bool>, emitted: seq<nat>, word: int, n: nat, rest: seq<Byte>)
    requires Progress(bits, emitted, word, n, rest)
    ensures |emitted| <= |Groups(bits)|
    ensures forall i :: 0 <= i < |emitted| ==> emitted[i] < 32 && Symbols(Groups(bits))[i] == Symbol(emitted[i])
    ensures n == 0 && rest == [] ==> |emitted| == |Groups(bits)|
  {
    assert forall i :: 0 <= i < |emitted| ==> emitted[i] == Groups(bits)[i];
  }

  function Min(a: int, b: int): int { if a < b then a else b }

  function Max(a: int, b: int): int { if a < b then b else a }

  /** Brings at least five bits into the accumulator: a further byte, or zeros at the end. */
  method Refill(data: seq<Byte>, length: int, buffer: int, next: int, bitsLeft: int,
                ghost bits: seq<bool>, ghost emitted: seq<nat>)
    returns (buffer': int, next': int, bitsLeft': int)
    requires 0 <= next <= length <= |data| && 0 <= bitsLeft < 5
    requires bitsLeft > 0 || next < length
    requires Progress(bits, emitted, buffer, bitsLeft, data[next..length])
    ensures next <= next' <= length && 5 <= bitsLeft' <= 12
    ensures 8 * (length - next') + bitsLeft' - 5 < 8 * (length - next) + bitsLeft
    ensures Progress(bits, emitted, buffer', bitsLeft', data[next'..length])
  {
    if next < length {
      PullProgress(bits, emitted, buffer, bitsLeft, data[next..length]);
      assert data[next..length][1..] == data[next + 1..length];
      buffer' := ShiftLeft(buffer, BYTE_BITS);
      buffer' := OrByte(buffer', data[next]);
      next' := next + 1;
      bitsLeft' := bitsLeft + BYTE_BITS;
    } else {
      var pad := 5 - bitsLeft;
      PadProgress(bits, emitted, buffer, bitsLeft);
      buffer' := ShiftLeft(buffer, pad);
      next' := next;
      bitsLeft' := bitsLeft + pad;
    }
  }

  /** The next group of five bits, after refilling the accumulator if it holds fewer. */
  method NextGroup(data: seq<Byte>, length: int, buffer: int, next: int, bitsLeft: int,
                   ghost bits: seq<bool>, ghost emitted: seq<nat>)
    returns (index: nat, buffer': int, next': int, bitsLeft': int)
    requires 0 <= next <= length <= |data| && 0 <= bitsLeft <= 8
    requires bitsLeft > 0 || next < length
    requires Progress(bits, emitted, buffer, bitsLeft, data[next..length])
    ensures next <= next' <= length && 0 <= bitsLeft' <= 8 && index < 32
    ensures 8 * (length - next') + bitsLeft' < 8 * (length - next) + bitsLeft
    ensures Progress(bits, emitted + [index], buffer', bitsLeft', data[next'..length])
  {
    hide Progress, ShiftRight;
    buffer', next', bitsLeft' := buffer, next, bitsLeft;
    if bitsLeft' < 5 {
      buffer', next', bitsLeft' := Refill(data, length, buffer', next', bitsLeft', bits, emitted);
    }
    EmitProgress(bits, emitted, buffer', bitsLeft', data[next'..length]);
    index := ShiftRight(buffer', bitsLeft' - 5) % 32;
    bitsLeft' := bitsLeft' - 5;
  }

  lemma FirstProgress(data: seq<Byte>, length: nat)
    requires 0 < length <= |data|
    ensures Progress(DataBits(data[..length]), [], data[0], BYTE_BITS, data[1..length])
  {
    assert data[..length][1..] == data[1..length];
  }

  /** The main loop, for a non-empty input. */
  method EncodeBits(data: seq<Byte>, length: int, result: array<char>, bufSize: int) returns (count: int)
    requires 0 < length <= |data| && bufSize <= result.Length
    modifies result
    ensures count == Min(Max(bufSize, 0), |Encoding(data[..length])|)
    ensures forall i :: 0 <= i < count ==> result[i] == Encoding(data[..length])[i]
    ensures forall i :: count <= i < result.Length ==> result[i] == old(result[i])
  {
    count := 0;
    ghost var bits := DataBits(data[..length]);
    ghost var emitted: seq<nat> := [];
    var buffer: int := data[0];
    var next := 1;
    var bitsLeft: int := BYTE_BITS;
    FirstProgress(data, length);
    hide Progress, Groups, DataBits, Symbol;
    while count < bufSize && (bitsLeft > 0 || next < length)
      invariant 1 <= next <= length && 0 <= bitsLeft <= 8
      invariant 0 <= count <= Max(bufSize, 0) && count == |emitted|
      invariant Progress(bits, emitted, buffer, bitsLeft, data[next..length])
      invariant forall i :: 0 <= i < count ==> emitted[i] < 32 && result[i] == Symbol(emitted[i])
      invariant forall i :: count <= i < result.Length ==> result[i] == old(result[i])
      decreases 8 * (length - next) + bitsLeft
    {
      var index;
      index, buffer, next, bitsLeft := NextGroup(data, length, buffer, next, bitsLeft, bits, emitted);
      emitted := emitted + [index];
      var letter := Letter(index);
      result[count] := letter;
      count := count + 1;
    }
    EmittedPrefix(bits, emitted, buffer, bitsLeft, data[next..length]);
  }

  method Encode(data: seq<Byte>, length: int, result: array<char>, bufSize: int) returns (count: int)
    requires 0 <= length <= MAX_LENGTH ==> length <= |data| && bufSize <= result.Length
    modifies result
    ensures !(0 <= length <= MAX_LENGTH) ==> count == -1 && result[..] == old(result[..])
    ensures 0 <= length <= MAX_LENGTH ==>
              && count == Min(Max(bufSize, 0), (8 * length + 4) / 5)
              && result[..count] == Encoding(data[..length])[..count]
              && (count < bufSize ==> result[count] == '\0')
              && forall i :: count <= i < result.Length && !(i == count < bufSize) ==> result[i] == old(result[i])
  {
    if length < 0 || length > MAX_LENGTH {
      return -1;
    }
    count := 0;
    if length > 0 {
      count := EncodeBits(data, length, result, bufSize);
    }
    if count < bufSize {
      result[count] := '\0';
    }
  }

  // ---------------------------------------------------------------- round trip

  lemma SymbolIndexInverse(i: nat)
    requires i < 32
    ensures SymbolIndex(Symbol(i)) == i
  {
  }

  lemma SymbolBits(bits: seq<bool>)
    requires |bits| == GROUP_BITS
    ensures Value(bits) < 32
    ensures TextBits([Symbol(Value(bits))]) == bits
  {
    assert Pow2(GROUP_BITS) == 32;
    SymbolIndexInverse(Value(bits));
    LowBitsOfValue(bits);
    hide LowBits, Value, SymbolIndex, Symbol;
    var c := Symbol(Value(bits));
    assert [c][1..] == [];
    assert TextBits([c]) == LowBits(SymbolIndex(c), GROUP_BITS) + TextBits([]);
  }

  /** Reading the symbols back gives the bit string, completed with zeros to a multiple of five. */
  lemma {:induction false} TextBitsOfGroups(bits: seq<bool>)
    ensures TextBits(Symbols(Groups(bits))) == bits + Zeros(5 * ((|bits| + 4) / 5) - |bits|)
  {
    hide LowBits, Value, SymbolIndex, Symbol;
    var text := Symbols(Groups(bits));
    if bits == [] {
    } else if |bits| < 5 {
      var padded := bits + Zeros(5 - |bits|);
      SymbolBits(padded);
      assert text == [Symbol(Value(padded))];
    } else {
      SymbolBits(bits[..5]);
      assert text[1..] == Symbols(Groups(bits[5..]));
      TextBitsOfGroups(bits[5..]);
    }
  }

  lemma {:induction false} WholeBytesOfData(data: seq<Byte>, extra: seq<bool>)
    requires |extra| < 8
    ensures WholeBytes(DataBits(data) + extra) == data
  {
    var bits := DataBits(data) + extra;
    if data == [] {
      assert bits == extra;
    } else {
      assert bits[..8] == LowBits(data[0], BYTE_BITS);
      assert bits[8..] == DataBits(data[1..]) + extra;
      ByteValue(data[0]);
      WholeBytesOfData(data[1..], extra);
    }
  }

  lemma ByteValue(b: Byte)
    ensures Value(LowBits(b, BYTE_BITS)) == b
  {
    hide Value, LowBits;
    ValueOfLowBits(b, BYTE_BITS);
    assert Pow2(BYTE_BITS) == 256;
  }

  lemma DecodeInvertsEncode(data: seq<Byte>)
    ensures Decoding(Encoding(data)) == data
  {
    TextBitsOfGroups(DataBits(data));
    WholeBytesOfData(data, Zeros(5 * ((8 * |data| + 4) / 5) - 8 * |data|));
  }

  lemma EncodingInjective(a: seq<Byte>, b: seq<Byte>)
    requires Encoding(a) == Encoding(b)
    ensures a == b
  {
    DecodeInvertsEncode(a);
    DecodeInvertsEncode(b);
  }
}
