/** Bytes, powers of two and byte orders, used to write machine widths out explicitly. */
module Words {

  type Byte = n: int | 0 <= n < 256

  function Pow2(n: nat): (p: nat)
    ensures p > 0
  {
    if n == 0 then 1 else 2 * Pow2(n - 1)
  }

  lemma {:induction false} Pow2Add(a: nat, b: nat)
    ensures Pow2(a + b) == Pow2(a) * Pow2(b)
  {
    if a > 0 {
      Pow2Add(a - 1, b);
      assert Pow2(a + b) == 2 * (Pow2(a - 1) * Pow2(b));
    }
  }

  lemma {:induction false} Pow2Monotone(a: nat, b: nat)
    requires a <= b
    ensures Pow2(a) <= Pow2(b)
  {
    if a < b {
      Pow2Monotone(a, b - 1);
    }
  }

  lemma Pow2Widths()
    ensures Pow2(5) == 32 && Pow2(8) == 256
    ensures Pow2(31) == 0x8000_0000 && Pow2(32) == 0x1_0000_0000
    ensures Pow2(63) == 0x8000_0000_0000_0000 && Pow2(64) == 0x1_0000_0000_0000_0000
  {
    assert Pow2(8) == 256;
    assert Pow2(16) == 65536 by { Pow2Add(8, 8); }
    assert Pow2(32) == 65536 * 65536 by { Pow2Add(16, 16); }
    assert Pow2(64) == Pow2(32) * Pow2(32) by { Pow2Add(32, 32); }
    assert Pow2(32) == 2 * Pow2(31) && Pow2(64) == 2 * Pow2(63);
  }

  /** Floor division composes: dividing by 2 and then by p is dividing by 2p. */
  lemma DivDiv2(v: int, p: int)
    requires p > 0
    ensures (v / 2) / p == v / (2 * p)
  {
    var q, r := v / (2 * p), v % (2 * p);
    assert v == 2 * (p * q) + r;
    assert v / 2 == p * q + r / 2;
    assert 0 <= r / 2 < p;
    DivUnique(v / 2, p, q, r / 2);
  }

  lemma ModDouble(v: int, p: int)
    requires p > 0
    ensures v % (2 * p) == 2 * ((v / 2) % p) + v % 2
  {
    var q, r := (v / 2) / p, (v / 2) % p;
    assert v == 2 * (p * q) + 2 * r + v % 2;
    assert (2 * p) * q == 2 * (p * q);
    DivUnique(v, 2 * p, q, 2 * r + v % 2);
  }

  lemma DivUnique(v: int, p: int, q: int, r: int)
    requires p > 0 && v == p * q + r && 0 <= r < p
    ensures v / p == q && v % p == r
  {
    var d := v / p - q;
    assert p * d == r - v % p;
    assert d > 0 ==> p * d >= p;
    assert d < 0 ==> p * d <= -p;
  }

  /** The value of bytes read least significant first. */
  function LittleEndian(bytes: seq<Byte>): nat {
    if bytes == [] then 0 else bytes[0] + 256 * LittleEndian(bytes[1..])
  }

  /** The value of bytes read most significant first. */
  function BigEndian(bytes: seq<Byte>): nat {
    if bytes == [] then 0 else 256 * BigEndian(bytes[..|bytes| - 1]) + bytes[|bytes| - 1]
  }

  function Reverse(bytes: seq<Byte>): (r: seq<Byte>)
    ensures |r| == |bytes|
  {
    seq(|bytes|, i requires 0 <= i < |bytes| => bytes[|bytes| - 1 - i])
  }

  lemma {:induction false} LittleEndianOfReverse(bytes: seq<Byte>)
    ensures LittleEndian(Reverse(bytes)) == BigEndian(bytes)
  {
    if bytes != [] {
      assert Reverse(bytes)[1..] == Reverse(bytes[..|bytes| - 1]);
      LittleEndianOfReverse(bytes[..|bytes| - 1]);
    }
  }

  /** The four bytes of a 32-bit word, least significant first. */
  function WordBytes(word: nat): (bytes: seq<Byte>)
    requires word < 0x1_0000_0000
    ensures |bytes| == 4
  {
    var q1 := word / 256;
    var q2 := q1 / 256;
    [word % 256, q1 % 256, q2 % 256, q2 / 256]
  }

  lemma LittleEndianCons(b: Byte, rest: seq<Byte>)
    ensures LittleEndian([b] + rest) == b + 256 * LittleEndian(rest)
  {
    assert ([b] + rest)[1..] == rest;
  }

  lemma WordValue(word: nat)
    requires word < 0x1_0000_0000
    ensures var b := WordBytes(word);
      word == b[0] as int + 0x100 * b[1] as int + 0x1_0000 * b[2] as int + 0x100_0000 * b[3] as int
  {
    var q1 := word / 256;
    var q2 := q1 / 256;
    assert word == 256 * q1 + word % 256 && q1 == 256 * q2 + q1 % 256 && q2 == 256 * (q2 / 256) + q2 % 256;
  }

  lemma LittleEndianOfWord(word: nat, rest: seq<Byte>)
    requires word < 0x1_0000_0000
    ensures LittleEndian(WordBytes(word) + rest) == word + 0x1_0000_0000 * LittleEndian(rest)
  {
    WordValue(word);
    hide LittleEndian, WordBytes;
    var b := WordBytes(word);
    var rest3 := [b[3]] + rest;
    var rest2 := [b[2]] + rest3;
    var rest1 := [b[1]] + rest2;
    assert b + rest == [b[0]] + rest1;
    LittleEndianCons(b[0], rest1);
    LittleEndianCons(b[1], rest2);
    LittleEndianCons(b[2], rest3);
    LittleEndianCons(b[3], rest);
  }

  lemma AddModulo(a: int, b: int, m: int)
    requires m > 0
    ensures (a % m + b) % m == (a + b) % m
  {
    var x := a % m + b;
    assert a == m * (a / m) + a % m;
    assert x == m * (x / m) + x % m;
    assert m * (a / m) + m * (x / m) == m * (a / m + x / m);
    DivUnique(a + b, m, a / m + x / m, x % m);
  }
}
