/** Decimal digits of a number and their value. */
module Decimals {

  predicate IsDigit(c: char) {
    '0' <= c <= '9'
  }

  function NumberOf(digits: string): (v: nat)
    requires forall k :: 0 <= k < |digits| ==> IsDigit(digits[k])
  {
    if digits == [] then 0
    else
      var last := digits[|digits| - 1];
      assert IsDigit(last);
      10 * NumberOf(digits[..|digits| - 1]) + (last - '0') as int
  }

  function Decimal(n: nat): (s: string)
    ensures s != [] && forall k :: 0 <= k < |s| ==> IsDigit(s[k])
  {
    (if n < 10 then [] else Decimal(n / 10)) + ['0' + (n % 10) as char]
  }

  function ZeroPad(k: nat): (s: string)
    ensures |s| == k && forall i :: 0 <= i < k ==> s[i] == '0'
  {
    seq(k, _ => '0')
  }

  /** Zeros on the left up to a width. */
  function Padded(n: nat, width: nat): (s: string)
    ensures forall k :: 0 <= k < |s| ==> IsDigit(s[k])
  {
    var digits := Decimal(n);
    ZeroPad(if width > |digits| then width - |digits| else 0) + digits
  }

  lemma {:induction false} NumberOfDecimal(n: nat)
    ensures NumberOf(Decimal(n)) == n
    ensures n < 10 ==> |Decimal(n)| == 1
    ensures 10 <= n < 100 ==> |Decimal(n)| == 2
    ensures 100 <= n < 1000 ==> |Decimal(n)| == 3
  {
    if n >= 10 {
      NumberOfDecimal(n / 10);
      assert Decimal(n)[..|Decimal(n)| - 1] == Decimal(n / 10);
    }
  }

  lemma {:induction false} LeadingZeros(k: nat, s: string)
    requires forall i :: 0 <= i < |s| ==> IsDigit(s[i])
    ensures NumberOf(ZeroPad(k) + s) == NumberOf(s)
    decreases |s|, k
  {
    var text := ZeroPad(k) + s;
    if s != [] {
      assert text[..|text| - 1] == ZeroPad(k) + s[..|s| - 1];
      LeadingZeros(k, s[..|s| - 1]);
    } else if k > 0 {
      assert text[..|text| - 1] == ZeroPad(k - 1) + [];
      LeadingZeros(k - 1, []);
    }
  }

  /** Short numbers take exactly their width. */
  lemma PaddedLength(n: nat, width: nat)
    requires (n < 100 && width == 2) || (n < 1000 && width == 3)
    ensures |Padded(n, width)| == width
  {
    NumberOfDecimal(n);
    hide NumberOf, Decimal;
  }

  /** A padded number reads back as its value. */
  lemma PaddedReadsBack(n: nat, width: nat)
    ensures NumberOf(Padded(n, width)) == n
  {
    NumberOfDecimal(n);
    hide NumberOf, Decimal;
    var digits := Decimal(n);
    LeadingZeros(if width > |digits| then width - |digits| else 0, digits);
  }
}
