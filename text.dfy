/** Decimal rendering of integers as JavaScript template literals print them
    (`${n}`: no leading zeros, a leading '-' for negatives), with its parser. */
module Text {

  function DigitChar(k: int): (c: char)
    requires 0 <= k < 10
    ensures '0' <= c <= '9'
  {
    ('0' as int + k) as char
  }

  predicate IsDigit(c: char) {
    '0' <= c <= '9'
  }

  function DigitValue(c: char): (k: int)
    requires IsDigit(c)
    ensures 0 <= k < 10
  {
    c as int - '0' as int
  }

  /** Decimal digits of n, most significant first, without leading zeros. */
  function NatStr(n: nat): (s: string)
    ensures |s| >= 1 && forall i :: 0 <= i < |s| ==> IsDigit(s[i])
    ensures s[0] == '0' ==> n == 0
  {
    if n < 10 then [DigitChar(n)] else NatStr(n / 10) + [DigitChar(n % 10)]
  }

  /** A signed integer: '-' followed by the digits of its magnitude when negative. */
  function IntStr(i: int): (s: string)
    ensures |s| >= 1
  {
    if i < 0 then "-" + NatStr(-i) else NatStr(i)
  }

  /** Reads a string of decimal digits back. */
  function ParseNat(s: string): (n: nat)
    requires forall i :: 0 <= i < |s| ==> IsDigit(s[i])
  {
    if s == [] then 0 else 10 * ParseNat(s[..|s| - 1]) + DigitValue(s[|s| - 1])
  }

  lemma {:induction false} DigitRoundTrip(k: int)
    requires 0 <= k < 10
    ensures DigitValue(DigitChar(k)) == k
  {
  }

  /** Reading the decimal rendering gives the number back. */
  lemma {:induction false} ParseNatStr(n: nat)
    ensures ParseNat(NatStr(n)) == n
  {
    DigitRoundTrip(n % 10);
    if n >= 10 {
      ParseNatStr(n / 10);
      var s := NatStr(n);
      assert s[..|s| - 1] == NatStr(n / 10);
    }
  }

  /** Number of occurrences of c in s. */
  function Count(s: string, c: char): (k: nat)
    ensures k <= |s|
  {
    if s == [] then 0 else Count(s[..|s| - 1], c) + (if s[|s| - 1] == c then 1 else 0)
  }

  lemma {:induction false} CountAppend(a: string, b: string, c: char)
    ensures Count(a + b, c) == Count(a, c) + Count(b, c)
  {
    if b != [] {
      CountAppend(a, b[..|b| - 1], c);
      assert (a + b)[..|a + b| - 1] == a + b[..|b| - 1];
    } else {
      assert a + b == a;
    }
  }

  lemma {:induction false} CountAbsent(s: string, c: char)
    requires c !in s
    ensures Count(s, c) == 0
  {
    if s != [] {
      CountAbsent(s[..|s| - 1], c);
    }
  }

  lemma {:induction false} IntStrChars(i: int)
    ensures forall k :: 0 <= k < |IntStr(i)| ==> IntStr(i)[k] == '-' || IsDigit(IntStr(i)[k])
  {
  }
}
