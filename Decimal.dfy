/**
 * Decimal numerals: what `%d` prints for a non-negative length, and the
 * reader that turns such a numeral back into a number. The server prints
 * every Content-Length with `%d`; the reader is the reference a client
 * applies to that header.
 */
module Decimal {
  import opened ByteStrings

  predicate IsDigit(c: Byte)
  {
    '0' <= c <= '9'
  }

  predicate AllDigits(s: Bytes)
  {
    forall i :: 0 <= i < |s| ==> IsDigit(s[i])
  }

  lemma NonDigitAbsent(s: Bytes, c: Byte)
    requires AllDigits(s) && !IsDigit(c)
    ensures c !in s
  {
  }

  /** A numeral as `%d` writes it: non-empty, digits only, no leading zero. */
  predicate Canonical(s: Bytes)
  {
    |s| > 0 && AllDigits(s) && (s[0] == '0' ==> |s| == 1)
  }

  function DigitChar(d: nat): (c: Byte)
    requires d < 10
    ensures IsDigit(c) && c as int - '0' as int == d
  {
    ('0' as int + d) as char
  }

  /** The decimal form of `n`, as Go's `%d` prints it. */
  function NatToDecimal(n: nat): (s: Bytes)
    ensures Canonical(s)
  {
    if n < 10 then [DigitChar(n)]
    else NatToDecimal(n / 10) + [DigitChar(n % 10)]
  }

  /** The value of a string of digits, most significant first. */
  function DigitsValue(s: Bytes): nat
    requires AllDigits(s)
  {
    if |s| == 0 then 0
    else 10 * DigitsValue(s[..|s| - 1]) + (s[|s| - 1] as int - '0' as int)
  }

  /** Reads a Content-Length value: a non-empty run of digits, or nothing. */
  function ParseDecimal(s: Bytes): Option<nat>
  {
    if |s| > 0 && AllDigits(s) then Some(DigitsValue(s)) else None
  }

  /** Printing a number and reading it back gives the number. */
  lemma {:induction false} ParsePrinted(n: nat)
    ensures ParseDecimal(NatToDecimal(n)) == Some(n)
  {
    var s := NatToDecimal(n);
    if n < 10 {
      assert s[..|s| - 1] == [];
    } else {
      ParsePrinted(n / 10);
      assert s[..|s| - 1] == NatToDecimal(n / 10);
      assert DigitsValue(s) == 10 * (n / 10) + n % 10;
    }
  }

  /** A numeral that does not start with zero denotes at least 10^(len-1) > 0. */
  lemma {:induction false} LeadingNonZero(s: Bytes)
    requires AllDigits(s) && |s| > 0 && s[0] != '0'
    ensures DigitsValue(s) > 0
    ensures |s| > 1 ==> DigitsValue(s) >= 10
  {
    if |s| > 1 {
      LeadingNonZero(s[..|s| - 1]);
    }
  }

  /** Reading a canonical numeral and printing the value gives the numeral back. */
  lemma {:induction false} PrintParsed(s: Bytes)
    requires Canonical(s)
    ensures ParseDecimal(s) == Some(DigitsValue(s))
    ensures NatToDecimal(DigitsValue(s)) == s
  {
    var n := DigitsValue(s);
    if |s| > 1 {
      var init := s[..|s| - 1];
      LeadingNonZero(s);
      LeadingNonZero(init);
      PrintParsed(init);
      assert n / 10 == DigitsValue(init);
      assert init + [s[|s| - 1]] == s;
    }
  }

  /** `%d` is injective: different lengths never print the same header value. */
  lemma PrintInjective(m: nat, n: nat)
    requires NatToDecimal(m) == NatToDecimal(n)
    ensures m == n
  {
    ParsePrinted(m);
    ParsePrinted(n);
  }
}
