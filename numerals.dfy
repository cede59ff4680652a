/** Integers as decimal text: Python's str(n) for an int, and int(text) on
    the ASCII forms. */
module Numerals {
  import opened Wrappers
  import opened Text

  predicate IsDigit(c: char)
  {
    '0' <= c <= '9'
  }

  predicate AllDigits(s: string)
  {
    forall i :: 0 <= i < |s| ==> IsDigit(s[i])
  }

  function DigitChar(d: nat): char
    requires d < 10
  {
    ('0' as int + d) as char
  }

  function DigitValue(c: char): nat
    requires IsDigit(c)
  {
    c as int - '0' as int
  }

  /** Python's str(n) for n >= 0: the shortest decimal numeral of n. */
  function NatToString(n: nat): (s: string)
    ensures |s| >= 1 && AllDigits(s)
  {
    if n < 10 then [DigitChar(n)] else NatToString(n / 10) + [DigitChar(n % 10)]
  }

  /** Python's str(n): a minus sign for a negative n, then the digits. */
  function IntToString(n: int): string
  {
    if n < 0 then "-" + NatToString(-n) else NatToString(n)
  }

  /** The value of a run of decimal digits, most significant first. */
  function DigitsValue(s: string): nat
    requires AllDigits(s)
  {
    if s == [] then 0 else DigitsValue(s[..|s| - 1]) * 10 + DigitValue(s[|s| - 1])
  }

  /** Python's int(s): whitespace around the numeral is ignored, then an
      optional sign and at least one decimal digit; any other text makes
      int() raise, which is None here. */
  function ParseInt(s: string): Option<int>
  {
    var t := Strip(s);
    if |t| > 0 && (t[0] == '-' || t[0] == '+') then
      var digits := t[1..];
      if |digits| > 0 && AllDigits(digits) then
        var v: int := DigitsValue(digits);
        Some(if t[0] == '-' then -v else v)
      else None
    else if |t| > 0 && AllDigits(t) then Some(DigitsValue(t))
    else None
  }

  lemma {:induction false} NatRoundTrip(n: nat)
    ensures DigitsValue(NatToString(n)) == n
  {
    if n >= 10 {
      var s := NatToString(n);
      var p := NatToString(n / 10);
      assert s[..|s| - 1] == p;
      NatRoundTrip(n / 10);
    }
  }

  /** The text of an int is a non-empty run of digits, maybe after a minus
      sign: it holds no separator, comma, slash or bracket and no whitespace. */
  lemma IntTextShape(n: int)
    ensures var s := IntToString(n);
      |s| >= 1 && (s[0] == '-' || IsDigit(s[0])) && IsDigit(s[|s| - 1]) &&
      forall i :: 0 <= i < |s| ==> s[i] == '-' || IsDigit(s[i])
  {
  }

  lemma NumeralCharNotSpace(c: char)
    requires c == '-' || IsDigit(c)
    ensures c !in Whitespace
  {
  }

  lemma IntTextIsBare(n: int)
    ensures Bare(IntToString(n))
    ensures Strip(IntToString(n)) == IntToString(n)
  {
    var s := IntToString(n);
    IntTextShape(n);
    assert FieldSep !in s by {
      forall i | 0 <= i < |s| ensures s[i] != FieldSep {
        assert s[i] == '-' || IsDigit(s[i]);
      }
    }
    NumeralCharNotSpace(s[0]);
    NumeralCharNotSpace(s[|s| - 1]);
    TrimmedIsFixed(s, Whitespace);
  }

  /** No character other than '-' and the digits occurs in the text of an int. */
  lemma IntTextAvoids(n: int, c: char)
    requires c != '-' && !IsDigit(c)
    ensures c !in IntToString(n)
  {
    IntTextShape(n);
  }

  /** Reading back what str(n) wrote gives n. */
  lemma ParseIntRoundTrip(n: int)
    ensures ParseInt(IntToString(n)) == Some(n)
    ensures Strip(IntToString(n)) != ""
  {
    IntTextIsBare(n);
    var s := IntToString(n);
    if n < 0 {
      NatRoundTrip(-n);
      assert s[1..] == NatToString(-n);
    } else {
      NatRoundTrip(n);
    }
  }

  /** Everything the line codecs need to know about the text of an int: it
      is non-blank, reads back as n, strips to itself, holds none of the
      separators the codecs cut at, and neither starts nor ends with
      whitespace or a bracket. */
  lemma IntTextFacts(n: int)
    ensures var s := IntToString(n);
      s != [] && ParseInt(s) == Some(n) && Strip(s) == s &&
      '|' !in s && ',' !in s && '/' !in s &&
      s[0] !in Whitespace && s[|s| - 1] !in Whitespace &&
      s[0] != '[' && s[0] != ']' && s[|s| - 1] != '[' && s[|s| - 1] != ']'
  {
    IntTextShape(n);
    IntTextIsBare(n);
    ParseIntRoundTrip(n);
    IntTextAvoids(n, ',');
    IntTextAvoids(n, '/');
    NumeralCharNotSpace(IntToString(n)[0]);
    NumeralCharNotSpace(IntToString(n)[|IntToString(n)| - 1]);
  }
}
