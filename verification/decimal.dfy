/** Decimal numerals, read and written the way Python's `int()` and `str()`
    do for plain ASCII numerals: base 10 over the digits 0-9, with an
    optional sign when reading a signed integer. */
module Decimal {
  import opened Results
  import BaseN

  datatype NumberError = NotANumber(text: string)

  const Digits: string := "0123456789"

  predicate IsDigit(c: char) {
    '0' <= c <= '9'
  }

  ghost predicate AllDigits(s: string) {
    forall i :: 0 <= i < |s| ==> IsDigit(s[i])
  }

  lemma DigitsValid()
    ensures BaseN.ValidAlphabet(10, Digits) && Digits[..10] == Digits
    ensures forall c :: c in Digits <==> IsDigit(c)
  {
  }

  /** `str(n)` for a non-negative integer. */
  function NatToString(n: nat): (r: string)
    ensures |r| >= 1 && AllDigits(r)
  {
    DigitsValid();
    BaseN.ToBaseN(n, 10, Digits)
  }

  /** `int(s)` for an unsigned numeral: one or more ASCII digits. */
  function ParseNat(s: string): (r: Result<nat, NumberError>)
    ensures r.Ok? <==> |s| >= 1 && AllDigits(s)
  {
    DigitsValid();
    if s == [] then Err(NotANumber(s))
    else match BaseN.FromBaseN(s, 10, Digits)
      case Ok(n) => Ok(n)
      case Err(_) => Err(NotANumber(s))
  }

  /** `str(i)` for any integer: a minus sign before the digits of a negative value. */
  function IntToString(i: int): (r: string)
    ensures |r| >= 1 && IsDigit(r[|r| - 1])
    ensures (r[0] == '-') <==> i < 0
  {
    if i < 0 then "-" + NatToString(-i) else NatToString(i)
  }

  /** `int(s)` for a signed numeral: an optional `+` or `-`, then one or more digits. */
  function ParseInt(s: string): (r: Result<int, NumberError>)
    ensures r.Ok? <==> |s| >= 1 && (if s[0] == '-' || s[0] == '+' then ParseNat(s[1..]).Ok? else AllDigits(s))
  {
    if |s| >= 1 && s[0] == '-' then
      match ParseNat(s[1..])
      case Ok(n) => Ok(-(n as int))
      case Err(_) => Err(NotANumber(s))
    else if |s| >= 1 && s[0] == '+' then
      match ParseNat(s[1..])
      case Ok(n) => Ok(n)
      case Err(_) => Err(NotANumber(s))
    else
      match ParseNat(s)
      case Ok(n) => Ok(n)
      case Err(_) => Err(NotANumber(s))
  }

  /** Reading back a written natural gives the same natural. */
  lemma ParseNatToString(n: nat)
    ensures ParseNat(NatToString(n)) == Ok(n)
  {
    DigitsValid();
    BaseN.FromToBaseN(n, 10, Digits);
  }

  /** A numeral without a superfluous leading zero is written back exactly as read. */
  lemma NatToStringParse(s: string)
    requires |s| >= 1 && AllDigits(s) && (|s| > 1 ==> s[0] != '0')
    ensures ParseNat(s).Ok? && NatToString(ParseNat(s).value) == s
  {
    DigitsValid();
    assert BaseN.Canonical(s, 10, Digits);
    BaseN.ToFromBaseN(s, 10, Digits);
  }

  /** `str(n)` never starts with a superfluous zero. */
  lemma NatToStringNoLeadingZero(n: nat)
    ensures |NatToString(n)| > 1 ==> NatToString(n)[0] != '0'
  {
    DigitsValid();
    BaseN.ToBaseNCanonical(n, 10, Digits);
  }

  /** Unsigned digits read the same as a signed numeral as unsigned. */
  lemma ParseIntUnsigned(s: string, n: nat)
    requires ParseNat(s) == Ok(n)
    ensures ParseInt(s) == Ok(n)
  {
    assert IsDigit(s[0]);
  }

  /** A minus sign before digits negates their value. */
  lemma ParseIntNegated(digits: string, n: nat)
    requires ParseNat(digits) == Ok(n)
    ensures ParseInt("-" + digits) == Ok(-(n as int))
  {
    assert ("-" + digits)[0] == '-' && ("-" + digits)[1..] == digits;
  }

  /** Reading back a written integer gives the same integer, sign included. */
  lemma ParseIntToString(i: int)
    ensures ParseInt(IntToString(i)) == Ok(i)
  {
    var n: nat := if i < 0 then -i else i;
    var digits := NatToString(n);
    assert ParseNat(digits) == Ok(n) by {
      ParseNatToString(n);
    }
    if i < 0 {
      assert IntToString(i) == "-" + digits;
      ParseIntNegated(digits, n);
    } else {
      assert IntToString(i) == digits;
      ParseIntUnsigned(digits, n);
    }
  }

  /** The value of one decimal digit. */
  function DigitValue(c: char): (d: nat)
    requires IsDigit(c)
    ensures d < 10 && Digits[d] == c
  {
    c as int - '0' as int
  }

  /** Appending a digit multiplies the value read so far by ten and adds the digit. */
  lemma ParseNatSnoc(s: string, c: char)
    requires AllDigits(s) && IsDigit(c)
    ensures ParseNat(s + [c]).Ok?
    ensures ParseNat(s + [c]).value == (if s == [] then 0 else ParseNat(s).value) * 10 + DigitValue(c)
  {
    DigitsValid();
    var t := s + [c];
    assert AllDigits(t);
    BaseN.FromBaseNStep(t, 10, Digits);
    assert t[..|t| - 1] == s;
    assert BaseN.IndexOf(Digits, c) == DigitValue(c);
  }

  /** Two digits read as the first one's tens and the second one's units. */
  lemma ParseNatTwoDigits(s: string)
    requires |s| == 2 && IsDigit(s[0]) && IsDigit(s[1])
    ensures ParseNat(s) == Ok(DigitValue(s[0]) * 10 + DigitValue(s[1]))
  {
    var first := s[..1];
    assert first == s[..0] + [s[0]] && s == first + [s[1]];
    ParseNatSnoc(s[..0], s[0]);
    ParseNatSnoc(first, s[1]);
  }
}
