/** Human-readable CPU figures: `cpu_to_readable` writes a share count with
    thousands separators, `cpu_to_cores_readable` writes it as cores (a
    share is a hundredth of a core) with two decimals. */
module Readable {
  import opened Results
  import opened Decimal
  import Text
  import BaseN

  /** A digit string with a comma before every group of three digits
      counted from the right. */
  function Group(digits: string): (r: string)
    ensures |digits| >= 1 ==> |r| >= 1 && r[0] == digits[0]
    decreases |digits|
  {
    if |digits| <= 3 then digits
    else Group(digits[..|digits| - 3]) + "," + digits[|digits| - 3..]
  }

  /** `s` with every comma taken out. */
  function RemoveCommas(s: string): (r: string)
    ensures ',' !in r
    ensures |r| <= |s|
  {
    if s == [] then []
    else (if s[0] == ',' then [] else [s[0]]) + RemoveCommas(s[1..])
  }

  /** `cpu_to_readable`: the count in decimal with thousands separators. */
  function CpuToReadable(value: int): (r: string)
    ensures |r| >= 1 && (r[0] == '-' <==> value < 0)
  {
    if value < 0 then "-" + Group(NatToString(-value)) else Group(NatToString(value))
  }

  function DigitOf(d: nat): (c: char)
    requires d < 10
    ensures IsDigit(c) && DigitValue(c) == d
  {
    ('0' as int + d) as char
  }

  /** A magnitude in hundredths as whole units, a point and two decimals. */
  function Hundredths(magnitude: nat): (r: string) {
    var cents := magnitude % 100;
    NatToString(magnitude / 100) + "." + [DigitOf(cents / 10), DigitOf(cents % 10)]
  }

  /** `cpu_to_cores_readable`: value / 100 with exactly two decimals. */
  function CpuToCoresReadable(value: int): (r: string)
    ensures |r| >= 1 && (r[0] == '-' <==> value < 0)
  {
    if value < 0 then "-" + Hundredths(-value) else Hundredths(value)
  }

  lemma {:induction false} RemoveCommasAppend(a: string, b: string)
    ensures RemoveCommas(a + b) == RemoveCommas(a) + RemoveCommas(b)
    decreases |a|
  {
    if a != [] {
      RemoveCommasAppend(a[1..], b);
      assert (a + b)[1..] == a[1..] + b;
    } else {
      assert a + b == b;
    }
  }

  lemma {:induction false} RemoveCommasFree(s: string)
    requires ',' !in s
    ensures RemoveCommas(s) == s
    decreases |s|
  {
    if s != [] {
      RemoveCommasFree(s[1..]);
      assert [s[0]] + s[1..] == s;
    }
  }

  lemma RemoveCommasSeparated(a: string, b: string)
    ensures RemoveCommas(a + "," + b) == RemoveCommas(a) + RemoveCommas(b)
  {
    var rest := [','] + b;
    assert rest[0] == ',' && rest[1..] == b;
    assert RemoveCommas(rest) == RemoveCommas(b);
    assert a + "," + b == a + rest;
    RemoveCommasAppend(a, rest);
  }

  /** Taking the separators out of a grouped numeral gives the plain numeral back. */
  lemma {:induction false} RemoveCommasGroup(digits: string)
    requires ',' !in digits
    ensures RemoveCommas(Group(digits)) == digits
    decreases |digits|
  {
    if |digits| <= 3 {
      RemoveCommasFree(digits);
    } else {
      var init, last := digits[..|digits| - 3], digits[|digits| - 3..];
      assert init + last == digits;
      assert ',' !in init && ',' !in last;
      RemoveCommasGroup(init);
      RemoveCommasFree(last);
      RemoveCommasSeparated(Group(init), last);
    }
  }

  /** Every group after the first has exactly three digits, and the first
      has one to three, starting with the numeral's own first digit. */
  lemma {:induction false} GroupShape(digits: string)
    requires 1 <= |digits| && ',' !in digits
    ensures var groups := Text.Split(Group(digits), ',');
      1 <= |groups[0]| <= 3 && groups[0][0] == digits[0] &&
      forall i :: 1 <= i < |groups| ==> |groups[i]| == 3
    decreases |digits|
  {
    if |digits| <= 3 {
      Text.SplitFreePiece(digits, [], ',');
    } else {
      var init, last := digits[..|digits| - 3], digits[|digits| - 3..];
      assert ',' !in init && ',' !in last by {
        assert forall c :: c in init ==> c in digits;
        assert forall c :: c in last ==> c in digits;
      }
      GroupShape(init);
      assert init[0] == digits[0];
      Text.SplitAppendPiece(Group(init), last, ',');
    }
  }

  /** Reading the readable form without its separators gives the count
      back, and after its sign the form starts with a zero only for 0. */
  lemma CpuToReadableRoundTrip(value: int)
    ensures ParseInt(RemoveCommas(CpuToReadable(value))) == Ok(value)
    ensures var r := CpuToReadable(value);
      var unsigned := if value < 0 then r[1..] else r;
      |unsigned| >= 1 && (unsigned[0] == '0' ==> unsigned == "0")
  {
    var magnitude: nat := if value < 0 then -value else value;
    var digits := NatToString(magnitude);
    NatToStringNoLeadingZero(magnitude);
    assert (if value < 0 then CpuToReadable(value)[1..] else CpuToReadable(value)) == Group(digits);
    assert ',' !in digits by {
      assert forall i :: 0 <= i < |digits| ==> IsDigit(digits[i]);
    }
    RemoveCommasGroup(digits);
    if value < 0 {
      RemoveCommasAppend("-", Group(digits));
      assert RemoveCommas("-") == "-";
      assert RemoveCommas(CpuToReadable(value)) == IntToString(value);
    } else {
      assert RemoveCommas(CpuToReadable(value)) == IntToString(value);
    }
    ParseIntToString(value);
  }

  /** Two digits read back as the value below 100 they were written from. */
  lemma TwoDigitsValue(h: nat)
    requires h < 100
    ensures ParseNat([DigitOf(h / 10), DigitOf(h % 10)]) == Ok(h)
  {
    var tens, units := h / 10, h % 10;
    assert tens * 10 + units == h;
    ParseNatTwoDigits([DigitOf(tens), DigitOf(units)]);
  }

  lemma HundredthsPieces(magnitude: nat)
    ensures Text.Split(Hundredths(magnitude), '.') ==
      [NatToString(magnitude / 100), [DigitOf(magnitude % 100 / 10), DigitOf(magnitude % 100 % 10)]]
  {
    var whole := NatToString(magnitude / 100);
    var decimals := [DigitOf(magnitude % 100 / 10), DigitOf(magnitude % 100 % 10)];
    assert '.' !in whole by {
      assert forall i :: 0 <= i < |whole| ==> IsDigit(whole[i]);
    }
    Text.SplitFreePiece(whole, decimals, '.');
    Text.SplitFreePiece(decimals, [], '.');
  }

  /** The hundredths form splits at its point into whole units and exactly
      two decimals, which together give back the magnitude; the whole units
      have no leading zero. */
  lemma HundredthsValue(magnitude: nat)
    ensures var parts := Text.Split(Hundredths(magnitude), '.');
      |parts| == 2 && |parts[1]| == 2 && ParseNat(parts[0]).Ok? && ParseNat(parts[1]).Ok? &&
      ParseNat(parts[0]).value * 100 + ParseNat(parts[1]).value == magnitude &&
      |parts[0]| >= 1 && (|parts[0]| > 1 ==> parts[0][0] != '0')
  {
    NatToStringNoLeadingZero(magnitude / 100);
    var whole := NatToString(magnitude / 100);
    var decimals := [DigitOf(magnitude % 100 / 10), DigitOf(magnitude % 100 % 10)];
    var parts := Text.Split(Hundredths(magnitude), '.');
    assert parts == [whole, decimals] by {
      HundredthsPieces(magnitude);
    }
    assert ParseNat(whole) == Ok(magnitude / 100) by {
      ParseNatToString(magnitude / 100);
    }
    assert ParseNat(decimals) == Ok(magnitude % 100) by {
      TwoDigitsValue(magnitude % 100);
    }
    assert (magnitude / 100) * 100 + magnitude % 100 == magnitude;
  }

  /** `cpu_to_cores_readable` carries a minus sign exactly for negative
      counts, and its unsigned part reads back as the count's magnitude. */
  lemma CoresReadableValue(value: int)
    ensures var r := CpuToCoresReadable(value);
      |r| >= 1 && (r[0] == '-' <==> value < 0)
    ensures var r := CpuToCoresReadable(value);
      var parts := Text.Split(if value < 0 then r[1..] else r, '.');
      |parts| == 2 && |parts[1]| == 2 && ParseNat(parts[0]).Ok? && ParseNat(parts[1]).Ok? &&
      ParseNat(parts[0]).value * 100 + ParseNat(parts[1]).value == (if value < 0 then -value else value) &&
      |parts[0]| >= 1 && (|parts[0]| > 1 ==> parts[0][0] != '0')
  {
    var magnitude: nat := if value < 0 then -value else value;
    HundredthsValue(magnitude);
    var h := Hundredths(magnitude);
    assert IsDigit(h[0]);
    if value < 0 {
      assert CpuToCoresReadable(value)[1..] == h;
    }
  }

  /** 2310 shares read "2,310". */
  lemma CpuToReadableExample()
    ensures CpuToReadable(2310) == "2,310"
  {
    assert NatToString(2310) == "2310";
    assert "2310"[..1] == "2" && "2310"[1..] == "310";
  }

  /** 2310 shares are "23.10" cores. */
  lemma CpuToCoresReadableExample()
    ensures CpuToCoresReadable(2310) == "23.10"
  {
    assert NatToString(23) == "23";
    assert DigitOf(1) == '1' && DigitOf(0) == '0';
    assert Hundredths(2310) == NatToString(23) + "." + [DigitOf(1), DigitOf(0)];
  }
}
