/** Unit-suffixed quantities: `kilobytes`, `size_to_bytes`, `to_seconds`
    and `cpu_units`. Each parser returns an error where the Python helper raises. */
module Units {
  import opened Results
  import opened Decimal

  datatype FormatError = BadQuantity(text: string)

  /** The argument of `size_to_bytes`: an integer, or a string. */
  datatype SizeArg = IntSize(n: int) | TextSize(text: string)

  const KiB: nat := 1024

  /** The unit letters each parser accepts. */
  const KilobyteUnits: set<char> := {'K', 'k', 'M', 'm', 'G', 'g'}
  const ByteUnits: set<char> := {'K', 'M', 'G'}
  const SecondUnits: set<char> := {'s', 'm', 'h', 'd'}

  /** Kilobytes per unit for `kilobytes`; the unit letter's case does not matter. */
  function KilobyteScale(unit: char): (r: Option<nat>)
    ensures r.Some? <==> unit in KilobyteUnits
  {
    if unit == 'K' || unit == 'k' then Some(1)
    else if unit == 'M' || unit == 'm' then Some(1024)
    else if unit == 'G' || unit == 'g' then Some(1024 * 1024)
    else None
  }

  /** Bytes per unit for a suffixed `size_to_bytes` string. */
  function ByteScale(unit: char): (r: Option<nat>)
    ensures r.Some? <==> unit in ByteUnits
  {
    if unit == 'K' then Some(1024)
    else if unit == 'M' then Some(1024 * 1024)
    else if unit == 'G' then Some(1024 * 1024 * 1024)
    else None
  }

  /** Seconds per unit for `to_seconds`. */
  function SecondScale(unit: char): (r: Option<nat>)
    ensures r.Some? <==> unit in SecondUnits
  {
    if unit == 's' then Some(1)
    else if unit == 'm' then Some(60)
    else if unit == 'h' then Some(3600)
    else if unit == 'd' then Some(86400)
    else None
  }

  /** `kilobytes`: a signed integer followed by a unit K, M or G in either
      case, scaled to kilobytes. A numeral without a unit is an error. */
  function Kilobytes(text: string): (r: Result<int, FormatError>)
    ensures r.Ok? ==> |text| >= 1 && text[|text| - 1] in KilobyteUnits
    ensures r.Ok? ==> ParseInt(text[..|text| - 1]).Ok?
  {
    if |text| >= 1 && KilobyteScale(text[|text| - 1]).Some? then
      match ParseInt(text[..|text| - 1])
      case Ok(n) => Ok(n * KilobyteScale(text[|text| - 1]).value)
      case Err(_) => Err(BadQuantity(text))
    else Err(BadQuantity(text))
  }

  /** `size_to_bytes`: an integer, or a bare signed numeral, is returned
      unchanged; a signed numeral followed by K, M or G is scaled to bytes. */
  function SizeToBytes(size: SizeArg): (r: Result<int, FormatError>)
    ensures size.IntSize? ==> r == Ok(size.n)
    ensures size.TextSize? && ParseInt(size.text).Ok? ==> r == Ok(ParseInt(size.text).value)
  {
    match size
    case IntSize(n) => Ok(n)
    case TextSize(text) =>
      match ParseInt(text)
      case Ok(n) => Ok(n)
      case Err(_) =>
        if |text| >= 1 && ByteScale(text[|text| - 1]).Some? then
          match ParseInt(text[..|text| - 1])
          case Ok(n) => Ok(n * ByteScale(text[|text| - 1]).value)
          case Err(_) => Err(BadQuantity(text))
        else Err(BadQuantity(text))
  }

  /** `to_seconds`: an unsigned count followed by s, m, h or d; this model
      refuses a signed count. */
  function ToSeconds(text: string): (r: Result<nat, FormatError>)
    ensures r.Ok? ==> |text| >= 2 && text[|text| - 1] in SecondUnits
  {
    if |text| >= 1 && SecondScale(text[|text| - 1]).Some? then
      match ParseNat(text[..|text| - 1])
      case Ok(n) => Ok(n * SecondScale(text[|text| - 1]).value)
      case Err(_) => Err(BadQuantity(text))
    else Err(BadQuantity(text))
  }

  /** `cpu_units`: an unsigned share count, optionally followed by `%`; this
      model refuses a signed count. */
  function CpuUnits(text: string): (r: Result<nat, FormatError>)
    ensures r.Ok? <==> ParseNat(if |text| >= 1 && text[|text| - 1] == '%' then text[..|text| - 1] else text).Ok?
  {
    var digits := if |text| >= 1 && text[|text| - 1] == '%' then text[..|text| - 1] else text;
    match ParseNat(digits)
    case Ok(n) => Ok(n)
    case Err(_) => Err(BadQuantity(text))
  }

  /** A count written with a sign is refused by both count parsers, with or
      without a unit or a trailing `%`. */
  lemma SignedCountsRefused(sign: char, rest: string)
    requires sign == '-' || sign == '+'
    ensures ToSeconds([sign] + rest).Err?
    ensures CpuUnits([sign] + rest).Err?
  {
    var text := [sign] + rest;
    if |text| >= 2 {
      assert text[..|text| - 1][0] == sign;
    }
  }

  /** Every integer written with a K, M or G unit, in either case, is read
      as that many kilobytes times the unit's scale. */
  lemma KilobytesOfNumeral(n: int, unit: char)
    requires unit in KilobyteUnits
    ensures Kilobytes(IntToString(n) + [unit]) == Ok(n * KilobyteScale(unit).value)
  {
    var t := IntToString(n) + [unit];
    assert t[..|t| - 1] == IntToString(n);
    ParseIntToString(n);
  }

  /** The unit letter's case never changes the result of `kilobytes`. */
  lemma KilobytesCaseInsensitive(number: string, upper: char, lower: char)
    requires (upper, lower) in {('K', 'k'), ('M', 'm'), ('G', 'g')}
    ensures Kilobytes(number + [upper]).Ok? == Kilobytes(number + [lower]).Ok?
    ensures Kilobytes(number + [upper]).Ok? ==> Kilobytes(number + [upper]).value == Kilobytes(number + [lower]).value
  {
    assert (number + [upper])[..|number|] == number == (number + [lower])[..|number|];
  }

  /** `kilobytes` refuses a numeral that carries no unit. */
  lemma KilobytesRequiresUnit(n: int)
    ensures Kilobytes(IntToString(n)).Err?
  {
    var t := IntToString(n);
    assert KilobyteScale(t[|t| - 1]).None? by {
      assert IsDigit(t[|t| - 1]);
    }
  }

  /** A bare signed numeral passes through `size_to_bytes` unchanged, sign kept. */
  lemma SizeToBytesOfNumeral(n: int)
    ensures SizeToBytes(TextSize(IntToString(n))) == Ok(n)
  {
    ParseIntToString(n);
  }

  /** A signed numeral with unit K, M or G is scaled to bytes, sign kept. */
  lemma SizeToBytesOfScaled(n: int, unit: char)
    requires unit in ByteUnits
    ensures SizeToBytes(TextSize(IntToString(n) + [unit])) == Ok(n * ByteScale(unit).value)
  {
    var t := IntToString(n) + [unit];
    assert t[..|t| - 1] == IntToString(n);
    ParseIntToString(n);
    assert !AllDigits(t) by { assert !IsDigit(t[|t| - 1]); }
    if t[0] == '-' || t[0] == '+' {
      assert !AllDigits(t[1..]) by { assert t[1..][|t| - 2] == unit; }
    }
  }

  /** An upper-case unit is worth 1024 times as much to `size_to_bytes`,
      which counts bytes, as to `kilobytes`, which counts kilobytes. */
  lemma ScaleRatio(n: int, unit: char)
    requires unit in ByteUnits
    ensures n * ByteScale(unit).value == (n * KilobyteScale(unit).value) * KiB
  {
    if unit == 'K' {
    } else if unit == 'M' {
      assert n * (1024 * 1024) == (n * 1024) * 1024;
    } else {
      assert n * (1024 * 1024 * 1024) == (n * (1024 * 1024)) * 1024;
    }
  }

  /** The two size parsers differ in scale: on an upper-case
      unit `size_to_bytes` gives 1024 times what `kilobytes` gives. */
  lemma SizeToBytesVersusKilobytes(n: int, unit: char)
    requires unit in ByteUnits
    ensures Kilobytes(IntToString(n) + [unit]).Ok?
    ensures SizeToBytes(TextSize(IntToString(n) + [unit])) == Ok(Kilobytes(IntToString(n) + [unit]).value * KiB)
  {
    SizeToBytesOfScaled(n, unit);
    KilobytesOfNumeral(n, unit);
    ScaleRatio(n, unit);
  }

  /** A count followed by s, m, h or d is that many seconds, minutes, hours or days. */
  lemma ToSecondsOfNumeral(n: nat, unit: char)
    requires unit in SecondUnits
    ensures ToSeconds(NatToString(n) + [unit]) == Ok(n * SecondScale(unit).value)
  {
    var t := NatToString(n) + [unit];
    assert t[..|t| - 1] == NatToString(n);
    ParseNatToString(n);
  }

  /** `to_seconds` refuses a count with no unit. */
  lemma ToSecondsRequiresUnit(n: nat)
    ensures ToSeconds(NatToString(n)).Err?
  {
  }

  /** A trailing `%` does not change the share count. */
  lemma CpuUnitsPercentOptional(n: nat)
    ensures CpuUnits(NatToString(n) + "%") == CpuUnits(NatToString(n)) == Ok(n)
  {
    var t := NatToString(n) + "%";
    assert t[..|t| - 1] == NatToString(n);
    ParseNatToString(n);
  }

  /** "10K" and "10k" are 10 kilobytes, and a bare "10" is refused. */
  lemma KilobytesExamples()
    ensures Kilobytes("10K") == Ok(10) && Kilobytes("10k") == Ok(10) && Kilobytes("10").Err?
  {
    assert "10K" == "10" + ['K'] && "10k" == "10" + ['k'];
    assert IntToString(10) == "10";
    KilobytesOfNumeral(10, 'K');
    KilobytesOfNumeral(10, 'k');
    KilobytesRequiresUnit(10);
  }

  /** "10M" and "10m" are 10 * 1024 kilobytes. */
  lemma KilobytesMegaExamples()
    ensures Kilobytes("10M") == Ok(10 * 1024) && Kilobytes("10m") == Ok(10 * 1024)
  {
    assert "10M" == "10" + ['M'] && "10m" == "10" + ['m'];
    assert IntToString(10) == "10";
    KilobytesOfNumeral(10, 'M');
    KilobytesOfNumeral(10, 'm');
  }

  /** "10G" and "10g" are 10 * 1024 * 1024 kilobytes. */
  lemma KilobytesGigaExamples()
    ensures Kilobytes("10G") == Ok(10 * 1024 * 1024) && Kilobytes("10g") == Ok(10 * 1024 * 1024)
  {
    assert "10G" == "10" + ['G'] && "10g" == "10" + ['g'];
    assert IntToString(10) == "10";
    KilobytesOfNumeral(10, 'G');
    KilobytesOfNumeral(10, 'g');
  }

  /** 10 and -10 pass through, as integers and as strings. */
  lemma SizeToBytesExamples()
    ensures SizeToBytes(IntSize(10)) == Ok(10) && SizeToBytes(IntSize(-10)) == Ok(-10)
    ensures SizeToBytes(TextSize("10")) == Ok(10) && SizeToBytes(TextSize("-10")) == Ok(-10)
  {
    assert IntToString(10) == "10" && IntToString(-10) == "-10";
    SizeToBytesOfNumeral(10);
    SizeToBytesOfNumeral(-10);
  }

  /** "10K", "-10K" and "-10M" are scaled to bytes with their sign kept. */
  lemma SizeToBytesScaledExamples()
    ensures SizeToBytes(TextSize("10K")) == Ok(10 * 1024) && SizeToBytes(TextSize("-10K")) == Ok(-10 * 1024)
    ensures SizeToBytes(TextSize("-10M")) == Ok(-10 * 1024 * 1024)
  {
    assert "10K" == "10" + ['K'] && "-10K" == "-10" + ['K'] && "-10M" == "-10" + ['M'];
    assert IntToString(10) == "10" && IntToString(-10) == "-10";
    SizeToBytesOfScaled(10, 'K');
    SizeToBytesOfScaled(-10, 'K');
    SizeToBytesOfScaled(-10, 'M');
  }

  /** "10%" and "10" are both 10 shares. */
  lemma CpuUnitsExamples()
    ensures CpuUnits("10%") == Ok(10) && CpuUnits("10") == Ok(10)
  {
    assert "10%" == "10" + "%";
    assert NatToString(10) == "10";
    CpuUnitsPercentOptional(10);
  }

  /** A one-digit count with a unit, as the cases of tests/utils_test.py write it. */
  lemma ToSecondsOneDigit(digit: nat, unit: char, text: string)
    requires digit < 10 && unit in SecondUnits && text == [Digits[digit], unit]
    ensures ToSeconds(text) == Ok(digit * SecondScale(unit).value)
  {
    assert NatToString(digit) == [Digits[digit]];
    ToSecondsOfNumeral(digit, unit);
  }

  /** "0s" is 0, "3s" is 3, "3m" is 180, "2h" is 7200 and "3d" is 259200 seconds. */
  lemma ToSecondsExamples()
    ensures ToSeconds("0s") == Ok(0) && ToSeconds("3s") == Ok(3) && ToSeconds("3m") == Ok(180)
    ensures ToSeconds("2h") == Ok(7200) && ToSeconds("3d") == Ok(259200)
  {
    ToSecondsOneDigit(0, 's', "0s");
    ToSecondsOneDigit(3, 's', "3s");
    ToSecondsOneDigit(3, 'm', "3m");
    ToSecondsOneDigit(2, 'h', "2h");
    ToSecondsOneDigit(3, 'd', "3d");
  }
}
