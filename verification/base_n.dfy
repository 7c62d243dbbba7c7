/** Arbitrary-base integer encoding: `to_base_n` and `from_base_n`.
    A base-`b` numeral uses the first `b` characters of an alphabet as its
    digits, the most significant digit first. */
module BaseN {
  import opened Results

  datatype DecodeError = InvalidDigit(c: char)

  /** Digit `d` of the default alphabet: 0-9, then a-z, then A-Z. */
  function DigitChar(d: nat): (c: char)
    requires d < 62
    ensures d < 10 ==> '0' <= c <= '9'
    ensures 10 <= d < 36 ==> 'a' <= c <= 'z'
    ensures 36 <= d ==> 'A' <= c <= 'Z'
  {
    if d < 10 then (48 + d) as char
    else if d < 36 then (97 + d - 10) as char
    else (65 + d - 36) as char
  }

  /** The default alphabet, "0123456789abc...xyzABC...XYZ". */
  const DefaultAlphabet: string := seq(62, i requires 0 <= i < 62 => DigitChar(i))

  ghost predicate Distinct(s: string) {
    forall i, j :: 0 <= i < j < |s| ==> s[i] != s[j]
  }

  /** An alphabet usable in base `base`: long enough, and its first `base`
      characters pairwise different so that every digit has one reading. */
  ghost predicate ValidAlphabet(base: nat, alphabet: string) {
    2 <= base <= |alphabet| && Distinct(alphabet[..base])
  }

  ghost predicate AllIn(text: string, digits: string) {
    forall i :: 0 <= i < |text| ==> text[i] in digits
  }

  /** Position of the first occurrence of `c` in `s`. */
  function IndexOf(s: string, c: char): (r: nat)
    requires c in s
    ensures r < |s| && s[r] == c
    ensures forall j :: 0 <= j < r ==> s[j] != c
  {
    if s[0] == c then 0 else 1 + IndexOf(s[1..], c)
  }

  /** In a sequence without repeats, a character's first position is its only one. */
  lemma IndexOfDistinct(s: string, k: nat)
    requires Distinct(s) && k < |s|
    ensures IndexOf(s, s[k]) == k
  {
  }

  /** `to_base_n`: the digits of `num` in base `base`, most significant
      first; zero is the single digit `alphabet[0]`, never the empty string. */
  function ToBaseN(num: nat, base: nat, alphabet: string): (r: string)
    requires 2 <= base <= |alphabet|
    ensures |r| >= 1
    ensures AllIn(r, alphabet[..base])
    decreases num
  {
    if num < base then [alphabet[num]]
    else
      DivModBase(num, base);
      var high := ToBaseN(num / base, base, alphabet);
      var low := num % base;
      assert alphabet[low] == alphabet[..base][low];
      high + [alphabet[low]]
  }

  /** `from_base_n`: the value of `text` read as a base-`base` numeral.
      It fails exactly when some character is not among the first `base`
      characters of the alphabet, and names such a character (the leftmost,
      by `FromBaseNLeftmost`). */
  function FromBaseN(text: string, base: nat, alphabet: string): (r: Result<nat, DecodeError>)
    requires 2 <= base <= |alphabet|
    ensures r.Ok? <==> AllIn(text, alphabet[..base])
    ensures r.Err? ==> r.error.c in text && r.error.c !in alphabet[..base]
    decreases |text|
  {
    if text == [] then Ok(0)
    else
      var init, last := text[..|text| - 1], text[|text| - 1];
      match FromBaseN(init, base, alphabet)
      case Err(e) => Err(e)
      case Ok(high) =>
        if last in alphabet[..base] then Ok(high * base + IndexOf(alphabet[..base], last))
        else Err(InvalidDigit(last))
  }

  /** The character a failed decoding names is the leftmost non-digit:
      everything before it is a digit of the base. */
  lemma {:induction false} FromBaseNLeftmost(text: string, base: nat, alphabet: string)
    requires 2 <= base <= |alphabet|
    requires FromBaseN(text, base, alphabet).Err?
    ensures var c := FromBaseN(text, base, alphabet).error.c;
      exists i :: 0 <= i < |text| && text[i] == c && AllIn(text[..i], alphabet[..base])
    decreases |text|
  {
    var c := FromBaseN(text, base, alphabet).error.c;
    var init := text[..|text| - 1];
    if FromBaseN(init, base, alphabet).Err? {
      FromBaseNLeftmost(init, base, alphabet);
      var i :| 0 <= i < |init| && init[i] == c && AllIn(init[..i], alphabet[..base]);
      assert text[i] == init[i] && text[..i] == init[..i];
    } else {
      assert text[..|text| - 1] == init;
      assert text[|text| - 1] == c;
    }
  }

  /** A numeral as `to_base_n` writes it: digits only and no leading zero digit. */
  ghost predicate Canonical(text: string, base: nat, alphabet: string)
    requires 2 <= base <= |alphabet|
  {
    |text| >= 1 && AllIn(text, alphabet[..base]) && (|text| > 1 ==> text[0] != alphabet[0])
  }

  lemma DivModBase(num: nat, base: nat)
    requires 2 <= base
    ensures num == (num / base) * base + num % base
    ensures num >= base ==> 1 <= num / base < num
  {
  }

  /** Appending the digit of `d` to a numeral multiplies its value by the
      base and adds `d`. */
  lemma FromBaseNAppendDigit(high: string, d: nat, base: nat, alphabet: string)
    requires ValidAlphabet(base, alphabet) && d < base
    requires AllIn(high, alphabet[..base])
    ensures FromBaseN(high + [alphabet[d]], base, alphabet).Ok?
    ensures FromBaseN(high + [alphabet[d]], base, alphabet).value
         == FromBaseN(high, base, alphabet).value * base + d
  {
    var digits := alphabet[..base];
    var t := high + [alphabet[d]];
    assert t[..|t| - 1] == high && t[|t| - 1] == digits[d];
    assert AllIn(t, digits) by {
      forall i | 0 <= i < |t| ensures t[i] in digits {
        if i < |high| { assert t[i] == high[i]; }
      }
    }
    FromBaseNStep(t, base, alphabet);
    IndexOfDistinct(digits, d);
  }

  /** Decoding undoes encoding, for every non-negative integer. */
  lemma {:induction false} FromToBaseN(num: nat, base: nat, alphabet: string)
    requires ValidAlphabet(base, alphabet)
    ensures FromBaseN(ToBaseN(num, base, alphabet), base, alphabet) == Ok(num)
    decreases num
  {
    var r := FromBaseN(ToBaseN(num, base, alphabet), base, alphabet);
    DivModBase(num, base);
    if num < base {
      assert ToBaseN(num, base, alphabet) == [] + [alphabet[num]];
      FromBaseNAppendDigit([], num, base, alphabet);
      assert r.Ok? && r.value == num;
    } else {
      var high := ToBaseN(num / base, base, alphabet);
      assert ToBaseN(num, base, alphabet) == high + [alphabet[num % base]];
      FromToBaseN(num / base, base, alphabet);
      FromBaseNAppendDigit(high, num % base, base, alphabet);
      assert r.Ok? && r.value == (num / base) * base + num % base;
    }
  }

  /** One step of the fold: the value of `init + [last]`. */
  lemma FromBaseNStep(text: string, base: nat, alphabet: string)
    requires 2 <= base <= |alphabet|
    requires |text| >= 1 && AllIn(text, alphabet[..base])
    ensures FromBaseN(text[..|text| - 1], base, alphabet).Ok?
    ensures FromBaseN(text, base, alphabet).value
         == FromBaseN(text[..|text| - 1], base, alphabet).value * base
            + IndexOf(alphabet[..base], text[|text| - 1])
  {
    var init := text[..|text| - 1];
    assert AllIn(init, alphabet[..base]) by {
      forall k | 0 <= k < |init| ensures init[k] in alphabet[..base] { assert init[k] == text[k]; }
    }
  }

  lemma MulAtLeast(x: int, base: nat)
    requires x >= 1
    ensures x * base >= base
  {
    assert x * base == (x - 1) * base + base;
  }

  lemma DivModUnique(high: nat, d: nat, base: nat)
    requires d < base
    ensures (high * base + d) / base == high && (high * base + d) % base == d
  {
    var n := high * base + d;
    var q, r := n / base, n % base;
    assert (high - q) * base == r - d;
    if high > q { MulAtLeast(high - q, base); }
    if q > high { MulAtLeast(q - high, base); }
  }

  lemma CanonicalInit(text: string, base: nat, alphabet: string)
    requires 2 <= base <= |alphabet|
    requires Canonical(text, base, alphabet) && |text| > 1
    ensures Canonical(text[..|text| - 1], base, alphabet)
  {
    var init := text[..|text| - 1];
    assert init[0] == text[0];
    assert forall k :: 0 <= k < |init| ==> init[k] == text[k];
  }

  /** The value of a canonical numeral longer than one digit is at least `base`,
      and only the numeral `alphabet[0]` has the value zero. */
  lemma {:induction false} CanonicalValueBound(text: string, base: nat, alphabet: string)
    requires ValidAlphabet(base, alphabet)
    requires Canonical(text, base, alphabet)
    ensures FromBaseN(text, base, alphabet).Ok?
    ensures |text| > 1 ==> FromBaseN(text, base, alphabet).value >= base
    ensures FromBaseN(text, base, alphabet).value >= 1 || text == [alphabet[0]]
    decreases |text|
  {
    var digits := alphabet[..base];
    var init := text[..|text| - 1];
    FromBaseNStep(text, base, alphabet);
    var high := FromBaseN(init, base, alphabet).value;
    var i := IndexOf(digits, text[|text| - 1]);
    if |text| == 1 {
      assert init == [];
      if i == 0 { assert text == [alphabet[0]]; }
    } else {
      CanonicalInit(text, base, alphabet);
      CanonicalValueBound(init, base, alphabet);
      if |init| == 1 {
        assert init[0] == text[0] != digits[0];
        assert init == [init[0]];
      }
      assert high >= 1;
      MulAtLeast(high, base);
    }
  }

  /** Encoding undoes decoding on canonical numerals. */
  lemma {:induction false} ToFromBaseN(text: string, base: nat, alphabet: string)
    requires ValidAlphabet(base, alphabet)
    requires Canonical(text, base, alphabet)
    ensures FromBaseN(text, base, alphabet).Ok?
    ensures ToBaseN(FromBaseN(text, base, alphabet).value, base, alphabet) == text
    decreases |text|
  {
    var digits := alphabet[..base];
    var init := text[..|text| - 1];
    FromBaseNStep(text, base, alphabet);
    var high := FromBaseN(init, base, alphabet).value;
    var i := IndexOf(digits, text[|text| - 1]);
    var v := FromBaseN(text, base, alphabet).value;
    assert v == high * base + i;
    if |text| == 1 {
      assert init == [];
      assert [alphabet[i]] == text;
    } else {
      CanonicalInit(text, base, alphabet);
      ToFromBaseN(init, base, alphabet);
      CanonicalValueBound(text, base, alphabet);
      DivModUnique(high, i, base);
      assert text == init + [alphabet[i]];
    }
  }

  /** `to_base_n` never writes a leading zero digit. */
  lemma {:induction false} ToBaseNCanonical(num: nat, base: nat, alphabet: string)
    requires ValidAlphabet(base, alphabet)
    ensures Canonical(ToBaseN(num, base, alphabet), base, alphabet)
    decreases num
  {
    if num >= base {
      DivModBase(num, base);
      var high := ToBaseN(num / base, base, alphabet);
      ToBaseNCanonical(num / base, base, alphabet);
      if |high| == 1 {
        assert high == [alphabet[num / base]];
        assert alphabet[..base][num / base] != alphabet[..base][0];
      }
      assert ToBaseN(num, base, alphabet)[0] == high[0];
    }
  }

  lemma DefaultAlphabetDistinct()
    ensures |DefaultAlphabet| == 62
    ensures forall base :: 2 <= base <= 62 ==> ValidAlphabet(base, DefaultAlphabet)
  {
    forall i, j | 0 <= i < j < 62 ensures DefaultAlphabet[i] != DefaultAlphabet[j] {
      assert DefaultAlphabet[i] == DigitChar(i) && DefaultAlphabet[j] == DigitChar(j);
    }
  }

  /** The round trip of the default alphabet holds in every base it
      supports (among them 2, 10, 16, 36 and 62), for every value. */
  lemma DefaultRoundTrip(num: nat, base: nat)
    requires 2 <= base <= 62
    ensures FromBaseN(ToBaseN(num, base, DefaultAlphabet), base, DefaultAlphabet) == Ok(num)
  {
    DefaultAlphabetDistinct();
    FromToBaseN(num, base, DefaultAlphabet);
  }

  /** Most significant digit first: 15 in base 16 is "f", 10 in base 2 is "1010". */
  lemma EncodeExamples()
    ensures ToBaseN(15, 16, DefaultAlphabet) == "f"
    ensures ToBaseN(10, 2, DefaultAlphabet) == "1010"
  {
    assert DefaultAlphabet[15] == 'f' && DefaultAlphabet[0] == '0' && DefaultAlphabet[1] == '1';
    assert ToBaseN(5, 2, DefaultAlphabet) == ToBaseN(2, 2, DefaultAlphabet) + "1";
    assert ToBaseN(2, 2, DefaultAlphabet) == "10";
  }

  /** "101" is 5 in base 2 and "deadbeef" is 0xdeadbeef in base 16. */
  lemma DecodeExamples()
    ensures FromBaseN("101", 2, DefaultAlphabet) == Ok(5)
    ensures FromBaseN("deadbeef", 16, DefaultAlphabet) == Ok(0xdeadbeef)
  {
    var a := DefaultAlphabet;
    assert a[0] == '0' && a[1] == '1' && a[10] == 'a' && a[11] == 'b';
    assert a[13] == 'd' && a[14] == 'e' && a[15] == 'f';
    assert ToBaseN(5, 2, a) == "101" by {
      assert ToBaseN(2, 2, a) == "10";
    }
    assert ToBaseN(0xdeadbeef, 16, a) == "deadbeef" by {
      assert ToBaseN(0xd, 16, a) == "d";
      assert ToBaseN(0xde, 16, a) == "de";
      assert ToBaseN(0xdea, 16, a) == "dea";
      assert ToBaseN(0xdead, 16, a) == "dead";
      assert ToBaseN(0xdeadb, 16, a) == "deadb";
      assert ToBaseN(0xdeadbe, 16, a) == "deadbe";
      assert ToBaseN(0xdeadbee, 16, a) == "deadbee";
    }
    DefaultRoundTrip(5, 2);
    DefaultRoundTrip(0xdeadbeef, 16);
  }
}
