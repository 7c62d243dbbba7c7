/** IPv4 addresses as dotted quads and as unsigned 32-bit integers
    (`ip2int`, `int2ip`): octet 1 is the most significant byte, as in the
    32-bit address fields of section 3.1 of RFC 791. */
module IPv4 {
  import opened Results
  import opened Decimal
  import Text
  import BaseN

  datatype AddressError = MalformedAddress(text: string) | OutOfRange(value: int)

  const AddressSpace: nat := 0x1_0000_0000

  /** One octet of a dotted quad: a decimal numeral of at most 255 written
      without a superfluous leading zero. */
  ghost predicate OctetText(t: string) {
    |t| >= 1 && AllDigits(t) && (|t| > 1 ==> t[0] != '0') && ParseNat(t).value <= 255
  }

  ghost predicate DottedQuad(s: string) {
    var parts := Text.Split(s, '.');
    |parts| == 4 && forall i :: 0 <= i < 4 ==> OctetText(parts[i])
  }

  /** The address whose octets, most significant first, are `a.b.c.d`. */
  function FromOctets(a: nat, b: nat, c: nat, d: nat): (v: nat)
    ensures a < 256 && b < 256 && c < 256 && d < 256 ==> v < AddressSpace
  {
    a * 0x100_0000 + b * 0x1_0000 + c * 0x100 + d
  }

  /** The four octets of a 32-bit value, most significant first. */
  function OctetsOf(v: nat): (o: seq<nat>)
    ensures |o| == 4 && forall i :: 0 <= i < 4 ==> o[i] < 256
  {
    [v / 0x100_0000 % 0x100, v / 0x1_0000 % 0x100, v / 0x100 % 0x100, v % 0x100]
  }

  /** `ip2int`: the big-endian value of a dotted quad; any other text is malformed. */
  function Ip2Int(s: string): (r: Result<nat, AddressError>)
    ensures r.Ok? <==> DottedQuad(s)
    ensures r.Ok? ==> r.value < AddressSpace
    ensures r.Ok? ==> var parts := Text.Split(s, '.');
      r.value == FromOctets(ParseNat(parts[0]).value, ParseNat(parts[1]).value,
                            ParseNat(parts[2]).value, ParseNat(parts[3]).value)
  {
    var parts := Text.Split(s, '.');
    if |parts| == 4 && forall i :: 0 <= i < 4 ==> OctetOk(parts[i]) then
      Ok(FromOctets(ParseNat(parts[0]).value, ParseNat(parts[1]).value,
                    ParseNat(parts[2]).value, ParseNat(parts[3]).value))
    else Err(MalformedAddress(s))
  }

  /** The executable test behind `OctetText`. */
  predicate OctetOk(t: string)
    ensures OctetOk(t) <==> OctetText(t)
  {
    ParseNat(t).Ok? && (|t| > 1 ==> t[0] != '0') && ParseNat(t).value <= 255
  }

  /** `int2ip`: the dotted quad of a value. This model refuses values
      outside 0 .. 2^32 - 1 rather than wrapping them. */
  function Int2Ip(v: int): (r: Result<string, AddressError>)
    ensures r.Ok? <==> 0 <= v < AddressSpace
  {
    if 0 <= v < AddressSpace then
      var o := OctetsOf(v);
      Ok(Text.Join([NatToString(o[0]), NatToString(o[1]), NatToString(o[2]), NatToString(o[3])], '.'))
    else Err(OutOfRange(v))
  }

  /** Packing octets and unpacking them are inverse to each other. */
  lemma OctetsOfFromOctets(a: nat, b: nat, c: nat, d: nat)
    requires a < 256 && b < 256 && c < 256 && d < 256
    ensures FromOctets(a, b, c, d) < AddressSpace
    ensures OctetsOf(FromOctets(a, b, c, d)) == [a, b, c, d]
  {
    var v := FromOctets(a, b, c, d);
    var abc := a * 0x1_0000 + b * 0x100 + c;
    var ab := a * 0x100 + b;
    BaseN.DivModUnique(abc, d, 0x100);
    BaseN.DivModUnique(ab, c * 0x100 + d, 0x1_0000);
    BaseN.DivModUnique(a, b * 0x1_0000 + c * 0x100 + d, 0x100_0000);
    BaseN.DivModUnique(ab, c, 0x100);
    BaseN.DivModUnique(a, b, 0x100);
    BaseN.DivModUnique(0, a, 0x100);
  }

  lemma FromOctetsOf(v: nat)
    requires v < AddressSpace
    ensures var o := OctetsOf(v); FromOctets(o[0], o[1], o[2], o[3]) == v
  {
    var o := OctetsOf(v);
    var q1, q2, q3 := v / 0x100, v / 0x1_0000, v / 0x100_0000;
    assert v == q1 * 0x100 + o[3];
    assert q2 == q1 / 0x100 && q1 == q2 * 0x100 + o[2];
    assert q3 == q2 / 0x100 && q2 == q3 * 0x100 + o[1];
    assert q3 == o[0];
  }

  lemma OctetOfNat(n: nat)
    requires n <= 255
    ensures OctetText(NatToString(n)) && ParseNat(NatToString(n)) == Ok(n)
    ensures '.' !in NatToString(n)
  {
    ParseNatToString(n);
    NatToStringNoLeadingZero(n);
  }

  /** `ip2int(int2ip(v)) == v` for every 32-bit value. */
  lemma Ip2IntInt2Ip(v: int)
    requires 0 <= v < AddressSpace
    ensures Ip2Int(Int2Ip(v).value) == Ok(v)
  {
    var o := OctetsOf(v);
    var parts := [NatToString(o[0]), NatToString(o[1]), NatToString(o[2]), NatToString(o[3])];
    OctetOfNat(o[0]); OctetOfNat(o[1]); OctetOfNat(o[2]); OctetOfNat(o[3]);
    var s := Text.Join(parts, '.');
    assert Int2Ip(v) == Ok(s);
    Text.SplitJoin(parts, '.');
    assert forall i :: 0 <= i < 4 ==> OctetOk(parts[i]);
    FromOctetsOf(v);
  }

  /** `int2ip(ip2int(s)) == s` for every address `ip2int` accepts. */
  lemma Int2IpIp2Int(s: string)
    requires Ip2Int(s).Ok?
    ensures Int2Ip(Ip2Int(s).value) == Ok(s)
  {
    var parts := Text.Split(s, '.');
    assert OctetText(parts[0]) && OctetText(parts[1]) && OctetText(parts[2]) && OctetText(parts[3]);
    NatToStringParse(parts[0]);
    NatToStringParse(parts[1]);
    NatToStringParse(parts[2]);
    NatToStringParse(parts[3]);
    var a, b, c, d := ParseNat(parts[0]).value, ParseNat(parts[1]).value, ParseNat(parts[2]).value, ParseNat(parts[3]).value;
    Int2IpJoin(a, b, c, d);
    assert parts == [parts[0], parts[1], parts[2], parts[3]];
    Text.JoinSplit(s, '.');
  }

  /** Adding one to a packed address carries into the next octet exactly
      when the low octet was 255, as ordinary base-256 arithmetic does. */
  lemma IncrementCarries(a: nat, b: nat, c: nat, d: nat)
    requires a < 256 && b < 256 && c < 256 && d < 256
    requires FromOctets(a, b, c, d) + 1 < AddressSpace
    ensures OctetsOf(FromOctets(a, b, c, d) + 1) ==
      if d < 255 then [a, b, c, d + 1]
      else if c < 255 then [a, b, c + 1, 0]
      else if b < 255 then [a, b + 1, 0, 0]
      else [a + 1, 0, 0, 0]
  {
    if d < 255 {
      OctetsOfFromOctets(a, b, c, d + 1);
    } else if c < 255 {
      OctetsOfFromOctets(a, b, c + 1, 0);
    } else if b < 255 {
      OctetsOfFromOctets(a, b + 1, 0, 0);
    } else {
      OctetsOfFromOctets(a + 1, 0, 0, 0);
    }
  }

  /** Subtracting one borrows from the next octet exactly when the low octet was 0. */
  lemma DecrementBorrows(a: nat, b: nat, c: nat, d: nat)
    requires a < 256 && b < 256 && c < 256 && d < 256
    requires FromOctets(a, b, c, d) >= 1
    ensures OctetsOf(FromOctets(a, b, c, d) - 1) ==
      if d > 0 then [a, b, c, d - 1]
      else if c > 0 then [a, b, c - 1, 255]
      else if b > 0 then [a, b - 1, 255, 255]
      else [a - 1, 255, 255, 255]
  {
    if d > 0 {
      OctetsOfFromOctets(a, b, c, d - 1);
    } else if c > 0 {
      OctetsOfFromOctets(a, b, c - 1, 255);
    } else if b > 0 {
      OctetsOfFromOctets(a, b - 1, 255, 255);
    } else {
      OctetsOfFromOctets(a - 1, 255, 255, 255);
    }
  }

  lemma JoinQuad(p: seq<string>)
    requires |p| == 4
    ensures Text.Join(p, '.') == p[0] + "." + p[1] + "." + p[2] + "." + p[3]
  {
    assert p[2..][1..] == p[3..] && p[1..][1..] == p[2..];
    calc {
      Text.Join(p, '.');
      p[0] + "." + Text.Join(p[1..], '.');
      p[0] + "." + (p[1] + "." + Text.Join(p[2..], '.'));
      p[0] + "." + (p[1] + "." + (p[2] + "." + Text.Join(p[3..], '.')));
      p[0] + "." + (p[1] + "." + (p[2] + "." + p[3]));
    }
  }

  lemma Int2IpOctets(a: nat, b: nat, c: nat, d: nat)
    requires a < 256 && b < 256 && c < 256 && d < 256
    ensures Int2Ip(FromOctets(a, b, c, d)) ==
      Ok(NatToString(a) + "." + NatToString(b) + "." + NatToString(c) + "." + NatToString(d))
  {
    Int2IpJoin(a, b, c, d);
    JoinQuad([NatToString(a), NatToString(b), NatToString(c), NatToString(d)]);
  }

  lemma Int2IpJoin(a: nat, b: nat, c: nat, d: nat)
    requires a < 256 && b < 256 && c < 256 && d < 256
    ensures Int2Ip(FromOctets(a, b, c, d)) ==
      Ok(Text.Join([NatToString(a), NatToString(b), NatToString(c), NatToString(d)], '.'))
  {
    OctetsOfFromOctets(a, b, c, d);
  }

  lemma OctetNumerals()
    ensures NatToString(0) == "0" && NatToString(64) == "64" && NatToString(233) == "233"
    ensures NatToString(187) == "187" && NatToString(99) == "99" && NatToString(192) == "192"
    ensures NatToString(168) == "168" && NatToString(100) == "100" && NatToString(255) == "255"
    ensures NatToString(101) == "101" && NatToString(1) == "1" && NatToString(2) == "2"
  {
  }

  /** The dotted quad of `a.b.c.d` is read back as that address. */
  lemma Ip2IntOctets(a: nat, b: nat, c: nat, d: nat)
    requires a < 256 && b < 256 && c < 256 && d < 256
    ensures Ip2Int(NatToString(a) + "." + NatToString(b) + "." + NatToString(c) + "." + NatToString(d))
         == Ok(FromOctets(a, b, c, d))
  {
    Int2IpOctets(a, b, c, d);
    Ip2IntInt2Ip(FromOctets(a, b, c, d));
  }

  /** Four octet numerals, joined by dots, and the address of those octets
      are each other's images under both conversions. */
  lemma QuadNumerals(a: nat, b: nat, c: nat, d: nat, sa: string, sb: string, sc: string, sd: string)
    requires a < 256 && b < 256 && c < 256 && d < 256
    requires NatToString(a) == sa && NatToString(b) == sb && NatToString(c) == sc && NatToString(d) == sd
    ensures Ip2Int(sa + "." + sb + "." + sc + "." + sd) == Ok(FromOctets(a, b, c, d))
    ensures Int2Ip(FromOctets(a, b, c, d)) == Ok(sa + "." + sb + "." + sc + "." + sd)
  {
    Int2IpOctets(a, b, c, d);
    Ip2IntOctets(a, b, c, d);
  }

  /** 64.233.187.99 is 0x40E9BB63 (octet 1 is the most significant byte). */
  lemma BigEndianExample()
    ensures Ip2Int("64.233.187.99") == Ok(0x40E9BB63)
    ensures Int2Ip(0x40E9BB63) == Ok("64.233.187.99")
  {
    assert "64.233.187.99" == "64" + "." + "233" + "." + "187" + "." + "99";
    OctetNumerals();
    QuadNumerals(64, 233, 187, 99, "64", "233", "187", "99");
  }

  /** 192.168.100.1 has neighbours 192.168.100.2 and 192.168.100.0. */
  lemma NeighbourExample()
    ensures Ip2Int("192.168.100.1").Ok?
    ensures Int2Ip(Ip2Int("192.168.100.1").value + 1) == Ok("192.168.100.2")
    ensures Int2Ip(Ip2Int("192.168.100.1").value - 1) == Ok("192.168.100.0")
  {
    assert "192.168.100.1" == "192" + "." + "168" + "." + "100" + "." + "1";
    assert "192.168.100.2" == "192" + "." + "168" + "." + "100" + "." + "2";
    assert "192.168.100.0" == "192" + "." + "168" + "." + "100" + "." + "0";
    OctetNumerals();
    QuadNumerals(192, 168, 100, 1, "192", "168", "100", "1");
    QuadNumerals(192, 168, 100, 2, "192", "168", "100", "2");
    QuadNumerals(192, 168, 100, 0, "192", "168", "100", "0");
  }

  /** 192.168.100.255 + 1 is 192.168.101.0: the carry crosses into octet 3. */
  lemma CarryExample()
    ensures Ip2Int("192.168.100.255").Ok?
    ensures Int2Ip(Ip2Int("192.168.100.255").value + 1) == Ok("192.168.101.0")
  {
    assert "192.168.100.255" == "192" + "." + "168" + "." + "100" + "." + "255";
    assert "192.168.101.0" == "192" + "." + "168" + "." + "101" + "." + "0";
    OctetNumerals();
    QuadNumerals(192, 168, 100, 255, "192", "168", "100", "255");
    QuadNumerals(192, 168, 101, 0, "192", "168", "101", "0");
  }

  /** 192.168.100.0 - 1 is 192.168.99.255: the borrow crosses into octet 3. */
  lemma BorrowExample()
    ensures Ip2Int("192.168.100.0").Ok?
    ensures Int2Ip(Ip2Int("192.168.100.0").value - 1) == Ok("192.168.99.255")
  {
    assert "192.168.100.0" == "192" + "." + "168" + "." + "100" + "." + "0";
    assert "192.168.99.255" == "192" + "." + "168" + "." + "99" + "." + "255";
    OctetNumerals();
    QuadNumerals(192, 168, 100, 0, "192", "168", "100", "0");
    QuadNumerals(192, 168, 99, 255, "192", "168", "99", "255");
  }
}
