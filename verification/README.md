# Treadmill utility helpers in Dafny

This project models the value-level helpers of Treadmill's `treadmill.utils` module:

- the base-N numeral codec (`to_base_n`, `from_base_n`);
- the IPv4 dotted-quad codec (`ip2int`, `int2ip`);
- the unit parsers (`kilobytes`, `size_to_bytes`, `to_seconds`, `cpu_units`);
- the schema validator `validate`, which fills in a dictionary in place;
- the record builder `to_obj`;
- the tail readers (`tail_stream`, `tail`);
- the CPU formatting helpers (`cpu_to_readable`, `cpu_to_cores_readable`);
- the parse step of `report_ready`.

The behaviour modelled here is the behaviour that the assertions of `tests/utils_test.py` pin down. The helpers' own source file is not part of this model. Where the tests are silent, the model makes these choices:

- `to_base_n`/`from_base_n` default to the 62-character alphabet `0-9a-zA-Z`;
- `ip2int` accepts only canonical dotted quads (see `IPv4.Ip2Int` below);
- `validate` fills an absent optional key with `None`, and a bool counts as an int;
- `to_obj` labels nested records with the same type name as the outer one;
- `size_to_bytes` takes upper-case units only, with G worth 1024³ bytes;
- `to_seconds` refuses a count without a unit;
- `to_seconds` and `cpu_units` refuse a signed count (`-3s`, `-10`);
- `report_ready` accepts only a non-negative descriptor number.

Modules:

| file | module | what it holds |
|---|---|---|
| `results.dfy` | `Results` | `Result` (success or error) and `Option` |
| `base_n.dfy` | `BaseN` | `to_base_n`/`from_base_n` over an alphabet prefix |
| `decimal.dfy` | `Decimal` | `str`/`int` on plain decimal numerals, as base 10 over `0123456789` |
| `text.dfy` | `Text` | `str.split` on one character and `str.join` |
| `ipv4.dfy` | `IPv4` | `ip2int`/`int2ip` and octet arithmetic |
| `units.dfy` | `Units` | the four unit parsers |
| `readable.dfy` | `Readable` | `cpu_to_readable`, `cpu_to_cores_readable` |
| `values.dfy` | `Values` | the Python values a dictionary may hold |
| `schema.dfy` | `Schema` | `validate`, as a method of a class holding the dictionary |
| `records.dfy` | `Records` | `to_obj` and attribute lookup |
| `tail.dfy` | `Tail` | `tail_stream`, `tail` |
| `readiness.dfy` | `Readiness` | the notification-file parse of `report_ready` |

Raised exceptions are modelled as `Err` results: `DecodeError`, `FormatError`, the schema's `MissingRequiredField`/`WrongType`, and malformed addresses. The file system seen by `tail` is a map from path to lines. The `notification-fd` file seen by `report_ready` is an optional string. The descriptor writes are returned as a list of effects.

## Model

| member | source | states |
|---|---|---|
| BaseN.ToBaseN | tests/utils_test.py:80-93 | the numeral is never empty (0 is one digit), and every digit is among the first `base` characters of the alphabet |
| BaseN.FromBaseN | tests/utils_test.py:94-102 | decoding succeeds exactly when every character is a digit of the base; on failure it names a character of the text that is not a digit |
| BaseN.FromBaseNLeftmost | tests/utils_test.py:94-102 | the character a failure names is the leftmost one that is not a digit of the base: everything before it is a digit |
| BaseN.FromToBaseN | tests/utils_test.py:80-90 | `from_base_n(to_base_n(n)) == n` for every non-negative `n`, every base and every alphabet whose first `base` characters are distinct |
| BaseN.ToFromBaseN | tests/utils_test.py:80-90 | a canonical numeral (digits only, no leading zero digit) is written back exactly as read: the codec is a bijection between naturals and canonical numerals |
| BaseN.ToBaseNCanonical | tests/utils_test.py:80-93 | `to_base_n` only produces canonical numerals |
| BaseN.DefaultRoundTrip | tests/utils_test.py:80-90 | with the default 62-character alphabet, the round trip holds in every base from 2 to 62, so also in 2, 10, 16, 36 and 62 and beyond 2^53 |
| BaseN.EncodeExamples | tests/utils_test.py:92-93 | 15 in base 16 is `f`; 10 in base 2 is `1010` |
| BaseN.DecodeExamples | tests/utils_test.py:95-102 | `101` in base 2 is 5; `deadbeef` in base 16 is 0xdeadbeef |
| Decimal.NatToString | tests/utils_test.py:104-116 | `str(n)` of a natural is one or more ASCII digits |
| Decimal.IntToString | tests/utils_test.py:153-161 | `str(i)` ends in a digit and starts with `-` exactly when `i` is negative |
| Decimal.ParseNat | tests/utils_test.py:163-166 | an unsigned numeral is accepted exactly when it is one or more ASCII digits |
| Decimal.ParseInt | tests/utils_test.py:153-161 | a signed numeral is accepted exactly when it is digits with an optional leading `+` or `-` |
| Decimal.ParseNatToString | tests/utils_test.py:163-166 | reading back a written natural gives the same natural |
| Decimal.NatToStringParse | tests/utils_test.py:104-116 | a numeral without a superfluous leading zero is written back exactly as read |
| Decimal.ParseIntToString | tests/utils_test.py:153-161 | reading back a written integer, negative ones included, gives the same integer |
| Text.Split | tests/utils_test.py:104-116 | `str.split` on one character gives at least one piece, and no piece contains the separator |
| Text.Join | tests/utils_test.py:104-116 | `str.join` of one or more pieces starts with the first piece; `Text.JoinSplit` and `Text.SplitJoin` make it the inverse of `Text.Split` |
| Text.JoinSplit | tests/utils_test.py:104-116 | joining the pieces of a split text at the separator gives the text back |
| Text.SplitJoin | tests/utils_test.py:104-116 | splitting a join of separator-free pieces gives the pieces back |
| IPv4.Ip2Int | tests/utils_test.py:104-106 | an address is accepted exactly when it is four dot-separated canonical decimal octets of at most 255; its value is below 2^32 and weights octet 1 most (big-endian) |
| IPv4.Int2Ip | tests/utils_test.py:108-116 | a value is written as an address exactly when it is in 0 .. 2^32-1 |
| IPv4.FromOctets | tests/utils_test.py:104-106 | four octets pack below 2^32, octet 1 most significant; `IPv4.OctetsOfFromOctets` and `IPv4.FromOctetsOf` make it the inverse of `IPv4.OctetsOf` |
| IPv4.OctetsOf | tests/utils_test.py:108-116 | a value unpacks into exactly four octets, each below 256 |
| IPv4.OctetsOfFromOctets | tests/utils_test.py:104-116 | packing four octets and unpacking the result gives the octets back |
| IPv4.FromOctetsOf | tests/utils_test.py:104-116 | unpacking a 32-bit value and packing its octets gives the value back |
| IPv4.Ip2IntInt2Ip | tests/utils_test.py:108-116 | `ip2int(int2ip(v)) == v` for every 32-bit value |
| IPv4.Int2IpIp2Int | tests/utils_test.py:108-116 | `int2ip(ip2int(s)) == s` for every accepted address |
| IPv4.IncrementCarries | tests/utils_test.py:108-113 | adding one to a packed address carries into the next octet exactly when the lower octets are all 255 |
| IPv4.DecrementBorrows | tests/utils_test.py:108-116 | subtracting one borrows from the next octet exactly when the lower octets are all 0 |
| IPv4.BigEndianExample | tests/utils_test.py:104-106 | `64.233.187.99` is 0x40E9BB63, and back |
| IPv4.NeighbourExample | tests/utils_test.py:108-110 | the neighbours of `192.168.100.1` are `192.168.100.2` and `192.168.100.0` |
| IPv4.CarryExample | tests/utils_test.py:112-113 | `192.168.100.255` + 1 is `192.168.101.0` |
| IPv4.BorrowExample | tests/utils_test.py:115-116 | `192.168.100.0` - 1 is `192.168.99.255` |
| Records.ToObj | tests/utils_test.py:118-139 | a dictionary becomes a record with the given label and the same keys, a list a list of the same length, and nothing else changes; `Records.FromToObj` and `Records.ToObjWellFormed` state what is kept at every depth |
| Records.Attr | tests/utils_test.py:118-139 | attribute lookup succeeds exactly on a record that has the key |
| Records.ToObjAttributes | tests/utils_test.py:118-123 | spells out `to_obj` on a dictionary for attribute lookup: every key becomes an attribute holding its converted value, and there are no others (what conversion keeps is `Records.FromToObj`) |
| Records.ToObjList | tests/utils_test.py:125-128 | spells out `to_obj` on a list: a list of the same length and order, converted element by element (what conversion keeps is `Records.FromToObj`) |
| Records.FromToObj | tests/utils_test.py:118-139 | conversion loses nothing: the record stands for exactly the original value, at every depth |
| Records.ToObjWellFormed | tests/utils_test.py:130-139 | every dictionary at any depth, including inside lists, becomes a record; only other values pass through |
| Records.ToObjFlatExample | tests/utils_test.py:125-128 | `{'a': 1, 'b': [1, 2, 3], 'c': 3}` has `a == 1`, `b == [1, 2, 3]`, `c == 3` |
| Records.ToObjNestedExample | tests/utils_test.py:130-133 | a nested dictionary gives `obj.b.d == 5` |
| Records.ToObjListExample | tests/utils_test.py:135-139 | a dictionary inside a list gives `obj.a[1].d == 5`, with its neighbours unchanged |
| Units.Kilobytes | tests/utils_test.py:141-151 | a result exists only for text ending in K, M or G, either case, after a signed numeral |
| Units.KilobytesOfNumeral | tests/utils_test.py:141-151 | every integer with unit K, M or G in either case is read as the integer times 1, 1024 or 1024² kilobytes |
| Units.KilobytesCaseInsensitive | tests/utils_test.py:143-151 | the case of the unit letter never changes the result |
| Units.KilobytesRequiresUnit | tests/utils_test.py:141-151 | a numeral without a unit is refused |
| Units.KilobytesExamples | tests/utils_test.py:143-145 | `10K` and `10k` are 10; `10` is refused |
| Units.KilobytesMegaExamples | tests/utils_test.py:147-148 | `10M` and `10m` are 10*1024 |
| Units.KilobytesGigaExamples | tests/utils_test.py:150-151 | `10G` and `10g` are 10*1024*1024 |
| Units.SizeToBytes | tests/utils_test.py:153-158 | an int, or text that reads as a signed integer, comes back unchanged |
| Units.SizeToBytesOfNumeral | tests/utils_test.py:155-158 | every bare signed numeral comes back as its value, sign kept |
| Units.SizeToBytesOfScaled | tests/utils_test.py:159-161 | every signed numeral with unit K, M or G is scaled by 1024, 1024² or 1024³, sign kept |
| Units.ScaleRatio | tests/utils_test.py:141-161 | each upper-case unit is worth 1024 times as much in bytes as in kilobytes |
| Units.SizeToBytesVersusKilobytes | tests/utils_test.py:141-161 | on a numeral with an upper-case unit, `size_to_bytes` gives exactly 1024 times what `kilobytes` gives |
| Units.SizeToBytesExamples | tests/utils_test.py:155-158 | `10`, `-10` as ints or text come back unchanged |
| Units.SizeToBytesScaledExamples | tests/utils_test.py:159-161 | `10K` is 10*1024, `-10K` is -10*1024, `-10M` is -10*1024*1024 |
| Units.CpuUnits | tests/utils_test.py:163-166 | a count is accepted exactly when what remains after dropping one trailing `%` is an unsigned numeral |
| Units.CpuUnitsPercentOptional | tests/utils_test.py:163-166 | every count reads the same with or without a trailing `%` |
| Units.CpuUnitsExamples | tests/utils_test.py:165-166 | `10%` and `10` are 10 |
| Units.ToSeconds | tests/utils_test.py:198-204 | a result exists only for a text of at least two characters ending in s, m, h or d |
| Units.ToSecondsOfNumeral | tests/utils_test.py:198-204 | every count followed by s, m, h or d is that count times 1, 60, 3600 or 86400 |
| Units.ToSecondsRequiresUnit | tests/utils_test.py:198-204 | a count without a unit is refused |
| Units.SignedCountsRefused | tests/utils_test.py:198-204 | a count written with a sign is refused by `to_seconds` and by `cpu_units`, whatever follows it |
| Units.ToSecondsExamples | tests/utils_test.py:200-204 | `0s` is 0, `3s` is 3, `3m` is 180, `2h` is 7200, `3d` is 259200 |
| Schema.Validated | tests/utils_test.py:168-196 | validation, passing or failing, never drops a key; the `Schema.Validated*` lemmas below state what it adds and when it passes |
| Schema.Struct.Validate | tests/utils_test.py:168-196 | the outcome and the dictionary left behind are what validating entry by entry, in schema order, gives from the original dictionary |
| Schema.ValidatedOnlyFillsOptional | tests/utils_test.py:170-177 | validation, passing or failing, only adds keys: present keys keep their values, and every added key is an optional schema entry set to None |
| Schema.ValidatedPassIff | tests/utils_test.py:168-196 | with distinct names, validation passes exactly when every entry is present and well typed, or absent and optional |
| Schema.ValidatedWellTypedUnchanged | tests/utils_test.py:179-181 | a dictionary with every schema key present and well typed passes and is left unchanged |
| Schema.ValidatedPassHasAllKeys | tests/utils_test.py:170-177 | after a pass, every schema key is present |
| Schema.ValidatedFailureNamesEntry | tests/utils_test.py:183-196 | a failure names a schema entry: a required key that is missing, or a key whose value has the wrong type |
| Readable.CpuToReadable | tests/utils_test.py:236 | the readable form starts with `-` exactly for negative counts; `Readable.CpuToReadableRoundTrip` and `Readable.GroupShape` state what it holds |
| Readable.CpuToCoresReadable | tests/utils_test.py:237 | the cores form starts with `-` exactly for negative counts; `Readable.HundredthsValue` and `Readable.CoresReadableValue` state what it holds |
| Readable.RemoveCommasGroup | tests/utils_test.py:236 | taking the separators out of a grouped numeral gives the plain numeral back |
| Readable.GroupShape | tests/utils_test.py:236 | the first group has one to three digits and starts with the numeral's first digit, and every later group has exactly three |
| Readable.CpuToReadableRoundTrip | tests/utils_test.py:236 | reading the readable form, without its separators, gives the share count back, negative counts included; after the sign, the form starts with a zero only for 0 |
| Readable.HundredthsValue | tests/utils_test.py:237 | the cores form splits at its point into whole cores and exactly two decimals, which together give the share count back; the whole cores have no leading zero |
| Readable.CoresReadableValue | tests/utils_test.py:237 | the cores form starts with a minus exactly for negative counts, and its unsigned part reads back as the count's magnitude, with no leading zero on the whole cores |
| Readable.CpuToReadableExample | tests/utils_test.py:236 | 2310 reads `2,310` |
| Readable.CpuToCoresReadableExample | tests/utils_test.py:237 | 2310 reads `23.10` |
| Tail.TailStream | tests/utils_test.py:239-258 | the result is the last `min(n, number of lines)` lines, in their original order, with `n` 10 by default |
| Tail.Tail | tests/utils_test.py:260-270 | the tail of an existing file is the last `min(n, number of lines)` lines; a missing file gives no lines |
| Readiness.LStrip | tests/utils_test.py:291-297 | the result is a suffix that does not start with whitespace, and only whitespace was dropped; whitespace is Python's `str.isspace` set, Unicode spaces included |
| Readiness.RStrip | tests/utils_test.py:291-297 | the result is a prefix that does not end with whitespace, and only whitespace was dropped; whitespace is Python's `str.isspace` set |
| Readiness.Strip | tests/utils_test.py:291-297 | the stripped text is no longer than the original and neither starts nor ends with whitespace |
| Readiness.StripPadded | tests/utils_test.py:291-297 | stripping takes off exactly the whitespace around a text that neither starts nor ends with whitespace |
| Readiness.ReportReady | tests/utils_test.py:272-283 | no notification file means no effect; any effects are one write to a descriptor followed by closing that same descriptor |
| Readiness.ReportReadyNotifies | tests/utils_test.py:285-297 | a descriptor number with any surrounding whitespace, in Python's sense, is written to once and then closed |
| Readiness.ReportReadyRefuses | tests/utils_test.py:272-297 | content that is not a non-negative number once stripped is refused, and nothing is written |
| Readiness.ReportReadyExamples | tests/utils_test.py:285-297 | `300` and `300\n` both give one write to descriptor 300, then its close |
| Readiness.ReportReadyNoBreakSpace | tests/utils_test.py:285-297 | `300` followed by a no-break space also gives one write to descriptor 300, then its close |

## Left out

- `treadmill/rest/api/app_monitor.py`: route registration for a web framework that delegates to an implementation object that is not part of this model. It has no logic of its own.
- `create_script`: it writes a file from a template and sets its permission bits. This is file-system I/O. The modes in its tests, 33261 and 33060, are the regular-file modes 0o100755 and 0o100444.
- `make_signal_flag`: asynchronous signal delivery is concurrency.
- `report_ready`: reading `notification-fd` from the working directory, `os.write` and `os.close` are I/O. The file's content is a parameter, and the write and close are returned as effects.
- `find_in_path`: it depends on the `PATH` environment variable and the file system's executable bits.
- `bytes_to_readable`: it divides with floating point and formats a float to one decimal.
- `to_yaml`: the output is the external YAML library's behaviour.
- `tail_stream`'s backward seeking in fixed-size blocks is file I/O. The model walks a sequence of terminator-bearing lines backwards, one line at a time.
- Tail.Tail: the file system is a map from path to lines. Open and read errors other than a missing file are not modelled.
- IPv4.Ip2Int: only canonical dotted quads are accepted. The lenient forms of `inet_aton` are refused: fewer than four parts, octal or hexadecimal parts, and leading zeros.
- IPv4.Int2Ip: refusing a value outside 0 .. 2^32-1 is a choice of this model. An implementation that shifts and masks would wrap such a value instead, giving `0.0.0.0` for 2^32. That wrap-around is not modelled.
- Decimal.ParseInt: plain ASCII numerals only. Python's `int()` also accepts surrounding whitespace, underscores between digits and non-ASCII digits. The same holds for `Decimal.ParseNat` as used by `Units.CpuUnits`, `Units.ToSeconds` and `Readiness.ReportReady`.
- Units.SizeToBytes: accepting upper-case unit letters only is a choice of this model. The tests use only upper-case units. Unlike `kilobytes`, it refuses lower-case units.
- Readable.CpuToCoresReadable: it is written with integer division into whole cores and hundredths. The float division and rounding an implementation may use are not modelled. The model gives the exact hundredths. A float-dividing implementation can differ in the last digit for very large counts: 7036874417766401 shares would come out as `70368744177664.02` instead of `70368744177664.01`.
- Schema.Struct.Validate: the result is returned as an outcome value rather than raised. The placeholder filled in for an absent optional key is `None`. As in `isinstance`, a bool counts as an int.
- Units.ToSeconds: refusing a signed count such as `-3s` is a choice of this model. Python's `int()` would accept the sign. The tests use only unsigned counts.
- Units.CpuUnits: refusing a signed count such as `-10` is a choice of this model. Python's `int()` would accept the sign. The tests use only unsigned counts.
- Units.ToSecondsRequiresUnit: refusing a count without a unit is a choice of this model. The tests only cover counts with a unit.
- Records.ToObj: Python's namedtuple restrictions on field names, such as identifiers only and no leading underscore, are not modelled. Nested records carry the same type label as the outer one.
- Readiness.ReportReady: refusing content that is not a non-negative number after stripping is a choice of this model. The tests use only `300`. Python's `int()` would also accept a sign there.
