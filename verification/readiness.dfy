/** The parse step of `report_ready`: the supervisor names, in a file called
    `notification-fd` in the working directory, a descriptor to which the
    service writes one byte and which it then closes. The file's presence
    and content are parameters; the effects come back as a list. */
module Readiness {
  import opened Results
  import opened Decimal

  datatype Effect = WriteByte(fd: nat) | Close(fd: nat)

  datatype ReadyError = BadDescriptor(content: string)

  /** Python's whitespace (`str.isspace`), which `strip()` and `int()`
      remove: the ASCII blanks and separators, NEL, no-break space and the
      Unicode space and line/paragraph separators. */
  predicate IsSpace(c: char) {
    || c == ' ' || '\t' <= c <= '\r' || '\U{001C}' <= c <= '\U{001F}'
    || c == '\U{0085}' || c == '\U{00A0}' || c == '\U{1680}'
    || '\U{2000}' <= c <= '\U{200A}' || c == '\U{2028}' || c == '\U{2029}'
    || c == '\U{202F}' || c == '\U{205F}' || c == '\U{3000}'
  }

  /** `s.lstrip()`: `s` from its first non-whitespace character on. */
  function LStrip(s: string): (r: string)
    ensures |r| <= |s| && r == s[|s| - |r|..]
    ensures r != [] ==> !IsSpace(r[0])
    ensures forall i :: 0 <= i < |s| - |r| ==> IsSpace(s[i])
    decreases |s|
  {
    if s != [] && IsSpace(s[0]) then
      var r := LStrip(s[1..]);
      assert forall i :: 1 <= i < |s| - |r| ==> s[i] == s[1..][i - 1];
      r
    else s
  }

  /** `s.rstrip()`: `s` up to its last non-whitespace character. */
  function RStrip(s: string): (r: string)
    ensures |r| <= |s| && r == s[..|r|]
    ensures r != [] ==> !IsSpace(r[|r| - 1])
    ensures forall i :: |r| <= i < |s| ==> IsSpace(s[i])
    decreases |s|
  {
    if s != [] && IsSpace(s[|s| - 1]) then
      var r := RStrip(s[..|s| - 1]);
      assert forall i :: |r| <= i < |s| - 1 ==> s[i] == s[..|s| - 1][i];
      r
    else s
  }

  /** `s.strip()`: `s` without its leading and trailing whitespace. */
  function Strip(s: string): (r: string)
    ensures |r| <= |s|
    ensures r != [] ==> !IsSpace(r[0]) && !IsSpace(r[|r| - 1])
  {
    RStrip(LStrip(s))
  }

  /** `report_ready`: no file means the service is not supervised and nothing
      happens; otherwise the stripped content is the descriptor number, which
      gets one byte written to it and is then closed. Content that is not a
      non-negative decimal number is refused. */
  function ReportReady(notificationFile: Option<string>): (r: Result<seq<Effect>, ReadyError>)
    ensures notificationFile.None? ==> r == Ok([])
    ensures r.Ok? && r.value != [] ==> |r.value| == 2 && r.value[0].WriteByte? && r.value[1] == Close(r.value[0].fd)
  {
    match notificationFile
    case None => Ok([])
    case Some(content) =>
      match ParseNat(Strip(content))
      case Ok(fd) => Ok([WriteByte(fd), Close(fd)])
      case Err(_) => Err(BadDescriptor(content))
  }

  ghost predicate AllSpace(s: string) {
    forall i :: 0 <= i < |s| ==> IsSpace(s[i])
  }

  lemma {:induction false} LStripPadded(lead: string, s: string)
    requires AllSpace(lead) && (s == [] || !IsSpace(s[0]))
    ensures LStrip(lead + s) == s
    decreases |lead|
  {
    if lead == [] {
      assert lead + s == s;
    } else {
      assert (lead + s)[1..] == lead[1..] + s;
      LStripPadded(lead[1..], s);
    }
  }

  lemma {:induction false} RStripPadded(s: string, trail: string)
    requires AllSpace(trail) && (s == [] || !IsSpace(s[|s| - 1]))
    ensures RStrip(s + trail) == s
    decreases |trail|
  {
    if trail == [] {
      assert s + trail == s;
    } else {
      var shorter := trail[..|trail| - 1];
      assert (s + trail)[..|s + trail| - 1] == s + shorter;
      RStripPadded(s, shorter);
    }
  }

  /** Stripping takes off exactly the whitespace around a text that neither
      starts nor ends with whitespace, whatever that whitespace is. */
  lemma StripPadded(lead: string, s: string, trail: string)
    requires AllSpace(lead) && AllSpace(trail)
    requires s != [] && !IsSpace(s[0]) && !IsSpace(s[|s| - 1])
    ensures Strip(lead + s + trail) == s
  {
    assert lead + s + trail == lead + (s + trail);
    LStripPadded(lead, s + trail);
    RStripPadded(s, trail);
  }

  /** A descriptor number written in decimal, with or without whitespace
      around it such as a trailing newline, is written to once and then
      closed. */
  lemma ReportReadyNotifies(fd: nat, lead: string, trail: string)
    requires AllSpace(lead) && AllSpace(trail)
    ensures ReportReady(Some(lead + NatToString(fd) + trail)) == Ok([WriteByte(fd), Close(fd)])
  {
    var numeral := NatToString(fd);
    assert IsDigit(numeral[0]) && IsDigit(numeral[|numeral| - 1]);
    StripPadded(lead, numeral, trail);
    ParseNatToString(fd);
  }

  /** Content that is not a descriptor number once stripped (empty,
      blank, signed or not numeric) is refused, and nothing is written. */
  lemma ReportReadyRefuses(content: string)
    requires !AllDigits(Strip(content)) || Strip(content) == []
    ensures ReportReady(Some(content)) == Err(BadDescriptor(content))
  {
  }

  /** `ReportReadyNotifies` for a numeral and content given as text. */
  lemma ReportReadyNumeral(fd: nat, numeral: string, lead: string, trail: string, content: string)
    requires NatToString(fd) == numeral && content == lead + numeral + trail
    requires AllSpace(lead) && AllSpace(trail)
    ensures ReportReady(Some(content)) == Ok([WriteByte(fd), Close(fd)])
  {
    ReportReadyNotifies(fd, lead, trail);
  }

  lemma Numeral300()
    ensures NatToString(300) == "300"
  {
  }

  /** "300" or "300\n": one write to descriptor 300, then its close. */
  lemma ReportReadyExamples(content: string)
    requires content == "300" || content == "300\n"
    ensures ReportReady(Some(content)) == Ok([WriteByte(300), Close(300)])
  {
    Numeral300();
    if content == "300" {
      ReportReadyNumeral(300, "300", [], [], content);
    } else {
      ReportReadyNumeral(300, "300", [], "\n", content);
    }
  }

  /** Whitespace is Python's, not only ASCII: a no-break space after the
      number is stripped as well. */
  lemma ReportReadyNoBreakSpace(content: string)
    requires content == "300\U{00A0}"
    ensures ReportReady(Some(content)) == Ok([WriteByte(300), Close(300)])
  {
    Numeral300();
    ReportReadyNumeral(300, "300", [], "\U{00A0}", content);
  }
}
