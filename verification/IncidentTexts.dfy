/** The texts of an incident, which leave in a snapshot beside its events and are not scrubbed. */
module IncidentTexts {
  import opened ByteStrings
  import opened HttpText
  import opened Incidents
  import opened IOEvents
  import opened Options
  import opened Redact
  import opened ReplayConfig

  /** None of the redactor's rules matches in the text. */
  ghost predicate AllClean(s: Bytes) {
    forall r :: r in RULES ==> Clean(r, s)
  }

  lemma WithoutInitialsAllClean(s: Bytes)
    requires WithoutInitials(s)
    ensures AllClean(s)
  {
    forall r | r in RULES
      ensures Clean(r, s)
    {
      WithoutInitialsClean(s, r);
    }
  }

  // ---------- a lead that begins no match ----------

  lemma SplitsShift(r: Rule, lead: Bytes, s: Bytes, p: int, x: int, e: int)
    requires 0 <= p
    ensures Splits(r, lead + s, |lead| + p, |lead| + x, |lead| + e) <==> Splits(r, s, p, x, e)
  {
    var t := lead + s;
    AtBytes(t, r.literal, |lead| + p);
    AtBytes(s, r.literal, p);
    assert forall k :: 0 <= k < |s| ==> t[|lead| + k] == s[k];
    assert forall k :: |lead| <= k < |t| ==> t[k] == s[k - |lead|];
  }

  /** A text without a rule's first bytes in front of another makes no match in it and takes none away. */
  lemma LeadAddsNothing(lead: Bytes, s: Bytes)
    requires WithoutInitials(lead)
    ensures AllClean(lead + s) <==> AllClean(s)
  {
    forall r | r in RULES
      ensures Clean(r, lead + s) <==> Clean(r, s)
    {
      LeadMakesNoMatch(r, lead, s);
      LeadKeepsMatch(r, lead, s);
    }
  }

  lemma LeadKeepsMatch(r: Rule, lead: Bytes, s: Bytes)
    ensures Clean(r, lead + s) ==> Clean(r, s)
  {
    forall p: nat | Matches(r, s, p)
      ensures Matches(r, lead + s, |lead| + p)
    {
      var e, x :| Splits(r, s, p, x, e);
      SplitsShift(r, lead, s, p, x, e);
      assert Match(r, lead + s, |lead| + p, |lead| + e);
    }
  }

  lemma LeadMakesNoMatch(r: Rule, lead: Bytes, s: Bytes)
    requires r in RULES && WithoutInitials(lead)
    ensures Clean(r, s) ==> Clean(r, lead + s)
  {
    forall p: nat | Matches(r, lead + s, p)
      ensures p >= |lead| && Matches(r, s, p - |lead|)
    {
      var e, x :| Splits(r, lead + s, p, x, e);
      BeginsInitial(r, lead + s, p, x, e);
      SplitsShift(r, lead, s, p - |lead|, x - |lead|, e - |lead|);
      assert Match(r, s, p - |lead|, e - |lead|);
    }
  }

  lemma BeginsInitial(r: Rule, s: Bytes, p: nat, x: int, e: int)
    requires r in RULES && Splits(r, s, p, x, e)
    ensures p < |s| && IsInitial(s[p])
  {
    var k :| 0 <= k < |RULES| && RULES[k] == r;
    Initials(k);
    AtBytes(s, r.literal, p);
  }

  // ---------- the texts ----------

  /** What is assumed of number printing: it writes no capital B or C. */
  ghost predicate PrintsNumbers(num: Numbers) {
    forall n :: WithoutInitials(num.print10(n))
  }

  lemma DefaultsClean()
    ensures WithoutInitials(NO_CAUSE) && WithoutInitials(NO_STEP)
    ensures AllClean(NO_CAUSE) && AllClean(NO_STEP) && AllClean("")
  {
    WithoutInitialsAllClean(NO_CAUSE);
    WithoutInitialsAllClean(NO_STEP);
    WithoutInitialsAllClean("");
  }

  lemma SecondByte(r: Rule)
    requires r in RULES
    ensures |r.literal| > 1 && (r.literal[0] == 'C' ==> r.literal[1] == 'o')
  {
    assert BEARER.literal[0] == BASIC.literal[0] == 'B' && COOKIE.literal[1] == 'o';
  }

  /** A capital C that begins no "Cookie:" makes no match either. */
  lemma CapitalClean(s: Bytes)
    requires |s| > 1 && s[0] == 'C' && s[1] != 'o' && forall i :: 1 <= i < |s| ==> !IsInitial(s[i])
    ensures AllClean(s)
  {
    forall r, p: nat, x, e | r in RULES && Splits(r, s, p, x, e)
      ensures false
    {
      BeginsInitial(r, s, p, x, e);
      SecondByte(r);
      AtBytes(s, r.literal, p);
    }
  }

  /** No title has a match. */
  lemma TitleClean(num: Numbers, status: int)
    requires PrintsNumbers(num)
    ensures AllClean(Title(num, status)) && AllClean(NO_TITLE)
  {
    var title := Title(num, status);
    var digits := num.print10(status);
    assert WithoutInitials(digits);
    if status >= 500 {
      var lead: Bytes := "Server error: HTTP ";
      assert forall i :: 0 <= i < |title| ==> title[i] == if i < |lead| then lead[i] else digits[i - |lead|];
      WithoutInitialsAllClean(title);
    } else {
      var lead: Bytes := "Client error: HTTP ";
      assert forall i :: 0 <= i < |title| ==> title[i] == if i < |lead| then lead[i] else digits[i - |lead|];
      CapitalClean(title);
    }
    CapitalClean(NO_TITLE);
  }

  /** The summary has a match exactly if the failed step in it has one. */
  lemma SummaryClean(num: Numbers, count: nat, step: Bytes)
    requires PrintsNumbers(num)
    ensures AllClean(Summary(num, count, step)) <==> AllClean(step)
  {
    var opening: Bytes, closing: Bytes := "Local capture with ", " events. ";
    var digits := num.print10(count);
    var lead := opening + digits + closing;
    assert WithoutInitials(digits) && WithoutInitials(opening) && WithoutInitials(closing);
    assert forall i :: 0 <= i < |lead| ==>
      lead[i] == if i < |opening| then opening[i]
                 else if i < |opening + digits| then digits[i - |opening|] else closing[i - |opening + digits|];
    LeadAddsNothing(lead, step);
    assert Summary(num, count, step) == lead + step;
  }

  /** Everything that is exported of an incident is clean. */
  ghost predicate IncidentClean(incident: Incident) {
    && AllClean(incident.title) && AllClean(incident.summary) && AllClean(incident.rootCause)
    && AllClean(incident.failedStep)
    && forall x :: x in incident.services ==> AllClean(x)
  }

  /** The failing response that an incident is about, if there is one. */
  function CulpritOf(num: Numbers, events: seq<IOEvent>): Option<Reading>
    requires AllWellFormed(events)
  {
    var readings := ReadingsOf(num, events);
    match Culprit(readings, |readings|)
    case None => None
    case Some(i) => Some(readings[i])
  }

  /**
    Text for text: when a rule matches in what is exported of an incident.  The title
    never has a match; the root cause, the failed step and the summary have one exactly
    if the header text, or the first line as it is cut, of the failing response has one;
    and the services if a process name without spaces has one.
   */
  lemma IncidentCleanIff(num: Numbers, events: seq<IOEvent>)
    requires AllWellFormed(events) && events != [] && PrintsNumbers(num)
    ensures
      var incident := IncidentOf(num, events).value;
      var culprit := CulpritOf(num, events);
      && AllClean(incident.title)
      && (AllClean(incident.rootCause) <==> (culprit.Some? ==> AllClean(culprit.value.detail)))
      && (AllClean(incident.failedStep) <==> (culprit.Some? ==> AllClean(culprit.value.step)))
      && (AllClean(incident.summary) <==> (culprit.Some? ==> AllClean(culprit.value.step)))
      && ((forall x :: x in incident.services ==> AllClean(x))
          <==> forall i :: 0 <= i < |events| && IsService(TrimZeros(events[i].comm)) ==>
            AllClean(TrimZeros(events[i].comm)))
  {
    DefaultsClean();
    var culprit := CulpritOf(num, events);
    TitleClean(num, if culprit.Some? then culprit.value.status else 0);
    SummaryClean(num, |events|, if culprit.Some? then culprit.value.step else NO_STEP);
    ServicesClean(events);
  }

  lemma ServicesClean(events: seq<IOEvent>)
    ensures (forall x :: x in ServicesIn(events) ==> AllClean(x))
      <==> forall i :: 0 <= i < |events| && IsService(TrimZeros(events[i].comm)) ==> AllClean(TrimZeros(events[i].comm))
  {
    forall x
      ensures x in ServicesIn(events)
        <==> IsService(x) && exists i :: 0 <= i < |events| && TrimZeros(events[i].comm) == x
    {
      ServicesAre(events, x);
    }
  }

  // ---------- texts that have a match ----------

  const BLANK_LINE: Bytes := "\r\n\r\n"

  /** Header lines as they stand between the first line of a message and the blank line. */
  predicate HeaderText(header: Bytes) {
    Trim(header) == header && !Contains(header, BLANK_LINE)
  }

  lemma HeaderTextEnds(header: Bytes, body: Bytes)
    requires HeaderText(header)
    ensures Before(header + BLANK_LINE + body, BLANK_LINE) == header
  {
    var s := header + BLANK_LINE + body;
    assert s[|header|..|header| + 4] == BLANK_LINE;
    assert At(s, BLANK_LINE, |header|);
    forall k | 0 <= k < |header|
      ensures !At(s, BLANK_LINE, k)
    {
      AtBytes(s, BLANK_LINE, k);
      AtBytes(header, BLANK_LINE, k);
      assert !At(header, BLANK_LINE, k);
      assert !IsBlank(header[|header| - 1]) && s[|header| - 1] == header[|header| - 1];
      assert k < |header| < k + 4 ==> IsBlank(BLANK_LINE[|header| - 1 - k]);
    }
  }

  function StatusLine(version: Bytes, code: Bytes, phrase: Bytes): Bytes {
    version + (" " + (code + (" " + phrase)))
  }

  function Response(line: Bytes, header: Bytes, body: Bytes): Bytes {
    line + CRLF + (header + BLANK_LINE + body)
  }

  predicate StatusParts(version: Bytes, code: Bytes, phrase: Bytes) {
    IsToken(version) && HasPrefix(version, "HTTP/") && IsToken(code) && '\r' !in phrase && '\n' !in phrase
  }

  lemma StatusLineWords(version: Bytes, code: Bytes, phrase: Bytes)
    requires StatusParts(version, code, phrase)
    ensures
      var line := StatusLine(version, code, phrase);
      && '\r' !in line && '\n' !in line && HasPrefix(line, "HTTP/")
      && Fields(line) == [version] + ([code] + Fields(phrase))
  {
    FieldsStep(code, phrase);
    FieldsStep(version, code + (" " + phrase));
    assert forall k :: 0 <= k < |version| ==> !IsBlank(version[k]);
    assert forall k :: 0 <= k < |code| ==> !IsBlank(code[k]);
    assert '\r' !in version && '\n' !in version && '\r' !in code && '\n' !in code;
  }

  lemma FirstLineFound(line: Bytes, more: Bytes)
    requires '\r' !in line && '\n' !in line
    ensures
      var v := line + CRLF + more;
      Index(v, CRLF) == Some(|line|) && v[..|line|] == line && v[|line| + 2..] == more
  {
    FirstBreakAfter(line, more);
  }

  /** Status, header text and first line of a response as it is captured. */
  lemma ReadingOfResponse(
      num: Numbers, e: IOEvent, version: Bytes, code: Bytes, phrase: Bytes, header: Bytes, body: Bytes)
    requires e.WellFormed() && e.isWrite == READ && num.scan(code).Some?
    requires StatusParts(version, code, phrase) && HeaderText(header)
    requires e.View() == Response(StatusLine(version, code, phrase), header, body)
    ensures ReadingOf(num, e) == Reading(num.scan(code).value, header, SummarizePayload(e.View()))
    ensures Before(e.View(), CRLF) == StatusLine(version, code, phrase)
  {
    var line := StatusLine(version, code, phrase);
    StatusLineWords(version, code, phrase);
    FirstLineFound(line, header + BLANK_LINE + body);
    HeaderTextEnds(header, body);
    assert Fields(line)[1] == code;
  }

  /** Event `i` is the failing response the incident is about, and reads like this. */
  ghost predicate CulpritReads(
      num: Numbers, events: seq<IOEvent>, i: nat,
      version: Bytes, code: Bytes, phrase: Bytes, header: Bytes, body: Bytes)
    requires AllWellFormed(events)
  {
    && Culprit(ReadingsOf(num, events), |events|) == Some(i)
    && num.scan(code).Some? && StatusParts(version, code, phrase) && HeaderText(header)
    && events[i].View() == Response(StatusLine(version, code, phrase), header, body)
  }

  lemma TextsOfCulprit(
      num: Numbers, events: seq<IOEvent>, i: nat,
      version: Bytes, code: Bytes, phrase: Bytes, header: Bytes, body: Bytes)
    requires AllWellFormed(events) && CulpritReads(num, events, i, version, code, phrase, header, body)
    ensures i < |events| && IncidentOf(num, events).Some?
    ensures
      var incident := IncidentOf(num, events).value;
      var line := StatusLine(version, code, phrase);
      var status := num.scan(code).value;
      && incident.title
         == (if status >= 500 then "Server error: HTTP " else "Client error: HTTP ") + num.print10(status)
      && incident.rootCause == (if header == "" then NO_CAUSE else header)
      && incident.failedStep == (if |line| > 120 then line[..120] + "..." else line)
      && incident.summary
         == "Local capture with " + num.print10(|events|) + " events. " + incident.failedStep
  {
    var readings := ReadingsOf(num, events);
    assert readings[i] == ReadingOf(num, events[i]) && events[i].isWrite == READ;
    ReadingOfResponse(num, events[i], version, code, phrase, header, body);
  }

  /** Without a failing response among the reads all texts are the default ones. */
  lemma TextsWithoutCulprit(num: Numbers, events: seq<IOEvent>)
    requires AllWellFormed(events) && events != []
    requires forall i :: 0 <= i < |events| && events[i].isWrite == 0 ==> ReadingOf(num, events[i]).status < 400
    ensures IncidentOf(num, events).Some?
    ensures
      var incident := IncidentOf(num, events).value;
      && incident.title == "Captured incident"
      && incident.rootCause == "See event timeline" + " for failing request/response"
      && incident.failedStep == "See highlighted error event in timeline"
  {
    var readings := ReadingsOf(num, events);
    CulpritIs(readings, |readings|);
  }

  /**
    For every incident about a response that sets a cookie, among whatever header
    lines, the cookie stands in the root cause.
   */
  lemma CookieInRootCause(
      num: Numbers, events: seq<IOEvent>, i: nat, version: Bytes, code: Bytes, phrase: Bytes,
      before: Bytes, cookie: Bytes, body: Bytes)
    requires AllWellFormed(events) && cookie != [] && !IsBlank(cookie[0])
    requires CulpritReads(num, events, i, version, code, phrase, before + "Set-Cookie: " + cookie, body)
    ensures IncidentOf(num, events).Some?
    ensures IncidentOf(num, events).value.rootCause == before + "Set-Cookie: " + cookie
    ensures Matches(COOKIE, IncidentOf(num, events).value.rootCause, |before| + 4)
  {
    var header := before + "Set-Cookie: " + cookie;
    TextsOfCulprit(num, events, i, version, code, phrase, header, body);
    SetCookieMatches(before, cookie);
  }

  lemma SetCookieMatches(before: Bytes, cookie: Bytes)
    requires cookie != [] && !IsBlank(cookie[0])
    ensures Matches(COOKIE, before + "Set-Cookie: " + cookie, |before| + 4)
  {
    var header := before + "Set-Cookie: " + cookie;
    var p, x := |before| + 4, |before| + 12;
    assert header[p..p + 7] == COOKIE.literal && header[p + 7] == ' ' && header[x] == cookie[0];
    assert Splits(COOKIE, header, p, x, x + 1);
    assert Match(COOKIE, header, p, x + 1);
  }

  /** What a cut line keeps. */
  lemma StepKeepsStart(line: Bytes, n: nat)
    requires n <= |line| && n <= 120
    ensures
      var step := if |line| > 120 then line[..120] + "..." else line;
      n <= |step| && step[..n] == line[..n]
  {}

  /**
    A reason phrase that names a credential stands in the failed step and in the
    summary; without header text the root cause is clean all the same.
   */
  lemma BasicInFailedStep(
      num: Numbers, events: seq<IOEvent>, i: nat, version: Bytes, code: Bytes, secret: Bytes, body: Bytes)
    requires AllWellFormed(events) && PrintsNumbers(num) && |version| + |code| <= 100
    requires secret != [] && !IsBlank(secret[0])
    requires CulpritReads(num, events, i, version, code, "Basic " + secret, "", body)
    ensures IncidentOf(num, events).Some? && AllClean(IncidentOf(num, events).value.rootCause)
    ensures Matches(BASIC, IncidentOf(num, events).value.failedStep, |version| + |code| + 2)
    ensures !AllClean(IncidentOf(num, events).value.summary)
  {
    TextsOfCulprit(num, events, i, version, code, "Basic " + secret, "", body);
    DefaultsClean();
    var step := IncidentOf(num, events).value.failedStep;
    StepKeepsStart(StatusLine(version, code, "Basic " + secret), |version| + |code| + 9);
    BasicMatches(version, code, secret, step);
    SummaryClean(num, |events|, step);
    assert !Clean(BASIC, step) && BASIC in RULES;
  }

  lemma BasicMatches(version: Bytes, code: Bytes, secret: Bytes, step: Bytes)
    requires secret != [] && !IsBlank(secret[0])
    requires
      var p := |version| + |code| + 2;
      p + 7 <= |step| && step[..p + 7] == StatusLine(version, code, "Basic " + secret)[..p + 7]
    ensures Matches(BASIC, step, |version| + |code| + 2)
  {
    var line := StatusLine(version, code, "Basic " + secret);
    var p := |version| + |code| + 2;
    assert line == (version + " " + code + " ") + ("Basic " + secret);
    assert forall k :: 0 <= k < p + 7 ==> step[k] == step[..p + 7][k] == line[k];
    assert line[p..] == "Basic " + secret && line[p..][6] == secret[0];
    assert forall k :: p <= k < p + 7 ==> step[k] == ("Basic " + secret)[k - p];
    AtBytes(step, BASIC.literal, p);
    assert Splits(BASIC, step, p, p + 6, p + 7);
    assert Match(BASIC, step, p, p + 7);
  }
}
