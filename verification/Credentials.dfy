/** The redactor's rules in terms of texts: which texts they match, and what becomes of these. */
module Credentials {
  import opened ByteStrings
  import opened Options
  import opened Redact

  // ---------- where each rule matches ----------

  predicate White(c: byte) {
    c in {' ', '\t', '\n', '\r', '\U{0C}'}
  }

  predicate LineBreak(c: byte) {
    c in {'\r', '\n'}
  }

  /** A stretch of white space, possibly none. */
  predicate Blank(s: Bytes, lo: int, hi: int) {
    0 <= lo <= hi <= |s| && forall k :: lo <= k < hi ==> White(s[k])
  }

  /** Bearer, one or more spaces, and something that is none. */
  lemma BearerMatchesIff(s: Bytes, p: nat)
    ensures Matches(BEARER, s, p)
      <==> At(s, "Bearer", p) && exists x :: p + 6 < x < |s| && Blank(s, p + 6, x) && !White(s[x])
  {
    if At(s, "Bearer", p) && exists x :: p + 6 < x < |s| && Blank(s, p + 6, x) && !White(s[x]) {
      var x :| p + 6 < x < |s| && Blank(s, p + 6, x) && !White(s[x]);
      WordMatches(BEARER, s, p, x);
    } else if Matches(BEARER, s, p) {
      var x := WordMatched(BEARER, s, p);
    }
  }

  /** Basic, one or more spaces, and something that is none. */
  lemma BasicMatchesIff(s: Bytes, p: nat)
    ensures Matches(BASIC, s, p)
      <==> At(s, "Basic", p) && exists x :: p + 5 < x < |s| && Blank(s, p + 5, x) && !White(s[x])
  {
    if At(s, "Basic", p) && exists x :: p + 5 < x < |s| && Blank(s, p + 5, x) && !White(s[x]) {
      var x :| p + 5 < x < |s| && Blank(s, p + 5, x) && !White(s[x]);
      WordMatches(BASIC, s, p, x);
    } else if Matches(BASIC, s, p) {
      var x := WordMatched(BASIC, s, p);
    }
  }

  /** Cookie and a colon, any spaces or none, and something that is no line break. */
  lemma CookieMatchesIff(s: Bytes, p: nat)
    ensures Matches(COOKIE, s, p)
      <==> At(s, "Cookie:", p) && exists x :: p + 7 <= x < |s| && Blank(s, p + 7, x) && !LineBreak(s[x])
  {
    if At(s, "Cookie:", p) && exists x :: p + 7 <= x < |s| && Blank(s, p + 7, x) && !LineBreak(s[x]) {
      var x :| p + 7 <= x < |s| && Blank(s, p + 7, x) && !LineBreak(s[x]);
      assert forall k :: p + 7 <= k < x ==> IsSpace(s[k]);
      assert Splits(COOKIE, s, p, x, x + 1);
      assert Match(COOKIE, s, p, x + 1);
    } else if Matches(COOKIE, s, p) {
      var x := CookieMatched(s, p);
    }
  }

  lemma CookieMatched(s: Bytes, p: nat) returns (x: int)
    requires Matches(COOKIE, s, p)
    ensures At(s, "Cookie:", p) && p + 7 <= x < |s| && Blank(s, p + 7, x) && !LineBreak(s[x])
  {
    var e :| Match(COOKIE, s, p, e);
    x :| Splits(COOKIE, s, p, x, e);
  }

  lemma WordMatches(r: Rule, s: Bytes, p: nat, x: int)
    requires (r == BEARER || r == BASIC) && At(s, r.literal, p)
    requires p + |r.literal| < x < |s| && Blank(s, p + |r.literal|, x) && !White(s[x])
    ensures Matches(r, s, p)
  {
    assert forall k :: p + |r.literal| <= k < x ==> IsSpace(s[k]);
    assert Splits(r, s, p, x, x + 1);
    assert Match(r, s, p, x + 1);
  }

  lemma WordMatched(r: Rule, s: Bytes, p: nat) returns (x: int)
    requires (r == BEARER || r == BASIC) && Matches(r, s, p)
    ensures At(s, r.literal, p) && p + |r.literal| < x < |s|
    ensures Blank(s, p + |r.literal|, x) && !White(s[x])
  {
    var e :| Match(r, s, p, e);
    x :| Splits(r, s, p, x, e);
  }

  /** So without a space behind it neither word is a match. */
  lemma NoSpaceNoMatch(s: Bytes, p: nat)
    ensures p + 6 < |s| && !White(s[p + 6]) ==> !Matches(BEARER, s, p)
    ensures p + 5 < |s| && !White(s[p + 5]) ==> !Matches(BASIC, s, p)
  {
    BearerMatchesIff(s, p);
    BasicMatchesIff(s, p);
  }

  // ---------- a text with one place where a rule can begin ----------

  function Stars(n: nat): (s: Bytes)
    ensures |s| == n && forall k :: 0 <= k < n ==> s[k] == '*'
  {
    seq(n, _ => '*')
  }

  /** No capital B or C anywhere but at `p`. */
  predicate OnlyAt(s: Bytes, p: int) {
    forall q :: 0 <= q < |s| && q != p ==> !IsInitial(s[q])
  }

  lemma ApartDiffer(spans: seq<Span>, a: nat, b: nat)
    requires Apart(spans) && a < b < |spans| && spans[a].start < spans[a].end
    ensures spans[a] != spans[b]
  {
    assert spans[a].end <= spans[b].start;
  }

  lemma FoundOnce(r: Rule, s: Bytes, p: nat, e: nat)
    requires r in RULES && OnlyAt(s, p) && MatchAt(r, s, p) == Some(e)
    ensures FindAll(r, s) == [Span(p, e)]
  {
    var spans := FindAll(r, s);
    FindAllSpec(r, s);
    FoundApart(r, s);
    MatchAtSound(r, s, p);
    forall k | 0 <= k < |spans|
      ensures spans[k] == Span(p, e)
    {
      assert Selectable(Ends(r, s), 0, spans[k]);
      StartsInitial(r, s, spans[k].start);
    }
    assert Matches(r, s, p);
    if |spans| > 1 {
      ApartDiffer(spans, 0, 1);
    }
  }

  lemma StartsInitial(r: Rule, s: Bytes, p: nat)
    requires r in RULES && MatchAt(r, s, p).Some?
    ensures p < |s| && IsInitial(s[p])
  {
    var k :| 0 <= k < |RULES| && RULES[k] == r;
    Initials(k);
    AtBytes(s, r.literal, p);
  }

  /** At one place only one rule matches. */
  lemma OneRuleOnly(j: nat, k: nat, s: Bytes, p: nat)
    requires j < |RULES| && k < |RULES| && j != k && At(s, RULES[k].literal, p)
    ensures !At(s, RULES[j].literal, p)
  {
    AtBytes(s, RULES[j].literal, p);
    AtBytes(s, RULES[k].literal, p);
    assert BEARER.literal[0] == BASIC.literal[0] == 'B' && COOKIE.literal[0] == 'C';
    assert BEARER.literal[1] == 'e' && BASIC.literal[1] == 'a';
  }

  lemma OthersClean(j: nat, k: nat, s: Bytes, p: nat)
    requires j < |RULES| && k < |RULES| && j != k && At(s, RULES[k].literal, p) && OnlyAt(s, p)
    ensures Clean(RULES[j], s)
  {
    OneRuleOnly(j, k, s, p);
    Initials(j);
    forall q: nat, x, e
      ensures !Splits(RULES[j], s, q, x, e)
    {
      AtBytes(s, RULES[j].literal, q);
    }
  }

  lemma StaysOneMore(rules: seq<Rule>, n: nat, s: Bytes, t: Bytes, log: seq<Entry>)
    requires 0 < n <= |rules| && ScrubBy(rules, n - 1, s) == (t, log) && Clean(rules[n - 1], t)
    ensures ScrubBy(rules, n, s) == (t, log)
  {
    CleanFindsNothing(rules[n - 1], t);
    var none: seq<Entry> := [];
    assert Starred(t, []) == t && EntriesOf(rules[n - 1], []) == none && log + none == log;
  }

  lemma OneSpanStarred(s: Bytes, p: nat, e: nat)
    requires p < e <= |s|
    ensures Starred(s, [Span(p, e)]) == s[..p] + Stars(e - p) + s[e..]
  {
    var spans := [Span(p, e)];
    forall i | 0 <= i < |s|
      ensures Covered(spans, i) <==> p <= i < e
    {
      assert spans[0].Has(i) <==> p <= i < e;
    }
  }

  lemma OneEntry(r: Rule, p: nat, e: nat)
    requires p < e
    ensures EntriesOf(r, [Span(p, e)]) == [Entry(p, e - p, r)]
  {
    assert [Span(p, e)][..0] == [];
  }

  lemma NextPass(rules: seq<Rule>, n: nat, s: Bytes, t: Bytes, log: seq<Entry>, spans: seq<Span>)
    requires n < |rules| && ScrubBy(rules, n, s) == (t, log) && FindAll(rules[n], t) == spans
    ensures ScrubBy(rules, n + 1, s) == (Starred(t, spans), log + EntriesOf(rules[n], spans))
  {}

  lemma PassFinds(k: nat, s: Bytes, p: nat, e: nat)
    requires k < |RULES| && OnlyAt(s, p) && MatchAt(RULES[k], s, p) == Some(e)
    ensures ScrubBy(RULES, k + 1, s) == (Starred(s, [Span(p, e)]), [] + EntriesOf(RULES[k], [Span(p, e)]))
  {
    NothingEarlier(k, s, p);
    FoundOnce(RULES[k], s, p, e);
    NextPass(RULES, k, s, s, [], [Span(p, e)]);
  }

  lemma PassOver(k: nat, s: Bytes, p: nat, e: nat)
    requires k < |RULES| && OnlyAt(s, p) && MatchAt(RULES[k], s, p) == Some(e)
    ensures p < e <= |s|
    ensures ScrubBy(RULES, k + 1, s) == (s[..p] + Stars(e - p) + s[e..], [Entry(p, e - p, RULES[k])])
  {
    MatchAtSound(RULES[k], s, p);
    OneSpanStarred(s, p, e);
    OneEntry(RULES[k], p, e);
    var log := [Entry(p, e - p, RULES[k])];
    assert [] + log == log;
    PassFinds(k, s, p, e);
    Rewritten(RULES, k + 1, s, Starred(s, [Span(p, e)]), [] + log, s[..p] + Stars(e - p) + s[e..], log);
  }

  lemma Rewritten(
      rules: seq<Rule>, n: nat, s: Bytes, t: Bytes, log: seq<Entry>, same: Bytes, sameLog: seq<Entry>)
    requires n <= |rules| && ScrubBy(rules, n, s) == (t, log) && t == same && log == sameLog
    ensures ScrubBy(rules, n, s) == (same, sameLog)
  {}

  lemma NothingEarlier(k: nat, s: Bytes, p: nat)
    requires k < |RULES| && OnlyAt(s, p) && At(s, RULES[k].literal, p)
    ensures ScrubBy(RULES, k, s) == (s, [])
  {
    forall j | 0 <= j < k
      ensures Clean(RULES[j], s)
    {
      OthersClean(j, k, s, p);
    }
    CleanStays(RULES, k, s);
  }

  /** When nothing matches any more the remaining passes change nothing. */
  lemma StaysToEnd(k: nat, s: Bytes, t: Bytes, log: seq<Entry>)
    requires k < |RULES| && ScrubBy(RULES, k + 1, s) == (t, log)
    requires Clean(BASIC, t) && Clean(COOKIE, t)
    ensures Scrubbed(s) == t && ScrubLog(s) == log
  {
    if k == 0 {
      StaysOneMore(RULES, 2, s, t, log);
    }
    if k <= 1 {
      StaysOneMore(RULES, 3, s, t, log);
    }
  }

  lemma StarredIsClean(s: Bytes, p: nat, e: nat)
    requires p < e <= |s| && OnlyAt(s, p)
    ensures
      var t := s[..p] + Stars(e - p) + s[e..];
      Clean(BASIC, t) && Clean(COOKIE, t)
  {
    var t := s[..p] + Stars(e - p) + s[e..];
    assert forall i :: 0 <= i < |t| ==> t[i] == if p <= i < e then '*' else s[i];
    WithoutInitialsClean(t, BASIC);
    WithoutInitialsClean(t, COOKIE);
  }

  /** The match is overwritten and logged; nothing else is. */
  lemma AloneScrubbed(k: nat, s: Bytes, p: nat, e: nat)
    requires k < |RULES| && OnlyAt(s, p) && MatchAt(RULES[k], s, p) == Some(e)
    ensures p < e <= |s|
    ensures Scrubbed(s) == s[..p] + Stars(e - p) + s[e..]
    ensures ScrubLog(s) == [Entry(p, e - p, RULES[k])]
  {
    PassOver(k, s, p, e);
    StarredIsClean(s, p, e);
    StaysToEnd(k, s, s[..p] + Stars(e - p) + s[e..], [Entry(p, e - p, RULES[k])]);
  }

  // ---------- the texts ----------

  /** The end of a match that spaces, if any, separate from its literal. */
  lemma MatchEndsAt(r: Rule, s: Bytes, p: nat, x: nat, e: nat)
    requires r in RULES && At(s, r.literal, p) && p + |r.literal| + r.gap <= x < e <= |s|
    requires AllSpace(s, p + |r.literal|, x) && !IsSpace(s[x])
    requires NoStop(r, s, x, e) && (e < |s| ==> r.Stops(s[e]))
    ensures MatchAt(r, s, p) == Some(e)
  {
    SpaceEndIs(s, p + |r.literal|, x);
    StopFreeIs(r, s, x, e);
  }

  /** Where the parts of such a text are. */
  lemma PartsAt(lead: Bytes, word: Bytes, blanks: Bytes, value: Bytes, rest: Bytes)
    ensures
      var s := lead + word + blanks + value + rest;
      var x := |lead| + |word| + |blanks|;
      && s[..|lead|] == lead && At(s, word, |lead|) && s[x + |value|..] == rest
      && (forall k :: |lead| + |word| <= k < x ==> s[k] == blanks[k - |lead| - |word|])
      && (forall k :: x <= k < x + |value| ==> s[k] == value[k - x])
  {
    var s := lead + word + blanks + value + rest;
    assert s[|lead|..|lead| + |word|] == word;
  }

  lemma PartsOnlyAt(lead: Bytes, word: Bytes, blanks: Bytes, value: Bytes, rest: Bytes)
    requires WithoutInitials(lead) && WithoutInitials(value) && WithoutInitials(rest)
    requires word != [] && WithoutInitials(word[1..])
    requires forall i :: 0 <= i < |blanks| ==> White(blanks[i])
    ensures OnlyAt(lead + word + blanks + value + rest, |lead|)
  {
    var s := lead + word + blanks + value + rest;
    assert word == [word[0]] + word[1..];
    forall q | 0 <= q < |s| && q != |lead|
      ensures !IsInitial(s[q])
    {
      var a, b, c, d := |lead|, |lead| + |word|, |lead| + |word| + |blanks|, |lead| + |word| + |blanks| + |value|;
      assert s[q] == if q < a then lead[q] else if q < b then word[1..][q - a - 1]
                     else if q < c then blanks[q - b] else if q < d then value[q - c] else rest[q - d];
    }
  }

  lemma WordQuiet(k: nat)
    requires k < |RULES|
    ensures RULES[k].literal != [] && WithoutInitials(RULES[k].literal[1..])
  {
    Initials(k);
  }

  /** The credential: a word with spaces behind it, and then all up to the next space. */
  predicate IsCredential(blanks: Bytes, token: Bytes, rest: Bytes) {
    && blanks != [] && (forall k :: 0 <= k < |blanks| ==> White(blanks[k]))
    && token != [] && (forall k :: 0 <= k < |token| ==> !White(token[k]))
    && (rest != [] ==> White(rest[0]))
  }

  /** A text of the shape all rules have is scrubbed like this, whichever rule it is. */
  lemma TextScrubbed(k: nat, lead: Bytes, blanks: Bytes, value: Bytes, rest: Bytes)
    requires k < |RULES| && RULES[k].gap <= |blanks| && forall i :: 0 <= i < |blanks| ==> White(blanks[i])
    requires value != [] && !White(value[0]) && forall i :: 0 <= i < |value| ==> !RULES[k].Stops(value[i])
    requires rest != [] ==> RULES[k].Stops(rest[0])
    requires WithoutInitials(lead) && WithoutInitials(value) && WithoutInitials(rest)
    ensures
      var word := RULES[k].literal;
      var n := |word| + |blanks| + |value|;
      var s := lead + word + blanks + value + rest;
      Scrubbed(s) == lead + Stars(n) + rest && ScrubLog(s) == [Entry(|lead|, n, RULES[k])]
  {
    var r := RULES[k];
    var s := lead + r.literal + blanks + value + rest;
    var e := |lead| + |r.literal| + |blanks| + |value|;
    WordQuiet(k);
    PartsOnlyAt(lead, r.literal, blanks, value, rest);
    TextMatch(r, lead, blanks, value, rest);
    AloneScrubbed(k, s, |lead|, e);
    PartsAt(lead, r.literal, blanks, value, rest);
  }

  lemma TextMatch(r: Rule, lead: Bytes, blanks: Bytes, value: Bytes, rest: Bytes)
    requires r in RULES && r.gap <= |blanks| && forall i :: 0 <= i < |blanks| ==> White(blanks[i])
    requires value != [] && !White(value[0]) && forall i :: 0 <= i < |value| ==> !r.Stops(value[i])
    requires rest != [] ==> r.Stops(rest[0])
    ensures MatchAt(r, lead + r.literal + blanks + value + rest, |lead|)
      == Some(|lead| + |r.literal| + |blanks| + |value|)
  {
    var s := lead + r.literal + blanks + value + rest;
    var x := |lead| + |r.literal| + |blanks|;
    PartsAt(lead, r.literal, blanks, value, rest);
    assert s[x] == value[0];
    assert rest != [] ==> s[x + |value|] == s[x + |value|..][0] == rest[0];
    MatchEndsAt(r, s, |lead|, x, x + |value|);
  }

  /** "Bearer", spaces and a token: overwritten to the end of the token and logged, nothing else touched. */
  lemma BearerScrubbed(lead: Bytes, blanks: Bytes, token: Bytes, rest: Bytes)
    requires IsCredential(blanks, token, rest)
    requires WithoutInitials(lead) && WithoutInitials(token) && WithoutInitials(rest)
    ensures
      var n := 6 + |blanks| + |token|;
      var s := lead + "Bearer" + blanks + token + rest;
      Scrubbed(s) == lead + Stars(n) + rest && ScrubLog(s) == [Entry(|lead|, n, BEARER)]
  {
    TextScrubbed(0, lead, blanks, token, rest);
  }

  /** The same for "Basic". */
  lemma BasicScrubbed(lead: Bytes, blanks: Bytes, token: Bytes, rest: Bytes)
    requires IsCredential(blanks, token, rest)
    requires WithoutInitials(lead) && WithoutInitials(token) && WithoutInitials(rest)
    ensures
      var n := 5 + |blanks| + |token|;
      var s := lead + "Basic" + blanks + token + rest;
      Scrubbed(s) == lead + Stars(n) + rest && ScrubLog(s) == [Entry(|lead|, n, BASIC)]
  {
    TextScrubbed(1, lead, blanks, token, rest);
  }

  /** "Cookie:", spaces or none, and a value: overwritten to the end of the line and logged, nothing else touched. */
  lemma CookieScrubbed(lead: Bytes, blanks: Bytes, value: Bytes, rest: Bytes)
    requires forall k :: 0 <= k < |blanks| ==> White(blanks[k])
    requires value != [] && !White(value[0]) && forall k :: 0 <= k < |value| ==> !LineBreak(value[k])
    requires rest != [] ==> LineBreak(rest[0])
    requires WithoutInitials(lead) && WithoutInitials(value) && WithoutInitials(rest)
    ensures
      var n := 7 + |blanks| + |value|;
      var s := lead + "Cookie:" + blanks + value + rest;
      Scrubbed(s) == lead + Stars(n) + rest && ScrubLog(s) == [Entry(|lead|, n, COOKIE)]
  {
    TextScrubbed(2, lead, blanks, value, rest);
  }

  // ---------- in any surroundings ----------

  /**
    In every text: a Cookie line, from its name to any place before its end, is
    overwritten, if no match begins before it and lies over it and no credential runs
    over a line break.
   */
  lemma CookieLineStarred(s: Bytes, p: nat, x: nat, e: nat)
    requires At(s, "Cookie:", p) && p + 7 <= x < e <= |s| && Blank(s, p + 7, x)
    requires forall k :: x <= k < e ==> !LineBreak(s[k])
    requires StandsAlone(2, s, p) && BreaksAreBare(s)
    ensures forall i :: p <= i < e ==> Scrubbed(s)[i] == '*'
  {
    assert forall k :: p + 7 <= k < x ==> IsSpace(s[k]);
    assert Splits(COOKIE, s, p, x, e);
    assert Match(COOKIE, s, p, e);
    MatchAtLongest(COOKIE, s, p, e);
    CookieAloneCounts(s, p);
  }

  /** In every text: a credential is overwritten to the next space, if none that begins before it lies over it. */
  lemma CredentialStarred(s: Bytes, basic: bool, p: nat, x: nat, e: nat)
    requires
      var word: Bytes := if basic then "Basic" else "Bearer";
      At(s, word, p) && p + |word| < x < e <= |s| && Blank(s, p + |word|, x)
    requires forall k :: x <= k < e ==> !White(s[k])
    requires StandsAlone(if basic then 1 else 0, s, p)
    ensures forall i :: p <= i < e ==> Scrubbed(s)[i] == '*'
  {
    var k := if basic then 1 else 0;
    var r := RULES[k];
    assert forall i :: p + |r.literal| <= i < x ==> IsSpace(s[i]);
    assert Splits(r, s, p, x, e);
    assert Match(r, s, p, e);
    MatchAtLongest(r, s, p, e);
    AloneCounts(k, s, p);
  }

  /** A text in which a keyword is not followed by a space, and no other can begin, is left as it is. */
  lemma NoSpaceUntouched(s: Bytes, p: nat)
    requires OnlyAt(s, p)
    requires (At(s, "Bearer", p) && p + 6 < |s| && !White(s[p + 6]))
      || (At(s, "Basic", p) && p + 5 < |s| && !White(s[p + 5]))
    ensures Scrubbed(s) == s && ScrubLog(s) == []
  {
    var k := if At(s, "Bearer", p) && p + 6 < |s| && !White(s[p + 6]) then 0 else 1;
    NoSpaceNoMatch(s, p);
    forall j | 0 <= j < |RULES|
      ensures Clean(RULES[j], s)
    {
      if j == k {
        CleanAtOnly(k, s, p);
      } else {
        OthersClean(j, k, s, p);
      }
    }
    CleanStays(RULES, |RULES|, s);
  }

  lemma CleanAtOnly(k: nat, s: Bytes, p: int)
    requires k < |RULES| && OnlyAt(s, p) && (p >= 0 ==> !Matches(RULES[k], s, p))
    ensures Clean(RULES[k], s)
  {
    forall q: nat | Matches(RULES[k], s, q)
      ensures q == p
    {
      var e :| Match(RULES[k], s, q, e);
      MatchAtLongest(RULES[k], s, q, e);
      StartsInitial(RULES[k], s, q);
    }
  }
}
