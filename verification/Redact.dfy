/**
  Payload redaction: three regular expressions applied one after the other to one
  buffer, each match overwritten with stars.
 */
module Redact {
  import opened ByteStrings
  import opened Options

  const STAR: byte := '*'

  /** The bytes of the class `\s`. */
  predicate IsSpace(c: byte) {
    c == ' ' || c == '\t' || c == '\n' || c == '\r' || c == '\U{0C}'
  }

  predicate IsBreak(c: byte) {
    c == '\r' || c == '\n'
  }

  /**
    The shape all three patterns have: `literal`, then at least `gap` spaces, then one
    or more bytes that are not spaces, or (`toLineEnd`) not line breaks.
   */
  datatype Rule = Rule(literal: Bytes, gap: nat, toLineEnd: bool) {
    predicate Stops(c: byte) {
      if toLineEnd then IsBreak(c) else IsSpace(c)
    }

    /** What the proofs need of a pattern: a literal without stars and spaces. */
    ghost predicate Sound() {
      && literal != []
      && forall k :: 0 <= k < |literal| ==> literal[k] != STAR && !IsSpace(literal[k])
    }
  }

  const BEARER := Rule("Bearer", 1, false)
  const BASIC := Rule("Basic", 1, false)
  const COOKIE := Rule("Cookie:", 0, true)
  const RULES: seq<Rule> := [BEARER, BASIC, COOKIE]

  // ---------- what a rule matches ----------

  predicate AllSpace(s: Bytes, lo: int, hi: int) {
    0 <= lo <= hi <= |s| && forall k :: lo <= k < hi ==> IsSpace(s[k])
  }

  predicate NoStop(r: Rule, s: Bytes, lo: int, hi: int) {
    0 <= lo <= hi <= |s| && forall k :: lo <= k < hi ==> !r.Stops(s[k])
  }

  /** `s[p..e]` is in the language of the rule, its last part starting at `x`. */
  predicate Splits(r: Rule, s: Bytes, p: int, x: int, e: int) {
    && At(s, r.literal, p)
    && p + |r.literal| + r.gap <= x < e
    && AllSpace(s, p + |r.literal|, x)
    && NoStop(r, s, x, e)
  }

  ghost predicate Match(r: Rule, s: Bytes, p: int, e: int) {
    exists x :: Splits(r, s, p, x, e)
  }

  ghost predicate Matches(r: Rule, s: Bytes, p: int) {
    exists e :: Match(r, s, p, e)
  }

  // ---------- how the matcher finds it ----------

  /** The end of the spaces that start at `i`. */
  function SpaceEnd(s: Bytes, i: nat): (e: nat)
    requires i <= |s|
    ensures i <= e <= |s| && AllSpace(s, i, e) && (e < |s| ==> !IsSpace(s[e]))
    decreases |s| - i
  {
    if i < |s| && IsSpace(s[i]) then SpaceEnd(s, i + 1) else i
  }

  /** The end of the bytes from `i` on at which the rule does not stop. */
  function StopFree(r: Rule, s: Bytes, i: nat): (e: nat)
    requires i <= |s|
    ensures i <= e <= |s| && NoStop(r, s, i, e) && (e < |s| ==> r.Stops(s[e]))
    decreases |s| - i
  {
    if i < |s| && !r.Stops(s[i]) then StopFree(r, s, i + 1) else i
  }

  /**
    Greedy choice with backtracking: the last place in `[lo, hi]` from which the final
    part of the pattern can take a byte.
   */
  function LastStart(r: Rule, s: Bytes, lo: nat, hi: nat): (x: Option<nat>)
    requires lo <= |s| && hi <= |s|
    ensures x.Some? ==> lo <= x.value <= hi && x.value < |s| && !r.Stops(s[x.value])
    ensures forall k :: lo <= k <= hi && k < |s| && (x.None? || x.value < k) ==> r.Stops(s[k])
    decreases hi
  {
    if hi < lo then None
    else if hi < |s| && !r.Stops(s[hi]) then Some(hi)
    else if hi == 0 then None
    else LastStart(r, s, lo, hi - 1)
  }

  /** The end of the match at `p`, if the rule matches there. */
  function MatchAt(r: Rule, s: Bytes, p: nat): (e: Option<nat>)
    ensures e.Some? ==> e.value <= |s|
  {
    if !At(s, r.literal, p) then None
    else
      var lit := p + |r.literal|;
      var hi := SpaceEnd(s, lit);
      if lit + r.gap > hi then None
      else
        match LastStart(r, s, lit + r.gap, hi)
        case None => None
        case Some(x) => Some(StopFree(r, s, x))
  }

  /** A half-open stretch of the buffer. */
  datatype Span = Span(start: nat, end: nat) {
    predicate Has(i: int) {
      start <= i < end
    }
  }

  /** What the matcher finds is a match, and the longest one there. */
  lemma MatchAtSound(r: Rule, s: Bytes, p: nat)
    ensures MatchAt(r, s, p).Some? ==>
      Match(r, s, p, MatchAt(r, s, p).value) && p + |r.literal| < MatchAt(r, s, p).value <= |s|
  {
    if MatchAt(r, s, p).Some? {
      var lit := p + |r.literal|;
      var x := LastStart(r, s, lit + r.gap, SpaceEnd(s, lit)).value;
      assert Splits(r, s, p, x, MatchAt(r, s, p).value);
    }
  }

  lemma MatchAtLongest(r: Rule, s: Bytes, p: nat, e: int)
    requires Match(r, s, p, e)
    ensures MatchAt(r, s, p).Some? && e <= MatchAt(r, s, p).value
  {
    var x :| Splits(r, s, p, x, e);
    var lit := p + |r.literal|;
    var hi := SpaceEnd(s, lit);
    assert x <= hi && !r.Stops(s[x]);
    assert x <= LastStart(r, s, lit + r.gap, hi).value;
  }

  // ---------- leftmost matches that do not overlap ----------

  /** For every place the end of the match that starts there, if there is one. */
  function Ends(r: Rule, s: Bytes): (ends: seq<Option<nat>>)
    ensures |ends| == |s| + 1 && Onward(ends)
    ensures forall p :: 0 <= p <= |s| ==> ends[p] == MatchAt(r, s, p)
  {
    var ends := seq(|s| + 1, p requires 0 <= p <= |s| => MatchAt(r, s, p));
    assert Onward(ends) by {
      forall p | 0 <= p <= |s| && ends[p].Some?
        ensures p < ends[p].value <= |s|
      {
        MatchAtSound(r, s, p);
      }
    }
    ends
  }

  /** No match is empty or ends beyond the text. */
  ghost predicate Onward(ends: seq<Option<nat>>) {
    forall p :: 0 <= p < |ends| && ends[p].Some? ==> p < ends[p].value < |ends|
  }

  /** From `from` on: the leftmost match, then the leftmost match after it, and so on. */
  function Select(ends: seq<Option<nat>>, from: nat): seq<Span>
    requires Onward(ends)
    decreases |ends| - from
  {
    if from >= |ends| then []
    else
      match ends[from]
      case None => Select(ends, from + 1)
      case Some(e) => [Span(from, e)] + Select(ends, e)
  }

  function FindAll(r: Rule, s: Bytes): seq<Span> {
    Select(Ends(r, s), 0)
  }

  predicate Covered(spans: seq<Span>, i: int) {
    exists k :: 0 <= k < |spans| && spans[k].Has(i)
  }

  /** Span `m` is one of the matches at or after `from`. */
  predicate Selectable(ends: seq<Option<nat>>, from: nat, m: Span) {
    from <= m.start < m.end < |ends| && ends[m.start] == Some(m.end)
  }

  ghost predicate Apart(spans: seq<Span>) {
    forall a, b :: 0 <= a < b < |spans| ==> spans[a].end <= spans[b].start
  }

  /** The spans selected are matches, in order and apart. */
  lemma {:induction false} SelectedApart(ends: seq<Option<nat>>, from: nat)
    requires Onward(ends)
    ensures forall k :: 0 <= k < |Select(ends, from)| ==> Selectable(ends, from, Select(ends, from)[k])
    ensures Apart(Select(ends, from))
    decreases |ends| - from
  {
    if from < |ends| {
      var next := if ends[from].Some? then ends[from].value else from + 1;
      SelectedApart(ends, next);
      var rest := Select(ends, next);
      assert Select(ends, from) == if ends[from].Some? then [Span(from, next)] + rest else rest;
      forall k | 0 <= k < |rest|
        ensures Selectable(ends, from, rest[k])
      {
        assert Selectable(ends, next, rest[k]);
      }
    }
  }

  /** The same for the spans a rule finds. */
  lemma FoundApart(r: Rule, s: Bytes)
    ensures forall k :: 0 <= k < |FindAll(r, s)| ==> Selectable(Ends(r, s), 0, FindAll(r, s)[k])
    ensures Apart(FindAll(r, s))
  {
    SelectedApart(Ends(r, s), 0);
  }

  /** Every place where a match starts is inside one of them. */
  lemma {:induction false} SelectedCover(ends: seq<Option<nat>>, from: nat, p: nat)
    requires Onward(ends) && from <= p < |ends| && ends[p].Some?
    ensures Covered(Select(ends, from), p)
    decreases |ends| - from
  {
    var spans := Select(ends, from);
    if ends[from].Some? && p < ends[from].value {
      assert spans[0].Has(p);
    } else if ends[from].Some? {
      SelectedCover(ends, ends[from].value, p);
      var rest := Select(ends, ends[from].value);
      var k :| 0 <= k < |rest| && rest[k].Has(p);
      assert spans[k + 1].Has(p);
    } else {
      SelectedCover(ends, from + 1, p);
    }
  }

  /**
    What the library's search returns: longest matches, in order and apart, such that
    every place where the rule matches is inside one of them.
   */
  lemma FindAllSpec(r: Rule, s: Bytes)
    ensures
      var spans := FindAll(r, s);
      && (forall k :: 0 <= k < |spans| ==>
            spans[k].start < spans[k].end <= |s| && Match(r, s, spans[k].start, spans[k].end))
      && (forall k, e :: 0 <= k < |spans| && Match(r, s, spans[k].start, e) ==> e <= spans[k].end)
      && Apart(spans)
      && (forall p: nat :: Matches(r, s, p) ==> Covered(spans, p))
  {
    var spans := FindAll(r, s);
    FoundApart(r, s);
    forall k | 0 <= k < |spans|
      ensures spans[k].start < spans[k].end <= |s| && Match(r, s, spans[k].start, spans[k].end)
      ensures forall e :: Match(r, s, spans[k].start, e) ==> e <= spans[k].end
    {
      assert Selectable(Ends(r, s), 0, spans[k]);
      MatchAtSound(r, s, spans[k].start);
      forall e | Match(r, s, spans[k].start, e)
        ensures e <= spans[k].end
      {
        MatchAtLongest(r, s, spans[k].start, e);
      }
    }
    forall p: nat | Matches(r, s, p)
      ensures Covered(spans, p)
    {
      var e :| Match(r, s, p, e);
      MatchAtLongest(r, s, p, e);
      SelectedCover(Ends(r, s), 0, p);
    }
  }

  // ---------- scrubbing ----------

  function Starred(s: Bytes, spans: seq<Span>): (t: Bytes)
    ensures |t| == |s|
    ensures forall i :: 0 <= i < |s| ==> t[i] == if Covered(spans, i) then STAR else s[i]
  {
    seq(|s|, i requires 0 <= i < |s| => if Covered(spans, i) then STAR else s[i])
  }

  /** A region that was overwritten, as the redaction log records it. */
  datatype Entry = Entry(offset: nat, length: nat, rule: Rule) {
    predicate Has(i: int) {
      offset <= i < offset + length
    }
  }

  function EntriesOf(r: Rule, spans: seq<Span>): seq<Entry> {
    if spans == [] then []
    else
      var m := spans[|spans| - 1];
      EntriesOf(r, spans[..|spans| - 1]) + [Entry(m.start, if m.start <= m.end then m.end - m.start else 0, r)]
  }

  /** The buffer and the log after the first `n` rules. */
  function ScrubBy(rules: seq<Rule>, n: nat, s: Bytes): (r: (Bytes, seq<Entry>))
    requires n <= |rules|
    ensures |r.0| == |s|
  {
    if n == 0 then (s, [])
    else
      var (out, log) := ScrubBy(rules, n - 1, s);
      var spans := FindAll(rules[n - 1], out);
      (Starred(out, spans), log + EntriesOf(rules[n - 1], spans))
  }

  function Scrubbed(s: Bytes): (r: Bytes)
    ensures |r| == |s|
  {
    ScrubBy(RULES, |RULES|, s).0
  }

  function ScrubLog(s: Bytes): seq<Entry> {
    ScrubBy(RULES, |RULES|, s).1
  }

  method Scrub(payload: Bytes) returns (out: array<byte>, log: seq<Entry>)
    ensures fresh(out)
    ensures out[..] == Scrubbed(payload)
    ensures log == ScrubLog(payload)
  {
    out := new byte[|payload|](i requires 0 <= i < |payload| => payload[i]);
    log := [];
    assert out[..] == payload;
    var rules := RULES;
    for k := 0 to |rules|
      invariant fresh(out)
      invariant (out[..], log) == ScrubBy(rules, k, payload)
    {
      var locs := FindAll(rules[k], out[..]);
      FoundApart(rules[k], out[..]);
      assert forall n :: 0 <= n < |locs| ==> Selectable(Ends(rules[k], out[..]), 0, locs[n]);
      StarOut(out, locs);
      log := log + EntriesOf(rules[k], locs);
    }
  }

  /** Overwrites the spans found, byte by byte. */
  method StarOut(out: array<byte>, locs: seq<Span>)
    requires forall n :: 0 <= n < |locs| ==> locs[n].start <= locs[n].end <= out.Length
    modifies out
    ensures out[..] == Starred(old(out[..]), locs)
  {
    for n := 0 to |locs|
      invariant out[..] == Starred(old(out[..]), locs[..n])
    {
      for i := locs[n].start to locs[n].end
        invariant forall j :: 0 <= j < out.Length ==>
          out[j] == if locs[n].start <= j < i then STAR else Starred(old(out[..]), locs[..n])[j]
      {
        out[i] := STAR;
      }
      CoveredByOneMore(locs, n);
    }
    assert locs[..|locs|] == locs;
  }

  lemma CoveredByOneMore(spans: seq<Span>, n: nat)
    requires n < |spans|
    ensures forall j :: Covered(spans[..n + 1], j) <==> Covered(spans[..n], j) || spans[n].Has(j)
  {
    forall j
      ensures Covered(spans[..n + 1], j) <==> Covered(spans[..n], j) || spans[n].Has(j)
    {
      if Covered(spans[..n], j) {
        var k :| 0 <= k < n && spans[..n][k].Has(j);
        assert spans[..n + 1][k].Has(j);
      }
      if spans[n].Has(j) {
        assert spans[..n + 1][n].Has(j);
      }
      if Covered(spans[..n + 1], j) {
        var k :| 0 <= k < n + 1 && spans[..n + 1][k].Has(j);
        assert k < n ==> spans[..n][k].Has(j);
      }
    }
  }

  // ---------- nothing matchable survives ----------

  /** Every span starts at a byte that is not a space. */
  ghost predicate StartSolid(s: Bytes, spans: seq<Span>) {
    forall k :: 0 <= k < |spans| ==> spans[k].start < |s| && !IsSpace(s[spans[k].start])
  }

  lemma FoundStartSolid(r: Rule, s: Bytes)
    requires r.Sound()
    ensures StartSolid(s, FindAll(r, s))
  {
    var spans := FindAll(r, s);
    FoundApart(r, s);
    forall k | 0 <= k < |spans|
      ensures spans[k].start < |s| && !IsSpace(s[spans[k].start])
    {
      assert Selectable(Ends(r, s), 0, spans[k]);
      var p := spans[k].start;
      assert s[p..p + |r.literal|][0] == r.literal[0];
    }
  }

  /** The first star of a stretch stands for a byte that was not a space. */
  lemma FirstStar(s: Bytes, spans: seq<Span>, x: nat)
    requires StartSolid(s, spans) && 0 < x < |s| && !Covered(spans, x - 1)
    requires Covered(spans, x)
    ensures !IsSpace(s[x])
  {
    var k :| 0 <= k < |spans| && spans[k].Has(x);
    assert !spans[k].Has(x - 1);
  }

  /** The literal and the spaces of a match are not stars. */
  lemma LeadHasNoStar(r: Rule, t: Bytes, p: nat, x: int, e: int)
    requires r.Sound() && Splits(r, t, p, x, e)
    ensures p < x < |t|
    ensures forall i :: p <= i < x ==> t[i] != STAR
  {
    AtBytes(t, r.literal, p);
  }

  /** A match needs only its literal, its spaces and one more byte. */
  lemma SameLead(r: Rule, s: Bytes, t: Bytes, p: nat, x: int, e: int)
    requires |s| == |t| && Splits(r, t, p, x, e)
    requires forall i :: p <= i < x ==> s[i] == t[i]
    requires !r.Stops(s[x])
    ensures Splits(r, s, p, x, x + 1)
  {
    AtBytes(t, r.literal, p);
    AtBytes(s, r.literal, p);
  }

  /**
    Stars make no matches.  If a rule matches at `p` once solid-starting spans are
    starred, then it matched there before, and no star fell on `p`.
   */
  lemma StarsMakeNoMatches(r: Rule, s: Bytes, spans: seq<Span>, p: nat, x: int, e: int)
    requires r.Sound() && StartSolid(s, spans)
    requires Splits(r, Starred(s, spans), p, x, e)
    ensures Splits(r, s, p, x, x + 1) && !Covered(spans, p)
  {
    var t := Starred(s, spans);
    LeadHasNoStar(r, t, p, x, e);
    assert !r.Stops(s[x]) by {
      assert !r.Stops(t[x]);
      if Covered(spans, x) {
        assert t[x - 1] != STAR;
        FirstStar(s, spans, x);
      }
    }
    SameLead(r, s, t, p, x, e);
  }

  /** A rule matches nowhere in `s`. */
  ghost predicate Clean(r: Rule, s: Bytes) {
    forall p: nat :: !Matches(r, s, p)
  }

  /** A pass of any rule keeps clean what is clean of another, and leaves nothing of its own. */
  lemma PassCleans(q: Rule, r: Rule, s: Bytes)
    requires q.Sound() && r.Sound()
    requires q == r || Clean(r, s)
    ensures Clean(r, Starred(s, FindAll(q, s)))
  {
    var t := Starred(s, FindAll(q, s));
    forall p: nat
      ensures !Matches(r, t, p)
    {
      if Matches(r, t, p) {
        var e :| Match(r, t, p, e);
        var x :| Splits(r, t, p, x, e);
        NoNewMatch(q, r, s, p, x, e);
      }
    }
  }

  lemma NoNewMatch(q: Rule, r: Rule, s: Bytes, p: nat, x: int, e: int)
    requires q.Sound() && r.Sound()
    requires q == r || Clean(r, s)
    ensures !Splits(r, Starred(s, FindAll(q, s)), p, x, e)
  {
    var spans := FindAll(q, s);
    FoundStartSolid(q, s);
    assert q == r || !Matches(r, s, p);
    if Splits(r, Starred(s, spans), p, x, e) {
      StarsMakeNoMatches(r, s, spans, p, x, e);
      assert Match(r, s, p, x + 1);
      if q == r {
        FindAllSpec(r, s);
        assert Matches(r, s, p);
      }
    }
  }

  lemma {:induction false} ScrubKeepsClean(rules: seq<Rule>, n: nat, r: Rule, s: Bytes)
    requires n <= |rules| && r.Sound() && forall k :: 0 <= k < |rules| ==> rules[k].Sound()
    requires r in rules[..n]
    ensures Clean(r, ScrubBy(rules, n, s).0)
  {
    var out := ScrubBy(rules, n - 1, s).0;
    if rules[n - 1] != r {
      assert r in rules[..n - 1];
      ScrubKeepsClean(rules, n - 1, r, s);
    }
    PassCleans(rules[n - 1], r, out);
  }

  lemma RulesSound()
    ensures forall k :: 0 <= k < |RULES| ==> RULES[k].Sound()
  {
    assert BEARER.Sound() && BASIC.Sound() && COOKIE.Sound();
  }

  /** After scrubbing none of the rules matches anywhere. */
  lemma NothingMatchableSurvives(s: Bytes, r: Rule)
    requires r in RULES
    ensures Clean(r, Scrubbed(s))
  {
    RulesSound();
    assert RULES[..|RULES|] == RULES;
    ScrubKeepsClean(RULES, |RULES|, r, s);
  }

  lemma CleanFindsNothing(r: Rule, s: Bytes)
    requires Clean(r, s)
    ensures FindAll(r, s) == []
  {
    FindAllSpec(r, s);
    var spans := FindAll(r, s);
    if spans != [] {
      assert Matches(r, s, spans[0].start);
    }
  }

  lemma {:induction false} CleanStays(rules: seq<Rule>, n: nat, s: Bytes)
    requires n <= |rules| && forall k :: 0 <= k < n ==> Clean(rules[k], s)
    ensures ScrubBy(rules, n, s) == (s, [])
  {
    if n == 0 {
    } else {
      CleanStays(rules, n - 1, s);
      CleanFindsNothing(rules[n - 1], s);
      var none: seq<Entry> := [];
      assert Starred(s, []) == s && EntriesOf(rules[n - 1], []) == none == none + none;
    }
  }

  /** Scrubbing a second time changes and logs nothing. */
  lemma ScrubIsIdempotent(s: Bytes)
    ensures Scrubbed(Scrubbed(s)) == Scrubbed(s) && ScrubLog(Scrubbed(s)) == []
  {
    forall k | 0 <= k < |RULES|
      ensures Clean(RULES[k], Scrubbed(s))
    {
      NothingMatchableSurvives(s, RULES[k]);
    }
    CleanStays(RULES, |RULES|, Scrubbed(s));
  }

  // ---------- which matches of the payload count ----------

  /*
    A match counts unless it begins inside one that counts of the same rule or of an
    earlier one.  It reaches to its first stop that no match of an earlier rule that
    counts lies over.
   */

  /** Byte `i` lies inside a match of one of the first `k` rules that counts. */
  predicate Hidden(k: nat, s: Bytes, i: int)
    requires k <= |RULES|
    decreases k, 0, 0
  {
    exists j, q :: 0 <= j < k && 0 <= q <= i && Counts(j, s, q) && i < Reach(j, s, q)
  }

  predicate Counts(k: nat, s: Bytes, p: nat)
    requires k < |RULES|
    decreases k, 2, p
  {
    && MatchAt(RULES[k], s, p).Some?
    && !Hidden(k, s, p)
    && forall q :: 0 <= q < p && Counts(k, s, q) ==> Reach(k, s, q) <= p
  }

  function Reach(k: nat, s: Bytes, p: nat): (e: nat)
    requires k < |RULES| && MatchAt(RULES[k], s, p).Some?
    ensures MatchAt(RULES[k], s, p).value <= e <= |s|
    decreases k, 1, |s| + 1
  {
    OpenStop(k, s, MatchAt(RULES[k], s, p).value)
  }

  /** The first stop of rule `k` from `i` on that is not hidden. */
  function OpenStop(k: nat, s: Bytes, i: nat): (e: nat)
    requires k < |RULES| && i <= |s|
    ensures i <= e <= |s|
    ensures e < |s| ==> RULES[k].Stops(s[e]) && !Hidden(k, s, e)
    decreases k, 1, |s| - i
  {
    if i < |s| && (!RULES[k].Stops(s[i]) || Hidden(k, s, i)) then OpenStop(k, s, i + 1) else i
  }

  // ---------- they are what the passes find ----------

  /** The search selects the match at `p`: none selected earlier lies over it. */
  predicate Picked(ends: seq<Option<nat>>, p: nat) {
    && p < |ends| && ends[p].Some?
    && forall q :: 0 <= q < p && Picked(ends, q) ==> ends[q].value <= p
  }

  predicate InPicked(ends: seq<Option<nat>>, from: nat, i: int) {
    exists q :: from <= q <= i && Picked(ends, q) && i < ends[q].value
  }

  lemma {:induction false} SelectIsPicked(ends: seq<Option<nat>>, from: nat, i: int)
    requires Onward(ends)
    requires forall q :: 0 <= q < from && Picked(ends, q) ==> ends[q].value <= from
    ensures Covered(Select(ends, from), i) <==> InPicked(ends, from, i)
    decreases |ends| - from
  {
    if from < |ends| {
      match ends[from] {
        case None => SelectIsPicked(ends, from + 1, i);
        case Some(e) =>
          assert Picked(ends, from);
          SelectIsPicked(ends, e, i);
          CoveredByOneFirst(Span(from, e), Select(ends, e), i);
      }
    }
  }

  lemma CoveredByOneFirst(m: Span, spans: seq<Span>, i: int)
    ensures Covered([m] + spans, i) <==> m.Has(i) || Covered(spans, i)
  {
    if m.Has(i) {
      assert ([m] + spans)[0].Has(i);
    }
    if Covered(spans, i) {
      var k :| 0 <= k < |spans| && spans[k].Has(i);
      assert ([m] + spans)[k + 1].Has(i);
    }
  }

  /** A rule's first byte, which is nowhere else in a rule's literal and is not a space. */
  predicate IsInitial(c: byte) {
    c == 'B' || c == 'C'
  }

  lemma Initials(k: nat)
    requires k < |RULES|
    ensures RULES[k].Sound()
    ensures IsInitial(RULES[k].literal[0])
    ensures forall m :: 0 < m < |RULES[k].literal| ==> !IsInitial(RULES[k].literal[m])
  {
    RulesSound();
  }

  /** A hidden stretch begins with the first byte of a rule. */
  lemma HiddenBegins(k: nat, s: Bytes, i: nat)
    requires k <= |RULES| && i < |s| && Hidden(k, s, i) && !Hidden(k, s, i - 1)
    ensures IsInitial(s[i])
  {
    var j, q :| 0 <= j < k && 0 <= q <= i && Counts(j, s, q) && i < Reach(j, s, q);
    Initials(j);
    AtBytes(s, RULES[j].literal, q);
  }

  /** A hidden stretch ends at the end of the text or at a space. */
  lemma HiddenEnds(k: nat, s: Bytes, i: nat)
    requires k <= |RULES| && 0 < i < |s| && Hidden(k, s, i - 1) && !Hidden(k, s, i)
    ensures IsSpace(s[i])
  {
    var j, q :| 0 <= j < k && 0 <= q <= i - 1 && Counts(j, s, q) && i - 1 < Reach(j, s, q);
    assert Reach(j, s, q) == i;
    assert RULES[j].Stops(s[i]);
  }

  /** `t` is `s` with what the first `k` rules hide turned into stars. */
  ghost predicate Masks(k: nat, s: Bytes, t: Bytes)
    requires k <= |RULES|
  {
    |t| == |s| && forall i :: 0 <= i < |s| ==> t[i] == if Hidden(k, s, i) then STAR else s[i]
  }

  /** The literal and the spaces of a match are hidden only if its first byte is. */
  lemma {:induction false} LeadStaysOpen(k: nat, s: Bytes, p: nat, lit: Bytes, i: nat)
    requires k <= |RULES| && !Hidden(k, s, p) && p <= i < |s| && At(s, lit, p)
    requires forall m :: 0 < m < |lit| ==> !IsInitial(lit[m])
    requires p + |lit| <= i ==> AllSpace(s, p + |lit|, i + 1)
    ensures !Hidden(k, s, i)
  {
    if p < i {
      LeadStaysOpen(k, s, p, lit, i - 1);
      AtBytes(s, lit, p);
      if Hidden(k, s, i) {
        HiddenBegins(k, s, i);
      }
    }
  }

  lemma {:induction false} SpaceEndIs(s: Bytes, i: nat, e: nat)
    requires AllSpace(s, i, e) && (e < |s| ==> !IsSpace(s[e]))
    ensures SpaceEnd(s, i) == e
    decreases |s| - i
  {
    if i < e {
      SpaceEndIs(s, i + 1, e);
    }
  }

  lemma {:induction false} SameLastStart(r: Rule, s: Bytes, t: Bytes, lo: nat, hi: nat)
    requires |s| == |t| && lo <= |s| && hi <= |s|
    requires forall i :: lo <= i <= hi && i < |s| ==> (r.Stops(s[i]) <==> r.Stops(t[i]))
    ensures LastStart(r, s, lo, hi) == LastStart(r, t, lo, hi)
    decreases hi
  {
    if lo <= hi && 0 < hi {
      SameLastStart(r, s, t, lo, hi - 1);
    }
  }

  lemma {:induction false} MaskedStop(k: nat, s: Bytes, t: Bytes, i: nat)
    requires k < |RULES| && Masks(k, s, t) && i <= |s|
    ensures StopFree(RULES[k], t, i) == OpenStop(k, s, i)
    decreases |s| - i
  {
    if i < |s| {
      MaskedStop(k, s, t, i + 1);
    }
  }

  lemma {:induction false} OpenStopFromStop(k: nat, s: Bytes, i: nat)
    requires k < |RULES| && i <= |s|
    ensures OpenStop(k, s, i) == OpenStop(k, s, StopFree(RULES[k], s, i))
    decreases |s| - i
  {
    if i < |s| && !RULES[k].Stops(s[i]) {
      OpenStopFromStop(k, s, i + 1);
    }
  }

  lemma MaskedLead(k: nat, s: Bytes, t: Bytes, p: nat)
    requires k < |RULES| && Masks(k, s, t) && !Hidden(k, s, p) && At(s, RULES[k].literal, p)
    ensures SameLeads(RULES[k], s, t, p)
  {
    var r := RULES[k];
    var hi := SpaceEnd(s, p + |r.literal|);
    Initials(k);
    forall i | p <= i < hi
      ensures t[i] == s[i]
    {
      LeadStaysOpen(k, s, p, r.literal, i);
    }
    AtBytes(s, r.literal, p);
    AtBytes(t, r.literal, p);
    SpaceEndIs(t, p + |r.literal|, hi);
  }

  /** The bytes of a literal at `p` and of the spaces after it are the same, and so is where the spaces end. */
  ghost predicate SameLeads(r: Rule, s: Bytes, t: Bytes, p: nat) {
    && |s| == |t| && At(s, r.literal, p) && At(t, r.literal, p)
    && var hi := SpaceEnd(s, p + |r.literal|);
      && SpaceEnd(t, p + |r.literal|) == hi
      && forall i :: p <= i < hi ==> t[i] == s[i]
  }

  lemma SameStart(r: Rule, s: Bytes, t: Bytes, p: nat, lo: nat)
    requires SameLeads(r, s, t, p) && p + |r.literal| <= lo <= |s|
    ensures
      var hi := SpaceEnd(s, p + |r.literal|);
      LastStart(r, t, lo, hi) == LastStart(r, s, lo, hi)
  {
    var hi := SpaceEnd(s, p + |r.literal|);
    forall i | lo <= i <= hi && i < |s|
      ensures r.Stops(s[i]) <==> r.Stops(t[i])
    {
      assert if i < hi then t[i] == s[i] else !IsSpace(s[i]) && !IsSpace(t[i]);
    }
    SameLastStart(r, s, t, lo, hi);
  }

  /** Then the rule matches in both or in neither, and its last part starts at the same place. */
  lemma SameMatch(r: Rule, s: Bytes, t: Bytes, p: nat) returns (x: nat)
    requires SameLeads(r, s, t, p)
    ensures x <= |s| && (MatchAt(r, s, p).Some? <==> MatchAt(r, t, p).Some?)
    ensures MatchAt(r, s, p).Some? ==>
      MatchAt(r, s, p) == Some(StopFree(r, s, x)) && MatchAt(r, t, p) == Some(StopFree(r, t, x))
  {
    var lo := p + |r.literal| + r.gap;
    var hi := SpaceEnd(s, p + |r.literal|);
    x := 0;
    if lo <= hi {
      SameStart(r, s, t, p, lo);
      if LastStart(r, s, lo, hi).Some? {
        x := LastStart(r, s, lo, hi).value;
      }
    }
  }

  lemma MatchOpen(k: nat, s: Bytes, t: Bytes, p: nat)
    requires k < |RULES| && Masks(k, s, t) && !Hidden(k, s, p) && At(s, RULES[k].literal, p)
    ensures MatchAt(RULES[k], t, p) == if MatchAt(RULES[k], s, p).Some? then Some(Reach(k, s, p)) else None
  {
    MaskedLead(k, s, t, p);
    var x := SameMatch(RULES[k], s, t, p);
    MaskedStop(k, s, t, x);
    OpenStopFromStop(k, s, x);
  }

  /** A literal of the masked text is one of the text, and open. */
  lemma LiteralOpen(k: nat, s: Bytes, t: Bytes, p: nat)
    requires k < |RULES| && Masks(k, s, t) && At(t, RULES[k].literal, p)
    ensures At(s, RULES[k].literal, p) && !Hidden(k, s, p)
  {
    var lit := RULES[k].literal;
    Initials(k);
    AtBytes(s, lit, p);
    AtBytes(t, lit, p);
    forall i | p <= i < p + |lit|
      ensures t[i] == lit[i - p] == s[i] && !Hidden(k, s, i)
    {
      assert lit[i - p] != STAR;
    }
    assert p < p + |lit|;
  }

  /** In the masked text a rule matches where it matched and is not hidden, and it reaches as far as defined. */
  lemma MatchAtMasked(k: nat, s: Bytes, t: Bytes, p: nat)
    requires k < |RULES| && Masks(k, s, t)
    ensures MatchAt(RULES[k], t, p)
      == if MatchAt(RULES[k], s, p).Some? && !Hidden(k, s, p) then Some(Reach(k, s, p)) else None
  {
    if At(t, RULES[k].literal, p) {
      LiteralOpen(k, s, t, p);
    }
    if At(s, RULES[k].literal, p) && !Hidden(k, s, p) {
      MatchOpen(k, s, t, p);
    }
  }

  lemma {:induction false} PickedCounts(k: nat, s: Bytes, t: Bytes, p: nat)
    requires k < |RULES| && Masks(k, s, t)
    ensures Picked(Ends(RULES[k], t), p) <==> Counts(k, s, p)
    ensures Counts(k, s, p) ==> Ends(RULES[k], t)[p] == Some(Reach(k, s, p))
    decreases p
  {
    var ends := Ends(RULES[k], t);
    forall q | 0 <= q < p
      ensures Picked(ends, q) <==> Counts(k, s, q)
      ensures Counts(k, s, q) ==> ends[q] == Some(Reach(k, s, q))
    {
      PickedCounts(k, s, t, q);
    }
    MatchAtMasked(k, s, t, p);
  }

  /** A pass over the masked text stars what its rule's counting matches hide. */
  lemma PassHides(k: nat, s: Bytes, t: Bytes, i: nat)
    requires k < |RULES| && Masks(k, s, t) && i < |s|
    ensures Covered(FindAll(RULES[k], t), i) || Hidden(k, s, i) <==> Hidden(k + 1, s, i)
  {
    var ends := Ends(RULES[k], t);
    SelectIsPicked(ends, 0, i);
    forall q | 0 <= q <= i
      ensures Picked(ends, q) <==> Counts(k, s, q)
      ensures Counts(k, s, q) ==> ends[q] == Some(Reach(k, s, q))
    {
      PickedCounts(k, s, t, q);
    }
    if Hidden(k + 1, s, i) && !Hidden(k, s, i) {
      var j, q :| 0 <= j < k + 1 && 0 <= q <= i && Counts(j, s, q) && i < Reach(j, s, q);
      assert j == k && Picked(ends, q);
    }
  }

  /** After `n` passes exactly the bytes inside counting matches of the first `n` rules have become stars. */
  lemma {:induction false} ScrubMasks(n: nat, s: Bytes)
    requires n <= |RULES|
    ensures Masks(n, s, ScrubBy(RULES, n, s).0)
  {
    if n == 0 {
    } else {
      ScrubMasks(n - 1, s);
      var t := ScrubBy(RULES, n - 1, s).0;
      forall i | 0 <= i < |s|
        ensures ScrubBy(RULES, n, s).0[i] == if Hidden(n, s, i) then STAR else s[i]
      {
        PassHides(n - 1, s, t, i);
      }
    }
  }

  // ---------- what becomes of a match in the payload ----------

  /** `[p, e)` lies inside one counting match of rule `k`. */
  ghost predicate InsideOne(k: nat, s: Bytes, p: nat, e: nat)
    requires k < |RULES|
  {
    exists q :: 0 <= q <= p && Counts(k, s, q) && e <= Reach(k, s, q)
  }

  lemma CountsAtInitial(k: nat, s: Bytes, q: nat)
    requires k < |RULES| && Counts(k, s, q)
    ensures q < |s| && IsInitial(s[q]) && q < Reach(k, s, q) <= |s|
  {
    Initials(k);
    AtBytes(s, RULES[k].literal, q);
    MatchAtSound(RULES[k], s, q);
  }

  /** No counting match lies over the stop at the end of another one of its rule. */
  lemma OwnEnd(k: nat, s: Bytes, q: nat, q': nat)
    requires k < |RULES| && Counts(k, s, q) && Counts(k, s, q')
    requires Reach(k, s, q) < |s| && IsSpace(s[Reach(k, s, q)]) && q' <= Reach(k, s, q)
    ensures Reach(k, s, q') <= Reach(k, s, q)
  {
    CountsAtInitial(k, s, q');
  }

  /** Where a counting match ends, none of its own or an earlier rule goes on. */
  lemma ReachIsOpen(k: nat, s: Bytes, q: nat)
    requires k < |RULES| && Counts(k, s, q) && Reach(k, s, q) < |s|
    ensures IsSpace(s[Reach(k, s, q)]) && !Hidden(k + 1, s, Reach(k, s, q))
  {
    var g := Reach(k, s, q);
    assert !Hidden(k, s, g) && RULES[k].Stops(s[g]);
    forall j, q' | 0 <= j < k + 1 && 0 <= q' <= g && Counts(j, s, q')
      ensures Reach(j, s, q') <= g
    {
      if j == k {
        OwnEnd(k, s, q, q');
      }
    }
  }

  /** A match that lies over the end of one of rule `j` is of a later rule and begins where that one does, or before. */
  lemma OverTheEnd(s: Bytes, j: nat, q: nat, p: nat, j': nat, q': nat)
    requires j < |RULES| && q <= p && Counts(j, s, q) && p < Reach(j, s, q) < |s|
    requires j' < |RULES| && q' <= Reach(j, s, q) && Counts(j', s, q') && Reach(j, s, q) < Reach(j', s, q')
    ensures j < j' && q' <= p
  {
    ReachIsOpen(j, s, q);
    CountsAtInitial(j', s, q');
  }

  /**
    If every byte of a stretch is hidden or a star, and a match of rule `j` that counts
    lies over the first, then one match that counts lies over all of it.
   */
  lemma {:induction false} HiddenByOne(s: Bytes, j: nat, q: nat, p: nat, e: nat) returns (k: nat)
    requires j < |RULES| && p < e <= |s| && forall i :: p <= i < e ==> s[i] == STAR || Hidden(|RULES|, s, i)
    requires q <= p && Counts(j, s, q) && p < Reach(j, s, q)
    ensures k < |RULES| && InsideOne(k, s, p, e)
    decreases |RULES| - j
  {
    if e <= Reach(j, s, q) {
      k := j;
    } else {
      var g := Reach(j, s, q);
      ReachIsOpen(j, s, q);
      assert Hidden(|RULES|, s, g);
      var j', q' :| 0 <= j' < |RULES| && 0 <= q' <= g && Counts(j', s, q') && g < Reach(j', s, q');
      OverTheEnd(s, j, q, p, j', q');
      k := HiddenByOne(s, j', q', p, e);
    }
  }

  lemma StarredInsideOne(s: Bytes, p: nat, e: nat) returns (k: nat)
    requires p < e <= |s| && s[p] != STAR && forall i :: p <= i < e ==> Scrubbed(s)[i] == STAR
    ensures k < |RULES| && InsideOne(k, s, p, e)
  {
    var out := Scrubbed(s);
    ScrubMasks(|RULES|, s);
    assert Masks(|RULES|, s, out);
    forall i | p <= i < e
      ensures s[i] == STAR || Hidden(|RULES|, s, i)
    {
      assert out[i] == STAR;
    }
    assert Hidden(|RULES|, s, p);
    var j, q :| 0 <= j < |RULES| && 0 <= q <= p && Counts(j, s, q) && p < Reach(j, s, q);
    k := HiddenByOne(s, j, q, p, e);
  }

  lemma InsideOneStarred(k: nat, s: Bytes, p: nat, e: nat)
    requires k < |RULES| && e <= |s| && InsideOne(k, s, p, e)
    ensures forall i :: p <= i < e ==> Scrubbed(s)[i] == STAR
  {
    ScrubMasks(|RULES|, s);
    forall i | p <= i < e
      ensures Hidden(|RULES|, s, i)
    {
      InsideIsHidden(k, s, p, e, i);
    }
  }

  /**
    What becomes of a match.  Every byte of a match of any rule in the payload is a
    star after scrubbing if and only if the match lies inside one match that counts.
    A match that counts lies inside itself; one that begins inside another that
    counts is overwritten only as far as that reaches, unless a later rule's match
    that counts lies over both.
   */
  lemma WhollyStarredIff(s: Bytes, r: Rule, p: nat, e: nat)
    requires r in RULES && Match(r, s, p, e)
    ensures (forall i :: p <= i < e ==> Scrubbed(s)[i] == STAR)
      <==> exists k :: 0 <= k < |RULES| && InsideOne(k, s, p, e)
  {
    MatchInitial(s, r, p, e);
    if forall i :: p <= i < e ==> Scrubbed(s)[i] == STAR {
      var k := StarredInsideOne(s, p, e);
    } else if k :| 0 <= k < |RULES| && InsideOne(k, s, p, e) {
      InsideOneStarred(k, s, p, e);
    }
  }

  lemma MatchInitial(s: Bytes, r: Rule, p: nat, e: nat)
    requires r in RULES && Match(r, s, p, e)
    ensures p < e <= |s| && s[p] != STAR
  {
    var k :| 0 <= k < |RULES| && RULES[k] == r;
    Initials(k);
    AtBytes(s, r.literal, p);
  }

  lemma InsideIsHidden(k: nat, s: Bytes, p: nat, e: nat, i: nat)
    requires k < |RULES| && InsideOne(k, s, p, e) && p <= i < e
    ensures Hidden(|RULES|, s, i)
  {}

  /** No rule can begin anywhere in the text. */
  predicate WithoutInitials(s: Bytes) {
    forall i :: 0 <= i < |s| ==> !IsInitial(s[i])
  }

  /** Where no rule can begin, none matches. */
  lemma WithoutInitialsClean(s: Bytes, r: Rule)
    requires r in RULES && WithoutInitials(s)
    ensures Clean(r, s)
  {
    var k :| 0 <= k < |RULES| && RULES[k] == r;
    Initials(k);
    forall p: nat, e, x
      ensures !Splits(r, s, p, x, e)
    {
      AtBytes(s, r.literal, p);
    }
  }

  // ---------- credentials in a row ----------

  lemma MatchEndsAtStop(r: Rule, s: Bytes, p: nat)
    requires MatchAt(r, s, p).Some? && MatchAt(r, s, p).value < |s|
    ensures r.Stops(s[MatchAt(r, s, p).value])
  {}

  lemma {:induction false} PassedStopsHidden(k: nat, s: Bytes, i: nat, m: nat)
    requires k < |RULES| && i <= m && i <= |s| && m < OpenStop(k, s, i) && RULES[k].Stops(s[m])
    ensures Hidden(k, s, m)
    decreases m - i
  {
    if i < m {
      PassedStopsHidden(k, s, i + 1, m);
    }
  }

  /** A match of the first rule reaches to its own end. */
  lemma FirstReach(s: Bytes, q: nat)
    requires MatchAt(BEARER, s, q).Some?
    ensures Reach(0, s, q) == MatchAt(BEARER, s, q).value
  {
    var e := MatchAt(BEARER, s, q).value;
    assert RULES[0] == BEARER && !Hidden(0, s, e);
    if e < |s| {
      MatchEndsAtStop(BEARER, s, q);
    }
  }

  /** No match of one of the first `k + 1` rules that begins before `p` lies over it. */
  predicate StandsAlone(k: nat, s: Bytes, p: nat)
    requires k < |RULES|
  {
    forall j, q :: 0 <= j <= k && 0 <= q < p && MatchAt(RULES[j], s, q).Some? ==> MatchAt(RULES[j], s, q).value <= p
  }

  /** A match that counts lies inside itself. */
  lemma CountsIsStarred(k: nat, s: Bytes, p: nat)
    requires k < |RULES| && Counts(k, s, p)
    ensures forall i :: p <= i < MatchAt(RULES[k], s, p).value ==> Scrubbed(s)[i] == STAR
  {
    var e := MatchAt(RULES[k], s, p).value;
    assert e <= Reach(k, s, p);
    InsideOneStarred(k, s, p, e);
  }

  /** A Bearer or Basic match that begins inside no Bearer or Basic match counts, so it is overwritten whole. */
  lemma AloneCounts(k: nat, s: Bytes, p: nat)
    requires k <= 1 && MatchAt(RULES[k], s, p).Some? && StandsAlone(k, s, p)
    ensures Counts(k, s, p)
    ensures forall i :: p <= i < MatchAt(RULES[k], s, p).value ==> Scrubbed(s)[i] == STAR
  {
    AloneIsOpen(k, s, p);
    forall q | 0 <= q < p && Counts(k, s, q)
      ensures Reach(k, s, q) <= p
    {
      if k == 0 {
        FirstReach(s, q);
      } else if p < Reach(k, s, q) {
        NotStretchedOver(s, q, p);
      }
    }
    CountsIsStarred(k, s, p);
  }

  lemma NotBoth(s: Bytes, p: nat)
    requires At(s, BEARER.literal, p)
    ensures !At(s, BASIC.literal, p)
  {
    AtBytes(s, BEARER.literal, p);
    AtBytes(s, BASIC.literal, p);
    assert BEARER.literal[1] == 'e' && BASIC.literal[1] == 'a';
    assert s[p + 1] == BEARER.literal[1];
  }

  lemma AloneIsOpen(k: nat, s: Bytes, p: nat)
    requires k <= 1 && MatchAt(RULES[k], s, p).Some? && StandsAlone(k, s, p)
    ensures !Hidden(k, s, p)
  {
    if k == 1 {
      forall q | 0 <= q <= p && Counts(0, s, q)
        ensures Reach(0, s, q) <= p
      {
        FirstReach(s, q);
        NotBoth(s, q);
      }
    }
  }

  /** A Basic match stretches no further than the Bearer match over its end. */
  lemma StretchEnds(s: Bytes, q: nat, q2: nat)
    requires MatchAt(BASIC, s, q).Some? && Counts(0, s, q2)
    requires q2 <= MatchAt(BASIC, s, q).value < Reach(0, s, q2)
    ensures Reach(1, s, q) <= Reach(0, s, q2)
  {
    var g := Reach(0, s, q2);
    if g < Reach(1, s, q) {
      ReachIsOpen(0, s, q2);
      PassedStopsHidden(1, s, MatchAt(BASIC, s, q).value, g);
    }
  }

  /** What hides a byte from the second rule is a Bearer match that counts. */
  lemma HiddenByBearer(s: Bytes, i: nat) returns (q: nat)
    requires Hidden(1, s, i)
    ensures q <= i && Counts(0, s, q) && MatchAt(BEARER, s, q).Some?
    ensures i < MatchAt(BEARER, s, q).value == Reach(0, s, q)
  {
    var j: nat;
    j, q :| 0 <= j < 1 && 0 <= q <= i && Counts(j, s, q) && i < Reach(j, s, q);
    FirstReach(s, q);
  }

  /** What stretches a Basic match over a byte is a Bearer match over it. */
  lemma StretchedOver(s: Bytes, q: nat, p: nat) returns (q2: nat)
    requires Counts(1, s, q) && MatchAt(BASIC, s, q).value <= p < Reach(1, s, q)
    ensures q2 <= p && MatchAt(BEARER, s, q2).Some? && p < MatchAt(BEARER, s, q2).value
  {
    var end := MatchAt(BASIC, s, q).value;
    MatchEndsAtStop(BASIC, s, q);
    PassedStopsHidden(1, s, end, end);
    q2 := HiddenByBearer(s, end);
    StretchEnds(s, q, q2);
  }

  /** So a Basic match that begins inside the stretch of another does not stand alone. */
  lemma NotStretchedOver(s: Bytes, q: nat, p: nat)
    requires Counts(1, s, q) && MatchAt(BASIC, s, q).value <= p < Reach(1, s, q)
    requires MatchAt(BASIC, s, p).Some?
    ensures !StandsAlone(1, s, p)
  {
    var q2 := StretchedOver(s, q, p);
    NotBoth(s, q2);
    assert q2 < p && MatchAt(RULES[0], s, q2).Some?;
  }

  /** No Bearer or Basic match of the text lies over a line break. */
  predicate BreaksAreBare(s: Bytes) {
    forall j, q, i ::
      0 <= j <= 1 && 0 <= q <= i < |s| && IsBreak(s[i]) && MatchAt(RULES[j], s, q).Some? ==>
        MatchAt(RULES[j], s, q).value <= i
  }

  lemma BearerBeforeBreak(s: Bytes, q: nat, i: nat)
    requires BreaksAreBare(s) && q <= i < |s| && IsBreak(s[i]) && MatchAt(BEARER, s, q).Some?
    ensures MatchAt(BEARER, s, q).value <= i
  {
    assert MatchAt(RULES[0], s, q).Some?;
  }

  lemma NoStretchOverBreak(s: Bytes, q: nat, i: nat)
    requires BreaksAreBare(s) && q <= i < |s| && IsBreak(s[i]) && Counts(1, s, q)
    ensures Reach(1, s, q) <= i
  {
    assert MatchAt(RULES[1], s, q).value <= i;
    if i < Reach(1, s, q) {
      var q2 := StretchedOver(s, q, i);
      BearerBeforeBreak(s, q2, i);
    }
  }

  lemma NoneOverBreak(j: nat, s: Bytes, q: nat, i: nat)
    requires BreaksAreBare(s) && j <= 1 && q <= i < |s| && IsBreak(s[i]) && Counts(j, s, q)
    ensures Reach(j, s, q) <= i
  {
    if j == 0 {
      FirstReach(s, q);
      assert MatchAt(RULES[0], s, q).value <= i;
    } else {
      NoStretchOverBreak(s, q, i);
    }
  }

  lemma BareBreakIsOpen(s: Bytes, i: nat)
    requires BreaksAreBare(s) && i < |s| && IsBreak(s[i])
    ensures !Hidden(2, s, i)
  {
    if Hidden(2, s, i) {
      var j, q :| 0 <= j < 2 && 0 <= q <= i && Counts(j, s, q) && i < Reach(j, s, q);
      NoneOverBreak(j, s, q, i);
    }
  }

  /** Then a Cookie match reaches to its own end. */
  lemma CookieReach(s: Bytes, q: nat)
    requires BreaksAreBare(s) && MatchAt(COOKIE, s, q).Some?
    ensures Reach(2, s, q) == MatchAt(COOKIE, s, q).value
  {
    var e := MatchAt(COOKIE, s, q).value;
    if e < |s| {
      MatchEndsAtStop(COOKIE, s, q);
      BareBreakIsOpen(s, e);
    }
  }

  /**
    A Cookie match that begins inside no other match counts, and so is overwritten
    whole, in every text in which no Bearer or Basic match lies over a line break.
   */
  lemma CookieAloneCounts(s: Bytes, p: nat)
    requires BreaksAreBare(s) && MatchAt(COOKIE, s, p).Some? && StandsAlone(2, s, p)
    ensures Counts(2, s, p)
    ensures forall i :: p <= i < MatchAt(COOKIE, s, p).value ==> Scrubbed(s)[i] == STAR
  {
    CookieIsOpen(s, p);
    forall q | 0 <= q < p && Counts(2, s, q)
      ensures Reach(2, s, q) <= p
    {
      CookieReach(s, q);
    }
    CountsIsStarred(2, s, p);
  }

  lemma CookieIsOpen(s: Bytes, p: nat)
    requires MatchAt(COOKIE, s, p).Some? && StandsAlone(2, s, p)
    ensures !Hidden(2, s, p)
  {
    AtBytes(s, COOKIE.literal, p);
    assert s[p] == COOKIE.literal[0] == 'C';
    forall j, q | 0 <= j < 2 && 0 <= q <= p && Counts(j, s, q)
      ensures Reach(j, s, q) <= p
    {
      AtBytes(s, RULES[j].literal, q);
      assert RULES[j].literal[0] == 'B';
      if j == 0 {
        FirstReach(s, q);
      } else if p < Reach(1, s, q) {
        NotStretchedOverCookie(s, q, p);
      }
    }
  }

  lemma NotStretchedOverCookie(s: Bytes, q: nat, p: nat)
    requires Counts(1, s, q) && q < p < Reach(1, s, q) && s[p] == 'C'
    ensures !StandsAlone(2, s, p)
  {
    if p < MatchAt(BASIC, s, q).value {
      assert MatchAt(RULES[1], s, q).value > p;
    } else {
      var q2 := StretchedOver(s, q, p);
      AtBytes(s, BEARER.literal, q2);
      assert s[q2] == 'B';
      assert MatchAt(RULES[0], s, q2).value > p;
    }
  }

  lemma {:induction false} StopFreeIs(r: Rule, s: Bytes, i: nat, e: nat)
    requires NoStop(r, s, i, e) && (e < |s| ==> r.Stops(s[e]))
    ensures StopFree(r, s, i) == e
    decreases |s| - i
  {
    if i < e {
      StopFreeIs(r, s, i + 1, e);
    }
  }

  /** A match with one space after the literal, and where it ends. */
  lemma MatchWithOneSpace(r: Rule, s: Bytes, p: nat, e: nat)
    requires r == BEARER || r == BASIC
    requires At(s, r.literal, p) && p + |r.literal| + 1 < e <= |s|
    requires IsSpace(s[p + |r.literal|]) && NoStop(r, s, p + |r.literal| + 1, e) && (e < |s| ==> IsSpace(s[e]))
    ensures MatchAt(r, s, p) == Some(e)
  {
    var x := p + |r.literal| + 1;
    assert !r.Stops(s[x]);
    SpaceEndIs(s, p + |r.literal|, x);
    StopFreeIs(r, s, x, e);
  }

  /** A credential right behind the word Bearer. */
  function InARow(r: Rule, secret: Bytes): Bytes {
    "Bearer " + r.literal + " " + secret
  }

  predicate Plain(secret: Bytes) {
    secret != [] && forall k :: 0 <= k < |secret| ==> !IsSpace(secret[k]) && !IsInitial(secret[k])
  }

  lemma InARowBytes(r: Rule, secret: Bytes)
    requires (r == BEARER || r == BASIC) && Plain(secret)
    ensures
      var s := InARow(r, secret);
      var w := 7 + |r.literal|;
      && |s| == w + 1 + |secret| && At(s, BEARER.literal, 0) && s[6] == ' ' && At(s, r.literal, 7) && s[w] == ' '
      && (forall i :: 7 <= i < w ==> s[i] == r.literal[i - 7])
      && (forall i :: w < i < |s| ==> s[i] == secret[i - w - 1])
  {
    var s := InARow(r, secret);
    var w := 7 + |r.literal|;
    var lead := "Bearer " + r.literal;
    assert s == lead + (" " + secret);
    assert s[..w] == lead;
    assert s[..6] == BEARER.literal;
    assert s[7..w] == r.literal;
  }

  lemma InARowMatches(r: Rule, secret: Bytes)
    requires (r == BEARER || r == BASIC) && Plain(secret)
    ensures
      var s := InARow(r, secret);
      && MatchAt(BEARER, s, 0) == Some(7 + |r.literal|) && MatchAt(r, s, 7) == Some(|s|)
  {
    var s := InARow(r, secret);
    var w := 7 + |r.literal|;
    InARowBytes(r, secret);
    forall i | 7 <= i < |s| && i != w
      ensures !IsSpace(s[i])
    {
      assert i < w ==> s[i] == r.literal[i - 7];
      assert i > w ==> s[i] == secret[i - w - 1];
    }
    MatchWithOneSpace(BEARER, s, 0, w);
    MatchWithOneSpace(r, s, 7, |s|);
  }

  lemma InARowInitials(r: Rule, secret: Bytes, i: nat)
    requires (r == BEARER || r == BASIC) && Plain(secret)
    requires i < |InARow(r, secret)| && IsInitial(InARow(r, secret)[i])
    ensures i == 0 || i == 7
  {
    InARowBytes(r, secret);
    AtBytes(InARow(r, secret), BEARER.literal, 0);
  }

  /**
    Credentials in a row.  In "Bearer Bearer secret" and "Bearer Basic secret" the
    second keyword and the secret are a match of their own, but the first match takes
    the second keyword, and what follows it is left as it was: the secret, too.
   */
  lemma InARowSurvives(r: Rule, secret: Bytes)
    requires (r == BEARER || r == BASIC) && Plain(secret)
    ensures
      var s := InARow(r, secret);
      && MatchAt(r, s, 7) == Some(|s|)
      && forall i :: 7 + |r.literal| <= i < |s| ==> Scrubbed(s)[i] == s[i]
  {
    var s := InARow(r, secret);
    InARowMatches(r, secret);
    ScrubMasks(|RULES|, s);
    forall i | 7 + |r.literal| <= i < |s|
      ensures !Hidden(|RULES|, s, i)
    {
      forall j, q | 0 <= j < |RULES| && 0 <= q <= i && Counts(j, s, q)
        ensures Reach(j, s, q) <= i
      {
        OnlyFirstCounts(r, secret, j, q);
      }
    }
  }

  lemma OnlyFirstCounts(r: Rule, secret: Bytes, j: nat, q: nat)
    requires (r == BEARER || r == BASIC) && Plain(secret)
    requires j < |RULES| && Counts(j, InARow(r, secret), q)
    ensures j == q == 0 && Reach(j, InARow(r, secret), q) == 7 + |r.literal|
  {
    var s := InARow(r, secret);
    InARowMatches(r, secret);
    FirstReach(s, 0);
    assert Counts(0, s, 0);
    CountsAtInitial(j, s, q);
    InARowInitials(r, secret, q);
    InARowBytes(r, secret);
    AtBytes(s, BEARER.literal, 0);
    AtBytes(s, RULES[j].literal, q);
  }

  // ---------- the log says exactly what was overwritten ----------

  predicate Logged(log: seq<Entry>, i: int) {
    exists k :: 0 <= k < |log| && log[k].Has(i)
  }

  lemma LoggedInEither(a: seq<Entry>, b: seq<Entry>, i: int)
    ensures Logged(a + b, i) <==> Logged(a, i) || Logged(b, i)
  {
    if Logged(a, i) {
      var k :| 0 <= k < |a| && a[k].Has(i);
      assert (a + b)[k].Has(i);
    }
    if Logged(b, i) {
      var k :| 0 <= k < |b| && b[k].Has(i);
      assert (a + b)[|a| + k].Has(i);
    }
    if Logged(a + b, i) {
      var k :| 0 <= k < |a + b| && (a + b)[k].Has(i);
      assert if k < |a| then a[k].Has(i) else b[k - |a|].Has(i);
    }
  }

  lemma {:induction false} EntriesCover(r: Rule, spans: seq<Span>, i: int)
    ensures Logged(EntriesOf(r, spans), i) <==> Covered(spans, i)
  {
    if spans == [] {
    } else {
      var n := |spans| - 1;
      EntriesCover(r, spans[..n], i);
      CoveredByOneMore(spans, n);
      assert spans[..n + 1] == spans;
      var m := spans[n];
      var last := [Entry(m.start, if m.start <= m.end then m.end - m.start else 0, r)];
      LoggedInEither(EntriesOf(r, spans[..n]), last, i);
      assert last[0].Has(i) <==> spans[n].Has(i);
      assert Logged(last, i) <==> last[0].Has(i);
    }
  }

  lemma {:induction false} LogIsExactBy(rules: seq<Rule>, n: nat, s: Bytes, i: nat)
    requires n <= |rules|
    ensures
      var (out, log) := ScrubBy(rules, n, s);
      && |out| == |s|
      && (i < |s| ==> out[i] == if Logged(log, i) then STAR else s[i])
  {
    if n == 0 {
    } else {
      LogIsExactBy(rules, n - 1, s, i);
      var (out, log) := ScrubBy(rules, n - 1, s);
      var spans := FindAll(rules[n - 1], out);
      EntriesCover(rules[n - 1], spans, i);
      LoggedInEither(log, EntriesOf(rules[n - 1], spans), i);
    }
  }

  /** The length stays; the logged regions are all stars; every other byte is as it was. */
  lemma LogIsExact(s: Bytes)
    ensures |Scrubbed(s)| == |s|
    ensures forall i :: 0 <= i < |s| ==> Scrubbed(s)[i] == if Logged(ScrubLog(s), i) then STAR else s[i]
  {
    LogIsExactBy(RULES, |RULES|, s, 0);
    forall i | 0 <= i < |s|
      ensures Scrubbed(s)[i] == if Logged(ScrubLog(s), i) then STAR else s[i]
    {
      LogIsExactBy(RULES, |RULES|, s, i);
    }
  }
}
