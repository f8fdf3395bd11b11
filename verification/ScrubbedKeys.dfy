/** When a recorded request still answers, after it has been scrubbed, the request it was recorded from. */
module ScrubbedKeys {
  import opened ByteStrings
  import opened HttpText
  import opened Options
  import opened Redact

  // ---------- the first words of a text ----------

  predicate SolidEnds(lead: Bytes) {
    lead != [] && !IsBlank(lead[0]) && !IsBlank(lead[|lead| - 1])
  }

  lemma BeforeBreakAfter(lead: Bytes, rest: Bytes)
    requires '\n' !in lead
    ensures Before(lead + rest, "\n") == lead + Before(rest, "\n")
  {
    var s := lead + rest;
    forall k | 0 <= k <= |s|
      ensures At(s, "\n", k) <==> k >= |lead| && At(rest, "\n", k - |lead|)
    {
      NewlineBytes(s, k);
      NewlineBytes(rest, k - |lead|);
    }
    var x, y := Index(s, "\n"), Index(rest, "\n");
    if y.Some? {
      assert At(s, "\n", |lead| + y.value);
    }
  }

  /** The first line of a text begins with whatever solid text without a break that begins with. */
  lemma LeadLine(lead: Bytes, rest: Bytes) returns (more: Bytes)
    requires SolidEnds(lead) && '\n' !in lead
    ensures more <= rest && FirstLine(lead + rest) == lead + more
  {
    var y := TrimRight(rest);
    TrimAfterLine(lead, rest);
    BeforeBreakAfter(lead, y);
    var z := Before(y, "\n");
    TrimAfterLine(lead, z);
    more := TrimRight(z);
  }

  lemma FirstWord(t: Bytes)
    requires t != [] && !IsBlank(t[0])
    ensures Fields(FirstLine(t)) != [] && Fields(FirstLine(t))[0] == t[..TokenEnd(t)]
  {
    var n := TokenEnd(t);
    var word, rest := t[..n], t[n..];
    assert t == word + rest && word != [];
    assert forall k :: 0 <= k < n ==> word[k] == t[k];
    var more := LeadLine(word, rest);
    FieldsOfToken(word, more);
  }

  lemma TwoWordsSolid(verb: Bytes, target: Bytes)
    requires IsToken(verb) && IsToken(target)
    ensures SolidEnds(verb + " " + target) && '\n' !in verb + " " + target
  {
    var lead := verb + " " + target;
    assert lead[0] == verb[0] && lead[|lead| - 1] == target[|target| - 1];
    assert forall k :: 0 <= k < |lead| ==> !IsBlank(lead[k]) || lead[k] == ' ';
  }

  lemma RegroupWords(a: Bytes, b: Bytes, c: Bytes, d: Bytes)
    ensures a + b + c + d == a + (b + (c + d))
  {}

  lemma TwoFields(verb: Bytes, target: Bytes, w: Bytes)
    requires IsToken(verb) && IsToken(target) && (w != [] ==> IsBlank(w[0]))
    ensures Fields(verb + " " + target + w) == [verb] + ([target] + Fields(w))
  {
    RegroupWords(verb, " ", target, w);
    FieldsStep(verb, target + w);
    FieldsOfToken(target, w);
  }

  lemma FirstWords(verb: Bytes, target: Bytes, rest: Bytes) returns (more: seq<Bytes>)
    requires IsToken(verb) && IsToken(target) && (rest != [] ==> IsBlank(rest[0]))
    ensures Fields(FirstLine(verb + " " + target + rest)) == [verb] + ([target] + more)
  {
    TwoWordsSolid(verb, target);
    var w := LeadLine(verb + " " + target, rest);
    TwoFields(verb, target, w);
    more := Fields(w);
  }

  lemma KeyOfWords(t: Bytes, verb: Bytes, target: Bytes, more: seq<Bytes>)
    requires Fields(FirstLine(t)) == [verb] + ([target] + more)
    ensures RequestKey(t) == KeyFor(verb, target)
  {
    var parts := Fields(FirstLine(t));
    assert |parts| >= 2 && parts[0] == verb && parts[1] == target;
  }

  /** The key of a text that begins with two words is that of the two words. */
  lemma KeyOfTwoWords(verb: Bytes, target: Bytes, rest: Bytes)
    requires IsToken(verb) && IsToken(target) && (rest != [] ==> IsBlank(rest[0]))
    ensures RequestKey(verb + " " + target + rest) == KeyFor(verb, target)
  {
    var more := FirstWords(verb, target, rest);
    KeyOfWords(verb + " " + target + rest, verb, target, more);
  }

  // ---------- keys of words that differ ----------

  predicate IsGrpc(verb: Bytes, target: Bytes) {
    verb == "POST" && ServiceAndMethod(target).Some?
  }

  /** How much of the target is in the key: all of it in a gRPC call, else what precedes the query. */
  function KeyedTarget(verb: Bytes, target: Bytes): (n: nat)
    ensures n <= |target|
  {
    if IsGrpc(verb, target) then |target| else |Before(target, "?")|
  }

  /** `other` is `target` up to `q`, and there a star instead of a letter. */
  predicate StarredAt(target: Bytes, other: Bytes, q: nat) {
    q < |target| && q < |other| && other[..q] == target[..q] && IsInitial(target[q]) && other[q] == STAR
  }

  lemma QueryStart(target: Bytes, q: nat)
    requires q < |target| && target[q] != '?' && |Before(target, "?")| <= q
    ensures |Before(target, "?")| < q && target[|Before(target, "?")|] == '?'
  {
    var z := Index(target, "?").value;
    assert target[z..z + 1] == "?";
  }

  lemma NoQueryBefore(target: Bytes, k: nat)
    requires k < |Before(target, "?")|
    ensures target[k] != '?'
  {
    assert target[k..k + 1] == [target[k]];
    assert !At(target, "?", k);
  }

  lemma SameBefore(target: Bytes, other: Bytes, q: nat)
    requires StarredAt(target, other, q)
    ensures if |Before(target, "?")| <= q then Before(other, "?") == Before(target, "?") else q < |Before(other, "?")|
  {
    forall k | 0 <= k < q
      ensures other[k] == target[k]
    {
      assert other[..q][k] == target[..q][k];
    }
    if |Before(target, "?")| <= q {
      QueryStart(target, q);
      var z := |Before(target, "?")|;
      assert other[z..z + 1] == "?";
      assert At(other, "?", z);
      if |Before(other, "?")| < z {
        NoQueryBefore(target, |Before(other, "?")|);
        QueryAt(other);
      }
      assert other[..z] == target[..z];
    } else if |Before(other, "?")| <= q {
      NoQueryBefore(target, |Before(other, "?")|);
      QueryAt(other);
    }
  }

  lemma QueryAt(s: Bytes)
    requires |Before(s, "?")| < |s|
    ensures s[|Before(s, "?")|] == '?'
  {
    var z := Index(s, "?").value;
    assert s[z..z + 1] == "?";
  }

  /** A star in what the key is made of changes the key. */
  lemma KeyChanges(verb: Bytes, target: Bytes, other: Bytes, q: nat)
    requires StarredAt(target, other, q) && q < KeyedTarget(verb, target)
    ensures KeyFor(verb, other) != KeyFor(verb, target)
  {
    SameBefore(target, other, q);
    if IsGrpc(verb, target) && IsGrpc(verb, other) {
      GrpcKeysDiffer(target, other, q);
    } else if IsGrpc(verb, target) || IsGrpc(verb, other) {
      KindsDiffer(target, other);
    } else {
      var n := |verb| + 1 + q;
      assert KeyFor(verb, target)[n] == target[q];
      assert KeyFor(verb, other)[n] == other[q];
    }
  }

  lemma StrippedByte(target: Bytes, q: nat)
    requires q < |target| && (q == 0 ==> target[0] != '/')
    ensures
      var n := if target[0] == '/' then 4 + q else 5 + q;
      n < |"GRPC " + Stripped(target)| && ("GRPC " + Stripped(target))[n] == target[q]
  {
    assert target[..1] == [target[0]];
  }

  lemma GrpcKeysDiffer(target: Bytes, other: Bytes, q: nat)
    requires StarredAt(target, other, q) && ServiceAndMethod(target).Some? && ServiceAndMethod(other).Some?
    ensures KeyFor("POST", other) != KeyFor("POST", target)
  {
    GrpcKeyIs(target);
    GrpcKeyIs(other);
    assert q > 0 ==> other[..q][0] == target[..q][0];
    StrippedByte(target, q);
    StrippedByte(other, q);
  }

  lemma KindsDiffer(target: Bytes, other: Bytes)
    requires ServiceAndMethod(target).Some? != ServiceAndMethod(other).Some?
    ensures KeyFor("POST", other) != KeyFor("POST", target)
  {
    assert Upper("POST")[0] == 'P';
    if ServiceAndMethod(target).Some? {
      GrpcKeyIs(target);
      assert KeyFor("POST", other)[0] == 'P' && KeyFor("POST", target)[0] == 'G';
    } else {
      GrpcKeyIs(other);
      assert KeyFor("POST", other)[0] == 'G' && KeyFor("POST", target)[0] == 'P';
    }
  }

  lemma NoNewSlashes(target: Bytes, other: Bytes)
    requires target != [] && other != [] && other[0] == target[0] && ServiceAndMethod(target).None?
    requires forall k :: 0 <= k < |other| && other[k] == '/' ==> k < |target| && target[k] == '/'
    ensures ServiceAndMethod(other).None?
  {
    var a, b := Stripped(target), Stripped(other);
    assert target[..1] == [target[0]] && other[..1] == [other[0]];
    assert forall k :: 0 <= k < |b| && b[k] == '/' ==> k < |a| && a[k] == '/';
  }

  /** A star behind what the key is made of does not, if there are no new slashes. */
  lemma KeyStays(verb: Bytes, target: Bytes, other: Bytes, q: nat)
    requires StarredAt(target, other, q) && KeyedTarget(verb, target) <= q
    requires forall k :: 0 <= k < |other| && other[k] == '/' ==> k < |target| && target[k] == '/'
    ensures KeyFor(verb, other) == KeyFor(verb, target)
  {
    SameBefore(target, other, q);
    QueryStart(target, q);
    assert other[..q][0] == target[..q][0];
    if verb == "POST" {
      NoNewSlashes(target, other);
    }
  }

  // ---------- keys of texts with stretches of stars ----------

  /** Stretches of lost bytes begin with the first byte of a rule and end at a space. */
  ghost predicate Stretches(v: Bytes, lost: seq<bool>) {
    |lost| == |v| && forall i :: 0 <= i < |v| ==> SoundAt(v, lost, i)
  }

  predicate SoundAt(v: Bytes, lost: seq<bool>, i: nat)
    requires i < |v| == |lost|
  {
    && (lost[i] && (i == 0 || !lost[i - 1]) ==> IsInitial(v[i]))
    && (i > 0 && lost[i - 1] && !lost[i] ==> IsSpace(v[i]))
  }

  ghost predicate Overwritten(v: Bytes, lost: seq<bool>, t: Bytes) {
    |t| == |v| == |lost| && forall i :: 0 <= i < |v| ==> t[i] == if lost[i] then STAR else v[i]
  }

  /** The text begins with two words and a space behind each. */
  ghost predicate BeginsWith(v: Bytes, verb: Bytes, target: Bytes) {
    && IsToken(verb) && IsToken(target) && |verb| + 1 + |target| < |v|
    && (forall i :: 0 <= i < |verb| ==> v[i] == verb[i]) && v[|verb|] == ' '
    && (forall k :: 0 <= k < |target| ==> v[|verb| + 1 + k] == target[k]) && v[|verb| + 1 + |target|] == ' '
  }

  lemma {:induction false} FirstLost(v: Bytes, lost: seq<bool>, n: nat) returns (q: nat)
    requires Stretches(v, lost) && n <= |v|
    ensures q <= n && (q < n ==> lost[q] && IsInitial(v[q])) && forall i :: 0 <= i < q ==> !lost[i]
  {
    if n == 0 {
      q := 0;
    } else {
      q := FirstLost(v, lost, n - 1);
      assert SoundAt(v, lost, n - 1);
      if q == n - 1 && !lost[q] {
        q := n;
      }
    }
  }

  /** With nothing lost before the end of the target the key stays. */
  lemma KeyIntact(v: Bytes, verb: Bytes, target: Bytes, lost: seq<bool>, t: Bytes)
    requires BeginsWith(v, verb, target) && Stretches(v, lost) && Overwritten(v, lost, t)
    requires forall i :: 0 <= i < |verb| + 1 + |target| ==> !lost[i]
    ensures RequestKey(t) == KeyFor(verb, target)
  {
    var m := |verb| + 1 + |target|;
    assert SoundAt(v, lost, m);
    assert t == verb + " " + target + t[m..];
    KeyOfTwoWords(verb, target, t[m..]);
  }

  /** With something of the verb lost the key is another one. */
  lemma VerbLost(v: Bytes, verb: Bytes, target: Bytes, lost: seq<bool>, t: Bytes, q: nat)
    requires BeginsWith(v, verb, target) && Overwritten(v, lost, t)
    requires q < |verb| && lost[q] && IsInitial(v[q]) && forall i :: 0 <= i < q ==> !lost[i]
    ensures RequestKey(t) != KeyFor(verb, target)
  {
    assert forall i :: 0 <= i <= q ==> !IsBlank(t[i]);
    FirstWord(t);
    assert q < TokenEnd(t) && t[..TokenEnd(t)][q] == STAR;
    KeyHasStar(t, q);
    KeyHasLetter(verb, target, q);
  }

  lemma KeyHasStar(t: Bytes, q: nat)
    requires Fields(FirstLine(t)) != [] && q < |Fields(FirstLine(t))[0]| && Fields(FirstLine(t))[0][q] == STAR
    ensures RequestKey(t) == "" || (q < |RequestKey(t)| && RequestKey(t)[q] == STAR)
  {
    var verb := Fields(FirstLine(t))[0];
    assert forall k :: 0 <= k < |"POST"| ==> "POST"[k] != STAR;
    assert MatchGRPCUnary(t).None?;
    assert Upper(verb)[q] == STAR;
  }

  lemma KeyHasLetter(verb: Bytes, target: Bytes, q: nat)
    requires q < |verb| && IsInitial(verb[q])
    ensures q < |KeyFor(verb, target)| && KeyFor(verb, target)[q] == verb[q]
  {
    assert forall k :: 0 <= k < |"POST"| ==> !IsInitial("POST"[k]);
    assert Upper(verb)[q] == verb[q];
  }

  /** The first `q` bytes of the target are left, and the next is lost. */
  ghost predicate TargetLost(v: Bytes, verb: Bytes, target: Bytes, lost: seq<bool>, t: Bytes, q: nat) {
    && BeginsWith(v, verb, target) && Stretches(v, lost) && Overwritten(v, lost, t)
    && q < |target| && lost[|verb| + 1 + q] && IsInitial(target[q])
    && forall i :: 0 <= i < |verb| + 1 + q ==> !lost[i]
  }

  lemma Reassemble(t: Bytes, verb: Bytes, b: Bytes)
    requires |verb| + 1 + |b| <= |t| && t[..|verb| + 1] == verb + " " && t[|verb| + 1..][..|b|] == b
    ensures t == verb + " " + b + t[|verb| + 1..][|b|..]
  {}

  lemma SecondWordSolid(v: Bytes, verb: Bytes, target: Bytes, lost: seq<bool>, t: Bytes, q: nat)
    requires TargetLost(v, verb, target, lost, t, q)
    ensures t[..|verb| + 1] == verb + " "
    ensures q < TokenEnd(t[|verb| + 1..])
  {
    var tail := t[|verb| + 1..];
    forall k | 0 <= k <= q
      ensures !IsBlank(tail[k])
    {
      assert tail[k] == t[|verb| + 1 + k] && v[|verb| + 1 + k] == target[k];
    }
  }

  /** The second word of the text: the target as it is left, and what has grown onto it. */
  lemma SecondWord(v: Bytes, verb: Bytes, target: Bytes, lost: seq<bool>, t: Bytes, q: nat) returns (b: Bytes)
    requires TargetLost(v, verb, target, lost, t, q)
    ensures IsToken(b) && RequestKey(t) == KeyFor(verb, b)
    ensures |verb| + 1 + |b| <= |t| && forall k :: 0 <= k < |b| ==> b[k] == t[|verb| + 1 + k]
    ensures q < |b|
  {
    SecondWordSolid(v, verb, target, lost, t, q);
    var tail := t[|verb| + 1..];
    var n := TokenEnd(tail);
    b := tail[..n];
    assert forall k :: 0 <= k < |b| ==> b[k] == tail[k];
    Reassemble(t, verb, b);
    KeyOfTwoWords(verb, b, tail[n..]);
  }

  /** What has grown onto the target, over the space behind it, is lost. */
  lemma {:induction false} GrownIsLost(
      v: Bytes, verb: Bytes, target: Bytes, lost: seq<bool>, t: Bytes, b: Bytes, k: nat)
    requires BeginsWith(v, verb, target) && Stretches(v, lost) && Overwritten(v, lost, t)
    requires |target| <= k < |b| && |verb| + 1 + |b| <= |t|
    requires IsToken(b) && forall j :: 0 <= j < |b| ==> b[j] == t[|verb| + 1 + j]
    ensures lost[|verb| + 1 + k]
  {
    assert b[k] == t[|verb| + 1 + k] && SoundAt(v, lost, |verb| + 1 + k);
    if k > |target| {
      GrownIsLost(v, verb, target, lost, t, b, k - 1);
    }
  }

  lemma SlashesAreOld(v: Bytes, verb: Bytes, target: Bytes, lost: seq<bool>, t: Bytes, b: Bytes, k: nat)
    requires BeginsWith(v, verb, target) && Stretches(v, lost) && Overwritten(v, lost, t)
    requires |verb| + 1 + |b| <= |t|
    requires IsToken(b) && forall j :: 0 <= j < |b| ==> b[j] == t[|verb| + 1 + j]
    requires k < |b| && b[k] == '/'
    ensures k < |target| && target[k] == '/'
  {
    if k >= |target| {
      GrownIsLost(v, verb, target, lost, t, b, k);
    }
  }

  lemma SecondWordStarred(
      v: Bytes, verb: Bytes, target: Bytes, lost: seq<bool>, t: Bytes, b: Bytes, q: nat)
    requires TargetLost(v, verb, target, lost, t, q)
    requires q < |b| && |verb| + 1 + |b| <= |t| && forall j :: 0 <= j < |b| ==> b[j] == t[|verb| + 1 + j]
    ensures StarredAt(target, b, q)
  {
    forall k | 0 <= k < q
      ensures b[k] == target[k]
    {
      assert !lost[|verb| + 1 + k] && v[|verb| + 1 + k] == target[k];
    }
    assert b[..q] == target[..q];
  }

  lemma TargetKey(v: Bytes, verb: Bytes, target: Bytes, lost: seq<bool>, t: Bytes, q: nat)
    requires TargetLost(v, verb, target, lost, t, q)
    ensures RequestKey(t) == KeyFor(verb, target) <==> KeyedTarget(verb, target) <= q
  {
    var b := SecondWord(v, verb, target, lost, t, q);
    SecondWordStarred(v, verb, target, lost, t, b, q);
    if q < KeyedTarget(verb, target) {
      KeyChanges(verb, target, b, q);
    } else {
      forall k | 0 <= k < |b| && b[k] == '/'
        ensures k < |target| && target[k] == '/'
      {
        SlashesAreOld(v, verb, target, lost, t, b, k);
      }
      KeyStays(verb, target, b, q);
    }
  }

  lemma KeyIff(v: Bytes, verb: Bytes, target: Bytes, lost: seq<bool>, t: Bytes)
    requires BeginsWith(v, verb, target) && Stretches(v, lost) && Overwritten(v, lost, t)
    ensures RequestKey(t) == KeyFor(verb, target)
      <==> forall i :: 0 <= i < |verb| + 1 + KeyedTarget(verb, target) ==> !lost[i]
  {
    var q := FirstLost(v, lost, |verb| + 1 + |target|);
    if q == |verb| + 1 + |target| {
      KeyIntact(v, verb, target, lost, t);
    } else if q < |verb| {
      VerbLost(v, verb, target, lost, t, q);
    } else {
      var k := q - |verb| - 1;
      assert k >= 0 && v[q] == target[k];
      TargetKey(v, verb, target, lost, t, k);
    }
  }

  // ---------- keys of scrubbed requests ----------

  /** A recorded request: its line and whatever follows it. */
  function Recorded(verb: Bytes, target: Bytes, version: Bytes, rest: Bytes): Bytes {
    verb + " " + target + (" " + version + CRLF + rest)
  }

  lemma RecordedBegins(verb: Bytes, target: Bytes, version: Bytes, rest: Bytes)
    requires IsToken(verb) && IsToken(target)
    ensures BeginsWith(Recorded(verb, target, version, rest), verb, target)
  {
    var v := Recorded(verb, target, version, rest);
    var lead := verb + " " + target;
    assert v[..|lead|] == lead;
    assert forall i :: 0 <= i < |lead| ==> v[i] == lead[i];
  }

  /** Byte by byte, whether a match that counts lies over it. */
  function Losses(v: Bytes): (lost: seq<bool>)
    ensures |lost| == |v| && forall i :: 0 <= i < |v| ==> lost[i] == Hidden(|RULES|, v, i)
  {
    seq(|v|, i requires 0 <= i < |v| => Hidden(|RULES|, v, i))
  }

  lemma LossesAreStretches(v: Bytes)
    ensures Stretches(v, Losses(v)) && Overwritten(v, Losses(v), Scrubbed(v))
  {
    var lost := Losses(v);
    ScrubMasks(|RULES|, v);
    assert Masks(|RULES|, v, Scrubbed(v));
    forall i | 0 <= i < |v|
      ensures SoundAt(v, lost, i)
    {
      if lost[i] && (i == 0 || !lost[i - 1]) {
        HiddenBegins(|RULES|, v, i);
      }
      if i > 0 && lost[i - 1] && !lost[i] {
        HiddenEnds(|RULES|, v, i);
      }
    }
  }

  /**
    The recorded request still has its key, and so still answers the request it was
    recorded from, if and only if no match of the recorded text that counts lies over
    any byte of its verb or of the part of its target that is in the key.
   */
  lemma KeySurvivesIff(verb: Bytes, target: Bytes, version: Bytes, rest: Bytes)
    requires IsToken(verb) && IsToken(target)
    ensures
      var v := Recorded(verb, target, version, rest);
      RequestKey(Scrubbed(v)) == RequestKey(v) <==>
        (forall i :: 0 <= i < |verb| + 1 + KeyedTarget(verb, target) ==> !Losses(v)[i])
  {
    var v := Recorded(verb, target, version, rest);
    RecordedBegins(verb, target, version, rest);
    LossesAreStretches(v);
    KeyOfTwoWords(verb, target, " " + version + CRLF + rest);
    KeyIff(v, verb, target, Losses(v), Scrubbed(v));
  }

  /** A match that counts anywhere in what the key is made of changes it. */
  lemma CountsChangesKey(verb: Bytes, target: Bytes, version: Bytes, rest: Bytes, k: nat, p: nat)
    requires IsToken(verb) && IsToken(target) && p < |verb| + 1 + KeyedTarget(verb, target)
    requires k < |RULES| && Counts(k, Recorded(verb, target, version, rest), p)
    ensures
      var v := Recorded(verb, target, version, rest);
      RequestKey(Scrubbed(v)) != RequestKey(v)
  {
    CountsIsLost(k, Recorded(verb, target, version, rest), p);
    KeySurvivesIff(verb, target, version, rest);
  }

  lemma FirstCounts(v: Bytes, p: nat)
    requires p <= |v| && MatchAt(BASIC, v, p).Some? && forall q :: 0 <= q < p ==> !IsInitial(v[q])
    ensures Counts(1, v, p)
  {
    AloneWithoutInitials(1, v, p);
    AloneCounts(1, v, p);
  }

  /** So does a Basic match in it before which no rule can begin. */
  lemma FirstBasicChangesKey(verb: Bytes, target: Bytes, version: Bytes, rest: Bytes, p: nat)
    requires IsToken(verb) && IsToken(target) && p < |verb| + 1 + KeyedTarget(verb, target)
    requires
      var v := Recorded(verb, target, version, rest);
      p <= |v| && MatchAt(BASIC, v, p).Some? && forall q :: 0 <= q < p ==> !IsInitial(v[q])
    ensures
      var v := Recorded(verb, target, version, rest);
      RequestKey(Scrubbed(v)) != RequestKey(v)
  {
    FirstCounts(Recorded(verb, target, version, rest), p);
    CountsChangesKey(verb, target, version, rest, 1, p);
  }

  /**
    A request that is no longer found: "/Basic" at the end of the target and the
    version behind it are taken for a credential.
   */
  lemma BasicPathLost(verb: Bytes, version: Bytes, rest: Bytes)
    requires IsToken(verb) && IsToken(version) && forall k :: 0 <= k < |verb| ==> !IsInitial(verb[k])
    ensures
      var v := Recorded(verb, "/Basic", version, rest);
      RequestKey(Scrubbed(v)) != RequestKey(v)
  {
    BasicPathMatches(verb, version, rest);
    BasicPathInitials(verb, version, rest);
    KeyedBasicPath(verb);
    FirstBasicChangesKey(verb, "/Basic", version, rest, |verb| + 2);
  }

  lemma NoQuery(target: Bytes)
    requires '?' !in target
    ensures Before(target, "?") == target
  {
    if |Before(target, "?")| < |target| {
      QueryAt(target);
    }
  }

  lemma KeyedBasicPath(verb: Bytes)
    ensures IsToken("/Basic") && KeyedTarget(verb, "/Basic") == 6
  {
    var path: Bytes := "/Basic";
    assert path[0] == '/' && path[1..] == BASIC.literal;
    assert forall k :: 1 <= k < 6 ==> path[k] == BASIC.literal[k - 1];
    assert forall k :: 0 <= k < 6 ==> path[k] != '?' && !IsBlank(path[k]);
    NoQuery(path);
  }

  lemma CountsIsLost(k: nat, v: Bytes, p: nat)
    requires k < |RULES| && Counts(k, v, p)
    ensures p < |v| && Losses(v)[p]
  {
    CountsAtInitial(k, v, p);
    assert Hidden(|RULES|, v, p);
  }

  lemma BasicPathBytes(verb: Bytes, version: Bytes, rest: Bytes)
    ensures
      var v := Recorded(verb, "/Basic", version, rest);
      var p := |verb| + 2;
      && |v| == p + 6 + |version| + 2 + |rest| && v[..|verb|] == verb && v[|verb|] == ' ' && v[p - 1] == '/'
      && At(v, BASIC.literal, p) && v[p + 5] == ' ' && v[p + 6..p + 6 + |version|] == version
      && v[p + 6 + |version|] == '\r'
  {
    var v := Recorded(verb, "/Basic", version, rest);
    var lead := verb + " /Basic ";
    assert v == lead + (version + CRLF + rest);
    assert v == (lead + version) + (CRLF + rest);
    assert v[|lead|..] == version + CRLF + rest;
    assert lead[|verb| + 2..|verb| + 7] == BASIC.literal;
    assert v[..|lead|] == lead;
    assert v[|verb| + 2..|verb| + 7] == lead[|verb| + 2..|verb| + 7];
  }

  lemma BasicPathMatches(verb: Bytes, version: Bytes, rest: Bytes)
    requires IsToken(version)
    ensures MatchAt(BASIC, Recorded(verb, "/Basic", version, rest), |verb| + 2) == Some(|verb| + 8 + |version|)
  {
    BasicPathBytes(verb, version, rest);
    BasicMatchAt(Recorded(verb, "/Basic", version, rest), |verb| + 2, version);
  }

  lemma BasicMatchAt(v: Bytes, p: nat, word: Bytes)
    requires IsToken(word) && p + 6 + |word| < |v| && At(v, BASIC.literal, p) && v[p + 5] == ' '
    requires v[p + 6..p + 6 + |word|] == word && v[p + 6 + |word|] == '\r'
    ensures MatchAt(BASIC, v, p) == Some(p + 6 + |word|)
  {
    var e := p + 6 + |word|;
    forall k | p + 6 <= k < e
      ensures !IsSpace(v[k])
    {
      assert v[k] == v[p + 6..e][k - p - 6];
    }
    MatchWithOneSpace(BASIC, v, p, e);
  }

  lemma BasicPathInitials(verb: Bytes, version: Bytes, rest: Bytes)
    requires forall k :: 0 <= k < |verb| ==> !IsInitial(verb[k])
    ensures
      var v := Recorded(verb, "/Basic", version, rest);
      |verb| + 2 <= |v| && forall q :: 0 <= q < |verb| + 2 ==> !IsInitial(v[q])
  {
    BasicPathBytes(verb, version, rest);
    var v := Recorded(verb, "/Basic", version, rest);
    assert forall q :: 0 <= q < |verb| ==> v[q] == v[..|verb|][q];
  }

  /** A match before which no rule can begin stands alone. */
  lemma AloneWithoutInitials(k: nat, v: Bytes, p: nat)
    requires k < |RULES| && p <= |v| && forall q :: 0 <= q < p ==> !IsInitial(v[q])
    ensures StandsAlone(k, v, p)
  {
    forall j, q | 0 <= j <= k && 0 <= q < p
      ensures MatchAt(RULES[j], v, q).None?
    {
      Initials(j);
      AtBytes(v, RULES[j].literal, q);
    }
  }
}
