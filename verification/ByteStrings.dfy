/** Option values, for the source's nil results and missing matches. */
module Options {
  datatype Option<+T> = None | Some(value: T)
}

/** What a loop with a `seen` map collects: each value once, where it first appears. */
module FirstSeen {
  import opened Options

  function Firsts<T(==)>(found: seq<Option<T>>, n: nat): seq<T>
    requires n <= |found|
  {
    if n == 0 then []
    else
      var before := Firsts(found, n - 1);
      if found[n - 1].None? || found[n - 1].value in before then before else before + [found[n - 1].value]
  }

  /** No value is listed twice. */
  lemma {:induction false} FirstsDistinct<T>(found: seq<Option<T>>, n: nat)
    requires n <= |found|
    ensures forall a, b :: 0 <= a < b < |Firsts(found, n)| ==> Firsts(found, n)[a] != Firsts(found, n)[b]
  {
    if n == 0 {
    } else {
      FirstsDistinct(found, n - 1);
      var before := Firsts(found, n - 1);
      assert forall a :: 0 <= a < |before| ==> before[a] in before;
    }
  }

  /** A value is listed exactly if it was found. */
  lemma {:induction false} FirstsComplete<T>(found: seq<Option<T>>, n: nat, x: T)
    requires n <= |found|
    ensures x in Firsts(found, n) <==> Some(x) in found[..n]
  {
    if n == 0 {
    } else {
      FirstsComplete(found, n - 1, x);
      assert found[..n] == found[..n - 1] + [found[n - 1]];
    }
  }
}

/**
  Byte strings and the search functions of Go's `bytes` and `strings` packages
  that the collector and the replay proxy share.  A byte is a character below 256.
 */
module ByteStrings {
  import opened Options

  type byte = c: char | c < 256 as char
  type Bytes = seq<byte>

  const CRLF: Bytes := "\r\n"

  /** `pat` occurs in `s` at offset `i`. */
  predicate At(s: Bytes, pat: Bytes, i: int) {
    0 <= i && i + |pat| <= |s| && s[i..i + |pat|] == pat
  }

  /** Occurrence, byte by byte. */
  lemma AtBytes(s: Bytes, pat: Bytes, i: int)
    ensures At(s, pat, i)
      <==> 0 <= i && i + |pat| <= |s| && forall k :: i <= k < i + |pat| ==> s[k] == pat[k - i]
  {
    if 0 <= i && i + |pat| <= |s| {
      var t := s[i..i + |pat|];
      assert forall k :: i <= k < i + |pat| ==> s[k] == t[k - i];
      assert forall j :: 0 <= j < |pat| ==> t[j] == s[i + j];
    }
  }

  lemma BreakBytes(s: Bytes, k: int)
    ensures At(s, CRLF, k) <==> 0 <= k && k + 2 <= |s| && s[k] == '\r' && s[k + 1] == '\n'
  {
    if 0 <= k && k + 2 <= |s| {
      assert s[k..k + 2] == [s[k], s[k + 1]];
    }
  }

  predicate Contains(s: Bytes, pat: Bytes) {
    exists i :: 0 <= i <= |s| && At(s, pat, i)
  }

  predicate HasPrefix(s: Bytes, prefix: Bytes) {
    prefix <= s
  }

  /** The first occurrence of `pat` in `s` at or after `from`. */
  function IndexFrom(s: Bytes, pat: Bytes, from: nat): (r: Option<nat>)
    requires from <= |s|
    ensures r.Some? ==> from <= r.value && At(s, pat, r.value)
    ensures r.Some? ==> forall k :: from <= k < r.value ==> !At(s, pat, k)
    ensures r.None? ==> forall k :: from <= k <= |s| ==> !At(s, pat, k)
    decreases |s| - from
  {
    if At(s, pat, from) then Some(from)
    else if from == |s| then None
    else IndexFrom(s, pat, from + 1)
  }

  function Index(s: Bytes, pat: Bytes): (r: Option<nat>)
    ensures r.Some? <==> Contains(s, pat)
    ensures r.Some? ==> r.value + |pat| <= |s|
  {
    IndexFrom(s, pat, 0)
  }

  /** The last place of `c` in `s`. */
  function LastByte(s: Bytes, c: byte): (r: Option<nat>)
    ensures r.Some? ==> r.value < |s| && s[r.value] == c && forall k :: r.value < k < |s| ==> s[k] != c
    ensures r.None? ==> forall k :: 0 <= k < |s| ==> s[k] != c
  {
    if s == [] then None
    else if s[|s| - 1] == c then Some(|s| - 1)
    else LastByte(s[..|s| - 1], c)
  }

  /** What precedes the first `pat`, or all of `s`: the first result of `strings.Cut`. */
  function Before(s: Bytes, pat: Bytes): (r: Bytes)
    ensures r <= s
  {
    match Index(s, pat)
    case None => s
    case Some(i) => s[..i]
  }

  /**
    A pattern without line-break bytes cannot straddle the end of a line: if it
    does not occur in `line`, its first occurrence in `line CRLF pat tail` is the
    one that starts the second line.
   */
  lemma IndexAfterCleanLine(line: Bytes, pat: Bytes, tail: Bytes)
    requires pat != [] && '\r' !in pat && '\n' !in pat
    requires !Contains(line, pat)
    ensures Index(line + CRLF + pat + tail, pat) == Some(|line| + 2)
  {
    var s := line + CRLF + pat + tail;
    assert s[|line| + 2..|line| + 2 + |pat|] == pat;
    assert At(s, pat, |line| + 2);
    forall k | 0 <= k < |line| + 2
      ensures !At(s, pat, k)
    {
      if At(s, pat, k) && k + |pat| <= |line| {
        assert line[k..k + |pat|] == s[k..k + |pat|];
        assert At(line, pat, k);
      } else if k + |pat| > |line| {
        var j := if k <= |line| then |line| - k else 0;
        assert s[k + j] == '\r' || s[k + j] == '\n';
        assert s[k..k + |pat|][j] == s[k + j] != pat[j];
      }
    }
  }

  lemma BeforeByte(s: Bytes, c: byte, i: nat)
    requires i <= |s| && (i < |s| ==> s[i] == c) && forall k :: 0 <= k < i ==> s[k] != c
    ensures Before(s, [c]) == s[..i]
  {
    forall k | 0 <= k <= |s|
      ensures At(s, [c], k) <==> k < |s| && s[k] == c
    {
      if k < |s| {
        assert s[k..k + 1] == [s[k]];
      }
    }
  }

  lemma BeforeColon(s: Bytes, i: nat)
    requires i <= |s| && (i < |s| ==> s[i] == ':') && forall k :: 0 <= k < i ==> s[k] != ':'
    ensures Before(s, ":") == s[..i]
  {
    BeforeByte(s, ':', i);
  }

  lemma BeforeQuestion(s: Bytes, i: nat)
    requires i <= |s| && (i < |s| ==> s[i] == '?') && forall k :: 0 <= k < i ==> s[k] != '?'
    ensures Before(s, "?") == s[..i]
  {
    BeforeByte(s, '?', i);
  }
}
