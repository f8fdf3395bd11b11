/** The replay configuration that a local capture generates from its events. */
module ReplayConfig {
  import opened ByteStrings
  import opened FirstSeen
  import opened HttpText
  import opened IOEvents
  import opened Options
  import opened ReplayProxy

  /**
    Number scanning and printing of the standard library; `scan` is none where
    scanning fails.  What is proved here holds for any two such functions.
   */
  datatype Numbers = Numbers(scan: Bytes -> Option<int>, print10: int -> Bytes)

  datatype Key = Key(host: Bytes, port: int)
  datatype Service = Service(name: Bytes, localPort: int, remoteHost: Bytes)

  const FIRST_PORT := 18081

  // ---------- hosts ----------

  /** The Host field of a message: the first line that starts with its name. */
  function ParseHTTPHost(payload: Bytes): Bytes
    decreases |payload|
  {
    var line := Before(payload, CRLF);
    if HasPrefix(Lower(line), "host:") then Trim(line[5..])
    else if Index(payload, CRLF).None? then ""
    else ParseHTTPHost(payload[Index(payload, CRLF).value + 2..])
  }

  /** Host and port: what precedes and follows the last colon, port 80 if there is none or it is no number. */
  function SplitServiceHost(num: Numbers, host: Bytes): Key {
    match LastByte(host, ':')
    case None => Key(host, 80)
    case Some(i) =>
      var port := num.scan(host[i + 1..]);
      Key(host[..i], if port.Some? then port.value else 80)
  }

  function FmtHostPort(num: Numbers, k: Key): Bytes {
    if k.port == 80 then k.host else k.host + ":" + num.print10(k.port)
  }

  function SanitizeServiceName(host: Bytes): Bytes {
    if host == "" then "service"
    else seq(|host|, i requires 0 <= i < |host| => if host[i] == '.' || host[i] == ':' then '-' else host[i])
  }

  /** The service a captured event stands for, if it has a Host field. */
  function KeyOf(num: Numbers, e: IOEvent): Option<Key>
    requires e.WellFormed()
  {
    var host := ParseHTTPHost(e.View());
    if host == "" then None else Some(SplitServiceHost(num, host))
  }

  // ---------- services ----------

  /** The keys of all events. */
  function KeysOf(num: Numbers, events: seq<IOEvent>): (found: seq<Option<Key>>)
    requires AllWellFormed(events)
    ensures |found| == |events| && forall i :: 0 <= i < |events| ==> found[i] == KeyOf(num, events[i])
  {
    seq(|events|, i requires 0 <= i < |events| => KeyOf(num, events[i]))
  }

  function ServiceFor(num: Numbers, k: Key, localPort: int): Service {
    Service(SanitizeServiceName(k.host), localPort, FmtHostPort(num, k))
  }

  function ServicesFor(num: Numbers, keys: seq<Key>): seq<Service> {
    seq(|keys|, i requires 0 <= i < |keys| => ServiceFor(num, keys[i], FIRST_PORT + i))
  }

  lemma ServicesOneMore(num: Numbers, keys: seq<Key>, k: Key)
    ensures ServicesFor(num, keys + [k]) == ServicesFor(num, keys) + [ServiceFor(num, k, FIRST_PORT + |keys|)]
  {}

  /** The services that the keys found stand for, one a key. */
  method AddServices(num: Numbers, found: seq<Option<Key>>) returns (services: seq<Service>)
    ensures services == ServicesFor(num, Firsts(found, |found|))
  {
    var seen: set<Key> := {};
    var localPort := FIRST_PORT;
    services := [];
    for n := 0 to |found|
      invariant services == ServicesFor(num, Firsts(found, n))
      invariant localPort == FIRST_PORT + |services|
      invariant forall k :: k in seen <==> k in Firsts(found, n)
    {
      var key := found[n];
      if key.None? || key.value in seen {
        continue;
      }
      seen := seen + {key.value};
      ServicesOneMore(num, Firsts(found, n), key.value);
      services := services + [ServiceFor(num, key.value, localPort)];
      localPort := localPort + 1;
    }
  }

  /** The services of a capture; they are sorted by name afterwards. */
  method BuildServices(num: Numbers, events: seq<IOEvent>) returns (services: seq<Service>)
    requires AllWellFormed(events)
    ensures services == ServicesFor(num, Firsts(KeysOf(num, events), |events|))
  {
    services := AddServices(num, KeysOf(num, events));
  }

  /** One service per distinct key of the events, in order of first appearance, at consecutive ports. */
  lemma OneServicePerKey(num: Numbers, events: seq<IOEvent>, k: Key)
    requires AllWellFormed(events)
    ensures
      var keys := Firsts(KeysOf(num, events), |events|);
      && (forall a, b :: 0 <= a < b < |keys| ==> keys[a] != keys[b])
      && (k in keys <==> exists i :: 0 <= i < |events| && KeyOf(num, events[i]) == Some(k))
  {
    var found := KeysOf(num, events);
    FirstsDistinct(found, |events|);
    FirstsComplete(found, |events|, k);
    assert found[..|events|] == found;
  }

  lemma {:induction false} OccursOnce<T>(s: seq<T>, i: nat)
    requires i < |s| && forall a, b :: 0 <= a < b < |s| ==> s[a] != s[b]
    ensures multiset(s)[s[i]] == 1
  {
    var n := |s| - 1;
    assert s == s[..n] + [s[n]];
    if i < n {
      OccursOnce(s[..n], i);
    } else {
      assert forall a :: 0 <= a < n ==> s[..n][a] != s[n];
    }
  }

  lemma OccursTwice<T>(s: seq<T>, i: nat, j: nat)
    requires i < j < |s| && s[i] == s[j]
    ensures multiset(s)[s[i]] >= 2
  {
    assert s == s[..j] + [s[j]] + s[j + 1..];
    assert s[..j][i] in multiset(s[..j]);
  }

  /** Reordering keeps elements distinct, and adds none. */
  lemma DistinctSurvives<T>(a: seq<T>, b: seq<T>)
    requires multiset(a) == multiset(b) && forall i, j :: 0 <= i < j < |b| ==> b[i] != b[j]
    ensures |a| == |b|
    ensures forall i :: 0 <= i < |a| ==> a[i] in b
    ensures forall i, j :: 0 <= i < j < |a| ==> a[i] != a[j]
  {
    assert |a| == |multiset(a)| == |multiset(b)| == |b|;
    forall i | 0 <= i < |a|
      ensures a[i] in b
    {
      assert a[i] in multiset(a);
    }
    forall i, j | 0 <= i < j < |a|
      ensures a[i] != a[j]
    {
      if a[i] == a[j] {
        var k :| 0 <= k < |b| && b[k] == a[i];
        OccursOnce(b, k);
        OccursTwice(a, i, j);
      }
    }
  }

  /** Different services have different ports. */
  lemma PortsDistinct(num: Numbers, keys: seq<Key>)
    ensures
      var services := ServicesFor(num, keys);
      && |services| == |keys|
      && forall i :: 0 <= i < |keys| ==> services[i].localPort == FIRST_PORT + i
  {}

  /**
    However the services are reordered, their local ports are pairwise distinct and
    are the next ports from the first one on.
   */
  lemma PortsSurviveSorting(num: Numbers, keys: seq<Key>, sorted: seq<Service>)
    requires multiset(sorted) == multiset(ServicesFor(num, keys))
    ensures |sorted| == |keys|
    ensures forall i :: 0 <= i < |sorted| ==> 18081 <= sorted[i].localPort < 18081 + |keys|
    ensures forall i, j :: 0 <= i < j < |sorted| ==> sorted[i].localPort != sorted[j].localPort
  {
    var services := ServicesFor(num, keys);
    PortsDistinct(num, keys);
    DistinctSurvives(sorted, services);
  }

  // ---------- the proxy's host filter ----------

  lemma FirstColon(s: Bytes) returns (i: nat)
    ensures i <= |s| && (i < |s| ==> s[i] == ':') && forall k :: 0 <= k < i ==> s[k] != ':'
  {
    if s != [] && s[0] != ':' {
      i := FirstColon(s[1..]);
      i := i + 1;
    } else {
      i := 0;
    }
  }

  /**
    The host that a service was generated from, with however many colons, passes the
    filter of that service's port.
   */
  lemma CapturedHostPasses(num: Numbers, p: Parser, host: Bytes)
    ensures !HostRejected(p, FmtHostPort(num, SplitServiceHost(num, host)), host)
  {
    var k := SplitServiceHost(num, host);
    var remote := FmtHostPort(num, k);
    var i := FirstColon(k.host);
    if i < |k.host| || k.port == 80 {
      BeforeColon(remote, i);
    } else {
      BeforeColon(remote, |k.host|);
    }
    assert FilterHost(remote) <= k.host <= host;
  }

  // ---------- what a service says ----------

  /** A host without a port stands for port 80, one with a number behind its last colon for that port. */
  lemma HostParts(num: Numbers, host: Bytes, port: Bytes)
    requires ':' !in port
    ensures ':' !in host ==> SplitServiceHost(num, host) == Key(host, 80)
    ensures SplitServiceHost(num, host + ":" + port)
      == Key(host, if num.scan(port).Some? then num.scan(port).value else 80)
  {
    var s := host + ":" + port;
    assert s[|host|] == ':' && s[..|host|] == host && s[|host| + 1..] == port;
    assert forall k :: |host| < k < |s| ==> s[k] == port[k - |host| - 1];
  }

  /** Captures of two ports of one host are two services. */
  lemma PortsAreKeptApart(num: Numbers, host: Bytes, port: Bytes, other: Bytes)
    requires ':' !in port && ':' !in other
    requires num.scan(port).Some? && num.scan(other).Some? && num.scan(port) != num.scan(other)
    ensures SplitServiceHost(num, host + ":" + port) != SplitServiceHost(num, host + ":" + other)
  {
    HostParts(num, host, port);
    HostParts(num, host, other);
  }

  /** Every byte of the name is the host's, dots and colons turned into dashes. */
  lemma NameOfHost(host: Bytes)
    ensures host == "" ==> SanitizeServiceName(host) == "service"
    ensures host != "" ==> |SanitizeServiceName(host)| == |host|
    ensures forall k :: 0 <= k < |host| ==>
      SanitizeServiceName(host)[k] == if host[k] in [':', '.'] then '-' else host[k]
  {}

  /**
    The service generated for a captured host and port is reached under that host and
    port, as they were captured if the number is written as numbers are printed; port
    80 is left out.
   */
  lemma ServiceOfHost(num: Numbers, host: Bytes, port: Bytes, n: int, localPort: int)
    requires ':' !in port && num.scan(port) == Some(n) && num.print10(n) == port
    ensures ServiceFor(num, SplitServiceHost(num, host + ":" + port), localPort)
      == Service(SanitizeServiceName(host), localPort, if n == 80 then host else host + ":" + port)
  {
    HostParts(num, host, port);
  }

  // ---------- the generator and the proxy read the Host field differently ----------

  /** A line of the message starts at `i`. */
  predicate AtLineStart(v: Bytes, i: int) {
    i == 0 || At(v, CRLF, i - 2)
  }

  predicate HostAt(v: Bytes, i: int) {
    At(Lower(v), "host:", i)
  }

  /** The name of a Host field that starts a line. */
  predicate FieldAt(v: Bytes, i: int) {
    HostAt(v, i) && AtLineStart(v, i)
  }

  lemma HostHasNoBreak(v: Bytes, i: nat, k: int)
    requires HostAt(v, i) && At(v, CRLF, k)
    ensures k + 2 <= i || i + 5 <= k
  {
    AtBytes(Lower(v), "host:", i);
    BreakBytes(v, k);
    assert forall j :: i <= j < i + 5 ==> v[j] != '\r' && v[j] != '\n' by {
      forall j | i <= j < i + 5
        ensures v[j] != '\r' && v[j] != '\n'
      {
        assert LowerByte(v[j]) == "host:"[j - i];
      }
    }
  }

  lemma ShiftedAt(v: Bytes, pat: Bytes, n: nat, k: nat)
    requires n <= |v|
    ensures At(v[n..], pat, k) <==> At(v, pat, n + k)
  {
    if n + k + |pat| <= |v| {
      assert v[n..][k..k + |pat|] == v[n + k..n + k + |pat|];
    }
  }

  lemma ShiftedHost(v: Bytes, n: nat, k: nat)
    requires n <= |v|
    ensures HostAt(v[n..], k) <==> HostAt(v, n + k)
  {
    assert Lower(v[n..]) == Lower(v)[n..];
    ShiftedAt(Lower(v), "host:", n, k);
  }

  /** After the first break of a message its lines start where they started. */
  lemma ShiftedLineStart(v: Bytes, b: nat, k: nat)
    requires Index(v, CRLF) == Some(b)
    ensures AtLineStart(v[b + 2..], k) <==> AtLineStart(v, b + 2 + k)
  {
    if k >= 2 {
      ShiftedAt(v, CRLF, b + 2, k - 2);
    }
    BreakBytes(v, b);
    BreakBytes(v, b + k);
  }

  /** A line that starts with the field's name, up to its end. */
  lemma HostLine(v: Bytes)
    requires HostAt(v, 0)
    ensures ParseHTTPHost(v) == Trim(Before(v[5..], CRLF))
  {
    var line := Before(v, CRLF);
    if Index(v, CRLF).Some? {
      HostHasNoBreak(v, 0, Index(v, CRLF).value);
    }
    assert line == v[..|line|] && 5 <= |line|;
    assert Lower(line)[..5] == Lower(v)[0..5];
    BeforeShifts(v, 5);
  }

  lemma BeforeShifts(v: Bytes, n: nat)
    requires n <= |v| && n <= |Before(v, CRLF)|
    ensures Before(v[n..], CRLF) == Before(v, CRLF)[n..]
  {
    forall k | 0 <= k <= |v| - n
      ensures At(v[n..], CRLF, k) <==> At(v, CRLF, n + k)
    {
      ShiftedAt(v, CRLF, n, k);
    }
    var x, y := Index(v, CRLF), Index(v[n..], CRLF);
    if x.Some? {
      assert At(v[n..], CRLF, x.value - n);
    }
    if y.Some? {
      assert At(v, CRLF, n + y.value);
    }
  }

  lemma NotTheField(v: Bytes)
    requires !HostAt(v, 0)
    ensures !HasPrefix(Lower(Before(v, CRLF)), "host:")
  {
    var line := Before(v, CRLF);
    assert |line| >= 5 ==> Lower(v)[0..5] == Lower(line)[..5];
  }

  /** A first line that is not the field is skipped. */
  lemma GeneratorSkips(v: Bytes, i: nat) returns (b: nat)
    requires 0 < i && AtLineStart(v, i) && !HostAt(v, 0)
    ensures Index(v, CRLF) == Some(b) && b + 2 <= i && b + 2 <= |v|
    ensures ParseHTTPHost(v) == ParseHTTPHost(v[b + 2..])
  {
    assert At(v, CRLF, i - 2);
    b := Index(v, CRLF).value;
    NotTheField(v);
  }

  /** The generator reads the first field whose name starts a line. */
  lemma {:induction false} GeneratorReads(v: Bytes, i: nat)
    requires FieldAt(v, i) && forall k :: 0 <= k < i ==> !FieldAt(v, k)
    ensures ParseHTTPHost(v) == Trim(Before(v[i + 5..], CRLF))
    decreases |v|
  {
    if i == 0 {
      HostLine(v);
    } else {
      assert !HostAt(v, 0) by {
        assert !FieldAt(v, 0);
      }
      var b := GeneratorSkips(v, i);
      var rest := v[b + 2..];
      var m := i - b - 2;
      FieldsShift(v, b, rest, m);
      GeneratorReads(rest, m);
      assert rest[m + 5..] == v[i + 5..];
    }
  }

  lemma FieldsShift(v: Bytes, b: nat, rest: Bytes, m: nat)
    requires Index(v, CRLF) == Some(b) && rest == v[b + 2..]
    ensures forall k :: 0 <= k <= m ==> (FieldAt(rest, k) <==> FieldAt(v, b + 2 + k))
  {
    forall k | 0 <= k <= m
      ensures FieldAt(rest, k) <==> FieldAt(v, b + 2 + k)
    {
      ShiftedHost(v, b + 2, k);
      ShiftedLineStart(v, b, k);
    }
  }

  /** What the generator reads is in the message. */
  lemma {:induction false} GeneratorFinds(v: Bytes)
    requires ParseHTTPHost(v) != ""
    ensures Index(Lower(v), "host:").Some?
    decreases |v|
  {
    var line := Before(v, CRLF);
    if HasPrefix(Lower(line), "host:") {
      assert Lower(v)[0..5] == Lower(line)[..5];
      assert HostAt(v, 0);
    } else {
      var n := Index(v, CRLF).value + 2;
      GeneratorFinds(v[n..]);
      var k :| 0 <= k <= |v[n..]| && At(Lower(v[n..]), "host:", k);
      ShiftedHost(v, n, k);
      assert At(Lower(v), "host:", n + k);
    }
  }

  /** The address of the service generated for a message. */
  function RemoteOf(num: Numbers, v: Bytes): Bytes {
    FmtHostPort(num, SplitServiceHost(num, ParseHTTPHost(v)))
  }

  /**
    A captured request is turned away at the port generated for its own Host field if
    and only if the first `host:` in it, in any case, does not start a line, and what
    follows it there is not empty, is not the filtered host in any case, and does not
    begin with it.
   */
  lemma {:induction false} CapturedRequestTurnedAwayIff(num: Numbers, v: Bytes)
    requires ParseHTTPHost(v) != ""
    ensures Index(Lower(v), "host:").Some?
    ensures
      var i := Index(Lower(v), "host:").value;
      var found := Trim(Before(v[i + 5..], CRLF));
      var filter := FilterHost(RemoteOf(num, v));
      HostRejected(STANDARD, RemoteOf(num, v), HttpHost(v)) <==>
        (!AtLineStart(v, i) && found != "" && Lower(found) != Lower(filter) && !HasPrefix(found, filter))
  {
    GeneratorFinds(v);
    var i := Index(Lower(v), "host:").value;
    if AtLineStart(v, i) {
      GeneratorReads(v, i);
      CapturedHostPasses(num, STANDARD, ParseHTTPHost(v));
    } else if RemoteOf(num, v) == "" {
      assert FilterHost(RemoteOf(num, v)) == "";
    }
  }

  /** A line that the generator skips. */
  predicate OtherLine(line: Bytes) {
    '\r' !in line && '\n' !in line && !HasPrefix(Lower(line), "host:")
  }

  lemma SkipLine(line: Bytes, more: Bytes)
    requires OtherLine(line)
    ensures ParseHTTPHost(line + CRLF + more) == ParseHTTPHost(more)
  {
    var v := line + CRLF + more;
    FirstBreakAfter(line, more);
    assert Index(v, CRLF) == Some(|line|) && v[|line| + 2..] == more;
  }

  lemma ReadLine(value: Bytes, more: Bytes)
    requires '\r' !in value && '\n' !in value
    ensures ParseHTTPHost("Host:" + value + CRLF + more) == Trim(value)
  {
    var line := "Host:" + value;
    FirstBreakAfter(line, more);
    assert Lower(line)[..5] == "host:" && line[5..] == value;
  }

  /** The lines of a forwarded request from its second on: it names the host it was first sent to before its own. */
  function ForwardedLines(first: Bytes, host: Bytes, rest: Bytes): Bytes {
    FORWARDED + "Host:" + (" " + first) + CRLF + ("Host:" + (" " + host) + CRLF + rest)
  }

  const FORWARDED: Bytes := "X-Forwarded-"

  predicate PlainHost(s: Bytes) {
    IsToken(s) && ':' !in s
  }

  lemma ForwardedLine(first: Bytes)
    requires IsToken(first)
    ensures OtherLine(FORWARDED + "Host:" + (" " + first))
  {
    var line := FORWARDED + "Host:" + (" " + first);
    SpaceTrimmed(first);
    assert line[0] == 'X' && Lower(line)[0] == 'x';
  }

  lemma SkipTwo(first: Bytes, second: Bytes, more: Bytes)
    requires OtherLine(first) && OtherLine(second)
    ensures ParseHTTPHost(first + CRLF + (second + CRLF + more)) == ParseHTTPHost(more)
  {
    var rest := second + CRLF + more;
    SkipLine(second, more);
    SkipLine(first, rest);
  }

  lemma WithoutNameOther(line: Bytes)
    requires '\r' !in line && '\n' !in line && !Contains(Lower(line), "host:")
    ensures OtherLine(line)
  {
    assert !At(Lower(line), "host:", 0);
  }

  lemma ReadThird(first: Bytes, second: Bytes, third: Bytes, host: Bytes, v: Bytes)
    requires OtherLine(first) && OtherLine(second) && ParseHTTPHost(third) == host
    requires v == first + CRLF + (second + CRLF + third)
    ensures ParseHTTPHost(v) == host
  {
    SkipTwo(first, second, third);
  }

  lemma HostLineRead(host: Bytes, rest: Bytes)
    requires IsToken(host)
    ensures ParseHTTPHost("Host:" + (" " + host) + CRLF + rest) == host
  {
    SpaceTrimmed(host);
    ReadLine(" " + host, rest);
  }

  lemma GeneratorReadsHost(line: Bytes, first: Bytes, host: Bytes, rest: Bytes)
    requires '\r' !in line && '\n' !in line && !Contains(Lower(line), "host:")
    requires PlainHost(first) && PlainHost(host)
    ensures ParseHTTPHost(line + CRLF + ForwardedLines(first, host, rest)) == host
  {
    WithoutNameOther(line);
    ForwardedLine(first);
    HostLineRead(host, rest);
    ReadThird(line, FORWARDED + "Host:" + (" " + first), "Host:" + (" " + host) + CRLF + rest, host,
              line + CRLF + ForwardedLines(first, host, rest));
  }

  lemma NoHostBefore(line: Bytes)
    requires !Contains(Lower(line), "host:")
    ensures !Contains(Lower(line + CRLF + FORWARDED), "host:")
  {
    var s := Lower(line + CRLF + FORWARDED);
    forall k | |line| < k < |s|
      ensures s[k] != 'h'
    {
      assert k >= |line| + 2 ==> s[k] == LowerByte(FORWARDED[k - |line| - 2]);
    }
    forall k | 0 <= k <= |s|
      ensures !At(s, "host:", k)
    {
      AtBytes(s, "host:", k);
      if k + 5 <= |line| {
        AtBytes(Lower(line), "host:", k);
        assert !At(Lower(line), "host:", k);
      } else if k <= |line| {
        assert s[|line|] == '\r' && (k + 5 > |line| ==> "host:"[|line| - k] != '\r');
      } else if k < |s| {
        assert s[k] != 'h' && "host:"[0] == 'h';
      }
    }
  }

  lemma RegroupLines(a: Bytes, b: Bytes, c: Bytes, d: Bytes, e: Bytes, f: Bytes, g: Bytes)
    ensures a + b + (c + d + e + f + g) == (a + b + c) + d + (e + f + g)
  {}

  lemma ProxyReadsForwardedHost(line: Bytes, first: Bytes, host: Bytes, rest: Bytes)
    requires !Contains(Lower(line), "host:") && PlainHost(first)
    ensures HttpHost(line + CRLF + ForwardedLines(first, host, rest)) == first
  {
    var tail := "Host:" + (" " + host) + CRLF + rest;
    NoHostBefore(line);
    SpaceTrimmed(first);
    FirstHostIs(line + CRLF + FORWARDED, "Host:", " " + first, tail);
    RegroupLines(line, CRLF, FORWARDED, "Host:", " " + first, CRLF, tail);
  }

  lemma SecondLineRead(line: Bytes, second: Bytes, field: Bytes, v: Bytes)
    requires OtherLine(line) && ParseHTTPHost(second) == field && v == line + CRLF + second
    ensures ParseHTTPHost(v) == field
  {
    SkipLine(line, second);
  }

  lemma HostAndPort(host: Bytes, port: Bytes)
    requires IsToken(host) && IsToken(port)
    ensures IsToken(host + ":" + port)
  {}

  lemma KeyFromHost(num: Numbers, e: IOEvent, host: Bytes)
    requires e.WellFormed() && ParseHTTPHost(e.View()) == host
    ensures KeyOf(num, e) == if host == "" then None else Some(SplitServiceHost(num, host))
  {}

  lemma HostLineIs(second: Bytes, field: Bytes, rest: Bytes)
    requires IsToken(field) && second == "Host:" + (" " + field) + CRLF + rest
    ensures ParseHTTPHost(second) == field
  {
    HostLineRead(field, rest);
  }

  /** A captured request whose second line names a host and port stands for that service. */
  lemma CapturedRequestHasService(
      num: Numbers, e: IOEvent, line: Bytes, second: Bytes, host: Bytes, port: Bytes, n: int, rest: Bytes)
    requires e.WellFormed() && OtherLine(line) && IsToken(host) && IsToken(port)
    requires ':' !in port && num.scan(port) == Some(n)
    requires e.View() == line + CRLF + second && second == "Host:" + (" " + (host + ":" + port)) + CRLF + rest
    ensures KeyOf(num, e) == Some(Key(host, n))
  {
    var field := host + ":" + port;
    HostAndPort(host, port);
    HostLineIs(second, field, rest);
    SecondLineRead(line, second, field, e.View());
    KeyFromHost(num, e, field);
    HostParts(num, host, port);
  }

  lemma PlainRemote(num: Numbers, host: Bytes)
    requires PlainHost(host)
    ensures FmtHostPort(num, SplitServiceHost(num, host)) == host == FilterHost(host)
  {
    BeforeColon(host, |host|);
  }

  /**
    So a forwarded request is turned away at the port generated for its Host field,
    unless the host it was first sent to begins with that host, or is it.
   */
  lemma ForwardedIsTurnedAwayIff(num: Numbers, line: Bytes, first: Bytes, host: Bytes, rest: Bytes)
    requires '\r' !in line && '\n' !in line && !Contains(Lower(line), "host:")
    requires PlainHost(first) && PlainHost(host)
    ensures
      var v := line + CRLF + ForwardedLines(first, host, rest);
      HostRejected(STANDARD, RemoteOf(num, v), HttpHost(v)) <==>
        (Lower(first) != Lower(host) && !HasPrefix(first, host))
  {
    GeneratorReadsHost(line, first, host, rest);
    ProxyReadsForwardedHost(line, first, host, rest);
    PlainRemote(num, host);
  }
}

/** The incident summary that a local capture derives from its events. */
module Incidents {
  import opened ByteStrings
  import opened HttpText
  import opened IOEvents
  import opened Options
  import opened ReplayConfig

  /** What is parsed out of a read event: status, header text, first line; status 0 for anything but a response. */
  datatype Reading = Reading(status: int, detail: Bytes, step: Bytes)

  /** The first line, cut at 120 bytes. */
  function SummarizePayload(payload: Bytes): Bytes {
    var line := Before(payload, CRLF);
    if |line| > 120 then line[..120] + "..." else line
  }

  /** Status and header text of a response; status 0 for anything else. */
  function ParseHTTPStatus(num: Numbers, payload: Bytes): (int, Bytes) {
    var end := Index(payload, CRLF);
    if end.None? then (0, "")
    else
      var parts := Fields(payload[..end.value]);
      if !HasPrefix(payload[..end.value], "HTTP/") || |parts| < 2 then (0, "")
      else
        var status := num.scan(parts[1]);
        (if status.Some? then status.value else 0, Trim(Before(payload[end.value + 2..], "\r\n\r\n")))
  }

  function ReadingOf(num: Numbers, e: IOEvent): Reading
    requires e.WellFormed()
  {
    if e.isWrite != READ then Reading(0, "", "")
    else
      var (status, detail) := ParseHTTPStatus(num, e.View());
      Reading(status, detail, SummarizePayload(e.View()))
  }

  function ReadingsOf(num: Numbers, events: seq<IOEvent>): (readings: seq<Reading>)
    requires AllWellFormed(events)
    ensures |readings| == |events| && forall i :: 0 <= i < |events| ==> readings[i] == ReadingOf(num, events[i])
  {
    seq(|events|, i requires 0 <= i < |events| => ReadingOf(num, events[i]))
  }

  /** A failing response has a first line, so an empty step means that none was seen. */
  lemma FailureHasStep(num: Numbers, e: IOEvent)
    requires e.WellFormed() && ReadingOf(num, e).status >= 400
    ensures ReadingOf(num, e).step != ""
  {}

  datatype Incident = Incident(
    title: Bytes, summary: Bytes, rootCause: Bytes, services: set<Bytes>, failedStep: Bytes)

  const NO_TITLE: Bytes := "Captured incident"
  const NO_CAUSE: Bytes := "See event timeline" + " for failing request/response"
  const NO_STEP: Bytes := "See highlighted error event in timeline"

  function Title(num: Numbers, status: int): Bytes {
    (if status >= 500 then "Server error: HTTP " else "Client error: HTTP ") + num.print10(status)
  }

  function Summary(num: Numbers, count: nat, failedStep: Bytes): Bytes {
    "Local capture with " + num.print10(count) + " events. " + failedStep
  }

  /** The event the incident is about: the last server error, or else the first client error. */
  function Culprit(readings: seq<Reading>, n: nat): (r: Option<nat>)
    requires n <= |readings|
    ensures r.Some? ==> r.value < n && readings[r.value].status >= 400
  {
    if n == 0 then None
    else
      var before := Culprit(readings, n - 1);
      var status := readings[n - 1].status;
      if status >= 500 || (status >= 400 && before.None?) then Some(n - 1) else before
  }

  /**
    The incident that one failing response, or none, makes of these events; a response
    without header text leaves the cause to the default.
   */
  function About(num: Numbers, events: seq<IOEvent>, culprit: Option<Reading>): Incident {
    var services := ServicesIn(events);
    match culprit
    case None => Incident(NO_TITLE, Summary(num, |events|, NO_STEP), NO_CAUSE, services, NO_STEP)
    case Some(r) =>
      Incident(Title(num, r.status), Summary(num, |events|, r.step),
               if r.detail == "" then NO_CAUSE else r.detail, services, r.step)
  }

  /** All texts come from the one culprit, or are all defaults. */
  function IncidentOf(num: Numbers, events: seq<IOEvent>): Option<Incident>
    requires AllWellFormed(events)
  {
    if events == [] then None
    else
      var readings := ReadingsOf(num, events);
      match Culprit(readings, |readings|)
      case None => Some(About(num, events, None))
      case Some(i) => Some(About(num, events, Some(readings[i])))
  }

  /** A process name that can stand in the list of services. */
  predicate IsService(name: Bytes) {
    name != "" && ' ' !in name
  }

  /** The process names of the first `n` events. */
  function NamesIn(events: seq<IOEvent>, n: nat): set<Bytes>
    requires n <= |events|
  {
    if n == 0 then {}
    else
      var name := TrimZeros(events[n - 1].comm);
      NamesIn(events, n - 1) + if name != "" then {name} else {}
  }

  function ServicesIn(events: seq<IOEvent>): set<Bytes> {
    set x | x in NamesIn(events, |events|) && IsService(x)
  }

  lemma {:induction false} NamesAre(events: seq<IOEvent>, n: nat, x: Bytes)
    requires n <= |events|
    ensures x in NamesIn(events, n) <==> x != "" && exists i :: 0 <= i < n && TrimZeros(events[i].comm) == x
  {
    if n == 0 {
    } else {
      NamesAre(events, n - 1, x);
    }
  }

  /** The services of an incident are the process names without spaces that occur. */
  lemma ServicesAre(events: seq<IOEvent>, x: Bytes)
    ensures x in ServicesIn(events)
      <==> IsService(x) && exists i :: 0 <= i < |events| && TrimZeros(events[i].comm) == x
  {
    NamesAre(events, |events|, x);
  }

  /** The first two words of the first line, or nothing. */
  function ParseHTTPRequestLine(payload: Bytes): (Bytes, Bytes) {
    var parts := Fields(Before(payload, CRLF));
    if |parts| < 2 then ("", "") else (parts[0], parts[1])
  }

  /**
    The process names of the events.  Verbs and targets of writes are collected with
    them and sorted out again by the space between them.
   */
  method FindServices(events: seq<IOEvent>) returns (services: set<Bytes>)
    requires AllWellFormed(events)
    ensures services == ServicesIn(events)
  {
    var found: set<Bytes> := {};
    for n := 0 to |events|
      invariant "" !in found
      invariant forall x :: ' ' !in x ==> (x in found <==> x in NamesIn(events, n))
    {
      var comm := TrimZeros(events[n].comm);
      if comm != "" {
        found := found + {comm};
      }
      if events[n].isWrite != READ {
        var (verb, path) := ParseHTTPRequestLine(events[n].View());
        if verb != "" {
          var name := verb + " " + path;
          assert name[|verb|] == ' ';
          found := found + {name};
        }
      }
    }
    services := set x | x in found && ' ' !in x;
  }

  /** Title, cause and step of the culprit, empty if there is none. */
  method FindCulprit(num: Numbers, readings: seq<Reading>) returns (title: Bytes, rootCause: Bytes, failedStep: Bytes)
    requires forall k :: 0 <= k < |readings| && readings[k].status >= 400 ==> readings[k].step != ""
    ensures
      match Culprit(readings, |readings|)
      case None => title == rootCause == failedStep == ""
      case Some(i) =>
        && title == Title(num, readings[i].status) && rootCause == readings[i].detail
        && failedStep == readings[i].step && failedStep != ""
  {
    title, rootCause, failedStep := "", "", "";
    for i := 0 to |readings|
      invariant failedStep == "" <==> Culprit(readings, i).None?
      invariant Culprit(readings, i).None? ==> title == "" && rootCause == ""
      invariant Culprit(readings, i).Some? ==>
        var r := readings[Culprit(readings, i).value];
        title == Title(num, r.status) && rootCause == r.detail && failedStep == r.step
    {
      var r := readings[i];
      if r.status >= 400 {
        if failedStep == "" || r.status >= 500 {
          failedStep := r.step;
          rootCause := r.detail;
          title := Title(num, r.status);
        }
      }
    }
  }

  method BuildIncident(num: Numbers, events: seq<IOEvent>) returns (incident: Option<Incident>)
    requires AllWellFormed(events)
    ensures incident == IncidentOf(num, events)
  {
    if |events| == 0 {
      return None;
    }
    var readings := ReadingsOf(num, events);
    forall k | 0 <= k < |readings| && readings[k].status >= 400
      ensures readings[k].step != ""
    {
      FailureHasStep(num, events[k]);
    }
    var title, rootCause, failedStep := FindCulprit(num, readings);
    if title == "" {
      title := NO_TITLE;
    }
    if rootCause == "" {
      rootCause := NO_CAUSE;
    }
    if failedStep == "" {
      failedStep := NO_STEP;
    }
    var services := FindServices(events);
    incident := Some(Incident(title, Summary(num, |events|, failedStep), rootCause, services, failedStep));
  }

  lemma {:induction false} CulpritIs(readings: seq<Reading>, n: nat)
    requires n <= |readings|
    ensures
      match Culprit(readings, n)
      case None => forall k :: 0 <= k < n ==> readings[k].status < 400
      case Some(i) =>
        if readings[i].status >= 500 then forall k :: i < k < n ==> readings[k].status < 500
        else
          && (forall k :: 0 <= k < n ==> readings[k].status < 500)
          && (forall k :: 0 <= k < i ==> readings[k].status < 400)
  {
    if n == 0 {
    } else {
      CulpritIs(readings, n - 1);
    }
  }
}
