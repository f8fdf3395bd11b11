/**
  How the proxy reads a request: its key and its host.  Text functions are those of
  Go's `strings` and `bytes` on ASCII text.
 */
module HttpText {
  import opened ByteStrings
  import opened Options
  import opened ReplayProxy

  predicate IsBlank(c: byte) {
    c == ' ' || c == '\t' || c == '\n' || c == '\r' || c == '\U{0B}' || c == '\U{0C}'
  }

  function TrimLeft(s: Bytes): (t: Bytes)
    ensures t != [] ==> !IsBlank(t[0])
    ensures |t| <= |s|
  {
    if s != [] && IsBlank(s[0]) then TrimLeft(s[1..]) else s
  }

  function TrimRight(s: Bytes): (t: Bytes)
    ensures t <= s
    ensures t != [] ==> !IsBlank(t[|t| - 1])
  {
    if s != [] && IsBlank(s[|s| - 1]) then TrimRight(s[..|s| - 1]) else s
  }

  function Trim(s: Bytes): Bytes {
    TrimRight(TrimLeft(s))
  }

  /** The length of the leading bytes that are not blank. */
  function TokenEnd(s: Bytes): (n: nat)
    ensures n <= |s| && (forall k :: 0 <= k < n ==> !IsBlank(s[k])) && (n < |s| ==> IsBlank(s[n]))
  {
    if s != [] && !IsBlank(s[0]) then 1 + TokenEnd(s[1..]) else 0
  }

  /** The maximal runs of bytes that are not blank. */
  function Fields(s: Bytes): seq<Bytes>
    decreases |s|
  {
    var t := TrimLeft(s);
    if t == [] then []
    else [t[..TokenEnd(t)]] + Fields(t[TokenEnd(t)..])
  }

  function UpperByte(c: byte): byte {
    if 'a' <= c <= 'z' then (c as int - 32) as char else c
  }

  function LowerByte(c: byte): byte {
    if 'A' <= c <= 'Z' then (c as int + 32) as char else c
  }

  function Upper(s: Bytes): (t: Bytes)
    ensures |t| == |s| && forall k :: 0 <= k < |s| ==> t[k] == UpperByte(s[k])
  {
    seq(|s|, i requires 0 <= i < |s| => UpperByte(s[i]))
  }

  function Lower(s: Bytes): (t: Bytes)
    ensures |t| == |s| && forall k :: 0 <= k < |s| ==> t[k] == LowerByte(s[k])
  {
    seq(|s|, i requires 0 <= i < |s| => LowerByte(s[i]))
  }

  // ---------- keys ----------

  function FirstLine(payload: Bytes): Bytes {
    Trim(Before(Trim(payload), "\n"))
  }

  function HttpRequestKey(payload: Bytes): Bytes {
    var parts := Fields(FirstLine(payload));
    if |parts| < 2 then "" else Upper(parts[0]) + " " + Before(parts[1], "?")
  }

  /** Service and method of a gRPC call: a POST to `/service/method`. */
  function MatchGRPCUnary(request: Bytes): Option<(Bytes, Bytes)> {
    var parts := Fields(FirstLine(request));
    if |parts| < 2 || parts[0] != "POST" then None
    else ServiceAndMethod(parts[1])
  }

  function ServiceAndMethod(target: Bytes): Option<(Bytes, Bytes)> {
    var path := if HasPrefix(target, "/") then target[1..] else target;
    match LastByte(path, '/')
    case None => None
    case Some(i) => if i == 0 then None else Some((path[..i], path[i + 1..]))
  }

  function GrpcKey(service: Bytes, rpc: Bytes): Bytes {
    "GRPC " + service + "/" + rpc
  }

  function GrpcRequestKey(request: Bytes): Bytes {
    match MatchGRPCUnary(request)
    case None => ""
    case Some((service, rpc)) => GrpcKey(service, rpc)
  }

  function RequestKey(payload: Bytes): Bytes {
    var k := GrpcRequestKey(payload);
    if k != "" then k else HttpRequestKey(payload)
  }

  // ---------- host ----------

  /** What follows the first `host:`, in any case and anywhere in the message, up to the end of its line. */
  function HttpHost(payload: Bytes): Bytes {
    match Index(Lower(payload), "host:")
    case None => ""
    case Some(i) => Trim(Before(payload[i + 5..], CRLF))
  }

  const STANDARD := Parser(RequestKey, HttpHost, (a: Bytes, b: Bytes) => Lower(a) == Lower(b))

  // ---------- requests in the form of RFC 9112, section 3 ----------

  /** A nonempty stretch without blanks. */
  predicate IsToken(s: Bytes) {
    s != [] && forall k :: 0 <= k < |s| ==> !IsBlank(s[k])
  }

  function RequestLine(verb: Bytes, target: Bytes, version: Bytes): Bytes {
    verb + " " + target + " " + version
  }

  /** The key of a request by its verb and target alone. */
  function KeyFor(verb: Bytes, target: Bytes): Bytes {
    match if verb == "POST" then ServiceAndMethod(target) else None
    case Some((service, rpc)) => GrpcKey(service, rpc)
    case None => Upper(verb) + " " + Before(target, "?")
  }

  lemma NewlineBytes(s: Bytes, k: int)
    ensures At(s, "\n", k) <==> 0 <= k < |s| && s[k] == '\n'
  {
    if 0 <= k < |s| {
      assert s[k..k + 1] == [s[k]];
    }
  }

  lemma {:induction false} TrimRightAfter(a: Bytes, b: Bytes)
    requires a != [] && !IsBlank(a[|a| - 1])
    ensures TrimRight(a + b) == a + TrimRight(b)
  {
    if b != [] && IsBlank(b[|b| - 1]) {
      TrimRightAfter(a, b[..|b| - 1]);
      assert (a + b)[..|a + b| - 1] == a + b[..|b| - 1];
    } else if b == [] {
      assert a + b == a;
    }
  }

  /** Blanks after the line are cut off, the line itself is not. */
  lemma TrimAfterLine(line: Bytes, rest: Bytes)
    requires line != [] && !IsBlank(line[0]) && !IsBlank(line[|line| - 1])
    ensures Trim(line + rest) == line + TrimRight(rest)
  {
    TrimRightAfter(line, rest);
    assert (line + rest)[0] == line[0];
  }

  /** The line comes back whatever follows it, even if that is blank. */
  lemma FirstLineOf(line: Bytes, rest: Bytes)
    requires line != [] && !IsBlank(line[0]) && !IsBlank(line[|line| - 1]) && '\n' !in line
    ensures FirstLine(line + CRLF + rest) == line
  {
    var tail := TrimRight(CRLF + rest);
    assert line + CRLF + rest == line + (CRLF + rest);
    TrimAfterLine(line, CRLF + rest);
    assert Before(line + tail, "\n") == line + if tail == [] then [] else "\r" by {
      if tail == [] {
        assert line + tail == line;
        NoBreakBefore(line);
      } else {
        assert line + tail == line + CRLF + tail[2..];
        BreakBefore(line, tail[2..]);
      }
    }
    TrimAfterLine(line, if tail == [] then [] else "\r");
    assert TrimRight("\r") == [] && line + [] == line;
  }

  lemma BreakBefore(line: Bytes, rest: Bytes)
    requires '\n' !in line
    ensures Before(line + CRLF + rest, "\n") == line + "\r"
  {
    var s := line + CRLF + rest;
    forall k | 0 <= k <= |line|
      ensures !At(s, "\n", k)
    {
      NewlineBytes(s, k);
      assert s[k] == if k < |line| then line[k] else '\r';
    }
    NewlineBytes(s, |line| + 1);
    assert s[..|line| + 1] == line + "\r";
  }

  lemma NoBreakBefore(line: Bytes)
    requires '\n' !in line
    ensures Before(line, "\n") == line
  {
    forall k | 0 <= k <= |line|
      ensures !At(line, "\n", k)
    {
      NewlineBytes(line, k);
    }
  }

  lemma {:induction false} TokenEndOf(token: Bytes, rest: Bytes)
    requires (forall k :: 0 <= k < |token| ==> !IsBlank(token[k])) && (rest != [] ==> IsBlank(rest[0]))
    ensures TokenEnd(token + rest) == |token|
  {
    if token != [] {
      TokenEndOf(token[1..], rest);
      assert (token + rest)[1..] == token[1..] + rest;
    } else {
      assert token + rest == rest;
    }
  }

  lemma {:induction false} FieldsOfToken(token: Bytes, rest: Bytes)
    requires IsToken(token) && (rest != [] ==> IsBlank(rest[0]))
    ensures Fields(token + rest) == [token] + Fields(rest)
  {
    var s := token + rest;
    TokenEndOf(token, rest);
    assert TrimLeft(s) == s;
    assert s[..|token|] == token && s[|token|..] == rest;
  }

  lemma FieldsStep(token: Bytes, more: Bytes)
    requires IsToken(token)
    ensures Fields(token + (" " + more)) == [token] + Fields(more)
  {
    FieldsOfToken(token, " " + more);
    assert (" " + more)[1..] == more;
  }

  lemma FieldsOfOne(token: Bytes)
    requires IsToken(token)
    ensures Fields(token) == [token]
  {
    FieldsOfToken(token, []);
    assert token + [] == token;
  }

  lemma RegroupLine(a: Bytes, b: Bytes, c: Bytes)
    ensures RequestLine(a, b, c) == a + (" " + (b + (" " + c)))
  {}

  lemma FieldsOfLine(verb: Bytes, target: Bytes, version: Bytes)
    requires IsToken(verb) && IsToken(target) && IsToken(version)
    ensures Fields(RequestLine(verb, target, version)) == [verb, target, version]
  {
    assert Fields(target + (" " + version)) == [target, version] by {
      FieldsOfOne(version);
      FieldsStep(target, version);
    }
    RegroupLine(verb, target, version);
    FieldsStep(verb, target + (" " + version));
  }

  /**
    The key of a well-formed request depends on its verb and its target only: not on
    the version, the headers or the body, nor, outside gRPC calls, on the query.
   */
  lemma KeyIgnoresTheRest(verb: Bytes, target: Bytes, version: Bytes, rest: Bytes)
    requires IsToken(verb) && IsToken(target) && IsToken(version)
    ensures RequestKey(RequestLine(verb, target, version) + CRLF + rest) == KeyFor(verb, target)
  {
    var line := RequestLine(verb, target, version);
    assert line[0] == verb[0] && line[|line| - 1] == version[|version| - 1];
    assert forall k :: 0 <= k < |line| ==> line[k] != '\n';
    FirstLineOf(line, rest);
    FieldsOfLine(verb, target, version);
  }

  // ---------- the Host field of RFC 9110, section 7.2 ----------

  lemma LowerConcat(a: Bytes, b: Bytes)
    ensures Lower(a + b) == Lower(a) + Lower(b)
  {}

  lemma FirstBreakAfter(value: Bytes, rest: Bytes)
    requires '\r' !in value && '\n' !in value
    ensures Before(value + CRLF + rest, CRLF) == value
  {
    var s := value + CRLF + rest;
    BreakBytes(s, |value|);
    forall k | 0 <= k < |value|
      ensures !At(s, CRLF, k)
    {
      BreakBytes(s, k);
      assert s[k] == value[k];
    }
  }

  /** The first `host:` is read wherever it is: here behind a text without one that ends in a byte it does not have. */
  lemma FirstHostIs(lead: Bytes, name: Bytes, value: Bytes, rest: Bytes)
    requires Lower(name) == "host:" && !Contains(Lower(lead), "host:")
    requires lead != [] && LowerByte(lead[|lead| - 1]) !in "host:"
    requires '\r' !in value && '\n' !in value
    ensures HttpHost(lead + name + (value + CRLF + rest)) == Trim(value)
  {
    var tail := value + CRLF + rest;
    var payload := lead + name + tail;
    var s := Lower(payload);
    LowerConcat(lead + name, tail);
    LowerConcat(lead, name);
    assert s[|lead|..|lead| + 5] == "host:";
    assert At(s, "host:", |lead|);
    forall k | 0 <= k < |lead|
      ensures !At(s, "host:", k)
    {
      AtBytes(s, "host:", k);
      AtBytes(Lower(lead), "host:", k);
      assert !At(Lower(lead), "host:", k);
      assert s[|lead| - 1] == LowerByte(lead[|lead| - 1]);
      assert k < |lead| < k + 5 ==> "host:"[|lead| - 1 - k] in "host:";
    }
    assert payload[|lead| + 5..] == tail;
    FirstBreakAfter(value, rest);
  }

  /** A Host field in the second line is read, whatever the case of its name and the blanks around its value. */
  lemma HostOfSecondLine(line: Bytes, name: Bytes, value: Bytes, rest: Bytes)
    requires !Contains(Lower(line), "host:") && Lower(name) == "host:"
    requires '\r' !in value && '\n' !in value
    ensures HttpHost(line + CRLF + name + (value + CRLF + rest)) == Trim(value)
  {
    var tail := value + CRLF + rest;
    var payload := line + CRLF + name + tail;
    LowerConcat(line + CRLF + name, tail);
    LowerConcat(line + CRLF, name);
    LowerConcat(line, CRLF);
    assert Lower(CRLF) == CRLF;
    IndexAfterCleanLine(Lower(line), "host:", Lower(tail));
    assert payload[|line| + 2 + 5..] == tail;
    FirstBreakAfter(value, rest);
  }

  lemma SpaceTrimmed(s: Bytes)
    requires IsToken(s)
    ensures Trim(" " + s) == s && '\r' !in " " + s && '\n' !in " " + s
  {
    var t := " " + s;
    assert t[1..] == s && TrimLeft(t) == TrimLeft(s) == s && TrimRight(s) == s;
    assert forall k :: 0 <= k < |t| ==> t[k] == if k == 0 then ' ' else s[k - 1];
  }

  /** A request whose second line names its host. */
  function HostRequest(line: Bytes, host: Bytes, rest: Bytes): Bytes {
    line + CRLF + "Host:" + (" " + host + CRLF + rest)
  }

  /**
    The filter on such requests: at `name:port` the request is turned away if and only
    if its host is not the name in any case and does not begin with it.
   */
  lemma ForeignHostTurnedAwayIff(
      rec: Recording, st: ProxyState, line: Bytes, host: Bytes, rest: Bytes, name: Bytes, port: Bytes)
    requires rec.Valid() && rec.parser == STANDARD
    requires !Contains(Lower(line), "host:") && IsToken(host) && ':' !in name
    ensures
      var request := HostRequest(line, host, rest);
      var filter := name + ":" + port;
      if Lower(host) != Lower(name) && !HasPrefix(host, name)
      then Pick(rec, st, request, filter) == None && Apply(rec, st, Serve(request, filter)) == st
      else Pick(rec, st, request, filter) == Pick(rec, st, request, "")
  {
    SpaceTrimmed(host);
    HostOfSecondLine(line, "Host:", " " + host, rest);
    FilterTurnsAwayIff(rec, st, HostRequest(line, host, rest), name, port);
  }

  // ---------- keys in plain words ----------

  /** The target up to its query. */
  predicate IsPathOf(path: Bytes, target: Bytes) {
    path <= target && '?' !in path && (path == target || target[|path|] == '?')
  }

  lemma BeforeQuery(path: Bytes, target: Bytes)
    requires IsPathOf(path, target)
    ensures Before(target, "?") == path
  {
    BeforeQuestion(target, |path|);
  }

  /** The key of an HTTP request: the verb in capitals and the target without its query. */
  lemma HttpKey(verb: Bytes, target: Bytes, path: Bytes, version: Bytes, rest: Bytes)
    requires IsToken(verb) && verb != "POST" && IsToken(target) && IsPathOf(path, target) && IsToken(version)
    ensures RequestKey(RequestLine(verb, target, version) + CRLF + rest) == Upper(verb) + " " + path
  {
    BeforeQuery(path, target);
    KeyIgnoresTheRest(verb, target, version, rest);
  }

  /** Letters of the verb in either case make the same key. */
  lemma CapitalsOf(s: Bytes)
    ensures forall k :: 0 <= k < |s| ==> !('a' <= Upper(s)[k] <= 'z') && Lower(Upper(s))[k] == Lower(s)[k]
    ensures forall k :: 0 <= k < |s| && !('a' <= s[k] <= 'z') ==> Upper(s)[k] == s[k]
  {}

  /** The target without a slash at its front. */
  function Stripped(target: Bytes): Bytes {
    if target != [] && target[0] == '/' then target[1..] else target
  }

  /** A target names a gRPC call if it has a slash behind a first byte that is none. */
  lemma GrpcIff(target: Bytes)
    ensures ServiceAndMethod(target).Some? <==> exists i :: 0 < i < |Stripped(target)| && Stripped(target)[i] == '/'
  {
    assert target != [] ==> target[..1] == [target[0]];
    assert HasPrefix(target, "/") <==> target != [] && target[0] == '/';
    var path := Stripped(target);
    var last := LastByte(path, '/');
    if i :| 0 < i < |path| && path[i] == '/' {
      assert last.Some? && last.value >= i;
    }
  }

  lemma StrippedIs(target: Bytes)
    ensures Stripped(target) == if HasPrefix(target, "/") then target[1..] else target
  {
    assert target != [] ==> target[..1] == [target[0]];
  }

  lemma CutAtSlash(path: Bytes, i: nat)
    requires i < |path| && path[i] == '/'
    ensures GrpcKey(path[..i], path[i + 1..]) == "GRPC " + path
  {
    assert path == path[..i] + "/" + path[i + 1..];
    assert "GRPC " + (path[..i] + "/" + path[i + 1..]) == "GRPC " + path[..i] + "/" + path[i + 1..];
  }

  /** And then the key is all of it. */
  lemma GrpcKeyIs(target: Bytes)
    requires ServiceAndMethod(target).Some?
    ensures
      var (service, rpc) := ServiceAndMethod(target).value;
      GrpcKey(service, rpc) == "GRPC " + Stripped(target)
  {
    StrippedIs(target);
    var path := Stripped(target);
    var i := LastByte(path, '/').value;
    CutAtSlash(path, i);
  }

  /** The key of a gRPC call: what follows the first slash, service and method. */
  lemma GrpcCallKey(target: Bytes, i: nat, version: Bytes, rest: Bytes)
    requires IsToken(target) && target[0] == '/' && 1 < i < |target| && target[i] == '/' && IsToken(version)
    ensures RequestKey(RequestLine("POST", target, version) + CRLF + rest) == "GRPC " + target[1..]
  {
    assert Stripped(target)[i - 1] == '/';
    GrpcIff(target);
    GrpcKeyIs(target);
    KeyIgnoresTheRest("POST", target, version, rest);
  }

  lemma PlainPostKeyFor(target: Bytes)
    requires target != [] && target[0] == '/' && '?' !in target && '/' !in target[1..]
    ensures KeyFor("POST", target) == "POST " + target
  {
    GrpcIff(target);
    BeforeQuery(target, target);
    CapitalsOf("POST");
    assert Upper("POST") == "POST";
  }

  /** A POST to a path of one segment is no gRPC call. */
  lemma PlainPostKey(target: Bytes, version: Bytes, rest: Bytes)
    requires IsToken(target) && target[0] == '/' && '?' !in target && '/' !in target[1..] && IsToken(version)
    ensures RequestKey(RequestLine("POST", target, version) + CRLF + rest) == "POST " + target
  {
    PlainPostKeyFor(target);
    KeyIgnoresTheRest("POST", target, version, rest);
  }
}
