/**
  The vector-clock header: printed into captured HTTP messages by the agent, parsed
  out of them by the collector.
 */
module VectorClock {
  import opened ByteStrings
  import opened IOEvents
  import opened Options

  const HEADER_NAME: Bytes := "X-DRE-Vector-Clock"
  const HEADER_START: Bytes := "X-DRE-Vector-Clock: "
  const WRAP := 0x1_0000_0000_0000_0000

  // ---------- printing ----------

  function Digit(d: nat): byte
    requires d < 10
  {
    ('0' as int + d) as char
  }

  predicate IsDigit(c: byte) {
    '0' <= c <= '9'
  }

  function Decimal(n: nat): (s: Bytes)
    ensures s != [] && forall k :: 0 <= k < |s| ==> IsDigit(s[k])
  {
    if n < 10 then [Digit(n)] else Decimal(n / 10) + [Digit(n % 10)]
  }

  /** The name of a node at a sequence number, `node:seq`. */
  function ClockId(node: Bytes, s: nat): Bytes {
    node + ":" + Decimal(s)
  }

  function HeaderLine(node: Bytes, s: nat): Bytes {
    HEADER_START + ClockId(node, s) + CRLF
  }

  // ---------- parsing ----------

  /** A string of decimal digits as a 64-bit number, which wraps around silently. */
  function ParseDigits(s: Bytes): Option<uint64> {
    if s == [] then Some(0)
    else
      match ParseDigits(s[..|s| - 1])
      case None => None
      case Some(n) =>
        var c := s[|s| - 1];
        if IsDigit(c) then Some((n * 10 + (c as int - '0' as int)) % WRAP) else None
  }

  /** Node and sequence number of a header value: what precedes and follows the last colon. */
  function ParseHeader(v: Bytes): Option<(Bytes, uint64)> {
    match LastByte(v, ':')
    case None => None
    case Some(i) =>
      match ParseDigits(v[i + 1..])
      case None => None
      case Some(s) => Some((v[..i], s))
  }

  method SplitClock(v: Bytes) returns (parts: seq<Bytes>)
    ensures parts ==
      match LastByte(v, ':')
      case None => [v]
      case Some(i) => [v[..i], v[i + 1..]]
  {
    var i := |v| - 1;
    while i >= 0
      invariant -1 <= i < |v|
      invariant forall k :: i < k < |v| ==> v[k] != ':'
    {
      if v[i] == ':' {
        return [v[..i], v[i + 1..]];
      }
      i := i - 1;
    }
    parts := [v];
  }

  method ParseHeaderValue(value: Bytes) returns (r: Option<(Bytes, uint64)>)
    ensures r == ParseHeader(value)
  {
    var parts := SplitClock(value);
    if |parts| != 2 {
      return None;
    }
    var s: uint64 := 0;
    for k := 0 to |parts[1]|
      invariant ParseDigits(parts[1][..k]) == Some(s)
    {
      var c := parts[1][k];
      assert parts[1][..k + 1][..k] == parts[1][..k];
      if c < '0' || c > '9' {
        NotDigits(parts[1], k);
        return None;
      }
      s := (s * 10 + (c as int - '0' as int)) % WRAP;
    }
    assert parts[1][..|parts[1]|] == parts[1];
    r := Some((parts[0], s));
  }

  lemma {:induction false} NotDigits(s: Bytes, k: nat)
    requires k < |s| && !IsDigit(s[k])
    ensures ParseDigits(s).None?
  {
    if k < |s| - 1 {
      NotDigits(s[..|s| - 1], k);
    }
  }

  // ---------- printing and parsing are inverse ----------

  lemma {:induction false} ParseDecimal(n: uint64)
    ensures ParseDigits(Decimal(n)) == Some(n)
  {
    var s := Decimal(n);
    if n >= 10 {
      ParseDecimal(n / 10);
      assert s[..|s| - 1] == Decimal(n / 10);
    } else {
      assert s[..|s| - 1] == [];
    }
  }

  /** Every node name, colons and all, and every 64-bit number come back. */
  lemma ParsePrinted(node: Bytes, s: uint64)
    ensures ParseHeader(ClockId(node, s)) == Some((node, s))
  {
    var id := ClockId(node, s);
    ParseDecimal(s);
    assert id[|node|] == ':';
    assert forall k :: |node| < k < |id| ==> IsDigit(id[k]);
    assert LastByte(id, ':') == Some(|node|);
    assert id[|node| + 1..] == Decimal(s) && id[..|node|] == node;
  }

  /** So different clock readings have different names. */
  lemma ClockIdInjective(a: Bytes, m: uint64, b: Bytes, n: uint64)
    requires ClockId(a, m) == ClockId(b, n)
    ensures a == b && m == n
  {
    ParsePrinted(a, m);
    ParsePrinted(b, n);
  }

  // ---------- the header in a message ----------

  /** The agent's test for an HTTP message. */
  predicate LooksLikeHTTP(payload: Bytes) {
    |payload| >= 12 && payload[0] in ['G', 'P', 'H']
  }

  /** The verbs of requests, and the word that responses begin with. */
  datatype Opening = GET | HEAD | POST | PUT | PATCH | RESPONSE | DELETE | OPTIONS | CONNECT | TRACE {
    function Word(): Bytes {
      match this
      case GET => "GET "
      case HEAD => "HEAD "
      case POST => "POST "
      case PUT => "PUT "
      case PATCH => "PATCH "
      case RESPONSE => "HTTP/"
      case DELETE => "DELETE "
      case OPTIONS => "OPTIONS "
      case CONNECT => "CONNECT "
      case TRACE => "TRACE "
    }
  }

  /**
    Which messages are taken for HTTP: of at least 12 bytes, responses and requests with
    five of the nine verbs; DELETE, OPTIONS, CONNECT and TRACE requests are not.
   */
  lemma TakenForHTTPIff(payload: Bytes, opening: Opening)
    requires opening.Word() <= payload
    ensures LooksLikeHTTP(payload)
      <==> |payload| >= 12 && opening in {GET, HEAD, POST, PUT, PATCH, RESPONSE}
  {
    assert payload[0] == opening.Word()[0];
  }

  /** The message with a header line put in after its first line, if that line ends. */
  function Inject(payload: Bytes, node: Bytes, s: nat): Bytes {
    match Index(payload, CRLF)
    case None => payload
    case Some(i) => payload[..i + 2] + HeaderLine(node, s) + payload[i + 2..]
  }

  /** What the collector reads out of a message. */
  function Extract(payload: Bytes): Option<(Bytes, uint64)> {
    match Index(payload, HEADER_START)
    case None => None
    case Some(i) => Value(payload[i + |HEADER_START|..])
  }

  function Value(rest: Bytes): Option<(Bytes, uint64)> {
    match Index(rest, CRLF)
    case None => None
    case Some(end) => ParseHeader(rest[..end])
  }

  /**
    The first line stays first, the header line follows it, and taking the header out
    gives back the message.
   */
  lemma InjectShape(payload: Bytes, node: Bytes, s: nat)
    requires Contains(payload, CRLF)
    ensures
      var out := Inject(payload, node, s);
      var i := Index(payload, CRLF).value;
      var h := HeaderLine(node, s);
      && Index(out, CRLF) == Some(i) && out[..i + 2] == payload[..i + 2]
      && out[i + 2..i + 2 + |h|] == h
      && out[..i + 2] + out[i + 2 + |h|..] == payload
  {
    InsertShape(payload, HeaderLine(node, s));
  }

  /** The header line, byte for byte. */
  lemma InjectedMessage(line: Bytes, more: Bytes, node: Bytes, s: nat)
    requires !Contains(line + "\r", CRLF)
    ensures Inject(line + "\r\n" + more, node, s)
      == line + "\r\n" + "X-DRE-Vector-Clock: " + node + ":" + Decimal(s) + "\r\n" + more
  {
    var payload := line + CRLF + more;
    FirstBreak(line, more);
    assert payload[..|line| + 2] == line + CRLF && payload[|line| + 2..] == more;
    HeaderLineParts(line + CRLF, node, s, more);
  }

  lemma FirstBreak(line: Bytes, more: Bytes)
    requires !Contains(line + "\r", CRLF)
    ensures Index(line + CRLF + more, CRLF) == Some(|line|)
  {
    var payload := line + CRLF + more;
    BreakBytes(payload, |line|);
    forall k | 0 <= k < |line|
      ensures !At(payload, CRLF, k)
    {
      BreakBytes(payload, k);
      BreakBytes(line + "\r", k);
      assert !At(line + "\r", CRLF, k);
      assert payload[k] == (line + "\r")[k] && payload[k + 1] == (line + "\r")[k + 1];
    }
  }

  lemma HeaderLineParts(lead: Bytes, node: Bytes, s: nat, more: Bytes)
    ensures lead + HeaderLine(node, s) + more
      == lead + "X-DRE-Vector-Clock: " + node + ":" + Decimal(s) + "\r\n" + more
  {}

  /** Numbers are printed without leading zeros, and by their value. */
  lemma {:induction false} DecimalIs(n: nat)
    ensures n > 0 ==> Decimal(n)[0] != '0'
    ensures |Decimal(n)| > 0 && Decimal(n)[|Decimal(n)| - 1] as int - '0' as int == n % 10
    ensures n >= 10 ==> Decimal(n)[..|Decimal(n)| - 1] == Decimal(n / 10)
    ensures n < 10 ==> |Decimal(n)| == 1
  {
    if n >= 10 {
      DecimalIs(n / 10);
    }
  }

  /** Whatever is put in after the first line leaves that line's end where it is. */
  lemma InsertShape(payload: Bytes, h: Bytes)
    requires Contains(payload, CRLF)
    ensures
      var i := Index(payload, CRLF).value;
      var out := payload[..i + 2] + h + payload[i + 2..];
      && Index(out, CRLF) == Some(i) && out[..i + 2] == payload[..i + 2]
      && out[i + 2..i + 2 + |h|] == h
      && out[..i + 2] + out[i + 2 + |h|..] == payload
  {
    var i := Index(payload, CRLF).value;
    var out := payload[..i + 2] + h + payload[i + 2..];
    forall k | 0 <= k <= i
      ensures At(out, CRLF, k) <==> At(payload, CRLF, k)
    {
      BreakBytes(out, k);
      BreakBytes(payload, k);
      assert out[k] == payload[k] && out[k + 1] == payload[k + 1];
    }
  }

  /** A clock name ends in a digit, so it contains a line break only if the node does. */
  lemma BreakInId(node: Bytes, s: nat, tail: Bytes, k: int)
    requires 0 <= k < |ClockId(node, s)|
    ensures At(ClockId(node, s) + CRLF + tail, CRLF, k) <==> At(node, CRLF, k)
  {
    var id := ClockId(node, s);
    var w := id + CRLF + tail;
    BreakBytes(w, k);
    BreakBytes(node, k);
    assert forall j :: 0 <= j < |node| ==> w[j] == node[j];
    assert forall j :: |node| <= j < |id| ==> w[j] == ':' || IsDigit(w[j]);
    assert w[k + 1] == if k + 1 < |id| then id[k + 1] else '\r';
  }

  /** Where the first `n` bytes of a clock reading, a line break and more have a line break. */
  lemma BreaksAfterId(node: Bytes, s: uint64, tail: Bytes, n: nat)
    requires n <= |ClockId(node, s) + CRLF + tail|
    ensures
      var id := ClockId(node, s);
      var w := (id + CRLF + tail)[..n];
      && (forall k :: 0 <= k < |id| ==> (At(w, CRLF, k) <==> k + 2 <= n && At(node, CRLF, k)))
      && (At(w, CRLF, |id|) <==> |id| + 2 <= n)
  {
    var id := ClockId(node, s);
    var whole := id + CRLF + tail;
    var w := whole[..n];
    forall k | 0 <= k <= |id|
      ensures At(w, CRLF, k) <==> k + 2 <= n && At(whole, CRLF, k)
    {
      if k + 2 <= n {
        assert w[k..k + 2] == whole[k..k + 2];
      }
    }
    assert whole[|id|..|id| + 2] == CRLF;
    forall k | 0 <= k < |id|
      ensures At(whole, CRLF, k) <==> At(node, CRLF, k)
    {
      BreakInId(node, s, tail, k);
    }
  }

  /**
    What follows the header's name yields the clock reading exactly if it reaches the
    end of the line and the node has no break.
   */
  lemma ValueBack(node: Bytes, s: uint64, tail: Bytes, n: nat)
    requires n <= |ClockId(node, s) + CRLF + tail|
    ensures Value((ClockId(node, s) + CRLF + tail)[..n]) == Some((node, s))
      <==> (!Contains(node, CRLF) && |ClockId(node, s)| + 2 <= n)
  {
    var id := ClockId(node, s);
    var w := (id + CRLF + tail)[..n];
    BreaksAfterId(node, s, tail, n);
    var end := Index(w, CRLF);
    if end.None? {
      assert !At(w, CRLF, |id|);
    } else if end.value < |id| {
      assert At(node, CRLF, end.value);
      var v := w[..end.value];
      assert ParseHeader(v).Some? ==> |ParseHeader(v).value.0| < |node|;
    } else {
      assert At(w, CRLF, |id|) && end.value == |id|;
      assert w[..|id|] == id;
      ParsePrinted(node, s);
      assert forall k :: 0 <= k <= |node| ==> !At(node, CRLF, k);
    }
  }

  function Truncated(s: Bytes): Bytes {
    if |s| <= MAX_PAYLOAD_LEN then s else s[..MAX_PAYLOAD_LEN]
  }

  /** In a message whose first line does not mention the header the injected one is found first. */
  lemma ExtractInjected(line: Bytes, w: Bytes)
    requires !Contains(line, HEADER_START)
    ensures Extract(line + CRLF + HEADER_START + w) == Value(w)
  {
    IndexAfterCleanLine(line, HEADER_START, w);
    var s := line + CRLF + HEADER_START + w;
    assert s[|line| + 2 + |HEADER_START|..] == w;
  }

  /** If the message was cut off inside the header's name nothing is found. */
  lemma ExtractCutName(line: Bytes, w: Bytes, n: nat)
    requires !Contains(line, HEADER_START)
    requires |line| + 2 <= n < |line| + 2 + |HEADER_START|
    ensures Extract((line + CRLF + HEADER_START + w)[..n]).None?
  {
    var s := line + CRLF + HEADER_START + w;
    IndexAfterCleanLine(line, HEADER_START, w);
    forall k | 0 <= k <= n
      ensures !At(s[..n], HEADER_START, k)
    {
      if k + |HEADER_START| <= n {
        assert s[..n][k..k + |HEADER_START|] == s[k..k + |HEADER_START|];
        assert !At(s, HEADER_START, k);
      }
    }
  }

  lemma InjectLayout(payload: Bytes, node: Bytes, s: nat) returns (tail: Bytes)
    requires Contains(payload, CRLF)
    ensures Inject(payload, node, s)
      == Before(payload, CRLF) + CRLF + HEADER_START + (ClockId(node, s) + CRLF + tail)
  {
    var line := Before(payload, CRLF);
    tail := payload[|line| + 2..];
    assert payload[..|line| + 2] == line + payload[|line|..|line| + 2];
    RegroupMessage(line, CRLF, HEADER_START, ClockId(node, s), CRLF, tail);
  }

  lemma RegroupMessage(a: Bytes, b: Bytes, c: Bytes, d: Bytes, e: Bytes, f: Bytes)
    ensures a + b + (c + d + e) + f == a + b + c + (d + e + f)
  {}

  lemma ExtractCutValue(line: Bytes, w: Bytes, n: nat)
    requires !Contains(line, HEADER_START)
    requires |line| + 2 + |HEADER_START| <= n <= |line + CRLF + HEADER_START + w|
    ensures Extract((line + CRLF + HEADER_START + w)[..n]) == Value(w[..n - (|line| + 2 + |HEADER_START|)])
  {
    var v := w[..n - (|line| + 2 + |HEADER_START|)];
    assert (line + CRLF + HEADER_START + w)[..n] == line + CRLF + HEADER_START + v;
    ExtractInjected(line, v);
  }

  lemma HeaderLineLength(node: Bytes, s: nat)
    ensures |HeaderLine(node, s)| == |HEADER_START| + |ClockId(node, s)| + 2
  {}

  lemma ExtractCut(line: Bytes, node: Bytes, s: uint64, tail: Bytes, n: nat)
    requires !Contains(line, HEADER_START)
    requires |line| + 2 <= n <= |line + CRLF + HEADER_START + (ClockId(node, s) + CRLF + tail)|
    ensures Extract((line + CRLF + HEADER_START + (ClockId(node, s) + CRLF + tail))[..n]) == Some((node, s))
      <==> (!Contains(node, CRLF) && |line| + 2 + |HeaderLine(node, s)| <= n)
  {
    var w := ClockId(node, s) + CRLF + tail;
    var lead := |line| + 2 + |HEADER_START|;
    HeaderLineLength(node, s);
    if n < lead {
      ExtractCutName(line, w, n);
    } else {
      var m := n - lead;
      ExtractCutValue(line, w, n);
      ValueBack(node, s, tail, m);
      assert |line| + 2 + |HeaderLine(node, s)| <= n <==> |ClockId(node, s)| + 2 <= m;
    }
  }

  /**
    End to end: whatever the node and the 64-bit number, a message that was injected,
    cut to the size of an event's payload and read back yields exactly that clock
    reading, if and only if the node name has no line break and the whole header line
    fits; provided the message's own first line does not mention the header.
   */
  lemma HeaderSurvives(payload: Bytes, node: Bytes, s: uint64)
    requires Contains(payload, CRLF) && |payload| <= MAX_PAYLOAD_LEN
    requires !Contains(Before(payload, CRLF), HEADER_START)
    ensures Extract(Truncated(Inject(payload, node, s))) == Some((node, s))
      <==> (!Contains(node, CRLF) && |Before(payload, CRLF)| + 2 + |HeaderLine(node, s)| <= MAX_PAYLOAD_LEN)
  {
    var tail := InjectLayout(payload, node, s);
    var out := Inject(payload, node, s);
    var n := if |out| <= MAX_PAYLOAD_LEN then |out| else MAX_PAYLOAD_LEN;
    assert Truncated(out) == out[..n];
    ExtractCut(Before(payload, CRLF), node, s, tail, n);
  }

  // ---------- the agent's clock ----------

  /** One counter per node; a node not in the map is at 0. */
  function At0(seqs: map<Bytes, uint64>, node: Bytes): uint64 {
    if node in seqs then seqs[node] else 0
  }

  function Ticked(seqs: map<Bytes, uint64>, node: Bytes): map<Bytes, uint64> {
    seqs[node := (At0(seqs, node) + 1) % WRAP]
  }

  class Clock {
    var seqs: map<Bytes, uint64>

    constructor ()
      ensures seqs == map[]
    {
      seqs := map[];
    }

    method InjectHeader(node: Bytes) returns (id: Bytes)
      modifies this
      ensures seqs == Ticked(old(seqs), node)
      ensures id == ClockId(node, At0(seqs, node))
    {
      var s := At0(seqs, node);
      seqs := seqs[node := (s + 1) % WRAP];
      id := ClockId(node, seqs[node]);
    }
  }

  /** The counter advances for every message that looks like HTTP, even one whose first line never ends. */
  method MaybeInjectHTTP(payload: Bytes, node: Bytes, eng: Clock?) returns (out: Bytes)
    modifies eng
    ensures eng != null ==>
      eng.seqs == if LooksLikeHTTP(payload) then Ticked(old(eng.seqs), node) else old(eng.seqs)
    ensures out ==
      if eng != null && LooksLikeHTTP(payload) then Inject(payload, node, At0(eng.seqs, node)) else payload
  {
    if |payload| < 12 || eng == null {
      return payload;
    }
    if payload[0] != 'G' && payload[0] != 'P' && payload[0] != 'H' {
      return payload;
    }
    var id := eng.InjectHeader(node);
    var header := HEADER_START + id + CRLF;
    var idx := Index(payload, CRLF);
    if idx.None? {
      return payload;
    }
    out := payload[..idx.value + 2];
    out := out + header;
    out := out + payload[idx.value + 2..];
  }

  /** The counters after a run of injections at the given nodes. */
  function TickedAll(nodes: seq<Bytes>): map<Bytes, uint64> {
    if nodes == [] then map[] else Ticked(TickedAll(nodes[..|nodes| - 1]), nodes[|nodes| - 1])
  }

  function Count(nodes: seq<Bytes>, node: Bytes): nat {
    if nodes == [] then 0
    else Count(nodes[..|nodes| - 1], node) + if nodes[|nodes| - 1] == node then 1 else 0
  }

  /** The number a node emits is how often it was asked, modulo the width of the counter. */
  lemma {:induction false} TicksCount(nodes: seq<Bytes>, node: Bytes)
    ensures At0(TickedAll(nodes), node) == Count(nodes, node) % WRAP
  {
    if nodes == [] {
    } else {
      TicksCount(nodes[..|nodes| - 1], node);
    }
  }

  lemma {:induction false} CountGrows(nodes: seq<Bytes>, node: Bytes, m: nat, n: nat)
    requires m <= n <= |nodes|
    ensures Count(nodes[..m], node) <= Count(nodes[..n], node) <= n
    ensures m < n && nodes[n - 1] == node ==> Count(nodes[..m], node) < Count(nodes[..n], node)
    decreases n
  {
    if n == 0 {
    } else {
      assert nodes[..n][..n - 1] == nodes[..n - 1];
      CountGrows(nodes, node, if m < n then m else n - 1, n - 1);
    }
  }

  /** A node's emitted numbers strictly increase over any run too short to wrap the counter. */
  lemma EmittedIncrease(nodes: seq<Bytes>, m: nat, n: nat)
    requires 0 < m < n <= |nodes| < WRAP && nodes[m - 1] == nodes[n - 1]
    ensures At0(TickedAll(nodes[..m]), nodes[m - 1]) < At0(TickedAll(nodes[..n]), nodes[n - 1])
  {
    TicksCount(nodes[..m], nodes[m - 1]);
    TicksCount(nodes[..n], nodes[n - 1]);
    CountGrows(nodes, nodes[n - 1], m, n);
  }
}
