/**
  The replay proxy's state machine: the cursor, the consumed responses, and the
  two atomic actions that change them.
 */
module ReplayProxy {
  import opened ByteStrings
  import opened IOEvents
  import opened Options

  /**
    How requests are read.  Every result below holds for any such reading; the one
    the proxy uses is in module HttpText.
   */
  datatype Parser = Parser(
    key: Bytes -> Bytes,
    host: Bytes -> Bytes,
    equalFold: (Bytes, Bytes) -> bool)

  /** The part of a configured service address that the host filter compares. */
  function FilterHost(hostFilter: Bytes): Bytes {
    Before(hostFilter, ":")
  }

  predicate HostRejected(p: Parser, hostFilter: Bytes, host: Bytes) {
    && hostFilter != ""
    && host != ""
    && !p.equalFold(host, FilterHost(hostFilter))
    && !HasPrefix(host, FilterHost(hostFilter))
  }

  /** The events of a loaded snapshot with the way requests are matched to them. */
  datatype Recording = Recording(events: seq<IOEvent>, parser: Parser) {
    /** The payloads the proxy slices are within their arrays. */
    ghost predicate Valid() {
      forall i :: 0 <= i < |events| && events[i].isWrite <= WRITE ==> events[i].WellFormed()
    }

    /** Event `j` exists and is a response that can be served. */
    predicate Response(j: int) {
      0 <= j < |events| && events[j].IsResponse()
    }

    /** Event `i` exists and is a recorded request with this key, and this host if both have one. */
    predicate Answers(i: int, key: Bytes, host: Bytes)
      requires Valid()
    {
      && 0 <= i < |events|
      && events[i].isWrite == READ
      && parser.key(events[i].View()) == key
      && (host == "" || parser.host(events[i].View()) == "" || parser.host(events[i].View()) == host)
    }
  }

  datatype ProxyState = ProxyState(cursor: int, consumed: set<int>)

  const FRESH := ProxyState(0, {})

  /** The state after the cursor is moved to `index`: moving back forgets what was consumed from there on. */
  function Moved(rec: Recording, st: ProxyState, index: int): ProxyState {
    ProxyState(
      index,
      if index < st.cursor then set j | j in st.consumed && !(index <= j < |rec.events|)
      else st.consumed)
  }

  /** The first unserved response at or after `lo`. */
  function FirstUnserved(rec: Recording, consumed: set<int>, lo: int): (r: Option<int>)
    ensures r.Some? ==> lo <= r.value && rec.Response(r.value) && r.value !in consumed
    ensures r.Some? ==> forall k :: lo <= k < r.value && rec.Response(k) ==> k in consumed
    ensures r.None? ==> forall k :: lo <= k && rec.Response(k) ==> k in consumed
    decreases |rec.events| - lo
  {
    if lo >= |rec.events| then None
    else if rec.Response(lo) && lo !in consumed then Some(lo)
    else FirstUnserved(rec, consumed, lo + 1)
  }

  /** The first recorded request at or after `lo` that a request with this key and host answers to. */
  function FirstRequest(rec: Recording, lo: int, key: Bytes, host: Bytes): (r: Option<int>)
    requires rec.Valid()
    ensures r.Some? ==> lo <= r.value && rec.Answers(r.value, key, host)
    ensures r.Some? ==> forall k :: lo <= k < r.value ==> !rec.Answers(k, key, host)
    ensures r.None? ==> forall k :: lo <= k ==> !rec.Answers(k, key, host)
    decreases |rec.events| - lo
  {
    if lo >= |rec.events| then None
    else if rec.Answers(lo, key, host) then Some(lo)
    else FirstRequest(rec, lo + 1, key, host)
  }

  /**
    The event served to a request: with a key, the first unserved response after the
    first recorded request that it answers to; without one, the first unserved
    response from the cursor on.
   */
  function Pick(rec: Recording, st: ProxyState, request: Bytes, hostFilter: Bytes): Option<int>
    requires rec.Valid()
  {
    var key := rec.parser.key(request);
    var host := rec.parser.host(request);
    if HostRejected(rec.parser, hostFilter, host) then None
    else if key == "" then FirstUnserved(rec, st.consumed, st.cursor)
    else
      match FirstRequest(rec, st.cursor, key, host)
      case None => None
      case Some(i) => FirstUnserved(rec, st.consumed, i + 1)
  }

  /**
    The host filter.  At an address `name:port` a request is turned away if and only if
    it names a host that is not that name, by the proxy's comparison, and does not
    begin with it; then it is given nothing and nothing changes.  A request that is not
    turned away is given what it would be given without a filter.
   */
  lemma FilterTurnsAwayIff(rec: Recording, st: ProxyState, request: Bytes, name: Bytes, port: Bytes)
    requires rec.Valid() && ':' !in name
    ensures
      var p := rec.parser;
      var host := p.host(request);
      var away := host != "" && !p.equalFold(host, name) && !(name <= host);
      var filter := name + ":" + port;
      && (HostRejected(p, filter, host) <==> away)
      && (away ==> Pick(rec, st, request, filter) == None && Apply(rec, st, Serve(request, filter)) == st)
      && (!away ==> Pick(rec, st, request, filter) == Pick(rec, st, request, ""))
  {
    var filter := name + ":" + port;
    BeforeColon(filter, |name|);
    assert filter[..|name|] == name && filter != "";
  }

  /** The same for an address without a port; the empty address filters nothing. */
  lemma PlainFilterTurnsAwayIff(rec: Recording, st: ProxyState, request: Bytes, name: Bytes)
    requires rec.Valid() && ':' !in name
    ensures
      var p := rec.parser;
      var host := p.host(request);
      var away := name != "" && host != "" && !p.equalFold(host, name) && !(name <= host);
      && (HostRejected(p, name, host) <==> away)
      && (away ==> Pick(rec, st, request, name) == None && Apply(rec, st, Serve(request, name)) == st)
      && (!away ==> Pick(rec, st, request, name) == Pick(rec, st, request, ""))
  {
    BeforeColon(name, |name|);
    assert name[..|name|] == name;
  }

  /** Event `i` is a recorded read with the request's key, and the two name the same host if both name one. */
  predicate SameRequest(rec: Recording, i: int, request: Bytes)
    requires rec.Valid()
  {
    && 0 <= i < |rec.events|
    && rec.events[i].isWrite == 0
    && var recorded := rec.events[i].payload[..rec.events[i].payloadLen];
      && rec.parser.key(recorded) == rec.parser.key(request)
      && (rec.parser.host(request) == "" || rec.parser.host(recorded) == ""
          || rec.parser.host(recorded) == rec.parser.host(request))
  }

  /** Event `j` is a recorded write with a payload that has not been served. */
  predicate Unserved(rec: Recording, st: ProxyState, j: int) {
    0 <= j < |rec.events| && rec.events[j].isWrite == 1 && rec.events[j].payloadLen > 0 && j !in st.consumed
  }

  /** `j` is the first unserved write from `lo` on, or there is none. */
  ghost predicate IsFirstUnserved(rec: Recording, st: ProxyState, lo: int, pick: Option<int>) {
    match pick
    case None => forall k :: lo <= k ==> !Unserved(rec, st, k)
    case Some(j) => lo <= j && Unserved(rec, st, j) && forall k :: lo <= k < j ==> !Unserved(rec, st, k)
  }

  /** Event `i` is the first recorded request from `lo` on that is the same as this one. */
  ghost predicate IsFirstSame(rec: Recording, lo: int, i: int, request: Bytes)
    requires rec.Valid()
  {
    lo <= i && SameRequest(rec, i, request) && forall k :: lo <= k < i ==> !SameRequest(rec, k, request)
  }

  /**
    What a request is given, in terms of the recording.  Without a key it is the first
    unserved write from the cursor on.  With a key it is the first unserved write after
    the first recorded request from the cursor on that is the same; if no recorded
    request is, it is nothing.
   */
  lemma PickIs(rec: Recording, st: ProxyState, request: Bytes, i: int)
    requires rec.Valid()
    ensures
      var pick := Pick(rec, st, request, "");
      if rec.parser.key(request) == "" then IsFirstUnserved(rec, st, st.cursor, pick)
      else
        && (IsFirstSame(rec, st.cursor, i, request) ==> IsFirstUnserved(rec, st, i + 1, pick))
        && ((forall k :: st.cursor <= k ==> !SameRequest(rec, k, request)) ==> pick == None)
  {
    var key, host := rec.parser.key(request), rec.parser.host(request);
    forall k
      ensures SameRequest(rec, k, request) <==> rec.Answers(k, key, host)
      ensures Unserved(rec, st, k) <==> rec.Response(k) && k !in st.consumed
    {}
    var first := FirstRequest(rec, st.cursor, key, host);
    if IsFirstSame(rec, st.cursor, i, request) && first.Some? {
      assert first.value == i by {
        assert SameRequest(rec, first.value, request) && rec.Answers(i, key, host);
      }
    }
  }

  function Served(st: ProxyState, pick: Option<int>): ProxyState {
    if pick.Some? then st.(consumed := st.consumed + {pick.value}) else st
  }

  /** What can happen to the proxy in one hold of its mutex. */
  datatype Action = Move(index: nat) | Serve(request: Bytes, hostFilter: Bytes)

  /** The event an action serves, if any. */
  function Output(rec: Recording, st: ProxyState, a: Action): Option<int>
    requires rec.Valid()
  {
    if a.Serve? then Pick(rec, st, a.request, a.hostFilter) else None
  }

  function Apply(rec: Recording, st: ProxyState, a: Action): ProxyState
    requires rec.Valid()
  {
    if a.Move? then Moved(rec, st, a.index) else Served(st, Output(rec, st, a))
  }

  /** The state after the first `n` actions of a run. */
  function After(rec: Recording, st: ProxyState, run: seq<Action>, n: nat): ProxyState
    requires rec.Valid() && n <= |run|
  {
    if n == 0 then st else Apply(rec, After(rec, st, run, n - 1), run[n - 1])
  }

  /** The event that the action at time `t` of a run serves, if any. */
  function ServedAt(rec: Recording, st: ProxyState, run: seq<Action>, t: nat): Option<int>
    requires rec.Valid() && t < |run|
  {
    Output(rec, After(rec, st, run, t), run[t])
  }

  // ---------- what every action keeps ----------

  /** Only servable responses are ever marked consumed. */
  ghost predicate Inv(rec: Recording, st: ProxyState) {
    forall j :: j in st.consumed ==> rec.Response(j)
  }

  lemma {:induction false} RunKeepsInv(rec: Recording, st: ProxyState, run: seq<Action>, n: nat)
    requires rec.Valid() && n <= |run| && Inv(rec, st)
    ensures Inv(rec, After(rec, st, run, n))
  {
    if n == 0 {
    } else {
      RunKeepsInv(rec, st, run, n - 1);
    }
  }

  /** A served event is an unserved response at or after the cursor, and is consumed by being served. */
  lemma ServedIsEligible(rec: Recording, st: ProxyState, run: seq<Action>, t: nat)
    requires rec.Valid() && t < |run|
    ensures
      var before := After(rec, st, run, t);
      var after := After(rec, st, run, t + 1);
      match ServedAt(rec, st, run, t)
      case None => after.consumed <= before.consumed
      case Some(j) =>
        && rec.Response(j) && before.cursor <= j
        && j !in before.consumed && after == before.(consumed := before.consumed + {j})
  {}

  // ---------- determinism: a bisimulation ----------

  /** Two servers look alike from their cursor on. */
  ghost predicate Alike(rec: Recording, a: ProxyState, b: ProxyState) {
    && a.cursor == b.cursor
    && forall j :: a.cursor <= j < |rec.events| ==> (j in a.consumed <==> j in b.consumed)
  }

  lemma AlikeStep(rec: Recording, a: ProxyState, b: ProxyState, action: Action)
    requires rec.Valid() && Alike(rec, a, b)
    ensures Output(rec, a, action) == Output(rec, b, action)
    ensures Alike(rec, Apply(rec, a, action), Apply(rec, b, action))
  {
    forall lo | a.cursor <= lo
      ensures FirstUnserved(rec, a.consumed, lo) == FirstUnserved(rec, b.consumed, lo)
    {
      var x, y := FirstUnserved(rec, a.consumed, lo), FirstUnserved(rec, b.consumed, lo);
      assert x.Some? ==> x.value !in b.consumed;
      assert y.Some? ==> y.value !in a.consumed;
    }
  }

  /** Servers that look alike stay alike. */
  lemma {:induction false} AlikeAfter(rec: Recording, a: ProxyState, b: ProxyState, run: seq<Action>, n: nat)
    requires rec.Valid() && n <= |run| && Alike(rec, a, b)
    ensures Alike(rec, After(rec, a, run, n), After(rec, b, run, n))
  {
    if n == 0 {
    } else {
      AlikeAfter(rec, a, b, run, n - 1);
      AlikeStep(rec, After(rec, a, run, n - 1), After(rec, b, run, n - 1), run[n - 1]);
    }
  }

  /** Deterministic replay: servers that look alike serve the same events for ever after. */
  lemma {:induction false} AlikeForever(rec: Recording, a: ProxyState, b: ProxyState, run: seq<Action>, n: nat)
    requires rec.Valid() && n <= |run| && Alike(rec, a, b)
    ensures Alike(rec, After(rec, a, run, n), After(rec, b, run, n))
    ensures forall t :: 0 <= t < n ==> ServedAt(rec, a, run, t) == ServedAt(rec, b, run, t)
  {
    AlikeAfter(rec, a, b, run, n);
    forall t | 0 <= t < n
      ensures ServedAt(rec, a, run, t) == ServedAt(rec, b, run, t)
    {
      AlikeAfter(rec, a, b, run, t);
      AlikeStep(rec, After(rec, a, run, t), After(rec, b, run, t), run[t]);
    }
  }

  /**
    Moving to `r` makes the server look like a freshly built one moved to `r`
    exactly when it goes back or has consumed nothing from `r` on.
   */
  lemma RewindIsFresh(rec: Recording, st: ProxyState, r: nat)
    ensures Alike(rec, Moved(rec, st, r), Moved(rec, FRESH, r))
      <==> (r < st.cursor || forall j :: r <= j < |rec.events| ==> j !in st.consumed)
  {}

  /** Rewinding to `r` replays exactly what a freshly built server would from `r`, whatever was served before. */
  lemma RewindReplays(rec: Recording, past: seq<Action>, r: nat, run: seq<Action>)
    requires rec.Valid()
    requires r < After(rec, FRESH, past, |past|).cursor
    ensures
      var rewound := Moved(rec, After(rec, FRESH, past, |past|), r);
      forall t :: 0 <= t < |run| ==>
        ServedAt(rec, rewound, run, t) == ServedAt(rec, Moved(rec, FRESH, r), run, t)
  {
    var st := After(rec, FRESH, past, |past|);
    RewindIsFresh(rec, st, r);
    AlikeForever(rec, Moved(rec, st, r), Moved(rec, FRESH, r), run, |run|);
  }

  // ---------- safety over whole runs ----------

  /** The action at time `u` moves the cursor back. */
  ghost predicate MovesBack(rec: Recording, st: ProxyState, run: seq<Action>, u: nat)
    requires rec.Valid() && u < |run|
  {
    run[u].Move? && run[u].index < After(rec, st, run, u).cursor
  }

  /** The action at time `u` moves the cursor back, to `j` or before it. */
  ghost predicate RewindsPast(rec: Recording, st: ProxyState, run: seq<Action>, u: nat, j: int)
    requires rec.Valid() && u < |run|
  {
    MovesBack(rec, st, run, u) && run[u].index <= j
  }

  /** Event `j` was served at time `t` and up to time `n` the cursor has not been taken back past it. */
  ghost predicate SpentSince(rec: Recording, st: ProxyState, run: seq<Action>, n: nat, j: int, t: nat)
    requires rec.Valid() && t < n <= |run|
  {
    && ServedAt(rec, st, run, t) == Some(j)
    && forall u :: t < u < n ==> !RewindsPast(rec, st, run, u, j)
  }

  ghost predicate Spent(rec: Recording, st: ProxyState, run: seq<Action>, n: nat, j: int)
    requires rec.Valid() && n <= |run|
  {
    exists t :: 0 <= t < n && SpentSince(rec, st, run, n, j, t)
  }

  /** One action adds what it serves to the consumed set and removes what it rewinds past. */
  lemma ConsumedStep(rec: Recording, st: ProxyState, a: Action, j: int)
    requires rec.Valid() && Inv(rec, st)
    ensures j in Apply(rec, st, a).consumed
      <==> (Output(rec, st, a) == Some(j)
            || (j in st.consumed && !(a.Move? && a.index < st.cursor && a.index <= j)))
  {}

  lemma SpentSinceStep(rec: Recording, st: ProxyState, run: seq<Action>, n: nat, j: int, t: nat)
    requires rec.Valid() && t < n < |run|
    ensures SpentSince(rec, st, run, n + 1, j, t)
      <==> (SpentSince(rec, st, run, n, j, t) && !RewindsPast(rec, st, run, n, j))
  {}

  lemma SpentStep(rec: Recording, st: ProxyState, run: seq<Action>, n: nat, j: int)
    requires rec.Valid() && n < |run|
    ensures Spent(rec, st, run, n + 1, j)
      <==> (ServedAt(rec, st, run, n) == Some(j)
            || (Spent(rec, st, run, n, j) && !RewindsPast(rec, st, run, n, j)))
  {
    if ServedAt(rec, st, run, n) == Some(j) {
      assert SpentSince(rec, st, run, n + 1, j, n);
    } else if Spent(rec, st, run, n + 1, j) {
      var t :| 0 <= t < n + 1 && SpentSince(rec, st, run, n + 1, j, t);
      SpentSinceStep(rec, st, run, n, j, t);
    } else if Spent(rec, st, run, n, j) {
      var t :| 0 <= t < n && SpentSince(rec, st, run, n, j, t);
      SpentSinceStep(rec, st, run, n, j, t);
    }
  }

  /** The consumed set is the history: an event is in it exactly when it is spent. */
  lemma {:induction false} ConsumedIsSpent(rec: Recording, c: int, run: seq<Action>, n: nat, j: int)
    requires rec.Valid() && n <= |run|
    ensures j in After(rec, ProxyState(c, {}), run, n).consumed <==> Spent(rec, ProxyState(c, {}), run, n, j)
  {
    if n == 0 {
    } else {
      var st := ProxyState(c, {});
      var m := n - 1;
      ConsumedIsSpent(rec, c, run, m, j);
      SpentStep(rec, st, run, m, j);
      assert j in After(rec, st, run, n).consumed
        <==> (ServedAt(rec, st, run, m) == Some(j)
              || (j in After(rec, st, run, m).consumed && !RewindsPast(rec, st, run, m, j)))
      by {
        RunKeepsInv(rec, st, run, m);
        ConsumedStep(rec, After(rec, st, run, m), run[m], j);
      }
    }
  }

  /** No event is served twice unless the cursor was taken back to it, or before it, in between. */
  lemma ServedTwiceMeansRewound(rec: Recording, c: int, run: seq<Action>, t: nat, u: nat, j: int)
    requires rec.Valid() && t < u < |run|
    requires ServedAt(rec, ProxyState(c, {}), run, t) == Some(j) == ServedAt(rec, ProxyState(c, {}), run, u)
    ensures exists v :: t < v < u && RewindsPast(rec, ProxyState(c, {}), run, v, j)
  {
    var st := ProxyState(c, {});
    ConsumedIsSpent(rec, c, run, u, j);
    ServedIsEligible(rec, st, run, u);
    assert !SpentSince(rec, st, run, u, j, t);
  }

  /** Without a move back in between, two responses are two events. */
  lemma NoRewindNoRepeat(rec: Recording, c: int, run: seq<Action>, t: nat, u: nat)
    requires rec.Valid() && t < u < |run|
    requires forall v :: t < v < u ==> !MovesBack(rec, ProxyState(c, {}), run, v)
    requires ServedAt(rec, ProxyState(c, {}), run, t).Some?
    ensures ServedAt(rec, ProxyState(c, {}), run, t) != ServedAt(rec, ProxyState(c, {}), run, u)
  {
    var st := ProxyState(c, {});
    if ServedAt(rec, st, run, t) == ServedAt(rec, st, run, u) {
      ServedTwiceMeansRewound(rec, c, run, t, u, ServedAt(rec, st, run, t).value);
    }
  }

  /** The responses of the recording. */
  ghost function Responses(rec: Recording): set<int> {
    set j | 0 <= j < |rec.events| && rec.Response(j)
  }

  /** How many of the first `n` actions of a run served something. */
  ghost function ServedCount(rec: Recording, st: ProxyState, run: seq<Action>, n: nat): nat
    requires rec.Valid() && n <= |run|
  {
    if n == 0 then 0
    else ServedCount(rec, st, run, n - 1) + if ServedAt(rec, st, run, n - 1).Some? then 1 else 0
  }

  /** While the cursor does not move back, every response given is one more event consumed. */
  lemma {:induction false} ServedCountIsConsumed(rec: Recording, st: ProxyState, run: seq<Action>, n: nat)
    requires rec.Valid() && n <= |run|
    requires forall u :: 0 <= u < n ==> !MovesBack(rec, st, run, u)
    ensures |After(rec, st, run, n).consumed| == |st.consumed| + ServedCount(rec, st, run, n)
  {
    if n == 0 {
    } else {
      ServedCountIsConsumed(rec, st, run, n - 1);
      ServedIsEligible(rec, st, run, n - 1);
      assert !MovesBack(rec, st, run, n - 1);
    }
  }

  /** So between rewinds the proxy gives at most as many responses as were recorded and are still unserved. */
  lemma ResponsesAreBounded(rec: Recording, st: ProxyState, run: seq<Action>)
    requires rec.Valid() && Inv(rec, st)
    requires forall u :: 0 <= u < |run| ==> !MovesBack(rec, st, run, u)
    ensures ServedCount(rec, st, run, |run|) + |st.consumed| <= |Responses(rec)|
  {
    ServedCountIsConsumed(rec, st, run, |run|);
    RunKeepsInv(rec, st, run, |run|);
    var consumed := After(rec, st, run, |run|).consumed;
    assert Responses(rec) == consumed + (Responses(rec) - consumed);
  }

  // ---------- repeated requests ----------

  /** The cursor a request is matched from: the session's, when the proxy is attached to one. */
  function Sampled(rec: Recording, st: ProxyState, sample: Option<int>): ProxyState {
    if sample.Some? then Moved(rec, st, sample.value) else st
  }

  /** The responses recorded from `lo` on, in recorded order. */
  function ResponsesFrom(rec: Recording, lo: int): (w: seq<int>)
    ensures forall k :: k in w <==> lo <= k && rec.Response(k)
    ensures forall a, b :: 0 <= a < b < |w| ==> w[a] < w[b]
    decreases |rec.events| - lo
  {
    if lo >= |rec.events| then []
    else
      var rest := ResponsesFrom(rec, lo + 1);
      assert forall b :: 0 <= b < |rest| ==> rest[b] in rest;
      if rec.Response(lo) then [lo] + rest else rest
  }

  /** The responses a request can be given when the cursor is at `cursor` and nothing has been served. */
  function Candidates(rec: Recording, cursor: int, request: Bytes, hostFilter: Bytes): seq<int>
    requires rec.Valid()
  {
    var key := rec.parser.key(request);
    var host := rec.parser.host(request);
    if HostRejected(rec.parser, hostFilter, host) then []
    else if key == "" then ResponsesFrom(rec, cursor)
    else
      match FirstRequest(rec, cursor, key, host)
      case None => []
      case Some(i) => ResponsesFrom(rec, i + 1)
  }

  function Take(w: seq<int>, k: nat): seq<int> {
    if k < |w| then w[..k] else w
  }

  /** With exactly the first `k` of the responses from `lo` on consumed, the next one served is number `k`. */
  lemma NextInOrder(rec: Recording, consumed: set<int>, lo: int, k: nat)
    requires forall j :: lo <= j ==> (j in consumed <==> j in Take(ResponsesFrom(rec, lo), k))
    ensures
      var w := ResponsesFrom(rec, lo);
      FirstUnserved(rec, consumed, lo) == if k < |w| then Some(w[k]) else None
  {
    var w := ResponsesFrom(rec, lo);
    if k < |w| {
      assert w[k] in w && w[k] !in w[..k];
      forall j | lo <= j < w[k] && rec.Response(j)
        ensures j in consumed
      {
        EarlierInOrder(w, k, j);
      }
    }
  }

  lemma EarlierInOrder(w: seq<int>, k: nat, j: int)
    requires k < |w| && j in w && j < w[k]
    requires forall a, b :: 0 <= a < b < |w| ==> w[a] < w[b]
    ensures j in w[..k]
  {
    var b :| 0 <= b < |w| && w[b] == j;
    assert w[..k][b] == j;
  }

  /** The candidates of a request are served in order. */
  lemma PickInOrder(rec: Recording, st: ProxyState, request: Bytes, hostFilter: Bytes, k: nat)
    requires rec.Valid()
    requires
      var w := Candidates(rec, st.cursor, request, hostFilter);
      forall j :: st.cursor <= j ==> (j in st.consumed <==> j in Take(w, k))
    ensures
      var w := Candidates(rec, st.cursor, request, hostFilter);
      Pick(rec, st, request, hostFilter) == if k < |w| then Some(w[k]) else None
  {
    var key := rec.parser.key(request);
    var host := rec.parser.host(request);
    if !HostRejected(rec.parser, hostFilter, host) {
      if key == "" {
        NextInOrder(rec, st.consumed, st.cursor, k);
      } else {
        var i := FirstRequest(rec, st.cursor, key, host);
        if i.Some? {
          NextInOrder(rec, st.consumed, i.value + 1, k);
        }
      }
    }
  }

  /** The proxy's state just before the same request is made for the `k`-th time. */
  function Repeated(rec: Recording, st: ProxyState, sample: Option<int>, request: Bytes, hostFilter: Bytes, k: nat)
      : ProxyState
    requires rec.Valid()
  {
    if k == 0 then Sampled(rec, st, sample)
    else
      var before := Repeated(rec, st, sample, request, hostFilter, k - 1);
      Sampled(rec, Served(before, Pick(rec, before, request, hostFilter)), sample)
  }

  /** The cursor is at `c`, and of what was recorded from there on just the first `k` of `w` are consumed. */
  ghost predicate FirstConsumed(st: ProxyState, c: int, w: seq<int>, k: nat) {
    st.cursor == c && forall j :: c <= j ==> (j in st.consumed <==> j in Take(w, k))
  }

  lemma ServedInOrder(st: ProxyState, c: int, w: seq<int>, k: nat)
    requires FirstConsumed(st, c, w, k)
    ensures FirstConsumed(Served(st, if k < |w| then Some(w[k]) else None), c, w, k + 1)
  {
    if k < |w| {
      assert w[..k + 1] == Take(w, k + 1);
      assert Take(w, k + 1) == Take(w, k) + [w[k]];
    }
  }

  lemma RepeatedStep(
      rec: Recording, before: ProxyState, sample: Option<int>, request: Bytes, hostFilter: Bytes, k: nat)
    requires rec.Valid() && (sample.Some? ==> sample.value == before.cursor)
    requires FirstConsumed(before, before.cursor, Candidates(rec, before.cursor, request, hostFilter), k)
    ensures
      var after := Sampled(rec, Served(before, Pick(rec, before, request, hostFilter)), sample);
      FirstConsumed(after, before.cursor, Candidates(rec, before.cursor, request, hostFilter), k + 1)
  {
    PickInOrder(rec, before, request, hostFilter, k);
    ServedInOrder(before, before.cursor, Candidates(rec, before.cursor, request, hostFilter), k);
  }

  lemma {:induction false} RepeatedState(
      rec: Recording, st: ProxyState, sample: Option<int>, request: Bytes, hostFilter: Bytes, k: nat)
    requires rec.Valid()
    requires FirstConsumed(Sampled(rec, st, sample), Sampled(rec, st, sample).cursor, [], 0)
    ensures
      var c := Sampled(rec, st, sample).cursor;
      FirstConsumed(Repeated(rec, st, sample, request, hostFilter, k), c, Candidates(rec, c, request, hostFilter), k)
  {
    if k == 0 {
    } else {
      RepeatedState(rec, st, sample, request, hostFilter, k - 1);
      RepeatedStep(rec, Repeated(rec, st, sample, request, hostFilter, k - 1), sample, request, hostFilter, k - 1);
    }
  }

  /**
    The same request made again and again, from a cursor from which on nothing is
    consumed, is given its candidates one by one in recorded order, and then nothing.
   */
  lemma IdenticalRequests(
      rec: Recording, st: ProxyState, sample: Option<int>, request: Bytes, hostFilter: Bytes, k: nat)
    requires rec.Valid()
    requires FirstConsumed(Sampled(rec, st, sample), Sampled(rec, st, sample).cursor, [], 0)
    ensures
      var w := Candidates(rec, Sampled(rec, st, sample).cursor, request, hostFilter);
      var now := Repeated(rec, st, sample, request, hostFilter, k);
      Pick(rec, now, request, hostFilter) == if k < |w| then Some(w[k]) else None
  {
    RepeatedState(rec, st, sample, request, hostFilter, k);
    PickInOrder(rec, Repeated(rec, st, sample, request, hostFilter, k), request, hostFilter, k);
  }
}
