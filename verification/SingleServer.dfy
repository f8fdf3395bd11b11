/**
  The single-listener proxy, which remembers one position instead of a set of
  consumed events, and its relation to the state machine of module ReplayProxy.
 */
module SingleServers {
  import opened ByteStrings
  import opened Options
  import opened ReplayProxy

  /** The event a server that stands at `next` answers a request with. */
  function SinglePick(rec: Recording, next: int, request: Bytes): Option<int>
    requires rec.Valid()
  {
    var key := rec.parser.key(request);
    if key == "" then FirstUnserved(rec, {}, next)
    else
      match FirstRequest(rec, 0, key, rec.parser.host(request))
      case None => None
      case Some(i) => FirstUnserved(rec, {}, i + 1)
  }

  /** Only requests without a key move the position. */
  function SingleNext(rec: Recording, next: int, request: Bytes): int
    requires rec.Valid()
  {
    var pick := SinglePick(rec, next, request);
    if rec.parser.key(request) == "" && pick.Some? then pick.value + 1 else next
  }

  class Server {
    const rec: Recording
    var next: int

    constructor (rec: Recording)
      requires rec.Valid()
      ensures Valid() && this.rec == rec && next == 0
    {
      this.rec := rec;
      next := 0;
    }

    ghost predicate Valid()
      reads this
    {
      rec.Valid() && 0 <= next
    }

    method MatchResponse(request: Bytes) returns (resp: Option<Bytes>)
      requires Valid()
      modifies this
      ensures Valid()
      ensures next == SingleNext(rec, old(next), request)
      ensures
        var pick := SinglePick(rec, old(next), request);
        resp == if pick.None? then None else Some(rec.events[pick.value].View())
    {
      var reqKey := rec.parser.key(request);
      if reqKey == "" {
        resp := FallbackSequential();
        return;
      }
      var reqHost := rec.parser.host(request);
      ghost var first := FirstRequest(rec, 0, reqKey, reqHost);
      for i := 0 to |rec.events|
        invariant next == old(next)
        invariant first.None? || i <= first.value || FirstUnserved(rec, {}, first.value + 1).None?
      {
        if rec.Answers(i, reqKey, reqHost) {
          for j := i + 1 to |rec.events|
            invariant forall k :: i < k < j ==> !rec.Response(k)
          {
            if rec.events[j].IsResponse() {
              assert rec.Response(j);
              return Some(rec.events[j].View());
            }
          }
        }
      }
      resp := None;
    }

    method FallbackSequential() returns (resp: Option<Bytes>)
      requires Valid()
      modifies this
      ensures Valid()
      ensures
        var pick := FirstUnserved(rec, {}, old(next));
        && next == (if pick.Some? then pick.value + 1 else old(next))
        && resp == if pick.None? then None else Some(rec.events[pick.value].View())
    {
      var i := next;
      while i < |rec.events|
        invariant next == old(next) <= i
        invariant forall k :: next <= k < i ==> !rec.Response(k)
      {
        if rec.events[i].IsResponse() {
          assert rec.Response(i);
          next := i + 1;
          return Some(rec.events[i].View());
        }
        i := i + 1;
      }
      resp := None;
    }
  }

  // ---------- relation to the consumed-set proxy ----------

  /** The position stands for the set of all responses before it. */
  ghost predicate Coupled(rec: Recording, next: int, st: ProxyState) {
    && st.cursor == 0 <= next
    && forall j :: j in st.consumed <==> rec.Response(j) && j < next
  }

  /** Requests without a key, with no host filter, while the cursor stays at the start. */
  ghost predicate Keyless(rec: Recording, a: Action) {
    match a
    case Move(index) => index == 0
    case Serve(request, hostFilter) => rec.parser.key(request) == "" && hostFilter == ""
  }

  /** The single server's position after the first `n` actions of a run; it has no cursor to move. */
  function SingleAfter(rec: Recording, run: seq<Action>, n: nat): int
    requires rec.Valid() && n <= |run|
  {
    if n == 0 then 0
    else
      var before := SingleAfter(rec, run, n - 1);
      if run[n - 1].Serve? then SingleNext(rec, before, run[n - 1].request) else before
  }

  lemma CoupledStep(rec: Recording, next: int, st: ProxyState, a: Action)
    requires rec.Valid() && Coupled(rec, next, st) && Keyless(rec, a)
    ensures a.Serve? ==> Output(rec, st, a) == SinglePick(rec, next, a.request)
    ensures Coupled(rec, if a.Serve? then SingleNext(rec, next, a.request) else next, Apply(rec, st, a))
  {
    var x, y := FirstUnserved(rec, st.consumed, 0), FirstUnserved(rec, {}, next);
    assert x.Some? ==> x.value !in st.consumed;
    assert y.Some? ==> y.value !in st.consumed;
  }

  lemma {:induction false} StaysCoupled(rec: Recording, run: seq<Action>, n: nat)
    requires rec.Valid() && n <= |run|
    requires forall t :: 0 <= t < n ==> Keyless(rec, run[t])
    ensures Coupled(rec, SingleAfter(rec, run, n), After(rec, FRESH, run, n))
  {
    if n == 0 {
    } else {
      StaysCoupled(rec, run, n - 1);
      CoupledStep(rec, SingleAfter(rec, run, n - 1), After(rec, FRESH, run, n - 1), run[n - 1]);
    }
  }

  /** On every run of keyless requests from the start the two proxies give the same responses. */
  lemma SingleRefinesMulti(rec: Recording, run: seq<Action>, t: nat)
    requires rec.Valid() && t < |run| && run[t].Serve?
    requires forall u :: 0 <= u <= t ==> Keyless(rec, run[u])
    ensures ServedAt(rec, FRESH, run, t) == SinglePick(rec, SingleAfter(rec, run, t), run[t].request)
  {
    StaysCoupled(rec, run, t);
    CoupledStep(rec, SingleAfter(rec, run, t), After(rec, FRESH, run, t), run[t]);
  }

  /**
    On a request with a key they agree exactly when the event the single server
    gives has not been consumed; so always on a fresh proxy, and in general not when
    the request is repeated.
   */
  lemma KeyedAgreement(rec: Recording, st: ProxyState, next: int, request: Bytes)
    requires rec.Valid() && st.cursor == 0 && rec.parser.key(request) != ""
    ensures
      var pick := SinglePick(rec, next, request);
      Pick(rec, st, request, "") == pick <==> (pick.None? || pick.value !in st.consumed)
  {}
}
