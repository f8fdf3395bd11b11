/** The replay proxy proper: the server object whose methods drive module ReplayProxy's state machine. */
module MultiServers {
  import opened ByteStrings
  import opened Options
  import opened ReplayProxy

  class MultiServer {
    const rec: Recording
    var cursor: int
    var consumed: set<int>

    constructor (rec: Recording)
      requires rec.Valid()
      ensures Valid() && this.rec == rec && State() == FRESH
    {
      this.rec := rec;
      cursor := 0;
      consumed := {};
    }

    function State(): ProxyState
      reads this
    {
      ProxyState(cursor, consumed)
    }

    ghost predicate Valid()
      reads this
    {
      rec.Valid() && Inv(rec, State())
    }

    method SetCursor(index: int)
      requires Valid()
      modifies this
      ensures Valid() && State() == Moved(rec, old(State()), index)
    {
      if index < cursor {
        var i := index;
        while i < |rec.events|
          invariant index <= i
          invariant consumed == set j | j in old(consumed) && !(index <= j < i && j < |rec.events|)
          invariant cursor == old(cursor)
        {
          consumed := consumed - {i};
          i := i + 1;
        }
      }
      cursor := index;
    }

    /**
      One request, made while the session's cursor reads `sample` (none if the proxy
      runs without a session).  A cursor below the first event is the caller's error.
     */
    method MatchResponse(sample: Option<int>, request: Bytes, hostFilter: Bytes) returns (resp: Option<Bytes>)
      requires Valid()
      requires 0 <= Sampled(rec, State(), sample).cursor
      modifies this
      ensures Valid()
      ensures
        var from := Sampled(rec, old(State()), sample);
        var pick := Pick(rec, from, request, hostFilter);
        && State() == Served(from, pick)
        && resp == if pick.None? then None else Some(rec.events[pick.value].View())
    {
      if sample.Some? {
        SetCursor(sample.value);
      }
      var reqKey := rec.parser.key(request);
      var reqHost := rec.parser.host(request);
      if HostRejected(rec.parser, hostFilter, reqHost) {
        return None;
      }
      var minIdx := cursor;
      if reqKey == "" {
        resp := FallbackFrom(minIdx);
        return;
      }
      ghost var first := FirstRequest(rec, minIdx, reqKey, reqHost);
      var i := minIdx;
      while i < |rec.events|
        invariant minIdx <= i
        invariant State() == Sampled(rec, old(State()), sample)
        invariant first.None? || i <= first.value || FirstUnserved(rec, consumed, first.value + 1).None?
      {
        if i !in consumed && rec.Answers(i, reqKey, reqHost) {
          var j := i + 1;
          while j < |rec.events|
            invariant i < j
            invariant State() == Sampled(rec, old(State()), sample)
            invariant forall k :: i < k < j && rec.Response(k) ==> k in consumed
          {
            if rec.events[j].IsResponse() && j !in consumed {
              consumed := consumed + {j};
              return Some(rec.events[j].View());
            }
            j := j + 1;
          }
        }
        i := i + 1;
      }
      resp := None;
    }

    /** The sequential answer to a request without a key. */
    method FallbackFrom(minIdx: int) returns (resp: Option<Bytes>)
      requires Valid() && 0 <= minIdx
      modifies this`consumed
      ensures Valid()
      ensures
        var pick := FirstUnserved(rec, old(consumed), minIdx);
        && State() == Served(old(State()), pick)
        && resp == if pick.None? then None else Some(rec.events[pick.value].View())
    {
      var i := minIdx;
      while i < |rec.events|
        invariant minIdx <= i
        invariant consumed == old(consumed)
        invariant forall k :: minIdx <= k < i && rec.Response(k) ==> k in consumed
      {
        if i !in consumed && rec.events[i].IsResponse() {
          consumed := consumed + {i};
          return Some(rec.events[i].View());
        }
        i := i + 1;
      }
      resp := None;
    }
  }
}
