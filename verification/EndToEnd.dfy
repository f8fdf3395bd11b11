/** What holds from the capture of events to their replay. */
module EndToEnd {
  import opened ByteStrings
  import opened EventCodec
  import opened Ingest
  import opened IOEvents
  import opened Redact
  import opened ReplayProxy
  import opened RollingBuffers
  import opened Snapshots
  import opened Transport
  import opened VectorClock
  import VectorGraph

  /**
    The bytes of an injected message would make an edge of the graph: if a read event
    that carries them, as sent to the collector, is ingested, the last edge leads from
    the sender's reading to the event read.
   */
  lemma ReadingBecomesEdge(
      sent: IOEvent, sender: Bytes, s: uint64, got: IOEvent, receiver: Bytes, ops: seq<VectorGraph.Op>,
      seqs: map<Bytes, uint64>, nodes: seq<VectorGraph.Node>, edges: seq<VectorGraph.Edge>)
    requires sent.WellFormed() && Carries(sent) && LooksLikeHTTP(sent.View()) && Contains(sent.View(), CRLF)
    requires !Contains(Before(sent.View(), CRLF), HEADER_START) && !Contains(sender, CRLF)
    requires |Before(sent.View(), CRLF)| + 2 + |HeaderLine(sender, s)| <= MAX_PAYLOAD_LEN
    requires |Expected(sent, sender, s)| < 0x1_0000_0000
    requires got.isWrite == READ && got.WellFormed() && got.View() == Received(sent, sender, s).View()
    requires VectorGraph.Tracks(ops + Additions(got, receiver), seqs, nodes, edges)
    ensures nodes != [] && edges != []
    ensures nodes[|nodes| - 1].nodeId == receiver
    ensures edges[|edges| - 1] == VectorGraph.Edge(ClockId(sender, s), nodes[|nodes| - 1].id)
  {
    ClockCrossesWire(sent, sender, s);
    IngestLeavesReceiveEdge(ops, got, receiver, seqs, nodes, edges);
  }

  /**
    But what is injected into is the collector's copy of a write, and the collector
    looks for headers in reads.  So for every event, whatever is injected into it, what
    it adds to the graph is what it adds without.
   */
  lemma {:induction false} InjectionAddsNothing(e: IOEvent, node: Bytes, s: nat, at: Bytes)
    requires e.WellFormed()
    ensures Additions(Received(e, node, s), at) == Additions(e, at)
  {
    var got := Received(e, node, s);
    ConvertedIsCut(InjectedEvent(e, node, s), node);
    if e.isWrite == READ {
      assert got.View() == e.View();
    }
  }

  /** The events of one agent as the collector receives them, event `i` injected with number `numbers[i]`. */
  function AllReceived(events: seq<IOEvent>, node: Bytes, numbers: seq<nat>): (got: seq<IOEvent>)
    requires AllWellFormed(events) && |numbers| == |events|
    ensures |got| == |events| && forall i :: 0 <= i < |events| ==> got[i] == Received(events[i], node, numbers[i])
    ensures AllWellFormed(got)
  {
    seq(|events|, i requires 0 <= i < |events| => Received(events[i], node, numbers[i]))
  }

  /** What each of one node's events adds to the graph's history. */
  function EachAdds(events: seq<IOEvent>, at: Bytes): (added: seq<seq<VectorGraph.Op>>)
    requires AllWellFormed(events)
    ensures |added| == |events| && forall i :: 0 <= i < |events| ==> added[i] == Additions(events[i], at)
  {
    seq(|events|, i requires 0 <= i < |events| => Additions(events[i], at))
  }

  function Joined(added: seq<seq<VectorGraph.Op>>): seq<VectorGraph.Op> {
    if added == [] then [] else Joined(added[..|added| - 1]) + added[|added| - 1]
  }

  /** The graph's history, and so the graph, is the same for any capture with injection and without. */
  lemma InjectionLeavesGraph(events: seq<IOEvent>, node: Bytes, numbers: seq<nat>, at: Bytes)
    requires AllWellFormed(events) && |numbers| == |events|
    ensures Joined(EachAdds(AllReceived(events, node, numbers), at)) == Joined(EachAdds(events, at))
  {
    var got := AllReceived(events, node, numbers);
    var with, without := EachAdds(got, at), EachAdds(events, at);
    forall i | 0 <= i < |events|
      ensures with[i] == without[i]
    {
      InjectionAddsNothing(events[i], node, numbers[i], at);
    }
    assert with == without;
  }

  /** A cut of events that can be sliced has only such events, so every window a snapshot is taken of has. */
  lemma {:induction false} CutStaysWellFormed(history: seq<Captured>, cutoff: int)
    requires AllCapturedWellFormed(history)
    ensures AllCapturedWellFormed(LaterThan(history, cutoff))
  {
    if history == [] {
    } else {
      CutStaysWellFormed(history[..|history| - 1], cutoff);
    }
  }

  /** The recording that replay loads from a snapshot of captured events. */
  function Loaded(events: seq<Captured>, parser: Parser): (rec: Recording)
    requires AllCapturedWellFormed(events)
    ensures rec.Valid() && |rec.events| == |events|
  {
    SnapshotDecodes(events);
    Recording(DecodeAll(EncodeAll(Natives(ScrubAll(events, |events|)))).value, parser)
  }

  /** A snapshot always loads into a recording that replay can slice safely, event for event. */
  lemma LoadedIsValid(events: seq<Captured>, parser: Parser)
    requires AllCapturedWellFormed(events)
    ensures
      var rec := Loaded(events, parser);
      && rec.Valid() && |rec.events| == |events|
      && forall j :: 0 <= j < |events| ==> (rec.Response(j) <==> events[j].event.IsResponse())
  {
    SnapshotDecodes(events);
    forall j | 0 <= j < |events|
      ensures Loaded(events, parser).Response(j) <==> events[j].event.IsResponse()
    {
      ScrubbedEvent(events[j].event);
    }
  }

  /**
    Whatever is requested, in whatever order and with whatever moves of the cursor, a
    replayed response is a captured response scrubbed: no rule matches anywhere in it.
   */
  lemma ReplayedResponsesAreScrubbed(events: seq<Captured>, parser: Parser, run: seq<Action>, t: nat)
    requires AllCapturedWellFormed(events) && t < |run|
    requires ServedAt(Loaded(events, parser), FRESH, run, t).Some?
    ensures
      var rec := Loaded(events, parser);
      var j := ServedAt(rec, FRESH, run, t).value;
      && 0 <= j < |events| && events[j].event.IsResponse()
      && rec.events[j].View() == Scrubbed(events[j].event.View())
      && forall r :: r in RULES ==> Clean(r, rec.events[j].View())
  {
    var rec := Loaded(events, parser);
    LoadedIsValid(events, parser);
    ServedIsEligible(rec, FRESH, run, t);
    var j := ServedAt(rec, FRESH, run, t).value;
    assert rec.Response(j);
    SnapshotDecodes(events);
    ScrubbedEvent(events[j].event);
  }
}
