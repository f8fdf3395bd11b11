/** The collector's handling of one incoming event. */
module Ingest {
  import opened ByteStrings
  import opened IOEvents
  import opened Options
  import opened RollingBuffers
  import opened VectorClock
  import Triggers
  import VectorGraph

  /** The clock reading a read event's payload carries. */
  function Header(e: IOEvent): Option<(Bytes, uint64)>
    requires e.isWrite == READ ==> e.WellFormed()
  {
    if e.isWrite != READ then None else Extract(e.View())
  }

  /** The merge that the event's header, if it has one, adds to the graph's history. */
  function Merges(e: IOEvent, node: Bytes): seq<VectorGraph.Op>
    requires e.isWrite == READ ==> e.WellFormed()
  {
    match Header(e)
    case None => []
    case Some((remote, s)) => [VectorGraph.Merge(remote, s, node)]
  }

  /** All that one event adds to the graph's history. */
  function Additions(e: IOEvent, node: Bytes): seq<VectorGraph.Op>
    requires e.isWrite == READ ==> e.WellFormed()
  {
    Merges(e, node) + [VectorGraph.Observe(node, e.timestampNs)]
  }

  class Service {
    const buf: RollingBuffer
    const triggers: Triggers.Engine
    const vector: VectorGraph.Engine

    constructor (buf: RollingBuffer, triggers: Triggers.Engine, vector: VectorGraph.Engine)
      ensures this.buf == buf && this.triggers == triggers && this.vector == vector
    {
      this.buf := buf;
      this.triggers := triggers;
      this.vector := vector;
    }

    ghost predicate Valid()
      reads buf, triggers, vector
    {
      buf.Valid() && triggers.Valid() && vector.Valid()
    }

    method IngestEvent(e: IOEvent, node: Bytes, now: int, checkedAt: int, firedAt: int)
      requires Valid() && (e.isWrite == READ ==> e.WellFormed())
      requires buf.history != [] ==> buf.history[|buf.history| - 1].at <= now
      requires checkedAt <= firedAt && (triggers.lastFire.Some? ==> triggers.lastFire.value <= checkedAt)
      modifies buf, triggers`lastFire, triggers`fired, vector
      ensures Valid()
      ensures buf.history == old(buf.history) + [Captured(e, node, now)]
      ensures vector.history == old(vector.history) + Additions(e, node)
      ensures
        var verdict := Triggers.Verdict(triggers.rules5xx, triggers.rules4xx, triggers.trigger4xx, e);
        triggers.fired == old(triggers.fired)
          + Triggers.Snapshots(triggers.hasCallback, old(triggers.lastFire), verdict, checkedAt, firedAt)
    {
      ParseVectorHeader(e, node);
      buf.Add(e, node, now);
      vector.Observe(node, e.timestampNs);
      assert vector.history == old(vector.history) + Additions(e, node);
      triggers.Evaluate(e, checkedAt, firedAt);
    }

    method ParseVectorHeader(e: IOEvent, local: Bytes)
      requires vector.Valid() && (e.isWrite == READ ==> e.WellFormed())
      modifies vector
      ensures vector.Valid()
      ensures vector.history == old(vector.history) + Merges(e, local)
    {
      if e.isWrite != READ {
        return;
      }
      var payload := e.payload[..e.payloadLen];
      var idx := Index(payload, HEADER_START);
      if idx.None? {
        return;
      }
      var rest := payload[idx.value + |HEADER_START|..];
      var end := Index(rest, CRLF);
      if end.None? {
        return;
      }
      var parsed := ParseHeaderValue(rest[..end.value]);
      if parsed.Some? {
        vector.MergeRemote(parsed.value.0, parsed.value.1, local);
      }
    }
  }

  /**
    The header is merged before its event is observed, so after an event that carries
    a clock reading has been ingested the graph's last edge leads from that reading to
    the event, which is the graph's last node.
   */
  lemma IngestLeavesReceiveEdge(
      ops: seq<VectorGraph.Op>, e: IOEvent, node: Bytes,
      seqs: map<Bytes, uint64>, nodes: seq<VectorGraph.Node>, edges: seq<VectorGraph.Edge>)
    requires (e.isWrite == READ ==> e.WellFormed()) && Header(e).Some?
    requires VectorGraph.Tracks(ops + Additions(e, node), seqs, nodes, edges)
    ensures nodes != [] && nodes[|nodes| - 1].nodeId == node && nodes[|nodes| - 1].timestamp == e.timestampNs
    ensures edges != []
    ensures edges[|edges| - 1]
      == VectorGraph.Edge(ClockId(Header(e).value.0, Header(e).value.1), nodes[|nodes| - 1].id)
  {
    var (remote, s) := Header(e).value;
    var added := [VectorGraph.Merge(remote, s, node), VectorGraph.Observe(node, e.timestampNs)];
    assert Additions(e, node) == added;
    VectorGraph.ReceiveEdgeTracked(ops, remote, s, node, e.timestampNs, seqs, nodes, edges);
  }
}

/** Taking a snapshot: copy the window, scrub the copy, encode it, derive its clock timeline. */
module Snapshots {
  import opened ByteStrings
  import opened EventCodec
  import opened FirstSeen
  import opened Incidents
  import opened IOEvents
  import opened Options
  import opened Redact
  import opened ReplayConfig
  import opened RollingBuffers
  import opened TimeFreeze
  import opened Transport
  import VectorGraph

  /** The event with its captured bytes scrubbed; what lies beyond them stays. */
  function ScrubEvent(e: IOEvent): IOEvent
    requires e.WellFormed()
  {
    var scrubbed := Scrubbed(e.View());
    e.(payloadLen := |scrubbed|, payload := Overwrite(e.payload, scrubbed))
  }

  predicate AllCapturedWellFormed(events: seq<Captured>) {
    forall k :: 0 <= k < |events| ==> events[k].event.WellFormed()
  }

  function Natives(events: seq<Captured>): seq<IOEvent> {
    seq(|events|, i requires 0 <= i < |events| => events[i].event)
  }

  /** The first `n` events scrubbed. */
  function ScrubAll(events: seq<Captured>, n: nat): (r: seq<Captured>)
    requires n <= |events| && AllCapturedWellFormed(events)
    ensures |r| == n
  {
    if n == 0 then []
    else ScrubAll(events, n - 1) + [events[n - 1].(event := ScrubEvent(events[n - 1].event))]
  }

  lemma {:induction false} ScrubAllAt(events: seq<Captured>, n: nat, i: nat)
    requires i < n <= |events| && AllCapturedWellFormed(events)
    ensures ScrubAll(events, n)[i] == events[i].(event := ScrubEvent(events[i].event))
  {
    if i < n - 1 {
      ScrubAllAt(events, n - 1, i);
    }
  }

  /** The log of each event. */
  function LogsOf(events: seq<Captured>): (logs: seq<seq<Entry>>)
    requires AllCapturedWellFormed(events)
    ensures |logs| == |events| && forall i :: 0 <= i < |events| ==> logs[i] == ScrubLog(events[i].event.View())
  {
    seq(|events|, i requires 0 <= i < |events| => ScrubLog(events[i].event.View()))
  }

  /** The first `n` logs, one after the other. */
  function Joined(logs: seq<seq<Entry>>, n: nat): seq<Entry>
    requires n <= |logs|
  {
    if n == 0 then [] else Joined(logs, n - 1) + logs[n - 1]
  }

  function ScrubLogs(events: seq<Captured>, n: nat): seq<Entry>
    requires n <= |events| && AllCapturedWellFormed(events)
  {
    Joined(LogsOf(events), n)
  }

  lemma {:induction false} JoinedInOrder(logs: seq<seq<Entry>>, i: nat, n: nat)
    requires i < n <= |logs|
    ensures Joined(logs, i) + logs[i] <= Joined(logs, n)
    decreases n
  {
    if i < n - 1 {
      JoinedInOrder(logs, i, n - 1);
    }
  }

  lemma {:induction false} JoinedComplete(logs: seq<seq<Entry>>, n: nat, entry: Entry)
    requires n <= |logs|
    ensures entry in Joined(logs, n) <==> exists i :: 0 <= i < n && entry in logs[i]
  {
    if n == 0 {
    } else {
      JoinedComplete(logs, n - 1, entry);
    }
  }

  /**
    The log of a snapshot: that of each event stands, all of it, behind those of the
    events before it, and nothing else is logged.
   */
  lemma LogsInOrder(events: seq<Captured>, i: nat, entry: Entry)
    requires i < |events| && AllCapturedWellFormed(events)
    ensures ScrubLogs(events, i) + ScrubLog(events[i].event.View()) <= ScrubLogs(events, |events|)
    ensures entry in ScrubLogs(events, |events|)
      <==> exists j :: 0 <= j < |events| && entry in LogsOf(events)[j]
  {
    JoinedInOrder(LogsOf(events), i, |events|);
    JoinedComplete(LogsOf(events), |events|, entry);
  }

  /** What a snapshot stores. */
  datatype Snapshot = Snapshot(
    eventCount: nat,
    nodes: seq<Bytes>,
    incident: Option<Incident>,
    eventsBin: Bytes,
    graphNodes: seq<VectorGraph.Node>,
    graphEdges: seq<VectorGraph.Edge>,
    log: seq<Entry>,
    timeline: seq<ClockEntry>)

  /** Scrubs one event of the copy in place. */
  method ScrubAt(events: array<Captured>, i: nat) returns (log: seq<Entry>)
    requires i < events.Length && events[i].event.WellFormed()
    modifies events
    ensures events[..] == old(events[..])[i := old(events[i]).(event := ScrubEvent(old(events[i].event)))]
    ensures log == ScrubLog(old(events[i].event).View())
  {
    var e := events[i].event;
    var scrubbed, entries := Scrub(e.payload[..e.payloadLen]);
    e := e.(payloadLen := scrubbed.Length);
    e := e.(payload := Overwrite(e.payload, scrubbed[..]));
    events[i] := events[i].(event := e);
    log := entries;
  }

  lemma ScrubOneMore(events: seq<Captured>, i: nat)
    requires i < |events| && AllCapturedWellFormed(events)
    ensures (ScrubAll(events, i) + events[i..])[i] == events[i]
    ensures (ScrubAll(events, i) + events[i..])[i := events[i].(event := ScrubEvent(events[i].event))]
      == ScrubAll(events, i + 1) + events[i + 1..]
  {}

  /** Scrubs every event of the copy in place. */
  method ScrubEvents(events: array<Captured>) returns (log: seq<Entry>)
    requires AllCapturedWellFormed(events[..])
    modifies events
    ensures events[..] == ScrubAll(old(events[..]), events.Length)
    ensures log == ScrubLogs(old(events[..]), events.Length)
  {
    log := [];
    ghost var was := events[..];
    for i := 0 to events.Length
      invariant events[..] == ScrubAll(was, i) + was[i..]
      invariant log == ScrubLogs(was, i)
    {
      ScrubOneMore(was, i);
      assert events[..][i] == was[i];
      var entries := ScrubAt(events, i);
      log := log + entries;
    }
  }

  /** The node of each event, if it has one. */
  function NodeNames(events: seq<Captured>): seq<Option<Bytes>> {
    seq(|events|, i requires 0 <= i < |events| => if events[i].nodeId == "" then None else Some(events[i].nodeId))
  }

  /** Each node that occurs is collected, once. */
  lemma {:induction false} NodesAreNames(events: seq<Captured>)
    ensures
      var nodes := Firsts(NodeNames(events), |events|);
      && (forall a, b :: 0 <= a < b < |nodes| ==> nodes[a] != nodes[b])
      && forall node :: node in nodes <==> node != "" && exists i :: 0 <= i < |events| && events[i].nodeId == node
  {
    var found := NodeNames(events);
    FirstsDistinct(found, |events|);
    assert found[..|events|] == found;
    forall node
      ensures node in Firsts(found, |events|)
        <==> node != "" && exists i :: 0 <= i < |events| && events[i].nodeId == node
    {
      FirstsComplete(found, |events|, node);
      if i :| 0 <= i < |events| && events[i].nodeId == node && node != "" {
        assert found[i] == Some(node);
      }
    }
  }

  /** The nodes of a snapshot's events, each once. */
  method UniqueNodes(events: seq<Captured>) returns (nodes: seq<Bytes>)
    ensures nodes == Firsts(NodeNames(events), |events|)
    ensures forall a, b :: 0 <= a < b < |nodes| ==> nodes[a] != nodes[b]
    ensures forall node :: node in nodes <==> node != "" && exists i :: 0 <= i < |events| && events[i].nodeId == node
  {
    var seen: set<Bytes> := {};
    nodes := [];
    for i := 0 to |events|
      invariant nodes == Firsts(NodeNames(events), i)
      invariant forall node :: node in seen <==> node in nodes
    {
      var node := events[i].nodeId;
      if node == "" || node in seen {
        continue;
      }
      seen := seen + {node};
      nodes := nodes + [node];
    }
    NodesAreNames(events);
  }

  lemma {:induction false} ScrubKeepsNames(events: seq<Captured>)
    requires AllCapturedWellFormed(events)
    ensures NodeNames(ScrubAll(events, |events|)) == NodeNames(events)
  {
    forall k | 0 <= k < |events|
      ensures ScrubAll(events, |events|)[k].nodeId == events[k].nodeId
    {
      ScrubAllAt(events, |events|, k);
    }
  }

  /** The incident, if there is a builder for it. */
  method BuildIfAsked(builder: Option<Numbers>, events: seq<Captured>) returns (incident: Option<Incident>)
    requires AllCapturedWellFormed(events)
    ensures incident == if builder.None? then None else IncidentOf(builder.value, Natives(events))
  {
    incident := None;
    if builder.Some? {
      incident := BuildIncident(builder.value, Natives(events));
    }
  }

  /** The incident is built from the window as it was captured, before it is scrubbed. */
  method CaptureSnapshot(buf: RollingBuffer, vector: VectorGraph.Engine, builder: Option<Numbers>)
      returns (snap: Snapshot)
    requires buf.Valid() && AllCapturedWellFormed(buf.events)
    ensures snap.incident == if builder.None? then None else IncidentOf(builder.value, Natives(buf.events))
    ensures snap.graphNodes == vector.nodes && snap.graphEdges == vector.edges
    ensures
      var scrubbed := ScrubAll(buf.events, |buf.events|);
      && snap.eventCount == |buf.events|
      && snap.nodes == Firsts(NodeNames(buf.events), |buf.events|)
      && snap.eventsBin == EncodeAll(Natives(scrubbed))
      && snap.log == ScrubLogs(buf.events, |buf.events|)
      && snap.timeline == Timeline(Natives(scrubbed))
  {
    var events := buf.Snapshot();
    var incident := BuildIfAsked(builder, events[..]);
    var graphNodes, graphEdges := vector.nodes, vector.edges;
    var log := ScrubEvents(events);
    ScrubKeepsNames(buf.events);
    var captured := events[..];
    var nodes := UniqueNodes(captured);
    var natives := Natives(captured);
    var bin := EncodeEvents(natives);
    var timeline := BuildClockTimeline(natives);
    snap := Snapshot(|natives|, nodes, incident, bin, graphNodes, graphEdges, log, timeline);
  }

  // ---------- what a reader of the snapshot gets ----------

  /** A scrubbed event differs from the captured one in its captured bytes only, and in those no rule matches. */
  lemma ScrubbedEvent(e: IOEvent)
    requires e.WellFormed()
    ensures
      var s := ScrubEvent(e);
      && s.WellFormed() && s == e.(payload := s.payload)
      && s.View() == Scrubbed(e.View())
      && s.payload[s.payloadLen..] == e.payload[e.payloadLen..]
      && forall r :: r in RULES ==> Clean(r, s.View())
  {
    forall r | r in RULES
      ensures Clean(r, Scrubbed(e.View()))
    {
      NothingMatchableSurvives(e.View(), r);
    }
  }

  lemma {:induction false} SameEntries(a: seq<IOEvent>, b: seq<IOEvent>, keep: uint8 -> bool, n: nat)
    requires n <= |a| == |b|
    requires forall k :: 0 <= k < |a| ==> a[k].isWrite == b[k].isWrite && a[k].timestampNs == b[k].timestampNs
    ensures Entries(a, keep, n) == Entries(b, keep, n)
  {
    if n == 0 {
    } else {
      SameEntries(a, b, keep, n - 1);
    }
  }

  /**
    A snapshot of captured events decodes to as many events as it says; each is the
    captured one with its captured bytes scrubbed, safe to slice and clean of every
    rule; and the timeline is that of the events themselves.
   */
  lemma {:induction false} SnapshotDecodes(events: seq<Captured>)
    requires AllCapturedWellFormed(events)
    ensures
      var decoded := DecodeAll(EncodeAll(Natives(ScrubAll(events, |events|))));
      && decoded.Some? && |decoded.value| == |events|
      && AllWellFormed(decoded.value)
      && (forall i :: 0 <= i < |events| ==> decoded.value[i] == ScrubEvent(events[i].event))
      && (forall i, r :: 0 <= i < |events| && r in RULES ==> Clean(r, decoded.value[i].View()))
      && Timeline(decoded.value) == Timeline(Natives(events))
  {
    var natives := Natives(ScrubAll(events, |events|));
    StreamRoundTrip(natives);
    forall i | 0 <= i < |events|
      ensures natives[i].WellFormed() && natives[i] == ScrubEvent(events[i].event)
      ensures natives[i].isWrite == Natives(events)[i].isWrite
      ensures natives[i].timestampNs == Natives(events)[i].timestampNs
      ensures forall r :: r in RULES ==> Clean(r, natives[i].View())
    {
      ScrubAllAt(events, |events|, i);
      ScrubbedEvent(events[i].event);
    }
    SameEntries(natives, Natives(events), CLOCK_MARKERS, |events|);
    SameEntries(natives, Natives(events), NOT_MARKERS, |events|);
  }
}
