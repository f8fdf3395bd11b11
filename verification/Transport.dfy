/** An event's way from the agent to the collector: header injection and the wire message. */
module Transport {
  import opened ByteStrings
  import opened IOEvents
  import opened Options
  import opened VectorClock

  /** The protobuf message; its isWrite is wider than the event's and its byte fields have any length. */
  datatype Message = Message(
    pidTgid: uint64,
    timestampNs: uint64,
    fd: uint32,
    payloadLen: uint32,
    isWrite: uint32,
    comm: Bytes,
    payload: Bytes,
    nodeId: Bytes)

  function Zeros(n: nat): (s: Bytes)
    ensures |s| == n && forall k :: 0 <= k < n ==> s[k] == '\0'
  {
    seq(n, _ => '\0')
  }

  function ZeroEvent(): IOEvent {
    IOEvent(0, 0, 0, 0, 0, Zeros(COMM_LEN), Zeros(MAX_PAYLOAD_LEN))
  }

  function Min(a: nat, b: nat): nat {
    if a < b then a else b
  }

  /** `copy` into the payload array: as much as fits. */
  function Overwrite(p: Payload, s: Bytes): Payload {
    var n := Min(|s|, MAX_PAYLOAD_LEN);
    s[..n] + p[n..]
  }

  // ---------- conversion ----------

  function FromNative(e: IOEvent, nodeId: Bytes): Message {
    var pl := Min(e.payloadLen, MAX_PAYLOAD_LEN);
    Message(e.pidTgid, e.timestampNs, e.fd, pl, e.isWrite, e.comm, e.payload[..pl], nodeId)
  }

  /** The event a message stands for; none at all is the zero event. */
  function Native(m: Option<Message>): IOEvent {
    match m
    case None => ZeroEvent()
    case Some(m) =>
      var pl := Min(m.payloadLen, MAX_PAYLOAD_LEN);
      IOEvent(
        m.pidTgid, m.timestampNs, m.fd, pl, m.isWrite % 0x100,
        if |m.comm| >= COMM_LEN then m.comm[..COMM_LEN] else ZeroEvent().comm,
        Overwrite(ZeroEvent().payload, m.payload[..Min(pl, |m.payload|)]))
  }

  method ToNative(m: Option<Message>) returns (e: IOEvent)
    ensures e == Native(m)
  {
    e := ZeroEvent();
    if m.None? {
      return;
    }
    var msg := m.value;
    e := e.(pidTgid := msg.pidTgid, timestampNs := msg.timestampNs, fd := msg.fd, payloadLen := msg.payloadLen);
    if e.payloadLen > MAX_PAYLOAD_LEN {
      e := e.(payloadLen := MAX_PAYLOAD_LEN);
    }
    e := e.(isWrite := msg.isWrite % 0x100);
    if |msg.comm| >= COMM_LEN {
      e := e.(comm := msg.comm[..COMM_LEN]);
    }
    var n: nat := e.payloadLen;
    if n > |msg.payload| {
      n := |msg.payload|;
    }
    assert Overwrite(ZeroEvent().payload, []) == ZeroEvent().payload;
    if n > 0 {
      e := e.(payload := Overwrite(e.payload, msg.payload[..n]));
    }
  }

  /**
    Whatever message arrives, the event it becomes can be sliced to its length, and is
    zero beyond its message's bytes.
   */
  lemma NativeIsWellFormed(m: Option<Message>)
    ensures Native(m).WellFormed() && Native(m).payloadLen <= 2048
    ensures m.Some? ==>
      forall k :: 0 <= k < MAX_PAYLOAD_LEN ==>
        Native(m).payload[k] ==
          if k < m.value.payloadLen && k < |m.value.payload| then m.value.payload[k] else '\0'
  {}

  /** An event posted to the collector directly. */
  datatype Posted = Posted(timestampNs: uint64, fd: uint32, isWrite: uint8, comm: Bytes, payload: Bytes)

  method FromPosted(item: Posted, now: uint64) returns (e: IOEvent)
    ensures e.WellFormed() && e.View() == Truncated(item.payload)
    ensures forall k :: e.payloadLen <= k < MAX_PAYLOAD_LEN ==> e.payload[k] == '\0'
    ensures forall k :: 0 <= k < COMM_LEN ==> e.comm[k] == if k < |item.comm| then item.comm[k] else '\0'
    ensures e.timestampNs == (if item.timestampNs == 0 then now else item.timestampNs)
    ensures e.fd == item.fd && e.isWrite == item.isWrite && e.pidTgid == 0
  {
    e := ZeroEvent().(timestampNs := item.timestampNs);
    if e.timestampNs == 0 {
      e := e.(timestampNs := now);
    }
    e := e.(fd := item.fd, isWrite := item.isWrite);
    var payload := item.payload;
    if |payload| > MAX_PAYLOAD_LEN {
      payload := payload[..MAX_PAYLOAD_LEN];
    }
    e := e.(payloadLen := |payload|, payload := Overwrite(e.payload, payload));
    var n := Min(|item.comm|, COMM_LEN);
    e := e.(comm := item.comm[..n] + e.comm[n..]);
  }

  // ---------- injection ----------

  /** The bytes an outgoing event carries after injection. */
  function Updated(view: Bytes, node: Bytes, s: nat): Bytes {
    if LooksLikeHTTP(view) then Inject(view, node, s) else view
  }

  predicate Carries(e: IOEvent) {
    e.isWrite == WRITE && e.payloadLen != 0
  }

  /** The length is the injected one, even where the array holds only a part. */
  function InjectedEvent(e: IOEvent, node: Bytes, s: nat): IOEvent
    requires Carries(e) ==> e.WellFormed()
  {
    if !Carries(e) then e
    else
      var updated := Updated(e.View(), node, s);
      if |updated| == |e.View()| then e
      else e.(payloadLen := |updated| % 0x1_0000_0000, payload := Overwrite(e.payload, updated))
  }

  method InjectVector(e: IOEvent, node: Bytes, vec: Clock) returns (out: IOEvent)
    requires Carries(e) ==> e.WellFormed()
    modifies vec
    ensures out == InjectedEvent(e, node, At0(vec.seqs, node))
    ensures vec.seqs ==
      if Carries(e) && LooksLikeHTTP(e.View()) then Ticked(old(vec.seqs), node) else old(vec.seqs)
  {
    out := e;
    if e.isWrite != WRITE || e.payloadLen == 0 {
      return;
    }
    var pl := e.payload[..e.payloadLen];
    var updated := MaybeInjectHTTP(pl, node, vec);
    if |updated| == |pl| {
      return;
    }
    out := out.(payloadLen := |updated| % 0x1_0000_0000);
    out := out.(payload := Overwrite(out.payload, updated));
  }

  /**
    What is injected into: a write that has bytes, takes at least 12 of them and begins
    like HTTP gets the header line behind its first line; the same event as a read, or
    without bytes, or a message with another verb is sent as it is.
   */
  lemma InjectedIff(e: IOEvent, node: Bytes, s: nat, opening: Opening)
    requires e.WellFormed() && opening.Word() <= e.View() && Contains(e.View(), CRLF)
    ensures
      if e.isWrite == 1 && e.payloadLen >= 12 && opening in {GET, HEAD, POST, PUT, PATCH, RESPONSE}
      then Expected(e, node, s) == Inject(e.View(), node, s) != e.View()
      else Expected(e, node, s) == e.View()
  {
    TakenForHTTPIff(e.View(), opening);
    if e.isWrite == 1 && LooksLikeHTTP(e.View()) {
      assert |Inject(e.View(), node, s)| == |e.View()| + |HeaderLine(node, s)|;
    }
  }

  /** What the collector receives when the agent injects with number `s` and sends. */
  function Received(e: IOEvent, node: Bytes, s: nat): IOEvent
    requires e.WellFormed()
  {
    Native(Some(FromNative(InjectedEvent(e, node, s), node)))
  }

  /** The bytes the event should arrive with. */
  function Expected(e: IOEvent, node: Bytes, s: nat): Bytes
    requires e.WellFormed()
  {
    if Carries(e) then Updated(e.View(), node, s) else e.View()
  }

  /**
    Injecting, converting and receiving delivers the injected bytes cut to the array's
    size, zeros after them, and every other field as it was.
   */
  lemma ReceivedIsCut(e: IOEvent, node: Bytes, s: nat)
    requires e.WellFormed() && |Expected(e, node, s)| < 0x1_0000_0000
    ensures
      var r := Received(e, node, s);
      && r.WellFormed()
      && r.payloadLen == Min(MAX_PAYLOAD_LEN, |Expected(e, node, s)|)
      && r.View() == Truncated(Expected(e, node, s))
      && (forall k :: r.payloadLen <= k < MAX_PAYLOAD_LEN ==> r.payload[k] == '\0')
      && r == e.(payloadLen := r.payloadLen, payload := r.payload)
  {
    InjectedBytes(e, node, s);
    ConvertedIsCut(InjectedEvent(e, node, s), node);
  }

  /**
    Converting to a message and back keeps the bytes within both the claimed length
    and the array, and clears the rest.
   */
  lemma ConvertedIsCut(i: IOEvent, node: Bytes)
    ensures
      var r := Native(Some(FromNative(i, node)));
      var n := Min(MAX_PAYLOAD_LEN, i.payloadLen);
      && r == i.(payloadLen := n, payload := r.payload)
      && r.payload[..n] == i.payload[..n]
      && forall k :: n <= k < MAX_PAYLOAD_LEN ==> r.payload[k] == '\0'
  {
    assert i.comm[..COMM_LEN] == i.comm;
  }

  /** What the injected event's array holds, and how long it claims to be. */
  lemma InjectedBytes(e: IOEvent, node: Bytes, s: nat)
    requires e.WellFormed() && |Expected(e, node, s)| < 0x1_0000_0000
    ensures
      var i := InjectedEvent(e, node, s);
      var n := Min(MAX_PAYLOAD_LEN, |Expected(e, node, s)|);
      && i == e.(payloadLen := |Expected(e, node, s)|, payload := i.payload)
      && i.payload[..n] == Expected(e, node, s)[..n]
  {
    if Carries(e) && |Updated(e.View(), node, s)| == |e.View()| {
      SameLengthSame(e.View(), node, s);
    }
  }

  /** A message that injection leaves as long as it was is the message itself. */
  lemma SameLengthSame(view: Bytes, node: Bytes, s: nat)
    requires |Updated(view, node, s)| == |view|
    ensures Updated(view, node, s) == view
  {}

  /**
    A clock reading crosses the wire: a read event carrying the bytes of the received
    one is read back as (node, s) exactly when the node name has no line break and the
    header line fits.
   */
  lemma ClockCrossesWire(e: IOEvent, node: Bytes, s: uint64)
    requires e.WellFormed() && Carries(e) && LooksLikeHTTP(e.View()) && Contains(e.View(), CRLF)
    requires !Contains(Before(e.View(), CRLF), HEADER_START)
    requires |Expected(e, node, s)| < 0x1_0000_0000
    ensures Extract(Received(e, node, s).View()) == Some((node, s))
      <==> (!Contains(node, CRLF) && |Before(e.View(), CRLF)| + 2 + |HeaderLine(node, s)| <= MAX_PAYLOAD_LEN)
  {
    ReceivedIsCut(e, node, s);
    HeaderSurvives(e.View(), node, s);
  }
}
