/** The fixed-size record of an event, and the stream of records that a snapshot stores. */
module EventCodec {
  import opened ByteStrings
  import opened IOEvents
  import opened Options

  const RECORD_SIZE := 8 + 8 + 4 + 4 + 1 + COMM_LEN + MAX_PAYLOAD_LEN

  // ---------- little-endian numbers ----------

  function Pow256(k: nat): (p: nat)
    ensures p > 0
  {
    if k == 0 then 1 else 256 * Pow256(k - 1)
  }

  function ToLE(n: nat, k: nat): (s: Bytes)
    ensures |s| == k
  {
    if k == 0 then [] else [(n % 256) as char] + ToLE(n / 256, k - 1)
  }

  function FromLE(s: Bytes): nat {
    if s == [] then 0 else s[0] as int + 256 * FromLE(s[1..])
  }

  lemma {:induction false} FromToLE(n: nat, k: nat)
    requires n < Pow256(k)
    ensures FromLE(ToLE(n, k)) == n
  {
    if k == 0 {
    } else {
      FromToLE(n / 256, k - 1);
      assert ToLE(n, k)[1..] == ToLE(n / 256, k - 1);
    }
  }

  lemma {:induction false} ToFromLE(s: Bytes)
    ensures FromLE(s) < Pow256(|s|)
    ensures ToLE(FromLE(s), |s|) == s
  {
    if s == [] {
    } else {
      ToFromLE(s[1..]);
      var n := FromLE(s);
      assert n % 256 == s[0] as int && n / 256 == FromLE(s[1..]);
      assert s == [s[0]] + s[1..];
    }
  }

  lemma Widths()
    ensures Pow256(1) == 0x100
    ensures Pow256(4) == 0x1_0000_0000
    ensures Pow256(8) == 0x1_0000_0000_0000_0000
  {
    assert Pow256(2) == 0x1_0000 && Pow256(3) == 0x100_0000;
    assert Pow256(5) == 0x100_0000_0000 && Pow256(6) == 0x1_0000_0000_0000;
    assert Pow256(7) == 0x100_0000_0000_0000;
  }

  // ---------- one record ----------

  function Encoding(e: IOEvent): (b: Bytes)
    ensures |b| == RECORD_SIZE
  {
    ToLE(e.pidTgid, 8) + ToLE(e.timestampNs, 8) + ToLE(e.fd, 4) + ToLE(e.payloadLen, 4)
    + ToLE(e.isWrite, 1) + e.comm + e.payload
  }

  function Uint(b: Bytes, lo: nat, hi: nat): (n: nat)
    requires lo <= hi <= |b|
    ensures n < Pow256(hi - lo)
  {
    ToFromLE(b[lo..hi]);
    FromLE(b[lo..hi])
  }

  function Decoded(b: Bytes): IOEvent
    requires |b| == RECORD_SIZE
  {
    Widths();
    IOEvent(Uint(b, 0, 8), Uint(b, 8, 16), Uint(b, 16, 20), Uint(b, 20, 24), Uint(b, 24, 25), b[25..41], b[41..])
  }

  lemma Fields(p: Bytes, t: Bytes, f: Bytes, l: Bytes, w: Bytes, comm: Bytes, payload: Bytes)
    requires |p| == 8 && |t| == 8 && |f| == 4 && |l| == 4 && |w| == 1 && |comm| == 16
    ensures
      var b := p + t + f + l + w + comm + payload;
      && b[0..8] == p && b[8..16] == t && b[16..20] == f && b[20..24] == l && b[24..25] == w
      && b[25..41] == comm && b[41..] == payload
  {}

  lemma DecodeEncode(e: IOEvent)
    ensures Decoded(Encoding(e)) == e
  {
    Widths();
    FromToLE(e.pidTgid, 8);
    FromToLE(e.timestampNs, 8);
    FromToLE(e.fd, 4);
    FromToLE(e.payloadLen, 4);
    FromToLE(e.isWrite, 1);
    Fields(ToLE(e.pidTgid, 8), ToLE(e.timestampNs, 8), ToLE(e.fd, 4), ToLE(e.payloadLen, 4),
           ToLE(e.isWrite, 1), e.comm, e.payload);
  }

  lemma Parts(b: Bytes)
    requires |b| == RECORD_SIZE
    ensures b == b[0..8] + b[8..16] + b[16..20] + b[20..24] + b[24..25] + b[25..41] + b[41..]
  {}

  lemma EncodeDecode(b: Bytes)
    requires |b| == RECORD_SIZE
    ensures Encoding(Decoded(b)) == b
  {
    ToFromLE(b[0..8]);
    ToFromLE(b[8..16]);
    ToFromLE(b[16..20]);
    ToFromLE(b[20..24]);
    ToFromLE(b[24..25]);
    Parts(b);
  }

  /** Byte `i` of a number written in `k` bytes has the weight 256 to the `i`. */
  lemma {:induction false} LEByte(n: nat, k: nat, i: nat)
    requires i < k
    ensures ToLE(n, k)[i] as int == n / Pow256(i) % 256
  {
    if i > 0 {
      LEByte(n / 256, k - 1, i - 1);
      DivideTwice(n, Pow256(i - 1));
    }
  }

  lemma DivideTwice(n: nat, p: nat)
    requires p > 0
    ensures n / 256 / p == n / (256 * p)
  {
    var q, r := n / 256, n % 256;
    var a, b := q / p, q % p;
    assert n == 256 * (a * p + b) + r == a * (256 * p) + (256 * b + r);
    assert 256 * b + r < 256 * p;
    DivideBy(n, 256 * p, a, 256 * b + r);
  }

  lemma DivideBy(n: nat, d: nat, a: nat, r: nat)
    requires d > 0 && r < d && n == a * d + r
    ensures n / d == a
  {
    var q := n / d;
    assert n == q * d + n % d;
    assert q < a ==> (q + 1) * d <= a * d;
    assert a < q ==> (a + 1) * d <= q * d;
  }

  /** Where the record has which field: offsets and widths, numbers least significant byte first. */
  lemma RecordLayout(e: IOEvent)
    ensures
      var b := Encoding(e);
      && |b| == 2089
      && b[0..8] == ToLE(e.pidTgid, 8) && b[8..16] == ToLE(e.timestampNs, 8)
      && b[16..20] == ToLE(e.fd, 4) && b[20..24] == ToLE(e.payloadLen, 4)
      && b[24] as int == e.isWrite && b[25..41] == e.comm && b[41..2089] == e.payload
  {
    Fields(ToLE(e.pidTgid, 8), ToLE(e.timestampNs, 8), ToLE(e.fd, 4), ToLE(e.payloadLen, 4),
           ToLE(e.isWrite, 1), e.comm, e.payload);
    assert Encoding(e)[24..25][0] == ToLE(e.isWrite, 1)[0];
  }

  // ---------- the stream ----------

  function EncodeAll(events: seq<IOEvent>): (b: Bytes)
    ensures |b| == |events| * RECORD_SIZE
  {
    if events == [] then []
    else
      assert |events| * RECORD_SIZE == (|events| - 1) * RECORD_SIZE + RECORD_SIZE;
      EncodeAll(events[..|events| - 1]) + Encoding(events[|events| - 1])
  }

  /** All records of a stream; none if it ends inside one. */
  function DecodeAll(b: Bytes): Option<seq<IOEvent>> {
    if b == [] then Some([])
    else if |b| < RECORD_SIZE then None
    else
      match DecodeAll(b[RECORD_SIZE..])
      case None => None
      case Some(rest) => Some([Decoded(b[..RECORD_SIZE])] + rest)
  }

  lemma {:induction false} DecodeOneMore(b: Bytes, record: Bytes)
    requires |record| == RECORD_SIZE && DecodeAll(b).Some?
    ensures DecodeAll(b + record) == Some(DecodeAll(b).value + [Decoded(record)])
  {
    var c := b + record;
    var last := [Decoded(record)];
    if b == [] {
      assert c[..RECORD_SIZE] == record && c[RECORD_SIZE..] == [];
      assert last + [] == last == [] + last;
    } else {
      DecodeOneMore(b[RECORD_SIZE..], record);
      var rest := DecodeAll(b[RECORD_SIZE..]).value;
      var first := [Decoded(b[..RECORD_SIZE])];
      assert first + (rest + last) == first + rest + last;
      assert c[RECORD_SIZE..] == b[RECORD_SIZE..] + record && c[..RECORD_SIZE] == b[..RECORD_SIZE];
    }
  }

  /** Decoding what was encoded gives back the events. */
  lemma {:induction false} StreamRoundTrip(events: seq<IOEvent>)
    ensures DecodeAll(EncodeAll(events)) == Some(events)
  {
    if events == [] {
    } else {
      var n := |events| - 1;
      StreamRoundTrip(events[..n]);
      DecodeOneMore(EncodeAll(events[..n]), Encoding(events[n]));
      DecodeEncode(events[n]);
      assert events == events[..n] + [events[n]];
    }
  }

  lemma {:induction false} EncodeFront(e: IOEvent, events: seq<IOEvent>)
    ensures EncodeAll([e] + events) == Encoding(e) + EncodeAll(events)
  {
    var all := [e] + events;
    if events != [] {
      var n := |events| - 1;
      EncodeFront(e, events[..n]);
      assert all[..n + 1] == [e] + events[..n] && all[n + 1] == events[n];
    } else {
      assert all[..0] == [];
    }
  }

  /**
    A stream decodes exactly when it is a whole number of records, and then encoding
    the events gives back its bytes.
   */
  lemma {:induction false} DecodesIffWhole(b: Bytes)
    ensures DecodeAll(b).Some? <==> |b| % RECORD_SIZE == 0
    ensures DecodeAll(b).Some? ==> EncodeAll(DecodeAll(b).value) == b
  {
    if |b| >= RECORD_SIZE {
      DecodesIffWhole(b[RECORD_SIZE..]);
      assert |b| % RECORD_SIZE == (|b| - RECORD_SIZE) % RECORD_SIZE;
      if DecodeAll(b).Some? {
        EncodeDecode(b[..RECORD_SIZE]);
        EncodeFront(Decoded(b[..RECORD_SIZE]), DecodeAll(b[RECORD_SIZE..]).value);
        assert b == b[..RECORD_SIZE] + b[RECORD_SIZE..];
      }
    }
  }

  // ---------- the code that does it ----------

  /** Writes the `k` low bytes of a number into the buffer, least significant first. */
  method PutLE(buf: array<byte>, off: nat, n: nat, k: nat)
    requires off + k <= buf.Length
    modifies buf
    ensures buf[..off + k] == old(buf[..off]) + ToLE(n, k)
    decreases k
  {
    if k > 0 {
      buf[off] := (n % 256) as char;
      assert buf[..off + 1] == old(buf[..off]) + [(n % 256) as char];
      PutLE(buf, off + 1, n / 256, k - 1);
    }
  }

  /** Copies bytes into the buffer. */
  method PutBytes(buf: array<byte>, off: nat, s: Bytes)
    requires off + |s| <= buf.Length
    modifies buf
    ensures buf[..off + |s|] == old(buf[..off]) + s
  {
    for i := 0 to |s|
      invariant buf[..off + i] == old(buf[..off]) + s[..i]
    {
      buf[off + i] := s[i];
      assert buf[..off + i + 1] == buf[..off + i] + [s[i]];
    }
  }

  method Encode(e: IOEvent) returns (buf: array<byte>)
    ensures fresh(buf) && buf[..] == Encoding(e)
  {
    buf := new byte[RECORD_SIZE](_ => '\0');
    PutLE(buf, 0, e.pidTgid, 8);
    ghost var written := ToLE(e.pidTgid, 8);
    assert buf[..8] == written;
    PutLE(buf, 8, e.timestampNs, 8);
    written := written + ToLE(e.timestampNs, 8);
    assert buf[..16] == written;
    PutLE(buf, 16, e.fd, 4);
    written := written + ToLE(e.fd, 4);
    assert buf[..20] == written;
    PutLE(buf, 20, e.payloadLen, 4);
    written := written + ToLE(e.payloadLen, 4);
    assert buf[..24] == written;
    buf[24] := e.isWrite as char;
    written := written + ToLE(e.isWrite, 1);
    assert buf[..25] == written;
    PutBytes(buf, 25, e.comm);
    PutBytes(buf, 41, e.payload);
    assert buf[..] == buf[..RECORD_SIZE] == written + e.comm + e.payload;
  }

  /** The snapshot's event list, appended to by the encode loop of an export. */
  method EncodeEvents(events: seq<IOEvent>) returns (b: Bytes)
    ensures b == EncodeAll(events)
  {
    b := [];
    for i := 0 to |events|
      invariant b == EncodeAll(events[..i])
    {
      var record := Encode(events[i]);
      b := b + record[..];
      assert events[..i + 1][..i] == events[..i];
    }
    assert events[..|events|] == events;
  }

  /** A reader over bytes in memory. */
  class Reader {
    const data: Bytes
    var pos: nat

    constructor (data: Bytes)
      ensures Valid() && this.data == data && pos == 0
    {
      this.data := data;
      pos := 0;
    }

    ghost predicate Valid()
      reads this
    {
      pos <= |data|
    }

    function Rest(): Bytes
      requires Valid()
      reads this
    {
      data[pos..]
    }
  }

  datatype DecodeResult = Event(e: IOEvent) | EndOfStream | CutShort

  /** Reads one record: end of stream before its first byte, an error inside it. */
  method Decode(r: Reader) returns (result: DecodeResult)
    requires r.Valid()
    modifies r
    ensures r.Valid()
    ensures result ==
      if old(r.Rest()) == [] then EndOfStream
      else if |old(r.Rest())| < RECORD_SIZE then CutShort
      else Event(Decoded(old(r.Rest())[..RECORD_SIZE]))
    ensures r.Rest() == if result.Event? then old(r.Rest())[RECORD_SIZE..] else []
  {
    if r.pos == |r.data| {
      return EndOfStream;
    }
    if |r.data| - r.pos < RECORD_SIZE {
      r.pos := |r.data|;
      return CutShort;
    }
    var buf := r.data[r.pos..r.pos + RECORD_SIZE];
    assert buf == r.Rest()[..RECORD_SIZE];
    r.pos := r.pos + RECORD_SIZE;
    result := Event(Decoded(buf));
  }

  /** The decode loop of a snapshot's events: the error is that of a truncated record. */
  method ParseEvents(data: Bytes) returns (events: Option<seq<IOEvent>>)
    ensures events == DecodeAll(data)
  {
    var r := new Reader(data);
    var got: seq<IOEvent> := [];
    assert r.Rest() == data;
    PrependStep([], data);
    while true
      invariant r.Valid()
      invariant DecodeAll(data) == Prepend(got, DecodeAll(r.Rest()))
      decreases |r.Rest()|
    {
      PrependStep(got, r.Rest());
      var next := Decode(r);
      match next {
        case EndOfStream => return Some(got);
        case CutShort => return None;
        case Event(e) => got := got + [e];
      }
    }
  }

  lemma PrependStep(got: seq<IOEvent>, b: Bytes)
    ensures Prepend([], DecodeAll(b)) == DecodeAll(b)
    ensures b == [] ==> Prepend(got, DecodeAll(b)) == Some(got)
    ensures |b| >= RECORD_SIZE ==>
      Prepend(got, DecodeAll(b)) == Prepend(got + [Decoded(b[..RECORD_SIZE])], DecodeAll(b[RECORD_SIZE..]))
  {
    assert got + [] == got;
    if DecodeAll(b).Some? {
      assert [] + DecodeAll(b).value == DecodeAll(b).value;
    }
    if |b| >= RECORD_SIZE && DecodeAll(b[RECORD_SIZE..]).Some? {
      var first, rest := [Decoded(b[..RECORD_SIZE])], DecodeAll(b[RECORD_SIZE..]).value;
      assert got + (first + rest) == got + first + rest;
    }
  }

  function Prepend(got: seq<IOEvent>, rest: Option<seq<IOEvent>>): Option<seq<IOEvent>> {
    match rest
    case None => None
    case Some(more) => Some(got + more)
  }
}
