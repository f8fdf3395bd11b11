/** The record every part of the system works on: one captured socket event. */
module IOEvents {
  import opened ByteStrings

  const MAX_PAYLOAD_LEN := 2048
  const COMM_LEN := 16

  type uint8 = n: int | 0 <= n < 0x100
  type uint32 = n: int | 0 <= n < 0x1_0000_0000
  type uint64 = n: int | 0 <= n < 0x1_0000_0000_0000_0000

  type Comm = s: Bytes | |s| == COMM_LEN witness seq(COMM_LEN, _ => '\0')
  type Payload = s: Bytes | |s| == MAX_PAYLOAD_LEN witness seq(MAX_PAYLOAD_LEN, _ => '\0')

  /** Without the zeros at its end. */
  function TrimZeros(s: Bytes): (t: Bytes)
    ensures t <= s && (t != [] ==> t[|t| - 1] != '\0')
    ensures forall k :: |t| <= k < |s| ==> s[k] == '\0'
  {
    if s != [] && s[|s| - 1] == '\0' then TrimZeros(s[..|s| - 1]) else s
  }

  // The values of the isWrite field that the code tells apart.
  const READ: uint8 := 0
  const WRITE: uint8 := 1
  const MARKER: uint8 := 2
  const CLOCK: uint8 := 3

  datatype IOEvent = IOEvent(
    pidTgid: uint64,
    timestampNs: uint64,
    fd: uint32,
    payloadLen: uint32,
    isWrite: uint8,
    comm: Comm,
    payload: Payload)
  {
    /** The length field is within the payload array: what slicing the payload demands. */
    predicate WellFormed() {
      payloadLen <= MAX_PAYLOAD_LEN
    }

    /** The captured bytes, `Payload[:PayloadLen]`. */
    function View(): Bytes
      requires WellFormed()
    {
      payload[..payloadLen]
    }

    /** A response that the proxy can serve. */
    predicate IsResponse() {
      isWrite == WRITE && payloadLen > 0
    }
  }

  predicate AllWellFormed(events: seq<IOEvent>) {
    forall i :: 0 <= i < |events| ==> events[i].WellFormed()
  }
}
