/** protocol.h: the ten-byte header in front of every packet. */
module Protocol {
  type Byte = x: int | 0 <= x < 0x100
  type Bytes = seq<Byte>
  type NodeId = x: int | 0 <= x < 0x1_0000

  datatype Option<T> = None | Some(value: T)

  const VERSION: Byte := 1
  const HEADER_LEN := 10

  const MSG_PK: Byte := 1
  const MSG_CT: Byte := 2
  const MSG_ACK: Byte := 3
  const MSG_TEMP: Byte := 4
  const MSG_METRICS: Byte := 5
  const MSG_GETPK: Byte := 6
  const MSG_NACK: Byte := 7

  const FLAG_NONE: Byte := 0
  const FLAG_RETRY: Byte := 1

  const FRAG_MAX_PAYLOAD := 64
  const FRAG_MAX_FRAGS := 72
  const FRAG_MAX_MESSAGE := 4608

  /** The fields of a packet; the payload follows the header. */
  datatype Packet = Packet(msgType: Byte, nodeId: NodeId, msgId: Byte, fragIdx: Byte, totalFrags: Byte, payload: Bytes, flags: Byte)

  predicate Wellformed(p: Packet) { |p.payload| < 0x100 }

  /** pqc_header_write followed by the payload. */
  function Serialize(p: Packet): (b: Bytes)
    requires Wellformed(p)
    ensures |b| == HEADER_LEN + |p.payload|
  {
    [VERSION, p.msgType, p.nodeId / 0x100, p.nodeId % 0x100, p.msgId, p.fragIdx, p.totalFrags, |p.payload|, p.flags, 0] + p.payload
  }

  /** The offsets of protocol.h. */
  lemma HeaderLayout(p: Packet)
    requires Wellformed(p)
    ensures var b := Serialize(p);
      && b[0] == 1 && b[1] == p.msgType && 256 * (b[2] as int) + b[3] == p.nodeId && b[4] == p.msgId && b[5] == p.fragIdx
      && b[6] == p.totalFrags && b[7] == |p.payload| && b[8] == p.flags && b[9] == 0 && b[10..] == p.payload
  {}

  predicate HeaderValid(b: Bytes) {
    |b| >= HEADER_LEN && b[0] == VERSION && |b| >= HEADER_LEN + b[7]
  }

  function HeaderNodeId(b: Bytes): NodeId
    requires |b| >= HEADER_LEN
  {
    (b[2] as int) * 0x100 + b[3]
  }

  /** parse_fragment_header: the fields, unless one is out of range; bytes behind the payload are ignored. */
  function Parse(b: Bytes): Option<Packet> {
    if |b| < HEADER_LEN || b[0] != VERSION then None
    else if b[6] == 0 || b[6] > FRAG_MAX_FRAGS || b[5] >= b[6] || b[7] > FRAG_MAX_PAYLOAD then None
    else if |b| < HEADER_LEN + b[7] then None
    else Some(Packet(b[1], HeaderNodeId(b), b[4], b[5], b[6], b[HEADER_LEN..HEADER_LEN + b[7]], b[8]))
  }

  /** The fields that parse_fragment_header accepts. */
  predicate InRange(p: Packet) {
    1 <= p.totalFrags <= FRAG_MAX_FRAGS && p.fragIdx < p.totalFrags && |p.payload| <= FRAG_MAX_PAYLOAD
  }

  /** Parsing gives the packet back exactly when its fields are in range. */
  lemma ParseSerialize(p: Packet, extra: Bytes)
    requires Wellformed(p)
    ensures HeaderValid(Serialize(p) + extra) && HeaderNodeId(Serialize(p) + extra) == p.nodeId
    ensures Parse(Serialize(p) + extra) == if InRange(p) then Some(p) else None
  {
    var b := Serialize(p) + extra;
    assert b[HEADER_LEN..HEADER_LEN + |p.payload|] == p.payload;
  }

  /** What Parse accepts, Serialize reproduces up to the reserved byte and the bytes behind the payload. */
  lemma SerializeParse(b: Bytes)
    requires Parse(b).Some?
    ensures InRange(Parse(b).value)
    ensures b[9] == 0 ==> Serialize(Parse(b).value) == b[..HEADER_LEN + b[7]]
  {
    var p := Parse(b).value;
    assert p.nodeId / 0x100 == b[2] && p.nodeId % 0x100 == b[3];
  }
}
