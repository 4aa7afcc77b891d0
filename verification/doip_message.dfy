/** The generic DoIP header and whole DoIP messages (ISO 13400-2). */
module DoipMessage {
  import opened Bytes

  const PROTO_VERSION: byte := 0x02
  const PROTO_VERSION_INV: byte := 0xFD
  const ROUTING_ACTIVATION_REQ: uint16 := 0x0005
  const ROUTING_ACTIVATION_RES: uint16 := 0x0006
  const ALIVE_CHECK_REQ: uint16 := 0x0007
  const ALIVE_CHECK_RES: uint16 := 0x0008
  const DIAGNOSTIC_MESSAGE: uint16 := 0x8001
  const DIAGNOSTIC_ACK: uint16 := 0x8002
  const ROUTING_OK: byte := 0x10
  const ACK_OK: byte := 0x00
  const HEADER_SIZE: nat := 8
  const ECU_ADDRESS: uint16 := 0x0001

  datatype DoipHeader = DoipHeader(
    protoVersion: byte, protoVersionInv: byte, payloadType: uint16, payloadLength: uint32)

  const DEFAULT_HEADER := DoipHeader(PROTO_VERSION, PROTO_VERSION_INV, 0, 0)

  function EncodeHeader(h: DoipHeader): (s: seq<byte>)
    ensures |s| == HEADER_SIZE
  {
    [h.protoVersion, h.protoVersionInv] + EncodeU16(h.payloadType) + EncodeU32(h.payloadLength)
  }

  function HeaderOf(s: seq<byte>): DoipHeader
    requires |s| >= HEADER_SIZE
  {
    DoipHeader(s[0], s[1], U16At(s, 2), U32At(s, 4))
  }

  /** A byte string starts with the encoding of h exactly when h is what parsing reads there. */
  lemma HeaderInverse(s: seq<byte>, h: DoipHeader)
    requires |s| >= HEADER_SIZE
    ensures s[..HEADER_SIZE] == EncodeHeader(h) <==> HeaderOf(s) == h
  {
    U16Inverse(s, 2, h.payloadType);
    U32Inverse(s, 4, h.payloadLength);
    Halves(s[..8], [h.protoVersion, h.protoVersionInv] + EncodeU16(h.payloadType), EncodeU32(h.payloadLength));
    Halves(s[..4], [h.protoVersion, h.protoVersionInv], EncodeU16(h.payloadType));
    assert s[..8][..4] == s[..4] && s[..8][4..] == s[4..8];
    assert s[..4][..2] == [s[0], s[1]] && s[..4][2..] == s[2..4];
  }

  /** The bytes of a whole message; the length field is the payload length cut to 32 bits. */
  function Message(payloadType: uint16, payload: seq<byte>): (m: seq<byte>)
    ensures |m| == HEADER_SIZE + |payload|
  {
    EncodeHeader(DoipHeader(PROTO_VERSION, PROTO_VERSION_INV, payloadType, Low32(|payload|))) + payload
  }

  /** Fills out from the first eight bytes of buf, or leaves it alone when there are fewer. */
  method Parse(buf: array<byte>, len: nat, prior: DoipHeader) returns (ok: bool, out: DoipHeader)
    requires len <= buf.Length
    ensures ok == (len >= HEADER_SIZE)
    ensures out == if ok then HeaderOf(buf[..len]) else prior
    ensures ok ==> out.protoVersion == buf[0] && out.protoVersionInv == buf[1]
                   && out.payloadType == U16At(buf[..], 2) && out.payloadLength == U32At(buf[..], 4)
  {
    out := prior;
    if len < HEADER_SIZE {
      return false, out;
    }
    out := out.(protoVersion := buf[0]);
    out := out.(protoVersionInv := buf[1]);
    out := out.(payloadType := buf[2] as int * 0x100 + buf[3]);
    out := out.(payloadLength := (buf[4] as int * 0x100 + buf[5]) * 0x1_0000
                                  + (buf[6] as int * 0x100 + buf[7]));
    return true, out;
  }

  /** Writes the eight header bytes at the front of buf and nothing else. */
  method Serialize(h: DoipHeader, buf: array<byte>)
    requires buf.Length >= HEADER_SIZE
    modifies buf
    ensures buf[..] == EncodeHeader(h) + old(buf[HEADER_SIZE..])
  {
    buf[0] := h.protoVersion;
    buf[1] := h.protoVersionInv;
    buf[2] := h.payloadType / 0x100;
    buf[3] := h.payloadType % 0x100;
    var pl := EncodeU32(h.payloadLength);
    buf[4], buf[5], buf[6], buf[7] := pl[0], pl[1], pl[2], pl[3];
    assert buf[..8] == EncodeHeader(h);
    assert buf[8..] == old(buf[8..]);
    assert buf[..] == buf[..8] + buf[8..];
  }

  /** Builds a whole message in a fresh buffer. */
  method MakeDoipMessage(payloadType: uint16, payload: seq<byte>) returns (m: seq<byte>)
    ensures m == Message(payloadType, payload)
    ensures m[0] == 0x02 && m[1] == 0xFD && U16At(m, 2) == payloadType && U32At(m, 4) == |payload| % 0x1_0000_0000
    ensures m[8..] == payload
  {
    var buf := new byte[HEADER_SIZE + |payload|](_ => 0);
    var hdr := DEFAULT_HEADER.(payloadType := payloadType, payloadLength := Low32(|payload|));
    Serialize(hdr, buf);
    if |payload| > 0 {
      forall i | 0 <= i < |payload| {
        buf[HEADER_SIZE + i] := payload[i];
      }
    }
    assert buf[..HEADER_SIZE] == EncodeHeader(hdr);
    assert buf[HEADER_SIZE..] == payload;
    m := buf[..];
    assert m == buf[..HEADER_SIZE] + buf[HEADER_SIZE..];
    HeaderInverse(m, hdr);
  }
}
