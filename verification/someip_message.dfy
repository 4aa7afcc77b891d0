/** SOME/IP messages: construction, serialization into a caller's buffer, and reading back. */
module SomeIpMessage {
  import opened Bytes
  import opened Options

  const NOTIFICATION: byte := 0x02
  const RET_OK: byte := 0x00
  const HEADER_SIZE: nat := 16
  const MAX_SIZE: nat := 1500

  datatype SomeIpMessage = SomeIpMessage(
    serviceId: uint16, methodId: uint16, clientId: uint16, sessionId: uint16,
    msgType: byte, returnCode: byte, payload: seq<byte>)

  function MakeNotification(serviceId: uint16, methodId: uint16, sessionId: uint16, payload: seq<byte>): SomeIpMessage {
    SomeIpMessage(serviceId, methodId, 0x0000, sessionId, NOTIFICATION, RET_OK, payload)
  }

  /** A notification whose payload is one 32-bit word, also used for the bits of a float. */
  function MakeWordNotification(serviceId: uint16, methodId: uint16, sessionId: uint16, word: uint32): SomeIpMessage {
    MakeNotification(serviceId, methodId, sessionId, EncodeU32(word))
  }

  function Ids(m: SomeIpMessage): (s: seq<byte>)
    ensures |s| == 4
  {
    EncodeU16(m.serviceId) + EncodeU16(m.methodId)
  }

  function Trailer(m: SomeIpMessage): (s: seq<byte>)
    ensures |s| == 8
  {
    EncodeU16(m.clientId) + EncodeU16(m.sessionId) + [0x01, 0x01, m.msgType, m.returnCode]
  }

  function Encode(m: SomeIpMessage): (s: seq<byte>)
    ensures |s| == HEADER_SIZE + |m.payload|
  {
    Ids(m) + EncodeU32(Low32(|m.payload| + 8)) + Trailer(m) + m.payload
  }

  /** A strict receiver: the length field and both version bytes must be right. */
  function Decode(s: seq<byte>): Option<SomeIpMessage> {
    if |s| < HEADER_SIZE || U32At(s, 4) as int != |s| - 8 || s[12] != 0x01 || s[13] != 0x01 then None
    else Some(SomeIpMessage(U16At(s, 0), U16At(s, 2), U16At(s, 8), U16At(s, 10), s[14], s[15], s[HEADER_SIZE..]))
  }

  lemma {:induction false} EncodedFields(m: SomeIpMessage)
    ensures var s := Encode(m);
            && U16At(s, 0) == m.serviceId && U16At(s, 2) == m.methodId
            && U32At(s, 4) == Low32(|m.payload| + 8)
            && U16At(s, 8) == m.clientId && U16At(s, 10) == m.sessionId
            && s[12..16] == [0x01, 0x01, m.msgType, m.returnCode] && s[HEADER_SIZE..] == m.payload
  {
    var s := Encode(m);
    assert s[0..2] == EncodeU16(m.serviceId) && s[2..4] == EncodeU16(m.methodId);
    assert s[4..8] == EncodeU32(Low32(|m.payload| + 8));
    assert s[8..10] == EncodeU16(m.clientId) && s[10..12] == EncodeU16(m.sessionId);
    U16Inverse(s, 0, m.serviceId);
    U16Inverse(s, 2, m.methodId);
    U32Inverse(s, 4, Low32(|m.payload| + 8));
    U16Inverse(s, 8, m.clientId);
    U16Inverse(s, 10, m.sessionId);
  }

  /** A receiver recovers the message, and the length field is right, exactly when the payload is shorter than
      2^32 - 8 bytes. */
  lemma {:induction false} MessageRoundTrip(m: SomeIpMessage)
    ensures Decode(Encode(m)) == Some(m) <==> |m.payload| < 0xFFFF_FFF8
    ensures U32At(Encode(m), 4) == |m.payload| + 8 <==> |m.payload| < 0xFFFF_FFF8
  {
    var s := Encode(m);
    EncodedFields(m);
    assert s[12] == s[12..16][0] && s[13] == s[12..16][1] && s[14] == s[12..16][2] && s[15] == s[12..16][3];
  }

  /** Writes the message at the front of the buffer and nothing behind it, or returns 0 and writes nothing,
      exactly when the buffer is too small. */
  method SerializeInto(m: SomeIpMessage, buf: array<byte>) returns (n: nat)
    modifies buf
    ensures n == 0 <==> buf.Length < HEADER_SIZE + |m.payload|
    ensures n == 0 ==> buf[..] == old(buf[..])
    ensures n > 0 ==> n == |Encode(m)| && buf[..] == Encode(m) + old(buf[|Encode(m)|..])
  {
    var total := HEADER_SIZE + |m.payload|;
    if buf.Length < total {
      return 0;
    }
    WriteHeader(m, buf);
    if m.payload != [] {
      WriteAt(buf, HEADER_SIZE, m.payload);
    }
    assert buf[..] == buf[..total] + buf[total..];
    n := total;
  }

  method WriteHeader(m: SomeIpMessage, buf: array<byte>)
    requires buf.Length >= HEADER_SIZE
    modifies buf
    ensures buf[..HEADER_SIZE] == Ids(m) + EncodeU32(Low32(|m.payload| + 8)) + Trailer(m)
    ensures buf[HEADER_SIZE..] == old(buf[HEADER_SIZE..])
  {
    WriteAt(buf, 0, EncodeU16(m.serviceId) + EncodeU16(m.methodId));
    WriteAt(buf, 4, EncodeU32(Low32(|m.payload| + 8)));
    WriteAt(buf, 8, EncodeU16(m.clientId) + EncodeU16(m.sessionId) + [0x01, 0x01, m.msgType, m.returnCode]);
  }

  method Serialize(m: SomeIpMessage) returns (bytes: seq<byte>)
    ensures bytes == Encode(m)
  {
    var buf := new byte[HEADER_SIZE + |m.payload|](_ => 0);
    var n := SerializeInto(m, buf);
    bytes := buf[..];
  }
}
