/** The UDS services behind the DoIP server (ISO 14229-1:2013, sections 9.2, 9.3, 10.2 and 11.3). */
module Uds {
  import opened Bytes

  const SESSION_CONTROL: byte := 0x10
  const ECU_RESET: byte := 0x11
  const READ_DTC: byte := 0x19
  const READ_DATA_BY_ID: byte := 0x22
  const NEGATIVE_RESPONSE: byte := 0x7F
  const NRC_SERVICE_NOT_SUPPORTED: byte := 0x11
  const NRC_REQUEST_OUT_OF_RANGE: byte := 0x31

  /** A diagnostic trouble code. Only the low 24 bits of the code are ever sent. */
  datatype Dtc = Dtc(code: uint32, status: byte, description: string)

  const STORED_DTCS: seq<Dtc> := [
    Dtc(0x012345, 0x08, "Engine coolant temperature sensor"),
    Dtc(0x023456, 0x09, "Throttle position sensor"),
    Dtc(0x034567, 0x00, "Vehicle speed sensor (inactive)")]

  const VIN := "BBB0000000000001"
  const SERIAL := "ECU-BBB-2024-001"
  const VERSION := "v1.0.0-automotive-gateway"

  function Ascii(text: string): (s: seq<byte>) {
    seq(|text|, i requires 0 <= i < |text| => text[i] as int % 0x100)
  }

  predicate KnownId(did: uint16) {
    did == 0xF190 || did == 0xF18C || did == 0xF187
  }

  function IdText(did: uint16): string
    requires KnownId(did)
  {
    if did == 0xF190 then VIN else if did == 0xF18C then SERIAL else VERSION
  }

  function Negative(service: byte, code: byte): seq<byte> {
    [NEGATIVE_RESPONSE, service, code]
  }

  function DtcRecord(dtc: Dtc): (s: seq<byte>)
    ensures |s| == 4
  {
    EncodeU24(dtc.code) + [dtc.status]
  }

  function DtcRecords(dtcs: seq<Dtc>): seq<byte> {
    if dtcs == [] then [] else DtcRecords(dtcs[..|dtcs| - 1]) + DtcRecord(dtcs[|dtcs| - 1])
  }

  function SessionControlAnswer(req: seq<byte>): seq<byte> {
    if |req| < 2 then Negative(SESSION_CONTROL, NRC_REQUEST_OUT_OF_RANGE) else [0x50, req[1]]
  }

  function EcuResetAnswer(req: seq<byte>): seq<byte> {
    if |req| < 2 then Negative(ECU_RESET, NRC_REQUEST_OUT_OF_RANGE) else [0x51, req[1]]
  }

  function ReadDtcAnswer(dtcs: seq<Dtc>, req: seq<byte>): seq<byte> {
    if |req| < 2 then Negative(READ_DTC, NRC_REQUEST_OUT_OF_RANGE)
    else [0x59, req[1], 0xFF, 0x09, 0x00, |dtcs| % 0x100] + DtcRecords(dtcs)
  }

  function ReadDataAnswer(req: seq<byte>): seq<byte> {
    if |req| < 3 || !KnownId(U16At(req, 1)) then Negative(READ_DATA_BY_ID, NRC_REQUEST_OUT_OF_RANGE)
    else [0x62] + EncodeU16(U16At(req, 1)) + Ascii(IdText(U16At(req, 1)))
  }

  /** The answer to a UDS request. */
  function Answer(dtcs: seq<Dtc>, req: seq<byte>): seq<byte> {
    if |req| < 1 then Negative(0x00, NRC_SERVICE_NOT_SUPPORTED)
    else if req[0] == SESSION_CONTROL then SessionControlAnswer(req)
    else if req[0] == READ_DTC then ReadDtcAnswer(dtcs, req)
    else if req[0] == READ_DATA_BY_ID then ReadDataAnswer(req)
    else if req[0] == ECU_RESET then EcuResetAnswer(req)
    else Negative(req[0], NRC_SERVICE_NOT_SUPPORTED)
  }

  class UdsHandler {
    const dtcs: seq<Dtc>

    constructor ()
      ensures dtcs == STORED_DTCS
    {
      var stored: seq<Dtc> := [];
      stored := stored + [Dtc(0x012345, 0x08, "Engine coolant temperature sensor")];
      stored := stored + [Dtc(0x023456, 0x09, "Throttle position sensor")];
      stored := stored + [Dtc(0x034567, 0x00, "Vehicle speed sensor (inactive)")];
      dtcs := stored;
    }

    method Handle(req: seq<byte>) returns (response: seq<byte>)
      ensures response == Answer(dtcs, req)
    {
      if |req| < 1 {
        return Negative(0x00, NRC_SERVICE_NOT_SUPPORTED);
      }
      match req[0] {
        case 0x10 => response := SessionControlAnswer(req);
        case 0x19 => response := HandleReadDtc(req);
        case 0x22 => response := HandleReadDataById(req);
        case 0x11 => response := EcuResetAnswer(req);
        case _ => response := Negative(req[0], NRC_SERVICE_NOT_SUPPORTED);
      }
    }

    method HandleReadDtc(req: seq<byte>) returns (response: seq<byte>)
      ensures response == ReadDtcAnswer(dtcs, req)
    {
      if |req| < 2 {
        return Negative(READ_DTC, NRC_REQUEST_OUT_OF_RANGE);
      }
      var head: seq<byte> := [0x59, req[1], 0xFF, 0x09, 0x00, |dtcs| % 0x100];
      response := head;
      for i := 0 to |dtcs|
        invariant response == head + DtcRecords(dtcs[..i])
      {
        response := response + [dtcs[i].code / 0x1_0000 % 0x100];
        response := response + [dtcs[i].code / 0x100 % 0x100];
        response := response + [dtcs[i].code % 0x100];
        response := response + [dtcs[i].status];
        assert dtcs[..i + 1][..i] == dtcs[..i];
      }
      assert dtcs[..|dtcs|] == dtcs;
    }

    method HandleReadDataById(req: seq<byte>) returns (response: seq<byte>)
      ensures response == ReadDataAnswer(req)
    {
      if |req| < 3 {
        return Negative(READ_DATA_BY_ID, NRC_REQUEST_OUT_OF_RANGE);
      }
      var did: uint16 := req[1] as int * 0x100 + req[2];
      response := [0x62];
      response := response + [did / 0x100];
      response := response + [did % 0x100];
      assert response == [0x62] + EncodeU16(did);
      match did {
        case 0xF190 => response := response + Ascii(VIN);
        case 0xF18C => response := response + Ascii(SERIAL);
        case 0xF187 => response := response + Ascii(VERSION);
        case _ => return Negative(READ_DATA_BY_ID, NRC_REQUEST_OUT_OF_RANGE);
      }
    }
  }

  // ---- What a tester may rely on ----

  predicate Supported(service: byte) {
    service == 0x10 || service == 0x11 || service == 0x19 || service == 0x22
  }

  /** The requests the handler serves, described without the dispatch. */
  predicate Served(req: seq<byte>) {
    && |req| >= 2
    && Supported(req[0])
    && (req[0] == 0x22 ==> |req| >= 3 && KnownId(U16At(req, 1)))
  }

  /** A served request is answered with its service id plus 0x40 and an echo of its first parameter byte;
      any other is refused with its service id (0 when it has none) and the code that says why. */
  lemma AnswerShape(dtcs: seq<Dtc>, req: seq<byte>)
    ensures var r := Answer(dtcs, req);
            var sid: byte := if req == [] then 0 else req[0];
            && (Served(req) ==> |r| >= 2 && r[0] as int == sid as int + 0x40 && r[1] == req[1])
            && (Served(req) && (sid == 0x10 || sid == 0x11) ==> |r| == 2)
            && (!Served(req) <==> |r| == 3 && r[0] == 0x7F && r[1] == sid
                                  && r[2] == if Supported(sid) then 0x31 else 0x11)
  {
    if Served(req) && req[0] == READ_DATA_BY_ID {
      U16Inverse(req, 1, U16At(req, 1));
      assert EncodeU16(U16At(req, 1))[0] == req[1];
    }
  }

  /** Reads DTC records back: 24-bit codes and status bytes. */
  function DecodeRecords(s: seq<byte>): seq<(int, byte)>
    requires |s| % 4 == 0
  {
    if s == [] then []
    else
      var n := |s| - 4;
      DecodeRecords(s[..n]) + [(U24At(s, n), s[n + 3])]
  }

  function Reported(dtcs: seq<Dtc>): (r: seq<(int, byte)>)
    ensures |r| == |dtcs|
  {
    seq(|dtcs|, i requires 0 <= i < |dtcs| => (dtcs[i].code % 0x100_0000, dtcs[i].status))
  }

  /** The report carries every stored code, cut to 24 bits, with its status, in order; its count byte is the
      number of records exactly when fewer than 256 are stored. */
  lemma {:induction false} ReportIsReadBack(dtcs: seq<Dtc>)
    ensures |DtcRecords(dtcs)| == 4 * |dtcs|
    ensures DecodeRecords(DtcRecords(dtcs)) == Reported(dtcs)
  {
    if dtcs != [] {
      var init, last := dtcs[..|dtcs| - 1], dtcs[|dtcs| - 1];
      ReportIsReadBack(init);
      var s := DtcRecords(dtcs);
      var n := |s| - 4;
      assert s[..n] == DtcRecords(init) && s[n..] == DtcRecord(last);
      assert s[n..n + 3] == s[n..][..3] == EncodeU24(last.code);
      assert s[n + 3] == s[n..][3];
      U24Read(s, n, last.code);
    }
  }

  lemma ReportCount(dtcs: seq<Dtc>, req: seq<byte>)
    requires |req| >= 2 && req[0] == READ_DTC
    ensures var r := Answer(dtcs, req);
            && |r| == 6 + 4 * |dtcs| && r[2..5] == [0xFF, 0x09, 0x00]
            && DecodeRecords(r[6..]) == Reported(dtcs)
            && (r[5] == |Reported(dtcs)| <==> |dtcs| < 0x100)
  {
    hide DtcRecords, DecodeRecords, Reported, DtcRecord;
    ReportIsReadBack(dtcs);
    var head: seq<byte> := [0x59, req[1], 0xFF, 0x09, 0x00, |dtcs| % 0x100];
    var records := DtcRecords(dtcs);
    assert Answer(dtcs, req) == ReadDtcAnswer(dtcs, req) == head + records;
    assert (head + records)[5] == head[5];
    assert (head + records)[6..] == records;
  }

  /** The gateway's own report: three codes, each with its status. */
  lemma {:induction false} GatewayReports()
    ensures Answer(STORED_DTCS, [0x19, 0x02])
            == [0x59, 0x02, 0xFF, 0x09, 0x00, 3,
                0x01, 0x23, 0x45, 0x08, 0x02, 0x34, 0x56, 0x09, 0x03, 0x45, 0x67, 0x00]
  {
    var all := STORED_DTCS;
    assert DtcRecords(all[..0]) == [];
    assert all[..1][..0] == all[..0] && all[..2][..1] == all[..1] && all[..3][..2] == all[..2] && all[..3] == all;
    assert DtcRecords(all[..1]) == [0x01, 0x23, 0x45, 0x08];
    assert DtcRecords(all[..2]) == [0x01, 0x23, 0x45, 0x08, 0x02, 0x34, 0x56, 0x09];
  }

  /** The text behind an identifier, read from the answer as characters. */
  function TextIn(answer: seq<byte>): string {
    if |answer| < 3 then "" else seq(|answer| - 3, i requires 0 <= i < |answer| - 3 => answer[i + 3] as char)
  }

  /** The three identifiers answer with the texts the documentation shows, after an echo of the identifier. */
  lemma IdentifiersAnswer(dtcs: seq<Dtc>)
    ensures TextIn(Answer(dtcs, [0x22, 0xF1, 0x90])) == "BBB0000000000001"
    ensures TextIn(Answer(dtcs, [0x22, 0xF1, 0x8C])) == "ECU-BBB-2024-001"
    ensures TextIn(Answer(dtcs, [0x22, 0xF1, 0x87])) == "v1.0.0-automotive-gateway"
    ensures forall req: seq<byte> :: |req| >= 3 && req[0] == READ_DATA_BY_ID && KnownId(U16At(req, 1)) ==>
              U16At(Answer(dtcs, req), 1) == U16At(req, 1)
  {
    IdentifierAnswer(dtcs, [0x22, 0xF1, 0x90], VIN);
    IdentifierAnswer(dtcs, [0x22, 0xF1, 0x8C], SERIAL);
    IdentifierAnswer(dtcs, [0x22, 0xF1, 0x87], VERSION);
    forall req: seq<byte> | |req| >= 3 && req[0] == READ_DATA_BY_ID && KnownId(U16At(req, 1))
      ensures U16At(Answer(dtcs, req), 1) == U16At(req, 1)
    {
      IdentifierAnswer(dtcs, req, IdText(U16At(req, 1)));
    }
  }

  lemma {:induction false} IdentifierAnswer(dtcs: seq<Dtc>, req: seq<byte>, text: string)
    requires |req| >= 3 && req[0] == READ_DATA_BY_ID && KnownId(U16At(req, 1)) && text == IdText(U16At(req, 1))
    requires forall c <- text :: c as int < 0x80
    ensures TextIn(Answer(dtcs, req)) == text && U16At(Answer(dtcs, req), 1) == U16At(req, 1)
  {
    hide IdText, KnownId, TextIn, Ascii, EncodeU16;
    var did := U16At(req, 1);
    assert Answer(dtcs, req) == ([0x62] + EncodeU16(did)) + Ascii(text);
    U16Read([0x62], did, Ascii(text));
    TextBehind([0x62] + EncodeU16(did), text);
  }

  lemma {:induction false} TextBehind(head: seq<byte>, text: string)
    requires |head| == 3 && forall c <- text :: c as int < 0x80
    ensures TextIn(head + Ascii(text)) == text
  {
    forall i | 0 <= i < |text| ensures TextIn(head + Ascii(text))[i] == text[i] {
      assert text[i] in text;
    }
  }

  lemma AnswerSize(dtcs: seq<Dtc>, req: seq<byte>)
    ensures |Answer(dtcs, req)| <= 28 + 4 * |dtcs|
  {
    ReportIsReadBack(dtcs);
  }
}
