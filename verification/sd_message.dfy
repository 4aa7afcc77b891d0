/** SOME/IP service discovery messages: building them, writing them into a buffer, and reading them back. */
module SdMessage {
  import opened Bytes
  import opened Options

  const OFFER_SERVICE: byte := 0x01
  const SUBSCRIBE_EVENTGROUP: byte := 0x06
  const SUBSCRIBE_ACK: byte := 0x07
  const IPV4_ENDPOINT: byte := 0x04
  const UDP: byte := 0x11
  const SD_SERVICE: uint16 := 0xFFFF
  const SD_METHOD: uint16 := 0x8100
  const ENTRY_SIZE: nat := 16
  const OPTION_SIZE: nat := 12
  const ENTRIES_AT: nat := 24

  /** An IPv4 address, in network order. */
  datatype Ipv4 = Ipv4(a: byte, b: byte, c: byte, d: byte)

  datatype SdEntry = SdEntry(
    kind: byte, indexFirst: byte, numOpts: byte, serviceId: uint16, instanceId: uint16,
    majorVersion: byte, ttl: uint32, minorVersion: uint16, eventgroupId: uint16)

  datatype SdOption = SdOption(kind: byte, addr: Ipv4, protocol: byte, port: uint16)

  // ---- The wire format of one entry and one option ----

  function EncodeEntry(e: SdEntry): (s: seq<byte>)
    ensures |s| == ENTRY_SIZE
  {
    [e.kind, e.indexFirst, e.numOpts * 16 % 0x100, 0] + EncodeU16(e.serviceId) + EncodeU16(e.instanceId)
    + [e.majorVersion] + EncodeU24(e.ttl) + EncodeU16(e.minorVersion) + EncodeU16(e.eventgroupId)
  }

  function DecodeEntry(s: seq<byte>): SdEntry
    requires |s| == ENTRY_SIZE
  {
    SdEntry(s[0], s[1], s[2] / 16, U16At(s, 4), U16At(s, 6), s[8],
            U24At(s, 9), U16At(s, 12), U16At(s, 14))
  }

  /** What a receiver sees of an entry: the time to live has 24 bits and the option count four. */
  function OnWire(e: SdEntry): SdEntry {
    e.(numOpts := e.numOpts % 16, ttl := e.ttl % 0x100_0000)
  }

  lemma EntryRoundTrip(e: SdEntry)
    ensures DecodeEntry(EncodeEntry(e)) == OnWire(e)
    ensures var s := EncodeEntry(e);
            && s[0] == e.kind && s[1] == e.indexFirst && s[2] == e.numOpts % 16 * 16 && s[3] == 0
            && U16At(s, 4) == e.serviceId && U16At(s, 6) == e.instanceId
            && s[8] == e.majorVersion && U24At(s, 9) == e.ttl % 0x100_0000
            && U16At(s, 12) == e.minorVersion && U16At(s, 14) == e.eventgroupId
  {
    var s := EncodeEntry(e);
    assert s[2] == e.numOpts * 16 % 0x100;
    assert s[2] / 16 == e.numOpts % 16;
    assert s[4..6] == EncodeU16(e.serviceId) && s[6..8] == EncodeU16(e.instanceId);
    assert s[12..14] == EncodeU16(e.minorVersion) && s[14..16] == EncodeU16(e.eventgroupId);
    assert s[9..12] == EncodeU24(e.ttl);
    U24Read(s, 9, e.ttl);
    U16Inverse(s, 4, e.serviceId);
    U16Inverse(s, 6, e.instanceId);
    U16Inverse(s, 12, e.minorVersion);
    U16Inverse(s, 14, e.eventgroupId);
  }

  function Quad(addr: Ipv4): (s: seq<byte>)
    ensures |s| == 4
  {
    [addr.a, addr.b, addr.c, addr.d]
  }

  function EncodeOption(o: SdOption): (s: seq<byte>)
    ensures |s| == OPTION_SIZE
  {
    EncodeU16(9) + [o.kind, 0] + Quad(o.addr) + [0, o.protocol] + EncodeU16(o.port)
  }

  function DecodeOption(s: seq<byte>): SdOption
    requires |s| == OPTION_SIZE
  {
    SdOption(s[2], Ipv4(s[4], s[5], s[6], s[7]), s[9], U16At(s, 10))
  }

  lemma OptionRoundTrip(o: SdOption)
    ensures DecodeOption(EncodeOption(o)) == o
    ensures var s := EncodeOption(o);
            && U16At(s, 0) == 9 && s[2] == o.kind && s[3] == 0
            && s[4..8] == [o.addr.a, o.addr.b, o.addr.c, o.addr.d]
            && s[8] == 0 && s[9] == o.protocol && U16At(s, 10) == o.port
  {
    var s := EncodeOption(o);
    assert s[0..2] == EncodeU16(9) && s[10..12] == EncodeU16(o.port);
    U16Inverse(s, 0, 9);
    U16Inverse(s, 10, o.port);
  }

  // ---- Whole messages ----

  function EncodeEntries(es: seq<SdEntry>): (s: seq<byte>)
    ensures |s| == ENTRY_SIZE * |es|
  {
    if es == [] then [] else EncodeEntries(es[..|es| - 1]) + EncodeEntry(es[|es| - 1])
  }

  function EncodeOptions(os: seq<SdOption>): (s: seq<byte>)
    ensures |s| == OPTION_SIZE * |os|
  {
    if os == [] then [] else EncodeOptions(os[..|os| - 1]) + EncodeOption(os[|os| - 1])
  }

  /** The first 24 bytes: SOME/IP header, SD flags and the length of the entries array. */
  function Head(session: uint16, total: nat, entriesLen: nat): (s: seq<byte>)
    requires total >= 8
    ensures |s| == ENTRIES_AT
  {
    EncodeU16(SD_SERVICE) + EncodeU16(SD_METHOD) + EncodeU32(Low32(total - 8))
    + [0x00, 0x00] + EncodeU16(session) + [0x01, 0x01, 0x02, 0x00] + [0xC0, 0x00, 0x00, 0x00]
    + EncodeU32(Low32(entriesLen))
  }

  function TotalSize(es: seq<SdEntry>, os: seq<SdOption>): nat {
    ENTRIES_AT + ENTRY_SIZE * |es| + 4 + OPTION_SIZE * |os|
  }

  /** The serialized message. */
  function Encode(es: seq<SdEntry>, os: seq<SdOption>, session: uint16): (s: seq<byte>)
    ensures |s| == TotalSize(es, os)
  {
    Head(session, TotalSize(es, os), ENTRY_SIZE * |es|) + EncodeEntries(es)
    + EncodeU32(Low32(OPTION_SIZE * |os|)) + EncodeOptions(os)
  }

  lemma HeadFields(s: seq<byte>, session: uint16, total: nat, entriesLen: nat)
    requires total >= 8 && |s| >= ENTRIES_AT && s[..ENTRIES_AT] == Head(session, total, entriesLen)
    ensures U16At(s, 0) == SD_SERVICE && U16At(s, 2) == SD_METHOD
    ensures U32At(s, 4) == Low32(total - 8)
    ensures U16At(s, 10) == session
    ensures U32At(s, 20) == Low32(entriesLen)
    ensures FixedBytes(s)
  {
    var h := s[..ENTRIES_AT];
    assert h[0..2] == EncodeU16(SD_SERVICE) && h[2..4] == EncodeU16(SD_METHOD);
    assert h[4..8] == EncodeU32(Low32(total - 8));
    assert h[10..12] == EncodeU16(session);
    assert h[20..24] == EncodeU32(Low32(entriesLen));
    assert h[8..10] == [0x00, 0x00] && h[12..20] == [0x01, 0x01, 0x02, 0x00, 0xC0, 0x00, 0x00, 0x00];
    assert s[8..10] == h[8..10] && s[12..20] == h[12..20];
    U16Inverse(h, 0, SD_SERVICE);
    U16Inverse(h, 2, SD_METHOD);
    U32Inverse(h, 4, Low32(total - 8));
    U16Inverse(h, 10, session);
    U32Inverse(h, 20, Low32(entriesLen));
  }

  lemma {:induction false} EntryStandsAt(es: seq<SdEntry>, i: nat)
    requires i < |es|
    ensures EncodeEntries(es)[ENTRY_SIZE * i..ENTRY_SIZE * i + ENTRY_SIZE] == EncodeEntry(es[i])
  {
    var init := es[..|es| - 1];
    if i < |init| {
      EntryStandsAt(init, i);
    }
  }

  lemma {:induction false} OptionStandsAt(os: seq<SdOption>, i: nat)
    requires i < |os|
    ensures EncodeOptions(os)[OPTION_SIZE * i..OPTION_SIZE * i + OPTION_SIZE] == EncodeOption(os[i])
  {
    var init := os[..|os| - 1];
    if i < |init| {
      OptionStandsAt(init, i);
    }
  }

  // ---- Reading a message by its own length fields ----

  datatype Parsed = Parsed(session: uint16, entries: seq<SdEntry>, options: seq<SdOption>)

  function EntryAt(s: seq<byte>, i: nat): SdEntry
    requires ENTRIES_AT + ENTRY_SIZE * i + ENTRY_SIZE <= |s|
  {
    DecodeEntry(s[ENTRIES_AT + ENTRY_SIZE * i..ENTRIES_AT + ENTRY_SIZE * i + ENTRY_SIZE])
  }

  function OptionAt(s: seq<byte>, base: nat, i: nat): SdOption
    requires base + OPTION_SIZE * i + OPTION_SIZE <= |s|
  {
    DecodeOption(s[base + OPTION_SIZE * i..base + OPTION_SIZE * i + OPTION_SIZE])
  }

  function EntriesIn(s: seq<byte>, n: nat): (es: seq<SdEntry>)
    requires ENTRIES_AT + ENTRY_SIZE * n <= |s|
    ensures |es| == n
  {
    seq(n, i requires 0 <= i < n => EntryAt(s, i))
  }

  function OptionsIn(s: seq<byte>, base: nat, n: nat): (os: seq<SdOption>)
    requires base + OPTION_SIZE * n <= |s|
    ensures |os| == n
  {
    seq(n, i requires 0 <= i < n => OptionAt(s, base, i))
  }

  /** The bytes of the head that never change: client id, versions, message type, return code and SD flags. */
  predicate FixedBytes(s: seq<byte>) {
    |s| >= 20 && s[8..10] == [0x00, 0x00] && s[12..20] == [0x01, 0x01, 0x02, 0x00, 0xC0, 0x00, 0x00, 0x00]
  }

  /** A strict receiver: every length field must agree with the datagram. */
  function Parse(s: seq<byte>): Option<Parsed> {
    if |s| < ENTRIES_AT + 4 || U16At(s, 0) != SD_SERVICE || U16At(s, 2) != SD_METHOD || !FixedBytes(s) then None
    else if U32At(s, 4) as int != |s| - 8 then None
    else
      var elen := U32At(s, 20);
      if elen % ENTRY_SIZE != 0 || ENTRIES_AT + elen + 4 > |s| then None
      else
        var base := ENTRIES_AT + elen + 4;
        var olen := U32At(s, ENTRIES_AT + elen);
        if olen % OPTION_SIZE != 0 || base + olen != |s| then None
        else Some(Parsed(U16At(s, 10), EntriesIn(s, elen / ENTRY_SIZE), OptionsIn(s, base, olen / OPTION_SIZE)))
  }

  function AllOnWire(es: seq<SdEntry>): (r: seq<SdEntry>)
    ensures |r| == |es| && forall i :: 0 <= i < |es| ==> r[i] == OnWire(es[i])
  {
    seq(|es|, i requires 0 <= i < |es| => OnWire(es[i]))
  }

  /** The entries of a serialized message stand where the entries array begins, one every 16 bytes, also
      when the datagram is cut short behind them. */
  lemma EntryOfEncoding(es: seq<SdEntry>, os: seq<SdOption>, session: uint16, m: nat, i: nat)
    requires m <= TotalSize(es, os)
    requires i < |es| && ENTRIES_AT + ENTRY_SIZE * i + ENTRY_SIZE <= m
    ensures EntryAt(Encode(es, os, session)[..m], i) == OnWire(es[i])
  {
    hide EncodeEntry, DecodeEntry, OnWire, Head, EncodeU32, Low32;
    var s := Encode(es, os, session);
    var lo := ENTRIES_AT + ENTRY_SIZE * i;
    EntryStandsAt(es, i);
    EntryRoundTrip(es[i]);
    assert s[ENTRIES_AT..ENTRIES_AT + ENTRY_SIZE * |es|] == EncodeEntries(es);
    assert s[..m][lo..lo + ENTRY_SIZE] == EncodeEntries(es)[ENTRY_SIZE * i..ENTRY_SIZE * i + ENTRY_SIZE];
  }

  lemma OptionOfEncoding(es: seq<SdEntry>, os: seq<SdOption>, session: uint16, i: nat)
    requires i < |os|
    ensures OptionAt(Encode(es, os, session), ENTRIES_AT + ENTRY_SIZE * |es| + 4, i) == os[i]
  {
    var s := Encode(es, os, session);
    var base := ENTRIES_AT + ENTRY_SIZE * |es| + 4;
    var lo := base + OPTION_SIZE * i;
    OptionStandsAt(os, i);
    OptionRoundTrip(os[i]);
    assert s[base..] == EncodeOptions(os);
    assert s[lo..lo + OPTION_SIZE] == EncodeOptions(os)[OPTION_SIZE * i..OPTION_SIZE * i + OPTION_SIZE];
  }

  lemma EncodingHead(es: seq<SdEntry>, os: seq<SdOption>, session: uint16, m: nat)
    requires ENTRIES_AT <= m <= TotalSize(es, os)
    ensures Encode(es, os, session)[..m][..ENTRIES_AT] == Head(session, TotalSize(es, os), ENTRY_SIZE * |es|)
  {
  }

  lemma EncodingEntries(es: seq<SdEntry>, os: seq<SdOption>, session: uint16)
    ensures EntriesIn(Encode(es, os, session), |es|) == AllOnWire(es)
  {
    var s := Encode(es, os, session);
    assert s[..|s|] == s;
    forall i | 0 <= i < |es| ensures EntryAt(s, i) == OnWire(es[i]) {
      EntryOfEncoding(es, os, session, |s|, i);
    }
  }

  lemma EncodingOptions(es: seq<SdEntry>, os: seq<SdOption>, session: uint16)
    ensures OptionsIn(Encode(es, os, session), ENTRIES_AT + ENTRY_SIZE * |es| + 4, |os|) == os
  {
    forall i | 0 <= i < |os|
      ensures OptionAt(Encode(es, os, session), ENTRIES_AT + ENTRY_SIZE * |es| + 4, i) == os[i]
    {
      OptionOfEncoding(es, os, session, i);
    }
  }

  lemma LengthFields(h: seq<byte>, es: seq<byte>, os: seq<byte>, session: uint16, total: uint32, olen: uint32)
    requires total >= 8 && |es| < 0x1_0000_0000
    requires h == Head(session, total, |es|)
    ensures var s := h + es + EncodeU32(olen) + os;
            && U16At(s, 0) == SD_SERVICE && U16At(s, 2) == SD_METHOD && U16At(s, 10) == session
            && U32At(s, 4) == total - 8 && U32At(s, 20) == |es| && U32At(s, ENTRIES_AT + |es|) == olen
            && FixedBytes(s)
  {
    var s := h + es + EncodeU32(olen) + os;
    assert s[..ENTRIES_AT] == h;
    HeadFields(s, session, total, |es|);
    U32Read(h + es, olen, os);
  }

  lemma EncodingLengths(es: seq<SdEntry>, os: seq<SdOption>, session: uint16)
    requires TotalSize(es, os) < 0x1_0000_0000
    ensures var s := Encode(es, os, session);
            && U16At(s, 0) == SD_SERVICE && U16At(s, 2) == SD_METHOD && U16At(s, 10) == session
            && U32At(s, 4) == |s| - 8
            && U32At(s, 20) == ENTRY_SIZE * |es|
            && U32At(s, ENTRIES_AT + ENTRY_SIZE * |es|) == OPTION_SIZE * |os|
            && FixedBytes(s)
  {
    var total := TotalSize(es, os);
    LengthFields(Head(session, total, ENTRY_SIZE * |es|), EncodeEntries(es), EncodeOptions(os),
                 session, total, OPTION_SIZE * |os|);
  }

  /** Writing and strictly reading a message are inverse: all lengths agree, and every field comes back. */
  lemma MessageRoundTrip(es: seq<SdEntry>, os: seq<SdOption>, session: uint16)
    requires TotalSize(es, os) < 0x1_0000_0000
    ensures Parse(Encode(es, os, session)) == Some(Parsed(session, AllOnWire(es), os))
    ensures U16At(Encode(es, os, session), 0) == 0xFFFF && U16At(Encode(es, os, session), 2) == 0x8100
  {
    hide Parse, Head, EncodeU32, EncodeEntries, EncodeOptions;
    EncodingLengths(es, os, session);
    EncodingEntries(es, os, session);
    EncodingOptions(es, os, session);
    ParseAgreed(Encode(es, os, session), |es|, |os|);
  }

  lemma ParseAgreed(s: seq<byte>, n: nat, k: nat)
    requires |s| == ENTRIES_AT + ENTRY_SIZE * n + 4 + OPTION_SIZE * k
    requires U16At(s, 0) == SD_SERVICE && U16At(s, 2) == SD_METHOD && U32At(s, 4) == |s| - 8 && FixedBytes(s)
    requires U32At(s, 20) == ENTRY_SIZE * n && U32At(s, ENTRIES_AT + ENTRY_SIZE * n) == OPTION_SIZE * k
    ensures Parse(s) == Some(Parsed(U16At(s, 10), EntriesIn(s, n),
                                    OptionsIn(s, ENTRIES_AT + ENTRY_SIZE * n + 4, k)))
  {
    assert ENTRY_SIZE * n / ENTRY_SIZE == n && ENTRY_SIZE * n % ENTRY_SIZE == 0;
    assert OPTION_SIZE * k / OPTION_SIZE == k && OPTION_SIZE * k % OPTION_SIZE == 0;
  }
}
