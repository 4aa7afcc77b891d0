/** The service-discovery message under construction, and its serialization into a byte buffer. */
module SdBuilder {
  import opened Bytes
  import opened SdMessage
  import opened Options

  /** One request to a message under construction. */
  datatype SdItem =
    | Offer(serviceId: uint16, addr: Ipv4, port: uint16, ttl: uint32)
    | Ack(serviceId: uint16, eventgroupId: uint16)

  function OfferEntry(item: SdItem, optionCount: nat): SdEntry
    requires item.Offer?
  {
    SdEntry(OFFER_SERVICE, optionCount % 0x100, 1, item.serviceId, 0x0001, 0x01, item.ttl, 0x0000, 0x0000)
  }

  function AckEntry(item: SdItem): SdEntry
    requires item.Ack?
  {
    SdEntry(SUBSCRIBE_ACK, 0, 0, item.serviceId, 0x0001, 0x01, 3, 0x0000, item.eventgroupId)
  }

  function Endpoint(item: SdItem): SdOption
    requires item.Offer?
  {
    SdOption(IPV4_ENDPOINT, item.addr, UDP, item.port)
  }

  /** The endpoint options a list of requests leaves behind: one for every offer, in order. */
  function OptionsOf(items: seq<SdItem>): seq<SdOption> {
    if items == [] then []
    else
      var before, last := OptionsOf(items[..|items| - 1]), items[|items| - 1];
      if last.Offer? then before + [Endpoint(last)] else before
  }

  /** The entries a list of requests leaves behind: one for each. */
  function EntriesOf(items: seq<SdItem>): (es: seq<SdEntry>)
    ensures |es| == |items|
  {
    if items == [] then []
    else
      var init, last := items[..|items| - 1], items[|items| - 1];
      EntriesOf(init) + [if last.Offer? then OfferEntry(last, |OptionsOf(init)|) else AckEntry(last)]
  }

  class SomeIpSdMessage {
    var entries: seq<SdEntry>
    var options: seq<SdOption>
    ghost var items: seq<SdItem>  // all requests so far

    ghost predicate Valid()
      reads this
    {
      entries == EntriesOf(items) && options == OptionsOf(items)
    }

    constructor ()
      ensures Valid() && items == []
    {
      entries, options, items := [], [], [];
    }

    method AddOfferService(serviceId: uint16, addr: Ipv4, port: uint16, ttl: uint32)
      requires Valid()
      modifies this
      ensures Valid() && items == old(items) + [Offer(serviceId, addr, port, ttl)]
    {
      var entry := SdEntry(OFFER_SERVICE, |options| % 0x100, 1, serviceId, 0x0001, 0x01, ttl, 0x0000, 0x0000);
      entries := entries + [entry];
      var opt := SdOption(IPV4_ENDPOINT, addr, UDP, port);
      options := options + [opt];
      items := items + [Offer(serviceId, addr, port, ttl)];
      assert items[..|items| - 1] == old(items);
    }

    method AddSubscribeAck(serviceId: uint16, eventgroupId: uint16)
      requires Valid()
      modifies this
      ensures Valid() && items == old(items) + [Ack(serviceId, eventgroupId)]
    {
      var entry := SdEntry(SUBSCRIBE_ACK, 0, 0, serviceId, 0x0001, 0x01, 3, 0x0000, eventgroupId);
      entries := entries + [entry];
      items := items + [Ack(serviceId, eventgroupId)];
      assert items[..|items| - 1] == old(items);
    }

    /** Fills a buffer of exactly the size of the message from front to back. */
    method Serialize(sessionId: uint16) returns (bytes: seq<byte>)
      ensures bytes == Encode(entries, options, sessionId)
    {
      hide Head, EncodeEntry, EncodeU32, Low32;
      var entriesLen := |entries| * 16;
      var optionsLen := |options| * 12;
      var total := 16 + 4 + 4 + entriesLen + 4 + optionsLen;
      var buf := new byte[total](_ => 0);

      WriteHead(buf, sessionId, total, entriesLen);
      ghost var head := buf[..ENTRIES_AT];
      var pos := ENTRIES_AT;
      for i := 0 to |entries|
        invariant pos == ENTRIES_AT + ENTRY_SIZE * i
        invariant buf[..pos] == head + EncodeEntries(entries[..i])
      {
        WriteEntry(buf, pos, entries[i]);
        assert entries[..i + 1][..i] == entries[..i];
        Regroup(head, EncodeEntries(entries[..i]), EncodeEntry(entries[i]));
        pos := pos + 16;
      }
      assert entries[..|entries|] == entries;

      WriteAt(buf, pos, EncodeU32(Low32(optionsLen)));
      pos := pos + 4;
      ghost var front := buf[..pos];
      assert front == head + EncodeEntries(entries) + EncodeU32(Low32(optionsLen));
      WriteOptions(buf, pos);
      bytes := buf[..];
    }

    method WriteOptions(buf: array<byte>, at: nat)
      requires buf.Length == at + OPTION_SIZE * |options|
      modifies buf
      ensures buf[..] == old(buf[..at]) + EncodeOptions(options)
    {
      ghost var front := buf[..at];
      var pos := at;
      for i := 0 to |options|
        invariant pos == at + OPTION_SIZE * i
        invariant buf[..pos] == front + EncodeOptions(options[..i])
      {
        WriteOption(buf, pos, options[i]);
        assert options[..i + 1][..i] == options[..i];
        Regroup(front, EncodeOptions(options[..i]), EncodeOption(options[i]));
        pos := pos + 12;
      }
      assert options[..|options|] == options;
      assert buf[..pos] == buf[..];
    }
  }

  lemma Regroup(a: seq<byte>, b: seq<byte>, c: seq<byte>)
    ensures a + b + c == a + (b + c)
  {
  }

  /** SOME/IP header, SD flags and the length of the entries array. */
  method WriteHead(buf: array<byte>, sessionId: uint16, total: nat, entriesLen: nat)
    requires buf.Length == total >= ENTRIES_AT
    modifies buf
    ensures buf[..ENTRIES_AT] == Head(sessionId, total, entriesLen)
  {
    WriteAt(buf, 0, EncodeU16(SD_SERVICE) + EncodeU16(SD_METHOD));
    WriteAt(buf, 4, EncodeU32(Low32(total - 8)));
    WriteAt(buf, 8, [0x00, 0x00] + EncodeU16(sessionId));
    WriteAt(buf, 12, [0x01, 0x01, 0x02, 0x00]);
    WriteAt(buf, 16, [0xC0, 0x00, 0x00, 0x00]);
    WriteAt(buf, 20, EncodeU32(Low32(entriesLen)));
  }

  /** The sixteen bytes of an entry, field by field. */
  method WriteEntry(buf: array<byte>, at: nat, e: SdEntry)
    requires at + ENTRY_SIZE <= buf.Length
    modifies buf
    ensures buf[..at + ENTRY_SIZE] == old(buf[..at]) + EncodeEntry(e)
  {
    WriteAt(buf, at, [e.kind, e.indexFirst, e.numOpts * 16 % 0x100, 0]);
    WriteAt(buf, at + 4, EncodeU16(e.serviceId));
    WriteAt(buf, at + 6, EncodeU16(e.instanceId));
    WriteAt(buf, at + 8, [e.majorVersion]);
    WriteAt(buf, at + 9, EncodeU24(e.ttl));
    WriteAt(buf, at + 12, EncodeU16(e.minorVersion));
    WriteAt(buf, at + 14, EncodeU16(e.eventgroupId));
  }

  /** The twelve bytes of an option, field by field. */
  method WriteOption(buf: array<byte>, at: nat, o: SdOption)
    requires at + OPTION_SIZE <= buf.Length
    modifies buf
    ensures buf[..at + OPTION_SIZE] == old(buf[..at]) + EncodeOption(o)
  {
    WriteAt(buf, at, EncodeU16(9));
    WriteAt(buf, at + 2, [o.kind, 0]);
    WriteAt(buf, at + 4, Quad(o.addr));
    WriteAt(buf, at + 8, [0, o.protocol]);
    WriteAt(buf, at + 10, EncodeU16(o.port));
  }

  // ---- Entries and options belong together ----

  /** A UDP endpoint option for this address and port. */
  ghost predicate IsEndpoint(o: SdOption, addr: Ipv4, port: uint16) {
    o.kind == 0x04 && o.addr == addr && o.protocol == 0x11 && o.port == port
  }

  /** Every offer's own endpoint stands at the position that counts the offers before it, and its entry
      carries that position cut to eight bits; acks refer to no option. */
  lemma {:induction false} EntryAndOption(items: seq<SdItem>, k: nat)
    requires k < |items|
    ensures var e, n := EntriesOf(items)[k], |OptionsOf(items[..k])|;
            && e.serviceId == items[k].serviceId && e.instanceId == 1
            && e.majorVersion == 1 && e.minorVersion == 0
            && (items[k].Offer? ==>
                  && e.kind == 0x01 && e.indexFirst == n % 0x100 && e.numOpts == 1
                  && e.ttl == items[k].ttl && e.eventgroupId == 0
                  && n < |OptionsOf(items)| && IsEndpoint(OptionsOf(items)[n], items[k].addr, items[k].port))
            && (items[k].Ack? ==>
                  && e.kind == 0x07 && e.indexFirst == 0 && e.numOpts == 0
                  && e.ttl == 3 && e.eventgroupId == items[k].eventgroupId)
  {
    var init := items[..|items| - 1];
    if k < |init| {
      EntryAndOption(init, k);
      assert init[..k] == items[..k];
    } else {
      assert items[..k] == init;
    }
  }

  lemma {:induction false} OptionCount(items: seq<SdItem>, k: nat)
    requires k <= |items|
    ensures |OptionsOf(items[..k])| <= |OptionsOf(items)|
    ensures k < |items| && items[k].Offer? ==> |OptionsOf(items[..k])| < |OptionsOf(items)|
  {
    if k < |items| {
      var init := items[..|items| - 1];
      OptionCount(init, k);
      assert init[..k] == items[..k];
    } else {
      assert items[..k] == items;
    }
  }

  /** The last offer before which a given number of offers stand. */
  lemma {:induction false} NthOffer(items: seq<SdItem>, n: nat) returns (k: nat)
    requires n < |OptionsOf(items)|
    ensures k < |items| && items[k].Offer? && |OptionsOf(items[..k])| == n
  {
    var init := items[..|items| - 1];
    if n < |OptionsOf(init)| {
      k := NthOffer(init, n);
      assert init[..k] == items[..k];
    } else {
      k := |init|;
    }
  }

  /** Every offer's entry points at its own endpoint option exactly when the message offers at most 256
      services: with more, the eight-bit index wraps around. */
  lemma IndexIsExactUpTo256(items: seq<SdItem>)
    ensures (forall k :: 0 <= k < |items| && items[k].Offer?
               ==> EntriesOf(items)[k].indexFirst == |OptionsOf(items[..k])|)
            <==> |OptionsOf(items)| <= 0x100
  {
    if |OptionsOf(items)| <= 0x100 {
      forall k | 0 <= k < |items| && items[k].Offer?
        ensures EntriesOf(items)[k].indexFirst == |OptionsOf(items[..k])|
      {
        EntryAndOption(items, k);
        OptionCount(items, k);
      }
    } else {
      var k := NthOffer(items, 0x100);
      EntryAndOption(items, k);
    }
  }

  /** Following the index in the k-th entry of a parsed message leads to the endpoint the offer was made for. */
  ghost predicate LeadsToEndpoint(p: Parsed, k: nat, item: SdItem)
    requires item.Offer?
  {
    && k < |p.entries|
    && var e := p.entries[k];
       && e.kind == 0x01 && e.serviceId == item.serviceId && e.ttl == item.ttl
       && e.instanceId == 1 && e.majorVersion == 1 && e.minorVersion == 0 && e.eventgroupId == 0
       && e.numOpts == 1 && e.indexFirst as int < |p.options|
       && var o := p.options[e.indexFirst];
          o.kind == 0x04 && o.addr == item.addr && o.protocol == 0x11 && o.port == item.port
  }

  lemma {:induction false} IndexLeadsToEndpoint(items: seq<SdItem>, p: Parsed, k: nat)
    requires p.entries == AllOnWire(EntriesOf(items)) && p.options == OptionsOf(items)
    requires |OptionsOf(items)| <= 0x100
    requires k < |items| && items[k].Offer? && items[k].ttl < 0x100_0000
    ensures LeadsToEndpoint(p, k, items[k])
  {
    EntryAndOption(items, k);
    OptionCount(items, k);
  }

  /** A receiver that parses the serialized bytes finds every service's own endpoint, in any message of at
      most 256 offers whose times to live fit 24 bits. */
  lemma {:induction false} ReceiverFindsEndpoint(items: seq<SdItem>, session: uint16, p: Parsed, k: nat)
    requires TotalSize(EntriesOf(items), OptionsOf(items)) < 0x1_0000_0000
    requires |OptionsOf(items)| <= 0x100
    requires k < |items| && items[k].Offer? && items[k].ttl < 0x100_0000
    requires p == Parsed(session, AllOnWire(EntriesOf(items)), OptionsOf(items))
    ensures Parse(Encode(EntriesOf(items), OptionsOf(items), session)) == Some(p)
    ensures LeadsToEndpoint(p, k, items[k])
  {
    MessageRoundTrip(EntriesOf(items), OptionsOf(items), session);
    IndexLeadsToEndpoint(items, p, k);
  }

  /** A message of offers alone has one endpoint option for each, in the same order. */
  lemma {:induction false} OffersAndEndpoints(items: seq<SdItem>, k: nat)
    requires forall item <- items :: item.Offer?
    requires k <= |items|
    ensures |OptionsOf(items[..k])| == k
  {
    if k > 0 {
      OffersAndEndpoints(items, k - 1);
      assert items[..k][..k - 1] == items[..k - 1] && items[k - 1] in items;
    }
  }
}
