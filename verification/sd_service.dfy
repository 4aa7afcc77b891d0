/** The service-discovery endpoint: it offers services, and answers every subscription it is sent. */
module SdService {
  import opened Bytes
  import opened Options
  import opened Sessions
  import opened Sequences
  import opened SdMessage
  import opened SdBuilder

  /** A UDP peer. */
  datatype Address = Address(ip: uint32, port: uint16)
  datatype OfferedService = OfferedService(serviceId: uint16, addr: Ipv4, port: uint16)
  datatype Subscriber = Subscriber(addr: Address, serviceId: uint16, eventgroupId: uint16)
  datatype Datagram = Datagram(to: Address, bytes: seq<byte>)

  const SD_PORT: uint16 := 30490
  const SD_MULTICAST := Address(0xE0E0_E0F5, SD_PORT)
  const MAX_DATAGRAM: nat := 1500
  const DEFAULT_TTL: uint32 := 3

  // ---- Which entries of an arbitrary datagram are looked at ----

  predicate IsSd(buf: seq<byte>) {
    |buf| >= ENTRIES_AT + 4 && U16At(buf, 0) == SD_SERVICE && U16At(buf, 2) == SD_METHOD
  }

  /** The number of whole entries within both the announced length and the bytes at hand. */
  function CountFor(announced: nat, atHand: nat): nat {
    (if announced <= atHand then announced else atHand) / ENTRY_SIZE
  }

  /** The number of entries looked at: those that the length field announces and the datagram holds. */
  function VisitCount(buf: seq<byte>): (n: nat)
    requires IsSd(buf)
    ensures ENTRIES_AT + ENTRY_SIZE * n <= |buf|
  {
    CountFor(U32At(buf, 20), |buf| - ENTRIES_AT)
  }

  function Visited(buf: seq<byte>): seq<SdEntry> {
    if IsSd(buf) then EntriesIn(buf, VisitCount(buf)) else []
  }

  /** The subscriptions among a list of entries, in order. */
  function SubscribersIn(es: seq<SdEntry>, from: Address): seq<Subscriber> {
    if es == [] then []
    else
      var before, e := SubscribersIn(es[..|es| - 1], from), es[|es| - 1];
      if e.kind == SUBSCRIBE_EVENTGROUP then before + [Subscriber(from, e.serviceId, e.eventgroupId)] else before
  }

  function Subscriptions(buf: seq<byte>, from: Address): seq<Subscriber> {
    SubscribersIn(Visited(buf), from)
  }

  ghost predicate Ascending(at: seq<nat>, bound: nat) {
    && (forall j :: 0 <= j < |at| ==> at[j] < bound)
    && (forall j, k :: 0 <= j < k < |at| ==> at[j] < at[k])
  }

  /** The entries, by their first byte, that ask for a subscription: those among the first
      min(announced, at hand) / 16 whose type byte is 0x06. */
  ghost predicate AreRequests(buf: seq<byte>, at: seq<nat>) {
    && Ascending(at, |buf|)
    && (forall p :: p in at <==> exists i: nat :: p == 24 + 16 * i && HoldsRequest(buf, i))
  }

  ghost predicate HoldsRequest(buf: seq<byte>, i: nat) {
    && |buf| >= 28 && U16At(buf, 0) == 0xFFFF && U16At(buf, 2) == 0x8100
    && 16 * i + 16 <= U32At(buf, 20) && 24 + 16 * i + 16 <= |buf|
    && buf[24 + 16 * i] == 0x06
  }

  /** The subscriber that the entry at p asks for, with the service at its offset 4 and the eventgroup at 14. */
  ghost predicate RequestedAt(buf: seq<byte>, from: Address, sub: Subscriber, p: nat) {
    && p + 16 <= |buf|
    && sub.addr == from && sub.serviceId == U16At(buf, p + 4) && sub.eventgroupId == U16At(buf, p + 14)
  }

  ghost predicate AskedAt(buf: seq<byte>, from: Address, subs: seq<Subscriber>, at: seq<nat>) {
    |subs| == |at| && forall j :: 0 <= j < |at| ==> RequestedAt(buf, from, subs[j], at[j])
  }

  /** The subscribers a datagram brings, said of its bytes: one for each request, in order. */
  ghost predicate AskedFor(buf: seq<byte>, from: Address, subs: seq<Subscriber>) {
    exists at :: AreRequests(buf, at) && AskedAt(buf, from, subs, at)
  }

  /** The answer to a subscription. */
  function AckDatagram(sub: Subscriber, session: uint16): Datagram {
    Datagram(sub.addr, Encode(EntriesOf([Ack(sub.serviceId, sub.eventgroupId)]), [], session))
  }

  // ---- What the datagrams sent so far say, read from their bytes ----

  function SessionIn(d: Datagram): uint16 {
    if |d.bytes| < 12 then 0 else U16At(d.bytes, 10)
  }

  /** The subscription a datagram acknowledges to its receiver, if it is an acknowledgement. */
  function Acknowledged(d: Datagram): Option<Subscriber> {
    var es := Visited(d.bytes);
    if |es| == 1 && es[0].kind == SUBSCRIBE_ACK then Some(Subscriber(d.to, es[0].serviceId, es[0].eventgroupId))
    else None
  }

  function AllAcknowledged(ds: seq<Datagram>): seq<Subscriber> {
    if ds == [] then []
    else
      var before, a := AllAcknowledged(ds[..|ds| - 1]), Acknowledged(ds[|ds| - 1]);
      if a.Some? then before + [a.value] else before
  }

  ghost predicate Numbered(ds: seq<Datagram>) {
    forall k :: 0 <= k < |ds| ==> SessionIn(ds[k]) == SessionOf(k)
  }

  // ---- Builder and walker agree ----

  /** The walker, let loose on a message the gateway built, sees its entries in order and never an option byte,
      wherever the datagram is cut; uncut, it sees all of them. */
  lemma WalkerSeesEntries(es: seq<SdEntry>, os: seq<SdOption>, session: uint16, m: nat)
    requires ENTRIES_AT + 4 <= m <= TotalSize(es, os)
    ensures IsSd(Encode(es, os, session)[..m])
    ensures Visited(Encode(es, os, session)[..m]) <= AllOnWire(es)
    ensures m == TotalSize(es, os) < 0x1_0000_0000 ==> Visited(Encode(es, os, session)[..m]) == AllOnWire(es)
  {
    var s := Encode(es, os, session)[..m];
    EncodingHead(es, os, session, m);
    HeadFields(s, session, TotalSize(es, os), ENTRY_SIZE * |es|);
    CountWithin(s, |es|);
    var n := VisitCount(s);
    forall i | 0 <= i < n ensures EntryAt(s, i) == OnWire(es[i]) {
      EntryOfEncoding(es, os, session, m, i);
    }
  }

  lemma CountWithin(s: seq<byte>, n: nat)
    requires IsSd(s) && U32At(s, 20) == Low32(ENTRY_SIZE * n)
    ensures VisitCount(s) <= n
    ensures ENTRY_SIZE * n < 0x1_0000_0000 && ENTRIES_AT + ENTRY_SIZE * n <= |s| ==> VisitCount(s) == n
  {
    assert U32At(s, 20) <= ENTRY_SIZE * n;
    assert ENTRY_SIZE * n / ENTRY_SIZE == n;
  }

  lemma {:induction false} NoSubscribers(es: seq<SdEntry>, from: Address)
    requires forall e <- es :: e.kind != SUBSCRIBE_EVENTGROUP
    ensures SubscribersIn(es, from) == []
  {
    if es != [] {
      NoSubscribers(es[..|es| - 1], from);
    }
  }

  lemma BuiltKinds(items: seq<SdItem>, i: nat)
    requires i < |items|
    ensures EntriesOf(items)[i].kind == if items[i].Offer? then OFFER_SERVICE else SUBSCRIBE_ACK
  {
    EntryAndOption(items, i);
  }

  /** No self-triggering: a message the gateway builds, whole or cut off, asks for no subscription when it
      comes back; neither does anything shorter than an empty discovery message. */
  lemma OwnMessagesAskNothing(items: seq<SdItem>, session: uint16, m: nat, from: Address)
    requires m <= TotalSize(EntriesOf(items), OptionsOf(items))
    ensures Subscriptions(Encode(EntriesOf(items), OptionsOf(items), session)[..m], from) == []
  {
    var es := EntriesOf(items);
    var s := Encode(es, OptionsOf(items), session)[..m];
    if m >= ENTRIES_AT + 4 {
      WalkerSeesEntries(es, OptionsOf(items), session, m);
      forall e | e in Visited(s) ensures e.kind != SUBSCRIBE_EVENTGROUP {
        var i :| 0 <= i < |Visited(s)| && Visited(s)[i] == e;
        BuiltKinds(items, i);
      }
      NoSubscribers(Visited(s), from);
    }
  }

  lemma EncodedSession(es: seq<SdEntry>, os: seq<SdOption>, session: uint16, to: Address)
    ensures SessionIn(Datagram(to, Encode(es, os, session))) == session
  {
    var s := Encode(es, os, session);
    assert s[..|s|] == s;
    EncodingHead(es, os, session, |s|);
    HeadFields(s, session, |s|, ENTRY_SIZE * |es|);
  }

  lemma AckSaysSo(sub: Subscriber, session: uint16)
    ensures SessionIn(AckDatagram(sub, session)) == session
    ensures Acknowledged(AckDatagram(sub, session)) == Some(sub)
  {
    var item := Ack(sub.serviceId, sub.eventgroupId);
    var es := EntriesOf([item]);
    var s := Encode(es, [], session);
    EncodedSession(es, [], session, sub.addr);
    EntryAndOption([item], 0);
    assert es[0] == AckEntry(item);
    assert s[..|s|] == s;
    WalkerSeesEntries(es, [], session, |s|);
  }

  /** A datagram in which a strict receiver finds one entry, without options, that accepts a subscription: a
      time to live of 3, where 0 would refuse it. */
  ghost predicate Accepts(d: Datagram, sub: Subscriber) {
    && d.to == sub.addr
    && var p := Parse(d.bytes);
       && p.Some? && |p.value.entries| == 1 && p.value.options == []
       && var e := p.value.entries[0];
          && e.kind == 0x07 && e.serviceId == sub.serviceId && e.eventgroupId == sub.eventgroupId && e.ttl == 3
          && e.instanceId == 1 && e.majorVersion == 1 && e.minorVersion == 0 && e.indexFirst == 0 && e.numOpts == 0
  }

  lemma {:induction false} AckAccepts(sub: Subscriber, session: uint16)
    ensures Accepts(AckDatagram(sub, session), sub)
  {
    var items := [Ack(sub.serviceId, sub.eventgroupId)];
    assert OptionsOf(items) == OptionsOf(items[..0]) == [];
    AckEntryAccepts(items);
    hide Parse, Encode, EntriesOf, OptionsOf, AllOnWire;
    MessageRoundTrip(EntriesOf(items), [], session);
  }

  lemma {:induction false} AckEntryAccepts(items: seq<SdItem>)
    requires |items| == 1 && items[0].Ack?
    ensures |AllOnWire(EntriesOf(items))| == 1
    ensures var e := AllOnWire(EntriesOf(items))[0];
            && e.kind == 0x07 && e.serviceId == items[0].serviceId && e.eventgroupId == items[0].eventgroupId
            && e.ttl == 3 && e.instanceId == 1 && e.majorVersion == 1 && e.minorVersion == 0
            && e.indexFirst == 0 && e.numOpts == 0
  {
    hide EntriesOf, OptionsOf;
    EntryAndOption(items, 0);
  }

  lemma OfferIsNoAck(items: seq<SdItem>, session: uint16, to: Address)
    requires forall item <- items :: item.Offer?
    ensures Acknowledged(Datagram(to, Encode(EntriesOf(items), OptionsOf(items), session))) == None
  {
    var s := Encode(EntriesOf(items), OptionsOf(items), session);
    assert s[..|s|] == s;
    WalkerSeesEntries(EntriesOf(items), OptionsOf(items), session, |s|);
    if |Visited(s)| == 1 {
      BuiltKinds(items, 0);
    }
  }

  lemma OfferSaysSo(offered: seq<OfferedService>, session: uint16)
    ensures SessionIn(OfferDatagram(offered, session)) == session
    ensures Acknowledged(OfferDatagram(offered, session)) == None
  {
    var items := OfferItems(offered);
    EncodedSession(EntriesOf(items), OptionsOf(items), session, SD_MULTICAST);
    OfferIsNoAck(items, session, SD_MULTICAST);
  }

  /** The k-th entry of a parsed message offers this service, and the k-th option is its endpoint. */
  ghost predicate ListsService(p: Parsed, k: nat, service: OfferedService)
    requires k < |p.entries| == |p.options|
  {
    var e, o := p.entries[k], p.options[k];
    && e.kind == 0x01 && e.serviceId == service.serviceId && e.instanceId == 1
    && e.majorVersion == 1 && e.minorVersion == 0 && e.ttl == 3 && e.eventgroupId == 0
    && e.numOpts == 1 && e.indexFirst == k % 0x100
    && o.kind == 0x04 && o.addr == service.addr && o.protocol == 0x11 && o.port == service.port
  }

  /** A datagram to 224.224.224.245, port 30490, in which a strict receiver finds exactly these services
      offered, in order, each with its own id, address and port. */
  ghost predicate Announces(d: Datagram, services: seq<OfferedService>) {
    && d.to == Address(0xE0E0_E0F5, 30490)
    && var p := Parse(d.bytes);
       && p.Some? && |p.value.entries| == |p.value.options| == |services|
       && forall k :: 0 <= k < |services| ==> ListsService(p.value, k, services[k])
  }

  lemma {:induction false} OfferListsAt(offered: seq<OfferedService>, p: Parsed, k: nat)
    requires var items := OfferItems(offered);
             p.entries == AllOnWire(EntriesOf(items)) && p.options == OptionsOf(items)
    requires k < |offered| == |p.options|
    ensures ListsService(p, k, offered[k])
  {
    var items := OfferItems(offered);
    assert items[k] == Offer(offered[k].serviceId, offered[k].addr, offered[k].port, DEFAULT_TTL);
    hide OfferItems;
    OffersAndEndpoints(items, k);
    EntryAndOption(items, k);
  }

  lemma {:induction false} OfferLists(offered: seq<OfferedService>, session: uint16)
    requires 28 + 28 * |offered| < 0x1_0000_0000
    ensures Announces(OfferDatagram(offered, session), offered)
  {
    var items := OfferItems(offered);
    var es, os := EntriesOf(items), OptionsOf(items);
    hide Parse, Encode, EntriesOf, OptionsOf, ListsService, AllOnWire, OfferItems;
    OffersAndEndpoints(items, |items|);
    assert items[..|items|] == items;
    MessageRoundTrip(es, os, session);
    var p := Parsed(session, AllOnWire(es), os);
    forall k | 0 <= k < |offered| ensures ListsService(p, k, offered[k]) {
      OfferListsAt(offered, p, k);
    }
  }

  /** How a subscription is answered under a session id. */
  type AckFormat = (Subscriber, uint16) -> Datagram

  /** The acknowledgements for a list of subscribers, when n datagrams went out before. */
  function Acks(format: AckFormat, subs: seq<Subscriber>, n: nat): (ds: seq<Datagram>)
    ensures |ds| == |subs|
  {
    if subs == [] then []
    else
      var k := |subs| - 1;
      Acks(format, subs[..k], n) + [format(subs[k], SessionOf(n + k))]
  }

  /** The i-th subscriber is acknowledged by the i-th datagram. */
  lemma {:induction false} AckAt(format: AckFormat, subs: seq<Subscriber>, n: nat, i: nat)
    requires i < |subs|
    ensures Acks(format, subs, n)[i] == format(subs[i], SessionOf(n + i))
  {
    var k := |subs| - 1;
    if i < k {
      AckAt(format, subs[..k], n, i);
    }
  }

  lemma SubscribersSnoc(es: seq<SdEntry>, i: nat, from: Address)
    requires i < |es|
    ensures SubscribersIn(es[..i + 1], from) == SubscribersIn(es[..i], from) + SubscribersIn([es[i]], from)
  {
    assert es[..i + 1][..i] == es[..i];
    assert SubscribersIn([es[i]][..0], from) == [];
  }

  lemma {:induction false} AcksAppend(format: AckFormat, n: nat, a: seq<Subscriber>, b: seq<Subscriber>)
    ensures Acks(format, a + b, n) == Acks(format, a, n) + Acks(format, b, n + |a|)
    decreases |b|
  {
    if b == [] {
      assert a + b == a;
    } else {
      var k := |b| - 1;
      assert (a + b)[..|a| + k] == a + b[..k];
      AcksAppend(format, n, a, b[..k]);
    }
  }

  /** One more entry in the ledger of subscribers and datagrams. */
  lemma {:induction false} WalkStep(format: AckFormat, es: seq<SdEntry>, i: nat, from: Address,
                                    subs: seq<Subscriber>, ds: seq<Datagram>)
    requires i < |es|
    ensures var before, here := SubscribersIn(es[..i], from), SubscribersIn([es[i]], from);
            var after := SubscribersIn(es[..i + 1], from);
            && (subs + before) + here == subs + after
            && (ds + Acks(format, before, |ds|)) + Acks(format, here, |ds + Acks(format, before, |ds|)|)
               == ds + Acks(format, after, |ds|)
  {
    hide *;
    var before, here := SubscribersIn(es[..i], from), SubscribersIn([es[i]], from);
    var acks := Acks(format, before, |ds|);
    SubscribersSnoc(es, i, from);
    AcksAppend(format, |ds|, before, here);
    Associates(subs, before, here);
    Associates(ds, acks, Acks(format, here, |ds| + |acks|));
  }

  lemma Associates<T>(a: seq<T>, b: seq<T>, c: seq<T>)
    ensures (a + b) + c == a + (b + c) && |a + b| == |a| + |b|
  {
  }

  lemma {:induction false} CountIs(announced: nat, atHand: nat, i: nat)
    ensures ENTRY_SIZE * i + ENTRY_SIZE <= announced && ENTRY_SIZE * i + ENTRY_SIZE <= atHand
            <==> i < CountFor(announced, atHand)
  {
  }

  lemma {:induction false} VisitedAt(buf: seq<byte>, pos: nat, i: nat)
    requires IsSd(buf) && pos == ENTRIES_AT + ENTRY_SIZE * i && i < VisitCount(buf)
    ensures pos + ENTRY_SIZE <= |buf| && i < |Visited(buf)| && Visited(buf)[i] == DecodeEntry(buf[pos..pos + ENTRY_SIZE])
  {
    assert Visited(buf)[i] == EntryAt(buf, i);
  }

  /** The loop guard of the walk holds exactly while there is an entry to look at, and the entry stands there. */
  lemma {:induction false} WalkGuard(buf: seq<byte>, pos: nat, i: nat)
    requires IsSd(buf) && pos == ENTRIES_AT + ENTRY_SIZE * i
    ensures pos + ENTRY_SIZE <= ENTRIES_AT + U32At(buf, 20) && pos + ENTRY_SIZE <= |buf| <==> i < |Visited(buf)|
    ensures i < |Visited(buf)| ==> Visited(buf)[i] == DecodeEntry(buf[pos..pos + ENTRY_SIZE])
  {
    CountIs(U32At(buf, 20), |buf| - ENTRIES_AT, i);
    assert |Visited(buf)| == CountFor(U32At(buf, 20), |buf| - ENTRIES_AT);
    if i < |Visited(buf)| {
      VisitedAt(buf, pos, i);
    }
  }

  lemma {:induction false} RequestIsVisited(buf: seq<byte>, i: nat)
    ensures HoldsRequest(buf, i) <==> i < |Visited(buf)| && Visited(buf)[i].kind == 0x06
    ensures HoldsRequest(buf, i) ==>
      Visited(buf)[i].serviceId == U16At(buf, 24 + 16 * i + 4) && Visited(buf)[i].eventgroupId == U16At(buf, 24 + 16 * i + 14)
  {
    assert IsSd(buf) <==> |buf| >= 28 && U16At(buf, 0) == 0xFFFF && U16At(buf, 2) == 0x8100;
    assert !IsSd(buf) ==> Visited(buf) == [];
    hide Visited, DecodeEntry, U16At, U32At, IsSd;
    if IsSd(buf) {
      var p := 24 + 16 * i;
      WalkGuard(buf, p, i);
      if i < |Visited(buf)| {
        EntryFields(buf, p);
      }
    }
  }

  lemma {:induction false} EntryFields(buf: seq<byte>, p: nat)
    requires p + 16 <= |buf|
    ensures var e := DecodeEntry(buf[p..p + 16]);
            e.kind == buf[p] && e.serviceId == U16At(buf, p + 4) && e.eventgroupId == U16At(buf, p + 14)
  {
  }

  /** Where the requests among the first n entries begin. */
  ghost function RequestsAt(buf: seq<byte>, n: nat): seq<nat> {
    if n == 0 then []
    else RequestsAt(buf, n - 1) + RequestAt(buf, n - 1)
  }

  lemma {:induction false} RequestsInOrder(buf: seq<byte>, n: nat)
    ensures Ascending(RequestsAt(buf, n), 24 + 16 * n)
  {
    hide HoldsRequest;
    if n > 0 {
      RequestsInOrder(buf, n - 1);
    }
  }

  lemma {:induction false} AllRequests(buf: seq<byte>, n: nat, p: nat)
    ensures p in RequestsAt(buf, n) <==> exists i: nat :: i < n && p == 24 + 16 * i && HoldsRequest(buf, i)
  {
    hide HoldsRequest;
    if n > 0 {
      AllRequests(buf, n - 1, p);
    }
  }

  ghost function RequestAt(buf: seq<byte>, i: nat): seq<nat> {
    if HoldsRequest(buf, i) then [24 + 16 * i] else []
  }

  lemma {:induction false} EntryAsksAtItsPlace(buf: seq<byte>, from: Address, i: nat)
    ensures i < |Visited(buf)| ==> AskedAt(buf, from, SubscribersIn([Visited(buf)[i]], from), RequestAt(buf, i))
  {
    hide Visited, HoldsRequest, SubscribersIn, U16At;
    RequestIsVisited(buf, i);
    if HoldsRequest(buf, i) {
      RequestFits(buf, i);
    }
    if i < |Visited(buf)| {
      OneEntry(Visited(buf)[i], from);
    }
  }

  lemma OneEntry(e: SdEntry, from: Address)
    ensures SubscribersIn([e], from)
            == if e.kind == 0x06 then [Subscriber(from, e.serviceId, e.eventgroupId)] else []
  {
    assert [e][..0] == [];
  }

  lemma RequestFits(buf: seq<byte>, i: nat)
    requires HoldsRequest(buf, i)
    ensures 24 + 16 * i + 16 <= |buf|
  {
  }

  lemma {:induction false} AskedMore(buf: seq<byte>, from: Address, subs: seq<Subscriber>, at: seq<nat>,
                                     here: seq<Subscriber>, more: seq<nat>)
    requires AskedAt(buf, from, subs, at) && AskedAt(buf, from, here, more)
    ensures AskedAt(buf, from, subs + here, at + more)
  {
    hide RequestedAt;
  }

  lemma NoRequestsYet(buf: seq<byte>, from: Address, es: seq<SdEntry>)
    ensures AskedAt(buf, from, SubscribersIn(es[..0], from), RequestsAt(buf, 0))
  {
  }

  lemma OneMoreRequest(buf: seq<byte>, n: nat)
    ensures RequestsAt(buf, n + 1) == RequestsAt(buf, n) + RequestAt(buf, n)
  {
  }

  lemma {:induction false} RequestsAreSubscriptions(buf: seq<byte>, from: Address, n: nat)
    requires n <= |Visited(buf)|
    ensures AskedAt(buf, from, SubscribersIn(Visited(buf)[..n], from), RequestsAt(buf, n))
  {
    hide *;
    var es := Visited(buf);
    if n == 0 {
      NoRequestsYet(buf, from, es);
    } else {
      RequestsAreSubscriptions(buf, from, n - 1);
      EntryAsksAtItsPlace(buf, from, n - 1);
      SubscribersSnoc(es, n - 1, from);
      OneMoreRequest(buf, n - 1);
      AskedMore(buf, from, SubscribersIn(es[..n - 1], from), RequestsAt(buf, n - 1),
                SubscribersIn([es[n - 1]], from), RequestAt(buf, n - 1));
    }
  }

  lemma {:induction false} RequestsAreAll(buf: seq<byte>, p: nat)
    ensures p in RequestsAt(buf, |Visited(buf)|) <==> exists i: nat :: p == 24 + 16 * i && HoldsRequest(buf, i)
  {
    AllRequests(buf, |Visited(buf)|, p);
    forall i: nat | HoldsRequest(buf, i) ensures i < |Visited(buf)| {
      RequestIsVisited(buf, i);
    }
    hide HoldsRequest, Visited, RequestsAt;
  }

  /** The subscriptions of any datagram, said of its bytes. */
  lemma {:induction false} SubscriptionsInBytes(buf: seq<byte>, from: Address)
    ensures AskedFor(buf, from, Subscriptions(buf, from))
  {
    var n, at := |Visited(buf)|, RequestsAt(buf, |Visited(buf)|);
    assert if n == 0 then at == [] else 24 + 16 * n <= |buf|;
    hide HoldsRequest, RequestsAt, AskedAt, Visited, SubscribersIn;
    RequestsInOrder(buf, n);
    RequestsAreSubscriptions(buf, from, n);
    assert Visited(buf)[..n] == Visited(buf);
    forall p: nat ensures p in at <==> exists i: nat :: p == 24 + 16 * i && HoldsRequest(buf, i) {
      RequestsAreAll(buf, p);
    }
    assert AreRequests(buf, at) && AskedAt(buf, from, Subscriptions(buf, from), at);
  }

  // ---- The service ----

  class SomeIpSdService {
    var session: uint16
    var offered: seq<OfferedService>
    var subscribers: seq<Subscriber>
    var sent: seq<Datagram>  // what went out on the socket

    /** Over every run: the datagrams are numbered in the order they went out, and the acknowledgements among
        them, read back from their bytes, are exactly the subscribers in the order they joined. */
    ghost predicate Valid()
      reads this
    {
      session == SessionOf(|sent|) && Numbered(sent) && AllAcknowledged(sent) == subscribers
    }

    constructor ()
      ensures Valid() && offered == [] && subscribers == [] && sent == []
    {
      session, offered, subscribers, sent := 1, [], [], [];
    }

    method OfferService(serviceId: uint16, addr: Ipv4, port: uint16)
      requires Valid()
      modifies this`offered
      ensures Valid() && offered == old(offered) + [OfferedService(serviceId, addr, port)]
    {
      offered := offered + [OfferedService(serviceId, addr, port)];
    }

    /** sendto */
    method Send(to: Address, bytes: seq<byte>)
      modifies this`sent
      ensures sent == old(sent) + [Datagram(to, bytes)]
    {
      sent := sent + [Datagram(to, bytes)];
    }

    method BuildOffers() returns (bytes: seq<byte>)
      ensures Datagram(SD_MULTICAST, bytes) == OfferDatagram(offered, session)
    {
      var sdMsg := new SomeIpSdMessage();
      for i := 0 to |offered|
        invariant fresh(sdMsg) && sdMsg.Valid() && sdMsg.items == OfferItems(offered[..i])
      {
        sdMsg.AddOfferService(offered[i].serviceId, offered[i].addr, offered[i].port, DEFAULT_TTL);
      }
      assert offered[..|offered|] == offered;
      bytes := sdMsg.Serialize(session);
    }

    /** One multicast datagram that offers everything, or nothing at all when nothing is offered. */
    method SendOffers()
      requires Valid()
      modifies this`session, this`sent
      ensures Valid()
      ensures sent == if offered == [] then old(sent)
                      else old(sent) + [OfferDatagram(offered, SessionOf(|old(sent)|))]
      ensures offered != [] && 28 + 28 * |offered| < 0x1_0000_0000 ==> Announces(sent[|old(sent)|], offered)
    {
      hide Announces;
      if 28 + 28 * |offered| < 0x1_0000_0000 {
        OfferLists(offered, session);
      }
      if offered == [] {
        return;
      }
      var bytes := BuildOffers();
      OfferSaysSo(offered, session);
      Announce(SD_MULTICAST, bytes);
    }

    /** A datagram under the current session id that acknowledges nothing. */
    method Announce(to: Address, bytes: seq<byte>)
      requires Valid()
      requires SessionIn(Datagram(to, bytes)) == session && Acknowledged(Datagram(to, bytes)) == None
      modifies this`session, this`sent
      ensures Valid() && sent == old(sent) + [Datagram(to, bytes)]
    {
      session := Bump(session);
      Send(to, bytes);
      assert sent[..|sent| - 1] == old(sent);
    }

    method SendSubscribeAck(to: Address, serviceId: uint16, eventgroupId: uint16)
      requires session == SessionOf(|sent|)
      modifies this`session, this`sent
      ensures session == SessionOf(|sent|)
      ensures sent == old(sent) + [AckDatagram(Subscriber(to, serviceId, eventgroupId), SessionOf(|old(sent)|))]
      ensures Accepts(sent[|old(sent)|], Subscriber(to, serviceId, eventgroupId))
    {
      AckAccepts(Subscriber(to, serviceId, eventgroupId), session);
      hide Accepts;
      var ack := new SomeIpSdMessage();
      ack.AddSubscribeAck(serviceId, eventgroupId);
      assert ack.items == [Ack(serviceId, eventgroupId)];
      assert OptionsOf(ack.items) == OptionsOf(ack.items[..0]) == [];
      var bytes := ack.Serialize(session);
      session := Bump(session);
      Send(to, bytes);
    }

    /** Registers a subscriber and acknowledges it; the two lists grow together. */
    method Subscribe(from: Address, serviceId: uint16, eventgroupId: uint16)
      requires Valid()
      modifies this`subscribers, this`session, this`sent
      ensures Valid()
      ensures var sub := Subscriber(from, serviceId, eventgroupId);
              && subscribers == old(subscribers) + [sub]
              && sent == old(sent) + [AckDatagram(sub, SessionOf(|old(sent)|))]
    {
      hide AckDatagram, SessionIn, Acknowledged;
      var sub := Subscriber(from, serviceId, eventgroupId);
      subscribers := subscribers + [sub];
      AckSaysSo(sub, session);
      SendSubscribeAck(from, serviceId, eventgroupId);
      assert sent[..|sent| - 1] == old(sent);
    }

    /** One entry, read in place. */
    method VisitEntry(buf: seq<byte>, pos: nat, from: Address, ghost e: SdEntry)
      requires Valid() && pos + ENTRY_SIZE <= |buf| && e == DecodeEntry(buf[pos..pos + ENTRY_SIZE])
      modifies this`subscribers, this`session, this`sent
      ensures Valid()
      ensures var here := SubscribersIn([e], from);
              subscribers == old(subscribers) + here && sent == old(sent) + Acks(AckDatagram, here, |old(sent)|)
    {
      assert SubscribersIn([e][..0], from) == [];
      var entryType := buf[pos];
      var entrySvcId := U16At(buf, pos + 4);
      var eventgroupId := U16At(buf, pos + 14);
      assert e.kind == entryType && e.serviceId == entrySvcId && e.eventgroupId == eventgroupId;
      if entryType == SUBSCRIBE_EVENTGROUP {
        Subscribe(from, entrySvcId, eventgroupId);
      }
    }

    /** Walks the entries of an arbitrary datagram. Exactly the subscriptions among the entries it holds are
        registered, in order, and each is acknowledged once. */
    method HandleSdMessage(buf: seq<byte>, from: Address)
      requires Valid()
      modifies this`subscribers, this`session, this`sent
      ensures Valid()
      ensures old(subscribers) <= subscribers
              && AskedFor(buf, from, subscribers[|old(subscribers)|..])
      ensures subscribers == old(subscribers) + Subscriptions(buf, from)
      ensures sent == old(sent) + Acks(AckDatagram, Subscriptions(buf, from), |old(sent)|)
    {
      SubscriptionsInBytes(buf, from);
      hide AskedFor;
      assert (subscribers + Subscriptions(buf, from))[|subscribers|..] == Subscriptions(buf, from);
      if |buf| < 28 {
        assert subscribers == subscribers + Subscriptions(buf, from);
        return;
      }
      var svcId: uint16 := buf[0] as int * 0x100 + buf[1];
      var metId: uint16 := buf[2] as int * 0x100 + buf[3];
      if svcId != SD_SERVICE || metId != SD_METHOD {
        assert subscribers == subscribers + Subscriptions(buf, from);
        return;
      }
      var pos: nat := 16 + 4;
      var entriesLen: nat := U32At(buf, pos);
      pos := pos + 4;
      WalkEntries(buf, pos + entriesLen, from);
    }

    method WalkEntries(buf: seq<byte>, entriesEnd: nat, from: Address)
      requires Valid() && IsSd(buf) && entriesEnd == ENTRIES_AT + U32At(buf, 20)
      modifies this`subscribers, this`session, this`sent
      ensures Valid()
      ensures subscribers == old(subscribers) + Subscriptions(buf, from)
      ensures sent == old(sent) + Acks(AckDatagram, Subscriptions(buf, from), |old(sent)|)
    {
      hide DecodeEntry, EntryAt, AckDatagram, SessionIn, Acknowledged, VisitCount, EntriesIn;
      ghost var es, i := Visited(buf), 0;
      var pos := ENTRIES_AT;
      WalkGuard(buf, pos, i);
      while pos + 16 <= entriesEnd && pos + 16 <= |buf|
        invariant 0 <= i <= |es| && pos == ENTRIES_AT + ENTRY_SIZE * i
        invariant pos + 16 <= entriesEnd && pos + 16 <= |buf| <==> i < |es|
        invariant i < |es| ==> es[i] == DecodeEntry(buf[pos..pos + ENTRY_SIZE])
        invariant Valid()
        invariant subscribers == old(subscribers) + SubscribersIn(es[..i], from)
        invariant sent == old(sent) + Acks(AckDatagram, SubscribersIn(es[..i], from), |old(sent)|)
        decreases |es| - i
      {
        WalkStep(AckDatagram, es, i, from, old(subscribers), old(sent));
        VisitEntry(buf, pos, from, es[i]);
        pos := pos + 16;
        i := i + 1;
        WalkGuard(buf, pos, i);
      }
      assert es[..|es|] == es;
    }

    /** recvfrom into a buffer of 1500 bytes cuts longer datagrams; a failed read is ignored. */
    method OnReadable(incoming: Option<seq<byte>>, from: Address)
      requires Valid()
      modifies this`subscribers, this`session, this`sent
      ensures Valid()
      ensures old(subscribers) <= subscribers && Brings(incoming, from, subscribers[|old(subscribers)|..])
      ensures subscribers == old(subscribers) + Heard(incoming, from)
      ensures sent == old(sent) + Acks(AckDatagram, Heard(incoming, from), |old(sent)|)
    {
      HeardInBytes(incoming, from);
      assert (subscribers + Heard(incoming, from))[|subscribers|..] == Heard(incoming, from);
      hide Brings;
      if incoming.None? {
        return;
      }
      HandleSdMessage(Cut(incoming.value), from);
    }
  }

  /** What one read yields of a datagram. */
  function Cut(bytes: seq<byte>): (r: seq<byte>)
    ensures r <= bytes && |r| == if |bytes| <= 1500 then |bytes| else 1500
  {
    if |bytes| <= MAX_DATAGRAM then bytes else bytes[..MAX_DATAGRAM]
  }

  /** The subscriptions in what one read of the socket yields. */
  function Heard(incoming: Option<seq<byte>>, from: Address): seq<Subscriber> {
    if incoming.None? then [] else Subscriptions(Cut(incoming.value), from)
  }

  /** The subscribers one read of the socket brings, said of the bytes that were read. */
  ghost predicate Brings(incoming: Option<seq<byte>>, from: Address, subs: seq<Subscriber>) {
    if incoming.None? then subs == [] else AskedFor(Cut(incoming.value), from, subs)
  }

  lemma HeardInBytes(incoming: Option<seq<byte>>, from: Address)
    ensures Brings(incoming, from, Heard(incoming, from))
  {
    if incoming.Some? {
      SubscriptionsInBytes(Cut(incoming.value), from);
    }
  }

  function OfferItems(offered: seq<OfferedService>): (items: seq<SdItem>)
    ensures |items| == |offered| && forall item <- items :: item.Offer?
  {
    seq(|offered|, i requires 0 <= i < |offered| =>
      Offer(offered[i].serviceId, offered[i].addr, offered[i].port, DEFAULT_TTL))
  }

  function OfferDatagram(offered: seq<OfferedService>, session: uint16): Datagram {
    var items := OfferItems(offered);
    Datagram(SD_MULTICAST, Encode(EntriesOf(items), OptionsOf(items), session))
  }

  ghost predicate AckOrOffer(ds: seq<Datagram>, k: nat, offered: seq<OfferedService>)
    requires k < |ds|
  {
    Acknowledged(ds[k]).Some? || ds[k] == OfferDatagram(offered, SessionOf(k))
  }

  /** Every datagram is an acknowledgement or the offer of exactly these services. */
  ghost predicate OnlyOffers(ds: seq<Datagram>, offered: seq<OfferedService>) {
    forall k :: 0 <= k < |ds| ==> AckOrOffer(ds, k, offered)
  }

  lemma {:induction false} AcksKeepOnlyOffers(ds: seq<Datagram>, offered: seq<OfferedService>, subs: seq<Subscriber>)
    requires OnlyOffers(ds, offered)
    ensures OnlyOffers(ds + Acks(AckDatagram, subs, |ds|), offered)
  {
    hide AckDatagram, OfferDatagram, Acknowledged, Acks;
    var all := ds + Acks(AckDatagram, subs, |ds|);
    forall k | 0 <= k < |all| ensures AckOrOffer(all, k, offered) {
      if k < |ds| {
        assert AckOrOffer(ds, k, offered);
      } else {
        AckAt(AckDatagram, subs, |ds|, k - |ds|);
        AckSaysSo(subs[k - |ds|], SessionOf(k));
      }
    }
  }

  lemma {:induction false} OneMoreOffer(ds: seq<Datagram>, offered: seq<OfferedService>)
    requires OnlyOffers(ds, offered)
    ensures OnlyOffers(ds + [OfferDatagram(offered, SessionOf(|ds|))], offered)
  {
    hide OfferDatagram, Acknowledged;
    var all := ds + [OfferDatagram(offered, SessionOf(|ds|))];
    forall k | 0 <= k < |ds| ensures AckOrOffer(all, k, offered) {
      assert AckOrOffer(ds, k, offered);
    }
  }

  /** The gateway hears its own offers and acknowledgements without reacting to them. */
  method HearOwnMessage(service: SomeIpSdService, items: seq<SdItem>, session: uint16, from: Address)
    requires service.Valid()
    modifies service`subscribers, service`session, service`sent
    ensures service.subscribers == old(service.subscribers) && service.sent == old(service.sent)
    ensures service.session == old(service.session)
  {
    var bytes := Encode(EntriesOf(items), OptionsOf(items), session);
    OwnMessagesAskNothing(items, session, |Cut(bytes)|, from);
    assert bytes[..|bytes|] == bytes;
    service.OnReadable(Some(bytes), from);
  }

  // ---- Whole runs ----

  datatype SdEvent =
    | Register(serviceId: uint16, addr: Ipv4, port: uint16)
    | Announce
    | Incoming(data: Option<seq<byte>>, from: Address)

  /** The services registered in the course of a script. */
  function Registered(script: seq<SdEvent>): seq<OfferedService> {
    if script == [] then []
    else
      var before, e := Registered(script[..|script| - 1]), script[|script| - 1];
      if e.Register? then before + [OfferedService(e.serviceId, e.addr, e.port)] else before
  }

  /** Everyone who subscribed in the course of a script. */
  function Joined(script: seq<SdEvent>): seq<Subscriber> {
    if script == [] then []
    else
      var before, e := Joined(script[..|script| - 1]), script[|script| - 1];
      if e.Incoming? then before + Heard(e.data, e.from) else before
  }

  /** Everyone who subscribed, said of the bytes of the datagrams: those that each datagram brings, in order. */
  lemma {:induction false} JoinedInBytes(script: seq<SdEvent>) returns (parts: seq<seq<Subscriber>>)
    ensures |parts| == |script| && Joined(script) == Flatten(parts)
    ensures forall i :: 0 <= i < |script| ==>
              if script[i].Incoming? then Brings(script[i].data, script[i].from, parts[i]) else parts[i] == []
  {
    hide Brings, Heard;
    if script == [] {
      parts := [];
    } else {
      var init, e := script[..|script| - 1], script[|script| - 1];
      var before := JoinedInBytes(init);
      parts := before + [if e.Incoming? then Heard(e.data, e.from) else []];
      assert parts[..|parts| - 1] == before;
      if e.Incoming? {
        HeardInBytes(e.data, e.from);
      }
    }
  }

  /** How often something was there to announce. */
  function Announcements(script: seq<SdEvent>): nat {
    if script == [] then 0
    else
      var before, e := script[..|script| - 1], script[|script| - 1];
      Announcements(before) + if e.Announce? && Registered(before) != [] then 1 else 0
  }

  lemma {:induction false} OneMoreEvent(script: seq<SdEvent>, i: nat)
    requires i < |script|
    ensures var before, after, e := script[..i], script[..i + 1], script[i];
            && Registered(after) == Registered(before)
                                    + (if e.Register? then [OfferedService(e.serviceId, e.addr, e.port)] else [])
            && Joined(after) == Joined(before) + (if e.Incoming? then Heard(e.data, e.from) else [])
            && Announcements(after) == Announcements(before)
                                       + if e.Announce? && Registered(before) != [] then 1 else 0
  {
    hide Heard;
    assert script[..i + 1][..i] == script[..i];
  }

  lemma NothingYet(script: seq<SdEvent>)
    requires script == []
    ensures Registered(script) == [] && Joined(script) == [] && Announcements(script) == 0
  {
  }

  lemma ValidSays(service: SomeIpSdService)
    requires service.Valid()
    ensures Numbered(service.sent) && AllAcknowledged(service.sent) == service.subscribers
  {
  }

  /** Any run of the service from its start: the k-th datagram carries the k-th session id, the
      acknowledgements are exactly the subscribers, one each and in order, and every other datagram is an
      announcement. */
  method RunService(script: seq<SdEvent>) returns (subscribers: seq<Subscriber>, sent: seq<Datagram>)
    ensures subscribers == Joined(script)
    ensures Numbered(sent) && AllAcknowledged(sent) == subscribers
    ensures |sent| == |subscribers| + Announcements(script)
  {
    hide *;
    NothingYet(script[..0]);
    var service := new SomeIpSdService();
    for i := 0 to |script|
      invariant fresh(service) && service.Valid()
      invariant service.offered == Registered(script[..i]) && service.subscribers == Joined(script[..i])
      invariant |service.sent| == |service.subscribers| + Announcements(script[..i])
    {
      OneMoreEvent(script, i);
      match script[i] {
        case Register(id, addr, port) => service.OfferService(id, addr, port);
        case Announce => service.SendOffers();
        case Incoming(data, from) => service.OnReadable(data, from);
      }
    }
    assert script[..|script|] == script;
    ValidSays(service);
    subscribers, sent := service.subscribers, service.sent;
  }
}
