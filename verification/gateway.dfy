/** The gateway's main pipeline: CAN frames in, numbered notifications out, offers and measurements alongside. */
module Gateway {
  import opened Bytes
  import opened Options
  import opened CanBits
  import opened CanTypes
  import opened CanDecoder
  import opened DbcParser
  import opened SomeIpPublisher
  import opened Sessions
  import opened Sequences
  import opened SdMessage
  import opened SdService
  import opened Benchmark
  import M = SomeIpMessage

  const EFF_IDS: nat := 0x2000_0000
  const SD_OFFER_EVERY_N: nat := 100
  const DATA_PORT: uint16 := 30501

  /** The data bytes of a classic CAN frame. */
  type FrameData = d: seq<byte> | |d| == FRAME_BYTES witness [0, 0, 0, 0, 0, 0, 0, 0]
  datatype CanFrame = CanFrame(canId: uint32, data: FrameData)

  /** The four latencies measured for a frame, in microseconds. */
  datatype Latencies = Latencies(lookup: nat, decode: nat, publish: nat, total: nat)

  datatype Event =
    | Can(frame: CanFrame, latencies: Latencies)
    | Sd(incoming: Option<seq<byte>>, from: Address)

  // ---- What a run should produce ----

  /** The id without the flag bits above the 29-bit identifier. */
  function FrameId(frame: CanFrame): uint32 {
    frame.canId % EFF_IDS
  }

  function DecodedAll(n: nat, sigs: seq<SignalDef>): (r: seq<DecodedSignal>)
    ensures |r| == |sigs| && forall i :: 0 <= i < |sigs| ==> r[i] == DecodedAs(n, sigs[i])
  {
    seq(|sigs|, i requires 0 <= i < |sigs| => DecodedAs(n, sigs[i]))
  }

  predicate IsKnown(messages: map<uint32, MessageDef>, frame: CanFrame) {
    FrameId(frame) in messages
  }

  /** The decoded signals of all known frames, in the order of the frames and, within a frame, of the layout. */
  function AllSignals(messages: map<uint32, MessageDef>, frames: seq<CanFrame>): seq<DecodedSignal> {
    if frames == [] then []
    else
      var before, f := AllSignals(messages, frames[..|frames| - 1]), frames[|frames| - 1];
      if IsKnown(messages, f) then before + DecodedAll(LittleEndian(f.data), messages[FrameId(f)].signals) else before
  }

  function KnownCount(messages: map<uint32, MessageDef>, frames: seq<CanFrame>): nat {
    if frames == [] then 0
    else KnownCount(messages, frames[..|frames| - 1]) + if IsKnown(messages, frames[|frames| - 1]) then 1 else 0
  }

  /** The CAN frames among the events of a run. */
  function FramesOf(script: seq<Event>): seq<CanFrame> {
    if script == [] then []
    else
      var before, e := FramesOf(script[..|script| - 1]), script[|script| - 1];
      if e.Can? then before + [e.frame] else before
  }

  /** What was measured of the known frames of a run, in their order. */
  function KnownLatencies(messages: map<uint32, MessageDef>, script: seq<Event>): seq<Latencies> {
    if script == [] then []
    else
      var before, e := KnownLatencies(messages, script[..|script| - 1]), script[|script| - 1];
      if e.Can? && IsKnown(messages, e.frame) then before + [e.latencies] else before
  }

  /** Everyone who subscribed in the course of a run. */
  function SubscribersOf(script: seq<Event>): seq<Subscriber> {
    if script == [] then []
    else
      var before, e := SubscribersOf(script[..|script| - 1]), script[|script| - 1];
      if e.Sd? then before + Heard(e.incoming, e.from) else before
  }

  /** They are those that each datagram brings, said of its bytes, in the order of the datagrams. */
  lemma {:induction false} SubscribersInBytes(script: seq<Event>) returns (parts: seq<seq<Subscriber>>)
    ensures |parts| == |script| && SubscribersOf(script) == Flatten(parts)
    ensures forall i :: 0 <= i < |script| ==>
              if script[i].Sd? then Brings(script[i].incoming, script[i].from, parts[i]) else parts[i] == []
  {
    hide Brings, Heard;
    if script == [] {
      parts := [];
    } else {
      var init, e := script[..|script| - 1], script[|script| - 1];
      var before := SubscribersInBytes(init);
      parts := before + [if e.Sd? then Heard(e.incoming, e.from) else []];
      assert parts[..|parts| - 1] == before;
      if e.Sd? {
        HeardInBytes(e.incoming, e.from);
      }
    }
  }

  /** The services that the gateway offers. */
  function OwnServices(localIp: Ipv4): (r: seq<OfferedService>)
    ensures r != []
  {
    [OfferedService(0x0101, localIp, DATA_PORT), OfferedService(0x0102, localIp, DATA_PORT),
     OfferedService(0x0103, localIp, DATA_PORT)]
  }

  lemma OneMoreFrame(messages: map<uint32, MessageDef>, frames: seq<CanFrame>, f: CanFrame)
    ensures AllSignals(messages, frames + [f])
            == if !IsKnown(messages, f) then AllSignals(messages, frames)
               else AllSignals(messages, frames) + DecodedAll(LittleEndian(f.data), messages[FrameId(f)].signals)
    ensures KnownCount(messages, frames + [f]) == KnownCount(messages, frames) + if IsKnown(messages, f) then 1 else 0
  {
    hide DecodedAll;
    assert (frames + [f])[..|frames|] == frames;
  }

  /** What one frame brings, field by field: nothing when its id is not known, and otherwise one signal for each
      of its layout, in the order of the layout. */
  ghost predicate BringsSignals(messages: map<uint32, MessageDef>, frame: CanFrame, signals: seq<DecodedSignal>) {
    var id := frame.canId % 0x2000_0000;
    if id !in messages then signals == []
    else
      var layout := messages[id].signals;
      && |signals| == |layout|
      && forall j :: 0 <= j < |layout| ==>
           Decodes(signals[j], layout[j], SignalValue(LittleEndian(frame.data), layout[j]))
  }

  /** The signals of a run are those that each frame brings, in the order of the frames. */
  lemma {:induction false} SignalsByFrame(messages: map<uint32, MessageDef>, frames: seq<CanFrame>)
    returns (parts: seq<seq<DecodedSignal>>)
    ensures |parts| == |frames| && AllSignals(messages, frames) == Flatten(parts)
    ensures forall i :: 0 <= i < |frames| ==> BringsSignals(messages, frames[i], parts[i])
  {
    if frames == [] {
      parts := [];
    } else {
      var init, f := frames[..|frames| - 1], frames[|frames| - 1];
      var before := SignalsByFrame(messages, init);
      var here := if IsKnown(messages, f) then DecodedAll(LittleEndian(f.data), messages[FrameId(f)].signals) else [];
      parts := before + [here];
      assert parts[..|parts| - 1] == before;
      assert AllSignals(messages, frames) == AllSignals(messages, init) + here;
      assert Flatten(parts) == Flatten(before) + here;
      hide *;
      FrameBrings(messages, f, here);
    }
  }

  lemma {:induction false} FrameBrings(messages: map<uint32, MessageDef>, f: CanFrame, here: seq<DecodedSignal>)
    requires here == if IsKnown(messages, f) then DecodedAll(LittleEndian(f.data), messages[FrameId(f)].signals) else []
    ensures BringsSignals(messages, f, here)
  {
    if IsKnown(messages, f) {
      var layout, n := messages[FrameId(f)].signals, LittleEndian(f.data);
      forall j | 0 <= j < |layout| ensures Decodes(here[j], layout[j], SignalValue(n, layout[j])) {
        ClampKeepsLimits(SignalValue(n, layout[j]), layout[j]);
      }
    }
  }

  /** Signed signals have a length. */
  ghost predicate Decodable(messages: map<uint32, MessageDef>) {
    forall id <- messages :: forall sig <- messages[id].signals :: sig.isSigned ==> sig.length > 0
  }

  /** The three flag bits above an identifier of 29 bits change nothing. */
  lemma FlagsAreDropped(id: uint32, data: FrameData, extended: bool, remote: bool, error: bool)
    requires id < 0x2000_0000
    ensures var flags := (if extended then 0x8000_0000 else 0) + (if remote then 0x4000_0000 else 0)
                         + (if error then 0x2000_0000 else 0);
            FrameId(CanFrame(id + flags, data)) == FrameId(CanFrame(id, data)) == id
  {
  }

  /** A frame whose layout was declared under an id beyond 29 bits is never decoded: no frame has such an id. */
  lemma OnlyShortIdsMatter(messages: map<uint32, MessageDef>, frames: seq<CanFrame>)
    ensures var short := map id | id in messages && id < EFF_IDS :: messages[id];
            AllSignals(messages, frames) == AllSignals(short, frames)
            && KnownCount(messages, frames) == KnownCount(short, frames)
  {
    if frames != [] {
      OnlyShortIdsMatter(messages, frames[..|frames| - 1]);
    }
  }

  /** The notifications share their port with service discovery; heard there, they ask for nothing. */
  lemma NotificationsAskNothing(m: M.SomeIpMessage, from: Address)
    requires |m.payload| == 4
    ensures Subscriptions(Cut(M.Encode(m)), from) == []
  {
  }

  /** What is measured of a frame, and the name it is recorded under. */
  datatype Stage = Lookup | Decoding | Publishing | EndToEnd

  function Name(stage: Stage): string {
    match stage
    case Lookup => "dbc_lookup"
    case Decoding => "signal_decode"
    case Publishing => "someip_publish"
    case EndToEnd => "end_to_end"
  }

  function Latency(l: Latencies, stage: Stage): nat {
    match stage
    case Lookup => l.lookup
    case Decoding => l.decode
    case Publishing => l.publish
    case EndToEnd => l.total
  }

  function Column(known: seq<Latencies>, stage: Stage): (r: seq<nat>)
    ensures |r| == |known| && forall i :: 0 <= i < |known| ==> r[i] == Latency(known[i], stage)
  {
    seq(|known|, i requires 0 <= i < |known| => Latency(known[i], stage))
  }

  /** Under the name of each stage stand its latencies of the known frames, in their order. */
  ghost predicate EachStage(log: seq<Measurement>, known: seq<Latencies>) {
    forall stage: Stage :: LatenciesOf(log, Name(stage)) == Column(known, stage)
  }

  lemma {:induction false} LatenciesSnoc(log: seq<Measurement>, m: Measurement, event: string)
    ensures LatenciesOf(log + [m], event) == LatenciesOf(log, event) + if m.event == event then [m.latency] else []
  {
    assert (log + [m])[..|log|] == log;
  }

  function Measured(log: seq<Measurement>, l: Latencies): seq<Measurement> {
    log + [Measurement("dbc_lookup", l.lookup)] + [Measurement("signal_decode", l.decode)]
    + [Measurement("someip_publish", l.publish)] + [Measurement("end_to_end", l.total)]
  }

  lemma {:induction false} MeasuredLatencies(log: seq<Measurement>, l: Latencies, event: string)
    ensures LatenciesOf(Measured(log, l), event)
            == LatenciesOf(log, event)
               + (if "dbc_lookup" == event then [l.lookup] else [])
               + (if "signal_decode" == event then [l.decode] else [])
               + (if "someip_publish" == event then [l.publish] else [])
               + (if "end_to_end" == event then [l.total] else [])
  {
    hide LatenciesOf;
    var l1 := log + [Measurement("dbc_lookup", l.lookup)];
    var l2 := l1 + [Measurement("signal_decode", l.decode)];
    var l3 := l2 + [Measurement("someip_publish", l.publish)];
    LatenciesSnoc(log, Measurement("dbc_lookup", l.lookup), event);
    LatenciesSnoc(l1, Measurement("signal_decode", l.decode), event);
    LatenciesSnoc(l2, Measurement("someip_publish", l.publish), event);
    LatenciesSnoc(l3, Measurement("end_to_end", l.total), event);
  }

  /** Before the first frame nothing is published or measured. */
  lemma NothingPublished(routes: map<string, Route>, bits: FloatBits, messages: map<uint32, MessageDef>)
    ensures Notifications(routes, bits, AllSignals(messages, []), 0) == []
    ensures KnownCount(messages, []) == 0 && EachStage([], [])
  {
  }

  lemma StageNamesDiffer()
    ensures "dbc_lookup" != "signal_decode" && "dbc_lookup" != "someip_publish" && "dbc_lookup" != "end_to_end"
    ensures "signal_decode" != "someip_publish" && "signal_decode" != "end_to_end"
    ensures "someip_publish" != "end_to_end"
  {
    assert "dbc_lookup"[0] == 'd' && "end_to_end"[0] == 'e';
    assert |"signal_decode"| == 13 && |"someip_publish"| == 14 && |"dbc_lookup"| == |"end_to_end"| == 10;
  }

  lemma {:induction false} StageOnceMore(log: seq<Measurement>, l: Latencies, stage: Stage)
    ensures LatenciesOf(Measured(log, l), Name(stage)) == LatenciesOf(log, Name(stage)) + [Latency(l, stage)]
  {
    hide LatenciesOf, Measured;
    StageNamesDiffer();
    MeasuredLatencies(log, l, Name(stage));
  }

  lemma {:induction false} EachStageOnceMore(log: seq<Measurement>, l: Latencies, known: seq<Latencies>)
    requires EachStage(log, known)
    ensures EachStage(Measured(log, l), known + [l])
  {
    hide LatenciesOf, Measured, Name, Latency;
    forall stage: Stage ensures LatenciesOf(Measured(log, l), Name(stage)) == Column(known + [l], stage) {
      StageOnceMore(log, l, stage);
      assert Column(known + [l], stage) == Column(known, stage) + [Latency(l, stage)];
    }
  }

  /** The counter arithmetic of the periodic offer. */
  lemma OfferArithmetic(n: nat)
    ensures n + 1 - SD_OFFER_EVERY_N * (n / SD_OFFER_EVERY_N) >= SD_OFFER_EVERY_N
            <==> (n + 1) / SD_OFFER_EVERY_N == n / SD_OFFER_EVERY_N + 1
    ensures (n + 1) / SD_OFFER_EVERY_N != n / SD_OFFER_EVERY_N
            ==> n + 1 == SD_OFFER_EVERY_N * ((n + 1) / SD_OFFER_EVERY_N)
    ensures n / SD_OFFER_EVERY_N <= (n + 1) / SD_OFFER_EVERY_N <= n / SD_OFFER_EVERY_N + 1
  {
  }

  class Gateway {
    const dbc: DbcParser
    const publisher: SomeIpPublisher
    const sd: SomeIpSdService
    const bench: BenchmarkCollector
    var frameCount: nat
    var lastOfferFrame: nat
    ghost var frames: seq<CanFrame>  // all frames so far
    ghost var known: seq<Latencies>  // what was measured of the known ones

    /** One offer went out at the start and one more for every hundred known frames, and nothing else but
        acknowledgements. */
    ghost predicate OffersValid()
      reads this, sd
    {
      && sd.Valid() && sd.offered != [] && OnlyOffers(sd.sent, sd.offered)
      && lastOfferFrame == SD_OFFER_EVERY_N * (frameCount / SD_OFFER_EVERY_N)
      && |sd.sent| == |sd.subscribers| + 1 + frameCount / SD_OFFER_EVERY_N
    }

    /** Each stage was measured once for each known frame, and nothing else was. */
    ghost predicate BenchValid()
      reads this, bench, bench.histograms.Values
    {
      && bench.Valid() && bench.totalMessages == 4 * frameCount && |known| == frameCount
      && EachStage(bench.log, known)
    }

    /** The published messages are those of the routed signals of known frames. */
    ghost predicate PublisherValid()
      reads this, dbc, publisher
    {
      && publisher.Valid() && Decodable(dbc.messages)
      && publisher.sent == Notifications(publisher.signalMap, publisher.bits, AllSignals(dbc.messages, frames), 0)
      && frameCount == KnownCount(dbc.messages, frames)
    }

    ghost predicate Valid()
      reads this, dbc, publisher, sd, bench, bench.histograms.Values
    {
      OffersValid() && BenchValid() && PublisherValid()
    }

    constructor (dbc: DbcParser, routes: seq<RouteEntry>, bits: FloatBits, localIp: Ipv4)
      requires Decodable(dbc.messages)
      ensures Valid() && this.dbc == dbc && publisher.bits == bits && frames == [] && known == []
      ensures publisher.signalMap == RoutesOf(routes)
      ensures sd.offered == OwnServices(localIp) && sd.subscribers == []
      ensures fresh(publisher) && fresh(sd) && fresh(bench) && fresh(bench.histograms.Values)
    {
      hide OnlyOffers, Decodable, SomeIpSdService.Valid, OwnServices, EachStage, RoutesOf;
      hide Notifications, AllSignals, KnownCount;
      NothingPublished(RoutesOf(routes), bits, dbc.messages);
      var pub := new SomeIpPublisher(bits);
      RegisterRoutes(pub, routes);
      var service := new SomeIpSdService();
      StartOffers(service, localIp);
      this.dbc, publisher, sd := dbc, pub, service;
      bench := new BenchmarkCollector();
      frameCount, lastOfferFrame, frames, known := 0, 0, [], [];
    }

    /** Publishes the signals of one frame in order. */
    method PublishAll(signals: seq<DecodedSignal>)
      requires publisher.Valid()
      modifies publisher`session, publisher`sent, publisher`wire
      ensures publisher.Valid()
      ensures publisher.sent
              == old(publisher.sent)
                 + Notifications(publisher.signalMap, publisher.bits, signals, |old(publisher.sent)|)
    {
      ghost var routes, bits, n := publisher.signalMap, publisher.bits, |publisher.sent|;
      for i := 0 to |signals|
        invariant publisher.Valid()
        invariant publisher.sent == old(publisher.sent) + Notifications(routes, bits, signals[..i], n)
      {
        assert signals[..i + 1] == signals[..i] + [signals[i]];
        NotificationsAppend(routes, bits, signals[..i], [signals[i]], n);
        publisher.Publish(signals[i]);
      }
      assert signals[..|signals|] == signals;
    }

    method Measure(latencies: Latencies)
      requires bench.Valid()
      modifies bench, bench.histograms.Values
      ensures bench.Valid() && fresh(bench.histograms.Values - old(bench.histograms.Values))
      ensures bench.log == Measured(old(bench.log), latencies)
      ensures bench.totalMessages == old(bench.totalMessages) + 4
    {
      hide BenchmarkCollector.Valid;
      bench.Record("dbc_lookup", latencies.lookup);
      bench.Record("signal_decode", latencies.decode);
      bench.Record("someip_publish", latencies.publish);
      bench.Record("end_to_end", latencies.total);
    }

    /** Counts a known frame, and offers the services again after every hundred of them. */
    method CountFrame()
      requires OffersValid()
      modifies this`frameCount, this`lastOfferFrame, sd`session, sd`sent
      ensures OffersValid() && frameCount == old(frameCount) + 1
    {
      hide OnlyOffers, SomeIpSdService.Valid, OfferDatagram;
      OfferArithmetic(frameCount);
      OneMoreOffer(sd.sent, sd.offered);
      frameCount := frameCount + 1;
      if frameCount - lastOfferFrame >= SD_OFFER_EVERY_N {
        sd.SendOffers();
        lastOfferFrame := frameCount;
      }
    }

    /** The callback for one CAN frame. */
    method OnFrame(frame: CanFrame, latencies: Latencies)
      requires Valid()
      modifies this, publisher`session, publisher`sent, publisher`wire, sd`session, sd`sent
      modifies bench, bench.histograms.Values
      ensures Valid() && frames == old(frames) + [frame]
      ensures known == old(known) + if IsKnown(dbc.messages, frame) then [latencies] else []
      ensures fresh(bench.histograms.Values - old(bench.histograms.Values))
    {
      hide BenchmarkCollector.Valid, SomeIpPublisher.Valid, SomeIpSdService.Valid, EachStage, Notifications;
      hide AllSignals, KnownCount, DecodedAll, Measured;
      var msg := dbc.FindMessage(FrameId(frame));
      OneMoreFrame(dbc.messages, frames, frame);
      frames := frames + [frame];
      if msg.None? {
        return;
      }
      PublishFrame(frame, msg.value, old(frames));
      EachStageOnceMore(bench.log, latencies, known);
      Measure(latencies);
      known := known + [latencies];
      CountFrame();
    }

    /** Decodes a known frame and publishes its signals behind those of the frames before it. */
    method PublishFrame(frame: CanFrame, msg: MessageDef, ghost before: seq<CanFrame>)
      requires publisher.Valid() && Decodable(dbc.messages)
      requires FrameId(frame) in dbc.messages && msg == dbc.messages[FrameId(frame)]
      requires publisher.sent
               == Notifications(publisher.signalMap, publisher.bits, AllSignals(dbc.messages, before), 0)
      modifies publisher`session, publisher`sent, publisher`wire
      ensures publisher.Valid()
      ensures publisher.sent
              == Notifications(publisher.signalMap, publisher.bits,
                               AllSignals(dbc.messages, before) + DecodedAll(LittleEndian(frame.data), msg.signals), 0)
    {
      hide AllSignals, Notifications, SomeIpPublisher.Valid;
      var signals := Decode(frame.data, msg);
      assert signals == DecodedAll(LittleEndian(frame.data), msg.signals);
      NotificationsAppend(publisher.signalMap, publisher.bits, AllSignals(dbc.messages, before), signals, 0);
      PublishAll(signals);
    }

    /** One wakeup of the event loop. */
    method OnEvent(e: Event)
      requires Valid()
      modifies this, publisher`session, publisher`sent, publisher`wire
      modifies sd`subscribers, sd`session, sd`sent, bench, bench.histograms.Values
      ensures Valid() && fresh(bench.histograms.Values - old(bench.histograms.Values))
      ensures frames == old(frames) + FramesOf([e])
      ensures sd.subscribers == old(sd.subscribers) + SubscribersOf([e])
      ensures known == old(known) + KnownLatencies(dbc.messages, [e])
    {
      hide OffersValid, BenchValid, PublisherValid, Heard;
      assert [e][..0] == [];
      match e {
        case Can(frame, latencies) => OnFrame(frame, latencies);
        case Sd(incoming, from) => OnSdReadable(incoming, from);
      }
    }

    /** A datagram on the service-discovery socket. */
    method OnSdReadable(incoming: Option<seq<byte>>, from: Address)
      requires Valid()
      modifies sd`subscribers, sd`session, sd`sent
      ensures Valid() && sd.subscribers == old(sd.subscribers) + Heard(incoming, from)
    {
      hide AckDatagram, OfferDatagram, Acknowledged, Heard, Acks, Notifications, AllSignals, EachStage;
      AcksKeepOnlyOffers(sd.sent, sd.offered, Heard(incoming, from));
      sd.OnReadable(incoming, from);
    }
  }

  lemma NoEvents(messages: map<uint32, MessageDef>, script: seq<Event>)
    requires script == []
    ensures FramesOf(script) == [] && SubscribersOf(script) == [] && KnownLatencies(messages, script) == []
  {
  }

  lemma {:induction false} OneMoreEvent(messages: map<uint32, MessageDef>, script: seq<Event>, i: nat)
    requires i < |script|
    ensures FramesOf(script[..i + 1]) == FramesOf(script[..i]) + FramesOf([script[i]])
    ensures SubscribersOf(script[..i + 1]) == SubscribersOf(script[..i]) + SubscribersOf([script[i]])
    ensures KnownLatencies(messages, script[..i + 1])
            == KnownLatencies(messages, script[..i]) + KnownLatencies(messages, [script[i]])
  {
    hide Heard;
    assert script[..i + 1][..i] == script[..i];
    assert [script[i]][..0] == [];
  }

  method RegisterRoutes(publisher: SomeIpPublisher, routes: seq<RouteEntry>)
    requires publisher.Valid() && publisher.signalMap == map[]
    modifies publisher`signalMap
    ensures publisher.Valid() && publisher.signalMap == RoutesOf(routes)
  {
    for i := 0 to |routes|
      invariant publisher.Valid() && publisher.signalMap == RoutesOf(routes[..i])
    {
      assert routes[..i + 1][..i] == routes[..i];
      publisher.RegisterSignal(routes[i].signal, routes[i].serviceId, routes[i].methodId);
    }
    assert routes[..|routes|] == routes;
  }

  lemma NoDatagrams(offered: seq<OfferedService>)
    ensures OnlyOffers([], offered)
  {
  }

  method StartOffers(sd: SomeIpSdService, localIp: Ipv4)
    requires sd.Valid() && sd.offered == [] && sd.sent == [] && sd.subscribers == []
    modifies sd
    ensures sd.Valid() && sd.offered == OwnServices(localIp) && sd.subscribers == []
    ensures |sd.sent| == 1 && OnlyOffers(sd.sent, sd.offered)
  {
    hide OnlyOffers, SomeIpSdService.Valid, OfferDatagram;
    NoDatagrams(OwnServices(localIp));
    OneMoreOffer([], OwnServices(localIp));
    sd.OfferService(0x0101, localIp, DATA_PORT);
    sd.OfferService(0x0102, localIp, DATA_PORT);
    sd.OfferService(0x0103, localIp, DATA_PORT);
    sd.SendOffers();
  }

  /** The samples kept of each stage. */
  datatype Samples = Samples(lookup: seq<nat>, decode: seq<nat>, publish: seq<nat>, total: seq<nat>)

  /** Of each stage the first 10000 latencies are kept, in the order of the frames. */
  ghost predicate Kept(samples: Samples, known: seq<Latencies>) {
    var n := if |known| <= 10000 then |known| else 10000;
    && |samples.lookup| == |samples.decode| == |samples.publish| == |samples.total| == n
    && forall i :: 0 <= i < n ==> samples.lookup[i] == known[i].lookup && samples.decode[i] == known[i].decode
                                  && samples.publish[i] == known[i].publish && samples.total[i] == known[i].total
  }

  method SamplesOf(bench: BenchmarkCollector, event: string, ghost all: seq<nat>) returns (samples: seq<nat>)
    requires bench.Valid() && LatenciesOf(bench.log, event) == all
    ensures samples <= all && |samples| == if |all| <= 10000 then |all| else 10000
  {
    hide BenchmarkCollector.Valid, LatenciesOf;
    var h := bench.Get(event);
    samples := if h == null then [] else h.samples;
  }

  /** What the report reads from the collector. */
  method Report(bench: BenchmarkCollector, ghost known: seq<Latencies>) returns (samples: Samples)
    requires bench.Valid() && EachStage(bench.log, known)
    ensures Kept(samples, known)
  {
    assert LatenciesOf(bench.log, Name(Lookup)) == Column(known, Lookup);
    assert LatenciesOf(bench.log, Name(Decoding)) == Column(known, Decoding);
    assert LatenciesOf(bench.log, Name(Publishing)) == Column(known, Publishing);
    assert LatenciesOf(bench.log, Name(EndToEnd)) == Column(known, EndToEnd);
    hide BenchmarkCollector.Valid, LatenciesOf;
    var lookup := SamplesOf(bench, "dbc_lookup", Column(known, Lookup));
    var decode := SamplesOf(bench, "signal_decode", Column(known, Decoding));
    var publish := SamplesOf(bench, "someip_publish", Column(known, Publishing));
    var total := SamplesOf(bench, "end_to_end", Column(known, EndToEnd));
    samples := Samples(lookup, decode, publish, total);
  }

  /** These bytes, decoded, are the k-th notification of a run and tell of this signal. */
  ghost predicate Tells(bytes: seq<byte>, routes: map<string, Route>, bits: FloatBits, signal: DecodedSignal, k: nat) {
    M.Decode(bytes).Some? && Notifies(M.Decode(bytes).value, routes, bits, signal, k)
  }

  /** The published bytes, without the messages they were made from: one notification for each routed signal. */
  lemma {:induction false} PublishedTells(
    published: seq<seq<byte>>, routes: map<string, Route>, bits: FloatBits, signals: seq<DecodedSignal>)
    requires var expected := Notifications(routes, bits, signals, 0);
             && |published| == |expected|
             && forall k :: 0 <= k < |expected| ==> M.Decode(published[k]) == Some(expected[k])
    ensures |published| == |Routed(routes, signals)|
    ensures forall k :: 0 <= k < |published| ==> Tells(published[k], routes, bits, Routed(routes, signals)[k], k)
  {
    hide M.Decode, Notifies, Notifications, Routed;
    OnlyRoutedMatter(routes, bits, signals, 0, 0);
    forall k | 0 <= k < |published| ensures Tells(published[k], routes, bits, Routed(routes, signals)[k], k) {
      OnlyRoutedMatter(routes, bits, signals, 0, k);
    }
  }

  /** Every datagram is an acknowledgement or announces the gateway's three services. */
  lemma {:induction false} DatagramsAnnounce(datagrams: seq<Datagram>, localIp: Ipv4)
    requires OnlyOffers(datagrams, OwnServices(localIp))
    ensures forall d <- datagrams :: Acknowledged(d).Some? || AnnouncesAll(d, localIp)
  {
    hide Acknowledged, OfferDatagram, Announces;
    forall d | d in datagrams ensures Acknowledged(d).Some? || AnnouncesAll(d, localIp) {
      var k :| 0 <= k < |datagrams| && datagrams[k] == d;
      assert AckOrOffer(datagrams, k, OwnServices(localIp));
      OfferLists(OwnServices(localIp), SessionOf(k));
    }
  }

  /** A strict receiver finds services 0x0101, 0x0102 and 0x0103 offered at the local address, port 30501. */
  ghost predicate AnnouncesAll(d: Datagram, localIp: Ipv4) {
    Announces(d, [OfferedService(0x0101, localIp, 30501), OfferedService(0x0102, localIp, 30501),
                  OfferedService(0x0103, localIp, 30501)])
  }

  /** A whole run, from a DBC file and a routing table, over any sequence of CAN frames and service-discovery
      datagrams. A file that cannot be opened, or declares a signed signal of length 0, is not run. */
  method Run(file: Option<seq<string>>, routes: seq<RouteEntry>, bits: FloatBits, localIp: Ipv4, script: seq<Event>)
    returns (ok: bool, measured: nat, samples: Samples, published: seq<seq<byte>>, datagrams: seq<Datagram>)
    ensures ok <==> file.Some? && Decodable(MessagesIn(file.value))
    ensures ok ==>
      var heard := Routed(RoutesOf(routes), AllSignals(MessagesIn(file.value), FramesOf(script)));
      && |published| == |heard|
      && (forall k :: 0 <= k < |published| ==> Tells(published[k], RoutesOf(routes), bits, heard[k], k))
    ensures ok ==>
      var expected := Notifications(RoutesOf(routes), bits, AllSignals(MessagesIn(file.value), FramesOf(script)), 0);
      && |published| == |expected|
      && (forall k :: 0 <= k < |expected| ==> M.Decode(published[k]) == Some(expected[k]))
    ensures ok ==>
      var known := KnownCount(MessagesIn(file.value), FramesOf(script));
      && measured == 4 * known
      && |datagrams| == |SubscribersOf(script)| + 1 + known / 100
    ensures ok ==> Kept(samples, KnownLatencies(MessagesIn(file.value), script))
    ensures ok ==> Numbered(datagrams) && AllAcknowledged(datagrams) == SubscribersOf(script)
    ensures ok ==> OnlyOffers(datagrams, OwnServices(localIp))
    ensures ok ==> forall d <- datagrams :: Acknowledged(d).Some? || AnnouncesAll(d, localIp)
  {
    hide Notifications, Routed, AllSignals, KnownCount, FramesOf, SubscribersOf, KnownLatencies, OnlyOffers, Numbered;
    hide AllAcknowledged, OwnServices, RoutesOf, Fold, Kinds, EachStage, M.Decode, BenchmarkCollector.Valid;
    hide Acknowledged, AnnouncesAll, Tells, Kept;
    published, measured, samples, datagrams := [], 0, Samples([], [], [], []), [];
    var dbc := new DbcParser();
    ok := dbc.Parse(file);
    if !ok || exists id <- dbc.messages :: exists sig <- dbc.messages[id].signals :: sig.isSigned && sig.length == 0 {
      return false, measured, samples, published, datagrams;
    }
    var gateway := new Gateway(dbc, routes, bits, localIp);
    RunEvents(gateway, script);
    published, measured, datagrams := gateway.publisher.wire, gateway.bench.totalMessages, gateway.sd.sent;
    samples := Report(gateway.bench, gateway.known);
    forall k | 0 <= k < |published| ensures M.Decode(published[k]) == Some(gateway.publisher.sent[k]) {
      assert WentOut(gateway.publisher.sent, published, k);
    }
    PublishedTells(published, RoutesOf(routes), bits, AllSignals(MessagesIn(file.value), FramesOf(script)));
    DatagramsAnnounce(datagrams, localIp);
  }

  /** The layouts that a DBC file declares. */
  function MessagesIn(lines: seq<string>): map<uint32, MessageDef> {
    Fold(State(map[], None), Kinds(lines)).messages
  }

  /** Any sequence of events keeps every promise of the pipeline. */
  method RunEvents(gateway: Gateway, script: seq<Event>)
    requires gateway.Valid() && gateway.frames == [] && gateway.known == [] && gateway.sd.subscribers == []
    modifies gateway, gateway.publisher`session, gateway.publisher`sent, gateway.publisher`wire
    modifies gateway.sd`subscribers, gateway.sd`session, gateway.sd`sent
    modifies gateway.bench, gateway.bench.histograms.Values
    ensures gateway.Valid() && gateway.frames == FramesOf(script) && gateway.sd.subscribers == SubscribersOf(script)
    ensures gateway.known == KnownLatencies(gateway.dbc.messages, script)
  {
    hide *;
    NoEvents(gateway.dbc.messages, script[..0]);
    ghost var stores := gateway.bench.histograms.Values;
    for i := 0 to |script|
      invariant gateway.Valid() && gateway.frames == FramesOf(script[..i])
      invariant gateway.sd.subscribers == SubscribersOf(script[..i])
      invariant gateway.known == KnownLatencies(gateway.dbc.messages, script[..i])
      invariant fresh(gateway.bench.histograms.Values - stores)
    {
      OneMoreEvent(gateway.dbc.messages, script, i);
      gateway.OnEvent(script[i]);
    }
    assert script[..|script|] == script;
  }
}
