/** The publisher: decoded signals that have a route go out as numbered notifications. */
module SomeIpPublisher {
  import opened Bytes
  import opened Options
  import opened Sessions
  import opened CanTypes
  import opened SomeIpMessage

  /** Service and method of a signal. */
  datatype Route = Route(serviceId: uint16, methodId: uint16)

  /** One line of the routing table. */
  datatype RouteEntry = RouteEntry(signal: string, serviceId: uint16, methodId: uint16)

  /** How a physical value becomes the 32 bits of a float. */
  type FloatBits = real -> uint32

  /** The routes after a list of registrations: a later one for the same name replaces an earlier one. */
  function RoutesOf(entries: seq<RouteEntry>): map<string, Route> {
    if entries == [] then map[]
    else
      var e := entries[|entries| - 1];
      RoutesOf(entries[..|entries| - 1])[e.signal := Route(e.serviceId, e.methodId)]
  }

  /** A name is routed exactly when it was registered, and to what it was registered with last. */
  lemma {:induction false} LastRegistrationWins(entries: seq<RouteEntry>, name: string)
    ensures name in RoutesOf(entries) <==> exists e <- entries :: e.signal == name
    ensures forall i :: 0 <= i < |entries| && entries[i].signal == name
                        && (forall j :: i < j < |entries| ==> entries[j].signal != name)
                        ==> RoutesOf(entries)[name] == Route(entries[i].serviceId, entries[i].methodId)
  {
    if entries != [] {
      var init := entries[..|entries| - 1];
      LastRegistrationWins(init, name);
      assert entries == init + [entries[|entries| - 1]];
    }
  }

  function Notification(routes: map<string, Route>, bits: FloatBits, signal: DecodedSignal, session: uint16): SomeIpMessage
    requires signal.name in routes
  {
    var r := routes[signal.name];
    MakeWordNotification(r.serviceId, r.methodId, session, bits(signal.value))
  }

  /** The notifications for a list of signals, when n messages went out before: one for each signal with a
      route, in order, numbered on. */
  function Notifications(routes: map<string, Route>, bits: FloatBits, signals: seq<DecodedSignal>, n: nat): seq<SomeIpMessage> {
    if signals == [] then []
    else
      var before := Notifications(routes, bits, signals[..|signals| - 1], n);
      var signal := signals[|signals| - 1];
      if signal.name in routes then before + [Notification(routes, bits, signal, SessionOf(n + |before|))] else before
  }

  lemma {:induction false} NotificationsAppend(
    routes: map<string, Route>, bits: FloatBits, a: seq<DecodedSignal>, b: seq<DecodedSignal>, n: nat)
    ensures Notifications(routes, bits, a + b, n)
            == Notifications(routes, bits, a, n)
               + Notifications(routes, bits, b, n + |Notifications(routes, bits, a, n)|)
    decreases |b|
  {
    if b == [] {
      assert a + b == a;
    } else {
      assert (a + b)[..|a + b| - 1] == a + b[..|b| - 1];
      NotificationsAppend(routes, bits, a, b[..|b| - 1], n);
    }
  }

  /** The k-th notification carries the k-th session id, whatever was published. */
  lemma {:induction false} NotificationsNumbered(
    routes: map<string, Route>, bits: FloatBits, signals: seq<DecodedSignal>, n: nat, k: nat)
    requires k < |Notifications(routes, bits, signals, n)|
    ensures Notifications(routes, bits, signals, n)[k].sessionId == SessionOf(n + k)
  {
    var init := signals[..|signals| - 1];
    if k < |Notifications(routes, bits, init, n)| {
      NotificationsNumbered(routes, bits, init, n, k);
    }
  }

  /** Signals without a route do not show: only the routed ones matter, in their order. */
  function Routed(routes: map<string, Route>, signals: seq<DecodedSignal>): seq<DecodedSignal> {
    if signals == [] then []
    else
      var before, signal := Routed(routes, signals[..|signals| - 1]), signals[|signals| - 1];
      if signal.name in routes then before + [signal] else before
  }

  lemma {:induction false} OnlyRoutedMatter(
    routes: map<string, Route>, bits: FloatBits, signals: seq<DecodedSignal>, n: nat, k: nat)
    ensures |Notifications(routes, bits, signals, n)| == |Routed(routes, signals)|
    ensures k < |Routed(routes, signals)| ==>
              Notifies(Notifications(routes, bits, signals, n)[k], routes, bits, Routed(routes, signals)[k], n + k)
  {
    if signals != [] {
      var init, signal := signals[..|signals| - 1], signals[|signals| - 1];
      OnlyRoutedMatter(routes, bits, init, n, k);
      if signal.name in routes {
        NotificationSays(routes, bits, signal, n + |Notifications(routes, bits, init, n)|);
      }
      hide Notifies, Notification;
    }
  }

  /** The k-th message of a run, field by field, tells of this signal: the ids of its route, the k-th session
      id, and the float bits of its value as the whole payload. */
  ghost predicate Notifies(m: SomeIpMessage, routes: map<string, Route>, bits: FloatBits, signal: DecodedSignal, k: nat) {
    && signal.name in routes
    && m.serviceId == routes[signal.name].serviceId && m.methodId == routes[signal.name].methodId
    && m.clientId == 0 && m.sessionId == (1 + k) % 0x1_0000
    && m.msgType == 0x02 && m.returnCode == 0
    && |m.payload| == 4 && U32At(m.payload, 0) == bits(signal.value)
  }

  lemma {:induction false} NotificationSays(routes: map<string, Route>, bits: FloatBits, signal: DecodedSignal, k: nat)
    requires signal.name in routes
    ensures Notifies(Notification(routes, bits, signal, SessionOf(k)), routes, bits, signal, k)
  {
    SessionClosedForm(k);
    U32Inverse(EncodeU32(bits(signal.value)), 0, bits(signal.value));
    assert EncodeU32(bits(signal.value))[0..4] == EncodeU32(bits(signal.value));
  }

  /** The k-th message carries the k-th session id and went out as its own encoding. */
  ghost predicate WentOut(sent: seq<SomeIpMessage>, wire: seq<seq<byte>>, k: nat)
    requires k < |sent| == |wire|
  {
    sent[k].sessionId == SessionOf(k) && Decode(wire[k]) == Some(sent[k])
  }

  class SomeIpPublisher {
    const bits: FloatBits
    var session: uint16
    var signalMap: map<string, Route>
    ghost var sent: seq<SomeIpMessage>     // the messages handed to the socket
    var wire: seq<seq<byte>>               // their bytes, as they went out on the socket

    /** The k-th message carries the k-th session id and went out as its own encoding. */
    ghost predicate Valid()
      reads this
    {
      && session == SessionOf(|sent|)
      && |wire| == |sent|
      && (forall k :: 0 <= k < |sent| ==> WentOut(sent, wire, k))
    }

    constructor (bits: FloatBits)
      ensures Valid() && this.bits == bits && signalMap == map[] && sent == []
    {
      this.bits, session, signalMap, sent, wire := bits, 1, map[], [], [];
    }

    method RegisterSignal(name: string, serviceId: uint16, methodId: uint16)
      requires Valid()
      modifies this`signalMap
      ensures Valid() && signalMap == old(signalMap)[name := Route(serviceId, methodId)]
    {
      signalMap := signalMap[name := Route(serviceId, methodId)];
    }

    /** Serializes into a fixed buffer of 1500 bytes and sends what was written; a message that does not fit
        is dropped. */
    method SendMessage(msg: SomeIpMessage)
      modifies this`sent, this`wire
      ensures 16 + |msg.payload| > 1500 ==> sent == old(sent) && wire == old(wire)
      ensures 16 + |msg.payload| <= 1500 ==>
        && sent == old(sent) + [msg]
        && |wire| == |old(wire)| + 1 && wire[..|old(wire)|] == old(wire)
        && Decode(wire[|old(wire)|]) == Some(msg)
    {
      var buf := new byte[MAX_SIZE](_ => 0);
      var len := SerializeInto(msg, buf);
      if len == 0 {
        return;
      }
      MessageRoundTrip(msg);
      assert buf[..len] == Encode(msg);
      sent, wire := sent + [msg], wire + [buf[..len]];
    }

    method PublishFloat(serviceId: uint16, methodId: uint16, value: real)
      requires Valid()
      modifies this`session, this`sent, this`wire
      ensures Valid()
      ensures sent == old(sent) + [MakeWordNotification(serviceId, methodId, SessionOf(|old(sent)|), bits(value))]
    {
      var msg := MakeWordNotification(serviceId, methodId, session, bits(value));
      ghost var sent0, wire0 := sent, wire;
      session := Bump(session);
      SendMessage(msg);
      forall k | 0 <= k < |sent| ensures WentOut(sent, wire, k) {
        assert k < |sent0| ==> WentOut(sent0, wire0, k);
      }
    }

    method Publish(signal: DecodedSignal)
      requires Valid()
      modifies this`session, this`sent, this`wire
      ensures Valid()
      ensures signal.name !in signalMap ==> sent == old(sent)
      ensures signal.name in signalMap ==>
        |sent| == |old(sent)| + 1 && Notifies(sent[|old(sent)|], signalMap, bits, signal, |old(sent)|)
      ensures sent == old(sent) + Notifications(signalMap, bits, [signal], |old(sent)|)
    {
      assert Notifications(signalMap, bits, [signal][..0], |sent|) == [];
      if signal.name !in signalMap {
        return;
      }
      NotificationSays(signalMap, bits, signal, |sent|);
      var r := signalMap[signal.name];
      PublishFloat(r.serviceId, r.methodId, signal.value);
    }
  }
}
