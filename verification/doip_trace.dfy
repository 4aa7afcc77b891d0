/** What the DoIP server does, seen from outside: the trace of its socket operations, and the law that every
    trace obeys. The law looks at one connection at a time and at nothing but its own bytes. */
module DoipTrace {
  import opened Bytes
  import opened DoipMessage
  import opened DoipFraming
  import opened DoipSession
  import opened Options

  datatype Io =
    | Accepted(fd: int)
    | Received(fd: int, data: seq<byte>)
    | Sent(fd: int, message: seq<byte>)
    | Closed(fd: int)

  /** Socket operations in the order they happened. */
  datatype Trace = Start | Then(before: Trace, last: Io)

  /** One connection from its accept on: all bytes received and all messages sent. */
  datatype Epoch = Epoch(received: seq<byte>, sent: seq<seq<byte>>)

  function Apply(before: Option<Epoch>, e: Io): Option<Epoch> {
    match e
    case Accepted(_) => Some(Epoch([], []))
    case Received(_, data) =>
      if before.None? then None else Some(Epoch(before.value.received + data, before.value.sent))
    case Sent(_, m) =>
      if before.None? then None else Some(Epoch(before.value.received, before.value.sent + [m]))
    case Closed(_) => None
  }

  /** The connection open under a descriptor at the end of a trace, if any. */
  function Current(trace: Trace, fd: int): Option<Epoch> {
    match trace
    case Start => None
    case Then(before, e) => if e.fd == fd then Apply(Current(before, fd), e) else Current(before, fd)
  }

  function Encodings(items: seq<Item>): (r: seq<seq<byte>>)
    ensures |r| == |items| && forall i :: 0 <= i < |items| ==> r[i] == items[i].Encoded()
  {
    seq(|items|, i requires 0 <= i < |items| => items[i].Encoded())
  }

  /** Everything the bytes received so far call for has been sent, and nothing else. */
  ghost predicate Replied(uds: Handler, c: Epoch) {
    c.sent == Encodings(Replies(uds, c.received))
  }

  /** When a socket operation is allowed, given only the connection it is on. */
  ghost predicate Legal(uds: Handler, before: Option<Epoch>, e: Io) {
    match e
    case Accepted(_) => before.None?
    case Received(_, data) => before.Some? && Replied(uds, before.value)
                              && 0 < |data| <= CAPACITY - |Rest(before.value.received)|
    case Sent(_, m) => before.Some? && before.value.sent + [m] <= Encodings(Replies(uds, before.value.received))
    case Closed(_) => before.Some? && Replied(uds, before.value)
  }

  /** Every operation of the trace is allowed where it stands. */
  ghost predicate Served(uds: Handler, trace: Trace) {
    trace.Then? ==> Served(uds, trace.before) && Legal(uds, Current(trace.before, trace.last.fd), trace.last)
  }

  /** No open connection is owed a reply. */
  ghost predicate Settled(uds: Handler, trace: Trace) {
    forall fd :: Current(trace, fd).Some? ==> Replied(uds, Current(trace, fd).value)
  }

  /** The trace after sending messages one by one. */
  function Sends(trace: Trace, fd: int, items: seq<Item>): Trace
    decreases |items|
  {
    if items == [] then trace else Sends(Then(trace, Sent(fd, items[0].Encoded())), fd, items[1..])
  }

  lemma {:induction false} SendsAppend(trace: Trace, fd: int, a: seq<Item>, b: seq<Item>)
    ensures Sends(trace, fd, a + b) == Sends(Sends(trace, fd, a), fd, b)
    decreases |a|
  {
    if a == [] {
      assert a + b == b;
    } else {
      assert (a + b)[1..] == a[1..] + b;
      SendsAppend(Then(trace, Sent(fd, a[0].Encoded())), fd, a[1..], b);
    }
  }

  /** Sending adds to one connection and touches no other. */
  lemma {:induction false} SendsCurrent(trace: Trace, fd: int, items: seq<Item>, g: int)
    ensures var now := Current(Sends(trace, fd, items), g);
            var c := Current(trace, g);
            now == if g != fd || c.None? then c else Some(Epoch(c.value.received, c.value.sent + Encodings(items)))
    decreases |items|
  {
    var c := Current(trace, g);
    if items == [] {
      assert c.Some? ==> c.value.sent + Encodings(items) == c.value.sent;
    } else {
      var m := items[0].Encoded();
      assert Encodings(items) == [m] + Encodings(items[1..]);
      assert c.Some? ==> c.value.sent + Encodings(items) == (c.value.sent + [m]) + Encodings(items[1..]);
      SendsCurrent(Then(trace, Sent(fd, m)), fd, items[1..], g);
    }
  }

  /** Sending a prefix of what is owed is allowed. */
  lemma {:induction false} SendsServed(uds: Handler, trace: Trace, fd: int, items: seq<Item>)
    requires Served(uds, trace)
    requires Current(trace, fd).Some?
    requires var c := Current(trace, fd).value;
             c.sent + Encodings(items) <= Encodings(Replies(uds, c.received))
    ensures Served(uds, Sends(trace, fd, items))
    decreases |items|
  {
    if items != [] {
      var c, m := Current(trace, fd).value, items[0].Encoded();
      assert Encodings(items) == [m] + Encodings(items[1..]);
      assert c.sent + Encodings(items) == (c.sent + [m]) + Encodings(items[1..]);
      SendsServed(uds, Then(trace, Sent(fd, m)), fd, items[1..]);
    }
  }

  /** What a connection that has been sent everything owed so far owes for the next chunk. */
  function Owed(uds: Handler, received: seq<byte>, data: seq<byte>): seq<Item> {
    Serve(uds, After(FRESH_SESSION, Frames(received)), Frames(Rest(received) + data))
  }

  lemma OwedCompletes(uds: Handler, received: seq<byte>, data: seq<byte>)
    ensures Encodings(Replies(uds, received)) + Encodings(Owed(uds, received, data))
            == Encodings(Replies(uds, received + data))
  {
    RepliesGrow(uds, received, data);
  }

  /** The trace after one read: the bytes arrive and everything they call for goes out. */
  function AfterRead(uds: Handler, trace: Trace, fd: int, received: seq<byte>, data: seq<byte>): Trace {
    Sends(Then(trace, Received(fd, data)), fd, Owed(uds, received, data))
  }

  lemma AfterReadCurrent(uds: Handler, trace: Trace, fd: int, data: seq<byte>, g: int)
    requires Current(trace, fd).Some?
    ensures var c := Current(trace, fd).value;
            Current(AfterRead(uds, trace, fd, c.received, data), g)
            == if g != fd then Current(trace, g)
               else Some(Epoch(c.received + data, c.sent + Encodings(Owed(uds, c.received, data))))
  {
    var c := Current(trace, fd).value;
    SendsCurrent(Then(trace, Received(fd, data)), fd, Owed(uds, c.received, data), g);
  }

  /** A read whose bytes fit the buffer keeps to the law and leaves nothing owed. */
  lemma ReadServed(uds: Handler, trace: Trace, fd: int, data: seq<byte>)
    requires Served(uds, trace) && Settled(uds, trace)
    requires Current(trace, fd).Some?
    requires 0 < |data| <= CAPACITY - |Rest(Current(trace, fd).value.received)|
    ensures var now := AfterRead(uds, trace, fd, Current(trace, fd).value.received, data);
            Served(uds, now) && Settled(uds, now)
  {
    var c := Current(trace, fd).value;
    var read := Then(trace, Received(fd, data));
    var now := AfterRead(uds, trace, fd, c.received, data);
    OwedCompletes(uds, c.received, data);
    SendsServed(uds, read, fd, Owed(uds, c.received, data));
    forall g | Current(now, g).Some? ensures Replied(uds, Current(now, g).value) {
      AfterReadCurrent(uds, trace, fd, data, g);
    }
  }

  /** The bytes a read returns: as much of what is there as there is room for, none when it fails. */
  function Taken(offered: Option<seq<byte>>, room: nat): seq<byte> {
    if offered.None? then []
    else if |offered.value| <= room then offered.value
    else offered.value[..room]
  }

  /** What the server reads from a connection when the peer has this much to offer. */
  function Read(c: Epoch, offered: Option<seq<byte>>): seq<byte> {
    Taken(offered, if |Rest(c.received)| <= CAPACITY then CAPACITY - |Rest(c.received)| else 0)
  }

  /** Readable input on fd makes the server hang up: there is a connection, but nothing to read from it or
      no room to read into. */
  predicate HangsUp(trace: Trace, fd: int, offered: Option<seq<byte>>) {
    Current(trace, fd).Some? && Read(Current(trace, fd).value, offered) == []
  }

  /** The trace after input on fd has been handled. */
  function AfterInput(uds: Handler, trace: Trace, fd: int, offered: Option<seq<byte>>): Trace {
    if Current(trace, fd).None? then trace
    else if HangsUp(trace, fd, offered) then Then(trace, Closed(fd))
    else
      var c := Current(trace, fd).value;
      AfterRead(uds, trace, fd, c.received, Read(c, offered))
  }

  // ---- What the law says about whole runs ----

  /** p is the trace at some earlier moment of t. */
  ghost predicate Earlier(p: Trace, t: Trace) {
    p == t || (t.Then? && Earlier(p, t.before))
  }

  /** The law holds at every moment of a run, not only at its end. */
  lemma {:induction false} ServedThroughout(uds: Handler, p: Trace, t: Trace)
    requires Served(uds, t) && Earlier(p, t)
    ensures Served(uds, p)
  {
    if p != t {
      ServedThroughout(uds, p, t.before);
    }
  }

  /** A connection's buffer never overflows, and it has been sent a prefix of what its bytes call for. */
  lemma {:induction false} ConnectionBounds(uds: Handler, trace: Trace, fd: int)
    requires Served(uds, trace) && Current(trace, fd).Some?
    ensures var c := Current(trace, fd).value;
            && AllFit(Frames(c.received)) && |Rest(c.received)| <= CAPACITY
            && c.sent <= Encodings(Replies(uds, c.received))
  {
    var before, last := trace.before, trace.last;
    if last.fd != fd || !last.Accepted? {
      ConnectionBounds(uds, before, fd);
      if last.fd == fd && last.Received? {
        var c := Current(before, fd).value;
        TakingKeepsFit(c.received, last.data);
        OwedCompletes(uds, c.received, last.data);
      }
    }
  }

  lemma AcceptServed(uds: Handler, trace: Trace, fd: int)
    requires Served(uds, trace) && Settled(uds, trace) && Current(trace, fd).None?
    ensures Served(uds, Then(trace, Accepted(fd))) && Settled(uds, Then(trace, Accepted(fd)))
  {
    assert Frames([]) == [] && Replies(uds, []) == [];
    assert Encodings([]) == [];
    var now := Then(trace, Accepted(fd));
    assert forall g :: g != fd ==> Current(now, g) == Current(trace, g);
    assert Current(now, fd) == Some(Epoch([], []));
  }

  // ---- Descriptor reuse ----

  function Length(trace: Trace): nat {
    if trace.Start? then 0 else 1 + Length(trace.before)
  }

  /** The descriptors accepted behind the first n operations. */
  function AcceptedSince(trace: Trace, n: nat): set<int> {
    if Length(trace) <= n then {}
    else AcceptedSince(trace.before, n) + if trace.last.Accepted? then {trace.last.fd} else {}
  }

  /** Behind the first n operations, nothing is done with a connection once it has been accepted. */
  predicate QuietSince(trace: Trace, n: nat) {
    Length(trace) > n ==> QuietSince(trace.before, n) && trace.last.fd !in AcceptedSince(trace.before, n)
  }

  lemma {:induction false} SendsQuiet(trace: Trace, n: nat, fd: int, items: seq<Item>)
    requires n <= Length(trace) && QuietSince(trace, n) && fd !in AcceptedSince(trace, n)
    ensures var now := Sends(trace, fd, items);
            Length(now) >= Length(trace) && QuietSince(now, n) && AcceptedSince(now, n) == AcceptedSince(trace, n)
    decreases |items|
  {
    if items != [] {
      SendsQuiet(Then(trace, Sent(fd, items[0].Encoded())), n, fd, items[1..]);
    }
  }

  lemma InputQuiet(uds: Handler, trace: Trace, n: nat, fd: int, offered: Option<seq<byte>>)
    requires n <= Length(trace) && QuietSince(trace, n) && fd !in AcceptedSince(trace, n)
    ensures var now := AfterInput(uds, trace, fd, offered);
            Length(now) >= Length(trace) && QuietSince(now, n) && AcceptedSince(now, n) == AcceptedSince(trace, n)
  {
    if Current(trace, fd).Some? && !HangsUp(trace, fd, offered) {
      var c := Current(trace, fd).value;
      var data := Read(c, offered);
      SendsQuiet(Then(trace, Received(fd, data)), n, fd, Owed(uds, c.received, data));
    }
  }

  // ---- Delivery of a peer's stream ----

  /** A peer's stream s has been delivered as far as it can be: to its end, or until the buffer is full. */
  ghost predicate Exhausted(c: Epoch, s: seq<byte>) {
    c.received <= s && (c.received == s || |Rest(c.received)| == CAPACITY)
  }

  /** Chunking independence: however a peer's stream is cut into reads, and whatever other connections do, the
      connection takes exactly the absorbed prefix of the stream and sends exactly what that prefix calls for.
      The stream is taken to its end if and only if its frames and its rest fit the buffer. */
  lemma DeliveryDependsOnStreamOnly(uds: Handler, trace: Trace, fd: int, s: seq<byte>)
    requires Served(uds, trace) && Settled(uds, trace)
    requires Current(trace, fd).Some? && Exhausted(Current(trace, fd).value, s)
    ensures Current(trace, fd).value == Epoch(s[..Absorbed(s)], Encodings(Replies(uds, s[..Absorbed(s)])))
    ensures Current(trace, fd).value.received == s <==> AllFit(Frames(s)) && |Rest(s)| <= CAPACITY
  {
    var c := Current(trace, fd).value;
    ConnectionBounds(uds, trace, fd);
    AbsorbedIsMaximal(c.received, s);
    AbsorbedWhole(s);
    assert |c.received| == Absorbed(s);
    assert c.received == s[..Absorbed(s)];
    assert s[..|s|] == s;
  }

  /** A connection has room for the next read unless the frame at the front of its buffer can never fit. */
  lemma RoomUnlessOversized(uds: Handler, trace: Trace, fd: int)
    requires Served(uds, trace) && Current(trace, fd).Some?
    ensures var rest := Rest(Current(trace, fd).value.received);
            |rest| <= CAPACITY && (|rest| == CAPACITY ==> HeadTotal(rest) > CAPACITY)
  {
    ConnectionBounds(uds, trace, fd);
    RestIncomplete(Current(trace, fd).value.received);
  }

  /** The server hangs up on readable input exactly when the buffer is full behind an oversized frame, the
      read fails, or the peer has nothing more to send: never on a stream of fitting frames that goes on. */
  lemma HangsUpExactly(uds: Handler, trace: Trace, fd: int, offered: Option<seq<byte>>)
    requires Served(uds, trace) && Current(trace, fd).Some?
    ensures var rest := Rest(Current(trace, fd).value.received);
            HangsUp(trace, fd, offered)
            <==> (|rest| == CAPACITY && HeadTotal(rest) > CAPACITY) || offered.None? || offered.value == []
  {
    RoomUnlessOversized(uds, trace, fd);
  }

  /** Some diagnostic request follows an activation. */
  ghost predicate HasAnswerable(fs: seq<Frame>) {
    exists i :: 0 <= i < |fs| && AsksDiagnosis(fs[i]) && ActivatedBefore(fs, i)
  }

  lemma DiagnosticReplyNeedsRequest(uds: Handler, received: seq<byte>, m: Item)
    requires m in Replies(uds, received) && IsDiagnostic(m)
    ensures HasAnswerable(Frames(received))
  {
    var fs := Frames(received);
    ServeIsHistory(uds, fs, |fs|);
    assert fs[..|fs|] == fs;
    NoDiagnosisBeforeActivation(uds, fs, |fs|);
  }

  /** The payload type a message carries on the wire. */
  function WireType(message: seq<byte>): uint16 {
    if |message| < HEADER_SIZE then 0 else U16At(message, 2)
  }

  /** Session safety: whenever an ACK or a diagnostic response goes out, the same connection has before that
      received a diagnostic request behind an activation. */
  lemma DiagnosisNeedsActivation(uds: Handler, before: Trace, fd: int, message: seq<byte>)
    requires Served(uds, Then(before, Sent(fd, message)))
    requires WireType(message) == DIAGNOSTIC_ACK || WireType(message) == DIAGNOSTIC_MESSAGE
    ensures Current(before, fd).Some?
    ensures HasAnswerable(Frames(Current(before, fd).value.received))
  {
    var c := Current(before, fd).value;
    var items := Replies(uds, c.received);
    var m := items[|c.sent|];
    assert (c.sent + [message])[|c.sent|] == m.Encoded();
    EncodedType(m);
    DiagnosticReplyNeedsRequest(uds, c.received, m);
  }

  lemma EncodedType(m: Item)
    ensures WireType(m.Encoded()) == m.payloadType
  {
    var h := DoipHeader(PROTO_VERSION, PROTO_VERSION_INV, m.payloadType, Low32(|m.payload|));
    assert m.Encoded()[..HEADER_SIZE] == EncodeHeader(h);
    HeaderInverse(m.Encoded(), h);
  }
}
