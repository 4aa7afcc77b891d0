/** One tester's diagnostic session: what the server sends for the frames it receives. */
module DoipSession {
  import opened Bytes
  import opened DoipMessage
  import opened DoipFraming
  import opened Uds

  /** The UDS service behind the server, as a function from request to answer. */
  type Handler = seq<byte> -> seq<byte>

  datatype Session = Session(activated: bool, tester: uint16)

  const FRESH_SESSION := Session(false, 0)

  predicate Activates(f: Frame) {
    f.kind == ROUTING_ACTIVATION_REQ && |f.payload| >= 2
  }

  predicate AsksDiagnosis(f: Frame) {
    f.kind == DIAGNOSTIC_MESSAGE && |f.payload| >= 4
  }

  function Ack(payload: seq<byte>): Item
    requires |payload| >= 4
  {
    Item(DIAGNOSTIC_ACK, payload[..4] + [ACK_OK])
  }

  function Diagnosis(uds: Handler, payload: seq<byte>): Item
    requires |payload| >= 4
  {
    Item(DIAGNOSTIC_MESSAGE, payload[2..4] + payload[..2] + uds(payload[4..]))
  }

  const ALIVE := Item(ALIVE_CHECK_RES, EncodeU16(ECU_ADDRESS))

  /** The messages sent for one frame. */
  function ReplyTo(uds: Handler, activated: bool, f: Frame): seq<Item> {
    if Activates(f) then
      [Item(ROUTING_ACTIVATION_RES, f.payload[..2] + EncodeU16(ECU_ADDRESS) + [ROUTING_OK, 0, 0, 0, 0])]
    else if AsksDiagnosis(f) && activated then [Ack(f.payload), Diagnosis(uds, f.payload)]
    else if f.kind == ALIVE_CHECK_REQ then [ALIVE]
    else []
  }

  function Next(s: Session, f: Frame): Session {
    if Activates(f) then Session(true, U16At(f.payload, 0)) else s
  }

  /** The session after a list of frames. */
  function After(s: Session, fs: seq<Frame>): Session
    decreases |fs|
  {
    if fs == [] then s else After(Next(s, fs[0]), fs[1..])
  }

  /** Everything sent for a list of frames. */
  function Serve(uds: Handler, s: Session, fs: seq<Frame>): seq<Item>
    decreases |fs|
  {
    if fs == [] then [] else ReplyTo(uds, s.activated, fs[0]) + Serve(uds, Next(s, fs[0]), fs[1..])
  }

  /** Everything a new connection sends for the bytes it has received. */
  function Replies(uds: Handler, received: seq<byte>): seq<Item> {
    Serve(uds, FRESH_SESSION, Frames(received))
  }

  lemma {:induction false} ServeAppend(uds: Handler, s: Session, a: seq<Frame>, b: seq<Frame>)
    ensures Serve(uds, s, a + b) == Serve(uds, s, a) + Serve(uds, After(s, a), b)
    ensures After(s, a + b) == After(After(s, a), b)
    decreases |a|
  {
    if a == [] {
      assert a + b == b;
    } else {
      assert (a + b)[1..] == a[1..] + b;
      ServeAppend(uds, Next(s, a[0]), a[1..], b);
    }
  }

  lemma ServeOneMore(uds: Handler, s: Session, a: seq<Frame>, f: Frame)
    ensures Serve(uds, s, a + [f]) == Serve(uds, s, a) + ReplyTo(uds, After(s, a).activated, f)
    ensures After(s, a + [f]) == Next(After(s, a), f)
  {
    ServeAppend(uds, s, a, [f]);
    assert Serve(uds, Next(After(s, a), f), []) == [];
  }

  /** Receiving more never takes back or changes what was already sent, and never ends an activation. */
  lemma RepliesGrow(uds: Handler, a: seq<byte>, b: seq<byte>)
    ensures Replies(uds, a) <= Replies(uds, a + b)
    ensures Replies(uds, a + b) == Replies(uds, a) + Serve(uds, After(FRESH_SESSION, Frames(a)), Frames(Rest(a) + b))
    ensures After(FRESH_SESSION, Frames(a)).activated ==> After(FRESH_SESSION, Frames(a + b)).activated
  {
    FramingResumes(a, b);
    ServeAppend(uds, FRESH_SESSION, Frames(a), Frames(Rest(a) + b));
    if After(FRESH_SESSION, Frames(a)).activated {
      StaysActivated(After(FRESH_SESSION, Frames(a)), Frames(Rest(a) + b));
    }
  }

  lemma {:induction false} StaysActivated(s: Session, fs: seq<Frame>)
    requires s.activated
    ensures After(s, fs).activated
    decreases |fs|
  {
    if fs != [] {
      StaysActivated(Next(s, fs[0]), fs[1..]);
    }
  }

  // ---- The session explained by the history of frames alone ----

  ghost predicate ActivatedBefore(fs: seq<Frame>, i: nat)
    requires i <= |fs|
  {
    exists j :: 0 <= j < i && Activates(fs[j])
  }

  /** What the i-th frame is answered with, given only the frames before it. */
  ghost function ExpectedReply(uds: Handler, fs: seq<Frame>, i: nat): seq<Item>
    requires i < |fs|
  {
    ReplyTo(uds, ActivatedBefore(fs, i), fs[i])
  }

  ghost function ExpectedReplies(uds: Handler, fs: seq<Frame>, n: nat): seq<Item>
    requires n <= |fs|
  {
    if n == 0 then [] else ExpectedReplies(uds, fs, n - 1) + ExpectedReply(uds, fs, n - 1)
  }

  /** A connection is activated exactly when it has received an activation request of two payload bytes or
      more, and remembers the tester of the last one. */
  lemma {:induction false} ActivationIsHistory(fs: seq<Frame>)
    ensures After(FRESH_SESSION, fs).activated <==> ActivatedBefore(fs, |fs|)
    ensures forall i :: 0 <= i < |fs| && Activates(fs[i]) && (forall j :: i < j < |fs| ==> !Activates(fs[j]))
                        ==> After(FRESH_SESSION, fs).tester == U16At(fs[i].payload, 0)
  {
    if fs != [] {
      var init, last := fs[..|fs| - 1], fs[|fs| - 1];
      assert fs == init + [last];
      ActivationIsHistory(init);
      ServeOneMore(_ => [], FRESH_SESSION, init, last);
      assert forall j :: 0 <= j < |init| ==> init[j] == fs[j];
    }
  }

  /** Over a whole run, the frames are answered one by one and in order, each by the frames before it. */
  lemma {:induction false} ServeIsHistory(uds: Handler, fs: seq<Frame>, n: nat)
    requires n <= |fs|
    ensures Serve(uds, FRESH_SESSION, fs[..n]) == ExpectedReplies(uds, fs, n)
  {
    if n > 0 {
      var init := fs[..n - 1];
      assert fs[..n] == init + [fs[n - 1]];
      ServeIsHistory(uds, fs, n - 1);
      ServeOneMore(uds, FRESH_SESSION, init, fs[n - 1]);
      ActivationIsHistory(init);
      assert ActivatedBefore(init, n - 1) <==> ActivatedBefore(fs, n - 1);
    }
  }

  predicate IsDiagnostic(m: Item) {
    m.payloadType == DIAGNOSTIC_ACK || m.payloadType == DIAGNOSTIC_MESSAGE
  }

  function CountType(items: seq<Item>, payloadType: uint16): nat {
    if items == [] then 0
    else CountType(items[..|items| - 1], payloadType) + if items[|items| - 1].payloadType == payloadType then 1 else 0
  }

  lemma {:induction false} CountTypeAppend(a: seq<Item>, b: seq<Item>, payloadType: uint16)
    ensures CountType(a + b, payloadType) == CountType(a, payloadType) + CountType(b, payloadType)
  {
    if b == [] {
      assert a + b == a;
    } else {
      assert (a + b)[..|a + b| - 1] == a + b[..|b| - 1];
      CountTypeAppend(a, b[..|b| - 1], payloadType);
    }
  }

  lemma CountTypeShort(a: seq<Item>, payloadType: uint16)
    requires |a| <= 2
    ensures CountType(a, payloadType)
            == (if |a| > 0 && a[0].payloadType == payloadType then 1 else 0)
               + (if |a| > 1 && a[1].payloadType == payloadType then 1 else 0)
  {
    if |a| == 2 {
      assert CountType(a[..1], payloadType) == CountType(a[..1][..0], payloadType)
                                               + if a[0].payloadType == payloadType then 1 else 0;
    }
  }

  lemma CountAfterReply(uds: Handler, sent: seq<Item>, activated: bool, f: Frame)
    ensures var answered := if AsksDiagnosis(f) && activated then 1 else 0;
            var all := sent + ReplyTo(uds, activated, f);
            && CountType(all, DIAGNOSTIC_ACK) == CountType(sent, DIAGNOSTIC_ACK) + answered
            && CountType(all, DIAGNOSTIC_MESSAGE) == CountType(sent, DIAGNOSTIC_MESSAGE) + answered
  {
    var reply := ReplyTo(uds, activated, f);
    CountTypeAppend(sent, reply, DIAGNOSTIC_ACK);
    CountTypeAppend(sent, reply, DIAGNOSTIC_MESSAGE);
    CountTypeShort(reply, DIAGNOSTIC_ACK);
    CountTypeShort(reply, DIAGNOSTIC_MESSAGE);
  }

  /** The number of diagnostic requests that arrived after an activation. */
  ghost function Answerable(fs: seq<Frame>, n: nat): nat
    requires n <= |fs|
  {
    if n == 0 then 0
    else Answerable(fs, n - 1) + if AsksDiagnosis(fs[n - 1]) && ActivatedBefore(fs, n - 1) then 1 else 0
  }

  /** Every diagnostic request after an activation, and no other frame, gets one ACK and one response. */
  lemma {:induction false} DiagnosticsAreAnsweredOnce(uds: Handler, fs: seq<Frame>, n: nat)
    requires n <= |fs|
    ensures CountType(ExpectedReplies(uds, fs, n), DIAGNOSTIC_ACK) == Answerable(fs, n)
    ensures CountType(ExpectedReplies(uds, fs, n), DIAGNOSTIC_MESSAGE) == Answerable(fs, n)
  {
    if n > 0 {
      DiagnosticsAreAnsweredOnce(uds, fs, n - 1);
      CountAfterReply(uds, ExpectedReplies(uds, fs, n - 1), ActivatedBefore(fs, n - 1), fs[n - 1]);
    }
  }

  /** Nothing diagnostic is sent unless some diagnostic request follows an activation. */
  lemma {:induction false} NoDiagnosisBeforeActivation(uds: Handler, fs: seq<Frame>, n: nat)
    requires n <= |fs|
    ensures (exists m <- ExpectedReplies(uds, fs, n) :: IsDiagnostic(m))
            <==> (exists i :: 0 <= i < n && AsksDiagnosis(fs[i]) && ActivatedBefore(fs, i))
  {
    if n > 0 {
      NoDiagnosisBeforeActivation(uds, fs, n - 1);
      var reply := ExpectedReply(uds, fs, n - 1);
      assert forall m :: m in ExpectedReplies(uds, fs, n) <==> m in ExpectedReplies(uds, fs, n - 1) || m in reply;
      if AsksDiagnosis(fs[n - 1]) && ActivatedBefore(fs, n - 1) {
        assert reply[0] in ExpectedReplies(uds, fs, n) && IsDiagnostic(reply[0]);
      }
    }
  }

  /** An activated connection answers a diagnostic request with exactly two messages. The first acknowledges
      it to the same address pair; the second goes back with the addresses swapped and carries the UDS answer. */
  lemma DiagnosticExchange(uds: Handler, f: Frame)
    requires f.kind == 0x8001 && |f.payload| >= 4
    ensures AsksDiagnosis(f)
    ensures var reply := ReplyTo(uds, true, f);
            && |reply| == 2
            && reply[0].payloadType == 0x8002 && reply[1].payloadType == 0x8001
            && |reply[0].payload| == 5 && |reply[1].payload| >= 4
            && U16At(reply[0].payload, 0) == U16At(f.payload, 0)
            && U16At(reply[0].payload, 2) == U16At(f.payload, 2)
            && reply[0].payload[4] == 0x00
            && U16At(reply[1].payload, 0) == U16At(f.payload, 2)
            && U16At(reply[1].payload, 2) == U16At(f.payload, 0)
            && reply[1].payload[4..] == uds(f.payload[4..])
  {
    var addresses := f.payload[2..4] + f.payload[..2];
    assert (addresses + uds(f.payload[4..]))[4..] == uds(f.payload[4..]);
  }

  /** An activation request is confirmed to the address it came from, whatever else it carries; an alive check
      is answered with the gateway's own address; nothing else is answered on a connection not yet activated,
      and on an activated one nothing but diagnostic requests. */
  lemma OtherExchanges(uds: Handler, f: Frame, activated: bool)
    ensures Activates(f) <==> f.kind == 0x0005 && |f.payload| >= 2
    ensures Activates(f) ==>
      var reply := ReplyTo(uds, activated, f);
      && |reply| == 1 && reply[0].payloadType == 0x0006 && |reply[0].payload| == 9
      && U16At(reply[0].payload, 0) == U16At(f.payload, 0) && U16At(reply[0].payload, 2) == 0x0001
      && reply[0].payload[4] == 0x10 && reply[0].payload[5..] == [0, 0, 0, 0]
    ensures f.kind == 0x0007 ==>
      var reply := ReplyTo(uds, activated, f);
      && |reply| == 1 && reply[0].payloadType == 0x0008 && |reply[0].payload| == 2
      && U16At(reply[0].payload, 0) == 0x0001
    ensures f.kind == 0x0005 && |f.payload| < 2 ==> ReplyTo(uds, activated, f) == []
    ensures f.kind == 0x8001 && (|f.payload| < 4 || !activated) ==> ReplyTo(uds, activated, f) == []
    ensures f.kind != 0x0005 && f.kind != 0x0007 && f.kind != 0x8001 ==> ReplyTo(uds, activated, f) == []
    ensures Next(Session(activated, 0), f).activated <==> activated || (f.kind == 0x0005 && |f.payload| >= 2)
  {
    if Activates(f) {
      var front := f.payload[..2] + EncodeU16(ECU_ADDRESS);
      assert ReplyTo(uds, activated, f)[0].payload == front + [ROUTING_OK, 0, 0, 0, 0];
      assert front[2..4] == EncodeU16(ECU_ADDRESS);
      U16Inverse(front, 2, ECU_ADDRESS);
    }
    U16Read([], ECU_ADDRESS, []);
    assert [] + EncodeU16(ECU_ADDRESS) + [] == EncodeU16(ECU_ADDRESS);
  }

  lemma ReplySize(uds: Handler, n: nat, activated: bool, f: Frame)
    requires forall req: seq<byte> :: |uds(req)| <= n
    ensures forall m <- ReplyTo(uds, activated, f) :: |m.payload| <= 9 + n
  {
  }

  lemma {:induction false} ServeSize(uds: Handler, n: nat, s: Session, fs: seq<Frame>)
    requires forall req: seq<byte> :: |uds(req)| <= n
    ensures forall m <- Serve(uds, s, fs) :: |m.payload| <= 9 + n
    decreases |fs|
  {
    if fs != [] {
      ReplySize(uds, n, s.activated, fs[0]);
      ServeSize(uds, n, Next(s, fs[0]), fs[1..]);
    }
  }

  /** The gateway's own UDS service. */
  function UdsService(dtcs: seq<Dtc>): Handler {
    req => Answer(dtcs, req)
  }

  /** A tester that reads the server's replies as one byte stream, through the same framing and a buffer of
      the same size, recovers exactly the messages the server meant to send. */
  lemma TesterReadsReplies(received: seq<byte>)
    ensures var items := Replies(UdsService(STORED_DTCS), received);
            var out := Concat(items);
            Frames(out) == AsFrames(items) && Rest(out) == [] && Absorbed(out) == |out|
  {
    var uds := UdsService(STORED_DTCS);
    forall req: seq<byte> ensures |uds(req)| <= 28 + 4 * 3 {
      AnswerSize(STORED_DTCS, req);
    }
    ServeSize(uds, 40, FRESH_SESSION, Frames(received));
    MessagesDelimitThemselves(Replies(uds, received));
  }
}
