/** The DoIP server: connection table, reassembly in a fixed buffer, and dispatch. */
module DoipServer {
  import opened Bytes
  import opened Options
  import opened DoipMessage
  import opened DoipFraming
  import opened DoipSession
  import opened DoipTrace
  import opened Kernel
  import opened EventLoop
  import opened DoipSchedule
  import Uds

  class DoipConnection {
    var fd: int
    var activated: bool
    var testerAddr: uint16
    const recvBuf: array<byte>
    var recvLen: nat

    constructor (fd: int)
      ensures Valid() && this.fd == fd && fresh(recvBuf)
      ensures Pending() == [] && State() == FRESH_SESSION
    {
      this.fd, activated, testerAddr, recvLen := fd, false, 0, 0;
      recvBuf := new byte[CAPACITY](_ => 0);
    }

    ghost predicate Valid()
      reads this
    {
      recvBuf.Length == CAPACITY && recvLen <= CAPACITY
    }

    /** The bytes received and not yet dispatched. */
    ghost function Pending(): seq<byte>
      requires Valid()
      reads this, recvBuf
    {
      recvBuf[..recvLen]
    }

    ghost function State(): Session
      reads this
    {
      Session(activated, testerAddr)
    }
  }

  /** memmove to the front of the buffer. */
  method MoveDown(a: array<byte>, from: nat, n: nat)
    requires from + n <= a.Length
    modifies a
    ensures a[..n] == old(a[from..from + n])
  {
    forall i | 0 <= i < n {
      a[i] := a[from + i];
    }
  }

  class DoipServer {
    const kernel: Kernel
    const listenFd: int
    const uds: Uds.UdsHandler
    var connections: map<int, DoipConnection>
    ghost var repr: set<object>  // the connections and their buffers

    ghost function Service(): Handler { UdsService(uds.dtcs) }

    /** The connection holds exactly what its own bytes since its accept call for. */
    ghost predicate Explained(conn: DoipConnection, c: Epoch)
      reads conn, conn.recvBuf
    {
      && conn.Valid()
      && conn.Pending() == Rest(c.received)
      && conn.State() == After(FRESH_SESSION, Frames(c.received))
    }

    /** The connection table after a trace: one connection and one buffer to each open descriptor, every one
        of them explained. */
    ghost predicate TableValid(trace: Trace)
      reads this, repr
    {
      && this !in repr && kernel !in repr
      && (forall fd <- connections :: connections[fd] in repr && connections[fd].recvBuf in repr)
      && (forall fd :: fd in connections <==> Current(trace, fd).Some?)
      && (forall fd <- connections :: connections[fd].fd == fd
                                      && Explained(connections[fd], Current(trace, fd).value))
      && (forall f, g :: f in connections && g in connections && f != g
            ==> connections[f] != connections[g] && connections[f].recvBuf != connections[g].recvBuf)
    }

    ghost predicate DescriptorsValid()
      reads this, kernel
    {
      kernel.Valid() && listenFd in kernel.open && listenFd !in connections && connections.Keys <= kernel.open
    }

    /** What the outside sees of the server. */
    ghost function Now(): Moment
      reads this, kernel
    {
      Moment(kernel.open, kernel.interest, kernel.trace)
    }

    ghost predicate Valid()
      reads this, kernel, repr
    {
      && DescriptorsValid()
      && TableValid(kernel.trace)
      && Served(Service(), kernel.trace) && Settled(Service(), kernel.trace)
    }

    constructor (kernel: Kernel, listenFd: int)
      requires kernel.Valid() && kernel.trace == Start && listenFd in kernel.open
      ensures Valid() && this.kernel == kernel && this.listenFd == listenFd && connections == map[] && repr == {}
      ensures uds.dtcs == Uds.STORED_DTCS
    {
      this.kernel, this.listenFd, connections, repr := kernel, listenFd, map[], {};
      uds := new Uds.UdsHandler();
    }

    method SendToClient(fd: int, data: seq<byte>)
      requires kernel.Valid()
      modifies kernel`trace
      ensures kernel.trace == Then(old(kernel.trace), Sent(fd, data))
    {
      kernel.Send(fd, data);
    }

    method HandleRoutingActivation(conn: DoipConnection, payload: seq<byte>)
      requires kernel.Valid()
      modifies conn`activated, conn`testerAddr, kernel`trace
      ensures |payload| < 2 ==> conn.State() == old(conn.State()) && kernel.trace == old(kernel.trace)
      ensures |payload| >= 2 ==>
        && conn.State() == Session(true, U16At(payload, 0))
        && kernel.trace == Then(old(kernel.trace), Sent(conn.fd,
             Message(ROUTING_ACTIVATION_RES, payload[..2] + EncodeU16(ECU_ADDRESS) + [ROUTING_OK, 0, 0, 0, 0])))
    {
      if |payload| < 2 {
        return;
      }
      var testerAddr: uint16 := payload[0] as int * 0x100 + payload[1];
      conn.testerAddr := testerAddr;
      conn.activated := true;
      var res: seq<byte> := EncodeU16(testerAddr) + EncodeU16(ECU_ADDRESS) + [ROUTING_OK, 0, 0, 0, 0];
      U16Inverse(payload, 0, testerAddr);
      assert payload[0..2] == payload[..2];
      var msg := MakeDoipMessage(ROUTING_ACTIVATION_RES, res);
      SendToClient(conn.fd, msg);
    }

    method HandleDiagnosticMessage(conn: DoipConnection, payload: seq<byte>)
      requires kernel.Valid()
      modifies kernel`trace
      ensures kernel.trace == if !conn.activated || |payload| < 4 then old(kernel.trace)
                              else Then(Then(old(kernel.trace), Sent(conn.fd, Ack(payload).Encoded())),
                                        Sent(conn.fd, Diagnosis(Service(), payload).Encoded()))
    {
      if !conn.activated {
        return;
      }
      if |payload| < 4 {
        return;
      }
      var srcAddr: uint16 := payload[0] as int * 0x100 + payload[1];
      var tgtAddr: uint16 := payload[2] as int * 0x100 + payload[3];
      U16Inverse(payload, 0, srcAddr);
      U16Inverse(payload, 2, tgtAddr);

      var ack := EncodeU16(srcAddr) + EncodeU16(tgtAddr) + [ACK_OK];
      assert ack == payload[..4] + [ACK_OK];
      var ackMsg := MakeDoipMessage(DIAGNOSTIC_ACK, ack);
      SendToClient(conn.fd, ackMsg);

      var udsResponse := uds.Handle(payload[4..]);
      var diagPayload := EncodeU16(tgtAddr) + EncodeU16(srcAddr);
      diagPayload := diagPayload + udsResponse;
      assert diagPayload == Diagnosis(Service(), payload).payload;
      var diagMsg := MakeDoipMessage(DIAGNOSTIC_MESSAGE, diagPayload);
      SendToClient(conn.fd, diagMsg);
    }

    method HandleDoipMessage(conn: DoipConnection, hdr: DoipHeader, payload: seq<byte>)
      requires kernel.Valid()
      modifies conn`activated, conn`testerAddr, kernel`trace
      ensures var f := Frame(hdr.protoVersion, hdr.protoVersionInv, hdr.payloadType, payload);
              && conn.State() == Next(old(conn.State()), f)
              && kernel.trace == Sends(old(kernel.trace), conn.fd, ReplyTo(Service(), old(conn.activated), f))
    {
      ghost var start, reply := kernel.trace, ReplyTo(Service(), conn.activated,
        Frame(hdr.protoVersion, hdr.protoVersionInv, hdr.payloadType, payload));
      SendsShort(start, conn.fd, reply);
      match hdr.payloadType {
        case 0x0005 => HandleRoutingActivation(conn, payload);
        case 0x8001 => HandleDiagnosticMessage(conn, payload);
        case 0x0007 =>
          var msg := MakeDoipMessage(ALIVE_CHECK_RES, EncodeU16(ECU_ADDRESS));
          SendToClient(conn.fd, msg);
        case _ =>
      }
    }

    /** One turn of the reassembly loop: dispatches the frame at the front and moves what follows down. */
    method DispatchHead(conn: DoipConnection, hdr: DoipHeader, total: nat)
      requires kernel.Valid() && conn.Valid()
      requires HeadComplete(conn.Pending()) && hdr == HeaderOf(conn.Pending()) && total == HeadTotal(conn.Pending())
      modifies conn`activated, conn`testerAddr, conn`recvLen, conn.recvBuf, kernel`trace
      ensures conn.Valid() && conn.recvLen == old(conn.recvLen) - total
      ensures conn.Pending() == old(conn.Pending())[total..]
      ensures var f := HeadFrame(old(conn.Pending()));
              && conn.State() == Next(old(conn.State()), f)
              && kernel.trace == Sends(old(kernel.trace), conn.fd, ReplyTo(Service(), old(conn.activated), f))
    {
      ghost var cur := conn.Pending();
      HandleDoipMessage(conn, hdr, conn.recvBuf[..conn.recvLen][HEADER_SIZE..total]);
      conn.recvLen := conn.recvLen - total;
      assert conn.recvBuf[total..total + conn.recvLen] == cur[total..];
      if conn.recvLen > 0 {
        MoveDown(conn.recvBuf, total, conn.recvLen);
      }
    }

    /** The reassembly loop: dispatches every complete frame in the buffer and keeps the rest at its front. */
    method Reassemble(conn: DoipConnection)
      requires kernel.Valid() && conn.Valid()
      modifies conn`activated, conn`testerAddr, conn`recvLen, conn.recvBuf, kernel`trace
      ensures conn.Valid()
      ensures conn.Pending() == Rest(old(conn.Pending()))
      ensures conn.State() == After(old(conn.State()), Frames(old(conn.Pending())))
      ensures kernel.trace == Sends(old(kernel.trace), conn.fd,
                                      Serve(Service(), old(conn.State()), Frames(old(conn.Pending()))))
    {
      ghost var pending, state := conn.Pending(), conn.State();
      while conn.recvLen >= HEADER_SIZE
        invariant conn.Valid()
        invariant Rest(conn.Pending()) == Rest(pending)
        invariant After(conn.State(), Frames(conn.Pending())) == After(state, Frames(pending))
        invariant Sends(kernel.trace, conn.fd, Serve(Service(), conn.State(), Frames(conn.Pending())))
                  == Sends(old(kernel.trace), conn.fd, Serve(Service(), state, Frames(pending)))
        decreases conn.recvLen
      {
        var ok, hdr := Parse(conn.recvBuf, conn.recvLen, DEFAULT_HEADER);
        var total := HEADER_SIZE + hdr.payloadLength;
        if conn.recvLen < total {
          break;
        }
        ServeHead(Service(), conn.fd, kernel.trace, conn.State(), conn.Pending());
        DispatchHead(conn, hdr, total);
      }
      assert !HeadComplete(conn.Pending());
    }

    /** What a successful read does to its connection: the chunk goes behind the pending bytes, and
        everything that is complete by then is dispatched. */
    method Absorb(conn: DoipConnection, data: seq<byte>, ghost c: Epoch)
      requires kernel.Valid() && Explained(conn, c) && |data| <= CAPACITY - conn.recvLen
      modifies conn`activated, conn`testerAddr, conn`recvLen, conn.recvBuf, kernel`trace
      ensures Explained(conn, Epoch(c.received + data, []))
      ensures kernel.trace == Sends(old(kernel.trace), conn.fd, Owed(Service(), c.received, data))
    {
      forall i | 0 <= i < |data| {
        conn.recvBuf[conn.recvLen + i] := data[i];
      }
      conn.recvLen := conn.recvLen + |data|;
      assert conn.Pending() == Rest(c.received) + data;
      Reassemble(conn);
      FramingResumes(c.received, data);
      ServeAppend(Service(), FRESH_SESSION, Frames(c.received), Frames(Rest(c.received) + data));
    }

    /** The table after a successful read on one connection. */
    method AbsorbInTable(clientFd: int, data: seq<byte>, ghost before: Trace)
      requires DescriptorsValid() && clientFd in connections && TableValid(before)
      requires 0 < |data| <= CAPACITY - connections[clientFd].recvLen
      requires kernel.trace == Then(before, Received(clientFd, data))
      modifies kernel`trace, connections[clientFd], connections[clientFd].recvBuf
      ensures DescriptorsValid() && TableValid(kernel.trace)
      ensures kernel.trace == AfterRead(Service(), before, clientFd, Current(before, clientFd).value.received, data)
    {
      hide Served, Settled, Frames, Rest, Serve, After;
      var conn := connections[clientFd];
      Absorb(conn, data, Current(before, clientFd).value);
      forall g ensures Current(kernel.trace, g).Some? <==> Current(before, g).Some?
               ensures g != clientFd ==> Current(kernel.trace, g) == Current(before, g) {
        AfterReadCurrent(Service(), before, clientFd, data, g);
      }
      AfterReadCurrent(Service(), before, clientFd, data, clientFd);
    }

    /** A successful read keeps the whole server valid. */
    method AbsorbRead(clientFd: int, data: seq<byte>, ghost before: Trace)
      requires DescriptorsValid() && clientFd in connections && TableValid(before)
      requires Served(Service(), before) && Settled(Service(), before)
      requires 0 < |data| <= CAPACITY - connections[clientFd].recvLen
      requires kernel.trace == Then(before, Received(clientFd, data))
      modifies kernel`trace, connections[clientFd], connections[clientFd].recvBuf
      ensures Valid()
      ensures kernel.trace == AfterRead(Service(), before, clientFd, Current(before, clientFd).value.received, data)
    {
      ReadServed(Service(), before, clientFd, data);
      AbsorbInTable(clientFd, data, before);
    }

    method DropFromTable(clientFd: int)
      requires Valid() && clientFd in connections
      modifies this`connections, kernel
      ensures Valid() && connections == old(connections) - {clientFd}
      ensures kernel.open == old(kernel.open) - {clientFd} && kernel.interest == old(kernel.interest) - {clientFd}
      ensures kernel.trace == Then(old(kernel.trace), Closed(clientFd))
    {
      kernel.Close(clientFd);
      connections := connections - {clientFd};
    }

    /** A watched client became readable: one read, then reassembly; nothing to read means the peer is gone. */
    method OnClientData(clientFd: int, offered: Option<seq<byte>>)
      requires Valid()
      modifies this`connections, kernel, repr
      ensures Valid()
      ensures kernel.trace == AfterInput(Service(), old(kernel.trace), clientFd, offered)
      ensures var gone := if HangsUp(old(kernel.trace), clientFd, offered) then {clientFd} else {};
              && connections == old(connections) - gone
              && kernel.open == old(kernel.open) - gone && kernel.interest == old(kernel.interest) - gone
    {
      hide Served, Settled, Frames, Rest, Serve, After, AfterRead;
      if clientFd !in connections {
        return;
      }
      ghost var before := kernel.trace;
      assert Explained(connections[clientFd], Current(before, clientFd).value);
      var n, data := kernel.Recv(clientFd, offered, CAPACITY - connections[clientFd].recvLen);
      assert data == Read(Current(before, clientFd).value, offered);
      if n <= 0 {
        DropFromTable(clientFd);
        return;
      }
      AbsorbRead(clientFd, data, before);
    }

    // ---- The server in its event loop ----

    /** Exactly the live descriptors are watched: the listening socket, every connection under its own reader,
        and descriptors of other parts of the gateway. A reader that outlived its connection is not watched. */
    ghost predicate Watched(loop: EventLoop)
      reads this, kernel, loop
    {
      && loop.kernel == kernel && loop !in repr
      && listenFd in kernel.interest && listenFd in loop.readers && loop.readers[listenFd] == Listener
      && (forall f <- loop.readers :: loop.readers[f].Listener? ==> f == listenFd)
      && (forall f <- loop.readers :: loop.readers[f].Client? ==> loop.readers[f].fd == f)
      && (forall f <- connections :: f in kernel.interest && f in loop.readers && loop.readers[f] == Client(f))
      && (forall f <- kernel.interest :: f in loop.readers && (loop.readers[f].Client? ==> f in connections))
    }

    method RegisterWithLoop(loop: EventLoop) returns (ok: bool)
      requires Valid() && loop.kernel == kernel && loop !in repr
      requires connections == map[] && listenFd !in kernel.interest
      requires forall f <- loop.readers :: loop.readers[f].Foreign?
      requires kernel.interest <= loop.readers.Keys
      modifies loop`readers, kernel`interest
      ensures ok && Valid() && Watched(loop)
      ensures loop.readers == old(loop.readers)[listenFd := Listener]
      ensures kernel.interest == old(kernel.interest) + {listenFd}
    {
      ok := loop.AddReader(listenFd, Listener);
    }

    method AddToTable(clientFd: int, ghost before: Trace)
      requires DescriptorsValid() && TableValid(before) && clientFd !in connections
      requires clientFd in kernel.open && clientFd != listenFd
      requires kernel.trace == Then(before, Accepted(clientFd))
      modifies this
      ensures DescriptorsValid() && TableValid(kernel.trace) && fresh(repr - old(repr))
      ensures connections.Keys == old(connections.Keys) + {clientFd}
    {
      hide Served, Settled;
      var conn := new DoipConnection(clientFd);
      assert forall fd <- connections :: Explained(connections[fd], Current(before, fd).value);
      assert Explained(conn, Epoch([], []));
      connections := connections[clientFd := conn];
      repr := repr + {conn, conn.recvBuf};
    }

    /** Puts an accepted descriptor into the table and under a reader of its own. */
    method Admit(loop: EventLoop, clientFd: int, ghost before: Trace) returns (ok: bool)
      requires DescriptorsValid() && TableValid(before) && clientFd !in connections && Watched(loop)
      requires Served(Service(), before) && Settled(Service(), before)
      requires clientFd in kernel.open && clientFd !in kernel.interest
      requires kernel.trace == Then(before, Accepted(clientFd))
      modifies this, kernel`interest, loop`readers
      ensures ok && Valid() && Watched(loop) && fresh(repr - old(repr))
      ensures connections.Keys == old(connections.Keys) + {clientFd}
      ensures kernel.interest == old(kernel.interest) + {clientFd}
      ensures loop.readers == old(loop.readers)[clientFd := Client(clientFd)]
    {
      AcceptServed(Service(), before, clientFd);
      AddToTable(clientFd, before);
      ok := loop.AddReader(clientFd, Client(clientFd));
    }

    /** The listening socket became readable. The reader of the new connection replaces whatever reader an
        earlier connection left behind under the same descriptor. */
    method OnNewConnection(loop: EventLoop, candidate: int) returns (ok: bool)
      requires Valid() && Watched(loop)
      modifies this, kernel, loop`readers
      ensures ok && Valid() && Watched(loop) && fresh(repr - old(repr))
      ensures candidate < 0 || candidate in old(kernel.open) ==>
        kernel.trace == old(kernel.trace) && connections == old(connections)
        && kernel.open == old(kernel.open) && kernel.interest == old(kernel.interest)
        && loop.readers == old(loop.readers)
      ensures candidate >= 0 && candidate !in old(kernel.open) ==>
        && kernel.trace == Then(old(kernel.trace), Accepted(candidate))
        && connections.Keys == old(connections.Keys) + {candidate}
        && kernel.open == old(kernel.open) + {candidate} && kernel.interest == old(kernel.interest) + {candidate}
        && loop.readers == old(loop.readers)[candidate := Client(candidate)]
    {
      ghost var before := kernel.trace;
      var clientFd := kernel.Accept(candidate);
      if clientFd < 0 {
        return true;
      }
      ok := Admit(loop, clientFd, before);
    }

    /** One reported event: the reader of its descriptor runs, if the event is input and there is a reader. */
    method HandleReady(loop: EventLoop, e: Ready) returns (ok: bool)
      requires Valid() && Watched(loop)
      modifies this, kernel, loop`readers, repr
      ensures ok && Valid() && Watched(loop) && fresh(repr - old(repr))
      ensures Now() == AfterEvent(Service(), listenFd, old(Now()), e)
    {
      ok := true;
      if e.input && e.fd in loop.readers {
        match loop.readers[e.fd] {
          case Listener => ok := OnNewConnection(loop, e.candidate);
          case Client(fd) => OnClientData(fd, e.offered);
          case Foreign =>
        }
      }
    }
  }

  lemma ServeHead(uds: Handler, fd: int, trace: Trace, s: Session, pending: seq<byte>)
    requires HeadComplete(pending)
    ensures var f, rest := HeadFrame(pending), pending[HeadTotal(pending)..];
            && Rest(pending) == Rest(rest)
            && After(s, Frames(pending)) == After(Next(s, f), Frames(rest))
            && Sends(trace, fd, Serve(uds, s, Frames(pending)))
               == Sends(Sends(trace, fd, ReplyTo(uds, s.activated, f)), fd, Serve(uds, Next(s, f), Frames(rest)))
  {
    var f, fs := HeadFrame(pending), Frames(pending[HeadTotal(pending)..]);
    assert Frames(pending) == [f] + fs;
    ServeCons(uds, s, f, fs);
    SendsAppend(trace, fd, ReplyTo(uds, s.activated, f), Serve(uds, Next(s, f), fs));
  }

  lemma SendsShort(trace: Trace, fd: int, items: seq<Item>)
    requires |items| <= 2
    ensures Sends(trace, fd, items)
            == if items == [] then trace
               else
                 var first := Then(trace, Sent(fd, items[0].Encoded()));
                 if |items| == 1 then first else Then(first, Sent(fd, items[1].Encoded()))
  {
    if |items| == 2 {
      var first := Then(trace, Sent(fd, items[0].Encoded()));
      assert Sends(first, fd, items[1..])
          == Sends(Then(first, Sent(fd, items[1].Encoded())), fd, items[1..][1..]);
    }
  }

  lemma ServeCons(uds: Handler, s: Session, f: Frame, fs: seq<Frame>)
    ensures Serve(uds, s, [f] + fs) == ReplyTo(uds, s.activated, f) + Serve(uds, Next(s, f), fs)
    ensures After(s, [f] + fs) == After(Next(s, f), fs)
  {
    assert ([f] + fs)[1..] == fs;
  }
}
