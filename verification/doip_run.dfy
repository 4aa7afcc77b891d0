/** Whole runs of the DoIP server under any schedule the kernel may choose. */
module DoipRun {
  import opened Options
  import opened DoipTrace
  import opened Kernel
  import opened EventLoop
  import opened DoipServer
  import opened DoipSchedule
  import Uds

  /** Handles one batch: what each of its events calls for is done, one after another, and nothing else.
      Nothing is done with a connection accepted in the batch: an event gathered before a descriptor was reused
      never reaches the connection that reuses it. No reader throws. */
  method DispatchBatch(server: DoipServer, loop: EventLoop, events: seq<Ready>) returns (ok: bool)
    requires server.Valid() && server.Watched(loop)
    requires LegalBatch(events, server.kernel.interest)
    modifies server, server.kernel, loop`readers, server.repr
    ensures ok && server.Valid() && server.Watched(loop) && fresh(server.repr - old(server.repr))
    ensures server.Now() == AfterEvents(server.Service(), server.listenFd, old(server.Now()), events)
    ensures QuietSince(server.kernel.trace, Length(old(server.kernel.trace)))
  {
    ghost var start := server.Now();
    var i := 0;
    ok := true;
    while i < |events| && ok
      invariant i <= |events| && ok
      invariant server.Valid() && server.Watched(loop) && fresh(server.repr - old(server.repr))
      invariant server.Now() == AfterEvents(server.Service(), server.listenFd, start, events[..i])
    {
      hide AfterEvent;
      assert events[..i + 1][..i] == events[..i];
      ok := server.HandleReady(loop, events[i]);
      i := i + 1;
    }
    assert events[..i] == events;
    BatchIsQuiet(server.Service(), server.listenFd, start, events);
  }

  /** The event loop over any finite run: every wakeup the kernel may produce, in any order, with any bytes
      offered to any read and any descriptor handed out by any accept. All events reported before a stop are
      handled, in order. */
  method Run(server: DoipServer, loop: EventLoop, script: seq<Wakeup>) returns (ok: bool)
    requires server.Valid() && server.Watched(loop)
    modifies server, server.kernel, loop, server.repr
    ensures ok && server.Valid() && server.Watched(loop)
    ensures server.Now() == AfterRun(server.Service(), server.listenFd, old(server.Now()), script)
    ensures Served(server.Service(), server.kernel.trace) && Settled(server.Service(), server.kernel.trace)
  {
    ghost var start := server.Now();
    loop.running := true;
    ok := true;
    var i := 0;
    while loop.running && i < |script| && ok
      invariant ok && server.Valid() && server.Watched(loop) && fresh(server.repr - old(server.repr))
      invariant i <= |script| && loop.running == !Stopped(script[..i])
      invariant server.Now() == AfterRun(server.Service(), server.listenFd, start, script[..i])
      decreases |script| - i
    {
      RunStep(server.Service(), server.listenFd, start, script, i);
      match script[i] {
        case Interrupted(stop) =>
          if stop {
            loop.Stop();
          }
        case Batch(events) =>
          if LegalBatch(events, server.kernel.interest) {
            ok := DispatchBatch(server, loop, events);
          }
      }
      i := i + 1;
    }
    NothingBehindStop(server.Service(), server.listenFd, start, script, i);
  }

  /** From a fresh start: whatever happens, the connections are those that some event accepted and none closed
      since, each has received what its own events since then offered, as far as that is absorbed, and has been
      sent exactly the replies to it. */
  method RunFromStart(listenFd: int, others: set<int>, script: seq<Wakeup>)
    returns (ok: bool, server: DoipServer, loop: EventLoop)
    requires listenFd !in others
    ensures ok && server.Valid() && server.Watched(loop)
    ensures server.uds.dtcs == Uds.STORED_DTCS && server.listenFd == listenFd
    ensures var start := Moment(others + {listenFd}, {listenFd}, Start);
            && server.Now() == AfterRun(server.Service(), listenFd, start, script)
            && Explains(server.Service(), listenFd, start, Handled(server.Service(), listenFd, start, script),
                        server.kernel.trace)
    ensures Served(server.Service(), server.kernel.trace) && Settled(server.Service(), server.kernel.trace)
    ensures forall fd :: fd in server.connections <==> Current(server.kernel.trace, fd).Some?
  {
    var kernel := new Kernel(others + {listenFd});
    loop := new EventLoop(kernel);
    server := new DoipServer(kernel, listenFd);
    ok := server.RegisterWithLoop(loop);
    ghost var start := server.Now();
    assert start == Moment(others + {listenFd}, {listenFd}, Start);
    ok := Run(server, loop, script);
    RunIsExplained(server.Service(), listenFd, start, Handled(server.Service(), listenFd, start, script));
  }
}
