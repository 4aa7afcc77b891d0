/** What a schedule of events calls for, and what a connection receives under any schedule. */
module DoipSchedule {
  import opened Bytes
  import opened Options
  import opened DoipFraming
  import opened DoipSession
  import opened DoipTrace
  import opened EventLoop

  /** The open descriptors, the watched ones, and the trace so far. */
  datatype Moment = Moment(open: set<int>, watched: set<int>, trace: Trace)

  /** A listener event that brings a new connection. */
  predicate Accepts(s: Moment, listenFd: int, e: Ready) {
    e.input && e.fd == listenFd && e.candidate >= 0 && e.candidate !in s.open
  }

  /** One event: an accept, the input of one connection, or nothing. */
  function AfterEvent(uds: Handler, listenFd: int, s: Moment, e: Ready): Moment {
    if Accepts(s, listenFd, e) then
      Moment(s.open + {e.candidate}, s.watched + {e.candidate}, Then(s.trace, Accepted(e.candidate)))
    else if e.input && e.fd != listenFd then
      var gone := if HangsUp(s.trace, e.fd, e.offered) then {e.fd} else {};
      Moment(s.open - gone, s.watched - gone, AfterInput(uds, s.trace, e.fd, e.offered))
    else s
  }

  /** What each event of a list calls for, one after another. */
  function AfterEvents(uds: Handler, listenFd: int, s: Moment, es: seq<Ready>): Moment {
    if es == [] then s
    else AfterEvent(uds, listenFd, AfterEvents(uds, listenFd, s, es[..|es| - 1]), es[|es| - 1])
  }

  predicate Stopped(script: seq<Wakeup>) {
    Interrupted(true) in script
  }

  /** The events of a script that are handled: those of the batches the kernel may report, up to a stop. */
  function Handled(uds: Handler, listenFd: int, s: Moment, script: seq<Wakeup>): seq<Ready> {
    if script == [] then []
    else
      var init, last := script[..|script| - 1], script[|script| - 1];
      var before := Handled(uds, listenFd, s, init);
      if last.Batch? && !Stopped(init) && LegalBatch(last.events, AfterEvents(uds, listenFd, s, before).watched)
      then before + last.events else before
  }

  lemma {:induction false} NothingBehindStop(uds: Handler, listenFd: int, s: Moment, script: seq<Wakeup>, i: nat)
    requires i <= |script| && (i < |script| ==> Stopped(script[..i]))
    ensures Handled(uds, listenFd, s, script) == Handled(uds, listenFd, s, script[..i])
  {
    if i < |script| {
      var init := script[..|script| - 1];
      assert init[..i] == script[..i];
      assert Interrupted(true) in script[..i] ==> Interrupted(true) in init;
      NothingBehindStop(uds, listenFd, s, init, i);
    } else {
      assert script[..i] == script;
    }
  }

  /** The moment at the end of a run. */
  function AfterRun(uds: Handler, listenFd: int, s: Moment, script: seq<Wakeup>): Moment {
    AfterEvents(uds, listenFd, s, Handled(uds, listenFd, s, script))
  }

  lemma {:induction false} RunStep(uds: Handler, listenFd: int, s: Moment, script: seq<Wakeup>, i: nat)
    requires i < |script| && !Stopped(script[..i])
    ensures Stopped(script[..i + 1]) <==> script[i] == Interrupted(true)
    ensures var before := AfterRun(uds, listenFd, s, script[..i]);
            AfterRun(uds, listenFd, s, script[..i + 1])
            == if script[i].Batch? && LegalBatch(script[i].events, before.watched)
               then AfterEvents(uds, listenFd, before, script[i].events) else before
  {
    assert script[..i + 1][..i] == script[..i];
    assert script[..i + 1] == script[..i] + [script[i]];
    if script[i].Batch? {
      EventsAppend(uds, listenFd, s, Handled(uds, listenFd, s, script[..i]), script[i].events);
    }
  }

  lemma {:induction false} EventsAppend(uds: Handler, listenFd: int, s: Moment, a: seq<Ready>, b: seq<Ready>)
    ensures AfterEvents(uds, listenFd, s, a + b) == AfterEvents(uds, listenFd, AfterEvents(uds, listenFd, s, a), b)
    decreases |b|
  {
    hide AfterEvent;
    if b == [] {
      assert a + b == a;
    } else {
      assert (a + b)[..|a + b| - 1] == a + b[..|b| - 1];
      EventsAppend(uds, listenFd, s, a, b[..|b| - 1]);
    }
  }

  // ---- What can be said of every moment ----

  /** Connections are open and watched descriptors; the listening socket is open and never a connection. */
  ghost predicate Sound(s: Moment, listenFd: int) {
    && listenFd in s.open && Current(s.trace, listenFd).None?
    && s.watched <= s.open
    && (forall fd :: Current(s.trace, fd).Some? ==> fd in s.open)
  }

  /** One event, seen from one connection: its own input changes it, every other event leaves it alone. */
  lemma {:induction false} EventSeenFrom(uds: Handler, listenFd: int, s: Moment, e: Ready, fd: int)
    requires Sound(s, listenFd)
    ensures var now, c := Current(AfterEvent(uds, listenFd, s, e).trace, fd), Current(s.trace, fd);
            now == if Accepts(s, listenFd, e) && e.candidate == fd then Some(Epoch([], []))
                   else if c.None? || !e.input || e.fd != fd then c
                   else if HangsUp(s.trace, fd, e.offered) then None
                   else
                     var data := Read(c.value, e.offered);
                     Some(Epoch(c.value.received + data,
                                c.value.sent + Encodings(Owed(uds, c.value.received, data))))
  {
    hide Owed, AfterRead, Read;
    if !Accepts(s, listenFd, e) && e.input && e.fd != listenFd && Current(s.trace, e.fd).Some?
       && !HangsUp(s.trace, e.fd, e.offered) {
      AfterReadCurrent(uds, s.trace, e.fd, Read(Current(s.trace, e.fd).value, e.offered), fd);
    }
  }

  lemma {:induction false} EventSound(uds: Handler, listenFd: int, s: Moment, e: Ready)
    requires Sound(s, listenFd)
    ensures Sound(AfterEvent(uds, listenFd, s, e), listenFd)
  {
    var now := AfterEvent(uds, listenFd, s, e);
    forall fd ensures Current(now.trace, fd).Some? ==> fd in now.open && fd != listenFd {
      EventSeenFrom(uds, listenFd, s, e, fd);
      hide AfterInput, Owed, Read;
    }
    EventSeenFrom(uds, listenFd, s, e, listenFd);
  }

  lemma {:induction false} EventsSound(uds: Handler, listenFd: int, s: Moment, es: seq<Ready>)
    requires Sound(s, listenFd)
    ensures Sound(AfterEvents(uds, listenFd, s, es), listenFd)
  {
    if es != [] {
      var init := es[..|es| - 1];
      EventsSound(uds, listenFd, s, init);
      EventSound(uds, listenFd, AfterEvents(uds, listenFd, s, init), es[|es| - 1]);
    }
  }

  // ---- Batches ----

  /** One event of a batch, among those gathered with it. */
  ghost predicate BatchMoment(s: Moment, n: nat, todo: set<int>) {
    && n <= Length(s.trace) && QuietSince(s.trace, n)
    && AcceptedSince(s.trace, n) <= s.open && todo <= s.watched && todo !! AcceptedSince(s.trace, n)
  }

  lemma {:induction false} BatchStep(uds: Handler, listenFd: int, s: Moment, n: nat, todo: set<int>, e: Ready)
    requires Sound(s, listenFd) && BatchMoment(s, n, todo) && e.fd in todo
    ensures BatchMoment(AfterEvent(uds, listenFd, s, e), n, todo - {e.fd})
  {
    InputQuiet(uds, s.trace, n, e.fd, e.offered);
    hide AfterInput, HangsUp;
  }

  ghost function Descriptors(es: seq<Ready>): set<int> {
    set e <- es :: e.fd
  }

  lemma {:induction false} BatchMoments(uds: Handler, listenFd: int, s: Moment, es: seq<Ready>, i: nat)
    requires Sound(s, listenFd) && LegalBatch(es, s.watched) && i <= |es|
    ensures BatchMoment(AfterEvents(uds, listenFd, s, es[..i]), Length(s.trace), Descriptors(es[i..]))
  {
    if i > 0 {
      BatchMoments(uds, listenFd, s, es, i - 1);
      EventsSound(uds, listenFd, s, es[..i - 1]);
      assert es[i - 1..] == [es[i - 1]] + es[i..] && es[..i][..i - 1] == es[..i - 1];
      assert Descriptors(es[i..]) == Descriptors(es[i - 1..]) - {es[i - 1].fd};
      BatchStep(uds, listenFd, AfterEvents(uds, listenFd, s, es[..i - 1]), Length(s.trace),
                Descriptors(es[i - 1..]), es[i - 1]);
    } else {
      QuietAtOnce(s.trace);
    }
  }

  lemma QuietAtOnce(trace: Trace)
    ensures QuietSince(trace, Length(trace)) && AcceptedSince(trace, Length(trace)) == {}
  {
  }

  /** Nothing in a batch reaches a connection accepted in that batch: an event gathered before a descriptor
      was reused never reaches the connection that reuses it. */
  lemma BatchIsQuiet(uds: Handler, listenFd: int, s: Moment, es: seq<Ready>)
    requires Sound(s, listenFd) && LegalBatch(es, s.watched)
    ensures QuietSince(AfterEvents(uds, listenFd, s, es).trace, Length(s.trace))
  {
    BatchMoments(uds, listenFd, s, es, |es|);
    assert es[..|es|] == es;
  }

  // ---- What one connection receives ----

  /** The bytes a connection has after one event: what its own input offers, as far as the 4096-byte buffer
      has room for it. None when the connection is closed. */
  function AbsorbsOne(received: seq<byte>, e: Ready, fd: int): Option<seq<byte>> {
    if !e.input || e.fd != fd then Some(received)
    else if e.offered.None? || e.offered.value == [] || |Rest(received)| >= 4096 then None
    else
      var room := 4096 - |Rest(received)|;
      Some(received + e.offered.value[..if |e.offered.value| < room then |e.offered.value| else room])
  }

  /** The same for a list of events, one after another. */
  function Absorbs(received: seq<byte>, es: seq<Ready>, fd: int): Option<seq<byte>> {
    if es == [] then Some(received)
    else
      var r := Absorbs(received, es[..|es| - 1], fd);
      if r.None? then None else AbsorbsOne(r.value, es[|es| - 1], fd)
  }

  function OnlyOf(es: seq<Ready>, fd: int): seq<Ready> {
    if es == [] then []
    else
      var before, e := OnlyOf(es[..|es| - 1], fd), es[|es| - 1];
      if e.fd == fd then before + [e] else before
  }

  /** The events on other descriptors do not count. */
  lemma {:induction false} OwnEventsOnly(received: seq<byte>, es: seq<Ready>, fd: int)
    ensures Absorbs(received, es, fd) == Absorbs(received, OnlyOf(es, fd), fd)
  {
    if es != [] {
      OwnEventsOnly(received, es[..|es| - 1], fd);
      if es[|es| - 1].fd == fd {
        var own := OnlyOf(es, fd);
        assert own[..|own| - 1] == OnlyOf(es[..|es| - 1], fd);
      }
    }
  }

  /** The connection under fd has received these bytes and been sent exactly what they call for. */
  ghost predicate Holds(uds: Handler, s: Moment, fd: int, received: seq<byte>) {
    Current(s.trace, fd) == Some(Epoch(received, Encodings(Replies(uds, received))))
  }

  lemma {:induction false} ConnectionStep(
    uds: Handler, listenFd: int, s: Moment, e: Ready, fd: int, received: seq<byte>)
    requires Sound(s, listenFd) && Holds(uds, s, fd, received)
    ensures var r := AbsorbsOne(received, e, fd);
            var now := AfterEvent(uds, listenFd, s, e);
            if r.Some? then Holds(uds, now, fd, r.value) else Current(now.trace, fd).None?
  {
    hide Replies, Owed, Rest, Frames, AfterEvent;
    EventSeenFrom(uds, listenFd, s, e, fd);
    if e.input && e.fd == fd && e.offered.Some? {
      var data := Read(Current(s.trace, fd).value, e.offered);
      OwedCompletes(uds, received, data);
      assert e.offered.value[..|e.offered.value|] == e.offered.value;
    }
  }

  /** A connection from one of its moments on: while it is open, it has received exactly what its own events
      offered, as far as that is absorbed, and has been sent exactly what these bytes call for. */
  lemma {:induction false} ConnectionFollowsItsEvents(
    uds: Handler, listenFd: int, s: Moment, es: seq<Ready>, fd: int, received: seq<byte>)
    requires Sound(s, listenFd) && Holds(uds, s, fd, received)
    ensures var r := Absorbs(received, es, fd);
            r.Some? ==> Holds(uds, AfterEvents(uds, listenFd, s, es), fd, r.value)
  {
    if es != [] && Absorbs(received, es, fd).Some? {
      hide AbsorbsOne, Holds, AfterEvent;
      var init := es[..|es| - 1];
      ConnectionFollowsItsEvents(uds, listenFd, s, init, fd, received);
      EventsSound(uds, listenFd, s, init);
      ConnectionStep(uds, listenFd, AfterEvents(uds, listenFd, s, init), es[|es| - 1], fd,
                     Absorbs(received, init, fd).value);
    }
  }

  // ---- Who is connected after a run ----

  /** The k-th event accepts fd, and none behind it closes that connection. */
  ghost predicate Opens(uds: Handler, listenFd: int, s: Moment, es: seq<Ready>, k: nat, fd: int) {
    && k < |es| && es[k].candidate == fd
    && Accepts(AfterEvents(uds, listenFd, s, es[..k]), listenFd, es[k])
    && Absorbs([], es[k + 1..], fd).Some?
  }

  /** What such a connection has received and been sent: the bytes its own events since its accept offered, as
      far as they are absorbed, and the replies to them. */
  lemma {:induction false} OpenedConnection(uds: Handler, listenFd: int, s: Moment, es: seq<Ready>, k: nat, fd: int)
    requires Sound(s, listenFd) && Opens(uds, listenFd, s, es, k, fd)
    ensures Holds(uds, AfterEvents(uds, listenFd, s, es), fd, Absorbs([], es[k + 1..], fd).value)
  {
    var before, after := AfterEvents(uds, listenFd, s, es[..k]), AfterEvents(uds, listenFd, s, es[..k + 1]);
    assert es[..k + 1][..k] == es[..k];
    EventsSound(uds, listenFd, s, es[..k]);
    EventsSound(uds, listenFd, s, es[..k + 1]);
    NothingReceived(uds);
    assert Holds(uds, after, fd, []);
    ConnectionFollowsItsEvents(uds, listenFd, after, es[k + 1..], fd, []);
    assert es[..k + 1] + es[k + 1..] == es;
    EventsAppend(uds, listenFd, s, es[..k + 1], es[k + 1..]);
  }

  lemma NothingReceived(uds: Handler)
    ensures Encodings(Replies(uds, [])) == []
  {
    assert Frames([]) == [];
  }

  /** Every connection was opened by some event. */
  lemma {:induction false} ConnectionWasOpened(uds: Handler, listenFd: int, s: Moment, es: seq<Ready>, fd: int)
    returns (k: nat)
    requires Sound(s, listenFd) && Current(s.trace, fd).None?
    requires Current(AfterEvents(uds, listenFd, s, es).trace, fd).Some?
    ensures Opens(uds, listenFd, s, es, k, fd)
  {
    var init, e := es[..|es| - 1], es[|es| - 1];
    var before := AfterEvents(uds, listenFd, s, init);
    EventsSound(uds, listenFd, s, init);
    EventSeenFrom(uds, listenFd, before, e, fd);
    if Accepts(before, listenFd, e) && e.candidate == fd {
      k := |init|;
      assert es[k + 1..] == [];
    } else {
      hide AfterEvent, AbsorbsOne, Holds, Owed, Read, HangsUp, AfterInput;
      k := ConnectionWasOpened(uds, listenFd, s, init, fd);
      assert init[..k] == es[..k];
      assert es[k + 1..][..|es[k + 1..]| - 1] == init[k + 1..];
      OpenedConnection(uds, listenFd, s, init, k, fd);
      ConnectionStep(uds, listenFd, before, e, fd, Absorbs([], init[k + 1..], fd).value);
    }
  }

  /** The connections after a run, without the trace: a descriptor is connected exactly when some event
      accepted it and none behind that closed it, and then holds what its own events since then offered. */
  ghost predicate Explains(uds: Handler, listenFd: int, s: Moment, es: seq<Ready>, trace: Trace) {
    && (forall fd :: Current(trace, fd).Some? <==> exists k :: Opens(uds, listenFd, s, es, k, fd))
    && (forall k, fd :: Opens(uds, listenFd, s, es, k, fd) ==>
          var received := Absorbs([], es[k + 1..], fd).value;
          Current(trace, fd) == Some(Epoch(received, Encodings(Replies(uds, received)))))
  }

  lemma {:induction false} RunIsExplained(uds: Handler, listenFd: int, s: Moment, es: seq<Ready>)
    requires Sound(s, listenFd) && s.trace == Start
    ensures Explains(uds, listenFd, s, es, AfterEvents(uds, listenFd, s, es).trace)
  {
    var now := AfterEvents(uds, listenFd, s, es);
    forall k, fd | Opens(uds, listenFd, s, es, k, fd)
      ensures Holds(uds, now, fd, Absorbs([], es[k + 1..], fd).value)
    {
      OpenedConnection(uds, listenFd, s, es, k, fd);
    }
    forall fd | Current(now.trace, fd).Some? ensures exists k :: Opens(uds, listenFd, s, es, k, fd) {
      var k := ConnectionWasOpened(uds, listenFd, s, es, fd);
    }
    hide Opens, Absorbs;
  }

  // ---- A peer that sends one stream ----

  function InputCount(es: seq<Ready>, fd: int): nat {
    if es == [] then 0
    else
      var before, e := InputCount(es[..|es| - 1], fd), es[|es| - 1];
      before + if e.input && e.fd == fd then 1 else 0
  }

  /** Each input on fd offers some of what is left of the stream. */
  ghost predicate Offers(stream: seq<byte>, received: seq<byte>, es: seq<Ready>, fd: int) {
    es != [] ==>
      var init, e := es[..|es| - 1], es[|es| - 1];
      && Offers(stream, received, init, fd)
      && (e.input && e.fd == fd && Absorbs(received, init, fd).Some? ==>
            e.offered.Some? && e.offered.value != []
            && Absorbs(received, init, fd).value + e.offered.value <= stream)
  }

  /** A stream whose frames and rest fit the buffer is never hung up on, however it is cut and whatever other
      connections do: what is received is a prefix of it, and every input takes at least one byte more. */
  lemma {:induction false} FittingStreamIsTaken(stream: seq<byte>, received: seq<byte>, es: seq<Ready>, fd: int)
    requires AllFit(Frames(stream)) && |Rest(stream)| <= CAPACITY
    requires AllFit(Frames(received)) && |Rest(received)| <= CAPACITY && received <= stream
    requires Offers(stream, received, es, fd)
    ensures var r := Absorbs(received, es, fd);
            && r.Some? && received <= r.value <= stream
            && AllFit(Frames(r.value)) && |Rest(r.value)| <= CAPACITY
            && |r.value| >= |received| + InputCount(es, fd)
  {
    if es != [] {
      var init, e := es[..|es| - 1], es[|es| - 1];
      FittingStreamIsTaken(stream, received, init, fd);
      if e.input && e.fd == fd {
        hide Frames, Rest, AllFit;
        RoomForMore(stream, Absorbs(received, init, fd).value);
        var r, data := Absorbs(received, init, fd).value, e.offered.value;
        var taken := data[..if |data| < 4096 - |Rest(r)| then |data| else 4096 - |Rest(r)|];
        assert r + taken <= r + data <= stream;
        TakingKeepsFit(r, taken);
      }
    }
  }

  lemma {:induction false} RoomForMore(stream: seq<byte>, p: seq<byte>)
    requires AllFit(Frames(stream)) && |Rest(stream)| <= CAPACITY
    requires AllFit(Frames(p)) && |Rest(p)| <= CAPACITY && p <= stream
    ensures p != stream ==> |Rest(p)| < 4096
  {
    AbsorbedIsMaximal(p, stream);
    AbsorbedWhole(stream);
  }
}
