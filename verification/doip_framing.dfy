/** Length-prefixed framing of a DoIP byte stream, and what a bounded receive buffer can take of it. */
module DoipFraming {
  import opened Bytes
  import opened DoipMessage

  /** One framed message: its version bytes, payload type and payload. */
  datatype Frame = Frame(version: byte, versionInv: byte, kind: uint16, payload: seq<byte>) {
    /** The 32-bit length field can announce the payload. */
    ghost predicate WellFormed() { |payload| < 0x1_0000_0000 }
    function Size(): nat { HEADER_SIZE + |payload| }
    function Header(): DoipHeader { DoipHeader(version, versionInv, kind, Low32(|payload|)) }
    function Wire(): seq<byte> { EncodeHeader(Header()) + payload }
  }

  /** Total size of the frame whose header starts s. */
  function HeadTotal(s: seq<byte>): (n: nat)
    requires |s| >= HEADER_SIZE
    ensures n >= HEADER_SIZE
  {
    HEADER_SIZE + U32At(s, 4)
  }

  predicate HeadComplete(s: seq<byte>) {
    |s| >= HEADER_SIZE && |s| >= HeadTotal(s)
  }

  function HeadFrame(s: seq<byte>): (f: Frame)
    requires HeadComplete(s)
    ensures f.WellFormed() && f.Size() == HeadTotal(s)
  {
    Frame(s[0], s[1], U16At(s, 2), s[HEADER_SIZE..HeadTotal(s)])
  }

  /** The complete frames of a stream, in order. */
  function Frames(s: seq<byte>): seq<Frame> {
    if HeadComplete(s) then [HeadFrame(s)] + Frames(s[HeadTotal(s)..]) else []
  }

  /** What is left of a stream behind its complete frames. */
  function Rest(s: seq<byte>): seq<byte> {
    if HeadComplete(s) then Rest(s[HeadTotal(s)..]) else s
  }

  /** The bytes of a list of frames. */
  function Join(fs: seq<Frame>): seq<byte> {
    if fs == [] then [] else fs[0].Wire() + Join(fs[1..])
  }

  lemma {:induction false} RestIncomplete(s: seq<byte>)
    ensures !HeadComplete(Rest(s))
    ensures |Rest(s)| <= |s|
  {
    if HeadComplete(s) {
      RestIncomplete(s[HeadTotal(s)..]);
    }
  }

  lemma HeadWire(s: seq<byte>)
    requires HeadComplete(s)
    ensures HeadFrame(s).Wire() == s[..HeadTotal(s)]
  {
    HeaderInverse(s, HeaderOf(s));
    assert HeadFrame(s).Header() == HeaderOf(s);
    assert s[..HeadTotal(s)] == s[..HEADER_SIZE] + s[HEADER_SIZE..HeadTotal(s)];
  }

  lemma {:induction false} FramesWellFormed(s: seq<byte>)
    ensures forall f <- Frames(s) :: f.WellFormed()
  {
    if HeadComplete(s) {
      FramesWellFormed(s[HeadTotal(s)..]);
    }
  }

  /** Framing drops, duplicates and reorders nothing: frames and rest spell the stream. */
  lemma {:induction false} FramesSpellStream(s: seq<byte>)
    ensures Join(Frames(s)) + Rest(s) == s
  {
    if HeadComplete(s) {
      var n := HeadTotal(s);
      var tail := s[n..];
      FramesSpellStream(tail);
      HeadWire(s);
      JoinCons(HeadFrame(s), Frames(tail));
      Regroup(s, n, HeadFrame(s).Wire(), Join(Frames(tail)), Rest(tail));
    }
  }

  lemma Regroup(s: seq<byte>, n: nat, a: seq<byte>, b: seq<byte>, c: seq<byte>)
    requires n <= |s| && a == s[..n] && b + c == s[n..]
    ensures (a + b) + c == s
  {
    assert (a + b) + c == a + (b + c);
  }

  lemma JoinCons(f: Frame, fs: seq<Frame>)
    ensures Join([f] + fs) == f.Wire() + Join(fs)
  {
    assert ([f] + fs)[1..] == fs;
  }

  lemma WireHead(f: Frame, t: seq<byte>)
    requires f.WellFormed()
    ensures var s := f.Wire() + t;
            HeadComplete(s) && HeadFrame(s) == f && s[HeadTotal(s)..] == t
  {
    var s := f.Wire() + t;
    assert s[..HEADER_SIZE] == EncodeHeader(f.Header());
    HeaderInverse(s, f.Header());
    assert s[HEADER_SIZE..f.Size()] == f.payload;
  }

  /** Frames and Rest are the only way to read a stream as well-formed frames and an incomplete rest. */
  lemma {:induction false} FramingIsUnique(fs: seq<Frame>, r: seq<byte>)
    requires forall f <- fs :: f.WellFormed()
    requires !HeadComplete(r)
    ensures Frames(Join(fs) + r) == fs
    ensures Rest(Join(fs) + r) == r
  {
    if fs == [] {
      assert Join(fs) + r == r;
    } else {
      var t := Join(fs[1..]) + r;
      assert Join(fs) + r == fs[0].Wire() + t;
      WireHead(fs[0], t);
      FramingIsUnique(fs[1..], r);
      assert fs == [fs[0]] + fs[1..];
    }
  }

  lemma HeadOfAppend(a: seq<byte>, b: seq<byte>)
    requires HeadComplete(a)
    ensures HeadComplete(a + b) && HeadTotal(a + b) == HeadTotal(a) && HeadFrame(a + b) == HeadFrame(a)
    ensures (a + b)[HeadTotal(a)..] == a[HeadTotal(a)..] + b
  {
    var n := HeadTotal(a);
    assert (a + b)[HEADER_SIZE..n] == a[HEADER_SIZE..n];
  }

  /** Framing can stop after any prefix and go on from what was left. */
  lemma {:induction false} FramingResumes(a: seq<byte>, b: seq<byte>)
    ensures Frames(a + b) == Frames(a) + Frames(Rest(a) + b)
    ensures Rest(a + b) == Rest(Rest(a) + b)
    decreases |a|
  {
    if HeadComplete(a) {
      var tail := a[HeadTotal(a)..];
      HeadOfAppend(a, b);
      FramingResumes(tail, b);
      var f, fs, gs := HeadFrame(a), Frames(tail), Frames(Rest(tail) + b);
      assert Frames(a) == [f] + fs && Rest(a) == Rest(tail);
      assert Frames(a + b) == [f] + Frames(tail + b);
      assert [f] + (fs + gs) == ([f] + fs) + gs;
    }
  }

  // ---- A receive buffer of fixed size ----

  const CAPACITY: nat := 4096

  ghost predicate AllFit(fs: seq<Frame>) {
    forall f <- fs :: f.Size() <= CAPACITY
  }

  /** How many bytes of a peer's stream a connection ever takes: all of it, unless a frame announces
      more than the buffer holds; that frame fills the buffer and nothing behind it is read. */
  function Absorbed(s: seq<byte>): (n: nat)
    ensures n <= |s|
  {
    if |s| < HEADER_SIZE then |s|
    else if HeadTotal(s) > CAPACITY then (if |s| < CAPACITY then |s| else CAPACITY)
    else if |s| < HeadTotal(s) then |s|
    else HeadTotal(s) + Absorbed(s[HeadTotal(s)..])
  }

  lemma AllFitHead(s: seq<byte>)
    requires HeadComplete(s)
    ensures AllFit(Frames(s)) <==> HeadTotal(s) <= CAPACITY && AllFit(Frames(s[HeadTotal(s)..]))
  {
    var f, tail := HeadFrame(s), Frames(s[HeadTotal(s)..]);
    assert Frames(s) == [f] + tail;
    assert f in Frames(s) && f.Size() == HeadTotal(s);
    assert forall g <- tail :: g in Frames(s);
    assert forall g <- Frames(s) :: g == f || g in tail;
  }

  /** A stream is taken whole exactly when its complete frames fit the buffer and so does its rest. */
  lemma {:induction false} AbsorbedWhole(s: seq<byte>)
    ensures Absorbed(s) == |s| <==> AllFit(Frames(s)) && |Rest(s)| <= CAPACITY
  {
    if HeadComplete(s) {
      AllFitHead(s);
      AbsorbedWhole(s[HeadTotal(s)..]);
    }
  }

  /** What is taken of a stream consists of whole frames that fit and a rest that fits; when the stream
      is not taken whole, the buffer is full and the frame at its front can never be completed. */
  lemma {:induction false} AbsorbedPrefix(s: seq<byte>)
    ensures var p := s[..Absorbed(s)];
            && AllFit(Frames(p))
            && |Rest(p)| <= CAPACITY
            && (Absorbed(s) < |s| ==> |Rest(p)| == CAPACITY && HeadTotal(Rest(p)) > CAPACITY)
  {
    if HeadComplete(s) && HeadTotal(s) <= CAPACITY {
      var n := HeadTotal(s);
      var head, tail := s[..n], s[n..];
      AbsorbedPrefix(tail);
      var q := tail[..Absorbed(tail)];
      assert s[..Absorbed(s)] == head + q;
      assert HeadTotal(head) == n;
      HeadOfAppend(head, q);
      assert (head + q)[n..] == q;
      AllFitHead(head + q);
    } else {
      AbsorbedPending(s);
    }
  }

  lemma AbsorbedPending(s: seq<byte>)
    requires !HeadComplete(s) || HeadTotal(s) > CAPACITY
    ensures var p := s[..Absorbed(s)];
            && Frames(p) == [] && Rest(p) == p && |p| <= CAPACITY
            && (|p| < |s| ==> |p| == CAPACITY && HeadTotal(p) > CAPACITY)
  {
    var p := s[..Absorbed(s)];
    assert |s| >= HEADER_SIZE ==> HeadTotal(p) == HeadTotal(s);
  }

  /** Nothing beyond the absorbed prefix can be taken, and a full buffer means it has all been taken. */
  lemma {:induction false} AbsorbedIsMaximal(p: seq<byte>, s: seq<byte>)
    requires p <= s
    requires AllFit(Frames(p)) && |Rest(p)| <= CAPACITY
    ensures |p| <= Absorbed(s)
    ensures |Rest(p)| == CAPACITY ==> |p| == Absorbed(s)
    decreases |p|
  {
    if HeadComplete(p) {
      var n := HeadTotal(p);
      assert HeadTotal(s) == n;
      AllFitHead(p);
      AbsorbedIsMaximal(p[n..], s[n..]);
    } else if |p| >= HEADER_SIZE {
      assert HeadTotal(p) == HeadTotal(s);
    }
  }

  lemma {:induction false} FramesWithin(s: seq<byte>)
    ensures forall f <- Frames(s) :: f.Size() <= |s|
  {
    if HeadComplete(s) {
      FramesWithin(s[HeadTotal(s)..]);
    }
  }

  /** Taking a chunk that fits the free space keeps frames and rest within the buffer. */
  lemma TakingKeepsFit(p: seq<byte>, chunk: seq<byte>)
    requires AllFit(Frames(p))
    requires |Rest(p)| + |chunk| <= CAPACITY
    ensures AllFit(Frames(p + chunk)) && |Rest(p + chunk)| <= CAPACITY
  {
    FramingResumes(p, chunk);
    FramesWithin(Rest(p) + chunk);
    RestIncomplete(Rest(p) + chunk);
  }

  // ---- Messages the gateway builds, read back through the framing ----

  /** A message to build: its payload type and payload. */
  datatype Item = Item(payloadType: uint16, payload: seq<byte>) {
    function Encoded(): seq<byte> { Message(payloadType, payload) }
    function AsFrame(): Frame {
      Frame(PROTO_VERSION, PROTO_VERSION_INV, payloadType, payload)
    }
  }

  function Concat(items: seq<Item>): seq<byte> {
    if items == [] then [] else items[0].Encoded() + Concat(items[1..])
  }

  function AsFrames(items: seq<Item>): (fs: seq<Frame>)
    ensures |fs| == |items| && forall i :: 0 <= i < |items| ==> fs[i] == items[i].AsFrame()
  {
    seq(|items|, i requires 0 <= i < |items| => items[i].AsFrame())
  }

  lemma {:induction false} ConcatIsJoin(items: seq<Item>)
    ensures Concat(items) == Join(AsFrames(items))
  {
    if items != [] {
      ConcatIsJoin(items[1..]);
      assert AsFrames(items)[1..] == AsFrames(items[1..]);
    }
  }

  /** Messages sent back to back are recovered, types and payloads in order and with nothing left over,
      and a buffer of fixed size takes all of them when each of them fits it. */
  lemma MessagesDelimitThemselves(items: seq<Item>)
    requires forall m <- items :: |m.payload| < 0x1_0000_0000
    ensures Frames(Concat(items)) == AsFrames(items)
    ensures Rest(Concat(items)) == []
    ensures Absorbed(Concat(items)) == |Concat(items)|
            <==> forall m <- items :: HEADER_SIZE + |m.payload| <= CAPACITY
  {
    ConcatIsJoin(items);
    FramingIsUnique(AsFrames(items), []);
    assert Join(AsFrames(items)) + [] == Concat(items);
    AbsorbedWhole(Concat(items));
    var fs := AsFrames(items);
    assert forall i :: 0 <= i < |items| ==> fs[i] in fs && fs[i].Size() == HEADER_SIZE + |items[i].payload|;
  }
}
