/** Reading a whole DBC file, line by line. */
module DbcParser {
  import opened Bytes
  import opened Options
  import opened CanTypes
  import opened DbcText
  import opened DbcLines

  // ---- What a line is ----

  datatype LineKind = Blank | Header(msg: MessageDef) | Signal(sig: SignalDef) | Other

  /** A Windows line ending leaves one carriage return behind. */
  function StripReturn(line: string): string {
    if line != [] && line[|line| - 1] == '\r' then line[..|line| - 1] else line
  }

  predicate IsBlank(line: string) {
    forall c <- line :: c == ' ' || c == '\t' || c == '\r' || c == '\n'
  }

  function TrimLeft(line: string): string {
    if line != [] && (line[0] == ' ' || line[0] == '\t') then TrimLeft(line[1..]) else line
  }

  predicate StartsWith(line: string, tag: string) {
    |line| >= |tag| && line[..|tag|] == tag
  }

  /** What a line of the file means, on its own. A malformed line means nothing. */
  function Classify(line: string): LineKind {
    var s := StripReturn(line);
    if IsBlank(s) then Blank
    else
      var t := TrimLeft(s);
      if StartsWith(t, "BO_ ") then
        var msg := ParseMessageLine(t);
        if msg.Some? then Header(msg.value) else Other
      else if StartsWith(t, "SG_ ") then
        var sig := ParseSignalLine(t);
        if sig.Some? then Signal(sig.value) else Other
      else Other
  }

  // ---- The parser ----

  /** The messages so far, and the one that signals are added to, if any. */
  datatype State = State(messages: map<uint32, MessageDef>, current: Option<uint32>)

  function Step(st: State, kind: LineKind): State {
    match kind
    case Blank => st.(current := None)
    case Header(msg) => State(st.messages[msg.canId := msg], Some(msg.canId))
    case Signal(sig) =>
      if st.current.Some? && st.current.value in st.messages then
        var m := st.messages[st.current.value];
        st.(messages := st.messages[st.current.value := m.(signals := m.signals + [sig])])
      else st
    case Other => st
  }

  function Fold(st: State, kinds: seq<LineKind>): State {
    if kinds == [] then st else Step(Fold(st, kinds[..|kinds| - 1]), kinds[|kinds| - 1])
  }

  function Kinds(lines: seq<string>): (ks: seq<LineKind>)
    ensures |ks| == |lines| && forall i :: 0 <= i < |lines| ==> ks[i] == Classify(lines[i])
  {
    seq(|lines|, i requires 0 <= i < |lines| => Classify(lines[i]))
  }

  class DbcParser {
    var messages: map<uint32, MessageDef>

    constructor ()
      ensures messages == map[]
    {
      messages := map[];
    }

    /** Reads a file into the table. A file that cannot be begun changes nothing. */
    method Parse(file: Option<seq<string>>) returns (ok: bool)
      modifies this
      ensures ok == file.Some?
      ensures messages == if file.None? then old(messages)
                          else Fold(State(old(messages), None), Kinds(file.value)).messages
    {
      if file.None? {
        return false;
      }
      var lines := file.value;
      var currentId: uint32, inMessage := 0, false;
      ghost var start := State(messages, None);
      for i := 0 to |lines|
        invariant inMessage ==> currentId in messages
        invariant Fold(start, Kinds(lines[..i])) == State(messages, if inMessage then Some(currentId) else None)
      {
        KindsOneMore(lines, i);
        var line := StripReturn(lines[i]);
        if IsBlank(line) {
          inMessage := false;
        } else {
          var trimmed := TrimLeft(line);
          if StartsWith(trimmed, "BO_ ") {
            var msg := ParseMessageLine(trimmed);
            if msg.Some? {
              currentId := msg.value.canId;
              messages := messages[currentId := msg.value];
              inMessage := true;
            }
          } else if StartsWith(trimmed, "SG_ ") && inMessage {
            var sig := ParseSignalLine(trimmed);
            if sig.Some? {
              var m := messages[currentId];
              messages := messages[currentId := m.(signals := m.signals + [sig.value])];
            }
          }
        }
      }
      assert lines[..|lines|] == lines;
      return true;
    }

    function FindMessage(canId: uint32): Option<MessageDef>
      reads this
    {
      if canId in messages then Some(messages[canId]) else None
    }
  }

  lemma {:induction false} KindsOneMore(lines: seq<string>, i: nat)
    requires i < |lines|
    ensures Kinds(lines[..i + 1]) == Kinds(lines[..i]) + [Classify(lines[i])]
    ensures forall st :: Fold(st, Kinds(lines[..i + 1])) == Step(Fold(st, Kinds(lines[..i])), Classify(lines[i]))
  {
    hide Classify, Step;
    var ks := Kinds(lines[..i]);
    assert Kinds(lines[..i + 1]) == ks + [Classify(lines[i])];
    assert (ks + [Classify(lines[i])])[..i] == ks;
  }

  /** A line of nothing but spaces, tabs and line ends is blank, whatever their number and order, and no other
      line is. */
  lemma {:induction false} BlankLines(line: string)
    ensures Classify(line) == Blank <==> forall c <- line :: c == ' ' || c == '\t' || c == '\r' || c == '\n'
  {
    hide ParseMessageLine, ParseSignalLine, TrimLeft;
    var s := StripReturn(line);
    if s != line {
      assert line == s + ['\r'];
      assert forall c :: c in line <==> c in s || c == '\r';
    }
    assert IsBlank(s) <==> IsBlank(line);
  }

  /** Any mix of spaces and tabs in front of a line makes no difference. */
  lemma {:induction false} IndentIsIgnored(indent: string, line: string)
    requires forall c <- indent :: c == ' ' || c == '\t'
    ensures Classify(indent + line) == Classify(line)
  {
    hide Classify;
    if indent == [] {
      assert indent + line == line;
    } else {
      assert indent[0] in indent && forall c <- indent[1..] :: c in indent;
      IndentIsIgnored(indent[1..], line);
      OneBlankIsIgnored(indent[0], indent[1..] + line);
      assert indent + line == [indent[0]] + (indent[1..] + line);
    }
  }

  lemma {:induction false} OneBlankIsIgnored(c: char, line: string)
    requires c == ' ' || c == '\t'
    ensures Classify([c] + line) == Classify(line)
  {
    hide ParseMessageLine, ParseSignalLine;
    var t := StripReturn(line);
    assert StripReturn([c] + line) == [c] + t;
    assert ([c] + t)[1..] == t;
    assert IsBlank([c] + t) <==> IsBlank(t) by {
      assert forall x :: x in [c] + t <==> x == c || x in t;
    }
    assert TrimLeft([c] + t) == TrimLeft(t);
  }

  /** One carriage return at the end of a line makes no difference. */
  lemma {:induction false} ReturnIsIgnored(line: string)
    requires line == [] || line[|line| - 1] != '\r'
    ensures Classify(line + "\r") == Classify(line)
  {
    hide IsBlank, ParseMessageLine, ParseSignalLine, TrimLeft;
    assert (line + "\r")[..|line|] == line;
  }

  // ---- What a file means, without running the parser ----

  /** The signals that follow from line j on, up to the next blank line or header. */
  function Block(kinds: seq<LineKind>, j: nat, n: nat): seq<SignalDef>
    requires j <= n <= |kinds|
    decreases n - j
  {
    if j == n || kinds[j].Blank? || kinds[j].Header? then []
    else (if kinds[j].Signal? then [kinds[j].sig] else []) + Block(kinds, j + 1, n)
  }

  /** No blank line and no header from line j up to line n. */
  ghost predicate StillOpen(kinds: seq<LineKind>, j: nat, n: nat)
    requires j <= n <= |kinds|
  {
    forall i :: j <= i < n ==> !kinds[i].Blank? && !kinds[i].Header?
  }

  /** Line h is the last header for its id among the first n lines. */
  ghost predicate LastHeader(kinds: seq<LineKind>, n: nat, h: nat)
    requires n <= |kinds|
  {
    && h < n && kinds[h].Header?
    && (forall i :: h < i < n && kinds[i].Header? ==> kinds[i].msg.canId != kinds[h].msg.canId)
  }

  ghost predicate Declared(kinds: seq<LineKind>, n: nat, id: uint32)
    requires n <= |kinds|
  {
    exists h :: 0 <= h < n && kinds[h].Header? && kinds[h].msg.canId == id
  }

  lemma {:induction false} BlockOneMore(kinds: seq<LineKind>, j: nat, n: nat)
    requires j <= n < |kinds|
    ensures Block(kinds, j, n + 1)
            == Block(kinds, j, n) + if StillOpen(kinds, j, n) && kinds[n].Signal? then [kinds[n].sig] else []
    decreases n - j
  {
    if j == n {
      assert Block(kinds, n + 1, n + 1) == [];
    } else if !kinds[j].Blank? && !kinds[j].Header? {
      BlockOneMore(kinds, j + 1, n);
      assert StillOpen(kinds, j, n) <==> StillOpen(kinds, j + 1, n);
      var a, b := if kinds[j].Signal? then [kinds[j].sig] else [], Block(kinds, j + 1, n);
      var c := if StillOpen(kinds, j, n) && kinds[n].Signal? then [kinds[n].sig] else [];
      assert a + (b + c) == (a + b) + c;
    }
  }

  /** The message that signals are added to is that of the last header, unless a blank line came since. */
  ghost predicate CurrentMeans(kinds: seq<LineKind>, n: nat, current: Option<uint32>)
    requires n <= |kinds|
  {
    && (current.Some? ==> exists h :: 0 <= h < n && kinds[h].Header? && StillOpen(kinds, h + 1, n)
                                      && kinds[h].msg.canId == current.value)
    && (forall h :: 0 <= h < n && kinds[h].Header? && StillOpen(kinds, h + 1, n)
                    ==> current == Some(kinds[h].msg.canId))
  }

  /** Every declared id stands for its last header with the signals of its block; other ids are as before. */
  ghost predicate MessagesMean(kinds: seq<LineKind>, n: nat, before: map<uint32, MessageDef>, now: map<uint32, MessageDef>)
    requires n <= |kinds|
  {
    && (forall h: nat :: LastHeader(kinds, n, h) ==>
          && kinds[h].msg.canId in now
          && now[kinds[h].msg.canId]
             == kinds[h].msg.(signals := kinds[h].msg.signals + Block(kinds, h + 1, n)))
    && (forall id: uint32 :: !Declared(kinds, n, id) ==>
          && (id in now <==> id in before)
          && (id in now ==> now[id] == before[id]))
  }

  lemma {:induction false} CurrentStep(kinds: seq<LineKind>, n: nat, st: State)
    requires n < |kinds| && CurrentMeans(kinds, n, st.current)
    ensures CurrentMeans(kinds, n + 1, Step(st, kinds[n]).current)
  {
    var now := Step(st, kinds[n]).current;
    if kinds[n].Header? {
      assert StillOpen(kinds, n + 1, n + 1);
    } else if now.Some? {
      var h :| 0 <= h < n && kinds[h].Header? && StillOpen(kinds, h + 1, n) && kinds[h].msg.canId == now.value;
      assert StillOpen(kinds, h + 1, n + 1);
    }
    forall h | 0 <= h < n + 1 && kinds[h].Header? && StillOpen(kinds, h + 1, n + 1)
      ensures now == Some(kinds[h].msg.canId)
    {
      if h < n {
        assert StillOpen(kinds, h + 1, n);
        assert !kinds[n].Blank? && !kinds[n].Header?;
      }
    }
  }

  /** An open header is the last one for its id. */
  lemma {:induction false} OpenIsLast(kinds: seq<LineKind>, n: nat, h: nat)
    requires h < n <= |kinds| && kinds[h].Header? && StillOpen(kinds, h + 1, n)
    ensures LastHeader(kinds, n, h)
  {
  }

  lemma {:induction false} MessagesStep(kinds: seq<LineKind>, n: nat, before: map<uint32, MessageDef>, st: State)
    requires n < |kinds| && CurrentMeans(kinds, n, st.current) && MessagesMean(kinds, n, before, st.messages)
    ensures MessagesMean(kinds, n + 1, before, Step(st, kinds[n]).messages)
  {
    hide Step, Block, CurrentMeans, Declared;
    var now := Step(st, kinds[n]).messages;
    forall h: nat | LastHeader(kinds, n + 1, h)
      ensures kinds[h].msg.canId in now
      ensures now[kinds[h].msg.canId] == kinds[h].msg.(signals := kinds[h].msg.signals + Block(kinds, h + 1, n + 1))
    {
      DeclaredStep(kinds, n, h, before, st);
    }
    forall id: uint32 | !Declared(kinds, n + 1, id)
      ensures (id in now <==> id in before) && (id in now ==> now[id] == before[id])
    {
      UndeclaredStep(kinds, n, id, before, st);
    }
  }

  lemma {:induction false} DeclaredStep(kinds: seq<LineKind>, n: nat, h: nat, before: map<uint32, MessageDef>, st: State)
    requires n < |kinds| && CurrentMeans(kinds, n, st.current) && MessagesMean(kinds, n, before, st.messages)
    requires LastHeader(kinds, n + 1, h)
    ensures var m, now := kinds[h].msg, Step(st, kinds[n]).messages;
            m.canId in now && now[m.canId] == m.(signals := m.signals + Block(kinds, h + 1, n + 1))
  {
    var m := kinds[h].msg;
    if h < n {
      assert LastHeader(kinds, n, h);
      BlockOneMore(kinds, h + 1, n);
      SignalGoesToOpenBlock(kinds, n, h, st);
      var b := Block(kinds, h + 1, n);
      if StillOpen(kinds, h + 1, n) && kinds[n].Signal? {
        assert m.signals + (b + [kinds[n].sig]) == (m.signals + b) + [kinds[n].sig];
      } else {
        assert b + [] == b;
      }
    } else {
      assert m.signals + Block(kinds, h + 1, n + 1) == m.signals;
    }
  }

  lemma {:induction false} UndeclaredStep(
    kinds: seq<LineKind>, n: nat, id: uint32, before: map<uint32, MessageDef>, st: State)
    requires n < |kinds| && CurrentMeans(kinds, n, st.current) && MessagesMean(kinds, n, before, st.messages)
    requires !Declared(kinds, n + 1, id)
    ensures var now := Step(st, kinds[n]).messages;
            (id in now <==> id in before) && (id in now ==> now[id] == before[id])
  {
    assert !Declared(kinds, n, id);
  }

  /** A signal is added to the message of a header exactly when that header's block is still open. */
  lemma {:induction false} SignalGoesToOpenBlock(kinds: seq<LineKind>, n: nat, h: nat, st: State)
    requires n < |kinds| && LastHeader(kinds, n + 1, h) && h < n
    requires CurrentMeans(kinds, n, st.current) && kinds[h].msg.canId in st.messages
    ensures var m, id := st.messages[kinds[h].msg.canId], kinds[h].msg.canId;
            && id in Step(st, kinds[n]).messages
            && Step(st, kinds[n]).messages[id]
               == if StillOpen(kinds, h + 1, n) && kinds[n].Signal? then m.(signals := m.signals + [kinds[n].sig])
                  else m
  {
    if kinds[n].Signal? && st.current == Some(kinds[h].msg.canId) {
      var g :| 0 <= g < n && kinds[g].Header? && StillOpen(kinds, g + 1, n)
               && kinds[g].msg.canId == kinds[h].msg.canId;
      OpenIsLast(kinds, n, g);
    }
  }

  /** The parser's table is what the file declares: an id is in it when some header declares it or it was there
      before; it stands for the last header with that id; and its signals are those that follow that header
      before the next blank line or header. Malformed lines and stray signals change nothing. */
  lemma {:induction false} FileMeaning(kinds: seq<LineKind>, n: nat, before: map<uint32, MessageDef>)
    requires n <= |kinds|
    ensures var st := Fold(State(before, None), kinds[..n]);
            CurrentMeans(kinds, n, st.current) && MessagesMean(kinds, n, before, st.messages)
  {
    if n > 0 {
      FileMeaning(kinds, n - 1, before);
      assert kinds[..n][..n - 1] == kinds[..n - 1];
      var st := Fold(State(before, None), kinds[..n - 1]);
      CurrentStep(kinds, n - 1, st);
      MessagesStep(kinds, n - 1, before, st);
    } else {
      assert kinds[..0] == [];
    }
  }

  // ---- Writing a file and reading it ----

  /** A message as a DBC file writes it. */
  datatype MessageText = MessageText(header: HeaderText, signals: seq<SignalText>) {
    ghost predicate Valid() {
      header.Valid() && forall s <- signals :: s.Valid()
    }

    ghost function Meaning(): MessageDef
      requires Valid()
    {
      header.Meaning().(signals := Meanings(signals))
    }

    function Lines(): seq<string> {
      [header.Line()] + SignalLines(signals) + [""]
    }
  }

  function SignalLines(signals: seq<SignalText>): seq<string> {
    if signals == [] then [] else SignalLines(signals[..|signals| - 1]) + [signals[|signals| - 1].Line()]
  }

  ghost function Meanings(signals: seq<SignalText>): (r: seq<SignalDef>)
    requires forall s <- signals :: s.Valid()
  {
    if signals == [] then []
    else Meanings(signals[..|signals| - 1]) + [signals[|signals| - 1].Meaning()]
  }

  function FileLines(file: seq<MessageText>): seq<string> {
    if file == [] then [] else FileLines(file[..|file| - 1]) + file[|file| - 1].Lines()
  }

  ghost function FileMessages(before: map<uint32, MessageDef>, file: seq<MessageText>): map<uint32, MessageDef>
    requires forall m <- file :: m.Valid()
  {
    if file == [] then before
    else
      var m := file[|file| - 1].Meaning();
      FileMessages(before, file[..|file| - 1])[m.canId := m]
  }

  lemma {:induction false} HeaderLineKind(h: HeaderText)
    requires h.Valid()
    ensures Classify(h.Line()) == Header(h.Meaning())
  {
    hide ParseMessageLine, ParseSignalLine;
    var s := h.Line();
    MessageLineRoundTrip(h);
    HeaderLineEnds(h);
    hide HeaderText.Line, HeaderText.Meaning, NatOf, NoSpaces, AllDigits;
    assert s[0] == 'B' && s[0] in s;
  }

  lemma {:induction false} HeaderLineEnds(h: HeaderText)
    requires h.Valid()
    ensures var s := h.Line();
            |s| > 4 && s[..4] == "BO_ " && s[0] == 'B' && s[|s| - 1] != '\r'
  {
    var s := h.Line();
    assert s[|s| - 1] == h.sender[|h.sender| - 1] && h.sender[|h.sender| - 1] in h.sender;
  }

  lemma {:induction false} SignalLineKind(t: SignalText)
    requires t.Valid()
    ensures Classify(t.Line()) == Signal(t.Meaning())
  {
    hide ParseMessageLine, ParseSignalLine;
    var s := t.Line();
    LineEndsWithNode(t);
    var rest := Spaced(t.Words()[1..]);
    assert s == " " + ("SG_" + rest);
    assert rest[0] == ' ';
    assert s[1..] == "SG_" + rest && s[1..][..4] == "SG_ ";
    assert s[1] == 'S' && s[1] in s;
    assert TrimLeft(s) == TrimLeft(s[1..]) == s[1..];
    SignalLineRoundTrip(t);
  }

  lemma SpacedEnd(ws: seq<string>)
    requires ws != [] && ws[|ws| - 1] != []
    ensures Spaced(ws) != [] && LastOf(Spaced(ws)) == LastOf(ws[|ws| - 1])
  {
    if |ws| > 1 {
      SpacedEnd(ws[1..]);
    }
    EndOfBoth(ws[0], Spaced(ws[1..]));
    hide Spaced;
  }

  function LastOf(s: string): char
    requires s != []
  {
    s[|s| - 1]
  }

  lemma EndOfBoth(a: string, b: string)
    ensures b != [] ==> LastOf(" " + (a + b)) == LastOf(b)
    ensures b == [] && a != [] ==> LastOf(" " + (a + b)) == LastOf(a)
  {
  }

  lemma {:induction false} LineEndsWithNode(t: SignalText)
    requires t.Valid()
    ensures StripReturn(t.Line()) == t.Line()
  {
    SpacedEnd(t.Words());
    assert t.node[|t.node| - 1] in t.node;
  }

  lemma {:induction false} FoldAppend(st: State, a: seq<LineKind>, b: seq<LineKind>)
    ensures Fold(st, a + b) == Fold(Fold(st, a), b)
    decreases |b|
  {
    if b == [] {
      assert a + b == a;
    } else {
      assert (a + b)[..|a + b| - 1] == a + b[..|b| - 1];
      FoldAppend(st, a, b[..|b| - 1]);
    }
  }

  lemma {:induction false} KindsAppend(a: seq<string>, b: seq<string>)
    ensures Kinds(a + b) == Kinds(a) + Kinds(b)
  {
    hide Classify;
  }

  lemma SignalStep(st: State, signals: seq<SignalDef>, signal: SignalDef)
    requires st.current.Some? && st.current.value in st.messages
    ensures var id, m := st.current.value, st.messages[st.current.value];
            Step(st.(messages := st.messages[id := m.(signals := signals)]), Signal(signal))
            == st.(messages := st.messages[id := m.(signals := signals + [signal])])
  {
    var id, m := st.current.value, st.messages[st.current.value];
    assert st.messages[id := m.(signals := signals)][id := m.(signals := signals + [signal])]
           == st.messages[id := m.(signals := signals + [signal])];
  }

  /** The signal lines behind a header add their signals to its message, in order. */
  lemma {:induction false} SignalLinesAdd(st: State, signals: seq<SignalText>)
    requires forall s <- signals :: s.Valid()
    requires st.current.Some? && st.current.value in st.messages
    ensures var id, m := st.current.value, st.messages[st.current.value];
            Fold(st, Kinds(SignalLines(signals)))
            == st.(messages := st.messages[id := m.(signals := m.signals + Meanings(signals))])
    decreases |signals|
  {
    hide Classify;
    var id, m := st.current.value, st.messages[st.current.value];
    if signals == [] {
      assert Kinds([]) == [];
      assert m.(signals := m.signals + []) == m;
      assert st.messages[id := m] == st.messages;
    } else {
      var init, last := signals[..|signals| - 1], signals[|signals| - 1];
      assert last in signals;
      SignalLinesAdd(st, init);
      SignalLineKind(last);
      KindsAppend(SignalLines(init), [last.Line()]);
      assert Kinds([last.Line()]) == [Signal(last.Meaning())];
      FoldOne(st, Kinds(SignalLines(init)), Signal(last.Meaning()));
      SignalStep(st, m.signals + Meanings(init), last.Meaning());
      hide Fold, Kinds, Step;
      assert m.signals + (Meanings(init) + [last.Meaning()]) == (m.signals + Meanings(init)) + [last.Meaning()];
    }
  }

  lemma FoldOne(st: State, a: seq<LineKind>, k: LineKind)
    ensures Fold(st, a + [k]) == Step(Fold(st, a), k)
  {
    assert (a + [k])[..|a|] == a;
  }

  /** One written message puts its meaning into the table and closes itself. */
  lemma {:induction false} MessageLinesAdd(st: State, m: MessageText)
    requires m.Valid()
    ensures Fold(st, Kinds(m.Lines())) == State(st.messages[m.Meaning().canId := m.Meaning()], None)
  {
    hide Classify;
    var head := m.header.Meaning();
    var begun := State(st.messages[head.canId := head], Some(head.canId));
    var first, middle := [m.header.Line()], SignalLines(m.signals);
    HeaderLineKind(m.header);
    OneLine(st, m.header.Line());
    assert Fold(st, Kinds(first)) == begun;
    SignalLinesAdd(begun, m.signals);
    KindsAppend(first, middle);
    FoldAppend(st, Kinds(first), Kinds(middle));
    KindsAppend(first + middle, [""]);
    FoldAppend(st, Kinds(first + middle), Kinds([""]));
    EmptyLineKind();
    OneLine(Fold(begun, Kinds(middle)), "");
    assert [] + Meanings(m.signals) == Meanings(m.signals);
  }

  lemma {:induction false} OneLine(st: State, line: string)
    ensures Fold(st, Kinds([line])) == Step(st, Classify(line))
  {
    hide Classify, Step;
    assert Kinds([line])[..0] == [];
  }

  lemma EmptyLineKind()
    ensures Classify("") == Blank
  {
  }

  /** Writing any list of messages as a DBC file and parsing it yields exactly these messages, a later one in
      place of an earlier one with the same id. */
  lemma {:induction false} FileRoundTrip(before: map<uint32, MessageDef>, file: seq<MessageText>)
    requires forall m <- file :: m.Valid()
    ensures Fold(State(before, None), Kinds(FileLines(file))) == State(FileMessages(before, file), None)
  {
    hide Classify;
    if file == [] {
      assert Kinds([]) == [];
    } else {
      var init, last := file[..|file| - 1], file[|file| - 1];
      assert last in file;
      FileRoundTrip(before, init);
      KindsAppend(FileLines(init), last.Lines());
      FoldAppend(State(before, None), Kinds(FileLines(init)), Kinds(last.Lines()));
      MessageLinesAdd(State(FileMessages(before, init), None), last);
    }
  }
}
