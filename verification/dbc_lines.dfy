/** The two kinds of DBC lines: reading them, writing them, and that the one undoes the other. */
module DbcLines {
  import opened Bytes
  import opened Options
  import opened CanTypes
  import opened DbcText

  // ---- Signal lines ----

  /** The cast of an int to eight bits. */
  function ToByte(i: int): byte { i % 0x100 }

  /** The text without an opening character in front and a closing one behind. */
  function Strip(text: string, open: char, close: char): string {
    var t := if text != [] && text[0] == open then text[1..] else text;
    if t != [] && t[|t| - 1] == close then t[..|t| - 1] else t
  }

  function StripQuotes(unit: string): string {
    if |unit| >= 2 && unit[0] == '"' && unit[|unit| - 1] == '"' then unit[1..|unit| - 1] else unit
  }

  datatype BitInfo = BitInfo(startBit: byte, length: byte, isLittleEndian: bool, isSigned: bool)

  /** start|length@order and sign. When '@' stands before '|', the length runs to the end of the text. */
  function ParseBitInfo(text: string): Option<BitInfo> {
    var pipe, at := Find(text, '|'), Find(text, '@');
    if pipe == |text| || at == |text| then None
    else
      var start := Stoi(text[..pipe]);
      var length := Stoi(if at > pipe then text[pipe + 1..at] else text[pipe + 1..]);
      if start.None? || length.None? then None
      else
        var order := text[at + 1..];
        Some(BitInfo(ToByte(start.value), ToByte(length.value),
                     order != [] && order[0] == '1', |order| > 1 && order[1] == '-'))
  }

  datatype Pair = Pair(first: real, second: real)

  /** Two numbers in brackets with a separator between them. */
  function ParsePair(text: string, open: char, close: char, separator: char): Option<Pair> {
    var t := Strip(text, open, close);
    var k := Find(t, separator);
    if k == |t| then None
    else
      var first, second := Stod(t[..k]), Stod(t[k + 1..]);
      if first.None? || second.None? then None else Some(Pair(first.value, second.value))
  }

  /** parse_signal_line */
  function ParseSignalLine(line: string): Option<SignalDef> {
    var ws := ReadWords(line, 7);
    if ws.None? then None else ParseSignalWords(ws.value)
  }

  function ParseSignalWords(ws: seq<string>): Option<SignalDef> {
    if |ws| != 7 || ws[0] != "SG_" then None
    else
      var bits := ParseBitInfo(ws[3]);
      if bits.None? then None
      else
        var scale := ParsePair(ws[4], '(', ')', ',');
        if scale.None? then None
        else
          var range := ParsePair(ws[5], '[', ']', '|');
          if range.None? then None
          else
            Some(SignalDef(ws[1], bits.value.startBit, bits.value.length, bits.value.isSigned,
                           bits.value.isLittleEndian, scale.value.first, scale.value.second,
                           range.value.first, range.value.second, StripQuotes(ws[6])))
  }

  /** A signal as a DBC file writes it: numbers as digits, leading zeros and all. */
  datatype SignalText = SignalText(
    name: string, startBit: string, length: string, isSigned: bool, isLittleEndian: bool,
    scale: Decimal, offset: Decimal, minVal: Decimal, maxVal: Decimal, unit: string, node: string)
  {
    ghost predicate Valid() {
      && name != [] && NoSpaces(name) && NoSpaces(unit) && node != [] && NoSpaces(node)
      && startBit != [] && AllDigits(startBit) && NatOf(startBit) < 0x100
      && length != [] && AllDigits(length) && NatOf(length) < 0x100
      && scale.Valid() && offset.Valid() && minVal.Valid() && maxVal.Valid()
    }

    function BitText(): string {
      startBit + "|" + (length + "@" + OrderText())
    }

    function OrderText(): string {
      (if isLittleEndian then "1" else "0") + (if isSigned then "-" else "+")
    }

    function Words(): seq<string> {
      ["SG_", name, ":", BitText(),
       ['('] + (scale.Print() + [','] + offset.Print()) + [')'],
       ['['] + (minVal.Print() + ['|'] + maxVal.Print()) + [']'],
       "\"" + unit + "\"", node]
    }

    /** The line, with the one space in front that DBC files put there. */
    function Line(): string { Spaced(Words()) }

    ghost function Meaning(): SignalDef
      requires Valid()
    {
      SignalDef(name, NatOf(startBit), NatOf(length), isSigned, isLittleEndian,
                scale.Value(), offset.Value(), minVal.Value(), maxVal.Value(), unit)
    }
  }

  // ---- Message lines ----

  /** stream >> uint32_t: a minus sign negates modulo 2^32; a magnitude beyond 32 bits fails. */
  function ReadUint32(s: string): Option<Read<uint32>> {
    var r := ReadInteger(s);
    if r.Some? && -0x1_0000_0000 < r.value.value < 0x1_0000_0000
    then Some(Read(r.value.value % 0x1_0000_0000, r.value.rest)) else None
  }

  /** stream >> int */
  function ReadInt32(s: string): Option<Read<int>> {
    var r := ReadInteger(s);
    if r.Some? && -0x8000_0000 <= r.value.value < 0x8000_0000 then r else None
  }

  /** parse_message_line: every step needs the ones before it to have succeeded. */
  function ParseMessageLine(line: string): (r: Option<MessageDef>)
    ensures r.Some? ==> r.value.signals == []
  {
    var tag := ReadWord(line);
    if tag.None? then None
    else
      var id := ReadUint32(tag.value.rest);
      if id.None? then None
      else
        var name := ReadWord(id.value.rest);
        if name.None? then None
        else
          var length := ReadInt32(name.value.rest);
          if length.None? || ReadWord(length.value.rest).None? || tag.value.value != "BO_" then None
          else Some(MessageDef(id.value.value, DropColon(name.value.value), ToByte(length.value.value), []))
  }

  function DropColon(name: string): string {
    if name != [] && name[|name| - 1] == ':' then name[..|name| - 1] else name
  }

  /** A message header as a DBC file writes it. */
  datatype HeaderText = HeaderText(canId: string, name: string, length: string, sender: string) {
    ghost predicate Valid() {
      && canId != [] && AllDigits(canId) && NatOf(canId) < 0x1_0000_0000
      && length != [] && AllDigits(length) && NatOf(length) < 0x100
      && NoSpaces(name) && sender != [] && NoSpaces(sender)
    }

    function Line(): string {
      "BO_" + (" " + (canId + (" " + ((name + ":") + (" " + (length + (" " + sender)))))))
    }

    ghost function Meaning(): MessageDef
      requires Valid()
    {
      MessageDef(NatOf(canId), name, NatOf(length), [])
    }
  }

  // ---- Reading what was written ----

  lemma {:induction false} StripsBrackets(body: string, open: char, close: char)
    ensures Strip([open] + body + [close], open, close) == body
  {
    var text := [open] + body + [close];
    assert text[1..] == body + [close];
    assert (body + [close])[..|body|] == body;
  }

  lemma DecimalChars(d: Decimal)
    requires d.Valid()
    ensures forall c <- d.Print() :: IsDigit(c) || c == '-' || c == '.'
    ensures d.Print() != []
  {
  }

  lemma {:induction false} PairRoundTrip(a: Decimal, b: Decimal, open: char, close: char, separator: char)
    requires a.Valid() && b.Valid()
    requires !IsDigit(separator) && separator != '-' && separator != '.'
    ensures ParsePair([open] + (a.Print() + [separator] + b.Print()) + [close], open, close, separator)
            == Some(Pair(a.Value(), b.Value()))
  {
    var p, q := a.Print(), b.Print();
    var t := p + [separator] + q;
    StripsBrackets(t, open, close);
    DecimalChars(a);
    FindsFirst(p, separator, q);
    assert t[..|p|] == p && t[|p| + 1..] == q;
    WrittenDecimal(a);
    WrittenDecimal(b);
  }

  lemma {:induction false} BitsBetween(s: string, l: string, order: string)
    requires AllDigits(s) && AllDigits(l)
    ensures var text := s + "|" + (l + "@" + order);
            && Find(text, '|') == |s| && Find(text, '@') == |s| + 1 + |l|
            && text[..|s|] == s && text[|s| + 1..|s| + 1 + |l|] == l && text[|s| + 1 + |l| + 1..] == order
  {
    var text := s + "|" + (l + "@" + order);
    FindsFirst(s, '|', l + "@" + order);
    var front := s + "|" + l;
    assert text == front + "@" + order;
    assert forall c <- front :: c in s || c == '|' || c in l;
    FindsFirst(front, '@', order);
    assert front[|s| + 1..] == l && text[..|front|] == front;
  }

  lemma {:induction false} BitInfoOf(s: string, l: string, order: string, m: int, n: int)
    requires AllDigits(s) && AllDigits(l) && Stoi(s) == Some(m) && Stoi(l) == Some(n)
    ensures ParseBitInfo(s + "|" + (l + "@" + order))
            == Some(BitInfo(ToByte(m), ToByte(n), order != [] && order[0] == '1', |order| > 1 && order[1] == '-'))
  {
    hide Stoi, Find;
    BitsBetween(s, l, order);
  }

  lemma {:induction false} BitInfoRoundTrip(t: SignalText)
    requires t.Valid()
    ensures ParseBitInfo(t.BitText())
            == Some(BitInfo(NatOf(t.startBit), NatOf(t.length), t.isLittleEndian, t.isSigned))
  {
    hide ParseBitInfo, Stoi, NatOf;
    StoiOfDigits(t.startBit);
    StoiOfDigits(t.length);
    BitInfoOf(t.startBit, t.length, t.OrderText(), NatOf(t.startBit), NatOf(t.length));
  }

  lemma {:induction false} PairIsWord(a: Decimal, b: Decimal, open: char, close: char, separator: char)
    requires a.Valid() && b.Valid() && !IsSpace(open) && !IsSpace(close) && !IsSpace(separator)
    ensures NoSpaces([open] + (a.Print() + [separator] + b.Print()) + [close])
  {
    DecimalChars(a);
    DecimalChars(b);
  }

  lemma {:induction false} SignalWordsAreWords(t: SignalText)
    requires t.Valid()
    ensures AreWords(t.Words())
  {
    PairIsWord(t.scale, t.offset, '(', ')', ',');
    PairIsWord(t.minVal, t.maxVal, '[', ']', '|');
    BitTextIsWord(t.startBit, t.length, t.OrderText());
    assert NoSpaces("\"" + t.unit + "\"") && NoSpaces("SG_") && NoSpaces(":");
    hide NoSpaces, AllDigits, NatOf, Decimal.Print, SignalText.BitText, SignalText.OrderText;
  }

  lemma {:induction false} BitTextIsWord(s: string, l: string, order: string)
    requires AllDigits(s) && AllDigits(l) && NoSpaces(order)
    ensures NoSpaces(s + "|" + (l + "@" + order))
  {
  }

  lemma {:induction false} SignalOf(ws: seq<string>, bits: BitInfo, scale: Pair, range: Pair)
    requires |ws| == 7 && ws[0] == "SG_"
    requires ParseBitInfo(ws[3]) == Some(bits)
    requires ParsePair(ws[4], '(', ')', ',') == Some(scale) && ParsePair(ws[5], '[', ']', '|') == Some(range)
    ensures ParseSignalWords(ws)
            == Some(SignalDef(ws[1], bits.startBit, bits.length, bits.isSigned, bits.isLittleEndian,
                              scale.first, scale.second, range.first, range.second, StripQuotes(ws[6])))
  {
  }

  lemma {:induction false} SignalWordsRoundTrip(t: SignalText)
    requires t.Valid()
    ensures ParseSignalWords(t.Words()[..7]) == Some(t.Meaning())
  {
    hide ParseBitInfo, ParsePair, ParseSignalWords;
    BitInfoRoundTrip(t);
    PairRoundTrip(t.scale, t.offset, '(', ')', ',');
    PairRoundTrip(t.minVal, t.maxVal, '[', ']', '|');
    assert StripQuotes("\"" + t.unit + "\"") == t.unit;
    SignalOf(t.Words()[..7], BitInfo(NatOf(t.startBit), NatOf(t.length), t.isLittleEndian, t.isSigned),
             Pair(t.scale.Value(), t.offset.Value()), Pair(t.minVal.Value(), t.maxVal.Value()));
  }

  /** A written signal line is read as what it writes, with or without the space in front of it. */
  lemma {:induction false} SignalLineRoundTrip(t: SignalText)
    requires t.Valid()
    ensures ParseSignalLine(t.Line()) == Some(t.Meaning())
    ensures ParseSignalLine(t.Line()[1..]) == Some(t.Meaning())
    ensures var sig := t.Meaning();
            && sig.name == t.name && sig.startBit == NatOf(t.startBit) && sig.length == NatOf(t.length)
            && sig.isSigned == t.isSigned && sig.isLittleEndian == t.isLittleEndian
            && sig.scale == t.scale.Value() && sig.offset == t.offset.Value()
            && sig.minVal == t.minVal.Value() && sig.maxVal == t.maxVal.Value() && sig.unit == t.unit
  {
    hide ReadWords, ParseSignalWords;
    SignalWordsAreWords(t);
    ReadsSpaced(t.Words(), 7);
    FirstSpaceIsOptional(t.Words(), 7);
    SignalWordsRoundTrip(t);
  }

  lemma {:induction false} FirstSpaceIsOptional(ws: seq<string>, n: nat)
    requires AreWords(ws) && 0 < n <= |ws|
    ensures ReadWords(Spaced(ws)[1..], n) == ReadWords(Spaced(ws), n)
  {
    assert ws[0] in ws;
    ReadsWord(ws[0], Spaced(ws[1..]));
    assert Spaced(ws)[1..] == ws[0] + Spaced(ws[1..]);
  }

  lemma {:induction false} MessageOf(
    line: string, r1: string, r2: string, r3: string, r4: string, id: uint32, name: string, length: int)
    requires ReadWord(line) == Some(Read("BO_", r1)) && ReadUint32(r1) == Some(Read(id, r2))
    requires ReadWord(r2) == Some(Read(name, r3)) && ReadInt32(r3) == Some(Read(length, r4))
    requires ReadWord(r4).Some?
    ensures ParseMessageLine(line) == Some(MessageDef(id, DropColon(name), ToByte(length), []))
  {
  }

  lemma {:induction false} ReadsIntegers(d: string, t: string)
    requires d != [] && AllDigits(d) && (t == [] || !IsDigit(t[0]))
    ensures NatOf(d) < 0x1_0000_0000 ==> ReadUint32(" " + (d + t)) == Some(Read(NatOf(d), t))
    ensures NatOf(d) < 0x100 ==> ReadInt32(" " + (d + t)) == Some(Read(NatOf(d) as int, t))
  {
    ReadsDigits(d, t);
  }

  /** A written message line is read as what it writes. */
  lemma {:induction false} MessageLineRoundTrip(h: HeaderText)
    requires h.Valid()
    ensures ParseMessageLine(h.Line()) == Some(h.Meaning())
    ensures var msg := h.Meaning();
            msg.canId == NatOf(h.canId) && msg.name == h.name && msg.length == NatOf(h.length) && msg.signals == []
  {
    hide ReadWord, ReadUint32, ReadInt32, ParseMessageLine;
    var r4 := " " + h.sender;
    var r3 := " " + (h.length + r4);
    var r2 := " " + ((h.name + ":") + r3);
    var r1 := " " + (h.canId + r2);
    ReadsWord("BO_", r1);
    ReadsIntegers(h.canId, r2);
    ReadsWord(h.name + ":", r3);
    ReadsIntegers(h.length, r4);
    ReadsWord(h.sender, "");
    assert h.sender + "" == h.sender;
    assert (h.name + ":")[..|h.name|] == h.name;
    MessageOf(h.Line(), r1, r2, r3, r4, NatOf(h.canId), h.name + ":", NatOf(h.length));
  }

  // ---- A line of the gateway's own database ----

  lemma {:induction false} NatOfSnoc(s: string, c: char)
    ensures NatOf(s + [c]) == 10 * NatOf(s) + DigitValue(c)
  {
    assert (s + [c])[..|s|] == s;
  }

  lemma {:induction false} UpToThreeDigits(a: char, b: char, c: char)
    ensures NatOf([]) == 0 && NatOf([a]) == DigitValue(a)
    ensures NatOf([a, b]) == 10 * DigitValue(a) + DigitValue(b)
    ensures NatOf([a, b, c]) == 100 * DigitValue(a) + 10 * DigitValue(b) + DigitValue(c)
  {
    NatOfSnoc([], a);
    NatOfSnoc([a], b);
    NatOfSnoc([a, b], c);
    assert [] + [a] == [a] && [a] + [b] == [a, b] && [a, b] + [c] == [a, b, c];
    assert NatOf([]) == 0;
    hide NatOf, DigitValue;
  }

  lemma {:induction false} SomeNumbers()
    ensures NatOf("") == 0 && NatOf("8") == 8 && NatOf("16") == 16 && NatOf("40") == 40
    ensures NatOf("75") == 75 && NatOf("0") == 0 && NatOf("148") == 148
  {
    hide NatOf;
    UpToThreeDigits('8', '0', '0');
    UpToThreeDigits('1', '6', '0');
    UpToThreeDigits('4', '0', '0');
    UpToThreeDigits('7', '5', '0');
    UpToThreeDigits('0', '7', '5');
    UpToThreeDigits('1', '4', '8');
  }

  lemma {:induction false} SomeDecimals()
    ensures Decimal(false, "0", "75").Value() == 0.75
    ensures Decimal(true, "40", "").Value() == -40.0
    ensures Decimal(false, "148", "75").Value() == 148.75
  {
    SomeNumbers();
    assert Pow10(0) == 1 && Pow10(1) == 10 && Pow10(2) == 100;
    hide NatOf;
  }

  const ENGINE_TEMP := SignalText("EngineTemp", "16", "8", false, true,
                                  Decimal(false, "0", "75"), Decimal(true, "40", ""),
                                  Decimal(true, "40", ""), Decimal(false, "148", "75"), "degC", "Vector__XXX")

  lemma {:induction false} EngineTempWords()
    ensures ENGINE_TEMP.Words()
            == ["SG_", "EngineTemp", ":", "16|8@1+", "(0.75,-40)", "[-40|148.75]", "\"degC\"", "Vector__XXX"]
  {
    var t := ENGINE_TEMP;
    assert t.BitText() == "16|8@1+";
    assert t.scale.Print() == "0.75" && t.offset.Print() == "-40" == t.minVal.Print() && t.maxVal.Print() == "148.75";
    assert ['('] + ("0.75" + [','] + "-40") + [')'] == "(0.75,-40)";
    assert ['['] + ("-40" + ['|'] + "148.75") + [']'] == "[-40|148.75]";
    assert "\"" + "degC" + "\"" == "\"degC\"";
    hide Decimal.Print, SignalText.BitText;
  }

  lemma {:induction false} EngineTempMeaning()
    ensures ENGINE_TEMP.Valid()
    ensures ENGINE_TEMP.Meaning() == SignalDef("EngineTemp", 16, 8, false, true, 0.75, -40.0, -40.0, 148.75, "degC")
  {
    SomeNumbers();
    SomeDecimals();
    hide NatOf, Decimal.Value;
  }

  lemma LineIsSpaced(t: SignalText)
    ensures t.Line() == Spaced(t.Words())
  {
  }

  /** One space in front of each word, as in the file: the order of the fields and their punctuation. */
  lemma {:induction false} EngineTempLine()
    ensures ParseSignalLine(Spaced(["SG_", "EngineTemp", ":", "16|8@1+", "(0.75,-40)", "[-40|148.75]", "\"degC\"",
                                    "Vector__XXX"]))
            == Some(SignalDef("EngineTemp", 16, 8, false, true, 0.75, -40.0, -40.0, 148.75, "degC"))
  {
    hide *;
    EngineTempWords();
    EngineTempMeaning();
    LineIsSpaced(ENGINE_TEMP);
    SignalLineRoundTrip(ENGINE_TEMP);
  }
}
