/** Scanning text the way the C++ library does: words of a stream, integers, and decimal numbers. */
module DbcText {
  import opened Options

  predicate IsSpace(c: char) {
    c == ' ' || c == '\t' || c == '\n' || c == '\U{0B}' || c == '\U{0C}' || c == '\r'
  }

  predicate IsDigit(c: char) {
    '0' <= c <= '9'
  }

  predicate NoSpaces(s: string) {
    forall c <- s :: !IsSpace(c)
  }

  predicate AllDigits(s: string) {
    forall c <- s :: IsDigit(c)
  }

  // ---- Words ----

  function SkipSpaces(s: string): string {
    if s != [] && IsSpace(s[0]) then SkipSpaces(s[1..]) else s
  }

  function WordLength(s: string): (n: nat)
    ensures n <= |s|
  {
    if s == [] || IsSpace(s[0]) then 0 else 1 + WordLength(s[1..])
  }

  /** What a stream yields and what is left of it. */
  datatype Read<+T> = Read(value: T, rest: string)

  /** stream >> string */
  function ReadWord(s: string): Option<Read<string>> {
    var t := SkipSpaces(s);
    var n := WordLength(t);
    if n == 0 then None else Some(Read(t[..n], t[n..]))
  }

  /** stream >> w1 >> ... >> wn: fails unless there are n words. */
  function ReadWords(s: string, n: nat): Option<seq<string>>
    decreases n
  {
    if n == 0 then Some([])
    else
      var w := ReadWord(s);
      if w.None? then None
      else
        var ws := ReadWords(w.value.rest, n - 1);
        if ws.None? then None else Some([w.value.value] + ws.value)
  }

  lemma {:induction false} WordStops(w: string, t: string)
    requires NoSpaces(w) && (t == [] || IsSpace(t[0]))
    ensures WordLength(w + t) == |w|
  {
    if w == [] {
      assert w + t == t;
    } else {
      assert (w + t)[1..] == w[1..] + t;
      assert (w + t)[0] == w[0] && w[0] in w;
      WordStops(w[1..], t);
    }
  }

  /** A word in front of a space, or at the end, is read as it is. */
  lemma {:induction false} ReadsWord(w: string, t: string)
    requires w != [] && NoSpaces(w) && (t == [] || IsSpace(t[0]))
    ensures ReadWord(w + t) == Some(Read(w, t))
    ensures ReadWord(" " + (w + t)) == Some(Read(w, t))
  {
    WordStops(w, t);
    assert (w + t)[0] == w[0] && w[0] in w;
    assert SkipSpaces(w + t) == w + t;
    assert (" " + (w + t))[1..] == w + t;
    assert (w + t)[..|w|] == w && (w + t)[|w|..] == t;
  }

  /** Words with one space in front of each. */
  function Spaced(ws: seq<string>): string {
    if ws == [] then "" else " " + (ws[0] + Spaced(ws[1..]))
  }

  ghost predicate AreWords(ws: seq<string>) {
    forall w <- ws :: w != [] && NoSpaces(w)
  }

  lemma {:induction false} ReadsSpaced(ws: seq<string>, n: nat)
    requires AreWords(ws) && n <= |ws|
    ensures ReadWords(Spaced(ws), n) == Some(ws[..n])
    decreases n
  {
    if n > 0 {
      assert ws[0] in ws;
      ReadsWord(ws[0], Spaced(ws[1..]));
      ReadsSpaced(ws[1..], n - 1);
      assert ws[..n] == [ws[0]] + ws[1..][..n - 1];
    }
  }

  // ---- Searching ----

  /** string::find; the length stands for npos. */
  function Find(s: string, c: char): (n: nat)
    ensures n <= |s|
  {
    if s == [] || s[0] == c then 0 else 1 + Find(s[1..], c)
  }

  lemma {:induction false} FindsFirst(a: string, c: char, b: string)
    requires c !in a
    ensures Find(a + [c] + b, c) == |a|
  {
    if a == [] {
      assert a + [c] + b == [c] + b;
    } else {
      assert (a + [c] + b)[1..] == a[1..] + [c] + b;
      FindsFirst(a[1..], c, b);
    }
  }

  // ---- Integers ----

  function DigitSpan(s: string): (n: nat)
    ensures n <= |s|
  {
    if s == [] || !IsDigit(s[0]) then 0 else 1 + DigitSpan(s[1..])
  }

  function DigitValue(c: char): (d: nat)
    ensures d < 10
  {
    if IsDigit(c) then c as int - '0' as int else 0
  }

  /** The number that digits write. */
  function NatOf(s: string): nat {
    if s == [] then 0 else 10 * NatOf(s[..|s| - 1]) + DigitValue(s[|s| - 1])
  }

  function DigitChar(d: nat): (c: char)
    requires d < 10
    ensures IsDigit(c) && DigitValue(c) == d
  {
    (d + '0' as int) as char
  }

  function PrintNat(n: nat): (s: string)
    ensures s != [] && AllDigits(s)
  {
    if n < 10 then [DigitChar(n)] else PrintNat(n / 10) + [DigitChar(n % 10)]
  }

  lemma {:induction false} PrintedNat(n: nat)
    ensures NatOf(PrintNat(n)) == n
  {
    var s := PrintNat(n);
    if n < 10 {
      assert s[..0] == [];
    } else {
      PrintedNat(n / 10);
      assert s[..|s| - 1] == PrintNat(n / 10);
    }
  }

  lemma {:induction false} SpanStops(d: string, t: string)
    requires AllDigits(d) && (t == [] || !IsDigit(t[0]))
    ensures DigitSpan(d + t) == |d|
  {
    if d == [] {
      assert d + t == t;
    } else {
      assert (d + t)[1..] == d[1..] + t;
      assert (d + t)[0] == d[0] && d[0] in d;
      SpanStops(d[1..], t);
    }
  }

  predicate Signed(s: string) {
    s != [] && (s[0] == '-' || s[0] == '+')
  }

  function Unsigned(s: string): string {
    if Signed(s) then s[1..] else s
  }

  function WithSign(negative: bool, n: nat): int {
    if negative then -(n as int) else n
  }

  /** The number with its sign in front of s, and what follows it; none without a digit. */
  function ReadInteger(s: string): Option<Read<int>> {
    var t := SkipSpaces(s);
    var u := Unsigned(t);
    var n := DigitSpan(u);
    if n == 0 then None
    else Some(Read(WithSign(t[0] == '-', NatOf(u[..n])), u[n..]))
  }

  /** std::stoi: an integer in front of the text, refused when it does not fit 32 bits. */
  function Stoi(s: string): Option<int> {
    var r := ReadInteger(s);
    if r.Some? && -0x8000_0000 <= r.value.value < 0x8000_0000 then Some(r.value.value) else None
  }

  /** Digits, in front of anything else, are read as the number they write. */
  lemma {:induction false} ReadsDigits(d: string, t: string)
    requires d != [] && AllDigits(d) && (t == [] || !IsDigit(t[0]))
    ensures ReadInteger(d + t) == Some(Read(NatOf(d) as int, t))
    ensures ReadInteger(" " + (d + t)) == Some(Read(NatOf(d) as int, t))
  {
    var s := d + t;
    SpanStops(d, t);
    assert s[0] == d[0] && d[0] in d;
    assert SkipSpaces(s) == s && Unsigned(s) == s;
    assert s[..|d|] == d && s[|d|..] == t;
    assert (" " + s)[1..] == s;
  }

  lemma {:induction false} StoiOfDigits(d: string)
    requires d != [] && AllDigits(d)
    ensures Stoi(d) == if NatOf(d) < 0x8000_0000 then Some(NatOf(d) as int) else None
  {
    ReadsDigits(d, "");
    assert d + "" == d;
  }

  // ---- Decimal numbers ----

  function Pow10(k: nat): (p: nat)
    ensures p >= 1
  {
    if k == 0 then 1 else 10 * Pow10(k - 1)
  }

  /** mantissa * 10^exponent */
  function Scaled(mantissa: int, exponent: int): real {
    if exponent >= 0 then mantissa as real * Pow10(exponent) as real
    else mantissa as real / Pow10(-exponent) as real
  }

  /** The exponent in front of s: 'e', a sign if any, and digits; 0 when it is not complete. */
  function ReadExponent(s: string): int {
    if s == [] || (s[0] != 'e' && s[0] != 'E') then 0
    else
      var u := Unsigned(s[1..]);
      var n := DigitSpan(u);
      if n == 0 then 0 else WithSign(s[1] == '-', NatOf(u[..n]))
  }

  /** The digits in front of the point, those behind it, and what follows them. */
  datatype Parts = Parts(whole: string, fraction: string, rest: string)

  function SplitDecimal(u: string): Parts {
    var a := DigitSpan(u);
    if a < |u| && u[a] == '.' then
      var v := u[a + 1..];
      var b := DigitSpan(v);
      Parts(u[..a], v[..b], v[b..])
    else Parts(u[..a], "", u[a..])
  }

  /** A number as mantissa and decimal exponent. */
  datatype Number = Number(mantissa: int, exponent: int)

  function ReadNumber(s: string): Option<Number> {
    var t := SkipSpaces(s);
    var p := SplitDecimal(Unsigned(t));
    if p.whole == [] && p.fraction == [] then None
    else
      Some(Number(WithSign(t != [] && t[0] == '-', NatOf(p.whole + p.fraction)),
                  ReadExponent(p.rest) - |p.fraction|))
  }

  /** std::stod on decimal notation: digits with an optional point among them, and an optional exponent. */
  function Stod(s: string): Option<real> {
    var n := ReadNumber(s);
    if n.None? then None else Some(Scaled(n.value.mantissa, n.value.exponent))
  }

  /** A decimal number as it is written: a sign, digits, and digits behind the point. */
  datatype Decimal = Decimal(negative: bool, whole: string, fraction: string) {
    ghost predicate Valid() { whole != [] && AllDigits(whole) && AllDigits(fraction) }

    /** The number that all digits write together, in units of the last place. */
    ghost function Units(): nat
      requires Valid()
    {
      NatOf(whole) * Pow10(|fraction|) + NatOf(fraction)
    }

    ghost function Value(): real
      requires Valid()
    {
      Scaled(WithSign(negative, Units()), -|fraction|)
    }

    function Print(): string {
      (if negative then "-" else "") + (whole + (if fraction == [] then "" else "." + fraction))
    }
  }

  lemma {:induction false} NatOfConcat(a: string, b: string)
    ensures NatOf(a + b) == NatOf(a) * Pow10(|b|) + NatOf(b)
  {
    if b == [] {
      assert a + b == a;
    } else {
      var c := b[..|b| - 1];
      assert (a + b)[..|a + b| - 1] == a + c;
      NatOfConcat(a, c);
      var x, y, z, d := NatOf(a), Pow10(|c|), NatOf(c), DigitValue(b[|b| - 1]);
      assert Pow10(|b|) == 10 * y && NatOf(b) == 10 * z + d;
      TenTimes(x, y);
      assert NatOf(a + b) == 10 * (x * y + z) + d;
    }
  }

  lemma TenTimes(x: int, y: int)
    ensures 10 * (x * y) == x * (10 * y)
  {
  }

  lemma {:induction false} SplitsPrinted(digits: string, fraction: string)
    requires AllDigits(digits) && AllDigits(fraction)
    ensures var tail := if fraction == [] then "" else "." + fraction;
            SplitDecimal(digits + tail) == Parts(digits, fraction, "")
  {
    var tail := if fraction == [] then "" else "." + fraction;
    var u := digits + tail;
    SpanStops(digits, tail);
    assert u[..|digits|] == digits && u[|digits|..] == tail;
    if fraction != [] {
      assert u[|digits| + 1..] == fraction == fraction + "";
      SpanStops(fraction, "");
    }
  }

  lemma {:induction false} StripsSign(negative: bool, u: string)
    requires u != [] && IsDigit(u[0])
    ensures var s := (if negative then "-" else "") + u;
            SkipSpaces(s) == s && Unsigned(s) == u && (s[0] == '-' <==> negative)
  {
    var s := (if negative then "-" else "") + u;
    if negative {
      assert s[1..] == u;
    } else {
      assert s == u;
    }
  }

  lemma {:induction false} ReadsParts(s: string, u: string, negative: bool, digits: string, fraction: string, m: nat)
    requires s != [] && SkipSpaces(s) == s && Unsigned(s) == u && (s[0] == '-' <==> negative)
    requires digits != [] && SplitDecimal(u) == Parts(digits, fraction, "")
    requires NatOf(digits + fraction) == m
    ensures ReadNumber(s) == Some(Number(WithSign(negative, m), -|fraction|))
  {
    assert ReadExponent("") == 0;
  }

  lemma {:induction false} ReadsWritten(negative: bool, digits: string, fraction: string, m: nat)
    requires digits != [] && AllDigits(digits) && AllDigits(fraction)
    requires NatOf(digits + fraction) == m
    ensures ReadNumber((if negative then "-" else "") + (digits + (if fraction == [] then "" else "." + fraction)))
            == Some(Number(WithSign(negative, m), -|fraction|))
  {
    var u := digits + (if fraction == [] then "" else "." + fraction);
    assert digits[0] in digits && u[0] == digits[0];
    StripsSign(negative, u);
    SplitsPrinted(digits, fraction);
    ReadsParts((if negative then "-" else "") + u, u, negative, digits, fraction, m);
  }

  /** A written decimal is read as the number it writes. */
  lemma {:induction false} WrittenDecimal(d: Decimal)
    requires d.Valid()
    ensures Stod(d.Print()) == Some(d.Value())
  {
    NatOfConcat(d.whole, d.fraction);
    ReadsWritten(d.negative, d.whole, d.fraction, d.Units());
  }

  // ---- Exponents ----

  /** An exponent as it is written: 'e' or 'E', a sign if any, and digits. */
  datatype Exponent = Exponent(upper: bool, sign: string, digits: string) {
    ghost predicate Valid() { digits != [] && AllDigits(digits) && (sign == "" || sign == "+" || sign == "-") }

    function Print(): string { (if upper then "E" else "e") + (sign + digits) }
  }

  lemma FirstIsDigit(s: string)
    requires s != [] && AllDigits(s)
    ensures IsDigit(s[0])
  {
    assert s[0] in s;
  }

  lemma {:induction false} ReadsExponent(e: Exponent)
    requires e.Valid()
    ensures ReadExponent(e.Print()) == WithSign(e.sign == "-", NatOf(e.digits))
  {
    hide NatOf, DigitSpan, WithSign, AllDigits;
    var s := e.Print();
    assert IsDigit(e.digits[0]) by { FirstIsDigit(e.digits); }
    SpanStops(e.digits, "");
    assert e.digits + "" == e.digits;
    assert s[1..] == e.sign + e.digits;
    if e.sign == "" {
      assert s[1..] == e.digits;
    } else {
      assert s[1..][1..] == e.digits;
    }
  }

  lemma {:induction false} ScaledTenfold(m: int, k: int)
    ensures Scaled(m, k + 1) == Scaled(m, k) * 10.0
  {
    if k >= 0 {
      assert Pow10(k + 1) == 10 * Pow10(k);
    } else {
      var p := Pow10(-k - 1) as real;
      assert Pow10(-k) as real == 10.0 * p;
      assert m as real / p == m as real / (10.0 * p) * 10.0;
      assert k == -1 ==> p == 1.0;
    }
  }

  lemma TimesTenfold(x: real, y: real)
    ensures x * y * 10.0 == x * (y * 10.0)
  {
  }

  lemma Pow10Tenfold(n: nat)
    ensures Pow10(0) as real == 1.0
    ensures Pow10(n + 1) as real == Pow10(n) as real * 10.0
  {
  }

  lemma {:induction false} ScaledUp(m: int, k: int, n: nat)
    ensures Scaled(m, k + n) == Scaled(m, k) * Pow10(n) as real
  {
    hide Scaled, Pow10;
    if n == 0 {
      Pow10Tenfold(0);
    } else {
      ScaledUp(m, k, n - 1);
      ScaledTenfold(m, k + n - 1);
      Pow10Tenfold(n - 1);
      TimesTenfold(Scaled(m, k), Pow10(n - 1) as real);
    }
  }

  lemma {:induction false} SplitsBefore(digits: string, fraction: string, x: string)
    requires AllDigits(digits) && AllDigits(fraction) && x != [] && !IsDigit(x[0]) && x[0] != '.'
    ensures var tail := if fraction == [] then "" else "." + fraction;
            SplitDecimal(digits + (tail + x)) == Parts(digits, fraction, x)
  {
    var tail := if fraction == [] then "" else "." + fraction;
    var u := digits + (tail + x);
    SpanStops(digits, tail + x);
    assert u[..|digits|] == digits && u[|digits|..] == tail + x;
    if fraction == [] {
      assert tail + x == x;
    } else {
      var v := u[|digits| + 1..];
      assert v == fraction + x;
      SpanStops(fraction, x);
      assert v[..|fraction|] == fraction && v[|fraction|..] == x;
    }
  }

  lemma {:induction false} ReadsBefore(
    s: string, u: string, negative: bool, digits: string, fraction: string, x: string, m: nat, k: int)
    requires s != [] && SkipSpaces(s) == s && Unsigned(s) == u && (s[0] == '-' <==> negative)
    requires digits != [] && SplitDecimal(u) == Parts(digits, fraction, x)
    requires NatOf(digits + fraction) == m && ReadExponent(x) == k
    ensures ReadNumber(s) == Some(Number(WithSign(negative, m), k - |fraction|))
  {
    hide SkipSpaces, Unsigned, SplitDecimal, NatOf, ReadExponent, WithSign;
  }

  lemma {:induction false} ReadsWithExponent(
    negative: bool, digits: string, fraction: string, x: string, m: nat, k: int)
    requires digits != [] && AllDigits(digits) && AllDigits(fraction)
    requires x != [] && !IsDigit(x[0]) && x[0] != '.' && ReadExponent(x) == k
    requires NatOf(digits + fraction) == m
    ensures ReadNumber((if negative then "-" else "") + (digits + ((if fraction == [] then "" else "." + fraction) + x)))
            == Some(Number(WithSign(negative, m), k - |fraction|))
  {
    var u := digits + ((if fraction == [] then "" else "." + fraction) + x);
    assert digits[0] in digits && u[0] == digits[0];
    hide ReadNumber, ReadExponent, SplitDecimal, NatOf, SkipSpaces, Unsigned, WithSign;
    StripsSign(negative, u);
    SplitsBefore(digits, fraction, x);
    ReadsBefore((if negative then "-" else "") + u, u, negative, digits, fraction, x, m, k);
  }

  lemma {:induction false} PrintsInFront(d: Decimal, x: string)
    ensures d.Print() + x
            == (if d.negative then "-" else "") + (d.whole + ((if d.fraction == [] then "" else "." + d.fraction) + x))
  {
  }

  lemma {:induction false} ReadsScaled(d: Decimal, e: Exponent)
    requires d.Valid() && e.Valid()
    ensures ReadNumber(d.Print() + e.Print())
            == Some(Number(WithSign(d.negative, d.Units()), WithSign(e.sign == "-", NatOf(e.digits)) - |d.fraction|))
  {
    var x := e.Print();
    hide ReadNumber, ReadExponent, NatOf, WithSign, Pow10, Decimal.Print;
    NatOfConcat(d.whole, d.fraction);
    ReadsExponent(e);
    PrintsInFront(d, x);
    ReadsWithExponent(d.negative, d.whole, d.fraction, x, d.Units(), WithSign(e.sign == "-", NatOf(e.digits)));
  }

  /** A written exponent scales the decimal in front of it by a power of ten, up or down. */
  lemma {:induction false} WrittenExponent(d: Decimal, e: Exponent)
    requires d.Valid() && e.Valid()
    ensures var p, r := Pow10(NatOf(e.digits)) as real, Stod(d.Print() + e.Print());
            r.Some? && if e.sign == "-" then r.value * p == d.Value() else r.value == d.Value() * p
  {
    hide Scaled, Pow10, ReadNumber, NatOf;
    ReadsScaled(d, e);
    var m, n, k := WithSign(d.negative, d.Units()), NatOf(e.digits), |d.fraction|;
    ScaledUp(m, if e.sign == "-" then 0 - n - k else -k, n);
  }
}
