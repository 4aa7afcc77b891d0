/** Decoding the signals of a CAN frame: bit extraction, sign extension, scaling and clamping. */
module CanDecoder {
  import opened Bytes
  import opened CanBits
  import opened CanTypes

  const FRAME_BYTES: nat := 8
  const FRAME_BITS: nat := 64

  // ---- Bitwise operations of 64-bit words ----

  /** n | (1 << i) */
  function OrBit(n: nat, i: nat): nat {
    if i == 0 then n / 2 * 2 + 1 else n % 2 + 2 * OrBit(n / 2, i - 1)
  }

  /** n | (~0 << l) in words of w bits */
  function OrOnesFrom(n: nat, l: nat, w: nat): nat {
    if w == 0 then 0
    else if l > 0 then n % 2 + 2 * OrOnesFrom(n / 2, l - 1, w - 1)
    else 1 + 2 * OrOnesFrom(n / 2, 0, w - 1)
  }

  lemma {:induction false} OrFreshBit(n: nat, i: nat)
    requires Bit(n, i) == 0
    ensures OrBit(n, i) == n + Pow2(i)
    decreases i
  {
    if i > 0 {
      OrFreshBit(n / 2, i - 1);
    }
  }

  lemma {:induction false} OrOnesValue(n: nat, l: nat, w: nat)
    requires l <= w
    ensures OrOnesFrom(n, l, w) == Low(n, l) + Pow2(w) - Pow2(l)
    decreases w
  {
    if w > 0 {
      OrOnesValue(n / 2, if l > 0 then l - 1 else 0, w - 1);
    }
  }

  /** The cast of an unsigned 64-bit word to a signed one. */
  function ToSigned64(n: nat): int {
    if n < Pow2(63) then n else n - Pow2(64)
  }

  // ---- Extraction ----

  lemma ExtractStep(data: seq<byte>, s: nat, i: nat)
    requires |data| == FRAME_BYTES && s + i < FRAME_BITS
    ensures var n := LittleEndian(data);
            var on := Bit(data[(s + i) / 8], (s + i) % 8) == 1;
            Field(n, s, i + 1) == if on then OrBit(Field(n, s, i), i) else Field(n, s, i)
  {
    var n := LittleEndian(data);
    BitOfBytes(data, s + i);
    ShrStep(n, s, i);
    LowStep(Shr(n, s), i);
    LowBound(Shr(n, s), i);
    LowSmall(Field(n, s, i), i);
    OrFreshBit(Field(n, s, i), i);
  }

  lemma BeyondFrame(data: seq<byte>, s: nat, i: nat, l: nat)
    requires |data| == FRAME_BYTES && s + i >= FRAME_BITS && i <= l
    ensures Field(LittleEndian(data), s, l) == Field(LittleEndian(data), s, i)
  {
    var n := LittleEndian(data);
    LittleEndianBound(data);
    PowMonotone(FRAME_BITS, s + i);
    ShrBound(n, s, i);
    PowMonotone(i, l);
    LowSmall(Shr(n, s), i);
    LowSmall(Shr(n, s), l);
  }

  lemma EightBits(n: nat)
    ensures n < 0x100 ==> n % 0x100 == n
  {
  }

  /** The bits of one signal. The counters are eight bits wide; the break comes before the bit position could
      wrap, and before a bit could be shifted out of the word. */
  method ExtractBits(data: seq<byte>, startBit: byte, length: byte) returns (result: nat)
    requires |data| == FRAME_BYTES
    ensures result == ShiftAndMask(LittleEndian(data), startBit, length)
    ensures result == Field(LittleEndian(data), startBit, length)
    ensures result < Pow2(FRAME_BITS) && result < Pow2(length)
  {
    ghost var n := LittleEndian(data);
    assert Field(n, startBit, 0) == 0;
    hide *;
    result := 0;
    var i: byte := 0;
    while i < length
      invariant i <= length
      invariant i == 0 || startBit + i <= FRAME_BITS
      invariant result == Field(n, startBit, i)
      decreases length - i
    {
      var bitPos: byte := (startBit as int + i as int) % 0x100;
      assert bitPos == startBit + i by { EightBits(startBit + i); }
      var byteIdx := bitPos / 8;
      var bitIdx := bitPos % 8;
      if byteIdx >= 8 {
        BeyondFrame(data, startBit, i, length);
        break;
      }
      assert i < FRAME_BITS;
      ExtractStep(data, startBit, i);
      if Bit(data[byteIdx], bitIdx) == 1 {
        result := OrBit(result, i);
      }
      i := i + 1;
    }
    assert result == Field(n, startBit, length);
    FieldIsDivMod(n, startBit, length);
    FieldBound(data, startBit, length);
  }

  lemma FieldBound(data: seq<byte>, s: nat, l: nat)
    requires |data| == FRAME_BYTES
    ensures Field(LittleEndian(data), s, l) < Pow2(FRAME_BITS)
    ensures Field(LittleEndian(data), s, l) < Pow2(l)
  {
    LittleEndianBound(data);
    LowBound(Shr(LittleEndian(data), s), l);
    if s >= FRAME_BITS {
      BeyondFrame(data, s, 0, l);
    } else {
      ShrBound(LittleEndian(data), s, FRAME_BITS - s);
      PowMonotone(FRAME_BITS - s, FRAME_BITS);
      if l < FRAME_BITS {
        PowMonotone(l, FRAME_BITS);
      } else {
        PowMonotone(FRAME_BITS - s, l);
        LowSmall(Shr(LittleEndian(data), s), l);
      }
    }
  }

  // ---- Sign extension ----

  /** The two's-complement value of a field of l bits. */
  function TwosComplement(raw: nat, l: nat): int
    requires l > 0
  {
    if raw < Pow2(l - 1) then raw else raw - Pow2(l)
  }

  /** The value of a signal in a frame read as a number: signed fields of fewer than 64 bits are two's
      complement, everything else goes through a signed 64-bit word. */
  function SignalValue(n: nat, sig: SignalDef): int {
    var raw := Field(n, sig.startBit, sig.length);
    if sig.isSigned && 0 < sig.length < 64 then TwosComplement(raw, sig.length) else ToSigned64(raw)
  }

  lemma {:induction false} TopBit(n: nat, k: nat)
    requires n < Pow2(k + 1)
    ensures Bit(n, k) == 1 <==> n >= Pow2(k)
    decreases k
  {
    if k > 0 {
      TopBit(n / 2, k - 1);
    }
  }

  /** Sign extension by or-ing ones above the field and casting. */
  method SignExtend(raw: nat, isSigned: bool, length: byte) returns (rawSigned: int)
    requires raw < Pow2(FRAME_BITS) && raw < Pow2(length)
    requires isSigned ==> length > 0
    ensures rawSigned == if isSigned && length < 64 then TwosComplement(raw, length) else ToSigned64(raw)
    ensures isSigned && length < 64 ==> -(Pow2(length - 1) as int) <= rawSigned < Pow2(length - 1)
  {
    rawSigned := ToSigned64(raw);
    if isSigned && length < 64 {
      assert Pow2(length) == 2 * Pow2(length - 1);
      hide Pow2, Bit;
      TopBit(raw, length - 1);
      if Bit(raw, length - 1) == 1 {
        rawSigned := ToSigned64(OrOnesFrom(raw, length, 64));
        OrOnesValue(raw, length, 64);
        LowSmall(raw, length);
        PowMonotone(length, 63);
      } else {
        PowMonotone(length - 1, 63);
      }
    }
  }

  // ---- Scaling and clamping ----

  function Min(a: real, b: real): real { if b < a then b else a }
  function Max(a: real, b: real): real { if a < b then b else a }

  /** The physical value: scaled, shifted, and clamped to the limits, the lower limit last. */
  function Physical(value: int, sig: SignalDef): real {
    Max(sig.minVal, Min(sig.maxVal, value as real * sig.scale + sig.offset))
  }

  function DecodedAs(n: nat, sig: SignalDef): DecodedSignal {
    DecodedSignal(sig.name, Physical(SignalValue(n, sig), sig), sig.unit)
  }

  /** What clamping leaves of p: the upper limit from there on up, the lower limit from there on down, and the
      lower limit always when the limits are not in order. */
  ghost predicate IsClamped(v: real, p: real, low: real, high: real) {
    if low > high then v == low
    else if p >= high then v == high
    else if p <= low then v == low
    else v == p
  }

  /** The decoded signal, field by field: name and unit of the layout, and the scaled and shifted value of the
      field, clamped. */
  ghost predicate Decodes(signal: DecodedSignal, sig: SignalDef, raw: int) {
    && signal.name == sig.name && signal.unit == sig.unit
    && IsClamped(signal.value, raw as real * sig.scale + sig.offset, sig.minVal, sig.maxVal)
  }

  /** The limits are kept exactly when they are in order, values between them pass unchanged, and values
      beyond one of them become that one. */
  lemma ClampKeepsLimits(value: int, sig: SignalDef)
    ensures IsClamped(Physical(value, sig), value as real * sig.scale + sig.offset, sig.minVal, sig.maxVal)
    ensures sig.minVal <= Physical(value, sig)
    ensures Physical(value, sig) <= sig.maxVal <==> sig.minVal <= sig.maxVal
    ensures var p := value as real * sig.scale + sig.offset;
            sig.minVal <= sig.maxVal ==> (Physical(value, sig) == p <==> sig.minVal <= p <= sig.maxVal)
  {
  }

  /** One decoded signal for each signal of the message, in its order. */
  method Decode(data: seq<byte>, msg: MessageDef) returns (results: seq<DecodedSignal>)
    requires |data| == FRAME_BYTES
    requires forall sig <- msg.signals :: sig.isSigned ==> sig.length > 0
    ensures |results| == |msg.signals|
    ensures forall i :: 0 <= i < |results| ==> results[i] == DecodedAs(LittleEndian(data), msg.signals[i])
    ensures forall i :: 0 <= i < |results| ==>
              Decodes(results[i], msg.signals[i], SignalValue(LittleEndian(data), msg.signals[i]))
  {
    results := [];
    for i := 0 to |msg.signals|
      invariant |results| == i
      invariant forall j :: 0 <= j < i ==> results[j] == DecodedAs(LittleEndian(data), msg.signals[j])
      invariant forall j :: 0 <= j < i ==>
                  Decodes(results[j], msg.signals[j], SignalValue(LittleEndian(data), msg.signals[j]))
    {
      hide DecodedAs, Decodes, SignalValue, LittleEndian;
      var signal := DecodeSignal(data, msg.signals[i]);
      results := results + [signal];
    }
  }

  method RawValue(data: seq<byte>, sig: SignalDef) returns (rawSigned: int)
    requires |data| == FRAME_BYTES
    requires sig.isSigned ==> sig.length > 0
    ensures rawSigned == SignalValue(LittleEndian(data), sig)
  {
    var raw := ExtractBits(data, sig.startBit, sig.length);
    rawSigned := SignExtend(raw, sig.isSigned, sig.length);
  }

  method DecodeSignal(data: seq<byte>, sig: SignalDef) returns (signal: DecodedSignal)
    requires |data| == FRAME_BYTES
    requires sig.isSigned ==> sig.length > 0
    ensures signal == DecodedAs(LittleEndian(data), sig)
    ensures Decodes(signal, sig, SignalValue(LittleEndian(data), sig))
  {
    hide LittleEndian, SignalValue;
    var rawSigned := RawValue(data, sig);
    signal := DecodedSignal(sig.name, Physical(rawSigned, sig), sig.unit);
  }

  // ---- Packing a frame, and decoding what was packed ----

  ghost predicate InsideFrame(sig: SignalDef) {
    sig.length > 0 && sig.startBit + sig.length <= FRAME_BITS
  }

  ghost predicate Disjoint(a: SignalDef, b: SignalDef) {
    a.startBit + a.length <= b.startBit || b.startBit + b.length <= a.startBit
  }

  /** The values a signal's field can hold. */
  ghost predicate Holds(sig: SignalDef, v: int) {
    if sig.isSigned then sig.length > 0 && -(Pow2(sig.length - 1) as int) <= v < Pow2(sig.length - 1)
    else 0 <= v < Pow2(sig.length)
  }

  function RawOf(sig: SignalDef, v: int): int {
    if v < 0 then v + Pow2(sig.length) else v
  }

  /** Packs one value: the bits of its field are replaced. */
  function Pack(n: nat, sig: SignalDef, v: int): nat {
    if RawOf(sig, v) >= 0 then Put(n, sig.startBit, sig.length, RawOf(sig, v)) else n
  }

  function PackAll(n: nat, sigs: seq<SignalDef>, vs: seq<int>): nat
    requires |sigs| == |vs|
    decreases |sigs|
  {
    if sigs == [] then n else PackAll(Pack(n, sigs[0], vs[0]), sigs[1..], vs[1..])
  }

  lemma {:induction false} RawFits(sig: SignalDef, v: int)
    requires Holds(sig, v)
    ensures 0 <= RawOf(sig, v) < Pow2(sig.length)
    ensures sig.isSigned ==> TwosComplement(RawOf(sig, v), sig.length) == v < Pow2(sig.length - 1)
  {
    if sig.isSigned {
      assert Pow2(sig.length) == 2 * Pow2(sig.length - 1);
    }
  }

  /** A packed value is decoded again, except that an unsigned value of 2^63 or more comes out negative. */
  lemma {:induction false} PackThenDecode(n: nat, sig: SignalDef, v: int)
    requires InsideFrame(sig) && Holds(sig, v)
    ensures SignalValue(Pack(n, sig, v), sig) == v <==> v < Pow2(63)
  {
    RawFits(sig, v);
    PutGet(n, sig.startBit, sig.length, RawOf(sig, v));
    assert Pow2(64) == 2 * Pow2(63) > 0;
    hide Put, Field, Pow2;
    if sig.isSigned {
      PowMonotone(sig.length - 1, 63);
    }
  }

  lemma {:induction false} PackLeavesOthers(n: nat, sig: SignalDef, v: int, other: SignalDef)
    requires Disjoint(sig, other)
    ensures SignalValue(Pack(n, sig, v), other) == SignalValue(n, other)
  {
    if RawOf(sig, v) >= 0 {
      PutOther(n, sig.startBit, sig.length, RawOf(sig, v), other.startBit, other.length);
    }
  }

  lemma {:induction false} PackAllLeavesOthers(n: nat, sigs: seq<SignalDef>, vs: seq<int>, other: SignalDef)
    requires |sigs| == |vs|
    requires forall sig <- sigs :: Disjoint(sig, other)
    ensures SignalValue(PackAll(n, sigs, vs), other) == SignalValue(n, other)
    decreases |sigs|
  {
    if sigs != [] {
      PackLeavesOthers(n, sigs[0], vs[0], other);
      PackAllLeavesOthers(Pack(n, sigs[0], vs[0]), sigs[1..], vs[1..], other);
    }
  }

  ghost predicate Layout(sigs: seq<SignalDef>) {
    && (forall sig <- sigs :: InsideFrame(sig))
    && (forall i, j :: 0 <= i < j < |sigs| ==> Disjoint(sigs[i], sigs[j]))
  }

  /** For any layout of pairwise disjoint signals and any values they hold, packing all values, in a frame with
      any previous contents, and decoding returns every value. */
  lemma {:induction false} LayoutRoundTrip(n: nat, sigs: seq<SignalDef>, vs: seq<int>, i: nat)
    requires |sigs| == |vs| && i < |sigs| && Layout(sigs)
    requires forall j :: 0 <= j < |sigs| ==> Holds(sigs[j], vs[j]) && vs[j] < Pow2(63)
    ensures SignalValue(PackAll(n, sigs, vs), sigs[i]) == vs[i]
    decreases |sigs|
  {
    var n1 := Pack(n, sigs[0], vs[0]);
    if i == 0 {
      PackThenDecode(n, sigs[0], vs[0]);
      forall sig | sig in sigs[1..] ensures Disjoint(sig, sigs[0]) {
        var j :| 0 <= j < |sigs[1..]| && sigs[1..][j] == sig;
        assert Disjoint(sigs[0], sigs[j + 1]);
      }
      PackAllLeavesOthers(n1, sigs[1..], vs[1..], sigs[0]);
    } else {
      LayoutRoundTrip(n1, sigs[1..], vs[1..], i - 1);
    }
  }

  lemma {:induction false} PackAllBound(n: nat, sigs: seq<SignalDef>, vs: seq<int>)
    requires |sigs| == |vs| && n < Pow2(FRAME_BITS)
    requires forall j :: 0 <= j < |sigs| ==> InsideFrame(sigs[j]) && Holds(sigs[j], vs[j])
    ensures PackAll(n, sigs, vs) < Pow2(FRAME_BITS)
    decreases |sigs|
  {
    if sigs != [] {
      var raw := RawOf(sigs[0], vs[0]);
      assert InsideFrame(sigs[0]) && Holds(sigs[0], vs[0]);
      assert 0 <= raw < Pow2(sigs[0].length);
      PutBound(n, sigs[0].startBit, sigs[0].length, raw, FRAME_BITS);
      PackAllBound(Pack(n, sigs[0], vs[0]), sigs[1..], vs[1..]);
    }
  }

  /** The bytes of a frame into which a whole layout was packed. */
  function PackFrame(sigs: seq<SignalDef>, vs: seq<int>): (data: seq<byte>)
    requires |sigs| == |vs|
    ensures |data| == FRAME_BYTES
  {
    ToLittleEndian(PackAll(0, sigs, vs), FRAME_BYTES)
  }

  /** End to end: decoding the bytes of a packed frame yields, for every signal in order, its own value scaled
      and clamped. */
  method DecodePacked(msg: MessageDef, vs: seq<int>) returns (results: seq<DecodedSignal>)
    requires |msg.signals| == |vs| && Layout(msg.signals)
    requires forall j :: 0 <= j < |vs| ==> Holds(msg.signals[j], vs[j]) && vs[j] < Pow2(63)
    ensures |results| == |vs|
    ensures forall i :: 0 <= i < |vs| ==>
      results[i] == DecodedSignal(msg.signals[i].name, Physical(vs[i], msg.signals[i]), msg.signals[i].unit)
  {
    var data := PackFrame(msg.signals, vs);
    results := Decode(data, msg);
    PackAllBound(0, msg.signals, vs);
    LittleEndianInverse(PackAll(0, msg.signals, vs), FRAME_BYTES);
    forall i | 0 <= i < |vs|
      ensures SignalValue(LittleEndian(data), msg.signals[i]) == vs[i]
    {
      LayoutRoundTrip(0, msg.signals, vs, i);
    }
  }

  /** Storing a 16-bit value low byte first into two neighbouring bytes packs a field of 16 bits. */
  lemma {:induction false} TwoBytesAreAField(data: seq<byte>, k: nat, v: uint16)
    requires k + 2 <= |data|
    ensures LittleEndian(data[k := v % 0x100][k + 1 := v / 0x100]) == Put(LittleEndian(data), 8 * k, 16, v)
  {
    var stored := data[k := v % 0x100][k + 1 := v / 0x100];
    if k > 0 {
      TwoBytesAreAField(data[1..], k - 1, v);
      assert stored[1..] == data[1..][k - 1 := v % 0x100][k := v / 0x100];
      assert stored[0] == data[0];
      PutAboveByte(data[0], LittleEndian(data[1..]), 8 * (k - 1), 16, v);
    } else {
      assert stored[1..][1..] == data[2..] == data[1..][1..];
      var r := LittleEndian(data[2..]);
      assert LittleEndian(stored) == v % 0x100 + 0x100 * (v / 0x100 + 0x100 * r) == v + 0x1_0000 * r;
      assert LittleEndian(data) == data[0] + 0x100 * (data[1] + 0x100 * r);
      PutLowBits(LittleEndian(data), 16, v);
      AboveLowByte(data[0], data[1] + 0x100 * r);
      AboveLowByte(data[1], r);
      ShrStep(LittleEndian(data), 8, 8);
      LowSmallWord(v);
    }
  }

  lemma LowSmallWord(v: uint16)
    ensures Low(v, 16) == v && Pow2(16) == 0x1_0000
  {
    PowOfEight();
    PowAdd(8, 8);
    LowSmall(v, 16);
  }

  lemma {:induction false} PutLowBits(n: nat, l: nat, v: nat)
    ensures Put(n, 0, l, v) == Low(v, l) + Pow2(l) * Shr(n, l)
    decreases l
  {
    if l > 0 {
      PutLowBits(n / 2, l - 1, v / 2);
      DoubleProduct(Pow2(l - 1), Shr(n, l));
    }
  }

  /** Writing above a byte leaves the byte and writes into the rest. */
  lemma {:induction false} PutAboveByte(d: byte, r: nat, s: nat, l: nat, v: nat)
    ensures Put(d + 0x100 * r, s + 8, l, v) == d + 0x100 * Put(r, s, l, v)
  {
    PowOfEight();
    PutAbove(d, r, 8, s, l, v);
  }

  lemma {:induction false} PutAbove(d: nat, r: nat, j: nat, s: nat, l: nat, v: nat)
    requires d < Pow2(j)
    ensures Put(d + Pow2(j) * r, s + j, l, v) == d + Pow2(j) * Put(r, s, l, v)
    decreases j
  {
    if j > 0 {
      var t, u := Pow2(j - 1) * r, Pow2(j - 1) * Put(r, s, l, v);
      DoubleProduct(Pow2(j - 1), r);
      DoubleProduct(Pow2(j - 1), Put(r, s, l, v));
      assert (d + 2 * t) / 2 == d / 2 + t && (d + 2 * t) % 2 == d % 2;
      PutAbove(d / 2, r, j - 1, s, l, v);
    }
  }
}
