/** Bit fields of natural numbers: reading, writing, and their closed forms. Everything is defined by halving,
    so that proofs follow the bits. */
module CanBits {
  import opened Bytes

  function Pow2(k: nat): (p: nat)
    ensures p >= 1
  {
    if k == 0 then 1 else 2 * Pow2(k - 1)
  }

  /** n shifted right by k. */
  function Shr(n: nat, k: nat): nat {
    if k == 0 then n else Shr(n / 2, k - 1)
  }

  /** The low k bits of n. */
  function Low(n: nat, k: nat): nat {
    if k == 0 then 0 else n % 2 + 2 * Low(n / 2, k - 1)
  }

  function Bit(n: nat, k: nat): (b: nat)
    ensures b < 2
  {
    Shr(n, k) % 2
  }

  /** The field of l bits at bit s. */
  function Field(n: nat, s: nat, l: nat): nat {
    Low(Shr(n, s), l)
  }

  /** n with the field of l bits at bit s replaced by v. */
  function Put(n: nat, s: nat, l: nat, v: nat): nat {
    if s > 0 then n % 2 + 2 * Put(n / 2, s - 1, l, v)
    else if l > 0 then v % 2 + 2 * Put(n / 2, 0, l - 1, v / 2)
    else n
  }

  // ---- Closed forms ----

  lemma {:induction false} MulOrder(d: int, a: int, b: int)
    requires d > 0 && a < b
    ensures d * a + d <= d * b
    decreases b - a
  {
    assert d * b == d * (b - 1) + d;
    if a < b - 1 {
      MulOrder(d, a, b - 1);
    }
  }

  lemma {:induction false} DivMod(n: int, d: int, q: int, r: int)
    requires n == d * q + r && 0 <= r < d
    ensures n / d == q && n % d == r
  {
    var p := n / d;
    if p < q {
      MulOrder(d, p, q);
    } else if p > q {
      MulOrder(d, q, p);
    }
  }

  lemma {:induction false} ShiftIsDivision(n: nat, k: nat)
    ensures Shr(n, k) == n / Pow2(k)
    ensures Low(n, k) == n % Pow2(k)
  {
    if k > 0 {
      ShiftIsDivision(n / 2, k - 1);
      var m, q, r := Pow2(k - 1), Shr(n / 2, k - 1), Low(n / 2, k - 1);
      DoubleSplit(n, m, q, r);
      DivMod(n, 2 * m, q, 2 * r + n % 2);
    }
  }

  lemma DoubleSplit(n: nat, m: nat, q: nat, r: nat)
    requires m > 0 && q == n / 2 / m && r == n / 2 % m
    ensures n == (2 * m) * q + (2 * r + n % 2) && 2 * r + n % 2 < 2 * m
  {
    var p := m * q;
    assert n / 2 == p + r;
    assert (2 * m) * q == 2 * p;
  }

  /** n / 2^s mod 2^l */
  function ShiftAndMask(n: nat, s: nat, l: nat): nat {
    n / Pow2(s) % Pow2(l)
  }

  lemma FieldIsDivMod(n: nat, s: nat, l: nat)
    ensures Field(n, s, l) == ShiftAndMask(n, s, l)
  {
    ShiftIsDivision(n, s);
    ShiftIsDivision(Shr(n, s), l);
  }

  // ---- Bits one at a time ----

  lemma {:induction false} ShrStep(n: nat, a: nat, b: nat)
    ensures Shr(Shr(n, a), b) == Shr(n, a + b)
    decreases a
  {
    if a > 0 {
      ShrStep(n / 2, a - 1, b);
    }
  }

  /** One more bit of the low part. */
  lemma {:induction false} LowStep(n: nat, k: nat)
    ensures Low(n, k + 1) == Low(n, k) + if Bit(n, k) == 1 then Pow2(k) else 0
    decreases k
  {
    if k > 0 {
      LowStep(n / 2, k - 1);
      assert Bit(n / 2, k - 1) == Bit(n, k);
    }
  }

  lemma {:induction false} LowBound(n: nat, k: nat)
    ensures Low(n, k) < Pow2(k)
  {
    if k > 0 {
      LowBound(n / 2, k - 1);
    }
  }

  /** A number that fits k bits is its own low part, and has nothing above. */
  lemma {:induction false} LowSmall(n: nat, k: nat)
    requires n < Pow2(k)
    ensures Low(n, k) == n && Shr(n, k) == 0
  {
    if k > 0 {
      LowSmall(n / 2, k - 1);
    }
  }

  lemma {:induction false} PowAdd(a: nat, b: nat)
    ensures Pow2(a + b) == Pow2(a) * Pow2(b)
    decreases a
  {
    if a > 0 {
      PowAdd(a - 1, b);
      DoubleProduct(Pow2(a - 1), Pow2(b));
    }
  }

  lemma DoubleProduct(x: int, y: int)
    ensures (2 * x) * y == 2 * (x * y)
  {
  }

  lemma PowMonotone(a: nat, b: nat)
    requires a <= b
    ensures Pow2(a) <= Pow2(b)
    decreases b
  {
    if a < b {
      PowMonotone(a, b - 1);
    }
  }

  lemma {:induction false} ShrBound(n: nat, s: nat, k: nat)
    requires n < Pow2(s + k)
    ensures Shr(n, s) < Pow2(k)
    decreases s
  {
    if s > 0 {
      ShrBound(n / 2, s - 1, k);
    }
  }

  // ---- Writing and reading back ----

  /** What is written to a field is read from it. */
  lemma {:induction false} PutGet(n: nat, s: nat, l: nat, v: nat)
    requires v < Pow2(l)
    ensures Field(Put(n, s, l, v), s, l) == v
    decreases s + l
  {
    if s > 0 {
      PutGet(n / 2, s - 1, l, v);
    } else if l > 0 {
      PutGet(n / 2, 0, l - 1, v / 2);
    }
  }

  /** Writing a field leaves every field that shares no bit with it unchanged. */
  lemma {:induction false} PutOther(n: nat, s: nat, l: nat, v: nat, s2: nat, l2: nat)
    requires s + l <= s2 || s2 + l2 <= s
    ensures Field(Put(n, s, l, v), s2, l2) == Field(n, s2, l2)
    decreases s + l, l2
  {
    if s > 0 && s2 > 0 {
      PutOther(n / 2, s - 1, l, v, s2 - 1, l2);
    } else if s > 0 {
      if l2 > 0 {
        PutOther(n / 2, s - 1, l, v, 0, l2 - 1);
      }
    } else if l > 0 && s2 > 0 {
      PutOther(n / 2, 0, l - 1, v / 2, s2 - 1, l2);
    }
  }

  /** A field inside k bits keeps the number inside k bits. */
  lemma {:induction false} PutBound(n: nat, s: nat, l: nat, v: nat, k: nat)
    requires n < Pow2(k) && s + l <= k && v < Pow2(l)
    ensures Put(n, s, l, v) < Pow2(k)
    decreases k
  {
    if s > 0 {
      PutBound(n / 2, s - 1, l, v, k - 1);
    } else if l > 0 {
      PutBound(n / 2, 0, l - 1, v / 2, k - 1);
    }
  }

  // ---- Bytes in little-endian order ----

  function LittleEndian(data: seq<byte>): nat {
    if data == [] then 0 else data[0] + 0x100 * LittleEndian(data[1..])
  }

  /** The k lowest bytes of n, lowest first. */
  function ToLittleEndian(n: nat, k: nat): (s: seq<byte>)
    ensures |s| == k
  {
    if k == 0 then [] else [n % 0x100] + ToLittleEndian(n / 0x100, k - 1)
  }

  lemma {:induction false} LittleEndianInverse(n: nat, k: nat)
    requires n < Pow2(8 * k)
    ensures LittleEndian(ToLittleEndian(n, k)) == n
    decreases k
  {
    if k > 0 {
      PowAdd(8, 8 * (k - 1));
      assert Pow2(8) == 0x100 by { PowOfEight(); }
      LittleEndianInverse(n / 0x100, k - 1);
      assert ToLittleEndian(n, k)[1..] == ToLittleEndian(n / 0x100, k - 1);
    }
  }

  lemma PowOfEight()
    ensures Pow2(8) == 0x100
  {
    assert Pow2(4) == 16;
    PowAdd(4, 4);
  }

  lemma {:induction false} LittleEndianBound(data: seq<byte>)
    ensures LittleEndian(data) < Pow2(8 * |data|)
  {
    if data != [] {
      LittleEndianBound(data[1..]);
      PowOfEight();
      PowAdd(8, 8 * |data[1..]|);
    }
  }

  /** Bits below j do not see what is added above. */
  lemma {:induction false} ShrBelow(d: nat, r: nat, j: nat, b: nat)
    requires b <= j
    ensures Shr(d + Pow2(j) * r, b) == Shr(d, b) + Pow2(j - b) * r
    decreases b
  {
    if b > 0 {
      DoubleProduct(Pow2(j - 1), r);
      var t := Pow2(j - 1) * r;
      assert (d + 2 * t) / 2 == d / 2 + t;
      ShrBelow(d / 2, r, j - 1, b - 1);
    }
  }

  lemma {:induction false} ParityBelow(n: nat, q: nat, r: nat)
    ensures (n + 2 * q * r) % 2 == n % 2
  {
    var t := q * r;
    assert 2 * q * r == 2 * t;
  }

  lemma {:induction false} LowByteBit(d: byte, r: nat, b: nat)
    requires b < 8
    ensures Bit(d + 0x100 * r, b) == Bit(d, b)
  {
    assert Pow2(8) == 0x100 by { PowOfEight(); }
    ShrBelow(d, r, 8, b);
    assert Pow2(8 - b) == 2 * Pow2(7 - b);
    hide Pow2, Shr;
    ParityBelow(Shr(d, b), Pow2(7 - b), r);
  }

  lemma {:induction false} AboveLowByte(d: byte, r: nat)
    ensures Shr(d + 0x100 * r, 8) == r
  {
    assert Pow2(8) == 0x100 by { PowOfEight(); }
    assert Pow2(0) == 1;
    hide Pow2, Shr;
    ShrBelow(d, r, 8, 8);
    LowSmall(d, 8);
  }

  /** Bit p of a little-endian number is bit p mod 8 of its byte p / 8. */
  lemma {:induction false} BitOfBytes(data: seq<byte>, p: nat)
    requires p < 8 * |data|
    ensures Bit(LittleEndian(data), p) == Bit(data[p / 8], p % 8)
  {
    var d, r := data[0], LittleEndian(data[1..]);
    if p < 8 {
      LowByteBit(d, r, p);
    } else {
      AboveLowByte(d, r);
      ShrStep(d + 0x100 * r, 8, p - 8);
      BitOfBytes(data[1..], p - 8);
      assert data[1..][(p - 8) / 8] == data[p / 8];
    }
  }
}
