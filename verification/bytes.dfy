/** Bytes, fixed-width unsigned integers and their big-endian (network order) encodings. */
module Bytes {
  type byte = b: int | 0 <= b < 0x100
  type uint16 = n: int | 0 <= n < 0x1_0000
  type uint32 = n: int | 0 <= n < 0x1_0000_0000

  /** The cast to a 32-bit unsigned integer. */
  function Low32(n: nat): (r: uint32)
    ensures r == n % 0x1_0000_0000
  {
    if n < 0x1_0000_0000 then n else n % 0x1_0000_0000
  }

  function EncodeU16(n: uint16): (s: seq<byte>)
    ensures |s| == 2
  {
    [n / 0x100, n % 0x100]
  }

  function EncodeU32(n: uint32): (s: seq<byte>)
    ensures |s| == 4
  {
    EncodeU16(n / 0x1_0000) + EncodeU16(n % 0x1_0000)
  }

  /** The big-endian 16-bit field of s at offset i. */
  function U16At(s: seq<byte>, i: nat): uint16
    requires i + 2 <= |s|
  {
    s[i] as int * 0x100 + s[i + 1]
  }

  /** The big-endian 32-bit field of s at offset i. */
  function U32At(s: seq<byte>, i: nat): uint32
    requires i + 4 <= |s|
  {
    U16At(s, i) as int * 0x1_0000 + U16At(s, i + 2)
  }

  /** Reading and encoding a 16-bit field are inverse to each other. */
  lemma U16Inverse(s: seq<byte>, i: nat, n: uint16)
    requires i + 2 <= |s|
    ensures s[i..i + 2] == EncodeU16(n) <==> U16At(s, i) == n
  {
    assert s[i..i + 2] == [s[i], s[i + 1]];
    assert EncodeU16(n)[0] == n / 0x100 && EncodeU16(n)[1] == n % 0x100;
  }

  /** Reading and encoding a 32-bit field are inverse to each other. */
  lemma U32Inverse(s: seq<byte>, i: nat, n: uint32)
    requires i + 4 <= |s|
    ensures s[i..i + 4] == EncodeU32(n) <==> U32At(s, i) == n
  {
    var hi, lo := n / 0x1_0000, n % 0x1_0000;
    U16Inverse(s, i, hi);
    U16Inverse(s, i + 2, lo);
    assert U32At(s, i) == n <==> U16At(s, i) == hi && U16At(s, i + 2) == lo;
    Halves(s[i..i + 4], EncodeU16(hi), EncodeU16(lo));
    assert s[i..i + 4][..2] == s[i..i + 2] && s[i..i + 4][2..] == s[i + 2..i + 4];
  }

  lemma Halves(s: seq<byte>, a: seq<byte>, b: seq<byte>)
    requires |s| == |a| + |b|
    ensures s == a + b <==> s[..|a|] == a && s[|a|..] == b
  {
    assert (a + b)[..|a|] == a && (a + b)[|a|..] == b;
    assert s == s[..|a|] + s[|a|..];
  }

  /** The fields of an encoding that stands at offset |a|. */
  lemma U16Read(a: seq<byte>, n: uint16, b: seq<byte>)
    ensures U16At(a + EncodeU16(n) + b, |a|) == n
  {
    var s := a + EncodeU16(n) + b;
    assert s[|a|..|a| + 2] == EncodeU16(n);
    U16Inverse(s, |a|, n);
  }

  lemma U32Read(a: seq<byte>, n: uint32, b: seq<byte>)
    ensures U32At(a + EncodeU32(n) + b, |a|) == n
  {
    var s := a + EncodeU32(n) + b;
    assert s[|a|..|a| + 4] == EncodeU32(n);
    U32Inverse(s, |a|, n);
  }

  /** The low 24 bits of n. */
  function EncodeU24(n: uint32): (s: seq<byte>)
    ensures |s| == 3
  {
    [n / 0x1_0000 % 0x100, n / 0x100 % 0x100, n % 0x100]
  }

  function U24At(s: seq<byte>, i: nat): (n: uint32)
    requires i + 3 <= |s|
  {
    s[i] as int * 0x1_0000 + s[i + 1] as int * 0x100 + s[i + 2]
  }

  /** A 24-bit field carries its number modulo 2^24. */
  lemma U24Read(s: seq<byte>, i: nat, n: uint32)
    requires i + 3 <= |s| && s[i..i + 3] == EncodeU24(n)
    ensures U24At(s, i) == n % 0x100_0000
  {
    assert s[i] == s[i..i + 3][0] && s[i + 1] == s[i..i + 3][1] && s[i + 2] == s[i..i + 3][2];
    Digits24(n, n / 0x1_0000, n % 0x1_0000);
  }

  lemma Digits24(n: nat, h: nat, l: nat)
    requires n == h * 0x1_0000 + l && l < 0x1_0000
    ensures n / 0x1_0000 == h && n / 0x100 % 0x100 == l / 0x100 && n % 0x100 == l % 0x100
    ensures n % 0x100_0000 == h % 0x100 * 0x1_0000 + l
  {
    DigitsOf(h);
    DigitsOf(l);
    FourDigits(h / 0x100, h % 0x100, l / 0x100, l % 0x100);
  }

  lemma DigitsOf(n: nat)
    ensures n == n / 0x100 * 0x100 + n % 0x100 && n % 0x100 < 0x100
  {
  }

  lemma FourDigits(a: nat, b: byte, c: byte, d: byte)
    ensures var n := ((a * 0x100 + b) * 0x100 + c) * 0x100 + d;
            && n / 0x1_0000 == a * 0x100 + b && n / 0x100 % 0x100 == c && n % 0x100 == d
            && n % 0x100_0000 == (b * 0x100 + c) * 0x100 + d
  {
    var n := ((a * 0x100 + b) * 0x100 + c) * 0x100 + d;
    assert n / 0x100 == (a * 0x100 + b) * 0x100 + c;
  }

  /** memcpy into the buffer at an offset. */
  method WriteAt(buf: array<byte>, at: nat, bytes: seq<byte>)
    requires at + |bytes| <= buf.Length
    modifies buf
    ensures buf[..at + |bytes|] == old(buf[..at]) + bytes
    ensures buf[at + |bytes|..] == old(buf[at + |bytes|..])
  {
    forall i | 0 <= i < |bytes| {
      buf[at + i] := bytes[i];
    }
  }
}
