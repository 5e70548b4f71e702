/** Bytes, little-endian integer fields and the two C memory primitives everything else is built on. */
module Bytes {

  newtype byte = x: int | 0 <= x < 256

  const NUL: byte := 0

  datatype Option<+T> = None | Some(value: T)

  /** The C's int and unsigned int have this many values. */
  const INT_SPAN := 0x1_0000_0000

  /** 256^w: the number of values a field of w bytes can hold. */
  function Span(w: nat): (n: nat)
    ensures n >= 1
  {
    if w == 0 then 1 else 256 * Span(w - 1)
  }

  lemma Spans()
    ensures Span(1) == 0x100 && Span(2) == 0x1_0000 && Span(4) == 0x1_0000_0000
    ensures Span(8) == 0x1_0000_0000_0000_0000
  {
    assert Span(3) == 256 * Span(2) && Span(2) == 256 * Span(1);
    assert Span(4) == 0x1_0000_0000;
    assert Span(6) == 256 * Span(5) && Span(5) == 256 * Span(4);
    assert Span(8) == 256 * Span(7) && Span(7) == 256 * Span(6);
  }

  /** The w bytes memcpy takes from an unsigned integer of that width on a little-endian machine. */
  function Le(v: nat, w: nat): (s: seq<byte>)
    ensures |s| == w
  {
    if w == 0 then [] else [(v % 256) as byte] + Le(v / 256, w - 1)
  }

  /** The least significant byte comes first. */
  lemma {:induction false} LeByte(v: nat, w: nat, i: nat)
    requires i < w
    ensures Le(v, w)[i] as int == v / Span(i) % 256
  {
    if i > 0 {
      LeByte(v / 256, w - 1, i - 1);
      DivideTwice(v, 256, Span(i - 1));
    }
  }

  lemma DivideTwice(v: nat, a: nat, b: nat)
    requires a > 0 && b > 0
    ensures a * b > 0 && v / a / b == v / (a * b)
  {
    var q, r := v / a / b, v % a + a * (v / a % b);
    QuotientIs(v / a % b, v % a, a, b);
    assert v == a * (v / a) + v % a && v / a == b * q + v / a % b;
    assert v == (a * b) * q + r by {
      assert a * (b * q + v / a % b) == (a * b) * q + a * (v / a % b);
    }
    DivisionIsUnique(v, a * b, q, r);
  }

  lemma QuotientIs(high: nat, low: nat, a: nat, b: nat)
    requires high < b && low < a
    ensures a * b > 0 && low + a * high < a * b
  {
    assert a * high <= a * (b - 1) == a * b - a;
  }

  lemma DivisionIsUnique(n: int, D: nat, q: int, r: int)
    requires 0 <= r < D && n == D * q + r
    ensures n / D == q && n % D == r
  {
    var k := q - n / D;
    assert D * k == n % D - r;
    assert (k >= 1 ==> D * k >= D) && (k <= -1 ==> D * k + D <= 0);
  }

  function FromLe(s: seq<byte>): (v: nat)
    ensures v < Span(|s|)
  {
    if s == [] then 0 else s[0] as int + 256 * FromLe(s[1..])
  }

  lemma {:induction false} FromLeInvertsLe(v: nat, w: nat)
    requires v < Span(w)
    ensures FromLe(Le(v, w)) == v
  {
    if w > 0 {
      FromLeInvertsLe(v / 256, w - 1);
      assert Le(v, w)[1..] == Le(v / 256, w - 1);
    }
  }

  /** v fits a signed field of w bytes. */
  predicate InSigned(v: int, w: nat) {
    -2 * v <= Span(w) && 2 * v < Span(w)
  }

  /** Two's complement image of a signed field of w bytes. */
  function Unsigned(v: int, w: nat): (u: nat)
    requires InSigned(v, w)
    ensures u < Span(w)
  {
    if v < 0 then v + Span(w) else v
  }

  function Signed(u: nat, w: nat): (v: int)
    requires u < Span(w)
  {
    if 2 * u >= Span(w) then u - Span(w) else u
  }

  /** The image is the value modulo the span, as a C conversion to unsigned gives it. */
  lemma UnsignedIsModulo(v: int, w: nat)
    requires InSigned(v, w)
    ensures Unsigned(v, w) == v % Span(w)
  {
    DivisionIsUnique(v, Span(w), if v < 0 then -1 else 0, Unsigned(v, w));
  }

  lemma SignedInvertsUnsigned(v: int, w: nat)
    requires InSigned(v, w)
    ensures Signed(Unsigned(v, w), w) == v
  {
  }

  /** A C string: no NUL inside. */
  ghost predicate NoNul(s: seq<byte>) {
    NUL !in s
  }

  /** What strlen, strcpy and printf's %s see of a byte sequence. */
  function CStr(s: seq<byte>): (r: seq<byte>)
    ensures r <= s && NoNul(r)
    ensures |r| < |s| ==> s[|r|] == NUL
    ensures NoNul(s) ==> r == s
  {
    if s == [] || s[0] == NUL then [] else [s[0]] + CStr(s[1..])
  }

  /** A C string ends in front of the first zero byte. */
  lemma CStrEndsAtZero(s: seq<byte>)
    ensures 0 !in CStr(s)
    ensures 0 in s ==> |CStr(s)| < |s| && s[|CStr(s)|] == 0
    ensures 0 !in s ==> CStr(s) == s
  {
    var r := CStr(s);
    if |r| == |s| {
      assert r == s[..|r|] == s;
    }
  }

  /** memcpy into the middle of a buffer. */
  method MemCpy(buffer: array<byte>, at: nat, src: seq<byte>)
    requires at + |src| <= buffer.Length
    modifies buffer
    ensures buffer[..at + |src|] == old(buffer[..at]) + src
    ensures buffer[at + |src|..] == old(buffer[at + |src|..])
  {
    for i := 0 to |src|
      invariant buffer[..at + i] == old(buffer[..at]) + src[..i]
      invariant buffer[at + i..] == old(buffer[at + i..])
    {
      ghost var tail := buffer[at + i..];
      ghost var head := buffer[..at + i];
      buffer[at + i] := src[i];
      assert buffer[..at + i + 1] == head + [src[i]];
      assert buffer[at + i + 1..] == tail[1..];
    }
    assert src[..|src|] == src;
  }

  /** realloc: the old bytes are kept, the new ones are whatever the heap holds. */
  method Realloc(buffer: array<byte>, size: nat) returns (r: array<byte>)
    requires buffer.Length <= size
    ensures fresh(r) && r.Length == size
    ensures r[..buffer.Length] == buffer[..]
  {
    r := new byte[size];
    MemCpy(r, 0, buffer[..]);
  }
}
