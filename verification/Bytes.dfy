/** Little-endian integers, as memcpy of a fixed-width integer writes and reads them. */
module Bytes {
  import opened Common

  type byte = x: int | 0 <= x < 256

  type i32 = x: int | -0x8000_0000 <= x < 0x8000_0000
  type i64 = x: int | -0x8000_0000_0000_0000 <= x < 0x8000_0000_0000_0000
  type u32 = x: int | 0 <= x < 0x1_0000_0000

  /** A double travels as its eight bytes; its numeric meaning plays no part. */
  type f64 = s: seq<byte> | |s| == 8 witness [0, 0, 0, 0, 0, 0, 0, 0]

  function Pow256(w: nat): (p: nat)
    ensures p >= 1
  {
    if w == 0 then 1 else 256 * Pow256(w - 1)
  }

  /** The low w bytes of v, least significant first: a truncating cast, then memcpy. */
  function LE(v: nat, w: nat): (s: seq<byte>)
    ensures |s| == w
    decreases w
  {
    if w == 0 then [] else [v % 256] + LE(v / 256, w - 1)
  }

  function FromLE(s: seq<byte>): nat {
    if s == [] then 0 else s[0] + 256 * FromLE(s[1..])
  }

  lemma {:induction false} FromLEOfLE(v: nat, w: nat)
    requires v < Pow256(w)
    ensures FromLE(LE(v, w)) == v
    decreases w
  {
    if w > 0 {
      FromLEOfLE(v / 256, w - 1);
      assert LE(v, w)[1..] == LE(v / 256, w - 1);
    }
  }

  lemma {:induction false} LEOfFromLE(s: seq<byte>)
    ensures FromLE(s) < Pow256(|s|)
    ensures LE(FromLE(s), |s|) == s
  {
    if s != [] {
      LEOfFromLE(s[1..]);
      assert FromLE(s) % 256 == s[0] && FromLE(s) / 256 == FromLE(s[1..]);
    }
  }

  lemma Widths()
    ensures Pow256(2) == 0x1_0000
    ensures Pow256(4) == 0x1_0000_0000
    ensures Pow256(8) == 0x1_0000_0000_0000_0000
  {
    assert Pow256(3) == 0x100_0000;
    assert Pow256(5) == 0x100_0000_0000;
    assert Pow256(6) == 0x1_0000_0000_0000;
    assert Pow256(7) == 0x100_0000_0000_0000;
  }

  /** Byte i of a number is its digit of weight 256^i. */
  lemma {:induction false} DigitOf(v: nat, w: nat, i: nat)
    requires i < w
    ensures LE(v, w)[i] == (v / Pow256(i)) % 256
    decreases w
  {
    if i > 0 {
      DigitOf(v / 256, w - 1, i - 1);
      QuotientOf(v, Pow256(i - 1));
    }
  }

  lemma QuotientOf(v: nat, p: nat)
    requires p >= 1
    ensures v / 256 / p == v / (256 * p)
  {
    var n := v / 256;
    var q := n / p;
    var d := 256 * p;
    assert q * p <= n < (q + 1) * p;
    assert q * d == 256 * (q * p) && (q + 1) * d == 256 * ((q + 1) * p);
    assert 256 * n <= v < 256 * (n + 1);
    FloorIsQuotient(q, v, d);
  }

  lemma FirstDigit(v: nat, w: nat)
    requires w > 0
    ensures LE(v, w) == [v % 256] + LE(v / 256, w - 1)
  {
  }

  /** The bytes of a u16, lowest first. */
  lemma U16Digits(v: nat)
    ensures LE(v, 2) == [v % 256, v / 0x100 % 256]
  {
    FirstDigit(v, 2);
    FirstDigit(v / 0x100, 1);
  }

  /** The bytes of a u32, lowest first. */
  lemma U32Digits(v: nat)
    ensures LE(v, 4) == [v % 256, v / 0x100 % 256, v / 0x1_0000 % 256, v / 0x100_0000 % 256]
  {
    FirstDigit(v, 4);
    FirstDigit(v / 0x100, 3);
    U16Digits(v / 0x1_0000);
  }

  /** The bytes of a u64, lowest first. */
  lemma U64Digits(v: nat)
    ensures LE(v, 8) == [v % 256, v / 0x100 % 256, v / 0x1_0000 % 256, v / 0x100_0000 % 256,
                         v / 0x1_0000_0000 % 256, v / 0x100_0000_0000 % 256,
                         v / 0x1_0000_0000_0000 % 256, v / 0x100_0000_0000_0000 % 256]
  {
    FourDigits(v, 8);
    U32Digits(v / 0x1_0000_0000);
    HighQuotients(v);
    hide LE;
  }

  lemma FourDigits(v: nat, w: nat)
    requires w >= 4
    ensures LE(v, w) == [v % 256, v / 0x100 % 256, v / 0x1_0000 % 256, v / 0x100_0000 % 256]
                        + LE(v / 0x1_0000_0000, w - 4)
  {
    LowQuotients(v);
    var v1, v2, v3, v4 := v / 0x100, v / 0x1_0000, v / 0x100_0000, v / 0x1_0000_0000;
    FirstDigit(v, w);
    FirstDigit(v1, w - 1);
    FirstDigit(v2, w - 2);
    FirstDigit(v3, w - 3);
    hide LE;
    FourInFront(v % 256, v1 % 256, v2 % 256, v3 % 256, LE(v4, w - 4));
  }

  lemma FourInFront(a: byte, b: byte, c: byte, d: byte, s: seq<byte>)
    ensures [a] + ([b] + ([c] + ([d] + s))) == [a, b, c, d] + s
  {
  }

  lemma LowQuotients(v: nat)
    ensures v / 0x100 / 256 == v / 0x1_0000 && v / 0x1_0000 / 256 == v / 0x100_0000
    ensures v / 0x100_0000 / 256 == v / 0x1_0000_0000
  {
  }

  lemma HighQuotients(v: nat)
    ensures v / 0x1_0000_0000 / 0x100 == v / 0x100_0000_0000
    ensures v / 0x1_0000_0000 / 0x1_0000 == v / 0x1_0000_0000_0000
    ensures v / 0x1_0000_0000 / 0x100_0000 == v / 0x100_0000_0000_0000
  {
  }

  /** Two's complement: the unsigned pattern of a signed value of w bytes, and back. */
  function Unsigned(v: int, w: nat): nat
    requires 0 <= v + Pow256(w)
  {
    if v < 0 then v + Pow256(w) else v
  }

  function SignedI32(n: nat): i32
    requires n < 0x1_0000_0000
  {
    if n < 0x8000_0000 then n else n - 0x1_0000_0000
  }

  function SignedI64(n: nat): i64
    requires n < 0x1_0000_0000_0000_0000
  {
    if n < 0x8000_0000_0000_0000 then n else n - 0x1_0000_0000_0000_0000
  }

  function I32Bytes(v: i32): (s: seq<byte>)
    ensures |s| == 4
  {
    Widths();
    LE(Unsigned(v, 4), 4)
  }

  function I64Bytes(v: i64): (s: seq<byte>)
    ensures |s| == 8
  {
    Widths();
    LE(Unsigned(v, 8), 8)
  }

  function I32Of(s: seq<byte>): i32
    requires |s| == 4
  {
    LEOfFromLE(s);
    Widths();
    SignedI32(FromLE(s))
  }

  function I64Of(s: seq<byte>): i64
    requires |s| == 8
  {
    LEOfFromLE(s);
    Widths();
    SignedI64(FromLE(s))
  }

  function U32Of(s: seq<byte>): u32
    requires |s| == 4
  {
    LEOfFromLE(s);
    Widths();
    FromLE(s)
  }

  lemma U32Inverse(v: u32, s: seq<byte>)
    requires |s| == 4
    ensures U32Of(LE(v, 4)) == v
    ensures LE(U32Of(s), 4) == s
  {
    Widths();
    FromLEOfLE(v, 4);
    LEOfFromLE(s);
  }

  lemma I32Inverse(v: i32, s: seq<byte>)
    requires |s| == 4
    ensures I32Of(I32Bytes(v)) == v
    ensures I32Bytes(I32Of(s)) == s
  {
    Widths();
    FromLEOfLE(Unsigned(v, 4), 4);
    LEOfFromLE(s);
  }

  lemma I64Inverse(v: i64, s: seq<byte>)
    requires |s| == 8
    ensures I64Of(I64Bytes(v)) == v
    ensures I64Bytes(I64Of(s)) == s
  {
    Widths();
    FromLEOfLE(Unsigned(v, 8), 8);
    LEOfFromLE(s);
  }

  /** What four bytes read as a u32 mean, the lowest first. */
  lemma U32Meaning(s: seq<byte>)
    requires |s| == 4
    ensures U32Of(s) == s[0] as int + 0x100 * (s[1] as int) + 0x1_0000 * (s[2] as int) + 0x100_0000 * (s[3] as int)
  {
    ReadDigits(s);
  }

  lemma ReadFirst(s: seq<byte>)
    requires s != []
    ensures FromLE(s) == s[0] + 256 * FromLE(s[1..])
  {
  }

  lemma ReadFour(s: seq<byte>)
    requires |s| >= 4
    ensures FromLE(s) == s[0] as int + 0x100 * (s[1] as int) + 0x1_0000 * (s[2] as int) + 0x100_0000 * (s[3] as int)
                         + 0x1_0000_0000 * FromLE(s[4..])
  {
    ReadFirst(s);
    ReadFirst(s[1..]);
    ReadFirst(s[2..]);
    ReadFirst(s[3..]);
    assert s[1..][1..] == s[2..] && s[2..][1..] == s[3..] && s[3..][1..] == s[4..];
    hide FromLE;
  }

  lemma ReadDigits(s: seq<byte>)
    requires |s| == 4
    ensures FromLE(s) == s[0] as int + 0x100 * (s[1] as int) + 0x1_0000 * (s[2] as int) + 0x100_0000 * (s[3] as int)
  {
    ReadFour(s);
    assert FromLE(s[4..]) == 0;
  }

  /** A signed 32-bit value goes out as its two's complement and comes back from it. */
  lemma I32Meaning(v: i32, s: seq<byte>)
    requires |s| == 4
    ensures var n := if v < 0 then v + 0x1_0000_0000 else v;
            I32Bytes(v) == [n % 256, n / 0x100 % 256, n / 0x1_0000 % 256, n / 0x100_0000 % 256]
    ensures var n := s[0] as int + 0x100 * (s[1] as int) + 0x1_0000 * (s[2] as int) + 0x100_0000 * (s[3] as int);
            I32Of(s) == if n < 0x8000_0000 then n else n - 0x1_0000_0000
  {
    Widths();
    U32Digits(Unsigned(v, 4));
    ReadDigits(s);
  }

  /** And a signed 64-bit value. */
  lemma I64Meaning(v: i64, s: seq<byte>)
    requires |s| == 8
    ensures var n := if v < 0 then v + 0x1_0000_0000_0000_0000 else v;
            I64Bytes(v) == [n % 256, n / 0x100 % 256, n / 0x1_0000 % 256, n / 0x100_0000 % 256,
                            n / 0x1_0000_0000 % 256, n / 0x100_0000_0000 % 256,
                            n / 0x1_0000_0000_0000 % 256, n / 0x100_0000_0000_0000 % 256]
    ensures var n := s[0] as int + 0x100 * (s[1] as int) + 0x1_0000 * (s[2] as int) + 0x100_0000 * (s[3] as int)
                     + 0x1_0000_0000 * (s[4] as int + 0x100 * (s[5] as int) + 0x1_0000 * (s[6] as int)
                                        + 0x100_0000 * (s[7] as int));
            I64Of(s) == if n < 0x8000_0000_0000_0000 then n else n - 0x1_0000_0000_0000_0000
  {
    Widths();
    U64Digits(Unsigned(v, 8));
    ReadFour(s);
    ReadDigits(s[4..]);
    hide LE, FromLE, Pow256;
  }

  lemma Regroup(a: seq<byte>, b: seq<byte>, c: seq<byte>)
    ensures a + (b + c) == a + b + c
  {
  }

  // ----- Writing over part of a buffer -----

  /** s with x written over it from position at on. */
  function Patch(s: seq<byte>, at: nat, x: seq<byte>): (r: seq<byte>)
    requires at + |x| <= |s|
    ensures |r| == |s|
  {
    s[..at] + x + s[at + |x|..]
  }

  lemma PatchTwice(s: seq<byte>, at: nat, x: seq<byte>, y: seq<byte>)
    requires at + |x| + |y| <= |s|
    ensures Patch(Patch(s, at, x), at + |x|, y) == Patch(s, at, x + y)
  {
  }

  lemma PatchEmpty(s: seq<byte>, at: nat)
    requires at <= |s|
    ensures Patch(s, at, []) == s
  {
  }

  lemma PatchElsewhere(s: seq<byte>, at: nat, x: seq<byte>, from: nat, to: nat)
    requires at + |x| <= |s| && from <= to <= |s|
    requires to <= at || at + |x| <= from || from == to || x == []
    ensures Patch(s, at, x)[from..to] == s[from..to]
  {
    var r := Patch(s, at, x);
    forall i | from <= i < to ensures r[i] == s[i] {}
  }

  lemma PatchWithin(s: seq<byte>, at: nat, o: nat, x: seq<byte>, size: nat)
    requires at + size <= |s| && o + |x| <= size
    ensures Patch(s, at + o, x)[at..at + size] == Patch(s[at..at + size], o, x)
  {
    var l, r, part := Patch(s, at + o, x), Patch(s[at..at + size], o, x), s[at..at + size];
    forall i | 0 <= i < size ensures l[at + i] == r[i] {
      assert part[i] == s[at + i];
    }
  }
}
