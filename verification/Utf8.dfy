/** UTF-8 (section 3 of RFC 3629) extended to every unsigned 64-bit code point as utf8.h does it. */
module Utf8 {
  import opened Bits

  type Point = c: int | 0 <= c < 0x1_0000_0000_0000_0000

  const UTF8_MAXBYTES: nat := 13

  /** UVCHR_SKIP: how many bytes a code point needs. */
  function Skip(c: Point): (n: nat)
    ensures 1 <= n <= UTF8_MAXBYTES
  {
    if c < 0x80 then 1
    else if c < 0x800 then 2
    else if c < 0x1_0000 then 3
    else if c < 0x20_0000 then 4
    else if c < 0x400_0000 then 5
    else if c < 0x8000_0000 then 6
    else if c < 0x10_0000_0000 then 7
    else UTF8_MAXBYTES
  }

  /** What is left of `c` above `n` groups of six bits. */
  function High(c: nat, n: nat): nat {
    if n == 0 then c else High(c / 64, n - 1)
  }

  /** The lowest `n` groups of six bits of `c`, as continuation bytes. */
  function Continuation(c: nat, n: nat): (r: seq<byte>)
    ensures |r| == n && forall i :: 0 <= i < n ==> 0x80 <= r[i] < 0xC0
  {
    if n == 0 then [] else Continuation(c / 64, n - 1) + [0x80 + c % 64]
  }

  /** The first byte of a sequence of `n` bytes, without the bits of the code point. */
  function Marker(n: nat): int {
    match n
    case 1 => 0
    case 2 => 0xC0
    case 3 => 0xE0
    case 4 => 0xF0
    case 5 => 0xF8
    case 6 => 0xFC
    case 7 => 0xFE
    case _ => 0xFF
  }

  /** UTF8SKIP: the length of a sequence from its first byte. */
  function SkipOf(b: byte): (n: nat)
    ensures 1 <= n <= UTF8_MAXBYTES
  {
    if b < 0xC0 then 1
    else if b < 0xE0 then 2
    else if b < 0xF0 then 3
    else if b < 0xF8 then 4
    else if b < 0xFC then 5
    else if b < 0xFE then 6
    else if b < 0xFF then 7
    else UTF8_MAXBYTES
  }

  lemma FirstByte(c: Point)
    ensures 0 <= Marker(Skip(c)) + High(c, Skip(c) - 1) < 256
    ensures SkipOf(Marker(Skip(c)) + High(c, Skip(c) - 1)) == Skip(c)
    ensures Skip(c) == 1 <==> Marker(Skip(c)) + High(c, Skip(c) - 1) < 0x80
  {
    Shrinks(c, Skip(c) - 1);
  }

  /** The bits above the continuation bytes fit below the marker. */
  lemma Shrinks(c: Point, n: nat)
    requires n == Skip(c) - 1
    ensures High(c, n) < match n
                         case 0 => 0x80
                         case 1 => 0x20
                         case 2 => 0x10
                         case 3 => 8
                         case 4 => 4
                         case 5 => 2
                         case _ => 1
  {
    var c1 := c / 64;
    var c2 := c1 / 64;
    var c3 := c2 / 64;
    var c4 := c3 / 64;
    var c5 := c4 / 64;
    var c6 := c5 / 64;
    if n >= 2 { assert High(c, n) == High(c2, n - 2); }
    if n >= 4 { assert High(c2, n - 2) == High(c4, n - 4); }
    if n >= 6 { assert High(c4, n - 4) == High(c6, n - 6); }
    if n == 1 { assert High(c, n) == High(c1, 0) == c1; }
    if n == 3 { assert High(c2, 1) == High(c3, 0) == c3; }
    if n == 5 { assert High(c4, 1) == High(c5, 0) == c5; }
    if n == 12 { ShrinksFully(c6); }
  }

  lemma ShrinksFully(c: nat)
    requires c < 0x1000_0000
    ensures High(c, 6) == 0
  {
    var c1 := c / 64;
    var c2 := c1 / 64;
    var c3 := c2 / 64;
    var c4 := c3 / 64;
    assert c4 < 64;
    assert High(c, 6) == High(c1, 5) && High(c1, 5) == High(c2, 4) && High(c2, 4) == High(c3, 3);
    assert High(c3, 3) == High(c4, 2) && High(c4, 2) == High(c4 / 64, 1) && High(0, 1) == High(0, 0);
  }

  /** uvchr_to_utf8 */
  function Encode(c: Point): (r: seq<byte>)
    ensures |r| == Skip(c)
  {
    FirstByte(c);
    [Marker(Skip(c)) + High(c, Skip(c) - 1)] + Continuation(c, Skip(c) - 1)
  }

  /** The form is the shortest: `n` bytes hold 5n + 1 bits, one byte 7 and seven bytes 36. */
  lemma ShortestForm(c: Point, n: nat)
    requires 1 <= n <= 7
    ensures Skip(c) <= n <==> c < (if n == 1 then Pow2(7) else if n == 7 then Pow2(36) else Pow2(5 * n + 1))
    ensures Skip(c) <= 7 || Skip(c) == 13
  {
    Pow2Of8();
    assert Pow2(8) == 2 * Pow2(7);
    Pow2Step(8);
    Pow2Step(16);
    Pow2Step(24);
    Pow2Step(32);
    Halves(n);
  }

  lemma Halves(n: nat)
    requires Pow2(8) == 0x100 && Pow2(16) == 0x1_0000 && Pow2(24) == 0x100_0000 && Pow2(32) == 0x1_0000_0000
    ensures Pow2(11) == 0x800 && Pow2(21) == 0x20_0000 && Pow2(26) == 0x400_0000 && Pow2(31) == 0x8000_0000
    ensures Pow2(36) == 0x10_0000_0000
  {
    assert Pow2(9) == 0x200 && Pow2(10) == 0x400;
    assert Pow2(17) == 0x2_0000 && Pow2(18) == 0x4_0000 && Pow2(19) == 0x8_0000 && Pow2(20) == 0x10_0000;
    assert Pow2(25) == 0x200_0000;
    assert Pow2(33) == 0x2_0000_0000 && Pow2(34) == 0x4_0000_0000 && Pow2(35) == 0x8_0000_0000;
  }

  lemma Groups(c: nat)
    ensures High(c, 0) == c && High(c, 1) == c / 64 && High(c, 2) == c / 64 / 64 && High(c, 3) == c / 64 / 64 / 64
  {
    assert High(c, 1) == High(c / 64, 0);
    assert High(c, 2) == High(c / 64, 1) == High(c / 64 / 64, 0);
    assert High(c, 3) == High(c / 64, 2) == High(c / 64 / 64, 1) == High(c / 64 / 64 / 64, 0);
  }

  lemma ContinuationNext(c: nat, n: nat)
    ensures Continuation(c, 0) == [] && Continuation(c, n + 1) == Continuation(c / 64, n) + [0x80 + c % 64]
  {
  }

  lemma OneContinuation(c: nat)
    ensures Continuation(c, 0) == [] && Continuation(c, 1) == [0x80 + c % 64]
  {
    hide Continuation;
    ContinuationNext(c, 0);
    ContinuationNext(c / 64, 0);
  }

  lemma TwoContinuations(c: nat)
    ensures Continuation(c, 2) == [0x80 + c / 64 % 64, 0x80 + c % 64]
  {
    hide Continuation;
    ContinuationNext(c, 1);
    OneContinuation(c / 64);
  }

  lemma ThreeContinuations(c: nat)
    ensures Continuation(c, 3) == [0x80 + c / 64 / 64 % 64, 0x80 + c / 64 % 64, 0x80 + c % 64]
  {
    hide Continuation;
    ContinuationNext(c, 2);
    TwoContinuations(c / 64);
  }

  /** The table of section 3 of RFC 3629. */
  lemma EncodeTable(c: Point)
    ensures c < 0x80 ==> Encode(c) == [c]
    ensures 0x80 <= c < 0x800 ==> Encode(c) == [0xC0 + c / 64, 0x80 + c % 64]
    ensures 0x800 <= c < 0x1_0000 ==> Encode(c) == [0xE0 + c / 64 / 64, 0x80 + c / 64 % 64, 0x80 + c % 64]
    ensures 0x1_0000 <= c < 0x11_0000 ==>
              Encode(c) == [0xF0 + c / 64 / 64 / 64, 0x80 + c / 64 / 64 % 64, 0x80 + c / 64 % 64, 0x80 + c % 64]
  {
    hide High, Continuation;
    Groups(c);
    OneContinuation(c);
    TwoContinuations(c);
    ThreeContinuations(c);
    FirstByte(c);
  }

  /** The value of continuation bytes after `init`. */
  function Accumulate(init: int, s: seq<byte>): int {
    if s == [] then init else Accumulate(init, s[..|s| - 1]) * 64 + s[|s| - 1] - 0x80
  }

  /** utf8n_to_uvchr on well-formed input: the code point at the start of `s`. */
  function Decode(s: seq<byte>): int
    requires s != [] && |s| >= SkipOf(s[0])
  {
    var n := SkipOf(s[0]);
    Accumulate(s[0] - Marker(n), s[1..n])
  }

  lemma {:induction false} AccumulateContinuation(c: nat, n: nat)
    ensures Accumulate(High(c, n), Continuation(c, n)) == c
  {
    if n > 0 {
      AccumulateContinuation(c / 64, n - 1);
      assert Continuation(c, n)[..n - 1] == Continuation(c / 64, n - 1);
    }
  }

  /** Encoding and decoding are inverse, whatever follows. */
  lemma DecodeEncode(c: Point, rest: seq<byte>)
    ensures var s := Encode(c) + rest;
            SkipOf(s[0]) == Skip(c) && Decode(s) == c
  {
    var s, n := Encode(c) + rest, Skip(c);
    FirstByte(c);
    assert s[1..n] == Continuation(c, n - 1);
    AccumulateContinuation(c, n - 1);
  }

  // ----- Strings -----

  function EncodeAll(points: seq<Point>): seq<byte> {
    if points == [] then [] else Encode(points[0]) + EncodeAll(points[1..])
  }

  lemma EncodeCons(c: Point, rest: seq<Point>)
    ensures EncodeAll([c] + rest) == Encode(c) + EncodeAll(rest)
  {
    hide Encode;
    assert ([c] + rest)[1..] == rest;
  }

  lemma {:induction false} EncodeConcat(a: seq<Point>, b: seq<Point>)
    ensures EncodeAll(a + b) == EncodeAll(a) + EncodeAll(b)
  {
    if a == [] {
      assert a + b == b;
    } else {
      assert (a + b)[1..] == a[1..] + b;
      EncodeConcat(a[1..], b);
    }
  }

  lemma EncodeOne(c: Point)
    ensures EncodeAll([c]) == Encode(c)
  {
    assert [c][1..] == [];
  }

  lemma EncodeSnoc(a: seq<Point>, c: Point)
    ensures EncodeAll(a + [c]) == EncodeAll(a) + Encode(c)
  {
    EncodeConcat(a, [c]);
    EncodeOne(c);
  }

  /** Different strings have different encodings. */
  lemma {:induction false} EncodeInjective(a: seq<Point>, b: seq<Point>)
    requires EncodeAll(a) == EncodeAll(b)
    ensures a == b
  {
    if a != [] && b != [] {
      DecodeEncode(a[0], EncodeAll(a[1..]));
      DecodeEncode(b[0], EncodeAll(b[1..]));
      assert EncodeAll(a[1..]) == EncodeAll(a)[Skip(a[0])..];
      assert EncodeAll(b[1..]) == EncodeAll(b)[Skip(b[0])..];
      EncodeInjective(a[1..], b[1..]);
    }
  }

  // ----- Bytes and characters -----

  /** The characters that bytes stand for outside UTF-8. */
  function Points(s: seq<byte>): (r: seq<Point>)
    ensures |r| == |s| && forall i :: 0 <= i < |s| ==> r[i] == s[i]
  {
    seq<Point>(|s|, i requires 0 <= i < |s| => s[i])
  }

  /** A string of UTF-8 or of bytes, and the characters it stands for. */
  ghost predicate StandsFor(s: seq<byte>, isUtf8: bool, pts: seq<Point>) {
    if isUtf8 then s == EncodeAll(pts) else pts == Points(s)
  }

  lemma {:induction false} AsciiIsUtf8(s: seq<byte>)
    requires forall i :: 0 <= i < |s| ==> s[i] < 0x80
    ensures EncodeAll(Points(s)) == s
  {
    if s != [] {
      assert Points(s)[1..] == Points(s[1..]);
      AsciiIsUtf8(s[1..]);
    }
  }

  lemma {:induction false} UpgradeBound(s: seq<byte>)
    ensures |EncodeAll(Points(s))| <= 2 * |s|
  {
    if s != [] {
      assert Points(s)[1..] == Points(s[1..]);
      UpgradeBound(s[1..]);
    }
  }

  lemma {:induction false} NotShorter(pts: seq<Point>)
    ensures |EncodeAll(pts)| >= |pts|
  {
    hide Encode;
    if pts != [] {
      NotShorter(pts[1..]);
    }
  }

  /** A character that fits in a byte is a byte, or two. */
  lemma EncodeLatin(c: byte)
    ensures Encode(c) == if c < 0x80 then [c] else [0xC0 + c / 64, 0x80 + c % 64]
  {
    if c < 0x80 {
      assert High(c, 0) == c;
    } else {
      assert High(c, 1) == High(c / 64, 0) == c / 64;
      assert Continuation(c, 1) == Continuation(c / 64, 0) + [0x80 + c % 64];
    }
  }

  /** No such character's encoding begins as that of a higher one does. */
  lemma EncodeWide(c: Point)
    requires c >= 0x100
    ensures Encode(c)[0] >= 0xC4
  {
    if Skip(c) == 2 {
      assert High(c, 1) == High(c / 64, 0) == c / 64;
    }
  }

  /** How many characters need more than one byte. */
  function Variants(pts: seq<Point>): nat {
    if pts == [] then 0 else (if pts[0] >= 0x80 then 1 else 0) + Variants(pts[1..])
  }

  lemma {:induction false} EncodeLatins(pts: seq<Point>)
    requires forall i :: 0 <= i < |pts| ==> pts[i] < 0x100
    ensures |EncodeAll(pts)| == |pts| + Variants(pts)
    ensures forall k :: 0 <= k < |EncodeAll(pts)| ==> EncodeAll(pts)[k] < 0xC4
  {
    hide Encode;
    if pts != [] {
      EncodeLatins(pts[1..]);
      EncodeLatin(pts[0]);
    }
  }

  lemma {:induction false} VariantsSnoc(pts: seq<Point>, c: Point)
    ensures Variants(pts + [c]) == Variants(pts) + if c >= 0x80 then 1 else 0
  {
    if pts == [] {
      assert [] + [c] == [c] && [c][1..] == [];
    } else {
      assert (pts + [c])[1..] == pts[1..] + [c];
      VariantsSnoc(pts[1..], c);
    }
  }
}
