/** vec of doop.c: fields of 1 to 64 bits in a string of bytes. */
module Vec {
  import opened Bits
  import opened Common
  import opened PerlString
  import TransUtf8
  import Utf8

  const INT_MAX: int := 0x7fff_ffff

  datatype Result<+T> = Ok(value: T) | Croak(why: Fault)
  datatype Fault = IllegalSize | OutOfMemory | NegativeOffset

  // ----- Fields -----

  predicate IsPowerOfTwo(n: int)
    decreases n
  {
    n == 1 || (n > 1 && n % 2 == 0 && IsPowerOfTwo(n / 2))
  }

  /** The test that the code makes, and what it finds. */
  lemma {:induction false} PowerOfTwoTest(n: nat)
    requires n > 0
    ensures IsPowerOfTwo(n) <==> Bitwise(And, n, n - 1) == 0
    ensures IsPowerOfTwo(n) ==> exists k: nat :: n == Pow2(k)
    ensures forall k: nat :: n == Pow2(k) ==> IsPowerOfTwo(n)
  {
    if n == 1 {
      assert Pow2(0) == 1;
    } else if n % 2 == 1 {
      OddAndEven(n);
    } else {
      PowerOfTwoTest(n / 2);
      HalfTest(n);
      if IsPowerOfTwo(n) {
        var k: nat :| n / 2 == Pow2(k);
        assert n == Pow2(k + 1);
      }
      forall k: nat | n == Pow2(k)
        ensures IsPowerOfTwo(n)
      {
        assert k > 0 && n / 2 == Pow2(k - 1);
      }
    }
  }

  lemma HalfTest(n: nat)
    requires n > 1 && n % 2 == 0
    ensures Bitwise(And, n, n - 1) == 2 * Bitwise(And, n / 2, n / 2 - 1)
  {
    assert (n - 1) / 2 == n / 2 - 1;
  }

  lemma OddAndEven(n: nat)
    requires n > 1 && n % 2 == 1
    ensures Bitwise(And, n, n - 1) != 0 && forall k: nat :: n != Pow2(k)
  {
    var m := n / 2;
    assert (n - 1) / 2 == m && (n - 1) % 2 == 0;
    AndItself(m);
    forall k: nat
      ensures n != Pow2(k)
    {
    }
  }

  lemma {:induction false} AndItself(m: nat)
    ensures Bitwise(And, m, m) == m
  {
    if m > 0 {
      AndItself(m / 2);
    }
  }

  /** `size < 1 || (size & (size - 1))` */
  method IsIllegal(size: int) returns (illegal: bool)
    ensures illegal <==> !IsPowerOfTwo(size)
  {
    illegal := size < 1 || Bitwise(And, size, size - 1) != 0;
    if size >= 1 {
      PowerOfTwoTest(size);
    }
  }

  predicate Width(w: int) { w == 1 || w == 2 || w == 4 || w == 8 || w == 16 || w == 32 || w == 64 }

  /** A string goes on with zeros past its end. */
  function ByteAt(s: seq<byte>, k: nat): byte {
    if k < |s| then s[k] else 0
  }

  predicate BitAt(s: seq<byte>, k: nat) {
    Bit(ByteAt(s, k / 8), k % 8)
  }

  /** Where bit `p` of the `i`-th field of `w` bits is: the low bit first within a byte, the
      high byte first within a field. */
  function Position(w: nat, i: nat, p: nat): nat
    requires Width(w) && p < w
  {
    if w < 8 then w * i + p else w * i + 8 * (w / 8 - 1 - p / 8) + p % 8
  }

  function FieldBits(s: seq<byte>, w: nat, i: nat): (r: seq<bool>)
    requires Width(w)
    ensures |r| == w && forall p :: 0 <= p < w ==> r[p] == BitAt(s, Position(w, i, p))
  {
    seq(w, p requires 0 <= p < w => BitAt(s, Position(w, i, p)))
  }

  /** The value of a field. */
  function Field(s: seq<byte>, w: nat, i: nat): nat
    requires Width(w)
  {
    Value(FieldBits(s, w, i))
  }

  /** The bits of a field are the bit positions from w * i up to w * (i + 1), each of them once. */
  lemma PositionRange(w: nat, i: nat, p: nat)
    requires Width(w) && p < w
    ensures w * i <= Position(w, i, p) < w * i + w
    ensures Inverse(w, i, Position(w, i, p)) == p
  {
    if w >= 8 {
      MirrorsBytes(w / 8, p);
    }
  }

  /** Which bit of the field a bit position is. */
  function Inverse(w: nat, i: nat, k: nat): (p: nat)
    requires Width(w) && w * i <= k < w * i + w
    ensures p < w && Position(w, i, p) == k
  {
    var j := k - w * i;
    if w < 8 then j else
    MirrorsBytes(w / 8, j);
    8 * (w / 8 - 1 - j / 8) + j % 8
  }

  /** The order of `n` bytes reversed. */
  lemma MirrorsBytes(n: nat, j: nat)
    requires j < 8 * n
    ensures var p := 8 * (n - 1 - j / 8) + j % 8;
            0 <= p < 8 * n && p / 8 == n - 1 - j / 8 && p % 8 == j % 8
  {
  }

  // ----- How the byte arithmetic computes fields -----

  /** `n` bytes of the string from byte `u` on. */
  function Bytes(s: seq<byte>, u: nat, n: nat): (r: seq<byte>)
    ensures |r| == n && forall k :: 0 <= k < n ==> r[k] == ByteAt(s, u + k)
  {
    seq<byte>(n, k requires 0 <= k < n => ByteAt(s, u + k))
  }

  /** A field of whole bytes is their big-endian number. */
  lemma WideField(s: seq<byte>, w: nat, i: nat)
    requires Width(w) && w >= 8
    ensures Field(s, w, i) == BigEndian(Bytes(s, w / 8 * i, w / 8))
  {
    WideIsBytes(w, i);
    FieldBound(s, w, i);
    hide Width, BigEndian, Pow2, Field, Bit;
    var bs := Bytes(s, w / 8 * i, w / 8);
    hide Bytes;
    BigEndianBound(bs);
    forall p | 0 <= p < w
      ensures Bit(Field(s, w, i), p) == Bit(BigEndian(bs), p)
    {
      WideFieldBit(s, w, i, p);
    }
    SameBits(Field(s, w, i), BigEndian(bs), w);
  }

  lemma FieldBound(s: seq<byte>, w: nat, i: nat)
    requires Width(w)
    ensures Field(s, w, i) < Pow2(w)
  {
    ValueBits(FieldBits(s, w, i), 0);
  }

  lemma WideFieldBit(s: seq<byte>, w: nat, i: nat, p: nat)
    requires Width(w) && w >= 8 && p < w
    ensures Bit(Field(s, w, i), p) == Bit(BigEndian(Bytes(s, w / 8 * i, w / 8)), p)
  {
    hide BigEndian, Value, Pow2, Bit;
    ValueBits(FieldBits(s, w, i), p);
    BigEndianBit(Bytes(s, w / 8 * i, w / 8), p);
    WidePosition(w, i, p);
  }

  lemma WidePosition(w: nat, i: nat, p: nat)
    requires Width(w) && w >= 8 && p < w
    ensures Position(w, i, p) / 8 == w / 8 * i + (w / 8 - 1 - p / 8) && Position(w, i, p) % 8 == p % 8
  {
    var n := w / 8;
    assert n == 1 || n == 2 || n == 4 || n == 8;
    assert Position(w, i, p) == 8 * (n * i + (n - 1 - p / 8)) + p % 8;
  }

  lemma {:induction false} BigEndianBound(bs: seq<byte>)
    ensures BigEndian(bs) < Pow2(8 * |bs|)
  {
    if bs != [] {
      BigEndianBound(bs[..|bs| - 1]);
      Pow2Step(8 * |bs| - 8);
    }
  }

  /** Where a field narrower than a byte lies. */
  lemma NarrowOffset(w: nat, i: nat)
    requires w == 1 || w == 2 || w == 4
    ensures var u, b := i / (8 / w), i % 8 * w % 8;
            8 * u + b == w * i && b + w <= 8
  {
    if w == 2 {
      PairOffset(i);
    } else if w == 4 {
      NibbleOffset(i);
    }
  }

  lemma PairOffset(i: nat)
    ensures 8 * (i / 4) + i % 8 * 2 % 8 == 2 * i && i % 8 * 2 % 8 <= 6
  {
    assert i % 8 == i % 4 || i % 8 == i % 4 + 4;
  }

  lemma NibbleOffset(i: nat)
    ensures 8 * (i / 2) + i % 8 * 4 % 8 == 4 * i && i % 8 * 4 % 8 <= 4
  {
    var r := i % 8;
    assert r * 4 % 8 == r % 2 * 4;
  }

  lemma NarrowField(s: seq<byte>, w: nat, i: nat, u: nat, b: nat)
    requires Width(w) && w < 8 && 8 * u + b == w * i && b + w <= 8
    ensures Field(s, w, i) == Bitwise(And, Shr(ByteAt(s, u), b), Shl(1, w) - 1)
  {
    var x := Shr(ByteAt(s, u), b);
    AndMask(x, w);
    ValueBits(FieldBits(s, w, i), 0);
    forall p | 0 <= p < w
      ensures Bit(Field(s, w, i), p) == Bit(x % Pow2(w), p)
    {
      hide Field, Shr, Bit, Pow2, ByteAt, Bitwise, Shl;
      ModBit(x, w, p);
      NarrowFieldBit(s, w, i, u, b, p);
    }
    hide Shr, Bit, ByteAt, Bitwise, Shl;
    SameBits(Field(s, w, i), x % Pow2(w), w);
  }

  lemma NarrowFieldBit(s: seq<byte>, w: nat, i: nat, u: nat, b: nat, p: nat)
    requires Width(w) && w < 8 && 8 * u + b == w * i && b + w <= 8 && p < w
    ensures Bit(Field(s, w, i), p) == Bit(Shr(ByteAt(s, u), b), p)
  {
    ValueBits(FieldBits(s, w, i), p);
    ShrBit(ByteAt(s, u), b, p);
    hide Bit, Shr, ByteAt, Value;
    assert Position(w, i, p) == 8 * u + (b + p);
  }

  lemma Widths(size: int)
    ensures IsPowerOfTwo(size) && size <= 64 <==> Width(size)
  {
    assert IsPowerOfTwo(1) && IsPowerOfTwo(2) && IsPowerOfTwo(4) && IsPowerOfTwo(8);
    assert IsPowerOfTwo(16) && IsPowerOfTwo(32) && IsPowerOfTwo(64);
    if IsPowerOfTwo(size) && size <= 64 {
      PowerOfTwoHalf(size);
    }
  }

  lemma PowerOfTwoHalf(size: int)
    requires IsPowerOfTwo(size) && size <= 64
    ensures Width(size)
  {
    if size > 1 {
      PowerOfTwoHalf(size / 2);
    }
  }

  lemma BigEndian2(a: byte, b: byte)
    ensures BigEndian([a, b]) == a * 0x100 + b
  {
    assert [a, b][..1] == [a] && [a][..0] == [];
    assert BigEndian([a]) == a;
  }

  lemma BigEndian4(a: byte, b: byte, c: byte, d: byte)
    ensures BigEndian([a, b, c, d]) == a * 0x100_0000 + b * 0x1_0000 + c * 0x100 + d
  {
    assert [a, b, c, d][..3] == [a, b, c] && [a, b, c][..2] == [a, b];
    BigEndian2(a, b);
    assert BigEndian([a, b, c]) == BigEndian([a, b]) * 256 + c;
  }

  lemma BigEndian8(a: byte, b: byte, c: byte, d: byte, e: byte, f: byte, g: byte, h: byte)
    ensures BigEndian([a, b, c, d, e, f, g, h])
         == a * 0x100_0000_0000_0000 + b * 0x1_0000_0000_0000 + c * 0x100_0000_0000 + d * 0x1_0000_0000
            + e * 0x100_0000 + f * 0x1_0000 + g * 0x100 + h
  {
    BigEndian4(a, b, c, d);
    var bs := [a, b, c, d, e, f, g, h];
    assert bs[..4] == [a, b, c, d];
    assert bs[..5][..4] == bs[..4] && bs[..6][..5] == bs[..5] && bs[..7][..6] == bs[..6];
    assert BigEndian(bs[..5]) == BigEndian(bs[..4]) * 256 + e;
    assert BigEndian(bs[..6]) == BigEndian(bs[..5]) * 256 + f;
    assert BigEndian(bs[..7]) == BigEndian(bs[..6]) * 256 + g;
  }

  /** A field past the end of the string is zero. */
  lemma FieldPastEnd(s: seq<byte>, w: nat, i: nat)
    requires Width(w) && 8 * |s| <= w * i
    ensures Field(s, w, i) == 0
  {
    ValueBits(FieldBits(s, w, i), 0);
    forall p | 0 <= p < w
      ensures Bit(Field(s, w, i), p) == Bit(0, p)
    {
      ValueBits(FieldBits(s, w, i), p);
      PositionRange(w, i, p);
      BitOfZero(p);
      BitOfZero(Position(w, i, p) % 8);
    }
    SameBits(Field(s, w, i), 0, w);
  }

  // ----- do_vecget -----

  /** The first byte of a field and its offset in bits there, unless the byte offset does not
      fit in a Size_t. do_vecget and do_vecset compute it the same way. */
  method Locate(offset: nat, size: nat) returns (fits: bool, uoffset: nat, bitoffs: nat)
    requires IsPowerOfTwo(size) && size <= INT_MAX && offset <= SIZE_MAX
    ensures fits ==> 8 * uoffset + bitoffs == size * offset && uoffset <= SIZE_MAX
    ensures fits ==> if size < 8 then bitoffs + size <= 8 else bitoffs == 0 && uoffset == size / 8 * offset
    ensures !fits ==> size >= 8 && size * offset > 8 * SSIZE_MAX && size / 8 * offset > SSIZE_MAX
  {
    fits, uoffset, bitoffs := true, offset, 0;
    if size < 8 {
      Widths(size);
      NarrowOffset(size, offset);
      bitoffs := offset % 8 * size % 8;
      uoffset := offset / (8 / size);
    } else if size > 8 {
      WholeBytes(size, offset);
      fits, uoffset := Scale(offset, size / 8);
    }
  }

  method Scale(offset: nat, n: nat) returns (fits: bool, uoffset: nat)
    requires 1 < n <= INT_MAX && offset <= SIZE_MAX
    ensures if fits then uoffset == n * offset && uoffset <= SIZE_MAX else n * offset > SSIZE_MAX
  {
    ScaleBound(offset, n);
    fits, uoffset := offset <= SIZE_MAX / n - 1, 0;
    if fits {
      uoffset := offset * n;
    }
  }

  lemma ScaleBound(offset: nat, n: nat)
    requires 1 < n <= INT_MAX
    ensures if offset <= SIZE_MAX / n - 1 then n * offset <= SIZE_MAX else n * offset > SSIZE_MAX
  {
    var q := SIZE_MAX / n;
    assert q * n <= SIZE_MAX < q * n + n;
    MulMonotone(offset, q - 1, n);
    MulMonotone(q, offset, n);
  }

  lemma WholeBytes(size: nat, offset: nat)
    requires IsPowerOfTwo(size) && size >= 8
    ensures size == 8 * (size / 8) && size * offset == 8 * (size / 8 * offset)
  {
    MultipleOf8(size);
    hide IsPowerOfTwo;
    TimesEight(size / 8, offset);
  }

  lemma MultipleOf8(size: nat)
    requires IsPowerOfTwo(size) && size >= 8
    ensures size == 8 * (size / 8)
  {
    hide IsPowerOfTwo;
    var a := size / 2;
    var b := a / 2;
    Halved(size);
    Halved(a);
    Halved(b);
  }

  lemma Halved(size: nat)
    requires IsPowerOfTwo(size) && size > 1
    ensures IsPowerOfTwo(size / 2) && size == 2 * (size / 2)
  {
  }

  lemma TimesEight(n: nat, offset: nat)
    ensures 8 * n * offset == 8 * (n * offset)
  {
  }

  /** Reads a field of whole bytes, the part past the end of the string as zeros. */
  method ReadBytes(sv: Buffer, u: nat, size: nat) returns (v: nat)
    requires sv.Valid() && u < sv.cur && (size == 8 || size == 16 || size == 32 || size == 64)
    ensures v == BigEndian(Bytes(sv.Contents(), u, size / 8))
  {
    var s, avail := sv.buf, sv.cur - u;
    if size == 8 {
      v := s[u];
      assert Bytes(sv.Contents(), u, 1) == [s[u]] && [s[u]][..0] == [];
    } else if size == 16 {
      v := if avail < 2 then (s[u] as int) * 0x100 else (s[u] as int) * 0x100 + s[u + 1];
      SumIsBigEndian2(sv.Contents(), u);
    } else if size == 32 {
      SumIsBigEndian4(sv.Contents(), u);
      if avail < 4 {
        v := if avail == 1 then (s[u] as int) * 0x100_0000
             else if avail == 2 then (s[u] as int) * 0x100_0000 + (s[u + 1] as int) * 0x1_0000
             else (s[u] as int) * 0x100_0000 + (s[u + 1] as int) * 0x1_0000 + (s[u + 2] as int) * 0x100;
      } else {
        v := (s[u] as int) * 0x100_0000 + (s[u + 1] as int) * 0x1_0000 + (s[u + 2] as int) * 0x100 + s[u + 3];
      }
    } else {
      v := Read64(sv, u);
    }
  }

  method Read64(sv: Buffer, u: nat) returns (v: nat)
    requires sv.Valid() && u < sv.cur
    ensures v == BigEndian(Bytes(sv.Contents(), u, 8))
  {
    SumIsBigEndian8(sv.Contents(), u);
    var s, avail := sv.buf, sv.cur - u;
    v := (s[u] as int) * 0x100_0000_0000_0000;
    if avail == 1 { return; }
    v := v + (s[u + 1] as int) * 0x1_0000_0000_0000;
    if avail == 2 { return; }
    v := v + (s[u + 2] as int) * 0x100_0000_0000;
    if avail == 3 { return; }
    v := v + (s[u + 3] as int) * 0x1_0000_0000;
    if avail == 4 { return; }
    v := v + (s[u + 4] as int) * 0x100_0000;
    if avail == 5 { return; }
    v := v + (s[u + 5] as int) * 0x1_0000;
    if avail == 6 { return; }
    v := v + (s[u + 6] as int) * 0x100;
    if avail == 7 { return; }
    v := v + s[u + 7];
  }

  lemma SumIsBigEndian2(s: seq<byte>, u: nat)
    ensures BigEndian(Bytes(s, u, 2)) == ByteAt(s, u) * 0x100 + ByteAt(s, u + 1)
  {
    BigEndian2(ByteAt(s, u), ByteAt(s, u + 1));
    assert Bytes(s, u, 2) == [ByteAt(s, u), ByteAt(s, u + 1)];
  }

  lemma SumIsBigEndian4(s: seq<byte>, u: nat)
    ensures BigEndian(Bytes(s, u, 4))
         == ByteAt(s, u) * 0x100_0000 + ByteAt(s, u + 1) * 0x1_0000 + ByteAt(s, u + 2) * 0x100 + ByteAt(s, u + 3)
  {
    BigEndian4(ByteAt(s, u), ByteAt(s, u + 1), ByteAt(s, u + 2), ByteAt(s, u + 3));
    assert Bytes(s, u, 4) == [ByteAt(s, u), ByteAt(s, u + 1), ByteAt(s, u + 2), ByteAt(s, u + 3)];
  }

  lemma SumIsBigEndian8(s: seq<byte>, u: nat)
    ensures BigEndian(Bytes(s, u, 8))
         == ByteAt(s, u) * 0x100_0000_0000_0000 + ByteAt(s, u + 1) * 0x1_0000_0000_0000
            + ByteAt(s, u + 2) * 0x100_0000_0000 + ByteAt(s, u + 3) * 0x1_0000_0000
            + ByteAt(s, u + 4) * 0x100_0000 + ByteAt(s, u + 5) * 0x1_0000
            + ByteAt(s, u + 6) * 0x100 + ByteAt(s, u + 7)
  {
    var b := Bytes(s, u, 8);
    BigEndian8(b[0], b[1], b[2], b[3], b[4], b[5], b[6], b[7]);
    assert b == [b[0], b[1], b[2], b[3], b[4], b[5], b[6], b[7]];
  }

  /** The part of do_vecget behind the downgrade: reads field `offset` of `size` bits. */
  method GetField(sv: Buffer, offset: nat, size: int) returns (r: Result<nat>)
    requires sv.Valid() && offset <= SIZE_MAX && size <= INT_MAX
    ensures r == if !IsPowerOfTwo(size) then Croak(IllegalSize)
                 else Ok(if Width(size) then Field(sv.Contents(), size, offset) else 0)
  {
    var illegal := IsIllegal(size);
    if illegal {
      return Croak(IllegalSize);
    }
    Widths(size);
    if size > 64 {
      return Ok(0);
    }
    ghost var s := sv.Contents();
    var fits, uoffset, bitoffs := Locate(offset, size);
    if !fits || uoffset >= sv.cur {
      FieldPastEnd(s, size, offset);
      return Ok(0);
    }
    var v;
    if size < 8 {
      NarrowField(s, size, offset, uoffset, bitoffs);
      v := Bitwise(And, Shr(sv.buf[uoffset], bitoffs), Shl(1, size) - 1);
    } else {
      WideField(s, size, offset);
      v := ReadBytes(sv, uoffset, size);
    }
    r := Ok(v);
  }

  // ----- do_vecset -----

  /** How many bytes a string must have to hold a field. */
  function End(w: nat, i: nat): nat {
    if w < 8 then w * i / 8 + 1 else w / 8 * i + w / 8
  }

  /** `s'` is `s` with `v` stored in a field: it is as long as it was or as it must be, the
      bits of the field are the low bits of `v`, and every other bit is as it was, the bits
      past the old end being zero. */
  ghost predicate IsStored(s: seq<byte>, s': seq<byte>, w: nat, i: nat, v: nat)
    requires Width(w)
  {
    && |s'| == (if |s| > End(w, i) then |s| else End(w, i))
    && forall k: nat :: BitAt(s', k) == if w * i <= k < w * i + w then Bit(v, Inverse(w, i, k)) else BitAt(s, k)
  }

  /** The string is as long as it was, or as it must be to hold all bits of the field. */
  lemma StoredLength(s: seq<byte>, s': seq<byte>, w: nat, i: nat, v: nat)
    requires Width(w) && IsStored(s, s', w, i, v)
    ensures |s'| >= |s| && 8 * |s'| >= w * i + w
    ensures |s'| == |s| || 8 * (|s'| - 1) < w * i + w
  {
    FieldLies(w, i);
    hide Width, End, BitAt, Bit;
  }

  function Padded(s: seq<byte>, n: nat): (r: seq<byte>)
    ensures |r| == (if |s| > n then |s| else n)
    ensures forall k: nat :: ByteAt(r, k) == ByteAt(s, k)
  {
    if |s| >= n then s else s + seq<byte>(n - |s|, _ => 0)
  }

  /** Makes the string at least `end` bytes long, as one that has `targlen` bytes. */
  method Extend(sv: Buffer, targlen: nat, end: nat) returns (ok: bool)
    requires sv.cur <= targlen < sv.buf.Length <= SSIZE_MAX && sv.buf[targlen] == 0
    modifies sv, sv.buf
    ensures sv.buf == old(sv.buf) || fresh(sv.buf)
    ensures ok == (end < SSIZE_MAX)
    ensures !ok ==> sv.cur == old(sv.cur) && sv.buf == old(sv.buf) && sv.buf[..] == old(sv.buf[..])
    ensures ok ==>
              var n := if end > targlen then end else targlen;
              && n < sv.buf.Length <= SSIZE_MAX && sv.buf[..n] == Padded(old(sv.buf[..targlen]), end) && sv.buf[n] == 0
              && sv.cur == if end > targlen then end else old(sv.cur)
  {
    ok := true;
    if targlen < end {
      var newlen := if end > SIZE_MAX - 1 then SIZE_MAX else end + 1;
      ok := sv.Grow(newlen);
      if ok {
        var s := sv.buf;
        forall j | targlen <= j < newlen {
          s[j] := 0;
        }
        sv.cur := newlen - 1;
        assert s[..targlen] == old(sv.buf[..targlen]);
        assert s[..end] == Padded(old(sv.buf[..targlen]), end);
      }
    }
  }

  /** `(U8)((v >> 8 * q) & 0xff)` */
  function ByteOf(v: nat, q: nat): byte {
    AndBound(Shr(v, 8 * q), 0xff);
    Bitwise(And, Shr(v, 8 * q), 0xff)
  }

  lemma ByteOfBit(v: nat, q: nat, b: nat)
    requires b < 8
    ensures Bit(ByteOf(v, q), b) == Bit(v, 8 * q + b)
  {
    BitwiseBit(And, Shr(v, 8 * q), 0xff, b);
    Pow2Of8();
    MaskBit(8, b);
    ShrBit(v, 8 * q, b);
  }

  /** Writes a field of whole bytes. */
  method WriteBytes(s: array<byte>, offset: nat, size: nat, lval: nat)
    requires (size == 8 || size == 16 || size == 32 || size == 64) && offset + size / 8 <= s.Length
    modifies s
    ensures forall k :: 0 <= k < s.Length ==>
              s[k] == if offset <= k < offset + size / 8 then ByteOf(lval, size / 8 - 1 - (k - offset)) else old(s[k])
  {
    hide Bitwise, Shr;
    if size == 8 {
      s[offset] := ByteOf(lval, 0);
    } else if size == 16 {
      s[offset] := ByteOf(lval, 1);
      s[offset + 1] := ByteOf(lval, 0);
    } else if size == 32 {
      s[offset] := ByteOf(lval, 3);
      s[offset + 1] := ByteOf(lval, 2);
      s[offset + 2] := ByteOf(lval, 1);
      s[offset + 3] := ByteOf(lval, 0);
    } else {
      s[offset] := ByteOf(lval, 7);
      s[offset + 1] := ByteOf(lval, 6);
      s[offset + 2] := ByteOf(lval, 5);
      s[offset + 3] := ByteOf(lval, 4);
      s[offset + 4] := ByteOf(lval, 3);
      s[offset + 5] := ByteOf(lval, 2);
      s[offset + 6] := ByteOf(lval, 1);
      s[offset + 7] := ByteOf(lval, 0);
    }
  }

  lemma WideStored(s: seq<byte>, s': seq<byte>, w: nat, i: nat, v: nat)
    requires Width(w) && w >= 8 && |s'| == |Padded(s, End(w, i))|
    requires forall k: nat :: ByteAt(s', k) == if w / 8 * i <= k < w / 8 * i + w / 8
                                               then ByteOf(v, w / 8 - 1 - (k - w / 8 * i)) else ByteAt(s, k)
    ensures IsStored(s, s', w, i, v)
  {
    hide Bit, ByteOf, ByteAt, Inverse;
    forall k: nat
      ensures BitAt(s', k) == if w * i <= k < w * i + w then Bit(v, Inverse(w, i, k)) else BitAt(s, k)
    {
      WideBit(w, i, v, k);
    }
  }

  /** Which byte of a wide field a bit position is in, and which bit of the value it is. */
  lemma WideBit(w: nat, i: nat, v: nat, k: nat)
    requires Width(w) && w >= 8
    ensures w * i <= k < w * i + w <==> w / 8 * i <= k / 8 < w / 8 * i + w / 8
    ensures w * i <= k < w * i + w ==>
              Bit(ByteOf(v, w / 8 - 1 - (k / 8 - w / 8 * i)), k % 8) == Bit(v, Inverse(w, i, k))
  {
    hide Bit, ByteOf;
    var n := w / 8;
    WideIsBytes(w, i);
    if w * i <= k < w * i + w {
      WideInverse(w, i, k);
      ByteOfBit(v, n - 1 - (k / 8 - n * i), k % 8);
    }
  }

  lemma WideIsBytes(w: nat, i: nat)
    requires Width(w) && w >= 8
    ensures w == 8 * (w / 8) && w * i == 8 * (w / 8 * i)
  {
    var n := w / 8;
    assert n == 1 || n == 2 || n == 4 || n == 8;
  }

  lemma WideInverse(w: nat, i: nat, k: nat)
    requires Width(w) && w >= 8 && w * i <= k < w * i + w
    ensures 0 <= k / 8 - w / 8 * i < w / 8
    ensures Inverse(w, i, k) == 8 * (w / 8 - 1 - (k / 8 - w / 8 * i)) + k % 8
  {
    WideIsBytes(w, i);
    var f := w / 8 * i;
    assert (k - 8 * f) / 8 == k / 8 - f && (k - 8 * f) % 8 == k % 8;
  }

  /** `(x & ~(mask << b)) | ((v & mask) << b)` with a mask of `w` ones */
  function Spliced(x: byte, w: nat, b: nat, v: nat): byte
    requires b + w <= 8
  {
    SplicedBits(x, w, b, v, 0);
    var mask := Shl(1, w) - 1;
    Bitwise(Or, Bitwise(And, x, Not(Shl(mask, b), 32)), Shl(Bitwise(And, v, mask), b))
  }

  lemma MaskFits(w: nat)
    ensures 0 < Shl(1, w) == Pow2(w)
  {
  }

  /** What is cut out of a byte and what is put in are bytes too. */
  lemma SplicedFits(x: byte, w: nat, b: nat, v: nat)
    requires b + w <= 8
    ensures var mask := Shl(1, w) - 1;
            && Shl(mask, b) < Pow2(32)
            && Bitwise(And, x, Not(Shl(mask, b), 32)) < Pow2(8) && Shl(Bitwise(And, v, mask), b) < Pow2(8)
  {
    hide Bitwise, Bit, Not, Shl, Pow2;
    MaskFits(w);
    var mask := Shl(1, w) - 1;
    Pow2Monotone(w + b, 8);
    Pow2Monotone(8, 32);
    ShlBound(mask, w, b);
    AndBound(v, mask);
    ShlBound(Bitwise(And, v, mask), w, b);
    Pow2Of8();
    AndBoundLeft(x, Not(Shl(mask, b), 32));
  }

  lemma SplicedBits(x: byte, w: nat, b: nat, v: nat, k: nat)
    requires b + w <= 8
    ensures var mask := Shl(1, w) - 1;
            && Shl(mask, b) < Pow2(32)
            && var r := Bitwise(Or, Bitwise(And, x, Not(Shl(mask, b), 32)), Shl(Bitwise(And, v, mask), b));
               r < 256 && (k < 8 ==> Bit(r, k) == if b <= k < b + w then Bit(v, k - b) else Bit(x, k))
  {
    MaskFits(w);
    Pow2Of8();
    hide Bitwise, Bit, Not, Shl, Pow2;
    SplicedFits(x, w, b, v);
    var mask := Shl(1, w) - 1;
    var kept, put := Bitwise(And, x, Not(Shl(mask, b), 32)), Shl(Bitwise(And, v, mask), b);
    BitwiseBound(Or, kept, put, 8);
    if k < 8 {
      BitwiseBit(Or, kept, put, k);
      BitwiseBit(And, x, Not(Shl(mask, b), 32), k);
      NotBit(Shl(mask, b), 32, k);
      ShlBit(mask, b, k);
      ShlBit(Bitwise(And, v, mask), b, k);
      if k >= b {
        BitwiseBit(And, v, mask, k - b);
        MaskBit(w, k - b);
      }
    }
  }

  lemma {:induction false} Pow2Monotone(a: nat, b: nat)
    requires a <= b
    ensures Pow2(a) <= Pow2(b)
    decreases b
  {
    if a < b {
      Pow2Monotone(a, b - 1);
    }
  }

  lemma {:induction false} AndBoundLeft(a: nat, b: nat)
    ensures Bitwise(And, a, b) <= a
    decreases a + b
  {
    if a > 0 || b > 0 {
      AndBoundLeft(a / 2, b / 2);
    }
  }

  lemma NarrowStored(s: seq<byte>, s': seq<byte>, w: nat, i: nat, v: nat, u: nat, b: nat)
    requires Width(w) && w < 8 && 8 * u + b == w * i && b + w <= 8 && |s'| == |Padded(s, End(w, i))|
    requires forall k: nat :: ByteAt(s', k) == if k == u then Spliced(ByteAt(s, u), w, b, v) else ByteAt(s, k)
    ensures IsStored(s, s', w, i, v)
  {
    hide Bit, Spliced, ByteAt;
    forall k: nat
      ensures BitAt(s', k) == if w * i <= k < w * i + w then Bit(v, Inverse(w, i, k)) else BitAt(s, k)
    {
      NarrowBit(ByteAt(s, u), w, i, v, u, b, k);
    }
  }

  lemma NarrowBit(x: byte, w: nat, i: nat, v: nat, u: nat, b: nat, k: nat)
    requires Width(w) && w < 8 && 8 * u + b == w * i && b + w <= 8
    ensures w * i <= k < w * i + w ==> k / 8 == u
    ensures k / 8 == u ==>
              Bit(Spliced(x, w, b, v), k % 8)
              == if w * i <= k < w * i + w then Bit(v, Inverse(w, i, k)) else Bit(x, k % 8)
  {
    hide Bit, Width, Spliced, Bitwise, Not, Shl, Pow2, Inverse;
    SplicedBits(x, w, b, v, k % 8);
    NarrowPlace(w * i, w, u, b, k);
    SplicedIs(x, w, b, v);
    if w * i <= k < w * i + w {
      NarrowInverse(w, i, k);
    }
  }

  lemma NarrowInverse(w: nat, i: nat, k: nat)
    requires Width(w) && w < 8 && w * i <= k < w * i + w
    ensures Inverse(w, i, k) == k - w * i
  {
  }

  lemma NarrowPlace(f: nat, w: nat, u: nat, b: nat, k: nat)
    requires f == 8 * u + b && b + w <= 8
    ensures f <= k < f + w <==> k / 8 == u && b <= k % 8 < b + w
    ensures k / 8 == u ==> k - f == k % 8 - b
  {
  }

  lemma SplicedIs(x: byte, w: nat, b: nat, v: nat)
    requires b + w <= 8
    ensures var mask := Shl(1, w) - 1;
            && mask >= 0 && Shl(mask, b) < Pow2(32)
            && Spliced(x, w, b, v)
               == Bitwise(Or, Bitwise(And, x, Not(Shl(mask, b), 32)), Shl(Bitwise(And, v, mask), b))
  {
    SplicedBits(x, w, b, v, 0);
  }

  /** The part of do_vecset behind the downgrade: stores `lval` in field `offset` of `size` bits of
      what lies in the buffer up to `targlen`. A size above 64 only extends the string. */
  method SetField(sv: Buffer, targlen: nat, offset: nat, size: int, lval: nat) returns (r: Result<()>)
    requires sv.Valid() && sv.cur <= targlen < sv.buf.Length && sv.buf[targlen] == 0
    requires offset <= SIZE_MAX && size <= INT_MAX
    modifies sv, sv.buf
    ensures sv.buf == old(sv.buf) || fresh(sv.buf)
    ensures r == if !IsPowerOfTwo(size) then Croak(IllegalSize)
                 else if End(size, offset) >= SSIZE_MAX then Croak(OutOfMemory) else Ok(())
    ensures r.Croak? ==> sv.Valid() && sv.Contents() == old(sv.Contents())
    ensures r.Ok? ==>
              var n := if End(size, offset) > targlen then End(size, offset) else targlen;
              && n < sv.buf.Length <= SSIZE_MAX && sv.buf[n] == 0
              && sv.cur == (if End(size, offset) > targlen then n else old(sv.cur))
              && if Width(size) then IsStored(old(sv.buf[..targlen]), sv.buf[..n], size, offset, lval)
                 else sv.buf[..n] == Padded(old(sv.buf[..targlen]), End(size, offset))
  {
    hide IsStored;
    var illegal := IsIllegal(size);
    if illegal {
      return Croak(IllegalSize);
    }
    Widths(size);
    var fits, uoffset, bitoffs := Locate(offset, size);
    if !fits {
      return Croak(OutOfMemory);
    }
    var len := (bitoffs + size + 7) / 8;
    EndsAt(size, offset, uoffset, bitoffs);
    hide IsPowerOfTwo, End, Padded;
    ghost var m, n := sv.buf[..targlen], if uoffset + len > targlen then uoffset + len else targlen;
    var ok := Extend(sv, targlen, uoffset + len);
    if !ok {
      return Croak(OutOfMemory);
    }
    r := Ok(());
    if size < 8 {
      StoreNarrow(sv.buf, uoffset, bitoffs, size, lval, m, offset, n);
    } else if size <= 64 {
      StoreWide(sv.buf, uoffset, size, lval, m, offset, n);
    }
  }

  lemma EndsAt(size: nat, offset: nat, u: nat, b: nat)
    requires IsPowerOfTwo(size) && 8 * u + b == size * offset
    requires if size < 8 then b + size <= 8 else b == 0
    ensures u + (b + size + 7) / 8 == End(size, offset)
  {
    if size >= 8 {
      WholeBytes(size, offset);
    }
  }

  method StoreNarrow(buf: array<byte>, u: nat, b: nat, size: nat, lval: nat, ghost m: seq<byte>, ghost offset: nat,
                     ghost n: nat)
    requires Width(size) && size < 8 && b + size <= 8 && 8 * u + b == size * offset
    requires n < buf.Length && buf[..n] == Padded(m, End(size, offset)) && buf[n] == 0
    modifies buf
    ensures IsStored(m, buf[..n], size, offset, lval) && buf[n] == 0
  {
    buf[u] := Spliced(buf[u], size, b, lval);
    NarrowStored(m, buf[..n], size, offset, lval, u, b);
  }

  method StoreWide(buf: array<byte>, u: nat, size: nat, lval: nat, ghost m: seq<byte>, ghost offset: nat, ghost n: nat)
    requires Width(size) && size >= 8 && u == size / 8 * offset
    requires n < buf.Length && buf[..n] == Padded(m, End(size, offset)) && buf[n] == 0
    modifies buf
    ensures IsStored(m, buf[..n], size, offset, lval) && buf[n] == 0
  {
    WriteBytes(buf, u, size, lval);
    WideStored(m, buf[..n], size, offset, lval);
  }

  // ----- Strings with the UTF-8 flag -----

  /** In how many bytes a field lies. */
  function FieldBytes(w: nat): nat {
    if w < 8 then 1 else w / 8
  }

  /** The length `|t|` does no harm to a store in the string `s` that `t` has been converted to: it
      is the right one; or the field lies within `s`; or it ends past `t`, and what is left of the
      encoding below the field is zeros. */
  predicate LengthHolds(t: seq<byte>, s: seq<byte>, w: nat, i: nat)
    requires Width(w) && |s| <= |t|
  {
    || |s| == |t|
    || End(w, i) <= |s|
    || (End(w, i) > |t| && forall k :: |s| < k < |t| && k < End(w, i) - FieldBytes(w) ==> t[k] == 0)
  }

  /** A field lies in the bytes before its end. */
  lemma FieldLies(w: nat, i: nat)
    requires Width(w)
    ensures FieldBytes(w) <= End(w, i) && 8 * (End(w, i) - FieldBytes(w)) <= w * i && w * i + w <= 8 * End(w, i)
    ensures w >= 8 ==> 8 * (End(w, i) - FieldBytes(w)) == w * i && w * i + w == 8 * End(w, i)
  {
    if w < 8 {
      NarrowOffset(w, i);
    } else {
      WideIsBytes(w, i);
    }
  }

  predicate AllLow(pts: seq<Utf8.Point>) {
    forall i :: 0 <= i < |pts| ==> pts[i] < 0x100
  }

  /** The bytes that vec works on: the characters if they all fit in bytes, else the bytes that
      encode them. */
  ghost function VecBytes(contents: seq<byte>, isUtf8: bool, pts: seq<Utf8.Point>): (r: seq<byte>)
    ensures isUtf8 && AllLow(pts) ==> Utf8.Points(r) == pts
    ensures !isUtf8 || !AllLow(pts) ==> r == contents
  {
    if isUtf8 && AllLow(pts) then
      var r := seq<byte>(|pts|, i requires 0 <= i < |pts| => pts[i]);
      assert Utf8.Points(r) == pts;
      r
    else contents
  }

  /** A string is converted exactly if some bytes stand for it. */
  lemma LowExactly(contents: seq<byte>, pts: seq<Utf8.Point>)
    ensures AllLow(pts) <==> exists s: seq<byte> :: Utf8.Points(s) == pts
    ensures AllLow(pts) ==> forall s: seq<byte> :: Utf8.Points(s) == pts <==> s == VecBytes(contents, true, pts)
  {
    if AllLow(pts) {
      var r := VecBytes(contents, true, pts);
      assert Utf8.Points(r) == pts;
      forall s: seq<byte> | Utf8.Points(s) == pts
        ensures s == r
      {
        assert forall i :: 0 <= i < |s| ==> s[i] == pts[i] == r[i];
      }
    }
  }

  /** Whether every character fits in a byte: the first pass of sv_utf8_downgrade. */
  method FitsBytes(sv: Buffer, ghost pts: seq<Utf8.Point>) returns (low: bool)
    requires sv.Valid() && sv.Contents() == Utf8.EncodeAll(pts)
    ensures low <==> AllLow(pts)
  {
    hide Utf8.EncodeAll;
    var s := 0;
    ghost var i := 0;
    assert sv.buf[0..sv.cur] == sv.Contents() && pts[0..] == pts;
    while s < sv.cur
      invariant s <= sv.cur && i <= |pts| && sv.buf[s..sv.cur] == Utf8.EncodeAll(pts[i..])
      invariant AllLow(pts[..i])
      decreases sv.cur - s
    {
      var c, ulen := TransUtf8.ReadChar(sv.buf, s, sv.cur, pts[i..]);
      if c >= 0x100 {
        return false;
      }
      s := s + ulen;
      assert pts[i..][1..] == pts[i + 1..];
      i := i + 1;
    }
    TransUtf8.EncodeNothing(pts[i..]);
    assert pts[..i] == pts;
    low := true;
  }

  /** What lies in the buffer up to the end of an encoding `t`, once it has been converted to `s`
      where it lies: the bytes, a NUL, and what is left of the encoding. */
  function Remains(t: seq<byte>, s: seq<byte>): (m: seq<byte>)
    requires |s| <= |t|
    ensures |m| == |t|
    ensures forall k :: 0 <= k < |m| ==> m[k] == if k < |s| then s[k] else if k == |s| then 0 else t[k]
  {
    if |s| == |t| then s else s + [0] + t[|s| + 1..]
  }

  /** sv_utf8_downgrade: the string becomes bytes where it lies, or stays as it is. */
  method Downgrade(sv: Buffer, isUtf8: bool, ghost pts: seq<Utf8.Point>)
    requires sv.Valid() && (isUtf8 ==> sv.Contents() == Utf8.EncodeAll(pts))
    modifies sv`cur, sv.buf
    ensures sv.Valid() && sv.Contents() == VecBytes(old(sv.Contents()), isUtf8, pts)
    ensures sv.cur <= old(sv.cur) && sv.buf[old(sv.cur)] == 0
    ensures sv.buf[..old(sv.cur)] == Remains(old(sv.Contents()), sv.Contents())
  {
    if !isUtf8 {
      return;
    }
    var low := FitsBytes(sv, pts);
    if low {
      ghost var t := sv.Contents();
      var d := Convert(sv.buf, sv.cur, pts);
      sv.buf[d] := 0;
      sv.cur := d;
      assert sv.Contents() == VecBytes(t, isUtf8, pts);
      assert sv.buf[..|t|] == Remains(t, sv.Contents());
    }
  }

  /** The second pass: the characters are written over their encodings. */
  method Convert(buf: array<byte>, send: nat, ghost pts: seq<Utf8.Point>) returns (d: nat)
    requires send < buf.Length && buf[..send] == Utf8.EncodeAll(pts) && AllLow(pts)
    modifies buf
    ensures d == |pts| <= send && forall k :: 0 <= k < buf.Length ==> buf[k] == if k < d then pts[k] else old(buf[k])
  {
    hide Utf8.EncodeAll;
    var s := 0;
    d := 0;
    assert buf[0..send] == buf[..send] && pts[0..] == pts;
    while s < send
      invariant d <= s <= send && d <= |pts| && buf[s..send] == Utf8.EncodeAll(pts[d..])
      invariant forall k :: 0 <= k < buf.Length ==> buf[k] == if k < d then pts[k] else old(buf[k])
      decreases send - s
    {
      var c, ulen := TransUtf8.ReadChar(buf, s, send, pts[d..]);
      ghost var rest := buf[s + ulen..send];
      buf[d] := c;
      s := s + ulen;
      assert buf[s..send] == rest;
      assert pts[d..][1..] == pts[d + 1..];
      d := d + 1;
    }
    TransUtf8.EncodeNothing(pts[d..]);
  }

  /** do_vecget */
  method VecGet(sv: Buffer, isUtf8: bool, offset: nat, size: int, ghost pts: seq<Utf8.Point>) returns (r: Result<nat>)
    requires sv.Valid() && offset <= SIZE_MAX && size <= INT_MAX
    requires isUtf8 ==> sv.Contents() == Utf8.EncodeAll(pts)
    modifies sv`cur, sv.buf
    ensures var s := VecBytes(old(sv.Contents()), isUtf8, pts);
            if !IsPowerOfTwo(size) then r == Croak(IllegalSize) && sv.Valid() && sv.Contents() == old(sv.Contents())
            else r == Ok(if Width(size) then Field(s, size, offset) else 0) && sv.Valid() && sv.Contents() == s
  {
    var illegal := IsIllegal(size);
    if illegal {
      return Croak(IllegalSize);
    }
    Downgrade(sv, isUtf8, pts);
    r := GetField(sv, offset, size);
  }

  /** The errors that pp_vec leaves to the assignment: LVf_NEG_OFF and LVf_OUT_OF_RANGE. */
  datatype Deferred = NoError | NegOff | OutOfRange

  /** A store leaves the bytes alone that the field does not lie in. */
  lemma ByteStays(m: seq<byte>, m': seq<byte>, w: nat, i: nat, v: nat, j: nat)
    requires Width(w) && IsStored(m, m', w, i, v) && (j < End(w, i) - FieldBytes(w) || j >= End(w, i))
    ensures ByteAt(m', j) == ByteAt(m, j)
  {
    FieldLies(w, i);
    hide Bit, ByteAt, End, FieldBytes, Width, Inverse;
    forall b | 0 <= b < 8
      ensures Bit(ByteAt(m', j), b) == Bit(ByteAt(m, j), b)
    {
      assert BitAt(m', 8 * j + b) == BitAt(m, 8 * j + b);
      assert (8 * j + b) / 8 == j && (8 * j + b) % 8 == b;
    }
    Pow2Of8();
    hide Pow2;
    SameBits(ByteAt(m', j), ByteAt(m, j), 8);
  }

  lemma RemainsNul(t: seq<byte>, s: seq<byte>)
    requires |s| < |t|
    ensures Remains(t, s)[|s|] == 0
  {
  }

  lemma HoldsWhere(t: seq<byte>, s: seq<byte>, w: nat, i: nat)
    requires Width(w) && |s| <= |t| && LengthHolds(t, s, w, i)
    ensures |s| == |t| || End(w, i) <= |s| || End(w, i) > |t|
  {
  }

  /** What has been stored in the buffer is what should be in the string exactly if the length does
      no harm. */
  lemma HoldsExactly(t: seq<byte>, s: seq<byte>, m': seq<byte>, w: nat, i: nat, v: nat)
    requires Width(w) && |s| <= |t| && IsStored(Remains(t, s), m', w, i, v)
    ensures |m'| == if End(w, i) > |t| then End(w, i) else |t|
    ensures IsStored(s, m'[..if End(w, i) > |t| then End(w, i) else |s|], w, i, v) <==> LengthHolds(t, s, w, i)
  {
    if |s| == |t| {
      assert m'[..if End(w, i) > |t| then End(w, i) else |s|] == m';
    } else if End(w, i) <= |s| {
      HoldsWithin(t, s, m', w, i, v);
    } else if End(w, i) > |t| {
      assert m'[..End(w, i)] == m';
      HoldsPast(t, s, m', w, i, v);
    }
  }

  lemma HoldsWithin(t: seq<byte>, s: seq<byte>, m': seq<byte>, w: nat, i: nat, v: nat)
    requires Width(w) && End(w, i) <= |s| < |t| && IsStored(Remains(t, s), m', w, i, v)
    ensures |m'| == |t| && IsStored(s, m'[..|s|], w, i, v)
  {
    var cut := m'[..|s|];
    FieldLies(w, i);
    BitOfZero8();
    hide Bit, End, FieldBytes, Width, Inverse;
    forall k: nat
      ensures BitAt(cut, k) == if w * i <= k < w * i + w then Bit(v, Inverse(w, i, k)) else BitAt(s, k)
    {
      assert BitAt(m', k) == if w * i <= k < w * i + w then Bit(v, Inverse(w, i, k)) else BitAt(Remains(t, s), k);
      if k / 8 < |s| {
        assert cut[k / 8] == m'[k / 8] && s[k / 8] == Remains(t, s)[k / 8];
      }
    }
  }

  lemma BitOfZero8()
    ensures forall b: nat :: !Bit(0, b)
  {
    forall b: nat
      ensures !Bit(0, b)
    {
      BitOfZero(b);
    }
  }

  lemma HoldsPast(t: seq<byte>, s: seq<byte>, m': seq<byte>, w: nat, i: nat, v: nat)
    requires Width(w) && |s| < |t| < End(w, i) && IsStored(Remains(t, s), m', w, i, v)
    ensures IsStored(s, m', w, i, v) <==> LengthHolds(t, s, w, i)
  {
    FieldLies(w, i);
    if LengthHolds(t, s, w, i) {
      hide Bit, Inverse, Width;
      forall k: nat | !(w * i <= k < w * i + w)
        ensures BitAt(Remains(t, s), k) == BitAt(s, k)
      {
        if |s| < k / 8 < |t| {
          assert k / 8 < End(w, i) - FieldBytes(w);
        }
      }
    } else {
      var j :| |s| < j < |t| && j < End(w, i) - FieldBytes(w) && t[j] != 0;
      hide Bit, Inverse, Width, Remains, LengthHolds, End, FieldBytes;
      if IsStored(s, m', w, i, v) {
        ByteStays(Remains(t, s), m', w, i, v, j);
        ByteStays(s, m', w, i, v, j);
        assert false;
      }
    }
  }

  lemma SameLength(t: seq<byte>, isUtf8: bool, pts: seq<Utf8.Point>)
    requires isUtf8 ==> t == Utf8.EncodeAll(pts)
    ensures |VecBytes(t, isUtf8, pts)| <= |t|
  {
    if isUtf8 && AllLow(pts) {
      Utf8.NotShorter(pts);
    }
  }

  /** do_vecset. The length of the string is read before it is downgraded: what is stored is stored
      in what remains in the buffer, and whether the string then is what it should be depends on
      whether that length does harm. */
  method VecSet(sv: Buffer, isUtf8: bool, offset: nat, size: int, lval: nat, errflags: Deferred,
                ghost pts: seq<Utf8.Point>) returns (r: Result<()>)
    requires sv.Valid() && offset <= SIZE_MAX && size <= INT_MAX
    requires isUtf8 ==> sv.Contents() == Utf8.EncodeAll(pts)
    modifies sv, sv.buf
    ensures sv.buf == old(sv.buf) || fresh(sv.buf)
    ensures r == if errflags != NoError then Croak(if errflags == NegOff then NegativeOffset else OutOfMemory)
                 else if !IsPowerOfTwo(size) then Croak(IllegalSize)
                 else if End(size, offset) >= SSIZE_MAX then Croak(OutOfMemory) else Ok(())
    ensures r.Croak? ==>
              && sv.Valid()
              && sv.Contents() == if errflags != NoError then old(sv.Contents())
                                  else VecBytes(old(sv.Contents()), isUtf8, pts)
    ensures |VecBytes(old(sv.Contents()), isUtf8, pts)| <= old(sv.cur)
    ensures r.Ok? ==>
              var t, s, end := old(sv.Contents()), VecBytes(old(sv.Contents()), isUtf8, pts), End(size, offset);
              var n := if end > |t| then end else |t|;
              && n < sv.buf.Length <= SSIZE_MAX && sv.buf[n] == 0 && sv.cur == (if end > |t| then end else |s|)
              && if Width(size) then
                   && IsStored(Remains(t, s), sv.buf[..n], size, offset, lval)
                   && (IsStored(s, sv.buf[..sv.cur], size, offset, lval) <==> LengthHolds(t, s, size, offset))
                   && (LengthHolds(t, s, size, offset) ==> sv.Valid())
                 else sv.buf[..n] == Padded(Remains(t, s), end)
  {
    if errflags != NoError {
      SameLength(sv.Contents(), isUtf8, pts);
      return Croak(if errflags == NegOff then NegativeOffset else OutOfMemory);
    }
    var targlen := sv.cur;
    ghost var t := sv.Contents();
    Downgrade(sv, isUtf8, pts);
    ghost var s := sv.Contents();
    hide IsStored, LengthHolds, Remains, VecBytes, Padded;
    r := SetField(sv, targlen, offset, size, lval);
    if r.Ok? && Width(size) {
      ghost var n := if End(size, offset) > targlen then End(size, offset) else targlen;
      HoldsExactly(t, s, sv.buf[..n], size, offset, lval);
      assert sv.buf[..n][..sv.cur] == sv.buf[..sv.cur];
      if End(size, offset) <= |s| < |t| {
        ByteStays(Remains(t, s), sv.buf[..n], size, offset, lval, |s|);
        RemainsNul(t, s);
      }
      if LengthHolds(t, s, size, offset) {
        HoldsWhere(t, s, size, offset);
      }
    }
  }

  /** Storing in a field of eight bits is storing in a byte. */
  lemma ByteStored(m: seq<byte>, m': seq<byte>, i: nat, v: byte)
    requires i <= |m| && IsStored(m, m', 8, i, v)
    ensures |m'| == (if |m| > i then |m| else i + 1) && m' == m[..i] + [v] + m'[i + 1..]
    ensures i < |m| ==> m'[i + 1..] == m[i + 1..]
  {
    forall j | 0 <= j < |m'| && j != i
      ensures m'[j] == ByteAt(m, j)
    {
      ByteStays(m, m', 8, i, v, j);
    }
    GetAfterSet(m, m', 8, i, v);
    WideField(m', 8, i);
    Pow2Of8();
    var f := Bytes(m', i, 1);
    assert f == [m'[i]] && f[..0] == [];
  }

  /** A UTF-8 string "\x{80}": a byte stored behind it does not make it longer, and takes its NUL. */
  method LostStore() returns (sv: Buffer, r: Result<()>)
    ensures r == Ok(()) && sv.cur == 1 && 1 < sv.buf.Length && sv.buf[0] == 0x80 && sv.buf[1] == 0x41
    ensures !LengthHolds([0xC2, 0x80], [0x80], 8, 1)
  {
    OneLatin();
    hide VecBytes, Remains, IsStored, Padded, Utf8.EncodeAll;
    sv := new Buffer([0xC2, 0x80]);
    r := VecSet(sv, true, 1, 8, 0x41, NoError, [0x80]);
    ByteStored([0x80, 0], sv.buf[..2], 1, 0x41);
    assert sv.buf[..2][0] == 0x80 && sv.buf[..2][1] == 0x41;
  }

  lemma OneLatin()
    ensures Utf8.EncodeAll([0x80]) == [0xC2, 0x80] && VecBytes([0xC2, 0x80], true, [0x80]) == [0x80]
    ensures Remains([0xC2, 0x80], [0x80]) == [0x80, 0]
  {
    Utf8.EncodeLatin(0x80);
    Utf8.EncodeOne(0x80);
    assert Utf8.Points(VecBytes([0xC2, 0x80], true, [0x80])) == [0x80];
  }

  /** A UTF-8 string "\x{80}\x{81}": a byte stored past its encoding leaves a byte of that between. */
  method StaleByte() returns (sv: Buffer, r: Result<()>)
    ensures r == Ok(()) && sv.Valid() && sv.Contents() == [0x80, 0x81, 0, 0x81, 0x41]
    ensures !LengthHolds([0xC2, 0x80, 0xC2, 0x81], [0x80, 0x81], 8, 4)
  {
    TwoLatins();
    hide VecBytes, Remains, IsStored, Padded, LengthHolds, Utf8.EncodeAll;
    sv := new Buffer([0xC2, 0x80, 0xC2, 0x81]);
    r := VecSet(sv, true, 4, 8, 0x41, NoError, [0x80, 0x81]);
    ByteStored([0x80, 0x81, 0, 0x81], sv.buf[..5], 4, 0x41);
    assert sv.Contents() == sv.buf[..5];
  }

  lemma TwoLatins()
    ensures var t, s, pts := [0xC2, 0x80, 0xC2, 0x81], [0x80, 0x81], [0x80, 0x81];
            && Utf8.EncodeAll(pts) == t && VecBytes(t, true, pts) == s && Remains(t, s) == [0x80, 0x81, 0, 0x81]
            && !LengthHolds(t, s, 8, 4)
  {
    Utf8.EncodeLatin(0x80);
    Utf8.EncodeLatin(0x81);
    Utf8.EncodeOne(0x81);
    Utf8.EncodeCons(0x80, [0x81]);
    hide Utf8.EncodeAll, Utf8.Encode;
    assert [0x80] + [0x81] == [0x80, 0x81];
    var t := [0xC2, 0x80, 0xC2, 0x81];
    assert Utf8.Points(VecBytes(t, true, [0x80, 0x81])) == [0x80, 0x81];
    assert t[3] == 0x81;
  }

  // ----- Laws -----

  /** What was stored in a field is what is read from it. */
  lemma GetAfterSet(s: seq<byte>, s': seq<byte>, w: nat, i: nat, v: nat)
    requires Width(w) && IsStored(s, s', w, i, v)
    ensures Field(s', w, i) == v % Pow2(w)
  {
    hide Value;
    ValueBits(FieldBits(s', w, i), 0);
    forall p | 0 <= p < w
      ensures Bit(Field(s', w, i), p) == Bit(v % Pow2(w), p)
    {
      ValueBits(FieldBits(s', w, i), p);
      PositionRange(w, i, p);
      assert BitAt(s', Position(w, i, p)) == Bit(v, p);
      ModBit(v, w, p);
    }
    SameBits(Field(s', w, i), v % Pow2(w), w);
  }

  /** A field of any width that has no bit in common with the one stored keeps its value; in
      particular every other field of the same width does. */
  lemma SetElsewhere(s: seq<byte>, s': seq<byte>, w: nat, i: nat, v: nat, w': nat, j: nat)
    requires Width(w) && Width(w') && IsStored(s, s', w, i, v)
    requires w' * j + w' <= w * i || w * i + w <= w' * j
    ensures Field(s', w', j) == Field(s, w', j)
  {
    forall p | 0 <= p < w'
      ensures FieldBits(s', w', j)[p] == FieldBits(s, w', j)[p]
    {
      PositionRange(w', j, p);
      assert BitAt(s', Position(w', j, p)) == BitAt(s, Position(w', j, p));
    }
    assert FieldBits(s', w', j) == FieldBits(s, w', j);
  }

  lemma OtherField(s: seq<byte>, s': seq<byte>, w: nat, i: nat, v: nat, j: nat)
    requires Width(w) && IsStored(s, s', w, i, v) && i != j
    ensures Field(s', w, j) == Field(s, w, j)
  {
    MulMonotone(i + 1, j, w);
    MulMonotone(j + 1, i, w);
    SetElsewhere(s, s', w, i, v, w, j);
  }

  /** Where the `r`-th field of `w'` bits inside a field of `w` bits starts, counted from the
      low bit of the larger field: bytes are numbered from the high end, what is narrower than
      a byte from the low end of its byte. */
  function Start(w: nat, w': nat, r: nat): int
    requires Width(w) && Width(w') && w' <= w
  {
    if w' >= 8 then w - w' * (r + 1)
    else if w <= 8 then w' * r
    else w - 8 * (w' * r / 8 + 1) + w' * r % 8
  }

  lemma WideInWide(w: nat, w': nat, i: nat, r: nat, p: nat)
    requires Width(w) && Width(w') && 8 <= w' <= w && r < w / w' && p < w'
    ensures 0 <= Start(w, w', r) && Start(w, w', r) + p < w
    ensures Position(w', w / w' * i + r, p) == Position(w, i, Start(w, w', r) + p)
  {
    var n, n' := w / 8, w' / 8;
    assert n == 1 || n == 2 || n == 4 || n == 8;
    assert n' == 1 || n' == 2 || n' == 4 || n' == 8;
    Nested(w, w', i, r);
    var q := Start(w, w', r) + p;
    assert q == 8 * (n - n' * (r + 1)) + p;
    assert q / 8 == n - n' * (r + 1) + p / 8 && q % 8 == p % 8;
  }

  lemma Nested(w: nat, w': nat, i: nat, r: nat)
    requires Width(w) && Width(w') && w' <= w && r < w / w'
    ensures w' * (w / w') == w && w' * (w / w' * i + r) == w * i + w' * r && w' * (r + 1) <= w
  {
    assert w' * (w / w') == w;
    MulMonotone(r + 1, w / w', w');
    assert w' * (w / w' * i + r) == w' * (w / w') * i + w' * r;
  }

  lemma NarrowInside(w: nat, w': nat, i: nat, r: nat, p: nat)
    requires Width(w) && Width(w') && w' < 8 && w' <= w && r < w / w' && p < w'
    ensures 0 <= Start(w, w', r) && Start(w, w', r) + p < w
    ensures Position(w', w / w' * i + r, p) == Position(w, i, Start(w, w', r) + p)
  {
    hide Position, Start, Width;
    Nested(w, w', i, r);
    var t := w' * r;
    NarrowPosition(w', w / w' * i + r, p);
    StartOfNarrow(w, w', r, t);
    if w >= 8 {
      Aligned(w', r);
      NarrowInWide(w, w', t, p);
      WidePositionIs(w, i, Start(w, w', r) + p);
    } else {
      NarrowPosition(w, i, Start(w, w', r) + p);
    }
  }

  lemma NarrowPosition(w: nat, i: nat, p: nat)
    requires Width(w) && w < 8 && p < w
    ensures Position(w, i, p) == w * i + p
  {
  }

  lemma WidePositionIs(w: nat, i: nat, p: nat)
    requires Width(w) && w >= 8 && p < w
    ensures Position(w, i, p) == w * i + 8 * (w / 8 - 1 - p / 8) + p % 8
  {
  }

  lemma StartOfNarrow(w: nat, w': nat, r: nat, t: nat)
    requires Width(w) && Width(w') && w' < 8 && w' <= w && t == w' * r && t + w' <= w
    ensures Start(w, w', r) == if w < 8 then t else w - 8 * (t / 8 + 1) + t % 8
    ensures w' == 1 || w' == 2 || w' == 4
    ensures w < 8 || w == 8 || w == 16 || w == 32 || w == 64
  {
  }

  lemma Aligned(w': nat, r: nat)
    requires w' == 1 || w' == 2 || w' == 4
    ensures w' * r % 8 + w' <= 8
  {
    if w' == 2 {
      MultipleOfTwo(r);
    } else if w' == 4 {
      MultipleOfFour(r);
    }
  }

  lemma MultipleOfTwo(r: nat)
    ensures 2 * r % 8 <= 6
  {
    assert 2 * r == 8 * (r / 4) + 2 * (r % 4);
  }

  lemma MultipleOfFour(r: nat)
    ensures 4 * r % 8 <= 4
  {
    assert 4 * r == 8 * (r / 2) + 4 * (r % 2);
  }

  lemma NarrowInWide(w: nat, w': nat, t: nat, p: nat)
    requires Width(w) && w >= 8 && t % 8 + w' <= 8 && t + w' <= w && p < w'
    ensures var q := w - 8 * (t / 8 + 1) + t % 8 + p;
            0 <= q - p && q < w && t + p == 8 * (w / 8 - 1 - q / 8) + q % 8
  {
    var n := w / 8;
    assert n == 1 || n == 2 || n == 4 || n == 8;
    var q := w - 8 * (t / 8 + 1) + t % 8 + p;
    assert q == 8 * (n - 1 - t / 8) + (t % 8 + p);
    assert q / 8 == n - 1 - t / 8 && q % 8 == t % 8 + p;
  }

  /** Fields of different widths are groupings of the same bits: the r-th field of `w'` bits
      inside a field of `w` bits is that part of its value. */
  lemma SubField(s: seq<byte>, w: nat, w': nat, i: nat, r: nat)
    requires Width(w) && Width(w') && w' <= w && r < w / w'
    ensures 0 <= Start(w, w', r) <= w - w'
    ensures Field(s, w', w / w' * i + r) == Shr(Field(s, w, i), Start(w, w', r)) % Pow2(w')
  {
    hide Value, FieldBits, Position, Start, Bit, Pow2, Shr, BitAt, Inverse;
    var j, x, y := w / w' * i + r, Field(s, w, i), Field(s, w', w / w' * i + r);
    SubPosition(w, w', i, r, 0);
    SubPosition(w, w', i, r, w' - 1);
    var z := Shr(x, Start(w, w', r));
    ValueBits(FieldBits(s, w', j), 0);
    forall p | 0 <= p < w'
      ensures Bit(y, p) == Bit(z % Pow2(w'), p)
    {
      SubPosition(w, w', i, r, p);
      ValueBits(FieldBits(s, w', j), p);
      ValueBits(FieldBits(s, w, i), Start(w, w', r) + p);
      ModBit(z, w', p);
      ShrBit(x, Start(w, w', r), p);
    }
    SameBits(y, z % Pow2(w'), w');
  }

  lemma SubPosition(w: nat, w': nat, i: nat, r: nat, p: nat)
    requires Width(w) && Width(w') && w' <= w && r < w / w' && p < w'
    ensures 0 <= Start(w, w', r) && Start(w, w', r) + p < w
    ensures Position(w', w / w' * i + r, p) == Position(w, i, Start(w, w', r) + p)
  {
    if w' >= 8 {
      WideInWide(w, w', i, r, p);
    } else {
      NarrowInside(w, w', i, r, p);
    }
  }

  /** After a store, every field inside the stored one reads as that part of the stored value. */
  lemma GetInsideSet(s: seq<byte>, s': seq<byte>, w: nat, w': nat, i: nat, v: nat, r: nat)
    requires Width(w) && Width(w') && w' <= w && r < w / w' && IsStored(s, s', w, i, v)
    ensures 0 <= Start(w, w', r) <= w - w'
    ensures Field(s', w', w / w' * i + r) == Shr(v % Pow2(w), Start(w, w', r)) % Pow2(w')
  {
    GetAfterSet(s, s', w, i, v);
    SubField(s', w, w', i, r);
  }

  /** After a store, a field around the stored one has the stored value in its place and is
      otherwise as it was. */
  lemma GetAroundSet(s: seq<byte>, s': seq<byte>, w: nat, w': nat, i: nat, v: nat, r: nat, p: nat)
    requires Width(w) && Width(w') && w' <= w && r < w / w' && p < w
    requires IsStored(s, s', w', w / w' * i + r, v)
    ensures 0 <= Start(w, w', r) <= w - w'
    ensures var b := Start(w, w', r);
            Bit(Field(s', w, i), p) == if b <= p < b + w' then Bit(v, p - b) else Bit(Field(s, w, i), p)
  {
    hide Value, Start, Position, Bit, BitAt, Inverse, FieldBits, Pow2;
    var b, j, k := Start(w, w', r), w / w' * i + r, Position(w, i, p);
    AroundPosition(w, w', i, r, p);
    ValueBits(FieldBits(s', w, i), p);
    ValueBits(FieldBits(s, w, i), p);
    assert BitAt(s', k) == if w' * j <= k < w' * j + w' then Bit(v, Inverse(w', j, k)) else BitAt(s, k);
  }

  lemma AroundPosition(w: nat, w': nat, i: nat, r: nat, p: nat)
    requires Width(w) && Width(w') && w' <= w && r < w / w' && p < w
    ensures 0 <= Start(w, w', r) <= w - w'
    ensures var b, j, k := Start(w, w', r), w / w' * i + r, Position(w, i, p);
            && (b <= p < b + w' <==> w' * j <= k < w' * j + w')
            && (b <= p < b + w' ==> Inverse(w', j, k) == p - b)
  {
    hide Start, Position, Inverse;
    var b, j, k := Start(w, w', r), w / w' * i + r, Position(w, i, p);
    SubPosition(w, w', i, r, 0);
    SubPosition(w, w', i, r, w' - 1);
    PositionRange(w, i, p);
    if b <= p < b + w' {
      SubPosition(w, w', i, r, p - b);
      PositionRange(w', j, p - b);
    } else if w' * j <= k < w' * j + w' {
      SubPosition(w, w', i, r, Inverse(w', j, k));
      PositionRange(w, i, b + Inverse(w', j, k));
    }
  }
}
