/** Unsigned integers and their bits. */
module Bits {
  type byte = x: int | 0 <= x < 256

  function Pow2(n: nat): (r: nat)
    ensures r > 0
  {
    if n == 0 then 1 else 2 * Pow2(n - 1)
  }

  /** Bit `k` of `x`, counted from the low end. */
  predicate Bit(x: nat, k: nat) {
    if k == 0 then x % 2 == 1 else Bit(x / 2, k - 1)
  }

  datatype BitOp = And | Or | Xor

  function Apply(op: BitOp, a: bool, b: bool): bool {
    match op
    case And => a && b
    case Or => a || b
    case Xor => a != b
  }

  function BoolVal(b: bool): nat {
    if b then 1 else 0
  }

  /** The operators &, | and ^. */
  function Bitwise(op: BitOp, a: nat, b: nat): nat
    decreases a + b
  {
    if a == 0 && b == 0 then 0
    else 2 * Bitwise(op, a / 2, b / 2) + BoolVal(Apply(op, a % 2 == 1, b % 2 == 1))
  }

  /** The operators << and >>. */
  function Shl(x: nat, n: nat): nat { x * Pow2(n) }

  function Shr(x: nat, n: nat): nat { if n == 0 then x else Shr(x / 2, n - 1) }

  /** The operator ~ on a word of `w` bits. */
  function Not(x: nat, w: nat): nat
    requires x < Pow2(w)
  {
    Pow2(w) - 1 - x
  }

  // ----- Bits of results -----

  lemma {:induction false} BitOfZero(k: nat)
    ensures !Bit(0, k)
  {
    if k > 0 { BitOfZero(k - 1); }
  }

  lemma {:induction false} BitwiseBit(op: BitOp, a: nat, b: nat, k: nat)
    ensures Bit(Bitwise(op, a, b), k) == Apply(op, Bit(a, k), Bit(b, k))
    decreases k
  {
    if a == 0 && b == 0 {
      BitOfZero(k);
    } else if k > 0 {
      BitwiseBit(op, a / 2, b / 2, k - 1);
    }
  }

  lemma {:induction false} BitwiseBound(op: BitOp, a: nat, b: nat, n: nat)
    requires a < Pow2(n) && b < Pow2(n)
    ensures Bitwise(op, a, b) < Pow2(n)
    decreases n
  {
    if n > 0 && (a > 0 || b > 0) {
      BitwiseBound(op, a / 2, b / 2, n - 1);
    }
  }

  lemma ShlNone(x: nat)
    ensures Shl(x, 0) == x
  {
  }

  lemma ShlNext(x: nat, n: nat)
    requires n > 0
    ensures Shl(x, n) == 2 * Shl(x, n - 1)
  {
    TimesTwice(x, Pow2(n - 1));
  }

  lemma TimesTwice(x: nat, m: nat)
    ensures x * (2 * m) == 2 * (x * m)
  {
  }

  lemma {:induction false} ShlBit(x: nat, n: nat, k: nat)
    ensures Bit(Shl(x, n), k) == (k >= n && Bit(x, k - n))
    decreases n, k
  {
    hide Shl, Pow2;
    if n == 0 {
      ShlNone(x);
    } else {
      ShlNext(x, n);
      if k > 0 { ShlBit(x, n - 1, k - 1); }
    }
  }

  lemma {:induction false} ShlBound(x: nat, w: nat, n: nat)
    requires x < Pow2(w)
    ensures Shl(x, n) < Pow2(w + n)
  {
    if n > 0 {
      ShlBound(x, w, n - 1);
      ShlNext(x, n);
      hide Shl;
      assert Pow2(w + n) == 2 * Pow2(w + n - 1);
    }
  }

  lemma {:induction false} ShrBit(x: nat, n: nat, k: nat)
    ensures Bit(Shr(x, n), k) == Bit(x, k + n)
    decreases n
  {
    if n > 0 {
      ShrBit(x / 2, n - 1, k);
    }
  }

  lemma DivUnique(x: nat, m: nat, q: nat, r: nat)
    requires m > 0 && r < m && x == q * m + r
    ensures x / m == q && x % m == r
  {
    MulMonotone(x / m + 1, q, m);
    MulMonotone(q + 1, x / m, m);
  }

  lemma MulMonotone(a: int, b: int, m: nat)
    ensures a <= b ==> a * m <= b * m
  {
  }

  lemma {:induction false} NotBit(x: nat, w: nat, k: nat)
    requires x < Pow2(w)
    ensures Bit(Not(x, w), k) == (k < w && !Bit(x, k))
    decreases w
  {
    if w == 0 {
      BitOfZero(k);
    } else if k > 0 {
      NotBit(x / 2, w - 1, k - 1);
      assert Not(x, w) / 2 == Not(x / 2, w - 1);
    }
  }

  /** A word of all ones below bit `n`. */
  lemma {:induction false} MaskBit(n: nat, k: nat)
    ensures Bit(Pow2(n) - 1, k) == (k < n)
  {
    NotBit(0, n, k);
    BitOfZero(k);
  }

  lemma {:induction false} BitAbove(x: nat, n: nat, k: nat)
    requires x < Pow2(n) && k >= n
    ensures !Bit(x, k)
    decreases k
  {
    if k > 0 {
      if n > 0 { BitAbove(x / 2, n - 1, k - 1); } else { BitOfZero(k); }
    }
  }

  /** Numbers with the same bits are equal. */
  lemma {:induction false} SameBits(a: nat, b: nat, n: nat)
    requires a < Pow2(n) && b < Pow2(n)
    requires forall k :: 0 <= k < n ==> Bit(a, k) == Bit(b, k)
    ensures a == b
    decreases n
  {
    if n > 0 {
      forall k | 0 <= k < n - 1
        ensures Bit(a / 2, k) == Bit(b / 2, k)
      {
        assert Bit(a, k + 1) == Bit(b, k + 1);
      }
      SameBits(a / 2, b / 2, n - 1);
      assert Bit(a, 0) == Bit(b, 0);
    }
  }

  lemma ModHalf(x: nat, m: nat)
    requires m > 0
    ensures x % (2 * m) == 2 * (x / 2 % m) + x % 2
  {
    var q := x / 2 / m;
    assert x / 2 == q * m + x / 2 % m;
    assert x == q * (2 * m) + (2 * (x / 2 % m) + x % 2);
    DivUnique(x, 2 * m, q, 2 * (x / 2 % m) + x % 2);
  }

  lemma {:induction false} ModBit(x: nat, n: nat, k: nat)
    ensures Bit(x % Pow2(n), k) == (k < n && Bit(x, k))
    decreases n
  {
    if n == 0 {
      BitOfZero(k);
    } else {
      var y := x % Pow2(n);
      assert y / 2 == x / 2 % Pow2(n - 1) && y % 2 == x % 2 by {
        ModHalf(x, Pow2(n - 1));
      }
      hide Pow2;
      if k > 0 { ModBit(x / 2, n - 1, k - 1); }
    }
  }

  /** Masking keeps the value modulo a power of two. */
  lemma AndMask(x: nat, n: nat)
    ensures Bitwise(And, x, Pow2(n) - 1) == x % Pow2(n)
  {
    var r := Bitwise(And, x, Pow2(n) - 1);
    AndBound(x, Pow2(n) - 1);
    forall k | 0 <= k < n
      ensures Bit(r, k) == Bit(x % Pow2(n), k)
    {
      BitwiseBit(And, x, Pow2(n) - 1, k);
      MaskBit(n, k);
      ModBit(x, n, k);
    }
    SameBits(r, x % Pow2(n), n);
  }

  lemma {:induction false} AndBound(a: nat, b: nat)
    ensures Bitwise(And, a, b) <= b
    decreases b
  {
    if b > 0 {
      AndBound(a / 2, b / 2);
    } else {
      AndZero(a);
    }
  }

  lemma {:induction false} AndZero(a: nat)
    ensures Bitwise(And, a, 0) == 0
  {
    if a > 0 { AndZero(a / 2); }
  }

  // ----- Numbers from bits and from bytes -----

  /** The number whose bits, lowest first, are `bits`. */
  function Value(bits: seq<bool>): nat {
    if bits == [] then 0 else BoolVal(bits[0]) + 2 * Value(bits[1..])
  }

  lemma {:induction false} ValueBits(bits: seq<bool>, k: nat)
    ensures Value(bits) < Pow2(|bits|)
    ensures Bit(Value(bits), k) == (k < |bits| && bits[k])
    decreases |bits|
  {
    if bits == [] {
      BitOfZero(k);
    } else {
      ValueBits(bits[1..], if k > 0 then k - 1 else 0);
    }
  }

  /** The number whose bytes, highest first, are `bs`. */
  function BigEndian(bs: seq<byte>): nat {
    if bs == [] then 0 else BigEndian(bs[..|bs| - 1]) * 256 + bs[|bs| - 1]
  }

  lemma {:induction false} BigEndianBit(bs: seq<byte>, k: nat)
    ensures Bit(BigEndian(bs), k) == (k < 8 * |bs| && Bit(bs[|bs| - 1 - k / 8], k % 8))
    decreases |bs|
  {
    if bs == [] {
      BitOfZero(k);
    } else {
      var hi, lo := BigEndian(bs[..|bs| - 1]), bs[|bs| - 1];
      SplitBit(hi, lo, 8, k);
      if k >= 8 {
        BigEndianBit(bs[..|bs| - 1], k - 8);
        assert (k - 8) / 8 == k / 8 - 1 && (k - 8) % 8 == k % 8;
      }
    }
  }

  /** Bits of two numbers put next to each other. */
  lemma {:induction false} SplitBit(hi: nat, lo: nat, n: nat, k: nat)
    requires lo < Pow2(n)
    ensures Bit(hi * Pow2(n) + lo, k) == if k < n then Bit(lo, k) else Bit(hi, k - n)
    decreases n
  {
    if n > 0 {
      var m := Pow2(n - 1);
      assert hi * Pow2(n) + lo == 2 * (hi * m + lo / 2) + lo % 2 by {
        assert hi * (2 * m) == 2 * (hi * m);
      }
      if k > 0 { SplitBit(hi, lo / 2, n - 1, k - 1); }
    }
  }

  lemma Pow2Of8()
    ensures Pow2(8) == 256
  {
    assert Pow2(4) == 16;
    assert Pow2(8) == 16 * Pow2(4) by {
      assert Pow2(8) == 2 * Pow2(7) && Pow2(7) == 2 * Pow2(6) && Pow2(6) == 2 * Pow2(5) && Pow2(5) == 2 * Pow2(4);
    }
  }

  lemma Pow2Step(n: nat)
    ensures Pow2(n + 8) == 256 * Pow2(n)
  {
    assert Pow2(n + 8) == 2 * Pow2(n + 7) && Pow2(n + 7) == 2 * Pow2(n + 6);
    assert Pow2(n + 6) == 2 * Pow2(n + 5) && Pow2(n + 5) == 2 * Pow2(n + 4);
    assert Pow2(n + 4) == 2 * Pow2(n + 3) && Pow2(n + 3) == 2 * Pow2(n + 2);
    assert Pow2(n + 2) == 2 * Pow2(n + 1);
  }

  lemma Pow2Of64()
    ensures Pow2(64) == 0x1_0000_0000_0000_0000
  {
    hide Pow2;
    Pow2Of8();
    Pow2Step(8);
    Pow2Step(16);
    Pow2Step(24);
    Pow2Step(32);
    Pow2Step(40);
    Pow2Step(48);
    Pow2Step(56);
  }
}
