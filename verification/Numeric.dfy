/** grok_oct and grok_hex of numeric.c, as the escape parsers call them: no prefix, an optional
    rule for underscores, and the value capped at UV_MAX. The two differ in their base only. */
module Numeric {
  import opened Bits

  const UV_MAX: nat := 0xFFFF_FFFF_FFFF_FFFF
  const UNDERSCORE: byte := 0x5F

  function DigitValue(b: byte): (d: int)
    ensures -1 <= d < 16
  {
    if 0x30 <= b <= 0x39 then b - 0x30
    else if 0x41 <= b <= 0x46 then b - 0x37
    else if 0x61 <= b <= 0x66 then b - 0x57
    else -1
  }

  /** isOCTAL and isXDIGIT */
  predicate IsDigit(b: byte, radix: nat) {
    0 <= DigitValue(b) < radix
  }

  /** The digits of the longest prefix of `t` that is a number: single underscores may stand in
      front of digits if they are allowed. */
  function Digits(t: seq<byte>, radix: nat, underscores: bool): (ds: seq<nat>)
    ensures |ds| <= |t| && forall k :: 0 <= k < |ds| ==> ds[k] < radix
  {
    if t == [] then []
    else if IsDigit(t[0], radix) then [DigitValue(t[0])] + Digits(t[1..], radix, underscores)
    else if underscores && t[0] == UNDERSCORE && |t| > 1 && IsDigit(t[1], radix) then
      [DigitValue(t[1])] + Digits(t[2..], radix, underscores)
    else []
  }

  /** The length of that prefix. */
  function Extent(t: seq<byte>, radix: nat, underscores: bool): (n: nat)
    ensures |Digits(t, radix, underscores)| <= n <= |t|
    ensures n > 0 ==> IsDigit(t[n - 1], radix)
    ensures !underscores ==> n == |Digits(t, radix, underscores)|
  {
    if t == [] then 0
    else if IsDigit(t[0], radix) then 1 + Extent(t[1..], radix, underscores)
    else if underscores && t[0] == UNDERSCORE && |t| > 1 && IsDigit(t[1], radix) then
      2 + Extent(t[2..], radix, underscores)
    else 0
  }

  /** A prefix has the digits that begin within it. */
  lemma {:induction false} DigitsOfPrefix(t: seq<byte>, m: nat, radix: nat)
    requires m <= |t|
    ensures var ds := Digits(t, radix, false);
            Digits(t[..m], radix, false) == if m < |ds| then ds[..m] else ds
  {
    if m > 0 && IsDigit(t[0], radix) {
      DigitsOfPrefix(t[1..], m - 1, radix);
      assert t[..m][1..] == t[1..][..m - 1];
    }
  }

  /** The number whose digits are those of `v` and behind them `ds`. */
  function Appended(v: nat, ds: seq<nat>, radix: nat): nat
    decreases |ds|
  {
    if ds == [] then v else Appended(v * radix + ds[0], ds[1..], radix)
  }

  function Pow(radix: nat, n: nat): nat {
    if n == 0 then 1 else Pow(radix, n - 1) * radix
  }

  /** Positional notation: the digit `k` places from the right counts for radix to the `k`. */
  lemma {:induction false} Positional(v: nat, ds: seq<nat>, d: nat, radix: nat)
    ensures Appended(v, ds + [d], radix) == Appended(v, ds, radix) * radix + d
    decreases |ds|
  {
    if ds == [] {
      assert ([d] + [])[1..] == [];
      assert ds + [d] == [d];
    } else {
      assert (ds + [d])[0] == ds[0] && (ds + [d])[1..] == ds[1..] + [d];
      Positional(v * radix + ds[0], ds[1..], d, radix);
    }
  }

  lemma {:induction false} AppendedGrows(v: nat, ds: seq<nat>, radix: nat)
    requires radix > 0
    ensures Appended(v, ds, radix) >= v
    decreases |ds|
  {
    if ds != [] {
      AppendedGrows(v * radix + ds[0], ds[1..], radix);
      assert v * radix >= v;
    }
  }

  /** A number of `n` digits is less than radix to the `n`. */
  lemma {:induction false} AppendedBelow(ds: seq<nat>, radix: nat)
    requires forall k :: 0 <= k < |ds| ==> ds[k] < radix
    ensures Appended(0, ds, radix) < Pow(radix, |ds|)
    decreases |ds|
  {
    if ds != [] {
      var n := |ds| - 1;
      AppendedBelow(ds[..n], radix);
      Positional(0, ds[..n], ds[n], radix);
      assert ds[..n] + [ds[n]] == ds;
      Widen(Appended(0, ds[..n], radix), ds[n], Pow(radix, n), radix);
    }
  }

  lemma Widen(x: nat, d: nat, p: nat, radix: nat)
    requires x < p && d < radix
    ensures x * radix + d < p * radix
  {
    assert (x + 1) * radix <= p * radix;
  }

  /** UV_MAX is the largest number of 64 bits. */
  lemma LargestValue()
    ensures UV_MAX + 1 == Pow2(64)
  {
    Pow2Of64();
  }

  function Capped(v: nat): (r: nat)
    ensures r <= UV_MAX
  {
    if v > UV_MAX then UV_MAX else v
  }

  /** The value of the number at the front of `t`. */
  function Number(t: seq<byte>, radix: nat, underscores: bool): nat {
    Appended(0, Digits(t, radix, underscores), radix)
  }

  // ----- Numbers as they are written down -----

  const LOWER := "0123456789abcdef"
  const UPPER := "0123456789ABCDEF"

  /** A byte that is written for a digit. */
  predicate Writes(b: byte, d: nat) {
    d < 16 && (b == LOWER[d] as int || b == UPPER[d] as int)
  }

  lemma PlaceIs(b: byte, d: nat)
    requires d < 16
    ensures LOWER[d] as int == (if d < 10 then 0x30 + d else 0x57 + d)
    ensures UPPER[d] as int == (if d < 10 then 0x30 + d else 0x37 + d)
    ensures DigitValue(b) == d <==> Writes(b, d)
  {
  }

  /** A byte is a digit exactly if it stands in one of the two alphabets, and then its value is its
      place there. */
  lemma DigitIsPlace(b: byte)
    ensures DigitValue(b) == -1 <==> forall d: nat :: !Writes(b, d)
    ensures forall d: nat :: DigitValue(b) == d <==> Writes(b, d)
  {
    forall d: nat | d < 16
      ensures DigitValue(b) == d <==> Writes(b, d)
    {
      PlaceIs(b, d);
    }
    hide Writes, DigitValue;
    assert DigitValue(b) >= 0 ==> Writes(b, DigitValue(b));
  }

  predicate WritesDigit(b: byte, radix: nat) {
    exists d: nat :: d < radix && Writes(b, d)
  }

  lemma DigitIsWritten(b: byte, radix: nat)
    requires radix <= 16
    ensures IsDigit(b, radix) <==> WritesDigit(b, radix)
  {
    DigitIsPlace(b);
    if IsDigit(b, radix) {
      assert Writes(b, DigitValue(b));
    }
  }

  /** `t` writes the digits `ds`, in small or capital letters, with single underscores in front of
      digits if they are allowed. */
  predicate Spells(t: seq<byte>, ds: seq<nat>, underscores: bool) {
    if t == [] then ds == []
    else
      && ds != []
      && ((Writes(t[0], ds[0]) && Spells(t[1..], ds[1..], underscores))
          || (underscores && |t| > 1 && t[0] == '_' as int && Writes(t[1], ds[0])
              && Spells(t[2..], ds[1..], underscores)))
  }

  /** The digits of a number. */
  function DigitsOf(v: nat, radix: nat): (ds: seq<nat>)
    requires radix == 8 || radix == 16
    ensures ds != [] && forall k :: 0 <= k < |ds| ==> ds[k] < radix
    decreases v
  {
    if v < radix then [v] else DigitsOf(v / radix, radix) + [v % radix]
  }

  lemma {:induction false} ValueOfDigits(v: nat, radix: nat)
    requires radix == 8 || radix == 16
    ensures Appended(0, DigitsOf(v, radix), radix) == v
    decreases v
  {
    if v < radix {
      assert [v][1..] == [];
    } else {
      ValueOfDigits(v / radix, radix);
      Positional(0, DigitsOf(v / radix, radix), v % radix, radix);
      hide Appended;
      if radix == 8 {
        assert v == v / 8 * 8 + v % 8;
      } else {
        assert v == v / 16 * 16 + v % 16;
      }
    }
  }

  /** The longest prefix that writes digits below the radix, in whatever letters, is what is read. */
  lemma {:induction false} ReadsLongest(t: seq<byte>, radix: nat, underscores: bool)
    requires radix <= 16
    ensures Spells(t[..Extent(t, radix, underscores)], Digits(t, radix, underscores), underscores)
    decreases |t|
  {
    var n := Extent(t, radix, underscores);
    if n == 0 {
      assert t[..0] == [] && Digits(t, radix, underscores) == [];
    } else {
      var k := if IsDigit(t[0], radix) then 1 else 2;
      FirstOfExtent(t, radix, underscores);
      hide Digits, Extent, Spells, Writes, IsDigit, DigitValue;
      DigitIsPlace(t[k - 1]);
      ReadsFirst(t, k, radix, underscores);
      ReadsLongest(t[k..], radix, underscores);
      SpellsFirst(t, n, k, DigitValue(t[k - 1]), Digits(t[k..], radix, underscores), underscores);
    }
  }

  lemma FirstOfExtent(t: seq<byte>, radix: nat, underscores: bool)
    requires Extent(t, radix, underscores) > 0
    ensures IsDigit(t[0], radix)
            || (underscores && |t| > 1 && t[0] == UNDERSCORE && !IsDigit(t[0], radix) && IsDigit(t[1], radix))
  {
  }

  lemma SpellsFirst(t: seq<byte>, n: nat, k: nat, d: nat, ds: seq<nat>, underscores: bool)
    requires k <= n <= |t| && (k == 1 || (k == 2 && underscores && t[0] == UNDERSCORE))
    requires Writes(t[k - 1], d) && Spells(t[k..][..n - k], ds, underscores)
    ensures Spells(t[..n], [d] + ds, underscores)
  {
    hide Writes;
    assert t[..n][k..] == t[k..][..n - k] && ([d] + ds)[1..] == ds;
  }

  /** No longer one does. */
  lemma {:induction false} ReadsNoLess(t: seq<byte>, m: nat, ds: seq<nat>, radix: nat, underscores: bool)
    requires m <= |t| && radix <= 16 && Spells(t[..m], ds, underscores) && forall k :: 0 <= k < |ds| ==> ds[k] < radix
    ensures m <= Extent(t, radix, underscores) && ds <= Digits(t, radix, underscores)
    ensures m == |t| ==> Extent(t, radix, underscores) == m && Digits(t, radix, underscores) == ds
    decreases |t|
  {
    hide DigitValue, Writes;
    if m > 0 {
      var k := SpelledFirst(t, m, ds, underscores);
      DigitIsPlace(t[0]);
      DigitIsPlace(t[k - 1]);
      UnderscoreIsNone();
      ReadsNoLess(t[k..], m - k, ds[1..], radix, underscores);
      ReadsFirst(t, k, radix, underscores);
      hide Digits, Extent, Spells;
    }
  }

  lemma UnderscoreIsNone()
    ensures forall d: nat :: !Writes(UNDERSCORE, d)
  {
  }

  /** The first digit that is spelled ends behind `k` bytes. */
  lemma SpelledFirst(t: seq<byte>, m: nat, ds: seq<nat>, underscores: bool) returns (k: nat)
    requires 0 < m <= |t| && Spells(t[..m], ds, underscores)
    ensures ds != [] && (k == 1 || (k == 2 && underscores && t[0] == UNDERSCORE)) && k <= m
    ensures Writes(t[k - 1], ds[0]) && Spells(t[k..][..m - k], ds[1..], underscores)
  {
    hide Writes;
    var p := t[..m];
    k := if Writes(p[0], ds[0]) && Spells(p[1..], ds[1..], underscores) then 1 else 2;
    assert p[k..] == t[k..][..m - k] && p[0] == t[0] && p[k - 1] == t[k - 1];
  }

  /** What is read begins with it. */
  lemma ReadsFirst(t: seq<byte>, k: nat, radix: nat, underscores: bool)
    requires k == 1 || (k == 2 && underscores && |t| > 1 && t[0] == UNDERSCORE && !IsDigit(t[0], radix))
    requires k <= |t| && IsDigit(t[k - 1], radix)
    ensures Digits(t, radix, underscores) == [DigitValue(t[k - 1])] + Digits(t[k..], radix, underscores)
    ensures Extent(t, radix, underscores) == k + Extent(t[k..], radix, underscores)
  {
    hide DigitValue;
  }

  /** What is written down is read back, to its end, in small letters, in capital ones or in both,
      and with underscores where they are allowed. */
  lemma LiteralReads(t: seq<byte>, v: nat, radix: nat, underscores: bool)
    requires (radix == 8 || radix == 16) && Spells(t, DigitsOf(v, radix), underscores)
    ensures Extent(t, radix, underscores) == |t| && Number(t, radix, underscores) == v
  {
    assert t[..|t|] == t;
    ReadsNoLess(t, |t|, DigitsOf(v, radix), radix, underscores);
    ValueOfDigits(v, radix);
  }

  /** Without underscores a number reaches as far as its digits do. */
  lemma {:induction false} ExtentReaches(t: seq<byte>, m: nat, radix: nat)
    requires m < |t|
    ensures Extent(t, radix, false) > m <==> forall k :: 0 <= k <= m ==> IsDigit(t[k], radix)
  {
    if m > 0 {
      ExtentReaches(t[1..], m - 1, radix);
      assert IsDigit(t[0], radix) ==>
          ((forall k :: 0 <= k <= m ==> IsDigit(t[k], radix))
           <==> forall k :: 0 <= k <= m - 1 ==> IsDigit(t[1..][k], radix)) by {
        assert forall k :: 1 <= k <= m ==> t[k] == t[1..][k - 1];
      }
    }
  }

  /** How many bytes of `t` the scan looks at: those of the number, the one that ends it, and
      behind an underscore that ends it one more. */
  function Examined(t: seq<byte>, radix: nat, underscores: bool): (n: nat)
    ensures Extent(t, radix, underscores) <= n <= |t| && (t != [] ==> n > 0)
  {
    var n := Extent(t, radix, underscores);
    if n == |t| then n
    else if underscores && t[n] == UNDERSCORE && n + 1 < |t| then n + 2
    else n + 1
  }

  /** After `k` bytes of `t`: the value so far, unless it has become too large. */
  ghost predicate Under(t: seq<byte>, k: nat, value: nat, overflowed: bool, radix: nat, underscores: bool) {
    && k <= |t| && Extent(t, radix, underscores) == k + Extent(t[k..], radix, underscores)
    && (if overflowed then Number(t, radix, underscores) > UV_MAX
        else
          && value <= UV_MAX
          && Appended(value, Digits(t[k..], radix, underscores), radix) == Number(t, radix, underscores))
  }

  /** One digit more, at `j`, with or without an underscore in front. */
  lemma OneDigit(t: seq<byte>, k: nat, j: nat, value: nat, overflowed: bool, radix: nat, underscores: bool)
    requires Under(t, k, value, overflowed, radix, underscores) && (radix == 8 || radix == 16)
    requires k <= j < |t| && IsDigit(t[j], radix)
    requires j == k || (j == k + 1 && underscores && t[k] == UNDERSCORE)
    ensures !overflowed && value <= UV_MAX / radix ==>
              Under(t, j + 1, value * radix + DigitValue(t[j]), false, radix, underscores)
    ensures overflowed || value > UV_MAX / radix ==> Under(t, j + 1, value, true, radix, underscores)
  {
    hide Digits, Extent, Appended, Number, DigitValue;
    var ds := Digits(t[j + 1..], radix, underscores);
    FirstDigit(t, k, j, radix, underscores);
    AppendFirst(value, DigitValue(t[j]), ds, radix);
    TooLarge(value, DigitValue(t[j]), radix);
  }

  lemma FirstDigit(t: seq<byte>, k: nat, j: nat, radix: nat, underscores: bool)
    requires k <= j < |t| && IsDigit(t[j], radix)
    requires j == k || (j == k + 1 && underscores && t[k] == UNDERSCORE)
    ensures Digits(t[k..], radix, underscores) == [DigitValue(t[j])] + Digits(t[j + 1..], radix, underscores)
    ensures Extent(t[k..], radix, underscores) == j + 1 - k + Extent(t[j + 1..], radix, underscores)
  {
    var r := t[k..];
    assert r[1..] == t[k + 1..] && (j > k ==> r[2..] == t[k + 2..]);
  }

  lemma AppendFirst(v: nat, d: nat, ds: seq<nat>, radix: nat)
    requires radix > 0
    ensures Appended(v, [d] + ds, radix) == Appended(v * radix + d, ds, radix) >= v * radix + d
  {
    AppendedGrows(v * radix + d, ds, radix);
    assert ([d] + ds)[1..] == ds;
  }

  lemma TooLarge(v: nat, d: nat, radix: nat)
    requires radix == 8 || radix == 16
    ensures v > UV_MAX / radix <==> v * radix > UV_MAX
    ensures v <= UV_MAX / radix && d < radix ==> v * radix + d <= UV_MAX
    ensures v > UV_MAX ==> v * radix + d > UV_MAX
  {
    if radix == 8 {
      assert v * radix == v * 8;
    } else {
      assert v * radix == v * 16;
    }
  }

  /** Up to `len` bytes of a text from `start` on. */
  function Window(text: seq<byte>, start: nat, len: nat): seq<byte>
    requires start <= |text|
  {
    text[start..if start + len < |text| then start + len else |text|]
  }

  /** grok_oct and grok_hex: up to `len` bytes from `start`, in a text that a NUL ends. No byte
      from `looked` on is read. */
  method Grok(text: seq<byte>, start: nat, len: nat, radix: nat, underscores: bool)
      returns (value: nat, n: nat, ghost looked: nat)
    requires radix == 8 || radix == 16
    requires start < |text| && text[|text| - 1] == 0
    ensures start + n < |text|
    ensures var t := Window(text, start, len);
            && n == Extent(t, radix, underscores) && value == Capped(Number(t, radix, underscores))
            && looked == start + Examined(t, radix, underscores)
  {
    hide Under, Window, Extent, Examined, Number, Capped;
    ghost var t := Window(text, start, len);
    WindowIs(text, start, len);
    var s, left, overflowed := start, len, false;
    value, looked := 0, start;
    StartsUnder(t, radix, underscores);
    while left > 0 && text[s] != 0
      invariant start <= s < |text| && left == start + len - s && s - start <= |t| && looked == s
      invariant Under(t, s - start, value, overflowed, radix, underscores)
      decreases left
    {
      ghost var k := s - start;
      looked := s + 1;
      if !IsDigit(text[s], radix) {
        if text[s] == UNDERSCORE && left > 1 && underscores {
          looked := s + 2;
          if !IsDigit(text[s + 1], radix) {
            break;
          }
          s, left := s + 1, left - 1;
        } else {
          break;
        }
      }
      OneDigit(t, k, s - start, value, overflowed, radix, underscores);
      if !overflowed {
        if value <= UV_MAX / radix {
          value := value * radix + DigitValue(text[s]);
        } else {
          overflowed := true;
        }
      }
      s, left := s + 1, left - 1;
    }
    EndsUnder(t, s - start, value, overflowed, radix, underscores);
    LooksTo(t, s - start, radix, underscores);
    if left > 0 && text[s] == 0 {
      looked := s + 1;
    }
    n := s - start;
    if overflowed {
      value := UV_MAX;
    }
  }

  lemma WindowIs(text: seq<byte>, start: nat, len: nat)
    requires start <= |text|
    ensures var t := Window(text, start, len);
            && |t| == (if start + len < |text| then len else |text| - start)
            && forall i :: start <= i < start + |t| ==> t[i - start] == text[i]
  {
  }

  lemma LooksTo(t: seq<byte>, k: nat, radix: nat, underscores: bool)
    requires k == Extent(t, radix, underscores)
    ensures Examined(t, radix, underscores)
         == if k == |t| then k else if underscores && t[k] == UNDERSCORE && k + 1 < |t| then k + 2 else k + 1
  {
    hide Extent;
  }

  lemma StartsUnder(t: seq<byte>, radix: nat, underscores: bool)
    ensures Under(t, 0, 0, false, radix, underscores)
  {
    assert t[0..] == t;
  }

  /** The scan stops where no number goes on. */
  lemma EndsUnder(t: seq<byte>, k: nat, value: nat, overflowed: bool, radix: nat, underscores: bool)
    requires Under(t, k, value, overflowed, radix, underscores)
    requires k == |t|
             || (!IsDigit(t[k], radix)
                 && !(underscores && t[k] == UNDERSCORE && k + 1 < |t| && IsDigit(t[k + 1], radix)))
    ensures k == Extent(t, radix, underscores)
    ensures Capped(Number(t, radix, underscores)) == if overflowed then UV_MAX else value
  {
  }
}
