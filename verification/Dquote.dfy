/** The escapes \o{...}, \x{...} and \xHH of dquote.c, and the promise that lets callers write
    their result over the escape: its UTF-8 needs no more bytes than the escape itself. */
module Dquote {
  import opened Bits
  import opened Numeric
  import Utf8

  const LBRACE: byte := 0x7B
  const RBRACE: byte := 0x7D
  const BACKSLASH: byte := 0x5C
  const SMALL_O: byte := 0x6F
  const SMALL_X: byte := 0x78

  /** `*uv` if the parser returns TRUE, `*error_msg` if it returns FALSE. */
  datatype Result = Ok(uv: nat) | Error(message: string)

  // ----- The promise -----

  lemma PowValues()
    ensures Pow(16, 2) == 0x100 && Pow(16, 8) == 0x1_0000_0000 && Pow(8, 2) == 64
  {
    assert Pow(16, 1) == 16 && Pow(16, 2) == 256 && Pow(16, 3) == 0x1000 && Pow(16, 4) == 0x1_0000;
    assert Pow(16, 5) == 0x10_0000 && Pow(16, 6) == 0x100_0000 && Pow(16, 7) == 0x1000_0000;
  }

  lemma {:induction false} PowGrows(radix: nat, m: nat, n: nat)
    requires radix > 0 && m <= n
    ensures Pow(radix, m) <= Pow(radix, n)
    decreases n
  {
    if m < n {
      PowGrows(radix, m, n - 1);
      TimesGrows(Pow(radix, n - 1), radix);
    }
  }

  lemma TimesGrows(x: nat, radix: nat)
    requires radix > 0
    ensures x * radix >= x
  {
  }

  lemma {:induction false} OctalBelowHex(n: nat)
    ensures Pow(8, n) <= Pow(16, n)
  {
    if n > 0 {
      OctalBelowHex(n - 1);
    }
  }

  /** What the digits of a number of `n` bytes come to needs at most `n` bytes and the four that
      stand around the number in braces; two digits alone need at most two. */
  lemma NumberFits(t: seq<byte>, radix: nat, underscores: bool)
    requires radix == 8 || radix == 16
    ensures Utf8.Skip(Capped(Number(t, radix, underscores))) <= |t| + 4
    ensures |t| <= 2 ==> Number(t, radix, underscores) < 0x100
  {
    var ds := Digits(t, radix, underscores);
    AppendedBelow(ds, radix);
    PowGrows(radix, |ds|, |t|);
    OctalBelowHex(|t|);
    PowValues();
    if |t| <= 2 {
      PowGrows(16, |t|, 2);
    } else if |t| <= 8 {
      PowGrows(16, |t|, 8);
    }
  }

  // ----- The limit -----

  /** How many digits lie at `i`, however far they go. */
  function DigitRun(text: seq<byte>, i: nat, radix: nat): (n: nat)
    requires i <= |text|
    ensures i + n <= |text|
    decreases |text| - i
  {
    if i == |text| || !IsDigit(text[i], radix) then 0 else 1 + DigitRun(text, i + 1, radix)
  }

  /** The digits of an x without a brace: the scan looks at `send` or beyond exactly if it may
      go that far and finds nothing but digits before. */
  lemma TwoLookPast(text: seq<byte>, open: nat, send: nat, len: nat)
    requires open < send < |text|
    ensures open + Examined(Window(text, open, len), 16, false) > send
            <==> send < open + len && forall k :: open <= k < send ==> IsDigit(text[k], 16)
  {
    var t := Window(text, open, len);
    if send < open + len {
      ExtentReaches(t, send - open - 1, 16);
      assert forall k :: open <= k < send ==> text[k] == t[k - open];
      assert forall k :: 0 <= k < send - open ==> t[k] == text[open + k];
    }
  }

  /** The search for the end of the digits where the right brace is missing: it looks at `send`
      exactly if everything behind the left brace is digits, if there is anything. */
  lemma {:induction false} RunLooksPast(text: seq<byte>, from: nat, send: nat, radix: nat)
    requires from <= send < |text|
    ensures from + DigitRun(text, from, radix) + 1 > send <==> forall k :: from <= k < send ==> IsDigit(text[k], radix)
    decreases send - from
  {
    if from < send {
      RunLooksPast(text, from + 1, send, radix);
    }
  }

  /** \x4 at the end of the string: the NUL behind it is read. */
  lemma TwoLookPastEnd()
    ensures var text: seq<byte> := [BACKSLASH, SMALL_X, 0x34, 0];
            2 + Examined(Window(text, 2, 2), 16, false) > 3
  {
    TwoLookPast([BACKSLASH, SMALL_X, 0x34, 0], 2, 3, 2);
  }

  /** \x41 with the end of the string between its digits: the second one is even used. */
  lemma TwoTakePastEnd()
    ensures var text: seq<byte> := [BACKSLASH, SMALL_X, 0x34, 0x31, 0];
            2 + Extent(Window(text, 2, 2), 16, false) > 3
  {
    var text: seq<byte> := [BACKSLASH, SMALL_X, 0x34, 0x31, 0];
    ExtentReaches(Window(text, 2, 2), 1, 16);
  }

  /** \o{4 and \x{4 at the end of the string: the NUL behind the digit is read. */
  lemma RunLooksPastEnd(radix: nat)
    requires radix == 8 || radix == 16
    ensures var text: seq<byte> := [BACKSLASH, if radix == 8 then SMALL_O else SMALL_X, LBRACE, 0x34, 0];
            3 + DigitRun(text, 3, radix) + 1 > 4
  {
    RunLooksPast([BACKSLASH, if radix == 8 then SMALL_O else SMALL_X, LBRACE, 0x34, 0], 3, 4, radix);
  }

  // ----- The parsers -----

  /** The text that is parsed: a NUL lies at or behind `send`. */
  class Lexer {
    const text: seq<byte>
    const send: nat
    /** The cursor `*s` */
    var s: nat
    /** No byte from here on has been read. */
    ghost var looked: nat

    ghost predicate Valid()
      reads this
    {
      send < |text| && text[|text| - 1] == 0
    }

    constructor (text: seq<byte>, send: nat, s: nat)
      requires send < |text| && text[|text| - 1] == 0
      ensures this.text == text && this.send == send && this.s == s && looked == 0 && Valid()
    {
      this.text, this.send, this.s, looked := text, send, s, 0;
    }

    /** A byte is read. */
    ghost method Look(i: nat)
      modifies this`looked
      ensures looked == if i < old(looked) then old(looked) else i + 1
    {
      looked := if i < looked then looked else i + 1;
    }

    /** Where the first right brace lies, or `send` if there is none. */
    function Closing(from: nat): (e: nat)
      requires from <= send < |text|
      ensures from <= e <= send
      ensures forall k :: from <= k < e ==> text[k] != RBRACE
      ensures e < send ==> text[e] == RBRACE
      decreases send - from
    {
      if from == send || text[from] == RBRACE then from else Closing(from + 1)
    }

    /** memchr */
    method FindClosing(from: nat) returns (e: nat)
      requires Valid() && from <= send && looked <= send
      modifies this`looked
      ensures e == Closing(from) && looked <= send
    {
      e := from;
      while e < send && text[e] != RBRACE
        invariant from <= e <= send && Closing(e) == Closing(from) && looked <= send
      {
        Look(e);
        e := e + 1;
      }
      if e < send {
        Look(e);
      }
    }

    /** The search for the end of the digits. */
    method SkipDigits(radix: nat)
      requires Valid() && s <= send && looked <= send
      modifies this
      ensures s == old(s) + DigitRun(text, old(s), radix)
      ensures looked > send <==> forall k :: old(s) <= k < send ==> IsDigit(text[k], radix)
    {
      RunLooksPast(text, s, send, radix);
      Look(s);
      while IsDigit(text[s], radix)
        invariant s < |text| && s + DigitRun(text, s, radix) == old(s) + DigitRun(text, old(s), radix)
        invariant old(s) <= s && looked == if s < old(looked) then old(looked) else s + 1
        decreases |text| - s
      {
        s := s + 1;
        Look(s);
      }
    }

    /** UTF8_SAFE_SKIP, or one byte in text that is not UTF-8. */
    function BadCharacter(i: nat, utf8: bool): nat
      requires i < |text|
    {
      if !utf8 then 1 else if send <= i then 0
      else if Utf8.SkipOf(text[i]) < send - i then Utf8.SkipOf(text[i]) else send - i
    }

    /** The character that is complained about is skipped as a whole, but not beyond the end. */
    lemma BadCharacterIs(i: nat, utf8: bool)
      requires i < |text|
      ensures !utf8 ==> BadCharacter(i, utf8) == 1
      ensures utf8 && i >= send ==> BadCharacter(i, utf8) == 0
      ensures utf8 && i < send ==>
                var n := Utf8.SkipOf(text[i]);
                BadCharacter(i, utf8) == if i + n <= send then n else send - i
    {
    }

    /** UTF8_SAFE_SKIP reads no byte at or beyond the end. */
    method SkipBad(utf8: bool)
      requires Valid() && s < |text| && (looked > send ==> s <= send)
      modifies this
      ensures s == old(s) + BadCharacter(old(s), utf8)
      ensures looked > send <==> old(looked) > send
    {
      if utf8 && s < send {
        Look(s);
      }
      s := s + BadCharacter(s, utf8);
    }

    /** A brace lies at `open`. */
    predicate Opens(open: nat) {
      open < send < |text| && text[open] == LBRACE
    }

    /** What lies between the brace at `open` and the first right brace behind it. */
    function Inside(open: nat): seq<byte>
      requires Opens(open) && Closing(open) < send
    {
      text[open + 1..Closing(open)]
    }

    /** Nothing but digits lies behind `open`, up to the end. */
    predicate DigitsOnly(open: nat, radix: nat)
      requires send < |text|
    {
      forall k :: open < k < send ==> IsDigit(text[k], radix)
    }

    /** The end of both parsers: the cursor is behind the left brace, and `e` is where the right
        one lies. */
    method GrokInside(e: nat, radix: nat, complaint: string, strict: bool, utf8: bool) returns (r: Result)
      requires Valid() && s < e < send && (radix == 8 || radix == 16) && looked <= send
      modifies this
      ensures r.Ok? ==> r.uv <= UV_MAX && Utf8.Skip(r.uv) <= s - old(s) + 3
      ensures looked <= send
      ensures var n := Extent(text[old(s)..e], radix, true);
              if strict && n < e - old(s) then
                r == Error(complaint) && s == old(s) + n + BadCharacter(old(s) + n, utf8)
              else r == Ok(Capped(Number(text[old(s)..e], radix, true))) && s == e + 1
    {
      hide Extent, Number, IsDigit, Capped, BadCharacter, Utf8.Skip, Examined;
      var uv, n, last := Grok(text, s, e - s, radix, true);
      if last > s {
        Look(last - 1);
      }
      NumberFits(text[s..e], radix, true);
      if strict && n != e - s {
        s := s + n;
        SkipBad(utf8);
        return Error(complaint);
      }
      s := e + 1;
      r := Ok(uv);
    }

    /** grok_bslash_o: the cursor is on the o. */
    method GrokBslashO(strict: bool, utf8: bool) returns (r: Result)
      requires Valid() && 0 < s < send && text[s - 1] == BACKSLASH && text[s] == SMALL_O && looked <= send
      modifies this
      // The promise: the result fits into the bytes from the backslash to the cursor.
      ensures r.Ok? ==> r.uv <= UV_MAX && Utf8.Skip(r.uv) <= s - (old(s) - 1)
      // The limit is passed exactly where a right brace is missing behind digits.
      ensures looked > send <==> Opens(old(s) + 1) && Closing(old(s) + 1) == send && DigitsOnly(old(s) + 1, 8)
      ensures var open := old(s) + 1;
              if !Opens(open) then r == Error("Missing braces on \\o{}") && s == open
              else if Closing(open) == send then
                r == Error("Missing right brace on \\o{") && s == open + 1 + DigitRun(text, open + 1, 8)
              else if Inside(open) == [] then r == Error("Empty \\o{}") && s == Closing(open) + 1
              else
                var n := Extent(Inside(open), 8, true);
                if strict && n < |Inside(open)| then
                  r == Error("Non-octal character") && s == open + 1 + n + BadCharacter(open + 1 + n, utf8)
                else r == Ok(Capped(Number(Inside(open), 8, true))) && s == Closing(open) + 1
    {
      hide Extent, Number, IsDigit, Capped, BadCharacter, DigitRun, Utf8.Skip;
      s := s + 1;
      if send <= s {
        return Error("Missing braces on \\o{}");
      }
      Look(s);
      if text[s] != LBRACE {
        return Error("Missing braces on \\o{}");
      }
      var e := FindClosing(s);
      if e == send {
        s := s + 1;
        SkipDigits(8);
        return Error("Missing right brace on \\o{");
      }
      s := s + 1;
      if e - s == 0 {
        s := s + 1;
        return Error("Empty \\o{}");
      }
      r := GrokInside(e, 8, "Non-octal character", strict, utf8);
    }

    /** An x without a brace whose digits reach the end. */
    predicate TwoReach(open: nat, strict: bool)
      requires open < send < |text|
    {
      send < open + (if strict then 3 else 2) && forall k :: open <= k < send ==> IsDigit(text[k], 16)
    }

    /** What the parsers look for, byte by byte: a left brace before the end; digits up to the end
        behind it; or, without a brace, a scan that may reach the end and does. */
    lemma LimitIs(open: nat, radix: nat, strict: bool)
      requires Valid() && radix <= 16
      ensures Opens(open) <==> open < send && text[open] == '{' as int
      ensures open <= send ==> forall k :: open <= k < Closing(open) ==> text[k] != '}' as int
      ensures open <= send ==> Closing(open) == send || text[Closing(open)] == '}' as int
      ensures DigitsOnly(open, radix) <==> forall k :: open < k < send ==> WritesDigit(text[k], radix)
      ensures open < send ==>
                (TwoReach(open, strict)
                 <==> open + Examined(Window(text, open, if strict then 3 else 2), 16, false) > send)
    {
      forall k | open < k < send
        ensures IsDigit(text[k], radix) <==> WritesDigit(text[k], radix)
      {
        DigitIsWritten(text[k], radix);
      }
      if open < send {
        TwoLookPast(text, open, send, if strict then 3 else 2);
      }
      hide Examined, WritesDigit, IsDigit;
    }

    /** grok_bslash_x: the cursor is on the x. */
    method GrokBslashX(strict: bool, utf8: bool) returns (r: Result)
      requires Valid() && 0 < s < send && text[s - 1] == BACKSLASH && text[s] == SMALL_X && looked <= send
      modifies this
      // The promise: the result fits into the bytes from the backslash to the cursor.
      ensures r.Ok? ==> r.uv <= UV_MAX && Utf8.Skip(r.uv) <= s - (old(s) - 1)
      // The limit is passed exactly where digits without a brace reach it, or a right brace is
      // missing behind digits.
      ensures var open := old(s) + 1;
              looked > send <==>
                && open < send
                && (if Opens(open) then Closing(open) == send && DigitsOnly(open, 16) else TwoReach(open, strict))
      ensures var open := old(s) + 1;
              if open == send then r == (if strict then Error("Empty \\x") else Ok(0)) && s == open
              else if !Opens(open) then
                var n := Extent(Window(text, open, if strict then 3 else 2), 16, false);
                if strict && n < 2 then
                  r == Error("Non-hex character") && s == open + n + BadCharacter(open + n, utf8)
                else if n == 3 then r == Error("Use \\x{...} for more than two hex characters") && s == open + n
                else r == Ok(Number(Window(text, open, 2), 16, false)) && s == open + n
              else if Closing(open) == send then
                r == Error("Missing right brace on \\x{}") && s == open + 1 + DigitRun(text, open + 1, 16)
              else if Inside(open) == [] then
                r == (if strict then Error("Empty \\x{}") else Ok(0)) && s == Closing(open) + 1
              else
                var n := Extent(Inside(open), 16, true);
                if strict && n < |Inside(open)| then
                  r == Error("Non-hex character") && s == open + 1 + n + BadCharacter(open + 1 + n, utf8)
                else r == Ok(Capped(Number(Inside(open), 16, true))) && s == Closing(open) + 1
    {
      hide Extent, Number, IsDigit, Capped, BadCharacter, DigitRun, Window, DigitValue, TwoReach, Examined;
      hide Inside, Closing, DigitsOnly;
      s := s + 1;
      if send <= s {
        return if strict then Error("Empty \\x") else Ok(0);
      }
      Look(s);
      if text[s] != LBRACE {
        r := GrokTwo(strict, utf8);
        return;
      }
      r := GrokBraces(strict, utf8);
    }

    /** The part of grok_bslash_x for an x with a brace, on which the cursor is. */
    method GrokBraces(strict: bool, utf8: bool) returns (r: Result)
      requires Valid() && s < send && text[s] == LBRACE && looked <= send
      modifies this
      ensures r.Ok? ==> r.uv <= UV_MAX && Utf8.Skip(r.uv) <= s - old(s) + 2
      ensures looked > send <==> Closing(old(s)) == send && DigitsOnly(old(s), 16)
      ensures var open := old(s);
              if Closing(open) == send then
                r == Error("Missing right brace on \\x{}") && s == open + 1 + DigitRun(text, open + 1, 16)
              else if Inside(open) == [] then
                r == (if strict then Error("Empty \\x{}") else Ok(0)) && s == Closing(open) + 1
              else
                var n := Extent(Inside(open), 16, true);
                if strict && n < |Inside(open)| then
                  r == Error("Non-hex character") && s == open + 1 + n + BadCharacter(open + 1 + n, utf8)
                else r == Ok(Capped(Number(Inside(open), 16, true))) && s == Closing(open) + 1
    {
      hide Extent, Number, IsDigit, Capped, BadCharacter, DigitRun, Window, DigitValue, Examined;
      ghost var open := s;
      var e := FindClosing(s);
      if e == send {
        s := s + 1;
        SkipDigits(16);
        return Error("Missing right brace on \\x{}");
      }
      s := s + 1;
      if e - s == 0 {
        s := e + 1;
        return if strict then Error("Empty \\x{}") else Ok(0);
      }
      assert text[s..e] == Inside(open) && |Inside(open)| == e - s;
      hide Inside, Closing, DigitsOnly, Utf8.Skip;
      r := GrokInside(e, 16, "Non-hex character", strict, utf8);
    }

    /** The part of grok_bslash_x for an x without a brace, with the cursor behind the x. */
    method GrokTwo(strict: bool, utf8: bool) returns (r: Result)
      requires Valid() && s < send && looked <= send
      modifies this
      ensures r.Ok? ==> r.uv <= UV_MAX && Utf8.Skip(r.uv) <= s - old(s) + 2
      ensures looked > send <==> TwoReach(old(s), strict)
      ensures var n := Extent(Window(text, old(s), if strict then 3 else 2), 16, false);
              if strict && n < 2 then
                r == Error("Non-hex character") && s == old(s) + n + BadCharacter(old(s) + n, utf8)
              else if n == 3 then r == Error("Use \\x{...} for more than two hex characters") && s == old(s) + n
              else r == Ok(Number(Window(text, old(s), 2), 16, false)) && s == old(s) + n
    {
      hide Extent, Number, IsDigit, BadCharacter, Examined;
      TwoLookPast(text, s, send, if strict then 3 else 2);
      var uv, n, last := Grok(text, s, if strict then 3 else 2, 16, false);
      Look(last - 1);
      NumberFits(Window(text, s, 2), 16, false);
      if strict && n == 2 {
        SameNumber(s);
      }
      s := s + n;
      if strict && n != 2 {
        if n < 2 {
          SkipBad(utf8);
          return Error("Non-hex character");
        }
        return Error("Use \\x{...} for more than two hex characters");
      }
      r := Ok(uv);
    }

    /** A third byte that is no digit makes no difference. */
    lemma SameNumber(i: nat)
      requires i < |text| && Extent(Window(text, i, 3), 16, false) == 2
      ensures Number(Window(text, i, 3), 16, false) == Number(Window(text, i, 2), 16, false)
    {
      var a := Window(text, i, 3);
      DigitsOfPrefix(a, 2, 16);
      assert a[..2] == Window(text, i, 2);
      assert Digits(a, 16, false)[..2] == Digits(a, 16, false);
    }
  }
}
