/** do_vop: the operators &, | and ^ on strings. */
module BitString {
  import opened Bits
  import opened Common
  import opened Utf8
  import opened PerlString
  import opened TransUtf8
  import opened Trans

  // ----- Meaning -----

  function PointAt(s: seq<Point>, i: nat): Point {
    if i < |s| then s[i] else 0
  }

  function PointOp(op: BitOp, a: Point, b: Point): Point {
    Pow2Of64();
    BitwiseBound(op, a, b, 64);
    Bitwise(op, a, b)
  }

  /** Character by character, the shorter operand going on with zeros; the result of & is as
      long as the shorter operand, that of | and ^ as the longer. */
  function Meaning(op: BitOp, a: seq<Point>, b: seq<Point>): (r: seq<Point>)
    ensures |r| == if op.And? == (|a| < |b|) then |a| else |b|
    ensures forall i :: 0 <= i < |r| ==> r[i] == PointOp(op, PointAt(a, i), PointAt(b, i))
  {
    seq<Point>(if op.And? == (|a| < |b|) then |a| else |b|,
               i requires i >= 0 => PointOp(op, PointAt(a, i), PointAt(b, i)))
  }

  /** Bit by bit: both, one or the other, or exactly one of them. */
  lemma ResultBits(op: BitOp, a: seq<Point>, b: seq<Point>, i: nat, k: nat)
    requires i < |Meaning(op, a, b)|
    ensures var x, y := i < |a| && Bit(a[i], k), i < |b| && Bit(b[i], k);
            Bit(Meaning(op, a, b)[i], k) == match op case And => x && y case Or => x || y case Xor => x != y
  {
    BitwiseBit(op, PointAt(a, i), PointAt(b, i), k);
    BitOfZero(k);
  }

  /** How many characters at the start of a string fit in a byte. */
  function LowPrefix(s: seq<Point>): (n: nat)
    ensures n <= |s| && (forall i :: 0 <= i < n ==> s[i] < 0x100) && (n < |s| ==> s[n] >= 0x100)
  {
    if s == [] || s[0] >= 0x100 then 0 else 1 + LowPrefix(s[1..])
  }

  /** No character of `a` is above 0xFF, and none of `b` where `a` has one too. */
  predicate LowWith(a: seq<Point>, b: seq<Point>) {
    && (forall i :: 0 <= i < |a| ==> a[i] < 0x100)
    && (forall i :: 0 <= i < |a| && i < |b| ==> b[i] < 0x100)
  }

  /** Characters above 0xFF are in one operand at most, and there only past the end of the other. */
  predicate Defined(a: seq<Point>, b: seq<Point>) {
    LowWith(a, b) || LowWith(b, a)
  }

  lemma {:induction false} WithZero(op: BitOp, x: nat)
    ensures Bitwise(op, x, 0) == Bitwise(op, 0, x) == if op.And? then 0 else x
  {
    if x > 0 {
      WithZero(op, x / 2);
    }
  }

  function ByteOp(op: BitOp, a: byte, b: byte): byte {
    Pow2Of8();
    BitwiseBound(op, a, b, 8);
    Bitwise(op, a, b)
  }

  // ----- Words -----

  function Reversed(s: seq<byte>): (r: seq<byte>)
    ensures |r| == |s| && forall i :: 0 <= i < |s| ==> r[i] == s[|s| - 1 - i]
  {
    seq<byte>(|s|, i requires 0 <= i < |s| => s[|s| - 1 - i])
  }

  /** The word that bytes in memory stand for, in either byte order. */
  function Load(s: seq<byte>, little: bool): nat {
    BigEndian(if little then Reversed(s) else s)
  }

  /** The lowest `w` bytes of a number, highest first. */
  function ToBytes(x: nat, w: nat): (r: seq<byte>)
    ensures |r| == w
  {
    if w == 0 then [] else ToBytes(x / 256, w - 1) + [x % 256]
  }

  function Stored(x: nat, w: nat, little: bool): (r: seq<byte>)
    ensures |r| == w
  {
    if little then Reversed(ToBytes(x, w)) else ToBytes(x, w)
  }

  /** `h` followed by `n` bits of `l`. */
  function Cat(h: nat, l: nat, n: nat): nat { h * Pow2(n) + l }

  lemma CatStep(h: nat, l: nat, n: nat)
    requires n > 0
    ensures Cat(h, l, n) == 2 * Cat(h, l / 2, n - 1) + l % 2
  {
    var m := Pow2(n - 1);
    assert h * (2 * m) == 2 * (h * m);
  }

  lemma {:induction false} BitwiseSplit(op: BitOp, h: nat, l: nat, h': nat, l': nat, n: nat)
    requires l < Pow2(n) && l' < Pow2(n)
    ensures Bitwise(op, Cat(h, l, n), Cat(h', l', n)) == Cat(Bitwise(op, h, h'), Bitwise(op, l, l'), n)
  {
    if n > 0 {
      BitwiseSplit(op, h, l / 2, h', l' / 2, n - 1);
      CatStep(h, l, n);
      CatStep(h', l', n);
      CatStep(Bitwise(op, h, h'), Bitwise(op, l, l'), n);
      HalfStep(op, Cat(h, l, n), Cat(h', l', n));
      HalfStep(op, l, l');
      hide Bitwise, Cat, Pow2;
    }
  }

  lemma HalfStep(op: BitOp, x: nat, y: nat)
    ensures Bitwise(op, x, y) == 2 * Bitwise(op, x / 2, y / 2) + BoolVal(Apply(op, x % 2 == 1, y % 2 == 1))
  {
  }

  function PointwiseOp(op: BitOp, a: seq<byte>, b: seq<byte>): (r: seq<byte>)
    requires |a| == |b|
    ensures |r| == |a| && forall i :: 0 <= i < |a| ==> r[i] == ByteOp(op, a[i], b[i])
  {
    seq<byte>(|a|, i requires 0 <= i < |a| => ByteOp(op, a[i], b[i]))
  }

  lemma {:induction false} BigEndianOp(op: BitOp, a: seq<byte>, b: seq<byte>)
    requires |a| == |b|
    ensures ToBytes(Bitwise(op, BigEndian(a), BigEndian(b)), |a|) == PointwiseOp(op, a, b)
  {
    if a != [] {
      var n := |a| - 1;
      var a', b' := a[..n], b[..n];
      BigEndianOp(op, a', b');
      BigEndianStep(a);
      BigEndianStep(b);
      Pow2Of8();
      BitwiseSplit(op, BigEndian(a'), a[n], BigEndian(b'), b[n], 8);
      var hi, lo := Bitwise(op, BigEndian(a'), BigEndian(b')), ByteOp(op, a[n], b[n]);
      ToBytesStep(hi, lo, n);
      PointwiseStep(op, a, b);
      hide Bitwise, BigEndian, ToBytes, PointwiseOp;
    }
  }

  lemma BigEndianStep(s: seq<byte>)
    requires s != []
    ensures BigEndian(s) == Cat(BigEndian(s[..|s| - 1]), s[|s| - 1], 8)
  {
    Pow2Of8();
  }

  lemma PointwiseStep(op: BitOp, a: seq<byte>, b: seq<byte>)
    requires |a| == |b| && a != []
    ensures var n := |a| - 1;
            PointwiseOp(op, a, b) == PointwiseOp(op, a[..n], b[..n]) + [ByteOp(op, a[n], b[n])]
  {
  }

  lemma ToBytesStep(hi: nat, lo: byte, w: nat)
    ensures ToBytes(Cat(hi, lo, 8), w + 1) == ToBytes(hi, w) + [lo]
  {
    Pow2Of8();
    assert (hi * 256 + lo) / 256 == hi && (hi * 256 + lo) % 256 == lo;
  }

  /** An operator on words does to the bytes in memory what it does to bytes, in either byte
      order and for words of any size. */
  lemma WordOp(op: BitOp, a: seq<byte>, b: seq<byte>, little: bool)
    requires |a| == |b|
    ensures Stored(Bitwise(op, Load(a, little), Load(b, little)), |a|, little) == PointwiseOp(op, a, b)
  {
    if little {
      BigEndianOp(op, Reversed(a), Reversed(b));
      assert Reversed(PointwiseOp(op, Reversed(a), Reversed(b))) == PointwiseOp(op, a, b);
    } else {
      BigEndianOp(op, a, b);
    }
  }

  // ----- The loops -----

  /** `*dl++ = *ll++ op *rl++` on words of `w` bytes. The buffers may be the same. */
  method WordStep(op: BitOp, d: array<byte>, l: array<byte>, r: array<byte>, i: nat, w: nat, little: bool)
    requires i + w <= d.Length && i + w <= l.Length && i + w <= r.Length
    modifies d
    ensures forall k :: 0 <= k < d.Length ==>
              d[k] == if i <= k < i + w then ByteOp(op, old(l[k]), old(r[k])) else old(d[k])
  {
    hide Stored, Load, Bitwise, ByteOp;
    var a, b := l[i..i + w], r[i..i + w];
    var word := Stored(Bitwise(op, Load(a, little), Load(b, little)), w, little);
    forall k | i <= k < i + w
      ensures word[k - i] == ByteOp(op, l[k], r[k])
    {
      WordAt(op, a, b, little, k - i);
      assert a[k - i] == l[k] && b[k - i] == r[k];
    }
    forall k | i <= k < i + w {
      d[k] := word[k - i];
    }
  }

  lemma WordAt(op: BitOp, a: seq<byte>, b: seq<byte>, little: bool, k: nat)
    requires k < |a| == |b|
    ensures Stored(Bitwise(op, Load(a, little), Load(b, little)), |a|, little)[k] == ByteOp(op, a[k], b[k])
  {
    hide Stored, Load, Bitwise, ByteOp;
    WordOp(op, a, b, little);
  }

  /** The loops of do_vop over the first `len` bytes of both operands: four words at a time if
      everything is aligned to words of `w` bytes and long enough, then byte by byte. */
  method Combine(op: BitOp, d: array<byte>, l: array<byte>, r: array<byte>, len: nat,
                 aligned: bool, w: nat, little: bool)
    requires len <= d.Length && len <= l.Length && len <= r.Length && w > 0
    modifies d
    ensures forall k :: 0 <= k < d.Length ==>
              d[k] == if k < len then ByteOp(op, old(l[k]), old(r[k])) else old(d[k])
  {
    hide ByteOp;
    var done := 0;
    if len >= w * 4 && aligned {
      done := Words(op, d, l, r, len, w, little);
    }
    while done < len
      invariant done <= len
      invariant Halfway(op, d, l, r, old(d[..]), old(l[..]), old(r[..]), done)
    {
      d[done] := ByteOp(op, l[done], r[done]);
      done := done + 1;
    }
  }

  /** The first `done` bytes are combined; everything else is as it was. */
  ghost predicate Halfway(op: BitOp, d: array<byte>, l: array<byte>, r: array<byte>,
                          d0: seq<byte>, l0: seq<byte>, r0: seq<byte>, done: nat)
    reads d, l, r
    requires |d0| == d.Length && |l0| == l.Length && |r0| == r.Length
    requires done <= |d0| && done <= |l0| && done <= |r0|
  {
    && (forall k :: 0 <= k < |d0| ==> d[k] == if k < done then ByteOp(op, l0[k], r0[k]) else d0[k])
    && (forall k :: done <= k < |l0| ==> l[k] == l0[k])
    && (forall k :: done <= k < |r0| ==> r[k] == r0[k])
  }

  method Words(op: BitOp, d: array<byte>, l: array<byte>, r: array<byte>, len: nat, w: nat, little: bool)
      returns (done: nat)
    requires len <= d.Length && len <= l.Length && len <= r.Length && w > 0
    modifies d
    ensures done <= len && Halfway(op, d, l, r, old(d[..]), old(l[..]), old(r[..]), done)
  {
    hide ByteOp, Halfway, Rounds, RoomFor;
    var left := Rounds(len, w * 4);
    done := 0;
    Untouched(op, d, l, r);
    RoundsFit(len, w * 4);
    while left > 0
      invariant done <= len && RoomFor(left, w * 4, len - done)
      invariant Halfway(op, d, l, r, old(d[..]), old(l[..]), old(r[..]), done)
    {
      OneRoundFits(left, w * 4, len - done);
      done := FourWords(op, d, l, r, done, w, little, old(d[..]), old(l[..]), old(r[..]));
      left := left - 1;
    }
  }

  function Rounds(len: nat, size: nat): nat
    requires size > 0
  {
    len / size
  }

  predicate RoomFor(rounds: nat, size: nat, len: int) {
    rounds * size <= len
  }

  lemma RoundsFit(len: nat, size: nat)
    requires size > 0
    ensures RoomFor(Rounds(len, size), size, len)
  {
  }

  lemma OneRoundFits(rounds: nat, size: nat, len: int)
    requires rounds > 0 && RoomFor(rounds, size, len)
    ensures size <= len && RoomFor(rounds - 1, size, len - size)
  {
    MulMonotone(0, rounds - 1, size);
    assert rounds * size == (rounds - 1) * size + size;
  }

  lemma Untouched(op: BitOp, d: array<byte>, l: array<byte>, r: array<byte>)
    ensures Halfway(op, d, l, r, d[..], l[..], r[..], 0)
  {
  }

  method FourWords(op: BitOp, d: array<byte>, l: array<byte>, r: array<byte>, i: nat, w: nat, little: bool,
                   ghost d0: seq<byte>, ghost l0: seq<byte>, ghost r0: seq<byte>) returns (done: nat)
    requires |d0| == d.Length && |l0| == l.Length && |r0| == r.Length
    requires i + w * 4 <= d.Length && i + w * 4 <= l.Length && i + w * 4 <= r.Length
    requires Halfway(op, d, l, r, d0, l0, r0, i)
    modifies d
    ensures done == i + w * 4 && Halfway(op, d, l, r, d0, l0, r0, done)
  {
    hide ByteOp, Halfway;
    done := OneWord(op, d, l, r, i, w, little, d0, l0, r0);
    done := OneWord(op, d, l, r, done, w, little, d0, l0, r0);
    done := OneWord(op, d, l, r, done, w, little, d0, l0, r0);
    done := OneWord(op, d, l, r, done, w, little, d0, l0, r0);
  }

  method OneWord(op: BitOp, d: array<byte>, l: array<byte>, r: array<byte>, i: nat, w: nat, little: bool,
                 ghost d0: seq<byte>, ghost l0: seq<byte>, ghost r0: seq<byte>) returns (done: nat)
    requires |d0| == d.Length && |l0| == l.Length && |r0| == r.Length
    requires i + w <= d.Length && i + w <= l.Length && i + w <= r.Length
    requires Halfway(op, d, l, r, d0, l0, r0, i)
    modifies d
    ensures done == i + w && Halfway(op, d, l, r, d0, l0, r0, done)
  {
    hide ByteOp;
    WordStep(op, d, l, r, i, w, little);
    done := i + w;
  }

  // ----- do_vop -----

  /** Either the result, and whether it is UTF-8; or the complaint about a code point above 0xFF
      where the operands meet; or the end of the left operand is read from a block that has been
      freed. */
  datatype Outcome = Done(isUtf8: bool) | AboveFF | Freed

  /** An operand: its characters that fit in bytes, up to the first that does not, as `len` bytes,
      and the place in the string's own buffer from which on it is not converted. */
  datatype Operand = Operand(bytes: array<byte>, len: nat, buf: array<byte>, at: nat, end: nat) {
    predicate More() { at < end }

    ghost predicate Holds(pts: seq<Point>)
      reads bytes, buf
    {
      && len == LowPrefix(pts) <= bytes.Length && len <= at <= end < buf.Length
      && (forall k :: 0 <= k < len ==> bytes[k] == pts[k])
      && buf[at..end] == EncodeAll(pts[len..]) && (More() <==> len < |pts|)
    }
  }

  ghost predicate Downgraded(sv: Buffer, isUtf8: bool, o: Operand, pts: seq<Point>)
    reads sv, o.bytes, o.buf
  {
    && o.Holds(pts) && o.buf == sv.buf && o.end == sv.cur
    && if isUtf8 then o.at == |EncodeAll(pts[..o.len])| else o.bytes == sv.buf && o.len == sv.cur && !o.More()
  }

  /** bytes_from_utf8_loc */
  method Downgrade(sv: Buffer, isUtf8: bool, ghost pts: seq<Point>) returns (o: Operand)
    requires sv.Valid() && StandsFor(sv.Contents(), isUtf8, pts)
    ensures Downgraded(sv, isUtf8, o, pts) && (isUtf8 ==> fresh(o.bytes))
  {
    if !isUtf8 {
      o := Operand(sv.buf, sv.cur, sv.buf, sv.cur, sv.cur);
      AllLow(pts);
      return;
    }
    var bytes, len, at := FitBytes(sv, pts);
    o := Operand(bytes, len, sv.buf, at, sv.cur);
  }

  method FitBytes(sv: Buffer, ghost pts: seq<Point>) returns (bytes: array<byte>, len: nat, at: nat)
    requires sv.Valid() && sv.Contents() == EncodeAll(pts)
    ensures fresh(bytes) && len == LowPrefix(pts) <= bytes.Length && len <= at <= sv.cur
    ensures sv.buf[at..sv.cur] == EncodeAll(pts[len..]) && at == |EncodeAll(pts[..len])|
    ensures forall k :: 0 <= k < len ==> bytes[k] == pts[k]
    ensures at == sv.cur <==> len == |pts|
  {
    hide EncodeAll, LowPrefix, Skip;
    bytes := new byte[sv.cur];
    var s, send, more := 0, sv.cur, true;
    len := 0;
    assert sv.buf[0..send] == sv.Contents() && pts[0..] == pts;
    while s < send && more
      invariant len <= s <= send && len <= |pts| && sv.buf[s..send] == EncodeAll(pts[len..])
      invariant forall k :: 0 <= k < len ==> bytes[k] == pts[k] < 0x100
      invariant !more ==> len < |pts| && pts[len] >= 0x100
      decreases send - s, more
    {
      var c, ulen := ReadChar(sv.buf, s, send, pts[len..]);
      if c >= 0x100 {
        more := false;
      } else {
        bytes[len] := c;
        s := s + ulen;
        assert pts[len..][1..] == pts[len + 1..];
        len := len + 1;
      }
    }
    EncodeNothing(pts[len..]);
    PrefixIs(pts, len);
    at := s;
    PrefixEnds(pts, len, at, send);
  }

  lemma PrefixEnds(pts: seq<Point>, len: nat, at: nat, send: nat)
    requires len <= |pts| && at <= send == |EncodeAll(pts)| && send - at == |EncodeAll(pts[len..])|
    ensures at == |EncodeAll(pts[..len])|
  {
    EncodeConcat(pts[..len], pts[len..]);
    assert pts == pts[..len] + pts[len..];
  }

  lemma PrefixIs(s: seq<Point>, n: nat)
    requires n <= |s| && (forall i :: 0 <= i < n ==> s[i] < 0x100) && (n < |s| ==> s[n] >= 0x100)
    ensures LowPrefix(s) == n
  {
  }

  lemma AllLow(s: seq<Point>)
    ensures (forall i :: 0 <= i < |s| ==> s[i] < 0x100) ==> LowPrefix(s) == |s|
    ensures s[|s|..] == [] && EncodeAll(s[|s|..]) == []
  {
  }

  /** How many characters are operated on; None if a code point above 0xFF is among them.
      `leftMore` and `rightMore` tell which operands have characters that do not fit in bytes. */
  function MeetingLength(leftMore: bool, rightMore: bool, leftlen: nat, rightlen: nat): Option<nat> {
    if leftMore then if rightMore || rightlen > leftlen then None else Some(rightlen)
    else if rightMore then if leftlen > rightlen then None else Some(leftlen)
    else Some(if leftlen < rightlen then leftlen else rightlen)
  }

  /** The guard of do_vop tells exactly whether the operator is defined, and then the operands
      meet over all of the shorter one. */
  lemma GuardIsDefined(a: seq<Point>, b: seq<Point>)
    ensures var l, r := LowPrefix(a), LowPrefix(b);
            MeetingLength(l < |a|, r < |b|, l, r)
            == if Defined(a, b) then Some(if |a| < |b| then |a| else |b|) else None
  {
  }

  /** sv_catpvn of `n` bytes at an address in `src`, which need not lie outside the string. `block`
      is where the string was when the address was taken: if that is in the same block, and the
      block has been moved since or is moved now, the address is no good any more. */
  method Append(sv: Buffer, src: array<byte>, from: nat, n: nat, block: array<byte>) returns (freed: bool)
    requires sv.cur < sv.buf.Length <= SSIZE_MAX && from + n <= src.Length && sv.cur + n + 1 < SSIZE_MAX
    requires src == sv.buf ==> src == block
    modifies sv, sv.buf
    ensures freed <==> src == block && (old(sv.buf) != block || block.Length <= old(sv.cur) + n + 1)
    ensures sv.buf == old(sv.buf) || fresh(sv.buf)
    ensures old(sv.buf.Length) > old(sv.cur) + n + 1 ==> sv.buf == old(sv.buf)
    ensures !freed ==>
              && sv.Valid() && sv.Contents() == old(sv.buf[..sv.cur]) + old(src[from..from + n])
              && (sv.buf == old(sv.buf) ==>
                    forall k :: sv.cur < k < sv.buf.Length ==> sv.buf[k] == old(sv.buf[k]))
  {
    var ok := sv.Grow(sv.cur + n + 1);
    freed := src == block && sv.buf != block;
    if freed {
      return;
    }
    ghost var head, part := sv.buf[..sv.cur], src[from..from + n];
    assert head == old(sv.buf[..sv.cur]) && part == old(src[from..from + n]);
    MoveIn(sv.buf, sv.cur, src, from, n);
    sv.cur := sv.cur + n;
    sv.buf[sv.cur] := 0;
    assert sv.Contents() == head + part;
  }

  /** Move(), which may overlap. */
  method MoveIn(dst: array<byte>, d: nat, src: array<byte>, from: nat, n: nat)
    requires d + n < dst.Length && from + n <= src.Length
    modifies dst
    ensures dst[..d + n] == old(dst[..d]) + old(src[from..from + n])
    ensures forall k :: d + n <= k < dst.Length ==> dst[k] == old(dst[k])
  {
    forall k | d <= k < d + n {
      dst[k] := src[from + k - d];
    }
    assert dst[..d + n] == old(dst[..d]) + old(src[from..from + n]);
  }

  /** How much of the result is bytes before any upgrade: the part operated on, and for | and ^
      the rest of the longer operand as far as it fits in bytes. */
  function BytePart(op: BitOp, len: nat, leftlen: nat, rightlen: nat): nat {
    if op.And? then len else if rightlen > len then rightlen else if leftlen > len then leftlen else len
  }

  /** What lies in the block of a string `t` after `u` and a NUL have been written at its start. */
  function Overlaid(u: seq<byte>, t: seq<byte>): (r: seq<byte>)
    ensures |r| == if |u| + 1 < |t| then |t| else |u| + 1
    ensures forall k :: 0 <= k < |r| ==> r[k] == if k < |u| then u[k] else if k == |u| then 0 else t[k]
  {
    u + [0] + if |u| + 1 < |t| then t[|u| + 1..] else []
  }

  /** The end of the left operand that does not fit in bytes is to be copied from the buffer that the
      result is made in. */
  predicate TailInTarget(op: BitOp, inPlace: bool, lp: seq<Point>) {
    inPlace && !op.And? && LowPrefix(lp) < |lp|
  }

  /** The result in UTF-8 ends before the tail begins: it has fewer characters of two bytes than the
      part of the left operand that has been converted. */
  predicate TailKept(op: BitOp, lp: seq<Point>, rp: seq<Point>)
    requires !op.And?
  {
    Variants(Meaning(op, lp, rp)[..LowPrefix(lp)]) < Variants(lp[..LowPrefix(lp)])
  }

  /** How an operation ends on a target of `room` bytes that holds the left operand `t`: `u` is the
      part of the result that is bytes, in UTF-8, and `at` where the rest is copied from. */
  ghost predicate EndsAs(r: Outcome, sv: Buffer, t: seq<byte>, room: nat, at: nat, u: seq<byte>)
    reads sv, sv.buf
  {
    && at < |t|
    && if room <= |u| + |t| - at + 1 then r == Freed
       else r.Done? && sv.Valid() && sv.Contents() == u + Overlaid(u, t)[at..|t|]
  }

  /** How an operation on `t`, which stands for `lp`, ends on a target of `room` bytes: with what the
      operator means, except where a tail that is to be copied within the target is not kept. */
  ghost predicate Verdict(op: BitOp, r: Outcome, sv: Buffer, toUtf8: bool, tail: bool, t: seq<byte>, room: nat,
                          lp: seq<Point>, rp: seq<Point>)
    requires tail ==> !op.And?
    reads sv, sv.buf
  {
    var m, n := Meaning(op, lp, rp), LowPrefix(lp);
    && !r.AboveFF? && (r.Done? ==> r.isUtf8 == toUtf8 && sv.Valid())
    && (!tail || TailKept(op, lp, rp) <==> r.Done? && sv.Valid() && StandsFor(sv.Contents(), toUtf8, m))
    && (tail ==> n <= |m| && EndsAs(r, sv, t, room, |EncodeAll(lp[..n])|, EncodeAll(m[..n])))
  }

  /** do_vop: `sv` is one of the operands or a target of its own. The words have `w` bytes. */
  method DoVop(op: BitOp, sv: Buffer, left: Buffer, leftUtf8: bool, right: Buffer, rightUtf8: bool,
               aligned: bool, w: nat, little: bool, ghost lp: seq<Point>, ghost rp: seq<Point>)
      returns (r: Outcome)
    requires sv.Valid() && left.Valid() && right.Valid() && w > 0
    requires StandsFor(left.Contents(), leftUtf8, lp) && StandsFor(right.Contents(), rightUtf8, rp)
    requires sv == left || (sv.buf != left.buf && (sv.buf == right.buf ==> sv == right))
    requires left.buf == right.buf ==> left == right && leftUtf8 == rightUtf8
    requires 3 * (left.cur + right.cur) < SSIZE_MAX - 3
    modifies sv, sv.buf
    ensures sv.buf == old(sv.buf) || fresh(sv.buf)
    ensures r.AboveFF? <==> !Defined(lp, if sv == right != left then [] else rp)
    ensures r.AboveFF? ==> sv.Valid() && sv.Contents() == if sv == left then old(sv.Contents()) else []
    ensures !r.AboveFF? ==>
              Verdict(op, r, sv, leftUtf8 || rightUtf8, TailInTarget(op, sv == left, lp), old(left.Contents()),
                      old(sv.buf.Length), lp, if sv == right != left then [] else rp)
  {
    // A target other than the left operand is emptied first, also if it is the right one.
    ghost var rp := if sv == right != left then [] else rp;
    NothingStands(rightUtf8);
    hide EncodeAll, Meaning, Defined, StandsFor, BytePart, LowPrefix, Verdict, MeetingLength, Meet, Downgraded;
    hide Operand.Holds;
    if sv != left {
      sv.buf[0] := 0;
      sv.cur := 0;
      assert sv.Contents() == [];
    }
    var l := Downgrade(left, leftUtf8, lp);
    var r' := Downgrade(right, rightUtf8, rp);
    var len := MeetingLength(l.More(), r'.More(), l.len, r'.len);
    Guarded(left, leftUtf8, right, rightUtf8, l, r', lp, rp);
    if len.None? {
      return AboveFF;
    }
    if sv == left == right {
      SameString(left.Contents(), leftUtf8, lp, rp);
    }
    ghost var t := left.Contents();
    Meeting(sv, left, leftUtf8, right, rightUtf8, l, r', len.value, t, lp, rp);
    r := Combined(op, sv, l, r', leftUtf8 || rightUtf8, len.value, aligned, w, little, t, lp, rp);
  }

  /** The guard on the operands as they are held. */
  lemma Guarded(left: Buffer, leftUtf8: bool, right: Buffer, rightUtf8: bool, l: Operand, r: Operand,
                lp: seq<Point>, rp: seq<Point>)
    requires left.Valid() && StandsFor(left.Contents(), leftUtf8, lp)
    requires Downgraded(left, leftUtf8, l, lp) && Downgraded(right, rightUtf8, r, rp)
    ensures MeetingLength(l.More(), r.More(), l.len, r.len)
         == if Defined(lp, rp) then Some(if |lp| < |rp| then |lp| else |rp|) else None
    ensures l.buf == left.buf && (l.More() ==> leftUtf8 && left.Contents() == EncodeAll(lp))
    ensures (r.More() ==> rightUtf8) && (l.More() <==> LowPrefix(lp) < |lp|)
  {
    GuardIsDefined(lp, rp);
    if l.More() {
      OnlyInUtf8(left.Contents(), leftUtf8, lp);
    }
  }

  lemma Meeting(sv: Buffer, left: Buffer, leftUtf8: bool, right: Buffer, rightUtf8: bool, l: Operand, r: Operand,
                len: nat, t: seq<byte>, lp: seq<Point>, rp: seq<Point>)
    requires sv.Valid() && left.Valid() && 3 * (left.cur + right.cur) < SSIZE_MAX - 3
    requires Downgraded(left, leftUtf8, l, lp) && Downgraded(right, rightUtf8, r, rp)
    requires (leftUtf8 ==> l.bytes != sv.buf) && (rightUtf8 ==> r.bytes != sv.buf)
    requires sv == left || (sv.buf != left.buf && (sv.buf == right.buf ==> sv == right && right.cur == 0))
    requires left.buf == right.buf ==> left == right && leftUtf8 == rightUtf8
    requires sv == left == right ==> lp == rp
    requires MeetingLength(l.More(), r.More(), l.len, r.len) == Some(len)
    requires len == if |lp| < |rp| then |lp| else |rp|
    requires t == left.Contents() && (l.More() ==> leftUtf8 && t == EncodeAll(lp))
    ensures Meet(sv, l, r, len, t, lp, rp)
  {
    MeetingWithin(l.More(), r.More(), l.len, r.len);
    hide EncodeAll, LowPrefix, MeetingLength;
  }

  lemma MeetingWithin(leftMore: bool, rightMore: bool, leftlen: nat, rightlen: nat)
    ensures var len := MeetingLength(leftMore, rightMore, leftlen, rightlen);
            len.Some? ==> len.value <= leftlen && len.value <= rightlen && !(leftMore && rightMore)
                          && (leftMore ==> len.value == rightlen) && (rightMore ==> len.value == leftlen)
  {
  }

  /** Two operands meet over `len` bytes; no more than one of them has a tail, and only that of the
      left one, `t`, may lie in the target. */
  ghost predicate Meet(sv: Buffer, l: Operand, r: Operand, len: nat, t: seq<byte>, lp: seq<Point>, rp: seq<Point>)
    reads sv, sv.buf, l.bytes, l.buf, r.bytes, r.buf
  {
    && sv.Valid() && l.Holds(lp) && r.Holds(rp) && 3 * (l.end + r.end) < SSIZE_MAX - 3
    && len <= l.len && len <= r.len && len == (if |lp| < |rp| then |lp| else |rp|)
    && !(l.More() && r.More()) && (l.More() ==> len == r.len)
    && (sv.buf == l.bytes ==> l.len == sv.cur)
    && (sv.buf == r.bytes ==> r.len == 0 || (r.bytes == l.bytes && r.len == l.len))
    && (r.More() ==> r.buf != sv.buf)
    && (l.More() && l.buf == sv.buf ==>
          l.end == sv.cur && t == sv.Contents() == EncodeAll(lp) && l.at == |EncodeAll(lp[..l.len])|)
  }

  /** The operand from which a tail is copied, if there is one. */
  function Source(l: Operand, r: Operand): Operand {
    if r.More() then r else l
  }

  /** The operation on the operands. */
  method Combined(op: BitOp, sv: Buffer, l: Operand, r: Operand, toUtf8: bool, len: nat, aligned: bool, w: nat,
                  little: bool, ghost t: seq<byte>, ghost lp: seq<Point>, ghost rp: seq<Point>)
      returns (o: Outcome)
    requires w > 0 && Meet(sv, l, r, len, t, lp, rp) && Defined(lp, rp) && (l.More() || r.More() ==> toUtf8)
    modifies sv, sv.buf
    ensures (sv.buf == old(sv.buf) || fresh(sv.buf)) && !o.AboveFF?
    ensures Verdict(op, o, sv, toUtf8, l.More() && l.buf == old(sv.buf) && !op.And?, t, old(sv.buf.Length), lp, rp)
  {
    Bounds(sv, l, r, len, t, lp, rp);
    ghost var within, room := Source(l, r).buf == sv.buf, sv.buf.Length;
    hide EncodeAll, Meaning, Defined, StandsFor, BytePart, LowPrefix, Verdict, Points, Meet, Carries, Source;
    var freed, b, was := Carried(op, sv, l, r, toUtf8, len, aligned, w, little, t, lp, rp);
    o := if freed then Freed else Done(toUtf8);
    Judged(op, o, sv, toUtf8, l, r, within, freed, b, was, room, len, t, lp, rp);
  }

  ghost predicate Carries(op: BitOp, sv: Buffer, l: Operand, r: Operand, toUtf8: bool, len: nat, within: bool,
                          room: nat, freed: bool, b: seq<byte>, was: seq<byte>, t: seq<byte>,
                          lp: seq<Point>, rp: seq<Point>)
    reads sv, sv.buf, Source(l, r).buf
  {
    var from, more := Source(l, r), !op.And? && (l.More() || r.More());
    && Ready(op, l, r, within, b, was, len, t, lp, rp)
    && from.at <= from.end <= |was| == from.buf.Length
    && Finished(sv, toUtf8, more, within, freed, b, was, from.at, from.end - from.at, room)
  }

  method Carried(op: BitOp, sv: Buffer, l: Operand, r: Operand, toUtf8: bool, len: nat, aligned: bool, w: nat,
                 little: bool, ghost t: seq<byte>, ghost lp: seq<Point>, ghost rp: seq<Point>)
      returns (freed: bool, ghost b: seq<byte>, ghost was: seq<byte>)
    requires w > 0 && Meet(sv, l, r, len, t, lp, rp) && (l.More() || r.More() ==> toUtf8)
    modifies sv, sv.buf
    ensures sv.buf == old(sv.buf) || fresh(sv.buf)
    ensures Carries(op, sv, l, r, toUtf8, len, Source(l, r).buf == old(sv.buf), old(sv.buf.Length), freed, b, was,
                    t, lp, rp)
  {
    var block, from := sv.buf, Source(l, r);
    hide EncodeAll, Meaning, Defined, StandsFor, BytePart, LowPrefix, Points, Meet, Ready, Finished;
    hide Operand.Holds, Operand.More, BytesMade, Overlaid, Source, Carries;
    ghost var room := block.Length;
    var more := !op.And? && (l.More() || r.More());
    Made(op, sv, l, r, len, aligned, w, little, t, lp, rp);
    b, was := sv.Contents(), from.buf[..];
    freed := Finish(sv, toUtf8, more, from.buf, from.at, from.end - from.at, block);
    CarriesIs(op, sv, l, r, from, toUtf8, more, len, from.buf == block, room, freed, b, was, t, lp, rp);
  }

  lemma CarriesIs(op: BitOp, sv: Buffer, l: Operand, r: Operand, from: Operand, toUtf8: bool, more: bool, len: nat,
                  within: bool, room: nat, freed: bool, b: seq<byte>, was: seq<byte>, t: seq<byte>,
                  lp: seq<Point>, rp: seq<Point>)
    requires from == Source(l, r) && more == (!op.And? && (l.More() || r.More()))
    requires Ready(op, l, r, within, b, was, len, t, lp, rp) && from.at <= from.end <= |was| == from.buf.Length
    requires Finished(sv, toUtf8, more, within, freed, b, was, from.at, from.end - from.at, room)
    ensures Carries(op, sv, l, r, toUtf8, len, within, room, freed, b, was, t, lp, rp)
  {
    hide Ready, Finished, Source;
  }

  lemma Judged(op: BitOp, o: Outcome, sv: Buffer, toUtf8: bool, l: Operand, r: Operand, within: bool, freed: bool,
               b: seq<byte>, was: seq<byte>, room: nat, len: nat, t: seq<byte>, lp: seq<Point>, rp: seq<Point>)
    requires Defined(lp, rp) && len == (if |lp| < |rp| then |lp| else |rp|)
    requires !(l.More() && r.More()) && (l.More() ==> len == r.len <= l.len) && (l.More() || r.More() ==> toUtf8)
    requires o == if freed then Freed else Done(toUtf8)
    requires Carries(op, sv, l, r, toUtf8, len, within, room, freed, b, was, t, lp, rp)
    requires within && l.More() ==> |t| < room
    ensures Verdict(op, o, sv, toUtf8, l.More() && within && !op.And?, t, room, lp, rp)
  {
    hide EncodeAll, Meaning, Defined, StandsFor, BytePart, LowPrefix, Verdict, Points, BytesMade, Overlaid;
    if l.More() && within && !op.And? {
      TailVerdict(op, o, sv, b, was, t, room, len, l.len, r.len, lp, rp);
    } else {
      var from := Source(l, r);
      PlainVerdict(op, o, sv, toUtf8, b, was[from.at..from.end], t, room, len, l.len, r.len, lp, rp);
    }
  }

  lemma Bounds(sv: Buffer, l: Operand, r: Operand, len: nat, t: seq<byte>, lp: seq<Point>, rp: seq<Point>)
    requires Meet(sv, l, r, len, t, lp, rp)
    ensures sv.Valid() && 3 * (l.end + r.end) < SSIZE_MAX - 3 && l.len <= l.at <= l.end < l.buf.Length
    ensures r.len <= r.at <= r.end < r.buf.Length && len == (if |lp| < |rp| then |lp| else |rp|)
    ensures !(l.More() && r.More()) && (l.More() ==> len == r.len <= l.len)
    ensures l.More() && l.buf == sv.buf ==> |t| == l.end == sv.cur
    ensures var from := Source(l, r);
            from.at <= from.end < from.buf.Length && (l.More() ==> from == l)
            && 2 * (l.len + r.len) + (from.end - from.at) + 2 < SSIZE_MAX
  {
  }

  /** The bytes `b` of the result are made; the buffer `was` from which the rest is to be copied still
      holds it, but for what the bytes and their NUL lie on if that is the target's. */
  ghost predicate Ready(op: BitOp, l: Operand, r: Operand, within: bool, b: seq<byte>, was: seq<byte>, len: nat,
                        t: seq<byte>, lp: seq<Point>, rp: seq<Point>)
  {
    var from := Source(l, r);
    && BytesMade(op, len, l.len, r.len, b, lp, rp) && from.at <= from.end <= |was|
    && l.len == LowPrefix(lp) && r.len == LowPrefix(rp)
    && (l.More() <==> l.len < |lp|) && (r.More() <==> r.len < |rp|)
    && (l.More() || r.More() ==>
          if within then
            && from == l && |t| == l.end && t == EncodeAll(lp) && l.at == |EncodeAll(lp[..l.len])|
            && forall j :: BytePart(op, len, l.len, r.len) < j < |t| ==> was[j] == t[j]
          else was[from.at..from.end] == EncodeAll(if r.More() then rp[r.len..] else lp[l.len..]))
  }

  method Made(op: BitOp, sv: Buffer, l: Operand, r: Operand, len: nat, aligned: bool, w: nat, little: bool,
              ghost t: seq<byte>, ghost lp: seq<Point>, ghost rp: seq<Point>)
    requires w > 0 && Meet(sv, l, r, len, t, lp, rp)
    modifies sv, sv.buf
    ensures (sv.buf == old(sv.buf) || fresh(sv.buf)) && sv.Valid()
    ensures var from := Source(l, r);
            && from.at <= from.end <= from.buf.Length && 2 * sv.cur + (from.end - from.at) + 2 < SSIZE_MAX
            && Ready(op, l, r, from.buf == old(sv.buf), sv.Contents(), from.buf[..], len, t, lp, rp)
            && (from.buf == sv.buf ==> from.buf == old(sv.buf))
            && (l.More() || r.More() ==> from.buf == old(sv.buf) ==> sv.buf == old(sv.buf))
  {
    hide EncodeAll, Meaning, Defined, StandsFor, BytePart, LowPrefix, BytesMade, Overlaid, Points;
    var block, from := sv.buf, Source(l, r);
    ghost var rest := from.buf[from.at..from.end];
    PartWithin(op, len, l.len, r.len);
    if l.More() {
      TailLength(lp);
      PartLeft(op, len, l.len, r.len);
    }
    Operate(op, sv, l.bytes, r.bytes, len, l.len, r.len, aligned, w, little, lp, rp);
    assert from.buf != block ==> from.buf[from.at..from.end] == rest;
    assert from.buf[..][from.at..from.end] == from.buf[from.at..from.end];
  }

  lemma PartLeft(op: BitOp, len: nat, leftlen: nat, rightlen: nat)
    requires len == rightlen <= leftlen
    ensures BytePart(op, len, leftlen, rightlen) <= leftlen
  {
  }

  /** The part of the result that is bytes. */
  ghost predicate BytesMade(op: BitOp, len: nat, leftlen: nat, rightlen: nat, b: seq<byte>,
                            lp: seq<Point>, rp: seq<Point>)
  {
    var n := BytePart(op, len, leftlen, rightlen);
    n <= |Meaning(op, lp, rp)| && Points(b) == Meaning(op, lp, rp)[..n]
  }

  /** Where the tail is not in the target. */
  lemma PlainVerdict(op: BitOp, o: Outcome, sv: Buffer, toUtf8: bool, b: seq<byte>, rest: seq<byte>, t: seq<byte>,
                     room: nat, len: nat, leftlen: nat, rightlen: nat, lp: seq<Point>, rp: seq<Point>)
    requires Defined(lp, rp) && len == (if |lp| < |rp| then |lp| else |rp|)
    requires leftlen == LowPrefix(lp) && rightlen == LowPrefix(rp)
    requires leftlen < |lp| || rightlen < |rp| ==>
               toUtf8 && (!op.And? ==> rest == EncodeAll(if rightlen < |rp| then rp[rightlen..] else lp[leftlen..]))
    requires BytesMade(op, len, leftlen, rightlen, b, lp, rp)
    requires o == Done(toUtf8) && sv.Valid()
    requires sv.Contents() == if !toUtf8 then b
                              else if !op.And? && (leftlen < |lp| || rightlen < |rp|) then EncodeAll(Points(b)) + rest
                              else EncodeAll(Points(b))
    ensures Verdict(op, o, sv, toUtf8, false, t, room, lp, rp)
  {
    var m, k := Meaning(op, lp, rp), BytePart(op, len, leftlen, rightlen);
    Dangling(op, lp, rp);
    SplitAt(m, k);
    hide EncodeAll, Meaning, Defined, LowPrefix, BytePart, TailKept;
  }

  /** Where it is. */
  lemma TailVerdict(op: BitOp, o: Outcome, sv: Buffer, b: seq<byte>, was: seq<byte>, t: seq<byte>, room: nat,
                    len: nat, leftlen: nat, rightlen: nat, lp: seq<Point>, rp: seq<Point>)
    requires !op.And? && Defined(lp, rp) && len == (if |lp| < |rp| then |lp| else |rp|) == rightlen
    requires leftlen == LowPrefix(lp) < |lp| && rightlen == LowPrefix(rp) <= leftlen
    requires BytesMade(op, len, leftlen, rightlen, b, lp, rp)
    requires t == EncodeAll(lp) && |t| < room && |t| <= |was|
    requires forall j :: BytePart(op, len, leftlen, rightlen) < j < |t| ==> was[j] == t[j]
    requires var u, at := EncodeAll(Points(b)), |EncodeAll(lp[..leftlen])|;
             && at <= |t| && (o == Freed || (o == Done(true) && sv.Valid()))
             && (o.Freed? <==> room <= |u| + |t| - at + 1)
             && (o.Done? ==> sv.Contents() == u + Overlaid(u, was)[at..|t|])
    ensures Verdict(op, o, sv, true, true, t, room, lp, rp)
  {
    var m, k := Meaning(op, lp, rp), BytePart(op, len, leftlen, rightlen);
    var u, at := EncodeAll(Points(b)), |EncodeAll(lp[..leftlen])|;
    PartInPlace(op, len, leftlen, rightlen);
    TailExactly(op, lp, rp, t);
    hide EncodeAll, Meaning, Defined, LowPrefix, BytePart, TailKept, Overlaid;
    SameOverlay(u, was, t, at);
  }

  lemma PartInPlace(op: BitOp, len: nat, leftlen: nat, rightlen: nat)
    requires !op.And? && len == rightlen <= leftlen
    ensures BytePart(op, len, leftlen, rightlen) == leftlen
  {
  }

  lemma SameString(s: seq<byte>, isUtf8: bool, a: seq<Point>, b: seq<Point>)
    requires StandsFor(s, isUtf8, a) && StandsFor(s, isUtf8, b)
    ensures a == b
  {
    if isUtf8 {
      EncodeInjective(a, b);
    }
  }

  lemma OnlyInUtf8(s: seq<byte>, isUtf8: bool, pts: seq<Point>)
    requires StandsFor(s, isUtf8, pts) && LowPrefix(pts) < |pts|
    ensures isUtf8 && s == EncodeAll(pts)
  {
  }

  lemma PartWithin(op: BitOp, len: nat, leftlen: nat, rightlen: nat)
    requires len <= leftlen && len <= rightlen
    ensures len <= BytePart(op, len, leftlen, rightlen) <= (if leftlen > rightlen then leftlen else rightlen)
  {
  }

  /** A character that does not fit in a byte takes two at least. */
  lemma TailLength(lp: seq<Point>)
    requires LowPrefix(lp) < |lp|
    ensures |EncodeAll(lp[LowPrefix(lp)..])| >= 2 && |EncodeAll(lp[..LowPrefix(lp)])| >= LowPrefix(lp)
    ensures EncodeAll(lp[LowPrefix(lp)..])[0] >= 0xC4
  {
    var n := LowPrefix(lp);
    NotShorter(lp[..n]);
    EncodeCons(lp[n], lp[n + 1..]);
    EncodeWide(lp[n]);
    assert lp[n..] == [lp[n]] + lp[n + 1..];
  }

  lemma SplitAt(m: seq<Point>, k: nat)
    requires k <= |m|
    ensures EncodeAll(m) == EncodeAll(m[..k]) + EncodeAll(m[k..])
    ensures m[k..] == [] ==> m[..k] == m && EncodeAll(m[..k]) == EncodeAll(m)
  {
    hide EncodeAll;
    EncodeConcat(m[..k], m[k..]);
    assert m == m[..k] + m[k..];
    if m[k..] == [] {
      assert k == |m| && m[..k] == m;
    }
  }

  /** What is left of an operand `t` in a block from `at` on does not depend on what is before. */
  lemma SameOverlay(u: seq<byte>, was: seq<byte>, t: seq<byte>, at: nat)
    requires at <= |t| <= |was| && at <= |t|
    requires forall k :: at <= k < |t| && k > |u| ==> was[k] == t[k]
    ensures Overlaid(u, was)[at..|t|] == Overlaid(u, t)[at..|t|]
  {
  }

  /** The tail is copied as it was exactly if the result and its NUL end before it. */
  lemma TailExactly(op: BitOp, lp: seq<Point>, rp: seq<Point>, t: seq<byte>)
    requires !op.And? && Defined(lp, rp) && LowPrefix(lp) < |lp| && t == EncodeAll(lp)
    ensures var m, n := Meaning(op, lp, rp), LowPrefix(lp);
            var u, at := EncodeAll(m[..n]), |EncodeAll(lp[..n])|;
            && n <= at < |t| && n <= |u|
            && (u + Overlaid(u, t)[at..|t|] == EncodeAll(m) <==> TailKept(op, lp, rp))
            && (TailKept(op, lp, rp) ==> |u| < at)
  {
    hide EncodeAll, Meaning, Defined, LowPrefix, Variants, Overlaid, BytePart;
    var m, n := Meaning(op, lp, rp), LowPrefix(lp);
    var u, at := EncodeAll(m[..n]), |EncodeAll(lp[..n])|;
    TailLength(lp);
    TailOfMeaning(op, lp, rp);
    SplitAt(lp, n);
    assert t[at..] == EncodeAll(lp[n..]) && t[at] == EncodeAll(lp[n..])[0];
    MeaningLow(op, lp, rp);
    EncodeLatins(lp[..n]);
    EncodeLatins(m[..n]);
    TailOverlaid(u, t, at);
    SameAfter(u, Overlaid(u, t)[at..|t|], t[at..]);
  }

  lemma TailOfMeaning(op: BitOp, lp: seq<Point>, rp: seq<Point>)
    requires !op.And? && Defined(lp, rp) && LowPrefix(lp) < |lp|
    ensures var m, n := Meaning(op, lp, rp), LowPrefix(lp);
            n <= |m| && EncodeAll(m) == EncodeAll(m[..n]) + EncodeAll(lp[n..])
  {
    Dangling(op, lp, rp);
    LowLengths(op, lp, rp);
    hide EncodeAll, Meaning, Defined, LowPrefix, BytePart;
    SplitAt(Meaning(op, lp, rp), LowPrefix(lp));
  }

  lemma {:induction false} OrGrows(a: nat, b: nat)
    ensures Bitwise(Or, a, b) >= a
    decreases a + b
  {
    if a > 0 || b > 0 {
      OrGrows(a / 2, b / 2);
    }
  }

  lemma {:induction false} VariantsGrow(a: seq<Point>, b: seq<Point>)
    requires |a| == |b| && forall i :: 0 <= i < |a| ==> a[i] <= b[i]
    ensures Variants(a) <= Variants(b)
  {
    if a != [] {
      VariantsGrow(a[1..], b[1..]);
    }
  }

  /** |= never keeps it: no character becomes smaller. */
  lemma OrNeverKeeps(lp: seq<Point>, rp: seq<Point>)
    ensures !TailKept(Or, lp, rp)
  {
    var m, n := Meaning(Or, lp, rp), LowPrefix(lp);
    forall i | 0 <= i < n
      ensures lp[i] <= m[i]
    {
      OrGrows(lp[i], PointAt(rp, i));
    }
    VariantsGrow(lp[..n], m[..n]);
  }

  /** $x = "a\x{100}"; $x |= "b" in a block with room to spare: a NUL lies where the tail begins. */
  method SpoiltTail() returns (sv: Buffer, r: Outcome)
    ensures r == Done(true) && sv.Valid() && sv.Contents() == [0x63, 0, 0x80]
    ensures Defined([0x61, 0x100], [0x62]) && Meaning(Or, [0x61, 0x100], [0x62]) == [0x63, 0x100]
  {
    ghost var lp, rp := [0x61, 0x100], [0x62];
    OrOfLetters();
    EncodeExample();
    OverlaidExample();
    hide Meaning, LowPrefix, EncodeAll, TailKept, Overlaid, Points, Verdict;
    sv := new Buffer([0x61, 0xC4, 0x80]);
    var ok := sv.Grow(9);
    assert sv.Contents() == [0x61, 0xC4, 0x80];
    var right := new Buffer([0x62]);
    ghost var room := sv.buf.Length;
    r := DoVop(Or, sv, sv, true, right, false, false, 8, true, lp, rp);
    SpoiltVerdict(r, sv, room);
  }

  lemma SpoiltVerdict(r: Outcome, sv: Buffer, room: nat)
    requires room > 4 && Verdict(Or, r, sv, true, true, [0x61, 0xC4, 0x80], room, [0x61, 0x100], [0x62])
    ensures r == Done(true) && sv.Valid() && sv.Contents() == [0x63, 0, 0x80]
  {
    OrOfLetters();
    EncodeExample();
    OverlaidExample();
    hide Meaning, LowPrefix, EncodeAll, TailKept, Overlaid;
    assert [0x63, 0x100][..1] == [0x63];
  }

  lemma OverlaidExample()
    ensures [0x63] + Overlaid([0x63], [0x61, 0xC4, 0x80])[1..3] == [0x63, 0, 0x80] && Points([0x62]) == [0x62]
  {
    var o := Overlaid([0x63], [0x61, 0xC4, 0x80]);
    assert o[1..3] == [o[1], o[2]] == [0, 0x80];
    assert Points([0x62]) == [0x62];
  }

  lemma OrOfLetters()
    ensures Meaning(Or, [0x61, 0x100], [0x62]) == [0x63, 0x100]
    ensures LowPrefix([0x61, 0x100]) == 1 && LowPrefix([0x62]) == 1
  {
    assert Bitwise(Or, 3, 3) == 3;
    assert Bitwise(Or, 0xC, 0xC) == 0xC;
    assert Bitwise(Or, 0x18, 0x18) == 0x18;
    assert Bitwise(Or, 0x61, 0x62) == 0x63;
    WithZero(Or, 0x100);
    PrefixIs([0x61, 0x100], 1);
    PrefixIs([0x62], 1);
  }

  lemma EncodeExample()
    ensures EncodeAll([0x61, 0x100]) == [0x61, 0xC4, 0x80]
    ensures EncodeAll([0x61, 0x100][..1]) == [0x61] && EncodeAll([0x63, 0x100][..1]) == [0x63]
  {
    EncodeLatin(0x61);
    EncodeLatin(0x63);
    EncodeCons(0x61, [0x100]);
    EncodeOne(0x100);
    EncodeOne(0x61);
    EncodeOne(0x63);
    assert [0x61] + [0x100] == [0x61, 0x100];
    assert [0x61, 0x100][..1] == [0x61] && [0x63, 0x100][..1] == [0x63];
    assert High(0x100, 1) == High(4, 0) == 4;
    assert Continuation(0x100, 1) == Continuation(4, 0) + [0x80];
  }

  lemma SameAfter(u: seq<byte>, a: seq<byte>, b: seq<byte>)
    ensures u + a == u + b <==> a == b
  {
    assert a == (u + a)[|u|..] && b == (u + b)[|u|..];
  }

  lemma TailOverlaid(u: seq<byte>, t: seq<byte>, at: nat)
    requires at < |t| && t[at] >= 0xC4 && forall k :: 0 <= k < |u| ==> u[k] < 0xC4
    ensures Overlaid(u, t)[at..|t|] == t[at..] <==> |u| < at
  {
    if |u| >= at {
      assert Overlaid(u, t)[at..|t|][0] == Overlaid(u, t)[at] < 0xC4;
      assert t[at..][0] == t[at];
    }
  }

  /** Where both operands have characters that fit in bytes, so has the result. */
  lemma MeaningLow(op: BitOp, lp: seq<Point>, rp: seq<Point>)
    requires !op.And? && Defined(lp, rp) && LowPrefix(lp) < |lp|
    ensures forall i :: 0 <= i < LowPrefix(lp) ==> Meaning(op, lp, rp)[i] < 0x100
  {
    forall i | 0 <= i < LowPrefix(lp)
      ensures Meaning(op, lp, rp)[i] < 0x100
    {
      Pow2Of8();
      BitwiseBound(op, lp[i], PointAt(rp, i), 8);
    }
  }

  lemma NothingStands(isUtf8: bool)
    ensures StandsFor([], isUtf8, [])
  {
  }

  /** How do_vop ends once the bytes `b` of the result are made: they become UTF-8, and `n` bytes are
      appended from the buffer that was `was` before. If that is the target's own, of `room` bytes,
      it is read as it is by then, or is freed by then. */
  ghost predicate Finished(sv: Buffer, toUtf8: bool, more: bool, within: bool, freed: bool, b: seq<byte>,
                           was: seq<byte>, at: nat, n: nat, room: nat)
    requires at + n <= |was|
    reads sv, sv.buf
  {
    var u := EncodeAll(Points(b));
    && (!freed ==> sv.Valid())
    && (!toUtf8 ==> !freed && sv.Contents() == b)
    && (toUtf8 && !more ==> !freed && sv.Contents() == u)
    && (toUtf8 && more && !within ==> !freed && sv.Contents() == u + was[at..at + n])
    && (toUtf8 && more && within ==>
          && (freed <==> room <= |u| + n + 1)
          && (!freed ==> at + n <= |Overlaid(u, was)| && sv.Contents() == u + Overlaid(u, was)[at..at + n]))
  }

  /** The end of do_vop: the result becomes UTF-8 if an operand was, and what could not be converted
      is appended as it is. */
  method Finish(sv: Buffer, toUtf8: bool, more: bool, src: array<byte>, at: nat, n: nat, block: array<byte>)
      returns (freed: bool)
    requires sv.Valid() && at + n <= src.Length && 2 * sv.cur + n + 2 < SSIZE_MAX
    requires (more && src == block ==> sv.buf == block) && (src == sv.buf ==> src == block) && (more ==> toUtf8)
    modifies sv, sv.buf
    ensures sv.buf == old(sv.buf) || fresh(sv.buf)
    ensures Finished(sv, toUtf8, more, src == block, freed, old(sv.Contents()), old(src[..]), at, n, block.Length)
  {
    freed := false;
    if toUtf8 {
      ghost var b, was := sv.Contents(), src[..];
      UpgradeBound(b);
      hide EncodeAll, Points, Overlaid, Finished;
      UpgradeBytes(sv);
      if more {
        freed := AppendTail(sv, src, at, n, block, b, was);
      } else {
        NothingAppended(sv, src == block, b, was, at, n, block.Length);
      }
    } else {
      NothingUpgraded(sv, more, src == block, src[..], at, n, block.Length);
    }
  }

  lemma NothingUpgraded(sv: Buffer, more: bool, within: bool, was: seq<byte>, at: nat, n: nat, room: nat)
    requires sv.Valid() && at + n <= |was| && !more
    ensures Finished(sv, false, more, within, false, sv.Contents(), was, at, n, room)
  {
  }

  lemma NothingAppended(sv: Buffer, within: bool, b: seq<byte>, was: seq<byte>, at: nat, n: nat, room: nat)
    requires sv.Valid() && sv.Contents() == EncodeAll(Points(b)) && at + n <= |was|
    ensures Finished(sv, true, false, within, false, b, was, at, n, room)
  {
  }

  method AppendTail(sv: Buffer, src: array<byte>, at: nat, n: nat, block: array<byte>,
                    ghost b: seq<byte>, ghost was: seq<byte>) returns (freed: bool)
    requires sv.Valid() && sv.Contents() == EncodeAll(Points(b))
    requires at + n <= src.Length == |was| && sv.cur + n + 2 < SSIZE_MAX
    requires if src == block then sv.buf == block <==> sv.cur < block.Length else src != sv.buf && src[..] == was
    requires src == sv.buf == block ==> forall k :: sv.cur < k < |was| ==> block[k] == was[k]
    modifies sv, sv.buf
    ensures sv.buf == old(sv.buf) || fresh(sv.buf)
    ensures Finished(sv, true, true, src == block, freed, b, was, at, n, block.Length)
  {
    hide EncodeAll, Points, Overlaid;
    ghost var u, mem := sv.Contents(), sv.buf[..];
    freed := Append(sv, src, at, n, block);
    if !freed {
      if src == block {
        OverlaidIs(mem, u, was, at, at + n);
        assert mem[at..at + n] == old(src[at..at + n]);
      } else {
        assert was[at..at + n] == old(src[at..at + n]);
      }
    }
  }

  lemma OverlaidIs(mem: seq<byte>, u: seq<byte>, was: seq<byte>, at: nat, end: nat)
    requires at <= end <= |mem| == |was| && |u| < |mem| && mem[..|u|] == u && mem[|u|] == 0
    requires forall k :: |u| < k < |mem| ==> mem[k] == was[k]
    ensures |Overlaid(u, was)| == |was| && mem[at..end] == Overlaid(u, was)[at..end]
  {
    assert mem == Overlaid(u, was);
  }

  /** sv_utf8_upgrade: the characters become UTF-8 where they lie, from the last one down to the
      first that needs two bytes. */
  method UpgradeBytes(sv: Buffer)
    requires sv.Valid() && 2 * sv.cur + 1 < SSIZE_MAX
    modifies sv, sv.buf
    ensures sv.Valid() && sv.Contents() == EncodeAll(Points(old(sv.Contents())))
    ensures sv.buf == old(sv.buf) || fresh(sv.buf)
    ensures sv.buf == old(sv.buf) <==> sv.cur < old(sv.buf.Length)
    ensures sv.buf == old(sv.buf) ==> forall k :: sv.cur < k < sv.buf.Length ==> sv.buf[k] == old(sv.buf[k])
  {
    hide EncodeAll, Variants, Points;
    ghost var s := sv.Contents();
    var cur := sv.cur;
    var t := FirstVariant(sv.buf, cur);
    EncodeParts(s, t);
    if t == cur {
      return;
    }
    var expansion := CountVariants(sv.buf, t, cur);
    assert sv.buf[t..cur] == s[t..];
    EncodeBytes(s[t..]);
    var need := cur + expansion + 1;
    SomeVariant(s[t..]);
    if sv.buf.Length < need {
      var ok := sv.Grow(need);
    }
    ghost var before := sv.buf[..];
    assert before[..cur] == s;
    SameSlices(before, s, t);
    Expand(sv.buf, t, cur, expansion);
    sv.cur := cur + expansion;
    assert sv.buf[..t] == before[..t];
    assert sv.Contents() == sv.buf[..t] + sv.buf[t..sv.cur];
  }

  lemma SameSlices(mem: seq<byte>, s: seq<byte>, t: nat)
    requires t <= |s| <= |mem| && mem[..|s|] == s
    ensures mem[..t] == s[..t] && mem[t..|s|] == s[t..]
  {
    assert mem[t..|s|] == mem[..|s|][t..];
  }

  method FirstVariant(buf: array<byte>, n: nat) returns (t: nat)
    requires n <= buf.Length
    ensures t <= n && (forall k :: 0 <= k < t ==> buf[k] < 0x80) && (t < n ==> buf[t] >= 0x80)
  {
    t := 0;
    while t < n && buf[t] < 0x80
      invariant t <= n && forall k :: 0 <= k < t ==> buf[k] < 0x80
    {
      t := t + 1;
    }
  }

  lemma SomeVariant(s: seq<byte>)
    ensures s != [] && s[0] >= 0x80 ==> Variants(Points(s)) > 0
  {
  }

  /** Below `t` nothing needs two bytes. */
  lemma EncodeParts(s: seq<byte>, t: nat)
    requires t <= |s| && forall k :: 0 <= k < t ==> s[k] < 0x80
    ensures EncodeAll(Points(s)) == s[..t] + EncodeAll(Points(s[t..]))
    ensures t == |s| ==> EncodeAll(Points(s)) == s
  {
    AsciiIsUtf8(s[..t]);
    EncodeConcat(Points(s[..t]), Points(s[t..]));
    assert Points(s) == Points(s[..t]) + Points(s[t..]);
    assert t == |s| ==> s[..t] == s && EncodeAll(Points(s[t..])) == [];
  }

  lemma EncodeBytes(s: seq<byte>)
    ensures |EncodeAll(Points(s))| == |s| + Variants(Points(s)) && Variants(Points(s)) <= |s|
  {
    EncodeLatins(Points(s));
    UpgradeBound(s);
  }

  /** variant_under_utf8_count */
  method CountVariants(buf: array<byte>, from: nat, to: nat) returns (n: nat)
    requires from <= to <= buf.Length
    ensures n == Variants(Points(buf[from..to]))
  {
    n := 0;
    var i := from;
    while i < to
      invariant from <= i <= to && n == Variants(Points(buf[from..i]))
    {
      MoreVariants(buf[from..i], buf[i]);
      assert buf[from..i + 1] == buf[from..i] + [buf[i]];
      if buf[i] >= 0x80 {
        n := n + 1;
      }
      i := i + 1;
    }
  }

  lemma MoreVariants(s: seq<byte>, c: byte)
    ensures Points(s + [c]) == Points(s) + [c as Point]
    ensures Variants(Points(s + [c])) == Variants(Points(s)) + if c >= 0x80 then 1 else 0
  {
    VariantsSnoc(Points(s), c);
    assert Points(s + [c]) == Points(s) + [c as Point];
  }

  /** The bytes from `t` to `n` make room for the second bytes, the last one first. */
  method Expand(buf: array<byte>, t: nat, n: nat, expansion: nat)
    requires t <= n && n + expansion < buf.Length && expansion == Variants(Points(buf[t..n]))
    modifies buf
    ensures buf[n + expansion] == 0 && buf[t..n + expansion] == EncodeAll(Points(old(buf[t..n])))
    ensures forall k :: 0 <= k < buf.Length && (k < t || k > n + expansion) ==> buf[k] == old(buf[k])
  {
    ghost var s := buf[..];
    var d: int, e: int := n + expansion, n - 1;
    buf[d] := 0;
    d := d - 1;
    ExpandingStarts(buf[..], s, t, n, expansion);
    hide Expanding;
    while e >= t
      invariant t - 1 <= e < n && Expanding(buf[..], s, t, n, expansion, d, e)
    {
      d := ExpandOne(buf, s, t, n, expansion, d, e);
      e := e - 1;
    }
    ExpandingEnds(buf[..], s, t, n, expansion, d);
  }

  /** In `mem` the bytes of `s` above `e` have been expanded, down to `d`. */
  ghost predicate Expanding(mem: seq<byte>, s: seq<byte>, t: nat, n: nat, expansion: nat, d: int, e: int)
    requires t <= n && n + expansion < |s| && t - 1 <= e < n
  {
    && |mem| == |s| && e <= d < n + expansion && d - e == Variants(Points(s[t..e + 1]))
    && mem[d + 1..n + expansion] == EncodeAll(Points(s[e + 1..n])) && mem[n + expansion] == 0
    && forall k :: 0 <= k < |s| && (k <= e || k > n + expansion) ==> mem[k] == s[k]
  }

  lemma ExpandingStarts(mem: seq<byte>, s: seq<byte>, t: nat, n: nat, expansion: nat)
    requires t <= n && n + expansion < |s| && expansion == Variants(Points(s[t..n]))
    requires mem == s[n + expansion := 0]
    ensures Expanding(mem, s, t, n, expansion, n + expansion - 1, n - 1)
  {
    assert s[n..n] == [] && mem[n + expansion..n + expansion] == [];
    assert EncodeAll(Points([])) == [];
  }

  lemma ExpandingEnds(mem: seq<byte>, s: seq<byte>, t: nat, n: nat, expansion: nat, d: int)
    requires t <= n && n + expansion < |s| && Expanding(mem, s, t, n, expansion, d, t - 1)
    ensures |mem| == |s| && mem[n + expansion] == 0 && mem[t..n + expansion] == EncodeAll(Points(s[t..n]))
    ensures forall k :: 0 <= k < |s| && (k < t || k > n + expansion) ==> mem[k] == s[k]
  {
    assert s[t..t] == [] && Variants(Points([])) == 0;
  }

  method ExpandOne(buf: array<byte>, ghost s: seq<byte>, t: nat, n: nat, expansion: nat, d: int, e: int)
      returns (d': int)
    requires t <= e < n && n + expansion < |s| && Expanding(buf[..], s, t, n, expansion, d, e)
    modifies buf
    ensures Expanding(buf[..], s, t, n, expansion, d', e - 1)
  {
    ghost var mem := buf[..];
    NextExpanded(mem, s, t, n, expansion, d, e);
    hide Expanding;
    var c := buf[e];
    if c < 0x80 {
      buf[d] := c;
      d' := d - 1;
      assert buf[..] == mem[d := c];
    } else {
      buf[d] := 0x80 + c % 64;
      buf[d - 1] := 0xC0 + c / 64;
      d' := d - 2;
      assert buf[..] == mem[d := 0x80 + c % 64][d - 1 := 0xC0 + c / 64];
    }
  }

  lemma NextExpanded(mem: seq<byte>, s: seq<byte>, t: nat, n: nat, expansion: nat, d: int, e: int)
    requires t <= e < n && n + expansion < |s| && Expanding(mem, s, t, n, expansion, d, e)
    ensures 0 <= e < |mem| && mem[e] == s[e] && |mem| == |s| && e <= d < |mem|
    ensures if mem[e] < 0x80 then Expanding(mem[d := mem[e]], s, t, n, expansion, d - 1, e - 1)
            else 0 < d && Expanding(mem[d := 0x80 + mem[e] % 64][d - 1 := 0xC0 + mem[e] / 64], s, t, n, expansion,
                                    d - 2, e - 1)
  {
    hide EncodeAll, Encode, Variants, Points;
    var c, rest := s[e], s[e + 1..n];
    assert s[t..e + 1] == s[t..e] + [c] && s[e..n] == [c] + rest;
    MoreVariants(s[t..e], c);
    EncodeLatin(c);
    EncodeByte(c, rest);
    if c < 0x80 {
      assert mem[d := c][d..n + expansion] == [c] + mem[d + 1..n + expansion];
    } else {
      var lo, hi := 0x80 + c % 64, 0xC0 + c / 64;
      assert mem[d := lo][d - 1 := hi][d - 1..n + expansion] == [hi, lo] + mem[d + 1..n + expansion];
    }
  }

  lemma EncodeByte(c: byte, rest: seq<byte>)
    ensures EncodeAll(Points([c] + rest)) == Encode(c) + EncodeAll(Points(rest))
  {
    EncodeCons(c, Points(rest));
    assert Points([c] + rest) == [c as Point] + Points(rest);
  }

  /** What the bytes of the result are followed by. */
  lemma Dangling(op: BitOp, a: seq<Point>, b: seq<Point>)
    requires Defined(a, b)
    ensures var m, l, r := Meaning(op, a, b), LowPrefix(a), LowPrefix(b);
            var n := BytePart(op, if |a| < |b| then |a| else |b|, l, r);
            && n <= |m| && n <= (if l > r then l else r)
            && m[n..] == (if op.And? then [] else if r < |b| then b[r..] else a[l..])
            && EncodeAll([]) == []
            && (l == |a| && r == |b| ==> m[n..] == [])
  {
    hide PointOp, EncodeAll, Defined, LowPrefix, BytePart, Meaning;
    LowLengths(op, a, b);
    EncodeNothing([]);
    var m, l, r := Meaning(op, a, b), LowPrefix(a), LowPrefix(b);
    if op.And? || (r == |b| && |a| < |b|) {
      assert m[|m|..] == a[|a|..];
    } else {
      WithZeros(op, a, b);
      if r < |b| {
        SameTail(m, b, r);
      } else {
        SameTail(m, a, l);
      }
    }
  }

  lemma SameTail(s: seq<Point>, t: seq<Point>, n: nat)
    requires n <= |s| == |t| && forall i :: n <= i < |s| ==> s[i] == t[i]
    ensures s[n..] == t[n..]
  {
  }

  /** One operand is all bytes, and the other is where they meet. */
  lemma LowLengths(op: BitOp, a: seq<Point>, b: seq<Point>)
    requires Defined(a, b)
    ensures var l, r := LowPrefix(a), LowPrefix(b);
            && ((l == |a| && (r < |b| ==> |a| <= r)) || (r == |b| && (l < |a| ==> |b| <= l)))
            && BytePart(op, if |a| < |b| then |a| else |b|, l, r)
               == if op.And? then if |a| < |b| then |a| else |b|
                  else if r < |b| || |a| < |b| then r else l
  {
    hide LowPrefix;
  }

  /** The operation on bytes, and what is left of the longer operand. */
  method Operate(op: BitOp, sv: Buffer, lc: array<byte>, rc: array<byte>, len: nat, leftlen: nat, rightlen: nat,
                 aligned: bool, w: nat, little: bool, ghost lp: seq<Point>, ghost rp: seq<Point>)
    requires sv.Valid() && w > 0 && len <= leftlen <= lc.Length && len <= rightlen <= rc.Length
    requires leftlen + 2 < SSIZE_MAX && rightlen + 2 < SSIZE_MAX
    requires sv.buf == lc ==> leftlen == sv.cur
    requires sv.buf == rc ==> rightlen == 0 || (rc == lc && rightlen == leftlen)
    requires leftlen == LowPrefix(lp) && rightlen == LowPrefix(rp)
    requires len == if |lp| < |rp| then |lp| else |rp|
    requires forall k :: 0 <= k < leftlen ==> lc[k] == lp[k]
    requires forall k :: 0 <= k < rightlen ==> rc[k] == rp[k]
    modifies sv, sv.buf
    ensures sv.Valid() && (sv.buf == old(sv.buf) || fresh(sv.buf))
    ensures var n := BytePart(op, len, leftlen, rightlen);
            && BytesMade(op, len, leftlen, rightlen, sv.Contents(), lp, rp) && sv.cur == n
            && (old(sv.buf.Length) > n + 1 ==>
                  && sv.buf == old(sv.buf)
                  && forall k :: n < k < sv.buf.Length ==> sv.buf[k] == old(sv.buf[k]))
  {
    WithZeros(op, lp, rp);
    var inPlace := sv.buf == lc;
    sv.cur := len;
    if sv.buf.Length < len + 1 {
      sv.buf := new byte[len + 2];
    }
    Combine(op, sv.buf, lc, rc, len, aligned, w, little);
    hide ByteOp, PointOp;
    Conclude(op, sv, lc, rc, len, leftlen, rightlen, inPlace, Meaning(op, lp, rp));
  }

  /** The tail of do_vop on bytes. A longer right operand is never in the target's own buffer;
      a longer left operand that is has its rest where it belongs. */
  method Conclude(op: BitOp, sv: Buffer, lc: array<byte>, rc: array<byte>, len: nat, leftlen: nat, rightlen: nat,
                  inPlace: bool, ghost m: seq<Point>)
    requires len < sv.buf.Length <= SSIZE_MAX && len <= leftlen <= lc.Length && len <= rightlen <= rc.Length
    requires sv.cur == len && leftlen + 2 < SSIZE_MAX && rightlen + 2 < SSIZE_MAX
    requires leftlen == len || rightlen == len
    requires if inPlace then sv.buf == lc && leftlen < lc.Length else leftlen > len ==> sv.buf != lc
    requires rightlen > len ==> sv.buf != rc
    requires var n := BytePart(op, len, leftlen, rightlen);
             && n <= |m| && (forall k :: 0 <= k < len ==> sv.buf[k] == m[k])
             && (!op.And? ==> forall k :: len <= k < rightlen ==> rc[k] == m[k])
             && (!op.And? ==> forall k :: len <= k < leftlen ==> lc[k] == m[k])
    modifies sv, sv.buf
    ensures sv.Valid() && (sv.buf == old(sv.buf) || fresh(sv.buf))
    ensures var n := BytePart(op, len, leftlen, rightlen);
            && Points(sv.Contents()) == m[..n]
            && (old(sv.buf.Length) > n + 1 ==>
                  && sv.buf == old(sv.buf)
                  && forall k :: n < k < sv.buf.Length ==> sv.buf[k] == old(sv.buf[k]))
  {
    if !op.And? {
      ghost var was := sv.buf[..len];
      if rightlen > len {
        JoinIs(was, rc[len..rightlen], m);
        var freed := Append(sv, rc, len, rightlen - len, sv.buf);
      } else if leftlen > len {
        if inPlace {
          sv.cur := leftlen;
        } else {
          JoinIs(was, lc[len..leftlen], m);
          var freed := Append(sv, lc, len, leftlen - len, sv.buf);
        }
      }
    }
    assert sv.cur == BytePart(op, len, leftlen, rightlen) && forall k :: 0 <= k < sv.cur ==> sv.buf[k] == m[k];
    sv.buf[sv.cur] := 0;
    PointsAre(sv.Contents(), m);
  }

  lemma JoinIs(a: seq<byte>, b: seq<byte>, m: seq<Point>)
    requires |a| + |b| <= |m| && forall k :: 0 <= k < |a| ==> a[k] == m[k]
    requires forall k :: |a| <= k < |a| + |b| ==> b[k - |a|] == m[k]
    ensures forall k :: 0 <= k < |a + b| ==> (a + b)[k] == m[k]
  {
  }

  lemma PointsAre(s: seq<byte>, m: seq<Point>)
    requires |s| <= |m| && forall k :: 0 <= k < |s| ==> s[k] == m[k]
    ensures Points(s) == m[..|s|]
  {
  }

  lemma WithZeros(op: BitOp, a: seq<Point>, b: seq<Point>)
    ensures var m := Meaning(op, a, b);
            forall i :: 0 <= i < |m| ==> (i >= |a| ==> m[i] == b[i]) && (i >= |b| ==> m[i] == a[i])
  {
    var m := Meaning(op, a, b);
    forall i | 0 <= i < |m| && (i >= |a| || i >= |b|)
      ensures m[i] == if i >= |a| then b[i] else a[i]
    {
      WithZero(op, if i >= |a| then b[i] else a[i]);
    }
  }

  lemma {:induction false} XorTwice(x: nat, y: nat)
    ensures Bitwise(Xor, Bitwise(Xor, x, y), y) == x
    decreases x + y
  {
    if x > 0 || y > 0 {
      XorTwice(x / 2, y / 2);
    }
  }

  /** ^ with the operand `b` twice gives the string `a` back, if `a` is at least as long as `b`. */
  lemma XorUndoesXor(a: seq<Point>, b: seq<Point>)
    requires |b| <= |a|
    ensures Meaning(Xor, Meaning(Xor, a, b), b) == a
  {
    var m := Meaning(Xor, a, b);
    forall i | 0 <= i < |a|
      ensures Meaning(Xor, m, b)[i] == a[i]
    {
      XorTwice(a[i], PointAt(b, i));
    }
  }
}
