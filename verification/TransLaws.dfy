/** Laws of transliteration: the encoding of the string does not show, and where it does. */
module TransLaws {
  import opened Bits
  import opened Common
  import opened Utf8
  import opened Trans
  import opened TransUtf8

  // ----- The value that stands for "no run" -----

  /** A replacement equal to the value that stands for "no run", where no run is on. */
  predicate Collides(acts: seq<Action>, i: nat, ends: bool)
    requires i < |acts|
  {
    acts[i] == Put(NO_RUN) && LastPut(acts[..i], ends) == None
  }

  function Collisions(acts: seq<Action>, ends: bool): nat {
    if acts == [] then 0
    else Collisions(acts[..|acts| - 1], ends) + BoolVal(Collides(acts, |acts| - 1, ends))
  }

  lemma {:induction false} PassFollowsTranslation(s: seq<Point>, acts: seq<Action>, squash: bool, ends: bool)
    requires |acts| == |s|
    ensures var p, q := PassOver(s, acts, squash, ends), Translate(s, acts, squash, ends);
            && p.pch == (if q.run.None? then NO_RUN else q.run.value) && p.matches == q.matches
            && |p.out| + (if squash then Collisions(acts, ends) else 0) == |q.out|
            && (!squash || Collisions(acts, ends) == 0 ==> p.out == q.out)
            && q.run == LastPut(acts, ends)
  {
    if s != [] {
      PassFollowsTranslation(s[..|s| - 1], acts[..|s| - 1], squash, ends);
    }
  }

  lemma {:induction false} CollisionsCount(acts: seq<Action>, ends: bool)
    ensures Collisions(acts, ends) == 0 <==> forall i :: 0 <= i < |acts| ==> !Collides(acts, i, ends)
  {
    if acts != [] {
      var n := |acts| - 1;
      CollisionsCount(acts[..n], ends);
      assert forall i :: 0 <= i < n ==> acts[..n][..i] == acts[..i];
      assert forall i :: 0 <= i < n ==> Collides(acts[..n], i, ends) == Collides(acts, i, ends);
      assert Collides(acts, n, ends) || Collisions(acts, ends) == Collisions(acts[..n], ends);
    }
  }

  /** The loops over UTF-8 transliterate a list correctly exactly if, unless they do not
      squash, no replacement equal to the value that stands for "no run" comes where no run is
      on; they drop every such replacement. The count is right in any case. */
  lemma PassIsListwise(s: seq<Point>, acts: seq<Action>, squash: bool, ends: bool)
    requires |acts| == |s|
    ensures var p, q := PassOver(s, acts, squash, ends), Translate(s, acts, squash, ends);
            && p.matches == q.matches
            && (p.out == q.out <==> !squash || forall i :: 0 <= i < |acts| ==> !Collides(acts, i, ends))
  {
    PassFollowsTranslation(s, acts, squash, ends);
    CollisionsCount(acts, ends);
  }

  /** In do_trans_complex that can only be this code point itself, where the table makes the
      characters past its end their own replacements. */
  lemma CollisionNeedsSentinel(t: Table, s: seq<Point>, i: nat)
    requires t.Valid() && i < |s| && Collides(Actions(t, false, s), i, true)
    ensures s[i] == 0xfeed_face && t.entries[t.Size()] == -3
  {
  }

  /** tr/\x00-\xFF//cs on the string of that one code point yields the empty string. */
  lemma CollisionExample()
    ensures var t := Table(seq(256, _ => -1) + [-3]);
            && t.Valid() && ComplexPassOver(t, [0xfeed_face], true).out == []
            && TranslatePoints(t, false, [0xfeed_face], true).out == [0xfeed_face]
  {
    var t := Table(seq(256, _ => -1) + [-3]);
    assert ComplexAction(t, NO_RUN) == Put(NO_RUN);
    assert [NO_RUN][..0] == [];
    PassNext(t, [NO_RUN], true, 0);
    StartsEmpty(t, false, true);
    TranslatePointsNext(t, false, [NO_RUN], true, 0);
    assert [NO_RUN][..1] == [NO_RUN];
  }

  // ----- Bytes and UTF-8 -----

  /** Whether squash and delete meet: some byte is deleted and some byte is replaced under squash. */
  predicate SquashMeetsDelete(t: Table, squash: bool)
    requires t.Valid()
  {
    && squash
    && (exists c :: 0 <= c < 0x100 && t.entries[c] == -2)
    && (exists c :: 0 <= c < 0x100 && t.entries[c] >= 0)
  }

  lemma {:induction false} EndsOnlyMatters(t: Table, simple: bool, s: seq<byte>, squash: bool)
    requires t.Valid() && (simple ==> !squash) && (!simple ==> !SquashMeetsDelete(t, squash))
    ensures var p, q := TranslateBytes(t, simple, s, squash), TranslatePoints(t, simple, Points(s), squash);
            && p.out == q.out && p.matches == q.matches && (squash ==> p.run == q.run)
            && (p.run.Some? && squash ==> exists c :: 0 <= c < 0x100 && t.entries[c] >= 0)
  {
    if s != [] {
      var n := |s| - 1;
      EndsOnlyMatters(t, simple, s[..n], squash);
      TranslateNext(t, simple, s, squash, n);
      TranslatePointsNext(t, simple, Points(s), squash, n);
      assert s[..n + 1] == s && Points(s)[..n] == Points(s[..n]) && Points(s)[..n + 1] == Points(s);
    }
  }

  /** Encoding independence of do_trans_simple: transliterating the UTF-8 form of a byte string
      gives the UTF-8 form of the transliterated byte string, and the same count. */
  lemma SimpleIsEncodingIndependent(t: Table, s: seq<byte>)
    requires t.Valid()
    ensures var p, q := TranslateBytes(t, true, s, false), TranslatePoints(t, true, Points(s), false);
            EncodeAll(p.out) == EncodeAll(q.out) && p.matches == q.matches
  {
    EndsOnlyMatters(t, true, s, false);
  }

  /** Bytes on which the branches disagree if squash and delete meet: a replaced character, a
      deleted one, and the replaced one again. */
  lemma Disagreement(t: Table, x: byte, y: byte)
    requires t.Valid() && t.entries[x] >= 0 && t.entries[y] == -2
    ensures TranslateBytes(t, false, [x, y, x], true).out == [t.entries[x]]
    ensures ComplexPassOver(t, Points([x, y, x]), true).out == [t.entries[x], t.entries[x]]
  {
    var s, e := [x, y, x], t.entries[x];
    TranslateNext(t, false, s, true, 0);
    TranslateNext(t, false, s, true, 1);
    TranslateNext(t, false, s, true, 2);
    assert s[..0] == [] && s[..3] == s;
    var a, b := ComplexAction(t, x), ComplexAction(t, y);
    assert a == Put(e) && b == Delete;
    assert TranslateBytes(t, false, [], true) == START;
    var u := Points(s);
    assert u == [x, y, x];
    PassNext(t, u, true, 0);
    PassNext(t, u, true, 1);
    PassNext(t, u, true, 2);
    assert u[..0] == [] && u[..3] == u;
  }

  /** Encoding independence of do_trans_complex: it holds for a table and its flags exactly if
      squash and delete do not meet in them. */
  lemma ComplexIsEncodingIndependent(t: Table, squash: bool)
    requires t.Valid()
    ensures !SquashMeetsDelete(t, squash) <==>
              forall s: seq<byte> ::
                var p, q := TranslateBytes(t, false, s, squash), ComplexPassOver(t, Points(s), squash);
                EncodeAll(p.out) == EncodeAll(q.out) && p.matches == q.matches
  {
    if SquashMeetsDelete(t, squash) {
      var y :| 0 <= y < 0x100 && t.entries[y] == -2;
      var x :| 0 <= x < 0x100 && t.entries[x] >= 0;
      Disagreement(t, x, y);
      var p, q := TranslateBytes(t, false, [x, y, x], squash), ComplexPassOver(t, Points([x, y, x]), squash);
      assert p.out != q.out;
      if EncodeAll(p.out) == EncodeAll(q.out) {
        EncodeInjective(p.out, q.out);
        assert false;
      }
    } else {
      forall s: seq<byte>
        ensures var p, q := TranslateBytes(t, false, s, squash), ComplexPassOver(t, Points(s), squash);
                EncodeAll(p.out) == EncodeAll(q.out) && p.matches == q.matches
      {
        EndsOnlyMatters(t, false, s, squash);
        PassIsListwise(Points(s), Actions(t, false, Points(s)), squash, true);
      }
    }
  }
}
