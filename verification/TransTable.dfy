/** The part of S_pmtrans (op.c) that makes the table of a tr/// without characters above 0xFF, and
    what such a tr/// does, told from its two lists alone. */
module TransTable {
  import opened Bits
  import opened Common
  import opened Utf8
  import opened Trans
  import opened TransUtf8
  import opened TransLaws

  /** The replacement list that is used: an empty one stands for the search list. */
  function Replacing(t: seq<byte>, r: seq<byte>, del: bool): seq<byte> {
    if r == [] && !del then t else r
  }

  /** Where a character comes first in a list. */
  function FirstAt(t: seq<byte>, c: nat): (i: nat)
    ensures i <= |t| && (forall k :: 0 <= k < i ==> t[k] != c) && (i < |t| ==> t[i] == c)
  {
    if t == [] || t[0] == c then 0 else 1 + FirstAt(t[1..], c)
  }

  /** How many characters below `n` are not in a list. */
  function Unlisted(t: seq<byte>, n: nat): (k: nat)
    ensures k <= n
  {
    if n == 0 then 0 else Unlisted(t, n - 1) + BoolVal(FirstAt(t, n - 1) == |t|)
  }

  /** The entry for the `i`-th character that is translated. */
  function EntryAt(r: seq<byte>, i: nat, del: bool, itself: int): int {
    if i < |r| then r[i] else if del then -2 else if r != [] then r[|r| - 1] else itself
  }

  // ----- Without /c -----

  function PlainEntry(t: seq<byte>, r: seq<byte>, del: bool, c: nat): int {
    var i := FirstAt(t, c);
    if i == |t| then -1 else EntryAt(Replacing(t, r, del), i, del, -1)
  }

  /** After the first `n` characters of the search list. */
  ghost predicate PlainSoFar(entries: seq<int>, t: seq<byte>, r: seq<byte>, del: bool, grows: bool, n: nat) {
    && |entries| == 257 && n <= |t| && (grows <==> Grows(entries))
    && forall c :: 0 <= c < 256 ==> entries[c] == if FirstAt(t, c) < n then PlainEntry(t, r, del, c) else -1
  }

  /** A character that is one byte in UTF-8 gets one that is two. */
  predicate Grows(entries: seq<int>)
    requires |entries| >= 257
  {
    exists c :: 0 <= c < 0x80 && entries[c] >= 0x80
  }

  lemma GrowsNext(entries: seq<int>, c: nat, e: int)
    requires |entries| >= 257 && c < |entries| && entries[c] < 0x80
    ensures Grows(entries[c := e]) <==> Grows(entries) || (c < 0x80 && e >= 0x80)
  {
    var after := entries[c := e];
    if Grows(entries) {
      var b :| 0 <= b < 0x80 && entries[b] >= 0x80;
      assert after[b] >= 0x80;
    }
    if c < 0x80 && e >= 0x80 {
      assert after[c] >= 0x80;
    }
    if Grows(after) {
      var b :| 0 <= b < 0x80 && after[b] >= 0x80;
      assert b == c || entries[b] >= 0x80;
    }
  }

  /** The next character of the search list: it has no entry yet if this is the first time. */
  lemma PlainNext(entries: seq<int>, t: seq<byte>, r: seq<byte>, del: bool, grows: bool, n: nat)
    requires PlainSoFar(entries, t, r, del, grows, n) && n < |t|
    ensures |entries| == 257 && (entries[t[n]] == -1 <==> FirstAt(t, t[n]) == n)
    ensures var e := EntryAt(Replacing(t, r, del), n, del, -1);
            if FirstAt(t, t[n]) == n then
              PlainSoFar(entries[t[n] := e], t, r, del, grows || (t[n] < 0x80 && e >= 0x80), n + 1)
            else PlainSoFar(entries, t, r, del, grows, n + 1)
  {
    var c, e := t[n], EntryAt(Replacing(t, r, del), n, del, -1);
    assert FirstAt(t, c) <= n;
    assert FirstAt(t, c) < n ==> PlainEntry(t, r, del, c) != -1;
    OnlyFirst(t, n);
    if FirstAt(t, c) == n {
      GrowsNext(entries, c, e);
    }
    hide Grows, FirstAt, EntryAt;
  }

  lemma OnlyFirst(t: seq<byte>, n: nat)
    requires n < |t|
    ensures forall b: nat :: FirstAt(t, b) == n ==> b == t[n]
  {
  }

  /** One turn of the loop over the search list. */
  method PlainTurn(entries: array<int>, t: seq<byte>, i: nat, r: seq<byte>, j: nat, del: bool, grows: bool)
      returns (j': nat, grows': bool)
    requires i < |t| && entries.Length == 257 && (!del ==> r != []) && j == if del || i < |r| then i else |r|
    modifies entries
    ensures j' == if del || i + 1 < |r| then i + 1 else |r|
    ensures var e := EntryAt(r, i, del, -1);
            if old(entries[t[i]]) == -1 then
              entries[..] == old(entries[..])[t[i] := e] && (grows' <==> grows || (t[i] < 0x80 && e >= 0x80))
            else entries[..] == old(entries[..]) && grows' == grows
  {
    j', grows' := j, grows;
    if j' >= |r| && del {
      if entries[t[i]] == -1 {
        entries[t[i]] := -2;
      }
    } else {
      if j' >= |r| {
        j' := j' - 1;
      }
      if entries[t[i]] == -1 {
        if t[i] < 0x80 && r[j'] >= 0x80 {
          grows' := true;
        }
        entries[t[i]] := r[j'];
      }
    }
    j' := j' + 1;
  }

  method PlainTable(t: seq<byte>, r: seq<byte>, del: bool) returns (entries: array<int>, grows: bool)
    ensures fresh(entries) && entries.Length == 257 && (grows <==> Grows(entries[..]))
    ensures forall c :: 0 <= c < 256 ==> entries[c] == PlainEntry(t, r, del, c)
    ensures entries[256] == if del || r != [] || t != [] then -1 else -3
  {
    var r' := r;
    if r' == [] && !del {
      r' := t;
    }
    entries, grows := new int[257](_ => 0), false;
    for i := 0 to 256
      invariant fresh(entries) && forall c :: 0 <= c < i ==> entries[c] == -1
    {
      entries[i] := -1;
    }
    var j := 0;
    NoneYet(entries[..], t, r, del);
    hide Grows, FirstAt, PlainEntry, PlainSoFar, EntryAt;
    for i := 0 to |t|
      invariant fresh(entries) && j == (if del || i < |r'| then i else |r'|)
      invariant PlainSoFar(entries[..], t, r, del, grows, i)
    {
      PlainNext(entries[..], t, r, del, grows, i);
      j, grows := PlainTurn(entries, t, i, r', j, del, grows);
    }
    var last := if del then -1 else if |r'| > 0 then -1 else -3;
    AllPlain(entries[..], t, r, del, grows, last);
    ghost var done := entries[..];
    entries[256] := last;
    assert entries[..] == done[256 := last];
  }

  lemma NoneYet(entries: seq<int>, t: seq<byte>, r: seq<byte>, del: bool)
    requires |entries| == 257 && forall c :: 0 <= c < 256 ==> entries[c] == -1
    ensures PlainSoFar(entries, t, r, del, false, 0)
  {
  }

  lemma AllPlain(entries: seq<int>, t: seq<byte>, r: seq<byte>, del: bool, grows: bool, last: int)
    requires PlainSoFar(entries, t, r, del, grows, |t|)
    ensures |entries| == 257 && (grows <==> Grows(entries[256 := last]))
    ensures forall c :: 0 <= c < 256 ==> entries[c] == PlainEntry(t, r, del, c)
  {
    hide FirstAt;
    forall c | 0 <= c < 0x80
      ensures entries[256 := last][c] == entries[c]
    {
    }
    if Grows(entries) {
      var c :| 0 <= c < 0x80 && entries[c] >= 0x80;
      assert entries[256 := last][c] >= 0x80;
    }
  }

  // ----- With /c -----

  function ComplementEntry(t: seq<byte>, r: seq<byte>, del: bool, c: nat): int {
    if FirstAt(t, c) < |t| then -1 else EntryAt(r, Unlisted(t, c), del, if c < 256 then c else -3)
  }

  function Least(a: nat, b: nat): nat {
    if a < b then a else b
  }

  /** After the first `n` characters of all: the others are marked or have no entry. */
  ghost predicate ComplementSoFar(entries: seq<int>, t: seq<byte>, r: seq<byte>, del: bool, grows: bool, n: nat) {
    && |entries| == 257 && n <= 256 && (grows <==> Grows(entries))
    && (forall c :: 0 <= c < n ==> entries[c] == ComplementEntry(t, r, del, c))
    && (forall c :: n <= c < 256 ==> entries[c] == if FirstAt(t, c) < |t| then -1 else 0)
  }

  lemma ComplementNext(entries: seq<int>, t: seq<byte>, r: seq<byte>, del: bool, grows: bool, n: nat)
    requires ComplementSoFar(entries, t, r, del, grows, n) && n < 256
    ensures |entries| == 257 && (entries[n] == 0 <==> FirstAt(t, n) == |t|)
    ensures var e := EntryAt(r, Unlisted(t, n), del, n);
            if entries[n] == 0 then
              && ComplementSoFar(entries[n := e], t, r, del, grows || (n < 0x80 && e >= 0x80), n + 1)
              && Unlisted(t, n + 1) == Unlisted(t, n) + 1
            else ComplementSoFar(entries, t, r, del, grows, n + 1) && Unlisted(t, n + 1) == Unlisted(t, n)
  {
    if entries[n] == 0 {
      GrowsNext(entries, n, EntryAt(r, Unlisted(t, n), del, n));
    }
    hide Grows, FirstAt, EntryAt;
  }

  /** One turn of the loop over all bytes. */
  method ComplementTurn(entries: array<int>, i: nat, r: seq<byte>, j: nat, del: bool, grows: bool, ghost n: nat)
      returns (j': nat, grows': bool)
    requires i < 256 && entries.Length == 257 && j == Least(n, |r|)
    modifies entries
    ensures j' == Least(if old(entries[i]) == 0 then n + 1 else n, |r|)
    ensures var e := EntryAt(r, n, del, i);
            if old(entries[i]) == 0 then
              entries[..] == old(entries[..])[i := e] && (grows' <==> grows || (i < 0x80 && e >= 0x80))
            else entries[..] == old(entries[..]) && grows' == grows
  {
    j', grows' := j, grows;
    if entries[i] == 0 {
      if j' == |r| {
        if del {
          entries[i] := -2;
        } else if |r| > 0 {
          entries[i] := r[j' - 1];
        } else {
          entries[i] := i;
        }
      } else {
        entries[i] := r[j'];
        j' := j' + 1;
      }
      if entries[i] >= 0 && i < 0x80 && entries[i] >= 0x80 {
        grows' := true;
      }
    }
  }

  /** The entries for bytes; `j` replacements are used. */
  method ComplementBytes(t: seq<byte>, r: seq<byte>, del: bool) returns (entries: array<int>, grows: bool, j: nat)
    ensures fresh(entries) && entries.Length == 257 && (grows <==> Grows(entries[..]))
    ensures j == Least(Unlisted(t, 256), |r|)
    ensures forall c :: 0 <= c < 256 ==> entries[c] == ComplementEntry(t, r, del, c)
  {
    entries, grows := new int[257](_ => 0), false;
    MarkListed(entries, t);
    j := 0;
    NoneTranslated(entries[..], t, r, del);
    hide Grows, FirstAt, ComplementEntry, ComplementSoFar, EntryAt, Unlisted, Least;
    for i := 0 to 256
      invariant fresh(entries) && entries.Length == 257 && j == Least(Unlisted(t, i), |r|)
      invariant ComplementSoFar(entries[..], t, r, del, grows, i)
    {
      ComplementNext(entries[..], t, r, del, grows, i);
      j, grows := ComplementTurn(entries, i, r, j, del, grows, Unlisted(t, i));
    }
    AllTranslated(entries[..], t, r, del, grows);
  }

  method ComplementTable(t: seq<byte>, r: seq<byte>, del: bool) returns (entries: array<int>, grows: bool)
    ensures fresh(entries) && entries.Length >= 257 && (grows <==> Grows(entries[..]))
    ensures forall c :: 0 <= c < entries.Length - 1 ==> entries[c] == ComplementEntry(t, r, del, c)
    ensures entries.Length - 257 == |r| - Least(Unlisted(t, 256), |r|)
    ensures entries[entries.Length - 1] == EntryAt(r, |r|, del, -3)
  {
    hide Grows, FirstAt, ComplementEntry, EntryAt, Unlisted;
    var j;
    entries, grows, j := ComplementBytes(t, r, del);
    ghost var done := entries[..];
    var last := if del then -2 else if |r| > 0 then r[|r| - 1] else -3;
    entries := Excess(entries, r[j..], last);
    ExcessTranslated(done, entries[..], t, r, del, grows, j, last);
  }

  /** All characters of the search list are marked. */
  method MarkListed(entries: array<int>, t: seq<byte>)
    requires entries.Length == 257 && forall c :: 0 <= c < 257 ==> entries[c] == 0
    modifies entries
    ensures forall c :: 0 <= c < 256 ==> entries[c] == if FirstAt(t, c) < |t| then -1 else 0
  {
    for i := 0 to |t|
      invariant forall c :: 0 <= c < 256 ==> entries[c] == if FirstAt(t, c) < i then -1 else 0
    {
      assert FirstAt(t, t[i]) <= i;
      OnlyFirst(t, i);
      hide FirstAt;
      entries[t[i]] := -1;
    }
  }

  /** What is left of the replacement list goes behind the entries for bytes, and one entry more. */
  method Excess(entries: array<int>, more: seq<byte>, last: int) returns (all: array<int>)
    requires entries.Length == 257
    modifies entries
    ensures all == entries || fresh(all)
    ensures all.Length == 257 + |more| && all[256 + |more|] == last
    ensures forall c :: 0 <= c < 256 + |more| ==> all[c] == if c < 256 then old(entries[c]) else more[c - 256]
  {
    all := entries;
    if |more| > 0 {
      all := new int[257 + |more|];
      forall c | 0 <= c < 257 {
        all[c] := entries[c];
      }
      for i := 0 to |more|
        invariant fresh(all) && forall c :: 0 <= c < 256 ==> all[c] == old(entries[c])
        invariant forall c :: 256 <= c < 256 + i ==> all[c] == more[c - 256]
      {
        all[i + 256] := more[i];
      }
    }
    all[256 + |more|] := last;
  }

  lemma AllTranslated(entries: seq<int>, t: seq<byte>, r: seq<byte>, del: bool, grows: bool)
    requires ComplementSoFar(entries, t, r, del, grows, 256)
    ensures |entries| == 257 && (grows <==> Grows(entries))
    ensures forall c :: 0 <= c < 256 ==> entries[c] == ComplementEntry(t, r, del, c)
  {
  }

  lemma {:induction false} NoByteAbove(t: seq<byte>, n: nat)
    ensures FirstAt(t, 256 + n) == |t| && Unlisted(t, 256 + n) == Unlisted(t, 256) + n
  {
    if n > 0 {
      NoByteAbove(t, n - 1);
      assert FirstAt(t, 256 + (n - 1)) == |t|;
    }
  }

  lemma SameGrowth(a: seq<int>, b: seq<int>)
    requires |a| >= 257 && |b| >= 257 && forall c :: 0 <= c < 256 ==> a[c] == b[c]
    ensures Grows(a) <==> Grows(b)
  {
    if Grows(a) {
      var c :| 0 <= c < 0x80 && a[c] >= 0x80;
      assert b[c] >= 0x80;
    }
  }

  lemma ExcessTranslated(bytes: seq<int>, entries: seq<int>, t: seq<byte>, r: seq<byte>, del: bool, grows: bool,
                         j: nat, last: int)
    requires |bytes| == 257 && (grows <==> Grows(bytes)) && j == Least(Unlisted(t, 256), |r|)
    requires forall c :: 0 <= c < 256 ==> bytes[c] == ComplementEntry(t, r, del, c)
    requires |entries| == 257 + |r| - j && entries[|entries| - 1] == last
    requires last == if del then -2 else if |r| > 0 then r[|r| - 1] else -3
    requires forall c :: 0 <= c < |entries| - 1 ==> entries[c] == if c < 256 then bytes[c] else r[j..][c - 256]
    ensures grows <==> Grows(entries)
    ensures forall c :: 0 <= c < |entries| - 1 ==> entries[c] == ComplementEntry(t, r, del, c)
    ensures entries[|entries| - 1] == EntryAt(r, |r|, del, -3)
  {
    SameGrowth(bytes, entries);
    hide FirstAt, Unlisted, Grows;
    forall c | 256 <= c < |entries| - 1
      ensures entries[c] == ComplementEntry(t, r, del, c)
    {
      NoByteAbove(t, c - 256);
    }
  }

  lemma NoneTranslated(entries: seq<int>, t: seq<byte>, r: seq<byte>, del: bool)
    requires |entries| == 257 && forall c :: 0 <= c < 256 ==> entries[c] == if FirstAt(t, c) < |t| then -1 else 0
    ensures ComplementSoFar(entries, t, r, del, false, 0) && Least(Unlisted(t, 0), |r|) == 0
  {
    hide FirstAt;
  }

  // ----- What the table asks for -----

  /** The table for two lists: without /c it has an entry of its own for bytes only. */
  ghost predicate IsTable(tbl: Table, t: seq<byte>, r: seq<byte>, complement: bool, del: bool) {
    && |tbl.entries| == 257 + (if complement then |r| - Least(Unlisted(t, 256), |r|) else 0)
    && (forall c :: 0 <= c < tbl.Size() ==>
          tbl.entries[c] == if complement then ComplementEntry(t, r, del, c) else PlainEntry(t, r, del, c))
    && tbl.entries[tbl.Size()] == if complement then EntryAt(r, |r|, del, -3)
                                  else if del || r != [] || t != [] then -1 else -3
  }

  /** The part of S_pmtrans for lists without characters above 0xFF. */
  method Compile(t: seq<byte>, r: seq<byte>, complement: bool, del: bool) returns (tbl: Table, grows: bool)
    ensures IsTable(tbl, t, r, complement, del) && tbl.Valid()
    ensures GrowthKnown(tbl, grows) && (grows <==> exists c :: 0 <= c < 0x80 && tbl.entries[c] >= 0x80)
  {
    var entries;
    if complement {
      entries, grows := ComplementTable(t, r, del);
    } else {
      entries, grows := PlainTable(t, r, del);
    }
    tbl := Table(entries[..]);
    TableIsValid(tbl, t, r, complement, del);
  }

  lemma TableIsValid(tbl: Table, t: seq<byte>, r: seq<byte>, complement: bool, del: bool)
    requires IsTable(tbl, t, r, complement, del)
    ensures tbl.Valid()
  {
    hide FirstAt, Unlisted;
  }

  /** What the lists ask for, the search list being all others under /c: a character that is not
      translated is kept, and the first that is becomes the first of the replacement list, and so on;
      what has no replacement is deleted, or gets the last one, or itself if there is none. */
  ghost predicate Asked(t: seq<byte>, r: seq<byte>, complement: bool, del: bool, c: Point, a: Action) {
    if complement then
      if exists k :: 0 <= k < |t| && t[k] == c then a == Keep
      else a == ActionAt(r, Others(t, c), del, c)
    else if exists k :: 0 <= k < |t| && t[k] == c then
      exists i :: 0 <= i < |t| && t[i] == c && (forall k :: 0 <= k < i ==> t[k] != c)
                  && a == ActionAt(if r == [] && !del then t else r, i, del, c)
    else a == Keep
  }

  /** How many characters come before `c` in the complement of a list. */
  ghost function Others(t: seq<byte>, c: nat): nat {
    |set b: nat | b < c && b !in t|
  }

  function ActionAt(r: seq<byte>, i: nat, del: bool, c: Point): Action {
    if i < |r| then Put(r[i]) else if del then Delete else if r != [] then Put(r[|r| - 1]) else Put(c)
  }

  lemma FirstIsIn(t: seq<byte>, c: nat)
    ensures FirstAt(t, c) < |t| <==> exists k :: 0 <= k < |t| && t[k] == c
    ensures FirstAt(t, c) < |t| <==> c in t
    ensures forall i ::
              0 <= i < |t| && t[i] == c && (forall k :: 0 <= k < i ==> t[k] != c) <==> i == FirstAt(t, c) < |t|
  {
    if FirstAt(t, c) < |t| {
      assert t[FirstAt(t, c)] == c;
    }
  }

  lemma OthersNext(t: seq<byte>, c: nat)
    ensures Others(t, 0) == 0 && Others(t, c + 1) == Others(t, c) + if c in t then 0 else 1
  {
    assert (set b: nat | b < 0 && b !in t) == {};
    var before, all := set b: nat | b < c && b !in t, set b: nat | b < c + 1 && b !in t;
    if c in t {
      assert all == before;
    } else {
      assert all == before + {c as nat};
    }
  }

  lemma UnlistedNext(t: seq<byte>, c: nat)
    ensures Unlisted(t, 0) == 0 && Unlisted(t, c + 1) == Unlisted(t, c) + if c in t then 0 else 1
  {
    FirstIsIn(t, c);
  }

  lemma {:induction false} OthersAre(t: seq<byte>, c: nat)
    ensures Others(t, c) == Unlisted(t, c)
  {
    hide Others, Unlisted;
    var n: nat := if c > 0 then c - 1 else 0;
    OthersNext(t, n);
    UnlistedNext(t, n);
    if c > 0 {
      OthersAre(t, n);
      assert c == n + 1;
    }
  }

  /** An entry does what the lists ask for. */
  lemma EntryAsks(r: seq<byte>, i: nat, del: bool, c: Point, e: int)
    requires e == EntryAt(r, i, del, if c < 256 then c else -3)
    ensures ActionAt(r, i, del, c)
         == if e >= 0 then Put(e) else if e == -1 then Keep else if e == -2 then Delete else Put(c)
  {
  }

  lemma ComplementAsks(tbl: Table, t: seq<byte>, r: seq<byte>, del: bool, c: Point)
    requires IsTable(tbl, t, r, true, del) && tbl.Valid()
    ensures ComplexAction(tbl, c) == if FirstAt(t, c) < |t| then Keep else ActionAt(r, Unlisted(t, c), del, c)
  {
    hide FirstAt, Unlisted;
    if c >= 256 {
      NoByteAbove(t, c - 256);
    }
    if FirstAt(t, c) == |t| {
      EntryAsks(r, Unlisted(t, c), del, c, EntryAt(r, Unlisted(t, c), del, if c < 256 then c else -3));
    }
  }

  lemma PlainAsks(tbl: Table, t: seq<byte>, r: seq<byte>, del: bool, c: Point)
    requires IsTable(tbl, t, r, false, del) && tbl.Valid()
    ensures del || t != [] || r != [] || c < 0x100 ==>
              ComplexAction(tbl, c)
              == if FirstAt(t, c) < |t| then ActionAt(Replacing(t, r, del), FirstAt(t, c), del, c) else Keep
    ensures !del ==>
              SimpleAction(tbl, c)
              == if FirstAt(t, c) < |t| then ActionAt(Replacing(t, r, del), FirstAt(t, c), del, c) else Keep
    ensures !del && t == r == [] && c >= 0x100 ==> ComplexAction(tbl, c) == Put(c)
  {
    if c >= 256 {
      NoByteAbove(t, c - 256);
    }
    hide FirstAt;
  }

  /** The table does exactly what the lists ask for; except that the one of empty lists makes
      characters above 0xFF their own replacements. */
  lemma TableAsks(tbl: Table, t: seq<byte>, r: seq<byte>, complement: bool, del: bool, c: Point, a: Action)
    requires IsTable(tbl, t, r, complement, del) && tbl.Valid()
    ensures complement || del || t != [] || r != [] || c < 0x100 ==>
              (Asked(t, r, complement, del, c, a) <==> a == ComplexAction(tbl, c))
    ensures !complement && !del ==> (Asked(t, r, complement, del, c, a) <==> a == SimpleAction(tbl, c))
    ensures !complement && !del && t == r == [] && c >= 0x100 ==> ComplexAction(tbl, c) == Put(c)
  {
    hide IsTable, ComplexAction, SimpleAction, FirstAt, Unlisted, Others, ActionAt;
    FirstIsIn(t, c);
    if complement {
      OthersAre(t, c);
      ComplementAsks(tbl, t, r, del, c);
    } else {
      PlainAsks(tbl, t, r, del, c);
    }
  }

  // ----- Strings -----

  ghost predicate AllAsked(t: seq<byte>, r: seq<byte>, complement: bool, del: bool, s: seq<Point>, acts: seq<Action>) {
    |acts| == |s| && forall i :: 0 <= i < |s| ==> Asked(t, r, complement, del, s[i], acts[i])
  }

  lemma ActionsAsked(tbl: Table, t: seq<byte>, r: seq<byte>, complement: bool, del: bool, simple: bool,
                     s: seq<Point>, acts: seq<Action>)
    requires IsTable(tbl, t, r, complement, del) && tbl.Valid() && AllAsked(t, r, complement, del, s, acts)
    requires if simple then !complement && !del
             else complement || del || t != [] || r != [] || forall i :: 0 <= i < |s| ==> s[i] < 0x100
    ensures Actions(tbl, simple, s) == acts
  {
    hide IsTable, Asked;
    forall i | 0 <= i < |s|
      ensures Actions(tbl, simple, s)[i] == acts[i]
    {
      TableAsks(tbl, t, r, complement, del, s[i], acts[i]);
    }
  }

  /** What do_trans_simple and do_trans_complex make of bytes: the outputs that the lists ask for, one
      after the other, under squash without those that repeat a replacement. */
  lemma BytesAsAsked(tbl: Table, t: seq<byte>, r: seq<byte>, complement: bool, del: bool, simple: bool, squash: bool,
                     s: seq<byte>, acts: seq<Action>)
    requires IsTable(tbl, t, r, complement, del) && tbl.Valid() && AllAsked(t, r, complement, del, Points(s), acts)
    requires simple ==> !complement && !del
    ensures var p := TranslateBytes(tbl, simple, s, squash);
            p.out == Outputs(Points(s), acts, squash, false) && p.matches == MatchedCount(acts)
  {
    ActionsAsked(tbl, t, r, complement, del, simple, Points(s), acts);
    TranslateIsListwise(Points(s), acts, squash, false);
  }

  /** And of UTF-8: the same, but that a deleted character ends a run, and exactly unless the value
      that stands for "no run" is such an output where no run is on. */
  lemma PointsAsAsked(tbl: Table, t: seq<byte>, r: seq<byte>, complement: bool, del: bool, squash: bool,
                      s: seq<Point>, acts: seq<Action>)
    requires IsTable(tbl, t, r, complement, del) && tbl.Valid() && AllAsked(t, r, complement, del, s, acts)
    ensures !complement && !del ==>
              var p := TranslatePoints(tbl, true, s, false);
              p.out == Outputs(s, acts, false, true) && p.matches == MatchedCount(acts)
    ensures complement || del || t != [] || r != [] ==>
              var p := ComplexPassOver(tbl, s, squash);
              && (p.out == Outputs(s, acts, squash, true)
                  <==> !squash || forall i :: 0 <= i < |acts| ==> !Collides(acts, i, true))
              && p.matches == MatchedCount(acts)
  {
    hide IsTable, AllAsked, Outputs, Collides;
    if !complement && !del {
      ActionsAsked(tbl, t, r, complement, del, true, s, acts);
      TranslateIsListwise(s, acts, false, true);
    }
    if complement || del || t != [] || r != [] {
      ActionsAsked(tbl, t, r, complement, del, false, s, acts);
      TranslateIsListwise(s, acts, squash, true);
      PassIsListwise(s, acts, squash, true);
    }
  }

  /** tr///s translates nothing, but squeezes characters above 0xFF. */
  lemma EmptyListsSquash(tbl: Table)
    requires IsTable(tbl, [], [], false, false) && tbl.Valid()
    ensures ComplexPassOver(tbl, [0x100, 0x100], true).out == [0x100]
    ensures Asked([], [], false, false, 0x100, Keep)
  {
    hide IsTable, Asked, Others, ActionAt, PassStep, ComplexPassOver;
    TableAsks(tbl, [], [], false, false, 0x100, Keep);
    var s: seq<Point> := [0x100, 0x100];
    assert s[..0] == [] && s[..1] == [0x100] && s[..2] == s;
    PassNext(tbl, s, true, 0);
    PassNext(tbl, s, true, 1);
    NothingAsked(tbl);
    TwiceSqueezed();
  }

  lemma NothingAsked(tbl: Table)
    requires tbl.Valid()
    ensures ComplexPassOver(tbl, [], true) == Pass([], NO_RUN, 0) && Asked([], [], false, false, 0x100, Keep)
  {
  }

  lemma TwiceSqueezed()
    ensures PassStep(Pass([], NO_RUN, 0), 0x100, Put(0x100), true, true) == Pass([0x100], 0x100, 1)
    ensures PassStep(Pass([0x100], 0x100, 1), 0x100, Put(0x100), true, true) == Pass([0x100], 0x100, 2)
  {
    assert [] + [0x100] == [0x100];
  }

  // ----- Counting -----

  /** How many characters of a string are in a list, or are not. */
  function TranslatedCount(t: seq<byte>, complement: bool, s: seq<Point>): nat {
    if s == [] then 0
    else TranslatedCount(t, complement, s[..|s| - 1])
         + BoolVal((exists k :: 0 <= k < |t| && t[k] == s[|s| - 1]) != complement)
  }

  /** Where both lists are the same, do_trans_count counts exactly the characters that are translated,
      under /c those that are not in the list. */
  lemma {:induction false} CountsTranslated(tbl: Table, t: seq<byte>, r: seq<byte>, complement: bool, del: bool,
                                            s: seq<Point>)
    requires IsTable(tbl, t, r, complement, del) && tbl.Valid()
    requires (r == [] && !del) || (!complement && r == t)
    ensures Counted(tbl, complement, s) == TranslatedCount(t, complement, s)
  {
    if s != [] {
      CountsTranslated(tbl, t, r, complement, del, s[..|s| - 1]);
      CountsOne(tbl, t, r, complement, del, s[|s| - 1]);
      hide IsTable;
    }
  }

  lemma CountsOne(tbl: Table, t: seq<byte>, r: seq<byte>, complement: bool, del: bool, c: Point)
    requires IsTable(tbl, t, r, complement, del) && tbl.Valid()
    requires (r == [] && !del) || (!complement && r == t)
    ensures (if c < 0x100 then tbl.entries[c] >= 0 else complement)
         == ((exists k :: 0 <= k < |t| && t[k] == c) != complement)
  {
    FirstIsIn(t, c);
    if c >= 0x100 {
      NoByteAbove(t, c - 256);
    }
    hide FirstAt, Unlisted;
  }
}
