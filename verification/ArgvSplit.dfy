/** The word splitter of do_exec3 (doio.c): it cuts a copy of the command into C strings where
    it lies, and collects their addresses in a vector whose size was fixed beforehand. */
module ArgvSplit {

  const NUL: char := '\0'

  /** isSPACE of handy.h */
  predicate IsSpace(c: char) {
    c == ' ' || '\t' <= c <= '\r'
  }

  /** Blank, and the controls from tab to carriage return. */
  lemma SpacesAre(c: char)
    ensures IsSpace(c) <==> c as int in [0x20, 0x09, 0x0A, 0x0B, 0x0C, 0x0D]
  {
    assert c as int == 0x0B || c as int == 0x0C || c as int in [0x20, 0x09, 0x0A, 0x0D] ==> IsSpace(c);
  }

  /** A word's characters. */
  predicate IsText(c: char) {
    c != NUL && !IsSpace(c)
  }

  /** The C string that starts at `i`. */
  function CString(b: string, i: nat): (r: string)
    requires i <= |b|
    ensures i + |r| <= |b| && r == b[i..i + |r|]
    ensures i + |r| == |b| || b[i + |r|] == NUL
    ensures NUL !in r
    decreases |b| - i
  {
    if i == |b| || b[i] == NUL then [] else [b[i]] + CString(b, i + 1)
  }

  // ----- What splitting means -----

  /** The length of the run of word characters that `t` begins with. */
  function Run(t: string): (n: nat)
    ensures n <= |t|
    ensures forall k :: 0 <= k < n ==> !IsSpace(t[k])
    ensures n < |t| ==> IsSpace(t[n])
  {
    if t == "" || IsSpace(t[0]) then 0 else 1 + Run(t[1..])
  }

  lemma {:induction false} RunIs(t: string, n: nat)
    requires n <= |t| && forall k :: 0 <= k < n ==> !IsSpace(t[k])
    requires n < |t| ==> IsSpace(t[n])
    ensures Run(t) == n
  {
    if n > 0 {
      RunIs(t[1..], n - 1);
    }
  }

  /** The words of a text. */
  function Words(t: string): (ws: seq<string>) {
    if t == "" then []
    else if IsSpace(t[0]) then Words(t[1..])
    else [t[..Run(t)]] + Words(t[Run(t)..])
  }

  predicate IsWord(w: string) {
    w != "" && forall k :: 0 <= k < |w| ==> !IsSpace(w[k])
  }

  /** The same words with one blank between neighbours, as a caller would write them. */
  function Joined(ws: seq<string>): string {
    if ws == [] then "" else if |ws| == 1 then ws[0] else ws[0] + " " + Joined(ws[1..])
  }

  /** The characters of a text that are no spaces. */
  function Letters(t: string): string {
    if t == "" then "" else (if IsSpace(t[0]) then "" else [t[0]]) + Letters(t[1..])
  }

  function Concat(ws: seq<string>): string {
    if ws == [] then "" else ws[0] + Concat(ws[1..])
  }

  /** Every word is one, and together they hold all the characters of the text that are not
      spaces, in their order. */
  lemma {:induction false} WordsAreWords(t: string)
    ensures forall k :: 0 <= k < |Words(t)| ==> IsWord(Words(t)[k])
    ensures Concat(Words(t)) == Letters(t)
    decreases |t|
  {
    if t != "" {
      if IsSpace(t[0]) {
        WordsAreWords(t[1..]);
      } else {
        WordsAreWords(t[Run(t)..]);
        LettersOfRun(t, Run(t));
        var rest := Words(t[Run(t)..]);
        assert ([t[..Run(t)]] + rest)[1..] == rest;
      }
    }
  }

  lemma {:induction false} LettersOfRun(t: string, n: nat)
    requires n <= |t| && forall k :: 0 <= k < n ==> !IsSpace(t[k])
    ensures Letters(t) == t[..n] + Letters(t[n..])
  {
    if n == 0 {
      assert t[0..] == t;
    } else {
      var rest := t[1..];
      LettersOfRun(rest, n - 1);
      var x, y := rest[..n - 1], Letters(rest[n - 1..]);
      assert Letters(t) == [t[0]] + Letters(rest);
      hide Letters;
      assert rest[n - 1..] == t[n..];
      assert t[..n] == [t[0]] + x;
      assert [t[0]] + (x + y) == [t[0]] + x + y;
    }
  }

  /** A space cuts the text: the words before it and the words behind it are independent. */
  lemma {:induction false} SpaceCuts(a: string, c: char, b: string)
    requires IsSpace(c)
    ensures Words(a + [c] + b) == Words(a) + Words(b)
    decreases |a|, 1
  {
    var t := a + [c] + b;
    if a == "" {
      assert t[1..] == b;
    } else if IsSpace(a[0]) {
      SpaceCuts(a[1..], c, b);
      assert t[1..] == a[1..] + [c] + b;
    } else {
      WordCuts(a, c, b);
    }
  }

  lemma {:induction false} WordCuts(a: string, c: char, b: string)
    requires IsSpace(c) && a != "" && !IsSpace(a[0])
    ensures Words(a + [c] + b) == Words(a) + Words(b)
    decreases |a|, 0
  {
    var t := a + [c] + b;
    var n := Run(a);
    RunBeforeSpace(a, c, b);
    SpaceCuts(a[n..], c, b);
    StepWords(a);
    StepWords(t);
    hide Words, Run;
    assert t[..n] == a[..n];
    assert t[n..] == a[n..] + [c] + b;
  }

  lemma StepWords(t: string)
    requires t != "" && !IsSpace(t[0])
    ensures Words(t) == [t[..Run(t)]] + Words(t[Run(t)..])
  {
  }

  lemma {:induction false} RunBeforeSpace(a: string, c: char, b: string)
    requires IsSpace(c)
    ensures Run(a + [c] + b) == Run(a)
  {
    if a != "" && !IsSpace(a[0]) {
      assert (a + [c] + b)[1..] == a[1..] + [c] + b;
      RunBeforeSpace(a[1..], c, b);
    }
  }

  lemma {:induction false} WordAlone(w: string)
    requires IsWord(w)
    ensures Words(w) == [w]
  {
    assert Run(w) == |w|;
    assert w[..|w|] == w && w[|w|..] == "";
  }

  /** Splitting what was joined gives the words back. */
  lemma {:induction false} SplitJoined(ws: seq<string>)
    requires forall k :: 0 <= k < |ws| ==> IsWord(ws[k])
    ensures Words(Joined(ws)) == ws
  {
    if |ws| == 1 {
      WordAlone(ws[0]);
    } else if ws != [] {
      WordAlone(ws[0]);
      SplitJoined(ws[1..]);
      SpaceCuts(ws[0], ' ', Joined(ws[1..]));
      assert ws[0] + [' '] + Joined(ws[1..]) == Joined(ws);
    }
  }

  /** Words and the spaces between them need two characters each, except for the last word. */
  lemma {:induction false} WordsNeedRoom(t: string)
    ensures 2 * |Words(t)| <= |t| + 1
    decreases |t|
  {
    if t != "" {
      if IsSpace(t[0]) {
        WordsNeedRoom(t[1..]);
      } else {
        var rest := t[Run(t)..];
        if rest != "" {
          WordsNeedRoom(rest[1..]);
        }
      }
    }
  }

  /** The vector has a cell for every word and one for the NULL behind them; for every odd
      length there is a command that fills it. */
  lemma {:induction false} VectorIsTight(m: nat) returns (t: string)
    ensures |t| == 2 * m + 1 && |Words(t)| + 1 == |t| / 2 + 2
  {
    t := "a";
    WordAlone("a");
    for i := 0 to m
      invariant |t| == 2 * i + 1 && |Words(t)| == i + 1
    {
      SpaceCuts("a", ' ', t);
      t := "a" + [' '] + t;
    }
  }

  // ----- The splitter -----

  /** A cell of the argument vector: an address within the command, or NULL. */
  datatype Arg = Null | At(index: nat)

  /** `w` lies at `i` as a C string. */
  predicate LiesAt(b: string, i: nat, w: string) {
    i + |w| < |b| && b[i..i + |w|] == w && NUL !in w && b[i + |w|] == NUL
  }

  lemma {:induction false} LiesAtIsCString(b: string, i: nat, w: string)
    requires LiesAt(b, i, w)
    ensures CString(b, i) == w
    decreases |w|
  {
    if w == "" {
    } else {
      assert b[i] == w[0] && b[i + 1..i + 1 + |w[1..]|] == w[1..];
      LiesAtIsCString(b, i + 1, w[1..]);
    }
  }

  lemma StepCString(b: string, s: nat)
    requires s < |b| && b[s] != NUL
    ensures CString(b, s) == [b[s]] + CString(b, s + 1)
  {
  }

  lemma DropSpace(t: string)
    requires t != "" && IsSpace(t[0])
    ensures Words(t) == Words(t[1..])
  {
  }

  /** What the next round finds: the words of the string at `s`, which begins with `n` spaces
      and a run of `m` characters. */
  lemma {:induction false} SkipSpaces(b: string, s: nat, n: nat)
    requires s + n <= |b| && forall k :: s <= k < s + n ==> IsSpace(b[k])
    ensures Words(CString(b, s)) == Words(CString(b, s + n))
    decreases n
  {
    if n > 0 {
      SkipSpaces(b, s + 1, n - 1);
      StepCString(b, s);
      DropSpace(CString(b, s));
      hide Words, CString;
      assert CString(b, s)[1..] == CString(b, s + 1);
    }
  }

  lemma {:induction false} TakeWord(b: string, s: nat, e: nat)
    requires s < e < |b| && forall k :: s <= k < e ==> IsText(b[k])
    requires !IsText(b[e])
    ensures Words(CString(b, s)) == [b[s..e]] + Words(CString(b, e))
  {
    CStringSkips(b, s, e);
    var t := CString(b, s);
    assert t[..e - s] == b[s..e];
    assert t[e - s..] == CString(b, e);
    RunIs(t, e - s);
  }

  lemma {:induction false} CStringSkips(b: string, s: nat, e: nat)
    requires s <= e <= |b| && forall k :: s <= k < e ==> b[k] != NUL
    ensures CString(b, s) == b[s..e] + CString(b, e)
    decreases e - s
  {
    if s < e {
      assert CString(b, s) == [b[s]] + CString(b, s + 1);
      hide CString;
      CStringSkips(b, s + 1, e);
      FirstOfSlice(b, s, e, CString(b, e));
    } else {
      assert b[s..e] == "";
    }
  }

  lemma FirstOfSlice(b: string, s: nat, e: nat, rest: string)
    requires s < e <= |b|
    ensures b[s..e] + rest == [b[s]] + (b[s + 1..e] + rest)
  {
    assert b[s..e] == [b[s]] + b[s + 1..e];
  }

  lemma {:induction false} CStringOfSuffix(b: string, c: string, s: nat)
    requires |b| == |c| && s <= |b| && b[s..] == c[s..]
    ensures CString(b, s) == CString(c, s)
    decreases |b| - s
  {
    if s < |b| {
      assert b[s] == b[s..][0] && c[s] == c[s..][0];
      assert b[s + 1..] == b[s..][1..] && c[s + 1..] == c[s..][1..];
      CStringOfSuffix(b, c, s + 1);
    }
  }

  /** What the splitter has done so far: the words before `s` are cut off and listed. */
  ghost predicate Listed(b: string, s: nat, argv: seq<Arg>, done: seq<string>) {
    && |done| <= |argv|
    && (forall k :: 0 <= k < |done| ==>
          argv[k].At? && argv[k].index + |done[k]| <= s && LiesAt(b, argv[k].index, done[k]))
  }

  /** A NUL written at the end of the word that starts at `from` completes it and leaves the
      words before it as they are. */
  lemma ListedMore(b: string, argv: seq<Arg>, done: seq<string>, s: nat, cells: seq<Arg>, from: nat, e: nat, to: nat)
    requires Listed(b, s, argv, done) && |done| < |argv|
    requires cells == argv[|done| := At(from)] && s <= from <= e < |b| && e <= to && NUL !in b[from..e]
    ensures Listed(b[e := NUL], to, cells, done + [b[from..e]])
  {
    var c := b[e := NUL];
    forall k | 0 <= k < |done|
      ensures LiesAt(c, argv[k].index, done[k])
    {
      var i, w := argv[k].index, done[k];
      assert c[i..i + |w|] == b[i..i + |w|];
    }
    assert c[from..from + |b[from..e]|] == b[from..e];
  }

  /** The words of the string at `s`: spaces up to `from`, then a word up to `e`, and what
      follows the NUL that is written there. */
  lemma RoundTakes(b: string, s: nat, from: nat, e: nat, done: seq<string>)
    requires s <= from <= e < |b|
    requires forall k :: s <= k < from ==> IsSpace(b[k])
    requires forall k :: from <= k < e ==> IsText(b[k])
    requires !IsText(b[e]) && (from == e ==> b[e] == NUL)
    ensures done + Words(CString(b, s)) ==
            (if from < e then done + [b[from..e]] else done) + Words(CString(b, if b[e] == NUL then e else e + 1))
  {
    hide Words, CString;
    SkipSpaces(b, s, from - s);
    if from < e {
      TakeWord(b, from, e);
    }
    if b[e] != NUL {
      SkipSpaces(b, e, 1);
    }
  }

  /** What one round leaves behind: spaces up to `from`, a word up to `e`, a NUL there. */
  lemma RoundLists(b: string, s: nat, from: nat, e: nat, argv: seq<Arg>, done: seq<string>, to: nat)
    requires Listed(b, s, argv, done) && s <= from <= e < |b| && e <= to && |done| < |argv|
    requires forall k :: from <= k < e ==> IsText(b[k])
    ensures from < e ==> Listed(b[e := NUL], to, argv[|done| := At(from)], done + [b[from..e]])
    ensures from == e ==> Listed(b, to, argv, done)
  {
    if from < e {
      ListedMore(b, argv, done, s, argv[|done| := At(from)], from, e, to);
    }
  }

  /** The loop's invariant: the listed words and those still to come are the words asked for. */
  ghost predicate Underway(b: string, s: nat, argv: seq<Arg>, done: seq<string>, words: seq<string>) {
    Listed(b, s, argv, done) && s <= |b| && done + Words(CString(b, s)) == words
  }

  lemma RoundIsUnderway(b: string, s: nat, from: nat, e: nat, argv: seq<Arg>, done: seq<string>, words: seq<string>,
                        to: nat)
    requires Underway(b, s, argv, done, words) && s <= from <= e < |b| && |done| < |argv|
    requires forall k :: s <= k < from ==> IsSpace(b[k])
    requires forall k :: from <= k < e ==> IsText(b[k])
    requires !IsText(b[e]) && (from == e ==> b[e] == NUL)
    requires to == if b[e] == NUL then e else e + 1
    ensures from < e ==> Underway(b[e := NUL], to, argv[|done| := At(from)], done + [b[from..e]], words)
    ensures from == e ==> Underway(b[e := NUL], to, argv, done, words)
  {
    hide Words, CString, Listed;
    var c := b[e := NUL];
    RoundTakes(b, s, from, e, done);
    RoundLists(b, s, from, e, argv, done, to);
    CStringOfSuffix(b, c, to);
    assert from == e ==> c == b;
  }

  lemma NothingListed(b: string, argv: seq<Arg>)
    ensures Underway(b, 0, argv, [], Words(CString(b, 0)))
  {
  }

  /** Nothing is left to split, and each cell holds the address of its word. */
  lemma AllListed(b: string, s: nat, argv: seq<Arg>, done: seq<string>, words: seq<string>)
    requires Underway(b, s, argv, done, words) && s < |b| && b[s] == NUL
    ensures done == words
    ensures |words| <= |argv|
    ensures forall k :: 0 <= k < |words| ==> argv[k].At? && argv[k].index < |b| && CString(b, argv[k].index) == words[k]
  {
    forall k | 0 <= k < |done|
      ensures CString(b, argv[k].index) == done[k]
    {
      LiesAtIsCString(b, argv[k].index, done[k]);
    }
  }

  method PastSpaces(cmd: array<char>, s: nat) returns (r: nat)
    requires s < cmd.Length && cmd[cmd.Length - 1] == NUL
    ensures s <= r < cmd.Length && !IsSpace(cmd[r])
    ensures forall k :: s <= k < r ==> IsSpace(cmd[k])
  {
    r := s;
    while IsSpace(cmd[r])
      invariant s <= r < cmd.Length
      invariant forall k :: s <= k < r ==> IsSpace(cmd[k])
      decreases cmd.Length - r
    {
      r := r + 1;
    }
  }

  method PastWord(cmd: array<char>, s: nat) returns (r: nat)
    requires s < cmd.Length && cmd[cmd.Length - 1] == NUL
    ensures s <= r < cmd.Length && !IsText(cmd[r])
    ensures forall k :: s <= k < r ==> IsText(cmd[k])
  {
    r := s;
    while cmd[r] != NUL && !IsSpace(cmd[r])
      invariant s <= r < cmd.Length
      invariant forall k :: s <= k < r ==> IsText(cmd[k])
      decreases cmd.Length - r
    {
      r := r + 1;
    }
  }

  /** One round of the loop of do_exec3. */
  method Turn(cmd: array<char>, argv: array<Arg>, s: nat, a: nat, ghost done: seq<string>, ghost words: seq<string>)
    returns (s': nat, a': nat, ghost done': seq<string>)
    requires s < cmd.Length && cmd[cmd.Length - 1] == NUL && cmd[s] != NUL
    requires a == |done| < argv.Length && Underway(cmd[..], s, argv[..], done, words)
    modifies cmd, argv
    ensures s < s' < cmd.Length && cmd[cmd.Length - 1] == NUL
    ensures a' == |done'| && Underway(cmd[..], s', argv[..], done', words)
    ensures a' <= a + 1 && (a' > a ==> s' >= s + 2 || (s' == s + 1 && cmd[s'] == NUL))
  {
    hide Underway;
    ghost var cells := argv[..];
    ghost var was := cmd[..];
    s', a' := s, a;
    s' := PastSpaces(cmd, s');
    ghost var from := s';
    if cmd[s'] != NUL {
      argv[a'] := At(s');
      a' := a' + 1;
    }
    s' := PastWord(cmd, s');
    ghost var e := s';
    assert s < e;
    done' := if from < e then done + [was[from..e]] else done;
    if cmd[s'] != NUL {
      cmd[s'] := NUL;
      s' := s' + 1;
    }
    RoundIsUnderway(was, s, from, e, cells, done, words, s');
    assert argv[..] == if from < e then cells[a := At(from)] else cells;
    assert cmd[..] == was[e := NUL];
  }

  /** The loop of do_exec3 over `cmd`, the copy of the command with the NUL behind it. */
  method Split(cmd: array<char>) returns (argv: array<Arg>, argc: nat)
    requires cmd.Length > 0 && cmd[cmd.Length - 1] == NUL
    modifies cmd
    ensures fresh(argv) && argv.Length == (cmd.Length - 1) / 2 + 2
    ensures argc == |Words(CString(old(cmd[..]), 0))| && argc < argv.Length && argv[argc] == Null
    ensures forall k :: 0 <= k < argc ==>
              && argv[k].At? && argv[k].index < cmd.Length
              && CString(cmd[..], argv[k].index) == Words(CString(old(cmd[..]), 0))[k]
  {
    hide Words, CString, Underway;
    ghost var words := Words(CString(cmd[..], 0));
    ghost var done: seq<string> := [];
    argv := new Arg[(cmd.Length - 1) / 2 + 2];
    NothingListed(cmd[..], argv[..]);
    var s;
    argc, s := 0, 0;
    while cmd[s] != NUL
      invariant s < cmd.Length && cmd[cmd.Length - 1] == NUL
      invariant argc == |done| && 2 * argc <= (if cmd[s] == NUL then s + 1 else s)
      invariant Underway(cmd[..], s, argv[..], done, words)
      decreases cmd.Length - s
    {
      s, argc, done := Turn(cmd, argv, s, argc, done, words);
    }
    AllListed(cmd[..], s, argv[..], done, words);
    argv[argc] := Null;
  }
}
