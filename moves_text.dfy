/**
 * The archive servers' clean-up of a game's movetext: chess.com's clock and evaluation
 * annotations, `{% ...}` leftovers, comments in braces and numeric annotation glyphs are
 * deleted, white space is collapsed, and a trailing game result is replaced by the one of
 * the `Result` tag. The two servers run the same chain.
 */
module MovesText {
  import opened Wrappers
  import opened Text
  import opened Patterns

  // ---------------------------------------------------------------- character bookkeeping

  /** A character that `replace` copies or inserts comes from the input or from the replacement. */
  lemma {:induction false} ReplaceChars(p: Pattern, s: string, i: nat, repl: string, c: char)
    requires i <= |s| && c !in repl
    ensures c in ReplaceFrom(p, s, i, repl) ==> c in s[i..]
    decreases |s| - i
  {
    if i < |s| {
      match MatchAt(p, s, i)
      case Some(e) =>
        ReplaceChars(p, s, e, repl, c);
        if c in ReplaceFrom(p, s, e, repl) {
          var k :| 0 <= k < |s[e..]| && s[e..][k] == c;
          assert s[i..][e - i + k] == c;
        }
      case None =>
        ReplaceChars(p, s, i + 1, repl, c);
        if c in ReplaceFrom(p, s, i + 1, repl) {
          var k :| 0 <= k < |s[i + 1..]| && s[i + 1..][k] == c;
          assert s[i..][k + 1] == c;
        }
    }
  }

  // ---------------------------------------------------------------- comments in braces

  /** No `{` is followed, anywhere later, by a `}`. */
  predicate BraceFree(s: string) {
    forall i | 0 <= i < |s| && s[i] == '{' :: '}' !in s[i + 1..]
  }

  /** `BraceFree` is exactly "the comment expression `\{[^}]*\}` finds nothing". */
  lemma BraceFreeIff(s: string)
    ensures BraceFree(s) <==> !Found(BraceComment, s)
  {
    if !BraceFree(s) {
      var i :| 0 <= i < |s| && s[i] == '{' && '}' in s[i + 1..];
      var m :| 0 <= m < |s[i + 1..]| && s[i + 1..][m] == '}';
      var j := SkipWhile(s, i + 1, NotCloseBrace);
      assert s[i + 1 + m] == '}' && !NotCloseBrace(s[i + 1 + m]);
      assert j <= i + 1 + m;
      assert MatchAt(BraceComment, s, i).Some?;
    }
    if Found(BraceComment, s) {
      var i :| 0 <= i < |s| && MatchAt(BraceComment, s, i).Some?;
      var j := SkipWhile(s, i + 1, NotCloseBrace);
      assert s[j] == '}';
      assert s[i + 1..][j - i - 1] == '}';
    }
  }

  lemma BraceFreeSuffix(s: string, i: nat)
    requires i <= |s| && BraceFree(s)
    ensures BraceFree(s[i..])
  {
    forall k | 0 <= k < |s[i..]| && s[i..][k] == '{' ensures '}' !in s[i..][k + 1..] {
      assert s[i..][k + 1..] == s[i + k + 1..];
    }
  }

  lemma BraceFreeSlice(s: string, a: nat, b: nat)
    requires a <= b <= |s| && BraceFree(s)
    ensures BraceFree(s[a..b])
  {
    forall k | 0 <= k < b - a && s[a..b][k] == '{' ensures '}' !in s[a..b][k + 1..] {
      assert s[a + k] == '{';
      assert s[a..b][k + 1..] == s[a + k + 1..][..b - a - k - 1];
    }
  }

  lemma BraceFreeConcat(x: string, y: string)
    requires BraceFree(x) && BraceFree(y) && ('{' in x ==> '}' !in y)
    ensures BraceFree(x + y)
  {
    var s := x + y;
    forall i | 0 <= i < |s| && s[i] == '{' ensures '}' !in s[i + 1..] {
      if i < |x| {
        assert x[i] == '{';
        assert s[i + 1..] == x[i + 1..] + y;
      } else {
        assert y[i - |x|] == '{';
        assert s[i + 1..] == y[i - |x| + 1..];
      }
    }
  }

  /**
   * Replacing the comments by a text without braces (nothing, or a space) leaves no `{` with
   * a `}` after it.
   */
  lemma {:induction false} CommentRemovalBraceFree(s: string, i: nat, repl: string)
    requires i <= |s| && '{' !in repl && '}' !in repl
    ensures BraceFree(ReplaceFrom(BraceComment, s, i, repl))
    decreases |s| - i
  {
    if i < |s| {
      match MatchAt(BraceComment, s, i)
      case Some(e) =>
        CommentRemovalBraceFree(s, e, repl);
        BraceFreeConcat(repl, ReplaceFrom(BraceComment, s, e, repl));
      case None =>
        var rest := ReplaceFrom(BraceComment, s, i + 1, repl);
        CommentRemovalBraceFree(s, i + 1, repl);
        if s[i] == '{' {
          var j := SkipWhile(s, i + 1, NotCloseBrace);
          assert j == |s|;
          ReplaceChars(BraceComment, s, i + 1, repl, '}');
          assert forall m | i + 1 <= m < |s| :: NotCloseBrace(s[m]);
          var tail := s[i + 1..];
          assert forall m | 0 <= m < |tail| :: tail[m] == s[i + 1 + m];
        }
        BraceFreeConcat([s[i]], rest);
    }
  }

  /** Any replacement whose text has no brace keeps a brace-free string brace-free. */
  lemma {:induction false} ReplaceKeepsBraceFree(p: Pattern, s: string, i: nat, repl: string)
    requires i <= |s| && BraceFree(s[i..]) && '{' !in repl && '}' !in repl
    ensures BraceFree(ReplaceFrom(p, s, i, repl))
    decreases |s| - i
  {
    if i < |s| {
      match MatchAt(p, s, i)
      case Some(e) =>
        assert s[i..][e - i..] == s[e..];
        BraceFreeSuffix(s[i..], e - i);
        ReplaceKeepsBraceFree(p, s, e, repl);
        BraceFreeConcat(repl, ReplaceFrom(p, s, e, repl));
      case None =>
        assert s[i..][1..] == s[i + 1..];
        BraceFreeSuffix(s[i..], 1);
        ReplaceKeepsBraceFree(p, s, i + 1, repl);
        ReplaceChars(p, s, i + 1, repl, '}');
        assert s[i..][0] == s[i];
        BraceFreeConcat([s[i]], ReplaceFrom(p, s, i + 1, repl));
    }
  }

  // ---------------------------------------------------------------- annotation glyphs

  /** No `$` is directly followed by a digit. */
  predicate NagFree(s: string) {
    forall i | 0 <= i < |s| - 1 && s[i] == '$' :: !IsDigit(s[i + 1])
  }

  /** `NagFree` is exactly "the glyph expression `\$\d+` finds nothing". */
  lemma NagFreeIff(s: string)
    ensures NagFree(s) <==> !Found(Nag, s)
  {
    if !NagFree(s) {
      var i :| 0 <= i < |s| - 1 && s[i] == '$' && IsDigit(s[i + 1]);
      assert SkipWhile(s, i + 1, IsDigit) > i + 1;
      assert MatchAt(Nag, s, i).Some?;
    }
  }

  lemma NagFreeCons(c: char, r: string)
    requires NagFree(r) && (c == '$' ==> r == [] || !IsDigit(r[0]))
    ensures NagFree([c] + r)
  {
    var s := [c] + r;
    forall i | 0 <= i < |s| - 1 && s[i] == '$' ensures !IsDigit(s[i + 1]) {
      if i > 0 { assert s[i] == r[i - 1] && s[i + 1] == r[i]; }
    }
  }

  lemma NagFreeSlice(s: string, a: nat, b: nat)
    requires a <= b <= |s| && NagFree(s)
    ensures NagFree(s[a..b])
  {
    forall k | 0 <= k < b - a - 1 && s[a..b][k] == '$' ensures !IsDigit(s[a..b][k + 1]) {
      assert s[a + k] == '$';
    }
  }

  /** After deleting glyphs from a point that holds no digit, the output does not start with a digit. */
  lemma {:induction false} NagRemovalHead(s: string, i: nat, repl: string)
    requires i <= |s| && (i == |s| || !IsDigit(s[i])) && (repl == "" || repl == " ")
    ensures var r := ReplaceFrom(Nag, s, i, repl); r == [] || !IsDigit(r[0])
    decreases |s| - i
  {
    if i < |s| {
      match MatchAt(Nag, s, i)
      case Some(e) =>
        NagRemovalHead(s, e, repl);
      case None =>
    }
  }

  /**
   * Deleting the glyphs, or replacing each by a space, leaves none behind: neither joins a
   * `$` to a digit.
   */
  lemma {:induction false} NagRemovalNagFree(s: string, i: nat, repl: string)
    requires i <= |s| && (repl == "" || repl == " ")
    ensures NagFree(ReplaceFrom(Nag, s, i, repl))
    decreases |s| - i
  {
    if i < |s| {
      match MatchAt(Nag, s, i)
      case Some(e) =>
        NagRemovalNagFree(s, e, repl);
        if repl == " " {
          assert repl + ReplaceFrom(Nag, s, e, repl) == [' '] + ReplaceFrom(Nag, s, e, repl);
          NagFreeCons(' ', ReplaceFrom(Nag, s, e, repl));
        }
      case None =>
        NagRemovalNagFree(s, i + 1, repl);
        if s[i] == '$' {
          assert SkipWhile(s, i + 1, IsDigit) == i + 1;
          NagRemovalHead(s, i + 1, repl);
        }
        NagFreeCons(s[i], ReplaceFrom(Nag, s, i + 1, repl));
    }
  }

  /** Replacing a run by one space keeps a glyph-free string glyph-free. */
  lemma {:induction false} SpaceReplaceKeepsNagFree(p: Pattern, s: string, i: nat)
    requires i <= |s| && NagFree(s[i..])
    ensures NagFree(ReplaceFrom(p, s, i, " "))
    decreases |s| - i
  {
    if i < |s| {
      match MatchAt(p, s, i)
      case Some(e) =>
        assert s[e..] == s[i..][e - i..];
        NagFreeSlice(s[i..], e - i, |s| - i);
        SpaceReplaceKeepsNagFree(p, s, e);
        assert " " + ReplaceFrom(p, s, e, " ") == [' '] + ReplaceFrom(p, s, e, " ");
        NagFreeCons(' ', ReplaceFrom(p, s, e, " "));
      case None =>
        assert s[i + 1..] == s[i..][1..];
        NagFreeSlice(s[i..], 1, |s| - i);
        SpaceReplaceKeepsNagFree(p, s, i + 1);
        if s[i] == '$' && i + 1 < |s| {
          assert s[i..][0] == '$' && s[i..][1] == s[i + 1];
        }
        NagFreeCons(s[i], ReplaceFrom(p, s, i + 1, " "));
    }
  }

  // ---------------------------------------------------------------- white space

  /** No space or tab directly follows another. */
  predicate SingleSpaced(s: string) {
    forall i | 0 <= i < |s| - 1 && IsSpaceOrTab(s[i]) :: !IsSpaceOrTab(s[i + 1])
  }

  lemma SingleSpacedCons(c: char, r: string)
    requires SingleSpaced(r) && (IsSpaceOrTab(c) ==> r == [] || !IsSpaceOrTab(r[0]))
    ensures SingleSpaced([c] + r)
  {
    var s := [c] + r;
    forall i | 0 <= i < |s| - 1 && IsSpaceOrTab(s[i]) ensures !IsSpaceOrTab(s[i + 1]) {
      if i > 0 { assert s[i] == r[i - 1] && s[i + 1] == r[i]; }
    }
  }

  lemma SingleSpacedSlice(s: string, a: nat, b: nat)
    requires a <= b <= |s| && SingleSpaced(s)
    ensures SingleSpaced(s[a..b])
  {
    forall k | 0 <= k < b - a - 1 && IsSpaceOrTab(s[a..b][k]) ensures !IsSpaceOrTab(s[a..b][k + 1]) {
      assert s[a..b][k] == s[a + k];
    }
  }

  /** Replacing every run of spaces and tabs by one space leaves no two of them side by side. */
  lemma {:induction false} SpaceTabRunsSingle(s: string, i: nat)
    requires i <= |s|
    ensures SingleSpaced(ReplaceFrom(SpaceTabRun, s, i, " "))
    ensures i < |s| && !IsSpaceOrTab(s[i]) ==> ReplaceFrom(SpaceTabRun, s, i, " ")[..1] == [s[i]]
    decreases |s| - i
  {
    if i < |s| {
      match MatchAt(SpaceTabRun, s, i)
      case Some(e) =>
        SpaceTabRunsSingle(s, e);
        assert " " + ReplaceFrom(SpaceTabRun, s, e, " ") == [' '] + ReplaceFrom(SpaceTabRun, s, e, " ");
        SingleSpacedCons(' ', ReplaceFrom(SpaceTabRun, s, e, " "));
      case None =>
        SpaceTabRunsSingle(s, i + 1);
        if i + 1 < |s| && IsSpaceOrTab(s[i]) {
          assert false;
        }
        SingleSpacedCons(s[i], ReplaceFrom(SpaceTabRun, s, i + 1, " "));
    }
  }

  /** Replacing every run of newlines by one space leaves no newline. */
  lemma {:induction false} NewlineRunsGone(s: string, i: nat)
    requires i <= |s|
    ensures '\n' !in ReplaceFrom(NewlineRun, s, i, " ")
    decreases |s| - i
  {
    if i < |s| {
      match MatchAt(NewlineRun, s, i)
      case Some(e) =>
        NewlineRunsGone(s, e);
      case None =>
        NewlineRunsGone(s, i + 1);
    }
  }

  /** The clean-up chain up to the white space: clock annotations, `{% ...}`, comments, glyphs. */
  function StripAnnotations(s: string): string {
    var noClock := ReplaceAll(ClockAnnotation, s, "");
    var noPercent := ReplaceAll(PercentComment, noClock, "");
    var noComment := ReplaceAll(BraceComment, noPercent, "");
    ReplaceAll(Nag, noComment, "")
  }

  /** The stripped text has no comment and no glyph left. */
  lemma StripAnnotationsClean(s: string)
    ensures BraceFree(StripAnnotations(s)) && NagFree(StripAnnotations(s))
  {
    var noClock := ReplaceAll(ClockAnnotation, s, "");
    var noPercent := ReplaceAll(PercentComment, noClock, "");
    var noComment := ReplaceAll(BraceComment, noPercent, "");
    CommentRemovalBraceFree(noPercent, 0, "");
    assert noComment[0..] == noComment;
    ReplaceKeepsBraceFree(Nag, noComment, 0, "");
    NagRemovalNagFree(noComment, 0, "");
  }

  /** The white-space step as the servers write it: runs of spaces and tabs first, then newlines. */
  function CollapseAsWritten(s: string): string {
    Trim(ReplaceAll(NewlineRun, ReplaceAll(SpaceTabRun, s, " "), " "))
  }

  /** The white-space step with newlines folded first, so that every gap ends up one space. */
  function CollapseWhitespace(s: string): string {
    Trim(ReplaceAll(SpaceTabRun, ReplaceAll(NewlineRun, s, " "), " "))
  }

  /**
   * `moves` after the clean-up chain: no comment, no glyph, no newline and no two spaces or
   * tabs side by side are left.
   */
  function CleanMoves(movesPart: string): (r: string)
    ensures Cleaned(r)
  {
    var stripped := StripAnnotations(movesPart);
    var folded := ReplaceAll(NewlineRun, stripped, " ");
    StripAnnotationsClean(movesPart);
    FoldNewlinesClean(stripped);
    FoldSpacesClean(folded);
    TrimKeepsCleaned(ReplaceAll(SpaceTabRun, folded, " "));
    CollapseWhitespace(stripped)
  }

  /**
   * What the clean-up promises of the movetext it hands on: no `{` followed later by `}`, no
   * `$`-digit glyph, no newline, and no two spaces or tabs side by side.
   */
  predicate Cleaned(m: string) {
    BraceFree(m) && NagFree(m) && '\n' !in m && SingleSpaced(m)
  }

  lemma FoldNewlinesClean(s: string)
    requires BraceFree(s) && NagFree(s)
    ensures var f := ReplaceAll(NewlineRun, s, " "); BraceFree(f) && NagFree(f) && '\n' !in f
  {
    assert s[0..] == s;
    ReplaceKeepsBraceFree(NewlineRun, s, 0, " ");
    SpaceReplaceKeepsNagFree(NewlineRun, s, 0);
    NewlineRunsGone(s, 0);
  }

  lemma FoldSpacesClean(f: string)
    requires BraceFree(f) && NagFree(f) && '\n' !in f
    ensures Cleaned(ReplaceAll(SpaceTabRun, f, " "))
  {
    assert f[0..] == f;
    ReplaceKeepsBraceFree(SpaceTabRun, f, 0, " ");
    SpaceReplaceKeepsNagFree(SpaceTabRun, f, 0);
    ReplaceChars(SpaceTabRun, f, 0, " ", '\n');
    SpaceTabRunsSingle(f, 0);
  }

  lemma TrimKeepsCleaned(x: string)
    requires Cleaned(x)
    ensures Cleaned(Trim(x))
  {
    var a, b := TrimIsSlice(x);
    BraceFreeSlice(x, a, b);
    NagFreeSlice(x, a, b);
    SingleSpacedSlice(x, a, b);
    assert forall k | 0 <= k < b - a :: x[a..b][k] == x[a + k];
  }

  lemma ExampleSpaceTabStep()
    ensures ReplaceAll(SpaceTabRun, "a \nb", " ") == "a \nb"
  {
    var s := "a \nb";
    assert SkipWhile(s, 1, IsSpaceOrTab) == 2;
    assert MatchAt(SpaceTabRun, s, 1) == Some(2);
    assert MatchAt(SpaceTabRun, s, 0).None?;
    assert MatchAt(SpaceTabRun, s, 2).None?;
    assert MatchAt(SpaceTabRun, s, 3).None?;
  }

  lemma ExampleNewlineStep()
    ensures ReplaceAll(NewlineRun, "a \nb", " ") == "a  b"
  {
    var s := "a \nb";
    assert SkipWhile(s, 2, IsNewline) == 3;
    assert MatchAt(NewlineRun, s, 2) == Some(3);
    assert MatchAt(NewlineRun, s, 0).None?;
    assert MatchAt(NewlineRun, s, 1).None?;
    assert MatchAt(NewlineRun, s, 3).None?;
  }

  /**
   * As written, a space before a line break survives next to the space the line break
   * becomes: "a \nb" collapses to "a  b".
   */
  lemma CollapseAsWrittenDoublesSpace()
    ensures CollapseAsWritten("a \nb") == "a  b"
    ensures !SingleSpaced(CollapseAsWritten("a \nb"))
  {
    ExampleSpaceTabStep();
    ExampleNewlineStep();
    TrimOfClean("a  b");
    var r := "a  b";
    assert IsSpaceOrTab(r[1]) && IsSpaceOrTab(r[2]);
  }

  /** A run that `[ \t]+` or `\n+` matches is white space. */
  lemma RunIsSpace(p: Pattern, s: string, i: nat)
    requires p == SpaceTabRun || p == NewlineRun
    requires i <= |s| && MatchAt(p, s, i).Some?
    ensures forall k | i <= k < MatchAt(p, s, i).value :: IsSpace(s[k])
  {
    if p == SpaceTabRun {
      SkipWhileAll(s, i, IsSpaceOrTab);
    } else {
      SkipWhileAll(s, i, IsNewline);
    }
  }

  /** A run of white space and a single space separate the same words. */
  lemma RunToOneSpace(u: string, s: string, i: nat, e: nat)
    requires i < e <= |s|
    requires forall k | i <= k < e :: IsSpace(s[k])
    ensures Words(u + " " + s[e..]) == Words(u + s[i..])
  {
    WordsSplitAt(u, ' ', s[e..]);
    assert u + s[i..] == u + [s[i]] + (s[i + 1..e] + s[e..]);
    WordsSplitAt(u, s[i], s[i + 1..e] + s[e..]);
    var run := s[i + 1..e];
    forall k | 0 <= k < |run| ensures IsSpace(run[k]) {
      assert run[k] == s[i + 1 + k];
    }
    WordsAfterSpaces(run, s[e..]);
  }

  /** Replacing runs of white space by one space keeps the words, whatever text precedes. */
  lemma {:induction false} SpaceReplaceKeepsWords(p: Pattern, u: string, s: string, i: nat)
    requires p == SpaceTabRun || p == NewlineRun
    requires i <= |s|
    ensures Words(u + ReplaceFrom(p, s, i, " ")) == Words(u + s[i..])
    decreases |s| - i
  {
    if i == |s| {
      assert u + ReplaceFrom(p, s, i, " ") == u + s[i..];
    } else {
      match MatchAt(p, s, i)
      case Some(e) =>
        RunIsSpace(p, s, i);
        var rest := ReplaceFrom(p, s, e, " ");
        assert ReplaceFrom(p, s, i, " ") == " " + rest;
        SpaceReplaceKeepsWords(p, u + " ", s, e);
        assert u + (" " + rest) == (u + " ") + rest;
        RunToOneSpace(u, s, i, e);
      case None =>
        var rest := ReplaceFrom(p, s, i + 1, " ");
        assert ReplaceFrom(p, s, i, " ") == [s[i]] + rest;
        SpaceReplaceKeepsWords(p, u + [s[i]], s, i + 1);
        assert u + ([s[i]] + rest) == (u + [s[i]]) + rest;
        assert u + s[i..] == (u + [s[i]]) + s[i + 1..];
    }
  }

  lemma SpaceReplaceAllKeepsWords(p: Pattern, s: string)
    requires p == SpaceTabRun || p == NewlineRun
    ensures Words(ReplaceAll(p, s, " ")) == Words(s)
  {
    SpaceReplaceKeepsWords(p, [], s, 0);
    assert [] + ReplaceAll(p, s, " ") == ReplaceAll(p, s, " ");
    assert [] + s[0..] == s;
  }

  /** Both orders of the white-space step keep exactly the words of the text. */
  lemma CollapseKeepsWords(s: string)
    ensures Words(CollapseAsWritten(s)) == Words(s)
    ensures Words(CollapseWhitespace(s)) == Words(s)
  {
    SpaceReplaceAllKeepsWords(SpaceTabRun, s);
    SpaceReplaceAllKeepsWords(NewlineRun, ReplaceAll(SpaceTabRun, s, " "));
    WordsOfTrim(ReplaceAll(NewlineRun, ReplaceAll(SpaceTabRun, s, " "), " "));
    SpaceReplaceAllKeepsWords(NewlineRun, s);
    SpaceReplaceAllKeepsWords(SpaceTabRun, ReplaceAll(NewlineRun, s, " "));
    WordsOfTrim(ReplaceAll(SpaceTabRun, ReplaceAll(NewlineRun, s, " "), " "));
  }

  /**
   * `moves` after the clean-up chain as the servers write it: the same words as the corrected
   * clean-up.
   */
  function CleanMovesAsWritten(movesPart: string): (r: string)
    ensures Words(r) == Words(CleanMoves(movesPart))
  {
    CollapseKeepsWords(StripAnnotations(movesPart));
    CollapseAsWritten(StripAnnotations(movesPart))
  }

  // ---------------------------------------------------------------- the game result

  /**
   * The end of the result the alternation `1-0|0-1|1\/2-1\/2|\*` matches at `j`, if any. At
   * most one alternative can occur at a position, so the order of the alternatives and any
   * backtracking among them change nothing.
   */
  function ResultTokenEnd(m: string, j: nat): (e: Option<nat>)
    requires j <= |m|
    ensures e.Some? ==> j < e.value <= |m|
  {
    if OccursAt(m, "1-0", j) then Some(j + 3)
    else if OccursAt(m, "0-1", j) then Some(j + 3)
    else if OccursAt(m, "1/2-1/2", j) then Some(j + 7)
    else if OccursAt(m, "*", j) then Some(j + 1)
    else None
  }

  /** Only white space from `e` to the end. */
  predicate SpaceFrom(m: string, e: nat)
    requires e <= |m|
  {
    forall k | e <= k < |m| :: IsSpace(m[k])
  }

  /**
   * `\s*(1-0|0-1|1\/2-1\/2|\*)\s*$` tried at `i` (the `i` flag changes nothing, the
   * alternatives hold no letter): the leading `\s*` must stop at the result, which does not
   * start with white space, and only white space may follow it.
   */
  predicate ResultTailAt(m: string, i: nat)
    requires i <= |m|
  {
    var e := ResultTokenEnd(m, SkipWhile(m, i, IsSpace));
    e.Some? && SpaceFrom(m, e.value)
  }

  /** Where the search for a trailing result first succeeds, from `i` on. */
  function FirstResultTail(m: string, i: nat): (r: Option<nat>)
    requires i <= |m|
    ensures r.Some? ==> i <= r.value <= |m|
    decreases |m| - i
  {
    if ResultTailAt(m, i) then Some(i)
    else if i == |m| then None
    else FirstResultTail(m, i + 1)
  }

  /** The search finds the leftmost position where the pattern matches. */
  lemma {:induction false} FirstResultTailLeftmost(m: string, i: nat)
    requires i <= |m|
    ensures FirstResultTail(m, i).Some? ==> ResultTailAt(m, FirstResultTail(m, i).value)
    ensures forall k | i <= k <= |m| && ResultTailAt(m, k) ::
      FirstResultTail(m, i).Some? && FirstResultTail(m, i).value <= k
    decreases |m| - i
  {
    if !ResultTailAt(m, i) && i < |m| {
      FirstResultTailLeftmost(m, i + 1);
    }
  }

  /**
   * `moves.replace(/\s*(1-0|0-1|1\/2-1\/2|\*)\s*$/i, "")`: at most one trailing result,
   * with the white space around it, is cut off the end.
   */
  function StripTrailingResult(m: string): (r: string)
    ensures |r| <= |m| && r == m[..|r|]
  {
    match FirstResultTail(m, 0)
    case None => m
    case Some(i) => m[..i]
  }

  /**
   * What is cut is the leftmost match: a kept text is what precedes a trailing result, and
   * no earlier position starts one; an unchanged text ends with no result at all.
   */
  lemma StripTrailingResultSpec(m: string)
    ensures var r := StripTrailingResult(m);
      && (r != m ==> ResultTailAt(m, |r|))
      && (forall k | 0 <= k < |r| :: !ResultTailAt(m, k))
      && (r == m ==> forall k | 0 <= k <= |m| :: !ResultTailAt(m, k))
  {
    FirstResultTailLeftmost(m, 0);
  }

  /**
   * "Ensure result appears exactly once at the end": unless the `Result` tag is `*` (or
   * missing), a trailing result is stripped and the tag's result appended after one space.
   * With a final result, the last token of the movetext is that result.
   */
  function EnsureResult(result: string, moves: string): (r: string)
    ensures IsFinalResult(result) ==> var w := Words(r); w != [] && w[|w| - 1] == result
  {
    if result != "" && result != "*" then
      var stripped := StripTrailingResult(moves);
      if IsFinalResult(result) then
        AppendResultShape(stripped, result);
        AppendedLastToken(Trim(stripped), result);
        AppendResult(stripped, result)
      else AppendResult(stripped, result)
    else moves
  }

  /** `${moves.trim()} ${result}`.trim() */
  function AppendResult(stripped: string, result: string): string {
    Trim(Trim(stripped) + " " + result)
  }

  /** An unfinished game's movetext is left alone. */
  lemma EnsureResultUnfinished(result: string, moves: string)
    requires result == "" || result == "*"
    ensures EnsureResult(result, moves) == moves
  {
  }

  /** The decisive and drawn results: the values a finished game's `Result` tag carries. */
  predicate IsFinalResult(result: string) {
    result == "1-0" || result == "0-1" || result == "1/2-1/2"
  }

  lemma FinalResultClean(result: string)
    requires IsFinalResult(result)
    ensures 3 <= |result| && NoSpace(result)
  {
    forall k | 0 <= k < |result| ensures !IsSpace(result[k]) {
      assert result[k] == '1' || result[k] == '0' || result[k] == '-' || result[k] == '/' || result[k] == '2';
    }
  }

  /** The appended text: the stripped moves and the result, one space apart, or the result alone. */
  lemma AppendShape(p: string, result: string)
    requires IsFinalResult(result)
    requires p == [] || (!IsSpace(p[0]) && !IsSpace(p[|p| - 1]))
    ensures p == [] ==> Trim(p + " " + result) == result
    ensures p != [] ==> Trim(p + " " + result) == p + " " + result
  {
    FinalResultClean(result);
    var s := p + " " + result;
    if p == [] {
      assert s == " " + result;
      SkipWhileUnique(s, 0, IsSpace, 1);
      assert TrimStart(s) == result;
      TrimOfClean(result);
    } else {
      assert s[0] == p[0] && s[|s| - 1] == result[|result| - 1];
      TrimOfClean(s);
    }
  }

  lemma HalfSuffix(m: string, j: nat)
    ensures j + 7 == |m| && OccursAt(m, "1/2-1/2", j) ==> m[|m| - 3..] == "1/2"
  {
    if j + 7 == |m| && OccursAt(m, "1/2-1/2", j) {
      assert m[|m| - 3..] == m[j..j + 7][4..];
    }
  }

  /** A result matched at `j` that reaches the end of a text ending with `result` is no longer than it. */
  lemma TailNoLonger(m: string, j: nat, result: string)
    requires IsFinalResult(result) && j <= |m| && |result| <= |m| && m[|m| - |result|..] == result
    ensures ResultTokenEnd(m, j) == Some(|m|) ==> |m| - j <= |result|
  {
    HalfSuffix(m, j);
  }

  /** The stripped moves and the result, one space apart, or the result alone. */
  function Appended(p: string, result: string): string {
    if p == [] then result else p + " " + result
  }

  /** With a final result, the movetext ends with that result, once. */
  lemma EnsureResultShape(result: string, moves: string)
    requires IsFinalResult(result)
    ensures EnsureResult(result, moves) == Appended(Trim(StripTrailingResult(moves)), result)
  {
    FinalResultClean(result);
    assert result != "" && result != "*";
    AppendResultShape(StripTrailingResult(moves), result);
  }

  lemma AppendResultShape(stripped: string, result: string)
    requires IsFinalResult(result)
    ensures AppendResult(stripped, result) == Appended(Trim(stripped), result)
  {
    AppendShape(Trim(stripped), result);
  }

  /** In the appended text, the trailing result starts right after the stripped moves. */
  lemma AppendedTail(p: string, result: string)
    requires IsFinalResult(result) && (p == [] || (!IsSpace(p[0]) && !IsSpace(p[|p| - 1])))
    ensures ResultTailAt(Appended(p, result), if p == [] then 0 else |p|)
  {
    var out := Appended(p, result);
    FinalResultClean(result);
    var q := if p == [] then 0 else |p|;
    var j := if p == [] then 0 else |p| + 1;
    SkipWhileUnique(out, q, IsSpace, j);
    assert out[j..] == result;
    assert out[j..j + |result|] == result;
    if result == "0-1" {
      assert out[j] == '0';
    } else if result == "1/2-1/2" {
      assert out[j] == '1' && out[j + 1] == '/';
    }
    assert ResultTokenEnd(out, j) == Some(|out|);
  }

  /** No position inside the stripped moves starts a trailing result of the appended text. */
  lemma AppendedNoEarlierTail(p: string, result: string, k: nat)
    requires IsFinalResult(result) && p != [] && !IsSpace(p[0]) && !IsSpace(p[|p| - 1])
    requires k < |p|
    ensures !ResultTailAt(Appended(p, result), k)
  {
    var out := Appended(p, result);
    FinalResultClean(result);
    var j := SkipWhile(out, k, IsSpace);
    assert out[|p| - 1] == p[|p| - 1];
    assert j <= |p| - 1;
    assert out[|out| - |result|..] == result;
    TailNoLonger(out, j, result);
    assert !IsSpace(out[|out| - 1]);
  }

  /** Stripping the appended text gives back the stripped moves. */
  lemma StripAppended(p: string, result: string)
    requires IsFinalResult(result) && (p == [] || (!IsSpace(p[0]) && !IsSpace(p[|p| - 1])))
    ensures StripTrailingResult(Appended(p, result)) == p
  {
    var out := Appended(p, result);
    var q := if p == [] then 0 else |p|;
    AppendedTail(p, result);
    forall k | 0 <= k < q ensures !ResultTailAt(out, k) {
      AppendedNoEarlierTail(p, result, k);
    }
    FirstResultTailLeftmost(out, 0);
  }

  /** Ensuring the result twice is ensuring it once: the result appears exactly once at the end. */
  lemma EnsureResultIdempotent(result: string, moves: string)
    requires IsFinalResult(result)
    ensures EnsureResult(result, EnsureResult(result, moves)) == EnsureResult(result, moves)
  {
    var p := Trim(StripTrailingResult(moves));
    var out := EnsureResult(result, moves);
    EnsureResultShape(result, moves);
    StripAppended(p, result);
    assert StripTrailingResult(out) == p;
    TrimOfClean(p);
    EnsureResultShape(result, out);
  }

  /** The appended text's last token is the result. */
  lemma AppendedLastToken(p: string, result: string)
    requires IsFinalResult(result)
    ensures var w := Words(Appended(p, result)); w != [] && w[|w| - 1] == result
  {
    FinalResultClean(result);
    WordsOfWord(result);
    if p != [] {
      WordsSplitAt(p, ' ', result);
      assert p + " " + result == p + [' '] + result;
    }
  }

  // ---------------------------------------------------------------- the result on words

  /** The texts the alternation `1-0|0-1|1\/2-1\/2|\*` matches. */
  predicate IsResultToken(t: string) {
    t == "1-0" || t == "0-1" || t == "1/2-1/2" || t == "*"
  }

  lemma ResultTokenChars(t: string)
    requires IsResultToken(t)
    ensures t != [] && NoSpace(t)
  {
    forall k | 0 <= k < |t| ensures !IsSpace(t[k]) {
      assert t[k] in "10-/2*";
    }
  }

  /** The alternation matches from `j` to `e` exactly when that stretch is one of the results. */
  lemma ResultTokenEndIff(m: string, j: nat, e: nat)
    requires j <= e <= |m|
    ensures ResultTokenEnd(m, j) == Some(e) <==> IsResultToken(m[j..e])
  {
    var t := m[j..e];
    if IsResultToken(t) {
      assert m[j] == t[0];
      if |t| > 1 {
        assert m[j + 1] == t[1];
        assert j + 3 <= |m| ==> m[j..j + 3][1] == m[j + 1];
      }
      assert j + 1 <= |m| ==> m[j..j + 1][0] == m[j];
      assert j + 3 <= |m| ==> m[j..j + 3][0] == m[j];
    }
    if ResultTokenEnd(m, j) == Some(e) {
      assert OccursAt(m, "1-0", j) || OccursAt(m, "0-1", j) || OccursAt(m, "1/2-1/2", j) || OccursAt(m, "*", j);
    }
  }

  /** The characters from `k` up to a text's last white space hold no white space. */
  lemma TokenSpan(m: string, j: nat, e: nat)
    requires j <= e <= |m| && IsResultToken(m[j..e])
    ensures forall i | j <= i < e :: !IsSpace(m[i])
  {
    ResultTokenChars(m[j..e]);
    forall i | j <= i < e ensures !IsSpace(m[i]) {
      assert m[i] == m[j..e][i - j];
    }
  }

  /** Inside the last word, the pattern matches exactly where the rest of the word is a result. */
  lemma TailInWord(m: string, b: nat, k: nat)
    requires k < b <= |m|
    requires forall i | k <= i < b :: !IsSpace(m[i])
    requires forall i | b <= i < |m| :: IsSpace(m[i])
    ensures ResultTailAt(m, k) <==> IsResultToken(m[k..b])
  {
    SkipWhileUnique(m, k, IsSpace, k);
    ResultTokenEndIff(m, k, b);
    match ResultTokenEnd(m, k)
    case Some(e) =>
      ResultTokenEndIff(m, k, e);
      TokenSpan(m, k, e);
      assert !IsSpace(m[e - 1]);
      assert e <= b;
      if e < b {
        assert !IsSpace(m[e]);
      }
    case None =>
  }

  /** After the last word, only white space is left and the pattern cannot match. */
  lemma TailAfterWord(m: string, b: nat, k: nat)
    requires b <= k <= |m|
    requires forall i | b <= i < |m| :: IsSpace(m[i])
    ensures !ResultTailAt(m, k)
  {
    SkipWhileUnique(m, k, IsSpace, |m|);
  }

  /**
   * Before the last word, the pattern matches exactly where only white space separates the
   * position from the last word, and that word is a result.
   */
  lemma TailBeforeWord(m: string, a: nat, b: nat, k: nat)
    requires k < a < b <= |m| && IsSpace(m[a - 1])
    requires forall i | a <= i < b :: !IsSpace(m[i])
    requires forall i | b <= i < |m| :: IsSpace(m[i])
    ensures ResultTailAt(m, k) <==> (forall i | k <= i < a :: IsSpace(m[i])) && IsResultToken(m[a..b])
  {
    TailInWord(m, b, a);
    SkipWhileUnique(m, a, IsSpace, a);
    if forall i | k <= i < a :: IsSpace(m[i]) {
      SkipWhileUnique(m, k, IsSpace, a);
    } else {
      var j := SkipWhile(m, k, IsSpace);
      assert j < a;
      match ResultTokenEnd(m, j)
      case Some(e) =>
        ResultTokenEndIff(m, j, e);
        TokenSpan(m, j, e);
        assert e < a;
        assert !IsSpace(m[a]);
      case None =>
    }
  }

  /** The words after the trailing result is cut: the last word loses the result it ends with. */
  function StripLastResult(ws: seq<string>): seq<string> {
    if ws == [] then [] else ws[..|ws| - 1] + Words(StripTrailingResult(ws[|ws| - 1]))
  }

  /** At a position inside the last word, the text and the word alone match alike. */
  lemma TailShiftInWord(m: string, a: nat, b: nat, j: nat)
    requires a + j < b <= |m|
    requires forall i | a <= i < b :: !IsSpace(m[i])
    requires forall i | b <= i < |m| :: IsSpace(m[i])
    ensures ResultTailAt(m[a..b], j) <==> ResultTailAt(m, a + j)
  {
    var w := m[a..b];
    forall i | j <= i < |w| ensures !IsSpace(w[i]) {
      assert w[i] == m[a + i];
    }
    TailInWord(w, |w|, j);
    TailInWord(m, b, a + j);
    assert w[j..|w|] == m[a + j..b];
  }

  /** Inside the last word `w`, a trailing result of the text is a trailing result of `w`. */
  lemma TailsOfLastWord(m: string, a: nat, b: nat)
    requires a < b <= |m|
    requires forall i | a <= i < b :: !IsSpace(m[i])
    requires forall i | b <= i < |m| :: IsSpace(m[i])
    ensures forall j | 0 <= j < b - a :: ResultTailAt(m[a..b], j) <==> ResultTailAt(m, a + j)
    ensures !ResultTailAt(m[a..b], b - a)
    ensures forall k | b <= k <= |m| :: !ResultTailAt(m, k)
  {
    forall j | 0 <= j < b - a ensures ResultTailAt(m[a..b], j) <==> ResultTailAt(m, a + j) {
      TailShiftInWord(m, a, b, j);
    }
    TailAfterWord(m[a..b], b - a, b - a);
    forall k | b <= k <= |m| ensures !ResultTailAt(m, k) {
      TailAfterWord(m, b, k);
    }
  }

  /** Where the last word keeps no result, the text keeps none either. */
  lemma StripKeepsText(m: string, a: nat, b: nat)
    requires a < b <= |m| && (a == 0 || IsSpace(m[a - 1]))
    requires forall i | a <= i < b :: !IsSpace(m[i])
    requires forall i | b <= i < |m| :: IsSpace(m[i])
    requires StripTrailingResult(m[a..b]) == m[a..b]
    ensures StripTrailingResult(m) == m
  {
    var w := m[a..b];
    StripTrailingResultSpec(w);
    StripTrailingResultSpec(m);
    TailsOfLastWord(m, a, b);
    forall k | 0 <= k < a ensures !ResultTailAt(m, k) {
      TailBeforeWord(m, a, b, k);
      assert !ResultTailAt(w, 0);
      TailInWord(m, b, a);
    }
    forall k | a <= k < b ensures !ResultTailAt(m, k) {
      assert !ResultTailAt(w, k - a);
    }
  }

  /** The cut is made at the leftmost position where the pattern matches. */
  lemma StripAtLeftmost(m: string, p: nat)
    requires p <= |m| && ResultTailAt(m, p)
    requires forall k | 0 <= k < p :: !ResultTailAt(m, k)
    ensures StripTrailingResult(m) == m[..p]
  {
    StripTrailingResultSpec(m);
  }

  /** A last word that is not a result leaves no match in front of it. */
  lemma NoTailBeforeWord(m: string, a: nat, b: nat)
    requires a < b <= |m| && (a == 0 || IsSpace(m[a - 1]))
    requires forall i | a <= i < b :: !IsSpace(m[i])
    requires forall i | b <= i < |m| :: IsSpace(m[i])
    requires !IsResultToken(m[a..b])
    ensures forall k | 0 <= k < a :: !ResultTailAt(m, k)
  {
    forall k | 0 <= k < a ensures !ResultTailAt(m, k) {
      TailBeforeWord(m, a, b, k);
    }
  }

  /** A result that is part of the last word is cut at the same place in the text. */
  lemma StripInsideWord(m: string, a: nat, b: nat)
    requires a < b <= |m| && (a == 0 || IsSpace(m[a - 1]))
    requires forall i | a <= i < b :: !IsSpace(m[i])
    requires forall i | b <= i < |m| :: IsSpace(m[i])
    requires 0 < |StripTrailingResult(m[a..b])| < b - a
    ensures StripTrailingResult(m) == m[..a] + StripTrailingResult(m[a..b])
  {
    var t := |StripTrailingResult(m[a..b])|;
    CutInsideWord(m, a, b, t);
    PrefixThroughWord(m, a, b, t);
  }

  /** The leftmost match inside the last word is the leftmost match of the text. */
  lemma CutInsideWord(m: string, a: nat, b: nat, t: nat)
    requires a < b <= |m| && (a == 0 || IsSpace(m[a - 1]))
    requires forall i | a <= i < b :: !IsSpace(m[i])
    requires forall i | b <= i < |m| :: IsSpace(m[i])
    requires t == |StripTrailingResult(m[a..b])| && 0 < t < b - a
    ensures StripTrailingResult(m) == m[..a + t]
    ensures StripTrailingResult(m[a..b]) == m[a..b][..t]
  {
    FirstCutInWord(m[a..b], t);
    TailShiftInWord(m, a, b, t);
    NoTailUpTo(m, a, b, t);
    StripAtLeftmost(m, a + t);
  }

  /** A cut word is cut at its first match. */
  lemma FirstCutInWord(w: string, t: nat)
    requires t == |StripTrailingResult(w)| < |w|
    ensures ResultTailAt(w, t) && forall j | 0 <= j < t :: !ResultTailAt(w, j)
  {
    StripTrailingResultSpec(w);
  }

  /** No match starts before the first one inside the last word. */
  lemma NoTailUpTo(m: string, a: nat, b: nat, t: nat)
    requires a + t < b <= |m| && (a == 0 || IsSpace(m[a - 1]))
    requires forall i | a <= i < b :: !IsSpace(m[i])
    requires forall i | b <= i < |m| :: IsSpace(m[i])
    requires 0 < t && forall j | 0 <= j < t :: !ResultTailAt(m[a..b], j)
    ensures forall k | 0 <= k < a + t :: !ResultTailAt(m, k)
  {
    TailShiftInWord(m, a, b, 0);
    TailInWord(m, b, a);
    assert !IsResultToken(m[a..b]);
    forall k | 0 <= k < a ensures !ResultTailAt(m, k) {
      TailBeforeWord(m, a, b, k);
    }
    forall k | a <= k < a + t ensures !ResultTailAt(m, k) {
      TailShiftInWord(m, a, b, k - a);
    }
  }

  lemma PrefixThroughWord(m: string, a: nat, b: nat, t: nat)
    requires a + t <= b <= |m|
    ensures m[..a + t] == m[..a] + m[a..b][..t]
  {
    assert m[a..b][..t] == m[a..a + t];
  }

  /** A last word that is a result is cut with the white space in front of it. */
  lemma StripWholeWord(m: string, a: nat, b: nat)
    requires a < b <= |m| && (a == 0 || IsSpace(m[a - 1]))
    requires forall i | a <= i < b :: !IsSpace(m[i])
    requires forall i | b <= i < |m| :: IsSpace(m[i])
    requires StripTrailingResult(m[a..b]) == []
    ensures Words(StripTrailingResult(m)) == Words(m[..a])
  {
    StripTrailingResultSpec(m[a..b]);
    TailShiftInWord(m, a, b, 0);
    var p := CutAtMost(m, a);
    if p < a {
      TailBeforeWord(m, a, b, p);
    }
    WordsDropGap(m, p, a);
  }

  /** A match at `q` means the cut happens there or earlier, where the pattern matches too. */
  lemma CutAtMost(m: string, q: nat) returns (p: nat)
    requires q <= |m| && ResultTailAt(m, q)
    ensures p <= q && ResultTailAt(m, p) && StripTrailingResult(m) == m[..p]
  {
    StripTrailingResultSpec(m);
    p := |StripTrailingResult(m)|;
  }

  /** White space between `p` and `a` adds no word. */
  lemma WordsDropGap(m: string, p: nat, a: nat)
    requires p <= a <= |m|
    requires forall i | p <= i < a :: IsSpace(m[i])
    ensures Words(m[..p]) == Words(m[..a])
  {
    var u := m[..a];
    forall i | p <= i < |u| ensures IsSpace(u[i]) {
      assert u[i] == m[i];
    }
    WordsDropTail(u, p);
    assert u[..p] == m[..p];
  }

  /** A text of white space only holds no result to cut. */
  lemma StripOfBlank(m: string)
    requires TrimEnd(m) == []
    ensures StripTrailingResult(m) == m && Words(m) == []
  {
    forall k | 0 <= k <= |m| ensures !ResultTailAt(m, k) {
      TailAfterWord(m, 0, k);
    }
    StripTrailingResultSpec(m);
    WordsOfSpaces(m);
  }

  /** The words left after the cut: those before the last word, then what the cut leaves of it. */
  lemma StripOfLastWord(m: string, a: nat, b: nat)
    requires a < b <= |m| && (a == 0 || IsSpace(m[a - 1]))
    requires forall i | a <= i < b :: !IsSpace(m[i])
    requires forall i | b <= i < |m| :: IsSpace(m[i])
    requires Words(m) == Words(m[..a]) + [m[a..b]]
    ensures Words(StripTrailingResult(m)) == Words(m[..a]) + Words(StripTrailingResult(m[a..b]))
  {
    var rw := StripTrailingResult(m[a..b]);
    if rw == m[a..b] {
      StripKeepsWords(m, a, b);
    } else if rw == [] {
      StripWholeWord(m, a, b);
    } else {
      StripInsideWordWords(m, a, b);
    }
  }

  lemma StripKeepsWords(m: string, a: nat, b: nat)
    requires a < b <= |m| && (a == 0 || IsSpace(m[a - 1]))
    requires forall i | a <= i < b :: !IsSpace(m[i])
    requires forall i | b <= i < |m| :: IsSpace(m[i])
    requires Words(m) == Words(m[..a]) + [m[a..b]]
    requires StripTrailingResult(m[a..b]) == m[a..b]
    ensures Words(StripTrailingResult(m)) == Words(m[..a]) + Words(StripTrailingResult(m[a..b]))
  {
    StripKeepsText(m, a, b);
    WordOfSpan(m, a, b);
  }

  lemma StripInsideWordWords(m: string, a: nat, b: nat)
    requires a < b <= |m| && (a == 0 || IsSpace(m[a - 1]))
    requires forall i | a <= i < b :: !IsSpace(m[i])
    requires forall i | b <= i < |m| :: IsSpace(m[i])
    requires StripTrailingResult(m[a..b]) != m[a..b] && StripTrailingResult(m[a..b]) != []
    ensures Words(StripTrailingResult(m)) == Words(m[..a]) + Words(StripTrailingResult(m[a..b]))
  {
    var rw := StripTrailingResult(m[a..b]);
    assert |rw| < b - a;
    StripInsideWord(m, a, b);
    assert a > 0 ==> m[..a][a - 1] == m[a - 1];
    WordsAfterGap(m[..a], rw);
  }

  lemma WordOfSpan(m: string, a: nat, b: nat)
    requires a < b <= |m|
    requires forall i | a <= i < b :: !IsSpace(m[i])
    ensures Words(m[a..b]) == [m[a..b]]
  {
    var w := m[a..b];
    forall i | 0 <= i < |w| ensures !IsSpace(w[i]) {
      assert w[i] == m[a + i];
    }
    WordsOfWord(w);
  }

  /** Cutting the trailing result depends on the words alone: it cuts the result off the last word. */
  lemma StripResultWords(m: string)
    ensures Words(StripTrailingResult(m)) == StripLastResult(Words(m))
  {
    if TrimEnd(m) == [] {
      StripOfBlank(m);
    } else {
      var a, b := LastWordSplit(m);
      StripOfLastWord(m, a, b);
      var ws := Words(m[..a]) + [m[a..b]];
      assert ws[..|ws| - 1] == Words(m[..a]) && ws[|ws| - 1] == m[a..b];
    }
  }

  /**
   * The words of the movetext after the result rule: the words before, with a trailing result
   * cut off the last word and the tag's result added, unless the game is unfinished.
   */
  lemma EnsureResultWords(result: string, moves: string)
    ensures Words(EnsureResult(result, moves)) ==
      if result != "" && result != "*" then StripLastResult(Words(moves)) + Words(result)
      else Words(moves)
  {
    if result != "" && result != "*" {
      var p := StripTrailingResult(moves);
      WordsOfTrim(Trim(p) + " " + result);
      WordsSplitAt(Trim(p), ' ', result);
      WordsOfTrim(p);
      StripResultWords(moves);
    }
  }

  // ---------------------------------------------------------------- the end time

  /** `\bGMT[+-]\d{4}\b` matching at `i`. */
  predicate GmtOffsetAt(s: string, i: nat) {
    i + 8 <= |s| && s[i..i + 3] == "GMT" && (s[i + 3] == '+' || s[i + 3] == '-')
    && AllDigits(s[i + 4..i + 8])
    && (i == 0 || !IsWordChar(s[i - 1]))
    && (i + 8 == |s| || !IsWordChar(s[i + 8]))
  }

  /** `/\bGMT[+-]\d{4}\b/.test(s)`. */
  predicate HasGmtOffset(s: string) {
    exists i | 0 <= i <= |s| :: GmtOffsetAt(s, i)
  }

  /**
   * `endTime` with " GMT+0000" appended when it is non-empty and names no offset: an empty
   * time stays empty, every other one ends up naming an offset, one that already names an
   * offset is kept, and the result always starts with the time given.
   */
  function FixEndTime(endTime: string): (r: string)
    ensures r == "" <==> endTime == ""
    ensures endTime != "" ==> HasGmtOffset(r)
    ensures HasGmtOffset(endTime) ==> r == endTime
    ensures |endTime| <= |r| && r[..|endTime|] == endTime
  {
    if endTime != "" && !HasGmtOffset(endTime) then
      var s := endTime + " GMT+0000";
      var i := |endTime| + 1;
      assert s[i..i + 3] == "GMT" && s[i + 3] == '+' && s[i + 4..i + 8] == "0000";
      assert s[i - 1] == ' ';
      assert GmtOffsetAt(s, i);
      s
    else endTime
  }

  /** Fixing a fixed time changes nothing. */
  lemma FixEndTimeIdempotent(endTime: string)
    ensures FixEndTime(FixEndTime(endTime)) == FixEndTime(endTime)
  {
    var r := FixEndTime(endTime);
    if endTime != "" {
      assert HasGmtOffset(r);
    }
  }
}
