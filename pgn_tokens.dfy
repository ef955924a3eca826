/**
 * The popup's PGN helpers: `normalizePgn` (line endings, dropped Link/ECO/EndTime tag lines,
 * one blank line between the tag block and the movetext, invisible characters) and
 * `extractSanTokens`, which strips tag pairs, comments (section 5 of the PGN standard),
 * NAGs (section 8.2.4) and recursive annotation variations (section 8.2.5), then reads the
 * movetext word by word, skipping move numbers and stopping at the game termination marker
 * (section 8.2.6).
 */
module PgnTokens {
  import opened Wrappers
  import opened Text
  import opened Patterns
  import MovesText

  // ---------------------------------------------------------------- the tag block

  /** The end of the last `\n` among the characters in [lo, hi), if there is one. */
  function LastNewline(s: string, lo: nat, hi: nat): (r: Option<nat>)
    requires lo <= hi <= |s|
    ensures r.Some? ==> lo < r.value <= hi && s[r.value - 1] == '\n'
    ensures r.Some? ==> forall k | r.value <= k < hi :: s[k] != '\n'
    ensures r.None? ==> forall k | lo <= k < hi :: s[k] != '\n'
    decreases hi - lo
  {
    if hi == lo then None
    else if s[hi - 1] == '\n' then Some(hi)
    else LastNewline(s, lo, hi - 1)
  }

  /**
   * `\[[^\]]+\]\s*\n`, one line of the tag block, at `i`. `[^\]]+` stops at the first `]`;
   * the greedy `\s*` gives characters back until a `\n` follows, so the entry ends just
   * after the last newline of the white space behind the `]`.
   */
  function TagEntryAt(s: string, i: nat): (r: Option<nat>)
    requires i <= |s|
    ensures r.Some? ==> i < r.value <= |s|
  {
    if i == |s| || s[i] != '[' then None
    else
      var j := SkipWhile(s, i + 1, NotCloseBracket);
      if j == i + 1 || j == |s| then None
      else LastNewline(s, j + 1, SkipWhile(s, j + 1, IsSpace))
  }

  /**
   * `(?:...)+` from a first entry at `i`: as many entries as follow one another. No entry
   * can start inside the white space an earlier one gave back, so the greedy choice is the
   * only one.
   */
  function TagBlockEnd(s: string, i: nat): (e: nat)
    requires i <= |s|
    ensures i <= e <= |s|
    decreases |s| - i
  {
    match TagEntryAt(s, i)
    case None => i
    case Some(e) => TagBlockEnd(s, e)
  }

  /** `s.match(/^(?:\[[^\]]+\]\s*\n)+/m)` searched from `i`: where the block starts and ends. */
  function TagBlockFrom(s: string, i: nat): (r: Option<(nat, nat)>)
    requires i <= |s|
    ensures r.Some? ==> i <= r.value.0 < r.value.1 <= |s|
    decreases |s| - i
  {
    if AtLineStart(s, i) && TagEntryAt(s, i).Some? then
      Some((i, TagBlockEnd(s, TagEntryAt(s, i).value)))
    else if i == |s| then None
    else TagBlockFrom(s, i + 1)
  }

  /** The block found is the leftmost one: it starts a line with an entry, and no earlier line does. */
  lemma {:induction false} TagBlockLeftmost(s: string, i: nat)
    requires i <= |s|
    ensures var r := TagBlockFrom(s, i);
      && (r.Some? ==> AtLineStart(s, r.value.0) && TagEntryAt(s, r.value.0) .Some?
                      && r.value.1 == TagBlockEnd(s, TagEntryAt(s, r.value.0).value))
      && (forall k | i <= k < (if r.Some? then r.value.0 else |s| + 1) ::
            !(AtLineStart(s, k) && TagEntryAt(s, k).Some?))
    decreases |s| - i
  {
    if !(AtLineStart(s, i) && TagEntryAt(s, i).Some?) && i < |s| {
      TagBlockLeftmost(s, i + 1);
    }
  }

  /**
   * The tag-block step of `normalizePgn` as written: `rest` is `s.slice(tagBlock.length)`,
   * counted from the start of `s` rather than from where the block was found.
   */
  function SeparateTagBlockAsWritten(s: string): (r: string)
    ensures TagBlockFrom(s, 0).None? ==> r == s
  {
    match TagBlockFrom(s, 0)
    case None => s
    case Some((a, e)) => TrimEnd(s[a..e]) + "\n\n" + TrimStart(s[e - a..])
  }

  /** The tag-block step with `rest` taken after the block: the block, a blank line, the movetext. */
  function SeparateTagBlock(s: string): (r: string)
    ensures TagBlockFrom(s, 0).None? ==> r == s
  {
    match TagBlockFrom(s, 0)
    case None => s
    case Some((a, e)) => TrimEnd(s[a..e]) + "\n\n" + TrimStart(s[e..])
  }

  lemma SeparateKeepsText(s: string, a: nat, e: nat)
    requires a <= e <= |s|
    ensures Squeeze(TrimEnd(s[a..e]) + "\n\n" + TrimStart(s[e..])) == Squeeze(s[a..])
  {
    SqueezeAppend(TrimEnd(s[a..e]) + "\n\n", TrimStart(s[e..]));
    SqueezeAppend(TrimEnd(s[a..e]), "\n\n");
    SqueezeOfSpaces("\n\n");
    TrimEndSqueeze(s[a..e]);
    TrimStartSqueeze(s[e..]);
    assert s[a..] == s[a..e] + s[e..];
    SqueezeAppend(s[a..e], s[e..]);
  }

  /**
   * When only white space precedes the block (as the removed Link, ECO and EndTime lines
   * leave behind), the corrected step keeps every visible character, in order.
   */
  lemma SeparateKeepsVisibleText(s: string, a: nat, e: nat)
    requires TagBlockFrom(s, 0) == Some((a, e))
    requires forall k | 0 <= k < a :: IsSpace(s[k])
    ensures Squeeze(SeparateTagBlock(s)) == Squeeze(s)
  {
    assert SeparateTagBlock(s) == TrimEnd(s[a..e]) + "\n\n" + TrimStart(s[e..]);
    SeparateKeepsText(s, a, e);
    var pre := s[..a];
    forall k | 0 <= k < |pre| ensures IsSpace(pre[k]) {
      assert pre[k] == s[k];
    }
    SqueezeOfSpaces(pre);
    assert s == pre + s[a..];
    SqueezeAppend(pre, s[a..]);
  }

  /** When the block opens the text, the step as written and the corrected step agree. */
  lemma SeparateAsWrittenAtStart(s: string, e: nat)
    requires TagBlockFrom(s, 0) == Some((0, e))
    ensures SeparateTagBlockAsWritten(s) == SeparateTagBlock(s)
  {
  }

  /** The example below: the block `[a]\n` sits after two newlines. */
  lemma ExampleBlock()
    ensures TagBlockFrom("\n\n[a]\nb", 0) == Some((2, 6))
  {
    var s := "\n\n[a]\nb";
    assert TagEntryAt(s, 0).None? && TagEntryAt(s, 1).None?;
    assert SkipWhile(s, 3, NotCloseBracket) == 4 by {
      SkipWhileUnique(s, 3, NotCloseBracket, 4);
    }
    assert SkipWhile(s, 5, IsSpace) == 6 by {
      SkipWhileUnique(s, 5, IsSpace, 6);
    }
    assert TagEntryAt(s, 2) == Some(6);
    assert TagEntryAt(s, 6).None?;
  }

  lemma ExampleSqueezeInput()
    ensures Squeeze("\n\n[a]\nb") == "[a]b"
  {
    var s := "\n\n[a]\nb";
    assert s[1..][1..] == "[a]\nb";
    assert Squeeze(s) == Squeeze("[a]\nb");
    assert Squeeze("\nb") == "b" by { assert "\nb"[1..] == "b"; }
    assert "[a]\nb"[1..] == "a]\nb" && "a]\nb"[1..] == "]\nb" && "]\nb"[1..] == "\nb";
  }

  lemma ExampleSqueezeOutput()
    ensures Squeeze("[a]\n\n]\nb") == "[a]]b"
  {
    assert Squeeze("\nb") == "b" by { assert "\nb"[1..] == "b"; }
    assert Squeeze("]\nb") == "]b" by { assert "]\nb"[1..] == "\nb"; }
    assert Squeeze("\n\n]\nb") == "]b" by {
      assert "\n\n]\nb"[1..] == "\n]\nb" && "\n]\nb"[1..] == "]\nb";
    }
    assert "[a]\n\n]\nb"[1..] == "a]\n\n]\nb" && "a]\n\n]\nb"[1..] == "]\n\n]\nb";
    assert "]\n\n]\nb"[1..] == "\n\n]\nb";
  }

  /**
   * Two newlines before the block: the step as written copies the block's closing `]`
   * into the movetext, which the corrected step does not.
   */
  lemma SeparateAsWrittenRepeatsBlock()
    ensures var s := "\n\n[a]\nb";
      && SeparateTagBlockAsWritten(s) == "[a]\n\n]\nb"
      && SeparateTagBlock(s) == "[a]\n\nb"
      && Squeeze(SeparateTagBlockAsWritten(s)) != Squeeze(s)
  {
    ExampleAsWritten();
    ExampleCorrected();
    ExampleSqueezeInput();
    ExampleSqueezeOutput();
  }

  lemma ExampleBlockText()
    ensures TrimEnd("\n\n[a]\nb"[2..6]) == "[a]"
  {
    var s := "\n\n[a]\nb";
    assert s[2..6] == "[a]\n";
    assert s[2..6][..3] == "[a]";
  }

  lemma ExampleRest(k: nat, rest: string)
    requires k <= 7 && "\n\n[a]\nb"[k..] == rest && rest != [] && !IsSpace(rest[0])
    ensures TrimStart("\n\n[a]\nb"[k..]) == rest
  {
    SkipWhileUnique(rest, 0, IsSpace, 0);
  }

  lemma ExampleAsWritten()
    ensures SeparateTagBlockAsWritten("\n\n[a]\nb") == "[a]\n\n]\nb"
  {
    var s := "\n\n[a]\nb";
    ExampleBlock();
    assert SeparateTagBlockAsWritten(s) == TrimEnd(s[2..6]) + "\n\n" + TrimStart(s[4..]);
    ExampleBlockText();
    assert s[4..] == "]\nb";
    ExampleRest(4, "]\nb");
    assert "[a]" + "\n\n" + "]\nb" == "[a]\n\n]\nb";
  }

  lemma ExampleCorrected()
    ensures SeparateTagBlock("\n\n[a]\nb") == "[a]\n\nb"
  {
    var s := "\n\n[a]\nb";
    ExampleBlock();
    assert SeparateTagBlock(s) == TrimEnd(s[2..6]) + "\n\n" + TrimStart(s[6..]);
    ExampleBlockText();
    assert s[6..] == "b";
    ExampleRest(6, "b");
    assert "[a]" + "\n\n" + "b" == "[a]\n\nb";
  }

  // ---------------------------------------------------------------- normalizePgn

  /** The three header lines the popup drops before reading a game. */
  function DropTagLines(s: string): string {
    var s1 := ReplaceAll(NamedTagLine("Link"), s, "");
    var s2 := ReplaceAll(NamedTagLine("ECO"), s1, "");
    ReplaceAll(NamedTagLine("EndTime"), s2, "")
  }

  /** The steps before the tag block is separated: line ends, `trim`, the dropped header lines. */
  function PrepareTags(raw: string): string {
    DropTagLines(Trim(ReplaceAll(CrLf, raw, "\n")))
  }

  /** Neither end is white space, as after `trim`. */
  predicate Trimmed(s: string) {
    s == [] || (!IsSpace(s[0]) && !IsSpace(s[|s| - 1]))
  }

  /** The steps after it: `&nbsp;`, zero-width characters, runs of blank lines, `trim`. */
  function FinishText(s: string): (r: string)
    ensures Trimmed(r)
  {
    var s := ReplaceAll(ZeroWidth, ReplaceAll(NbspEntity, s, " "), "");
    Trim(ReplaceAll(BlankLines, s, "\n\n"))
  }

  /** `normalizePgn(raw)`, with the tag-block step as corrected. */
  function NormalizePgn(raw: string): (r: string)
    ensures Trimmed(r)
    ensures raw == [] ==> r == []
  {
    if raw == [] then [] else FinishText(SeparateTagBlock(PrepareTags(raw)))
  }

  /** `normalizePgn(raw)` as written, with `rest` counted from the start of the text. */
  function NormalizePgnAsWritten(raw: string): (r: string)
    ensures Trimmed(r)
    ensures raw == [] ==> r == []
  {
    if raw == [] then [] else FinishText(SeparateTagBlockAsWritten(PrepareTags(raw)))
  }

  /**
   * The two differ only when the tag block does not open the prepared text: with no block,
   * or with one at index 0 (a chess.com PGN opening with `[Event ...]`), they agree.
   */
  lemma NormalizeAsWrittenAtStart(raw: string)
    requires TagBlockFrom(PrepareTags(raw), 0).None? || TagBlockFrom(PrepareTags(raw), 0).value.0 == 0
    ensures NormalizePgnAsWritten(raw) == NormalizePgn(raw)
  {
    var s := PrepareTags(raw);
    if TagBlockFrom(s, 0).Some? {
      SeparateAsWrittenAtStart(s, TagBlockFrom(s, 0).value.1);
    }
  }

  /**
   * A headerless PGN that none of the rewrites applies to (no CR LF, no dropped header
   * line, no `&nbsp;`, no zero-width character, no run of three line ends) comes out as
   * its own `trim`, by either version of the tag-block step.
   */
  lemma NormalizeOfPlain(raw: string)
    requires raw != [] && !Found(CrLf, raw)
    requires !Found(NamedTagLine("Link"), Trim(raw)) && !Found(NamedTagLine("ECO"), Trim(raw))
    requires !Found(NamedTagLine("EndTime"), Trim(raw)) && TagBlockFrom(Trim(raw), 0).None?
    requires !Found(NbspEntity, Trim(raw)) && !Found(ZeroWidth, Trim(raw)) && !Found(BlankLines, Trim(raw))
    ensures NormalizePgn(raw) == Trim(raw) && NormalizePgnAsWritten(raw) == Trim(raw)
  {
    var t := Trim(raw);
    PrepareOfPlain(raw);
    FinishOfPlain(t);
  }

  lemma PrepareOfPlain(raw: string)
    requires !Found(CrLf, raw)
    requires !Found(NamedTagLine("Link"), Trim(raw)) && !Found(NamedTagLine("ECO"), Trim(raw))
    requires !Found(NamedTagLine("EndTime"), Trim(raw))
    ensures PrepareTags(raw) == Trim(raw)
  {
    var t := Trim(raw);
    ReplaceAllWithoutMatch(CrLf, raw, "\n");
    ReplaceAllWithoutMatch(NamedTagLine("Link"), t, "");
    ReplaceAllWithoutMatch(NamedTagLine("ECO"), t, "");
    ReplaceAllWithoutMatch(NamedTagLine("EndTime"), t, "");
  }

  lemma FinishOfPlain(t: string)
    requires Trimmed(t)
    requires !Found(NbspEntity, t) && !Found(ZeroWidth, t) && !Found(BlankLines, t)
    ensures FinishText(t) == t
  {
    ReplaceAllWithoutMatch(NbspEntity, t, " ");
    ReplaceAllWithoutMatch(ZeroWidth, t, "");
    ReplaceAllWithoutMatch(BlankLines, t, "\n\n");
    TrimOfClean(t);
  }

  // ---------------------------------------------------------------- extractSanTokens

  /** `/^\d+\.(\.\.)?$/`: a move number such as `12.` or `12...`. */
  predicate IsMoveNumber(w: string) {
    var d := SkipWhile(w, 0, IsDigit);
    d > 0 && (w[d..] == "." || w[d..] == "...")
  }

  predicate IsDots(w: string) {
    w == "..." || w == ".." || w == "."
  }

  /** The game termination markers of section 8.2.6 of the PGN standard. */
  predicate IsResult(w: string) {
    w == "1-0" || w == "0-1" || w == "1/2-1/2" || w == "*"
  }

  /** A word the token loop keeps. */
  predicate IsMoveWord(w: string) {
    w != [] && !IsMoveNumber(w) && !IsDots(w) && !IsResult(w)
  }

  /** The token loop over the words: skip blanks, move numbers and dots, stop at a result. */
  function SanFilter(words: seq<string>): (tokens: seq<string>)
    ensures forall t | t in tokens :: IsMoveWord(t) && t in words
    ensures |tokens| <= |words|
  {
    if words == [] then []
    else
      var w := words[0];
      if w == [] || IsMoveNumber(w) || IsDots(w) then SanFilter(words[1..])
      else if IsResult(w) then []
      else [w] + SanFilter(words[1..])
  }

  /** Nothing after a result marker reaches the token list. */
  lemma {:induction false} SanFilterStopsAtResult(before: seq<string>, result: string, after: seq<string>)
    requires IsResult(result)
    ensures SanFilter(before + [result] + after) == SanFilter(before)
    decreases |before|
  {
    if before == [] {
      assert before + [result] + after == [result] + after;
    } else {
      assert (before + [result] + after)[1..] == before[1..] + [result] + after;
      SanFilterStopsAtResult(before[1..], result, after);
    }
  }

  /** Words that are all moves come through unchanged and in order. */
  lemma {:induction false} SanFilterKeepsMoves(words: seq<string>)
    requires forall k | 0 <= k < |words| :: IsMoveWord(words[k])
    ensures SanFilter(words) == words
    decreases |words|
  {
    if words != [] {
      SanFilterKeepsMoves(words[1..]);
    }
  }

  /** A blank, a move number or dots can be taken out of the word list without effect. */
  lemma {:induction false} SanFilterSkips(before: seq<string>, w: string, after: seq<string>)
    requires w == [] || IsMoveNumber(w) || IsDots(w)
    ensures SanFilter(before + [w] + after) == SanFilter(before + after)
    decreases |before|
  {
    if before == [] {
      assert before + [w] + after == [w] + after;
      assert ([w] + after)[1..] == after;
      assert before + after == after;
    } else {
      assert (before + [w] + after)[1..] == before[1..] + [w] + after;
      assert (before + after)[1..] == before[1..] + after;
      SanFilterSkips(before[1..], w, after);
    }
  }

  /** The move words of a list, in order. */
  function MoveWords(words: seq<string>): (r: seq<string>)
    ensures forall t | t in r :: IsMoveWord(t) && t in words
    ensures |r| <= |words|
  {
    if words == [] then []
    else (if IsMoveWord(words[0]) then [words[0]] else []) + MoveWords(words[1..])
  }

  /** The position of the first result marker, or the length of the list when there is none. */
  function FirstResult(words: seq<string>): (n: nat)
    ensures n <= |words|
    ensures forall k | 0 <= k < n :: !IsResult(words[k])
    ensures n < |words| ==> IsResult(words[n])
  {
    if words == [] || IsResult(words[0]) then 0
    else
      var n := FirstResult(words[1..]);
      assert forall k | 1 <= k < n + 1 :: words[k] == words[1..][k - 1];
      n + 1
  }

  /** A move number ends in a dot, which no result marker does. */
  lemma MoveNumberEndsInDot(w: string)
    requires IsMoveNumber(w)
    ensures w != [] && w[|w| - 1] == '.'
  {
    var d := SkipWhile(w, 0, IsDigit);
    assert w[d..][|w| - d - 1] == w[|w| - 1];
  }

  /** The token loop keeps exactly the move words that come before the first result marker. */
  lemma {:induction false} SanFilterSpec(words: seq<string>)
    ensures SanFilter(words) == MoveWords(words[..FirstResult(words)])
    decreases |words|
  {
    if words != [] {
      var w := words[0];
      if IsMoveNumber(w) {
        MoveNumberEndsInDot(w);
      }
      if !IsResult(w) {
        SanFilterSpec(words[1..]);
        var n := FirstResult(words[1..]);
        var p := words[..n + 1];
        assert p[0] == w && p[1..] == words[1..][..n];
      }
    }
  }

  /**
   * Tag lines, `{...}` comments, `;` comments and NAGs replaced as the first passes do: no
   * `{` is left with a `}` after it, and no `$` directly before a digit.
   */
  function StripComments(s: string): (r: string)
    ensures MovesText.BraceFree(r) && MovesText.NagFree(r)
  {
    var noTags := ReplaceAll(AnyTagLine, s, "");
    var noBraces := ReplaceAll(BraceComment, noTags, " ");
    var noLines := ReplaceAll(LineComment, noBraces, " ");
    MovesText.CommentRemovalBraceFree(noTags, 0, " ");
    assert noBraces[0..] == noBraces;
    MovesText.ReplaceKeepsBraceFree(LineComment, noBraces, 0, " ");
    assert noLines[0..] == noLines;
    MovesText.ReplaceKeepsBraceFree(Nag, noLines, 0, " ");
    MovesText.NagRemovalNagFree(noLines, 0, " ");
    ReplaceAll(Nag, noLines, " ")
  }

  /** The `while` loop's outcome: innermost variations replaced until none is left. */
  function StripVariations(s: string): (r: string)
    ensures !Found(InnermostVariation, r)
    ensures |r| <= |s|
    decreases |s|
  {
    if Found(InnermostVariation, s) then
      VariationReplaceShrinks(s, 0);
      StripVariations(ReplaceAll(InnermostVariation, s, " "))
    else s
  }

  /** Every white-space character is a plain space. */
  predicate SpacesOnly(s: string) {
    forall k | 0 <= k < |s| :: s[k] == ' ' || !IsSpace(s[k])
  }

  /** No two spaces follow one another. */
  predicate SingleSpaced(s: string) {
    forall k | 0 <= k < |s| - 1 :: !(s[k] == ' ' && s[k + 1] == ' ')
  }

  /**
   * Replacing every `\s+` run by one space leaves plain spaces as the only white space, never
   * two in a row; the output starts with a space exactly when the input starts with white space.
   */
  lemma {:induction false} SpaceRunReplaceClean(s: string, i: nat)
    requires i <= |s|
    ensures var r := ReplaceFrom(SpaceRun, s, i, " ");
      && SpacesOnly(r) && SingleSpaced(r)
      && (i < |s| ==> r != [] && (r[0] == ' ' <==> IsSpace(s[i])))
    decreases |s| - i
  {
    if i < |s| {
      match MatchAt(SpaceRun, s, i)
      case Some(e) =>
        SpaceRunReplaceClean(s, e);
        var r := ReplaceFrom(SpaceRun, s, e, " ");
        assert ReplaceFrom(SpaceRun, s, i, " ") == " " + r;
        assert e < |s| ==> !IsSpace(s[e]);
        assert IsSpace(s[i]);
      case None =>
        SpaceRunReplaceClean(s, i + 1);
        var r := ReplaceFrom(SpaceRun, s, i + 1, " ");
        assert ReplaceFrom(SpaceRun, s, i, " ") == [s[i]] + r;
        assert !IsSpace(s[i]);
    }
  }

  /** `s.replace(/\s+/g, " ").trim()`: single plain spaces between words, none at the ends. */
  function Collapse(s: string): (r: string)
    ensures SpacesOnly(r) && SingleSpaced(r) && Trimmed(r)
  {
    var t := ReplaceAll(SpaceRun, s, " ");
    SpaceRunReplaceClean(s, 0);
    TrimKeepsSpacing(t);
    Trim(t)
  }

  lemma TrimKeepsSpacing(t: string)
    requires SpacesOnly(t) && SingleSpaced(t)
    ensures SpacesOnly(Trim(t)) && SingleSpaced(Trim(t))
  {
    var a, b := TrimIsSlice(t);
    assert forall m | 0 <= m < b - a :: t[a..b][m] == t[a + m];
  }

  lemma {:induction false} SplitOnSpacesOnly(s: string)
    requires SpacesOnly(s)
    ensures forall p | p in SplitOn(s, ' ') :: NoSpace(p)
    decreases |s|
  {
    var k := SkipWhile(s, 0, x => x != ' ');
    SkipWhileAll(s, 0, x => x != ' ');
    if k < |s| {
      SplitOnSpacesOnly(s[k + 1..]);
    }
  }

  /** The `for (const w of s.split(" "))` loop of `extractSanTokens`. */
  method TakeSanWords(words: seq<string>) returns (tokens: seq<string>)
    ensures tokens == SanFilter(words)
  {
    tokens := [];
    var i := 0;
    while i < |words|
      invariant i <= |words|
      invariant tokens + SanFilter(words[i..]) == SanFilter(words)
    {
      var w := words[i];
      assert words[i..][1..] == words[i + 1..];
      if w == [] || IsMoveNumber(w) || IsDots(w) {
        i := i + 1;
      } else if IsResult(w) {
        break;
      } else {
        tokens := tokens + [w];
        i := i + 1;
      }
    }
  }

  /** What `extractSanTokens` returns: the token loop over the cleaned, collapsed PGN. */
  function SanTokens(pgn: string): seq<string> {
    SanFilter(SplitOn(Collapse(StripVariations(StripComments(NormalizePgn(pgn)))), ' '))
  }

  /** `extractSanTokens(pgn)`: the SAN words of the main line, up to the result marker. */
  method ExtractSanTokens(pgn: string) returns (tokens: seq<string>)
    ensures tokens == SanTokens(pgn)
    ensures forall t | t in tokens :: IsMoveWord(t) && NoSpace(t)
  {
    var s := NormalizePgn(pgn);
    s := ReplaceAll(AnyTagLine, s, "");
    s := ReplaceAll(BraceComment, s, " ");
    s := ReplaceAll(LineComment, s, " ");
    s := ReplaceAll(Nag, s, " ");
    ghost var stripped := s;
    while Found(InnermostVariation, s)
      invariant StripVariations(s) == StripVariations(stripped)
      decreases |s|
    {
      VariationReplaceShrinks(s, 0);
      s := ReplaceAll(InnermostVariation, s, " ");
    }
    s := Collapse(s);
    var words := SplitOn(s, ' ');
    tokens := TakeSanWords(words);
    SplitOnSpacesOnly(s);
  }

  // ---------------------------------------------------------------- the tokenizer on plain words

  /** A character none of the passes reacts to: no white space, tag, comment, NAG, variation or entity. */
  predicate IsPlainChar(c: char) {
    !IsSpace(c) && c !in "[{(;$&" && !('\U{200B}' <= c <= '\U{200D}')
  }

  predicate IsPlainWord(w: string) {
    w != [] && forall k | 0 <= k < |w| :: IsPlainChar(w[k])
  }

  /** Plain characters and plain spaces only. */
  predicate IsPlainText(s: string) {
    forall k | 0 <= k < |s| :: s[k] == ' ' || IsPlainChar(s[k])
  }

  /** Plain words joined by one space: plain text, single-spaced, with plain characters at its ends. */
  lemma {:induction false} JoinPlain(ws: seq<string>)
    requires forall k | 0 <= k < |ws| :: IsPlainWord(ws[k])
    ensures var s := Join(ws, " ");
      && IsPlainText(s) && SingleSpaced(s)
      && (ws != [] ==> s != [] && IsPlainChar(s[0]) && IsPlainChar(s[|s| - 1]))
    decreases |ws|
  {
    if |ws| > 1 {
      JoinPlain(ws[1..]);
      var w := ws[0];
      var r := Join(ws[1..], " ");
      var s := w + " " + r;
      assert Join(ws, " ") == s;
      forall k | 0 <= k < |s| ensures s[k] == ' ' || IsPlainChar(s[k]) {
        if k < |w| {
          assert s[k] == w[k];
        } else if k > |w| {
          assert s[k] == r[k - |w| - 1];
        }
      }
      forall k | 0 <= k < |s| - 1 ensures !(s[k] == ' ' && s[k + 1] == ' ') {
        if k < |w| {
          assert s[k] == w[k];
        } else if k == |w| {
          assert s[k + 1] == r[0];
        } else {
          assert s[k] == r[k - |w| - 1] && s[k + 1] == r[k - |w|];
        }
      }
      assert s[0] == w[0] && s[|s| - 1] == r[|r| - 1];
    }
  }

  /** None of the passes before the collapse matches anywhere in plain text. */
  lemma PlainNoMatch(p: Pattern, s: string, i: nat)
    requires IsPlainText(s) && i <= |s|
    requires p.CrLf? || p.NamedTagLine? || p.AnyTagLine? || p.NbspEntity? || p.ZeroWidth?
          || p.BlankLines? || p.BraceComment? || p.LineComment? || p.Nag? || p.InnermostVariation?
    ensures MatchAt(p, s, i).None?
  {
    if i < |s| {
      assert s[i] == ' ' || IsPlainChar(s[i]);
      match p
      case AnyTagLine =>
        if i > 0 {
          assert s[i - 1] == ' ' || IsPlainChar(s[i - 1]);
        } else {
          var a := SkipWhile(s, i, IsSpace);
          assert a < |s| ==> s[a] == ' ' || IsPlainChar(s[a]);
        }
      case BlankLines =>
        SkipWhileUnique(s, i, IsNewline, i);
      case _ =>
    }
  }

  lemma PlainNotFound(p: Pattern, s: string)
    requires IsPlainText(s)
    requires p.CrLf? || p.NamedTagLine? || p.AnyTagLine? || p.NbspEntity? || p.ZeroWidth?
          || p.BlankLines? || p.BraceComment? || p.LineComment? || p.Nag? || p.InnermostVariation?
    ensures !Found(p, s)
  {
    forall i | 0 <= i < |s| ensures MatchAt(p, s, i).None? {
      PlainNoMatch(p, s, i);
    }
  }

  lemma {:induction false} PlainNoTagBlock(s: string, i: nat)
    requires IsPlainText(s) && i <= |s|
    ensures TagBlockFrom(s, i).None?
    decreases |s| - i
  {
    if i < |s| {
      assert s[i] == ' ' || IsPlainChar(s[i]);
      PlainNoTagBlock(s, i + 1);
    }
  }

  /** Single-spaced plain text is left as it is by `replace(/\s+/g, " ")`. */
  lemma {:induction false} SpaceRunOfSingleSpaced(s: string, i: nat)
    requires IsPlainText(s) && SingleSpaced(s) && i <= |s|
    ensures ReplaceFrom(SpaceRun, s, i, " ") == s[i..]
    decreases |s| - i
  {
    if i < |s| {
      SpaceRunOfSingleSpaced(s, i + 1);
      assert s[i] == ' ' || IsPlainChar(s[i]);
      if s[i] == ' ' {
        assert i + 1 < |s| ==> s[i + 1] == ' ' || IsPlainChar(s[i + 1]);
        SkipWhileUnique(s, i, IsSpace, i + 1);
      } else {
        SkipWhileUnique(s, i, IsSpace, i);
      }
      assert s[i..] == [s[i]] + s[i + 1..];
    }
  }

  /** Splitting space-joined, space-free pieces on the space gives the pieces back. */
  lemma {:induction false} SplitOnJoin(ws: seq<string>)
    requires ws != [] && forall k | 0 <= k < |ws| :: ' ' !in ws[k]
    ensures SplitOn(Join(ws, " "), ' ') == ws
    decreases |ws|
  {
    var s := Join(ws, " ");
    var pieces := SplitOn(s, ' ');
    JoinUnique(pieces, ws);
  }

  /** Space-free pieces are determined by the text they join to. */
  lemma {:induction false} JoinUnique(ps: seq<string>, qs: seq<string>)
    requires ps != [] && qs != []
    requires forall k | 0 <= k < |ps| :: ' ' !in ps[k]
    requires forall k | 0 <= k < |qs| :: ' ' !in qs[k]
    requires Join(ps, " ") == Join(qs, " ")
    ensures ps == qs
    decreases |ps|
  {
    var a := Join(ps, " ");
    JoinFirstSpace(ps);
    JoinFirstSpace(qs);
    assert |ps| > 1 <==> |qs| > 1;
    if |ps| > 1 {
      assert |ps[0]| == |qs[0]|;
      JoinUnique(ps[1..], qs[1..]);
      assert ps == [ps[0]] + ps[1..] && qs == [qs[0]] + qs[1..];
    }
  }

  /** The first piece is what precedes the first space; the rest follows it. */
  lemma JoinFirstSpace(ps: seq<string>)
    requires ps != [] && ' ' !in ps[0]
    ensures var a := Join(ps, " ");
      && |ps[0]| <= |a| && a[..|ps[0]|] == ps[0]
      && (forall k | 0 <= k < |ps[0]| :: a[k] != ' ')
      && (|ps| == 1 ==> a == ps[0])
      && (|ps| > 1 ==> |ps[0]| < |a| && a[|ps[0]|] == ' ' && a[|ps[0]| + 1..] == Join(ps[1..], " "))
  {
    var a := Join(ps, " ");
    var p := ps[0];
    if |ps| > 1 {
      assert a == p + " " + Join(ps[1..], " ");
    }
    forall k | 0 <= k < |p| ensures a[k] != ' ' {
      assert a[k] == p[k];
      assert p[k] in p;
    }
  }

  /**
   * On plain words separated by single spaces, every pass before the token loop leaves the
   * text alone, so the tokens are the token loop run over those very words.
   */
  lemma SanTokensOfWords(ws: seq<string>)
    requires forall k | 0 <= k < |ws| :: IsPlainWord(ws[k])
    ensures SanTokens(Join(ws, " ")) == SanFilter(ws)
  {
    if ws == [] {
      SanTokensOfEmpty();
    } else {
      var s := Join(ws, " ");
      JoinPlain(ws);
      PlainPipeline(s);
      forall k | 0 <= k < |ws| ensures ' ' !in ws[k] {
        assert IsPlainWord(ws[k]);
      }
      SplitOnJoin(ws);
    }
  }

  lemma SanTokensOfEmpty()
    ensures SanTokens([]) == []
  {
    assert SplitOn(Collapse(StripVariations(StripComments(NormalizePgn([])))), ' ') == [[]];
  }

  lemma PlainPipeline(s: string)
    requires IsPlainText(s) && SingleSpaced(s) && s != [] && IsPlainChar(s[0]) && IsPlainChar(s[|s| - 1])
    ensures Collapse(StripVariations(StripComments(NormalizePgn(s)))) == s
  {
    PlainNormalizes(s);
    PlainPassesThrough(s);
  }

  /** Plain, single-spaced text with plain characters at its ends is already normalised. */
  lemma PlainNormalizes(s: string)
    requires IsPlainText(s) && s != [] && IsPlainChar(s[0]) && IsPlainChar(s[|s| - 1])
    ensures NormalizePgn(s) == s
  {
    TrimOfClean(s);
    PlainNotFound(CrLf, s);
    PlainNotFound(NamedTagLine("Link"), s);
    PlainNotFound(NamedTagLine("ECO"), s);
    PlainNotFound(NamedTagLine("EndTime"), s);
    PlainNoTagBlock(s, 0);
    PlainNotFound(NbspEntity, s);
    PlainNotFound(ZeroWidth, s);
    PlainNotFound(BlankLines, s);
    NormalizeOfPlain(s);
  }

  /** The comment, NAG and variation passes and the collapse leave such text alone. */
  lemma PlainPassesThrough(s: string)
    requires IsPlainText(s) && SingleSpaced(s) && s != [] && IsPlainChar(s[0]) && IsPlainChar(s[|s| - 1])
    ensures Collapse(StripVariations(StripComments(s))) == s
  {
    PlainNotFound(AnyTagLine, s);
    ReplaceAllWithoutMatch(AnyTagLine, s, "");
    PlainNotFound(BraceComment, s);
    ReplaceAllWithoutMatch(BraceComment, s, " ");
    PlainNotFound(LineComment, s);
    ReplaceAllWithoutMatch(LineComment, s, " ");
    PlainNotFound(Nag, s);
    ReplaceAllWithoutMatch(Nag, s, " ");
    assert StripComments(s) == s;
    PlainNotFound(InnermostVariation, s);
    assert StripVariations(s) == s;
    SpaceRunOfSingleSpaced(s, 0);
    TrimOfClean(s);
  }

  /** Plain move words joined by spaces come out of the tokenizer exactly, in order. */
  lemma SanTokensRoundTrip(ws: seq<string>)
    requires forall k | 0 <= k < |ws| :: IsPlainWord(ws[k]) && IsMoveWord(ws[k])
    ensures SanTokens(Join(ws, " ")) == ws
  {
    SanTokensOfWords(ws);
    SanFilterKeepsMoves(ws);
  }

  /**
   * With move numbers and dots among the words (`1. e4 e5 2. Nf3`) and no result marker, the
   * tokens are the move words, in order.
   */
  lemma SanTokensSkipNumbers(ws: seq<string>)
    requires forall k | 0 <= k < |ws| :: IsPlainWord(ws[k]) && !IsResult(ws[k])
    ensures SanTokens(Join(ws, " ")) == MoveWords(ws)
  {
    SanTokensOfWords(ws);
    NoResultPrefix(ws);
    SanFilterSpec(ws);
  }

  lemma NoResultPrefix(ws: seq<string>)
    requires forall k | 0 <= k < |ws| :: !IsResult(ws[k])
    ensures ws[..FirstResult(ws)] == ws
  {
    var n := FirstResult(ws);
    assert n == |ws|;
  }

  /** Tokenizing the space-joined tokens again gives the same tokens, when they are plain. */
  lemma SanTokensIdempotent(pgn: string)
    requires forall t | t in SanTokens(pgn) :: IsPlainWord(t)
    ensures SanTokens(Join(SanTokens(pgn), " ")) == SanTokens(pgn)
  {
    var ts := SanTokens(pgn);
    forall k | 0 <= k < |ts| ensures IsPlainWord(ts[k]) && IsMoveWord(ts[k]) {
      assert ts[k] in ts;
    }
    SanTokensRoundTrip(ts);
  }
}
