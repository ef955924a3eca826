/**
 * `wrapToWidth(text, width)`, which both archive servers run over a game's moves: the
 * text's white-space separated tokens are laid out greedily, one space between the tokens
 * of a line and a newline between lines, a line taking the next token while the result
 * stays within `width`. A token longer than the width gets a line of its own and is never
 * split.
 */
module Wrap {
  import opened Text

  /** The tokens `split(/\s+/).filter(Boolean)` yields: non-empty and free of white space. */
  predicate Tokens(toks: seq<string>) {
    forall k | 0 <= k < |toks| :: toks[k] != [] && NoSpace(toks[k])
  }

  /**
   * The loop from the state `line` with the tokens `toks` still to place: the lines it
   * pushes, the closing `if (line) lines.push(line)` included. No pushed line is empty, and
   * each holds at least one token: there are no more lines than tokens, counting `line`.
   */
  function Fill(line: string, toks: seq<string>, width: int): (r: seq<string>)
    ensures forall k | 0 <= k < |r| :: r[k] != []
    ensures |r| <= |toks| + (if line == [] then 0 else 1)
    decreases |toks|
  {
    if toks == [] then (if line == [] then [] else [line])
    else if line == [] then Fill(toks[0], toks[1..], width)
    else if |line| + 1 + |toks[0]| <= width then Fill(line + " " + toks[0], toks[1..], width)
    else [line] + Fill(toks[0], toks[1..], width)
  }

  /** The lines of the wrapped text. */
  function WrapLines(text: string, width: int): seq<string> {
    Fill("", Words(text), width)
  }

  /**
   * `wrapToWidth(text, width)`: the lines joined by newlines. The wrapped text has exactly the
   * tokens of the input, in order: no token is split, lost or added.
   */
  function WrapToWidth(text: string, width: int): (r: string)
    ensures Words(r) == Words(text)
  {
    WordsOfJoinedLines(WrapLines(text, width), '\n');
    FillWords("", Words(text), width);
    Join(WrapLines(text, width), "\n")
  }

  /** The words of each line, one line after another. */
  function FlatWords(lines: seq<string>): seq<string>
    decreases |lines|
  {
    if lines == [] then [] else Words(lines[0]) + FlatWords(lines[1..])
  }

  /** A line as the wrapper prints it: not empty, no white space at either end, no newline. */
  predicate Clean(line: string) {
    line != [] && !IsSpace(line[0]) && !IsSpace(line[|line| - 1])
    && forall k | 0 <= k < |line| :: line[k] != '\n'
  }

  /** Joining lines with a white-space separator keeps every line's words, in order. */
  lemma {:induction false} WordsOfJoinedLines(parts: seq<string>, c: char)
    requires IsSpace(c)
    ensures Words(Join(parts, [c])) == FlatWords(parts)
    decreases |parts|
  {
    if parts == [] {
    } else if |parts| == 1 {
      assert parts[1..] == [];
    } else {
      WordsSplitAt(parts[0], c, Join(parts[1..], [c]));
      WordsOfJoinedLines(parts[1..], c);
    }
  }

  /** The loop places every token exactly once, in order, after the words already on `line`. */
  lemma {:induction false} FillWords(line: string, toks: seq<string>, width: int)
    requires Tokens(toks)
    ensures FlatWords(Fill(line, toks, width)) == Words(line) + toks
    decreases |toks|
  {
    if toks == [] {
      if line != [] {
        assert FlatWords([line]) == Words(line) + FlatWords([]);
      }
    } else {
      var t := toks[0];
      assert t != [] && NoSpace(t);
      WordsOfWord(t);
      FillWords(t, toks[1..], width);
      if line == [] {
        assert toks == [t] + toks[1..];
      } else if |line| + 1 + |t| <= width {
        WordsSplitAt(line, ' ', t);
        assert line + " " + t == line + [' '] + t;
        FillWords(line + " " + t, toks[1..], width);
      } else {
        var rest := Fill(t, toks[1..], width);
        assert ([line] + rest)[0] == line && ([line] + rest)[1..] == rest;
      }
    }
  }

  /** Wrapping the wrapped text again changes nothing. */
  lemma WrapIdempotent(text: string, width: int)
    ensures WrapToWidth(WrapToWidth(text, width), width) == WrapToWidth(text, width)
  {
    var once := WrapToWidth(text, width);
    assert WrapLines(once, width) == WrapLines(text, width);
  }

  /** Empty or all-white-space input wraps to the empty string. */
  lemma WrapOfBlank(text: string, width: int)
    requires forall k | 0 <= k < |text| :: IsSpace(text[k])
    ensures WrapToWidth(text, width) == ""
  {
    WordsOfSpaces(text);
  }

  lemma CleanJoin(line: string, t: string)
    requires Clean(line) && t != [] && NoSpace(t)
    ensures Clean(line + " " + t)
  {
    var s := line + " " + t;
    assert s[|s| - 1] == t[|t| - 1];
    forall k | 0 <= k < |s| ensures s[k] != '\n' {
      if k >= |line| + 1 { assert s[k] == t[k - |line| - 1]; }
      else if k < |line| { assert s[k] == line[k]; }
    }
  }

  lemma CleanToken(t: string)
    requires t != [] && NoSpace(t)
    ensures Clean(t)
  {
    forall k | 0 <= k < |t| ensures t[k] != '\n' { assert !IsSpace(t[k]); }
  }

  /**
   * Every line the loop pushes is clean, and fits the width unless it is a single token of
   * `all`.
   */
  lemma {:induction false} FillLines(line: string, toks: seq<string>, width: int, all: seq<string>)
    requires Tokens(toks) && forall k | 0 <= k < |toks| :: toks[k] in all
    requires line == [] || (Clean(line) && (|line| <= width || line in all))
    ensures forall L | L in Fill(line, toks, width) :: Clean(L) && (|L| <= width || L in all)
    decreases |toks|
  {
    if toks != [] {
      var t := toks[0];
      assert t != [] && NoSpace(t) && t in all;
      CleanToken(t);
      if line == [] || |line| + 1 + |t| > width {
        FillLines(t, toks[1..], width, all);
      } else {
        CleanJoin(line, t);
        FillLines(line + " " + t, toks[1..], width, all);
      }
    }
  }

  /** The first line pushed from a non-empty `line` begins with `line`, followed by a space or nothing. */
  lemma {:induction false} FillHead(line: string, toks: seq<string>, width: int)
    requires line != []
    ensures Fill(line, toks, width) != []
    ensures var first := Fill(line, toks, width)[0];
      |line| <= |first| && first[..|line|] == line && (|line| < |first| ==> first[|line|] == ' ')
    decreases |toks|
  {
    if toks != [] && |line| + 1 + |toks[0]| <= width {
      var longer := line + " " + toks[0];
      FillHead(longer, toks[1..], width);
      var first := Fill(longer, toks[1..], width)[0];
      assert first[..|longer|][..|line|] == line;
    }
  }

  /** A clean line's first word is the word it begins with. */
  lemma FirstWord(line: string, t: string)
    requires t != [] && NoSpace(t)
    requires |t| <= |line| && line[..|t|] == t && (|t| < |line| ==> line[|t|] == ' ')
    ensures Words(line) != [] && Words(line)[0] == t
  {
    WordsOfWord(t);
    if |t| < |line| {
      assert line == t + [' '] + line[|t| + 1..];
      WordsSplitAt(t, ' ', line[|t| + 1..]);
    } else {
      assert line == t;
    }
  }

  /** Line `k` was closed because the first token of line `k + 1` did not fit after it. */
  predicate ClosedAt(lines: seq<string>, k: nat, width: int)
    requires k + 1 < |lines|
  {
    Words(lines[k + 1]) != [] && |lines[k]| + 1 + |Words(lines[k + 1])[0]| > width
  }

  /**
   * Greediness: a line is closed only when the next line's first token would not have fit
   * after it.
   */
  lemma {:induction false} FillGreedy(line: string, toks: seq<string>, width: int)
    requires Tokens(toks)
    ensures forall k: nat | k + 1 < |Fill(line, toks, width)| :: ClosedAt(Fill(line, toks, width), k, width)
    decreases |toks|
  {
    if toks != [] {
      var t := toks[0];
      assert t != [] && NoSpace(t);
      if line == [] {
        FillGreedy(t, toks[1..], width);
      } else if |line| + 1 + |t| <= width {
        FillGreedy(line + " " + t, toks[1..], width);
      } else {
        var rest := Fill(t, toks[1..], width);
        var F := [line] + rest;
        FillGreedy(t, toks[1..], width);
        FillHead(t, toks[1..], width);
        FirstWord(rest[0], t);
        forall k: nat | k + 1 < |F| ensures ClosedAt(F, k, width) {
          if k > 0 {
            assert F[k] == rest[k - 1] && F[k + 1] == rest[k];
            assert ClosedAt(rest, k - 1, width);
          }
        }
      }
    }
  }

  /**
   * The layout of the wrapped text: its lines hold the input's tokens in order; no line is
   * empty, starts or ends with white space or holds a newline; a line longer than the width
   * is a single token of the input; a line is closed only when the next token did not fit.
   */
  lemma WrapLayout(text: string, width: int)
    ensures var lines := WrapLines(text, width);
      && FlatWords(lines) == Words(text)
      && (forall L | L in lines :: Clean(L) && (|L| <= width || L in Words(text)))
      && (forall k: nat | k + 1 < |lines| :: ClosedAt(lines, k, width))
  {
    var toks := Words(text);
    FillWords("", toks, width);
    FillLines("", toks, width, toks);
    FillGreedy("", toks, width);
  }

  /** A line of two or more tokens fits the width. */
  lemma ManyTokensFit(text: string, width: int, L: string)
    requires L in WrapLines(text, width) && |Words(L)| >= 2
    ensures |L| <= width
  {
    WrapLayout(text, width);
    if |L| > width {
      assert L in Words(text);
      WordsOfWord(L);
    }
  }

  /** The Express server's copy (`server/src/index.js`), which tests `line.length === 0`. */
  method ExpressWrapToWidth(text: string, width: int) returns (out: string)
    ensures out == WrapToWidth(text, width)
  {
    var tokens := Words(text);
    var lines: seq<string> := [];
    var line := "";
    for i := 0 to |tokens|
      invariant lines + Fill(line, tokens[i..], width) == Fill("", tokens, width)
    {
      var tok := tokens[i];
      assert tokens[i..] == [tok] + tokens[i + 1..];
      if |line| == 0 {
        line := tok;
      } else if |line| + 1 + |tok| <= width {
        line := line + " " + tok;
      } else {
        lines := lines + [line];
        line := tok;
      }
    }
    assert tokens[|tokens|..] == [];
    assert lines + Fill(line, [], width) == Fill("", tokens, width);
    if |line| > 0 {
      lines := lines + [line];
    } else {
      assert lines + [] == lines;
    }
    assert lines == Fill("", tokens, width);
    out := Join(lines, "\n");
  }

  /** The edge server's copy (`utils/wrapToWidth.ts`), which tests `!line`. */
  method EdgeWrapToWidth(text: string, width: int) returns (out: string)
    ensures out == WrapToWidth(text, width)
  {
    var tokens := Words(text);
    var lines: seq<string> := [];
    var line := "";
    var i := 0;
    while i < |tokens|
      invariant i <= |tokens|
      invariant lines + Fill(line, tokens[i..], width) == Fill("", tokens, width)
    {
      assert tokens[i..] == [tokens[i]] + tokens[i + 1..];
      if line == "" {
        line := tokens[i];
      } else if |line| + 1 + |tokens[i]| <= width {
        line := line + " " + tokens[i];
      } else {
        lines := lines + [line];
        line := tokens[i];
      }
      i := i + 1;
    }
    assert tokens[i..] == [];
    assert lines + Fill(line, [], width) == Fill("", tokens, width);
    if line != "" {
      lines := lines + [line];
    } else {
      assert lines + [] == lines;
    }
    assert lines == Fill("", tokens, width);
    out := Join(lines, "\n");
  }
}
