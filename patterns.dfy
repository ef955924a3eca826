/**
 * The regular expressions the core runs, each as a scanner that says whether (and where to)
 * the expression matches when the search reaches position `i`, and JavaScript's global
 * `String.prototype.replace(re, repl)` over them.
 *
 * Every pattern here matches at least one character, so a global replace is the
 * left-to-right scan below: at each position either the pattern matches (emit `repl`,
 * continue after the match) or it does not (copy one character, move on). The greedy
 * quantifiers and their backtracking are resolved by hand in each scanner; the comments
 * say how.
 */
module Patterns {
  import opened Wrappers
  import opened Text

  datatype Pattern =
    | CrLf                        // /\r\n/g
    | NamedTagLine(name: string)  // /^\[<name>\s+"[^"]*"\]\s*$/gim
    | AnyTagLine                  // /^\s*\[[^\]]+\]\s*$/gm
    | NbspEntity                  // /&nbsp;/g
    | ZeroWidth                   // /[\u200B-\u200D\uFEFF]/g
    | BlankLines                  // /\n{3,}/g
    | BraceComment                // /\{[^}]*\}/g
    | LineComment                 // /;.*$/gm
    | Nag                         // /\$\d+/g
    | InnermostVariation          // /\([^()]*\)/g
    | SpaceRun                    // /\s+/g
    | CarriageReturn              // /\r/g
    | ClockAnnotation             // /\{\[%[^}]*\]\}/g
    | PercentComment              // /\{%\s*[^}]*\}/g
    | SpaceTabRun                 // /[ \t]+/g
    | NewlineRun                  // /\n+/g

  predicate NotQuote(c: char) { c != '"' }
  predicate NotCloseBracket(c: char) { c != ']' }
  predicate NotCloseBrace(c: char) { c != '}' }
  predicate NotParen(c: char) { c != '(' && c != ')' }
  predicate NotLineTerminator(c: char) { !IsLineTerminator(c) }
  predicate IsNewline(c: char) { c == '\n' }
  predicate IsSpaceOrTab(c: char) { c == ' ' || c == '\t' }

  /** `^` under the `m` flag. */
  predicate AtLineStart(s: string, i: nat)
    requires i <= |s|
  {
    i == 0 || IsLineTerminator(s[i - 1])
  }

  /** `$` under the `m` flag. */
  predicate AtLineEnd(s: string, i: nat)
    requires i <= |s|
  {
    i == |s| || IsLineTerminator(s[i])
  }

  /**
   * `\s*$` (flag `m`) where the white space after `lo` runs up to `hi`: the greedy `\s*`
   * gives characters back until `$` holds, so the match ends at the last line end in [lo, hi].
   */
  function LastLineEnd(s: string, lo: nat, hi: nat): (r: Option<nat>)
    requires lo <= hi <= |s|
    ensures r.Some? ==> lo <= r.value <= hi && AtLineEnd(s, r.value)
    ensures r.Some? ==> forall e | r.value < e <= hi :: !AtLineEnd(s, e)
    ensures r.None? ==> forall e | lo <= e <= hi :: !AtLineEnd(s, e)
    decreases hi - lo
  {
    if AtLineEnd(s, hi) then Some(hi)
    else if hi == lo then None
    else LastLineEnd(s, lo, hi - 1)
  }

  /** `^\[<name>\s+"[^"]*"\]\s*$` with flags `i` and `m`, tried at `i`. */
  function NamedTagLineAt(name: string, s: string, i: nat): (r: Option<nat>)
    requires i <= |s|
    ensures r.Some? ==> i < r.value <= |s|
  {
    if !(AtLineStart(s, i) && i + 1 + |name| <= |s| && s[i] == '['
         && EqualsIgnoreCase(s[i + 1..i + 1 + |name|], name)) then None
    else
      var a := i + 1 + |name|;
      // `\s+` is followed by `"`, which is not white space: only the longest run can work
      var b := SkipWhile(s, a, IsSpace);
      if b == a || b == |s| || s[b] != '"' then None
      else
        // `[^"]*"` stops at the first quote after the opening one
        var c := SkipWhile(s, b + 1, NotQuote);
        if c + 1 >= |s| || s[c + 1] != ']' then None
        else LastLineEnd(s, c + 2, SkipWhile(s, c + 2, IsSpace))
  }

  /** `^\s*\[[^\]]+\]\s*$` with flag `m`, tried at `i`. */
  function AnyTagLineAt(s: string, i: nat): (r: Option<nat>)
    requires i <= |s|
    ensures r.Some? ==> i < r.value <= |s|
  {
    if !AtLineStart(s, i) then None
    else
      // the leading `\s*` must be followed by `[`: only the longest run can work
      var a := SkipWhile(s, i, IsSpace);
      if a == |s| || s[a] != '[' then None
      else
        var b := SkipWhile(s, a + 1, NotCloseBracket);
        if b == a + 1 || b == |s| then None
        else LastLineEnd(s, b + 1, SkipWhile(s, b + 1, IsSpace))
  }

  /** Where the match of `p` that the search tries at position `i` ends, if it matches there. */
  function MatchAt(p: Pattern, s: string, i: nat): (r: Option<nat>)
    requires i <= |s|
    ensures r.Some? ==> i < r.value <= |s|
  {
    if i == |s| then None
    else match p
      case CrLf =>
        if i + 1 < |s| && s[i] == '\r' && s[i + 1] == '\n' then Some(i + 2) else None
      case NamedTagLine(name) => NamedTagLineAt(name, s, i)
      case AnyTagLine => AnyTagLineAt(s, i)
      case NbspEntity =>
        if i + 6 <= |s| && s[i..i + 6] == "&nbsp;" then Some(i + 6) else None
      case ZeroWidth =>
        if ('\U{200B}' <= s[i] <= '\U{200D}') || s[i] == '\U{FEFF}' then Some(i + 1) else None
      case BlankLines =>
        var j := SkipWhile(s, i, IsNewline);
        if j - i >= 3 then Some(j) else None
      case BraceComment =>
        if s[i] != '{' then None
        else
          var j := SkipWhile(s, i + 1, NotCloseBrace);
          if j < |s| then Some(j + 1) else None
      case LineComment =>
        // `.*` stops at the line end, where `$` holds
        if s[i] == ';' then Some(SkipWhile(s, i + 1, NotLineTerminator)) else None
      case Nag =>
        if s[i] != '$' then None
        else
          var j := SkipWhile(s, i + 1, IsDigit);
          if j > i + 1 then Some(j) else None
      case InnermostVariation =>
        if s[i] != '(' then None
        else
          var j := SkipWhile(s, i + 1, NotParen);
          if j < |s| && s[j] == ')' then Some(j + 1) else None
      case SpaceRun =>
        var j := SkipWhile(s, i, IsSpace);
        if j > i then Some(j) else None
      case CarriageReturn =>
        if s[i] == '\r' then Some(i + 1) else None
      case ClockAnnotation =>
        // `[^}]*` cannot pass the first `}`, so the `]` must sit right before it
        if !(i + 3 <= |s| && s[i..i + 3] == "{[%") then None
        else
          var j := SkipWhile(s, i + 3, NotCloseBrace);
          if j < |s| && j >= i + 4 && s[j - 1] == ']' then Some(j + 1) else None
      case PercentComment =>
        // `\s*[^}]*` together take any run without `}`
        if !(i + 2 <= |s| && s[i..i + 2] == "{%") then None
        else
          var j := SkipWhile(s, i + 2, NotCloseBrace);
          if j < |s| then Some(j + 1) else None
      case SpaceTabRun =>
        var j := SkipWhile(s, i, IsSpaceOrTab);
        if j > i then Some(j) else None
      case NewlineRun =>
        var j := SkipWhile(s, i, IsNewline);
        if j > i then Some(j) else None
  }

  /** `re.test(s)`. */
  predicate Found(p: Pattern, s: string) {
    exists i | 0 <= i < |s| :: MatchAt(p, s, i).Some?
  }

  /** The output of `s.replace(re, repl)` for the part of `s` from position `i` on. */
  function ReplaceFrom(p: Pattern, s: string, i: nat, repl: string): string
    requires i <= |s|
    decreases |s| - i
  {
    if i == |s| then []
    else match MatchAt(p, s, i)
      case Some(e) => repl + ReplaceFrom(p, s, e, repl)
      case None => [s[i]] + ReplaceFrom(p, s, i + 1, repl)
  }

  /** `s.replace(re, repl)` for a global `re`. */
  function ReplaceAll(p: Pattern, s: string, repl: string): string {
    ReplaceFrom(p, s, 0, repl)
  }

  /** Where the pattern never matches, replacing changes nothing. */
  lemma {:induction false} ReplaceWithoutMatch(p: Pattern, s: string, i: nat, repl: string)
    requires i <= |s|
    requires forall k | i <= k < |s| :: MatchAt(p, s, k).None?
    ensures ReplaceFrom(p, s, i, repl) == s[i..]
    decreases |s| - i
  {
    if i < |s| {
      ReplaceWithoutMatch(p, s, i + 1, repl);
      assert s[i..] == [s[i]] + s[i + 1..];
    }
  }

  /** A global replace of a pattern the text does not contain returns the text. */
  lemma ReplaceAllWithoutMatch(p: Pattern, s: string, repl: string)
    requires !Found(p, s)
    ensures ReplaceAll(p, s, repl) == s
  {
    ReplaceWithoutMatch(p, s, 0, repl);
  }

  /** Replacing innermost variations with one space never lengthens, and shortens when one is found. */
  lemma {:induction false} VariationReplaceShrinks(s: string, i: nat)
    requires i <= |s|
    ensures |ReplaceFrom(InnermostVariation, s, i, " ")| <= |s| - i
    ensures (exists k | i <= k < |s| :: MatchAt(InnermostVariation, s, k).Some?)
            ==> |ReplaceFrom(InnermostVariation, s, i, " ")| < |s| - i
    decreases |s| - i
  {
    if i < |s| {
      match MatchAt(InnermostVariation, s, i)
      case Some(e) =>
        VariationReplaceShrinks(s, e);
      case None =>
        VariationReplaceShrinks(s, i + 1);
    }
  }
}
