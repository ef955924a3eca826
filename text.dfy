/**
 * String primitives with JavaScript's semantics: the `\s` character class (which is also
 * the set `String.prototype.trim` removes), `\d`, `\w`, the line terminators that `^`/`$`
 * respect under the `m` flag, `trim`, `split(/\s+/).filter(Boolean)`, `split(" ")`,
 * `join`, `includes`, `startsWith` and `padStart`.
 */
module Text {

  /** JavaScript's `\s`: WhiteSpace and LineTerminator code points. */
  predicate IsSpace(c: char) {
    if c <= ' ' then c == ' ' || ('\t' <= c <= '\r')  // tab, line feed, VT, form feed, CR
    else if c < '\U{00A0}' then false
    else
      || c == '\U{00A0}' || c == '\U{1680}' || ('\U{2000}' <= c <= '\U{200A}')
      || c == '\U{2028}' || c == '\U{2029}' || c == '\U{202F}' || c == '\U{205F}'
      || c == '\U{3000}' || c == '\U{FEFF}'
  }

  predicate IsNonSpace(c: char) { !IsSpace(c) }

  /** The characters that end a line for `^`, `$` (flag `m`) and `.`. */
  predicate IsLineTerminator(c: char) {
    c == '\n' || c == '\r' || c == '\U{2028}' || c == '\U{2029}'
  }

  predicate IsDigit(c: char) { '0' <= c <= '9' }

  /** JavaScript's `\w`, which is also `[A-Za-z0-9_]`. */
  predicate IsWordChar(c: char) {
    ('a' <= c <= 'z') || ('A' <= c <= 'Z') || IsDigit(c) || c == '_'
  }

  predicate NoSpace(s: string) {
    forall k | 0 <= k < |s| :: !IsSpace(s[k])
  }

  predicate AllDigits(s: string) {
    forall k | 0 <= k < |s| :: IsDigit(s[k])
  }

  predicate AllWordChars(s: string) {
    forall k | 0 <= k < |s| :: IsWordChar(s[k])
  }

  /** The end of the longest run of characters satisfying `f` that starts at `i`. */
  function SkipWhile(s: string, i: nat, f: char -> bool): (j: nat)
    requires i <= |s|
    ensures i <= j <= |s|
    ensures forall k {:trigger f(s[k])} | i <= k < j :: f(s[k])
    ensures j < |s| ==> !f(s[j])
    decreases |s| - i
  {
    if i == |s| || !f(s[i]) then i else SkipWhile(s, i + 1, f)
  }

  /** Every character SkipWhile passes over satisfies `f`. */
  lemma SkipWhileAll(s: string, i: nat, f: char -> bool)
    requires i <= |s|
    ensures forall k {:trigger s[k]} | i <= k < SkipWhile(s, i, f) :: f(s[k])
  {
  }

  /** The three properties of SkipWhile determine its result. */
  lemma SkipWhileUnique(s: string, i: nat, f: char -> bool, j: nat)
    requires i <= j <= |s|
    requires forall k | i <= k < j :: f(s[k])
    requires j < |s| ==> !f(s[j])
    ensures SkipWhile(s, i, f) == j
  {
  }

  /** The value of a run of decimal digits, as `parseInt(d, 10)` reads it. */
  function DigitsValue(d: string): (n: nat)
    requires AllDigits(d)
    ensures d == [] ==> n == 0
    ensures |d| == 1 ==> n == (d[0] as int) - ('0' as int)
    decreases |d|
  {
    if d == [] then 0
    else DigitsValue(d[..|d| - 1]) * 10 + ((d[|d| - 1] as int) - ('0' as int))
  }

  /** The decimal digits of `n`, most significant first, as `String(n)` prints a natural number. */
  function NatToDigits(n: nat): (d: string)
    ensures d != [] && AllDigits(d) && DigitsValue(d) == n
    ensures d[0] == '0' <==> n == 0
    ensures n == 0 ==> d == "0"
  {
    var last := ['0' + ((n % 10) as char)];
    if n < 10 then last
    else
      var d := NatToDigits(n / 10) + last;
      assert d[..|d| - 1] == NatToDigits(n / 10);
      d
  }

  /** The characters of `s` that are not white space, in order. */
  function Squeeze(s: string): (r: string)
    ensures NoSpace(r) && |r| <= |s|
    decreases |s|
  {
    if s == [] then []
    else if IsSpace(s[0]) then Squeeze(s[1..])
    else [s[0]] + Squeeze(s[1..])
  }

  lemma {:induction false} SqueezeAppend(a: string, b: string)
    ensures Squeeze(a + b) == Squeeze(a) + Squeeze(b)
    decreases |a|
  {
    if a == [] {
      assert a + b == b;
    } else {
      assert (a + b)[1..] == a[1..] + b;
      SqueezeAppend(a[1..], b);
    }
  }

  lemma {:induction false} SqueezeOfSpaces(s: string)
    requires forall k | 0 <= k < |s| :: IsSpace(s[k])
    ensures Squeeze(s) == []
    decreases |s|
  {
    if s != [] { SqueezeOfSpaces(s[1..]); }
  }

  /** `s.replace(/^\s+/, "")`. */
  function TrimStart(s: string): (r: string)
    ensures r == [] || !IsSpace(r[0])
    ensures exists k | 0 <= k <= |s| :: r == s[k..] && forall m | 0 <= m < k :: IsSpace(s[m])
  {
    var k := SkipWhile(s, 0, IsSpace);
    s[k..]
  }

  /** `s.replace(/\s+$/, "")`. */
  function TrimEnd(s: string): (r: string)
    ensures r == [] || !IsSpace(r[|r| - 1])
    ensures |r| <= |s| && r == s[..|r|] && forall m | |r| <= m < |s| :: IsSpace(s[m])
    decreases |s|
  {
    if s != [] && IsSpace(s[|s| - 1]) then TrimEnd(s[..|s| - 1]) else s
  }

  /** `String.prototype.trim`. */
  function Trim(s: string): (r: string)
    ensures r == [] || (!IsSpace(r[0]) && !IsSpace(r[|r| - 1]))
    ensures Squeeze(r) == Squeeze(s)
  {
    var t := TrimStart(s);
    var r := TrimEnd(t);
    TrimStartSqueeze(s);
    TrimEndSqueeze(t);
    r
  }

  /** `String.prototype.trim` keeps a contiguous piece of its input. */
  lemma TrimIsSlice(s: string) returns (a: nat, b: nat)
    ensures a <= b <= |s| && Trim(s) == s[a..b]
  {
    a := SkipWhile(s, 0, IsSpace);
    var t := s[a..];
    assert TrimStart(s) == t;
    var r := TrimEnd(t);
    b := a + |r|;
    assert r == t[..|r|] == s[a..b];
  }

  lemma TrimStartSqueeze(s: string)
    ensures Squeeze(TrimStart(s)) == Squeeze(s)
  {
    var k := SkipWhile(s, 0, IsSpace);
    assert s == s[..k] + s[k..];
    SqueezeAppend(s[..k], s[k..]);
    SqueezeOfSpaces(s[..k]);
  }

  lemma TrimEndSqueeze(s: string)
    ensures Squeeze(TrimEnd(s)) == Squeeze(s)
  {
    var r := TrimEnd(s);
    assert s == r + s[|r|..];
    SqueezeAppend(r, s[|r|..]);
    SqueezeOfSpaces(s[|r|..]);
  }

  lemma TrimOfClean(s: string)
    requires s == [] || (!IsSpace(s[0]) && !IsSpace(s[|s| - 1]))
    ensures Trim(s) == s
  {
  }

  /** `s.split(/\s+/).filter(Boolean)`: the maximal runs of non-space characters. */
  function Words(s: string): (ws: seq<string>)
    ensures forall w | w in ws :: w != [] && NoSpace(w)
    decreases |s|
  {
    if s == [] then []
    else if IsSpace(s[0]) then Words(s[1..])
    else
      var n := SkipWhile(s, 0, IsNonSpace);
      SkipWhileAll(s, 0, IsNonSpace);
      [s[..n]] + Words(s[n..])
  }

  lemma {:induction false} WordsOfWord(w: string)
    requires w != [] && NoSpace(w)
    ensures Words(w) == [w]
  {
    SkipWhileUnique(w, 0, IsNonSpace, |w|);
    assert w[..|w|] == w;
    assert w[|w|..] == [];
  }

  lemma {:induction false} WordsOfSpaces(s: string)
    requires forall k | 0 <= k < |s| :: IsSpace(s[k])
    ensures Words(s) == []
    decreases |s|
  {
    if s != [] { WordsOfSpaces(s[1..]); }
  }

  /** A white-space separator splits the words of a concatenation. */
  lemma {:induction false} WordsSplitAt(a: string, c: char, b: string)
    requires IsSpace(c)
    ensures Words(a + [c] + b) == Words(a) + Words(b)
    decreases |a|
  {
    var s := a + [c] + b;
    if a == [] {
      assert s[1..] == b;
    } else if IsSpace(a[0]) {
      assert s[1..] == a[1..] + [c] + b;
      WordsSplitAt(a[1..], c, b);
    } else {
      var m := SkipWhile(a, 0, IsNonSpace);
      forall k | 0 <= k < m ensures IsNonSpace(s[k]) { assert s[k] == a[k]; }
      assert !IsNonSpace(s[m]) by {
        if m < |a| { assert s[m] == a[m]; } else { assert s[m] == c; }
      }
      SkipWhileUnique(s, 0, IsNonSpace, m);
      assert s[..m] == a[..m];
      assert s[m..] == a[m..] + [c] + b;
      WordsSplitAt(a[m..], c, b);
    }
  }

  /** White space in front adds no word. */
  lemma {:induction false} WordsAfterSpaces(sp: string, x: string)
    requires forall k | 0 <= k < |sp| :: IsSpace(sp[k])
    ensures Words(sp + x) == Words(x)
    decreases |sp|
  {
    if sp == [] {
      assert sp + x == x;
    } else {
      assert (sp + x)[1..] == sp[1..] + x;
      WordsAfterSpaces(sp[1..], x);
    }
  }

  /** White space behind adds no word. */
  lemma WordsBeforeSpaces(x: string, sp: string)
    requires forall k | 0 <= k < |sp| :: IsSpace(sp[k])
    ensures Words(x + sp) == Words(x)
  {
    if sp == [] {
      assert x + sp == x;
    } else {
      assert x + sp == x + [sp[0]] + sp[1..];
      WordsSplitAt(x, sp[0], sp[1..]);
      WordsOfSpaces(sp[1..]);
    }
  }

  /** After a text that is empty or ends in white space, the words of what follows start afresh. */
  lemma WordsAfterGap(pre: string, v: string)
    requires pre == [] || IsSpace(pre[|pre| - 1])
    ensures Words(pre + v) == Words(pre) + Words(v)
  {
    if pre == [] {
      assert pre + v == v;
    } else {
      var n := |pre| - 1;
      assert pre + v == pre[..n] + [pre[n]] + v;
      assert pre == pre[..n] + [pre[n]] + [];
      WordsSplitAt(pre[..n], pre[n], v);
      WordsSplitAt(pre[..n], pre[n], []);
    }
  }

  /** Dropping white space from the front keeps every word. */
  lemma {:induction false} WordsDropHead(s: string, k: nat)
    requires k <= |s|
    requires forall i | 0 <= i < k :: IsSpace(s[i])
    ensures Words(s[k..]) == Words(s)
    decreases k
  {
    if k > 0 {
      WordsDropHead(s[1..], k - 1);
      assert s[1..][k - 1..] == s[k..];
    }
  }

  /** Dropping white space from the back keeps every word. */
  lemma WordsDropTail(s: string, n: nat)
    requires n <= |s|
    requires forall i | n <= i < |s| :: IsSpace(s[i])
    ensures Words(s[..n]) == Words(s)
  {
    var tail := s[n..];
    forall i | 0 <= i < |tail| ensures IsSpace(tail[i]) {
      assert tail[i] == s[n + i];
    }
    WordsBeforeSpaces(s[..n], tail);
    assert s[..n] + tail == s;
  }

  /** `trim` keeps every word. */
  lemma WordsOfTrim(s: string)
    ensures Words(Trim(s)) == Words(s)
  {
    var k := SkipWhile(s, 0, IsSpace);
    SkipWhileAll(s, 0, IsSpace);
    WordsDropHead(s, k);
    var t := s[k..];
    assert TrimStart(s) == t;
    var r := TrimEnd(t);
    assert r == t[..|r|];
    WordsDropTail(t, |r|);
  }

  /** Where the word that ends just after `i` starts: after a white-space character, or at 0. */
  function WordStart(s: string, i: nat): (a: nat)
    requires i <= |s|
    ensures a <= i && (a == 0 || IsSpace(s[a - 1]))
    ensures forall k | a <= k < i :: !IsSpace(s[k])
    decreases i
  {
    if i == 0 || IsSpace(s[i - 1]) then i else WordStart(s, i - 1)
  }

  /** A text that ends in a word: the words before it, then that word. */
  lemma WordsEndingInWord(pre: string, w: string)
    requires pre == [] || IsSpace(pre[|pre| - 1])
    requires w != [] && NoSpace(w)
    ensures Words(pre + w) == Words(pre) + [w]
  {
    WordsOfWord(w);
    WordsAfterGap(pre, w);
  }

  /**
   * A text that is not all white space is the text before its last word, the last word,
   * and trailing white space; its words are those of the text before, then the last word.
   */
  lemma LastWordSplit(s: string) returns (a: nat, b: nat)
    requires TrimEnd(s) != []
    ensures a < b <= |s| && (a == 0 || IsSpace(s[a - 1]))
    ensures forall k | a <= k < b :: !IsSpace(s[k])
    ensures forall k | b <= k < |s| :: IsSpace(s[k])
    ensures Words(s) == Words(s[..a]) + [s[a..b]]
  {
    b := |TrimEnd(s)|;
    assert TrimEnd(s)[b - 1] == s[b - 1];
    a := WordStart(s, b - 1);
    WordsOfLastWord(s, a, b);
  }

  /** A text ending in a word and white space holds its earlier words, then that word. */
  lemma WordsOfLastWord(s: string, a: nat, b: nat)
    requires a < b <= |s| && (a == 0 || IsSpace(s[a - 1]))
    requires forall k | a <= k < b :: !IsSpace(s[k])
    requires forall k | b <= k < |s| :: IsSpace(s[k])
    ensures Words(s) == Words(s[..a]) + [s[a..b]]
  {
    WordsDropTail(s, b);
    var t := s[..b];
    forall k | a <= k < |t| ensures !IsSpace(t[k]) {
      assert t[k] == s[k];
    }
    assert a > 0 ==> t[a - 1] == s[a - 1];
    WordsEndingAt(t, a);
    assert t[..a] == s[..a];
    assert t[a..] == s[a..b];
  }

  /** A text that ends in a word starting at `a` holds the words before `a`, then that word. */
  lemma WordsEndingAt(t: string, a: nat)
    requires a < |t| && (a == 0 || IsSpace(t[a - 1]))
    requires forall k | a <= k < |t| :: !IsSpace(t[k])
    ensures Words(t) == Words(t[..a]) + [t[a..]]
  {
    var pre := t[..a];
    var w := t[a..];
    forall i | 0 <= i < |w| ensures !IsSpace(w[i]) {
      assert w[i] == t[a + i];
    }
    assert a > 0 ==> pre[a - 1] == t[a - 1];
    WordsEndingInWord(pre, w);
    assert pre + w == t;
  }

  /** `parts.join(sep)`. */
  function Join(parts: seq<string>, sep: string): (r: string)
    ensures |parts| == 1 ==> r == parts[0]
    decreases |parts|
  {
    if parts == [] then []
    else if |parts| == 1 then parts[0]
    else parts[0] + sep + Join(parts[1..], sep)
  }

  lemma {:induction false} JoinAppend(parts: seq<string>, p: string, sep: string)
    requires parts != []
    ensures Join(parts + [p], sep) == Join(parts, sep) + sep + p
    decreases |parts|
  {
    if |parts| == 1 {
      assert (parts + [p])[1..] == [p];
    } else {
      assert (parts + [p])[1..] == parts[1..] + [p];
      JoinAppend(parts[1..], p, sep);
    }
  }

  /** Joining with a white-space character loses nothing but the separators. */
  lemma {:induction false} WordsOfJoin(parts: seq<string>, c: char)
    requires IsSpace(c)
    requires forall w | w in parts :: w != [] && NoSpace(w)
    ensures Words(Join(parts, [c])) == parts
    decreases |parts|
  {
    if parts == [] {
    } else if |parts| == 1 {
      assert parts[0] in parts;
      WordsOfWord(parts[0]);
    } else {
      assert parts[0] in parts;
      assert forall w | w in parts[1..] :: w in parts;
      WordsSplitAt(parts[0], c, Join(parts[1..], [c]));
      WordsOfWord(parts[0]);
      WordsOfJoin(parts[1..], c);
    }
  }

  /** `s.split(c)` for a one-character separator: every piece, the empty ones included. */
  function SplitOn(s: string, c: char): (pieces: seq<string>)
    ensures |pieces| >= 1
    ensures forall p | p in pieces :: c !in p
    ensures Join(pieces, [c]) == s
    decreases |s|
  {
    var k := SkipWhile(s, 0, x => x != c);
    SkipWhileAll(s, 0, x => x != c);
    if k == |s| then [s]
    else
      var rest := SplitOn(s[k + 1..], c);
      assert s == s[..k] + [c] + s[k + 1..];
      [s[..k]] + rest
  }

  predicate StartsWith(s: string, prefix: string) {
    |prefix| <= |s| && s[..|prefix|] == prefix
  }

  /** `s.includes(t)`. */
  predicate Contains(s: string, t: string)
    decreases |s|
  {
    StartsWith(s, t) || (s != [] && Contains(s[1..], t))
  }

  lemma {:induction false} ContainsAt(s: string, t: string, i: nat)
    requires i + |t| <= |s| && s[i..i + |t|] == t
    ensures Contains(s, t)
    decreases i
  {
    if i > 0 {
      assert s[1..][i - 1..i - 1 + |t|] == s[i..i + |t|];
      ContainsAt(s[1..], t, i - 1);
    }
  }

  lemma {:induction false} ContainsSuffix(a: string, t: string)
    ensures Contains(a + t, t)
  {
    var s := a + t;
    assert s[|a|..|a| + |t|] == t;
    ContainsAt(s, t, |a|);
  }

  lemma {:induction false} ContainsPrefix(s: string, t: string, b: string)
    requires Contains(s, t)
    ensures Contains(s + b, t)
    decreases |s|
  {
    if StartsWith(s, t) {
      assert (s + b)[..|t|] == s[..|t|];
    } else {
      assert (s + b)[1..] == s[1..] + b;
      ContainsPrefix(s[1..], t, b);
    }
  }

  /** Text put in front keeps what a string contains. */
  lemma {:induction false} ContainsAfter(a: string, s: string, t: string)
    requires Contains(s, t)
    ensures Contains(a + s, t)
    decreases |a|
  {
    if a == [] {
      assert a + s == s;
    } else {
      ContainsAfter(a[1..], s, t);
      assert (a + s)[1..] == a[1..] + s;
    }
  }

  /** A text that lacks one of the characters of `t` does not contain `t`. */
  lemma {:induction false} MissingCharNotContained(s: string, t: string, c: char)
    requires c in t && c !in s
    ensures !Contains(s, t)
    decreases |s|
  {
    if |t| <= |s| {
      assert forall k | 0 <= k < |t| :: s[..|t|][k] == s[k];
    }
    if s != [] {
      assert forall k | 0 <= k < |s| - 1 :: s[1..][k] == s[k + 1];
      MissingCharNotContained(s[1..], t, c);
    }
  }

  predicate OccursAt(s: string, t: string, k: nat) {
    k + |t| <= |s| && s[k..k + |t|] == t
  }

  /** `s.indexOf(t, from)`, or `|s| + 1` when `t` does not occur at or after `from`. */
  function IndexOf(s: string, t: string, from: nat): (r: nat)
    requires from <= |s|
    ensures from <= r <= |s| + 1
    ensures r <= |s| ==> OccursAt(s, t, r)
    ensures forall k | from <= k < r && k <= |s| :: !OccursAt(s, t, k)
    decreases |s| - from
  {
    if OccursAt(s, t, from) then from
    else if from == |s| then |s| + 1
    else IndexOf(s, t, from + 1)
  }

  /** `s.padStart(n, c)` for a one-character pad. */
  function PadStart(s: string, n: int, c: char): (r: string)
    ensures |r| == if |s| >= n then |s| else n
    ensures r[|r| - |s|..] == s
    ensures forall k | 0 <= k < |r| - |s| :: r[k] == c
  {
    if |s| >= n then s else seq(n - |s|, _ => c) + s
  }

  /** ASCII case folding, which is what a regular expression's `i` flag does to ASCII text. */
  function Lower(c: char): char {
    if 'A' <= c <= 'Z' then (c as int + 32) as char else c
  }

  predicate EqualsIgnoreCase(a: string, b: string) {
    |a| == |b| && forall k | 0 <= k < |a| :: Lower(a[k]) == Lower(b[k])
  }
}
