/**
 * The UCI engine's text output as the popup reads it: one `info` line per principal
 * variation (`multipv N score cp|mate V ... pv MOVES`), collected by rank until the
 * engine's `bestmove` line, then handed back sorted by rank.
 */
module EngineLines {
  import opened Wrappers
  import opened Text

  datatype ScoreKind = Cp | Mate

  /** One principal variation: its rank, its score, its moves and the first of them. */
  datatype Info = Info(multipv: nat, kind: ScoreKind, value: int, pv: seq<string>, move: string)

  /** `\b` in front of a word character at `p`. */
  predicate WordStart(s: string, p: nat)
    requires p <= |s|
  {
    p == 0 || !IsWordChar(s[p - 1])
  }

  predicate IsLiteralAt(s: string, p: nat, lit: string) {
    p + |lit| <= |s| && s[p..p + |lit|] == lit
  }

  /** `\d+` at `a`, taken whole: its value and where it ends. */
  function DigitsAt(s: string, a: nat): (r: Option<(nat, nat)>)
    requires a <= |s|
    ensures r.Some? ==> a < r.value.1 <= |s|
  {
    var d := SkipWhile(s, a, IsDigit);
    if d == a then None else Some((DigitsValue(s[a..d]), d))
  }

  /**
   * `\bmultipv\s+(\d+)` at `p`: the rank and where the match ends. The `\s+` and `\d+`
   * runs are taken whole: `\s+` is followed by a digit, and a shorter `\d+` only lets the
   * following `.*?` start inside the digits, where `\bscore` cannot begin.
   */
  function MultipvAt(s: string, p: nat): (r: Option<(nat, nat)>)
    requires p <= |s|
    ensures r.Some? ==> p < r.value.1 <= |s|
  {
    if !(IsLiteralAt(s, p, "multipv") && WordStart(s, p)) then None
    else
      var a := SkipWhile(s, p + 7, IsSpace);
      if a == p + 7 then None else DigitsAt(s, a)
  }

  /** `(cp|mate)` at `a`. */
  function KindAt(s: string, a: nat): (r: Option<(ScoreKind, nat)>)
    requires a <= |s|
    ensures r.Some? ==> a < r.value.1 <= |s|
  {
    if IsLiteralAt(s, a, "cp") then Some((Cp, a + 2))
    else if IsLiteralAt(s, a, "mate") then Some((Mate, a + 4))
    else None
  }

  /** `-?\d+` at `b`: the greedy `-?` takes a minus sign when there is one. */
  function SignedAt(s: string, b: nat): (r: Option<(int, nat)>)
    requires b <= |s|
    ensures r.Some? ==> b < r.value.1 <= |s|
  {
    if b < |s| && s[b] == '-' then
      match DigitsAt(s, b + 1)
      case Some((n, d)) => Some((0 - n, d))
      case None => None
    else
      match DigitsAt(s, b)
      case Some((n, d)) => Some((n, d))
      case None => None
  }

  /** `\bscore\s+(cp|mate)\s+(-?\d+)` at `p`: the kind, the value and where the match ends. */
  function ScoreAt(s: string, p: nat): (r: Option<(ScoreKind, int, nat)>)
    requires p <= |s|
    ensures r.Some? ==> p < r.value.2 <= |s|
  {
    if !(IsLiteralAt(s, p, "score") && WordStart(s, p)) then None
    else
      var a := SkipWhile(s, p + 5, IsSpace);
      if a == p + 5 then None
      else match KindAt(s, a)
        case None => None
        case Some((kind, e)) =>
          var b := SkipWhile(s, e, IsSpace);
          if b == e then None
          else match SignedAt(s, b)
            case None => None
            case Some((v, d)) => Some((kind, v, d))
  }

  /**
   * `\bpv\s+(.+)$` at `p` (no `m` flag: `$` is the end of the line, and `.` refuses line
   * terminators): the captured text. When the greedy `\s+` reaches the end, it gives back
   * one character for `.+`.
   */
  function PvAt(s: string, p: nat): (r: Option<string>)
    requires p <= |s|
    ensures r.Some? ==> r.value != []
  {
    if !(IsLiteralAt(s, p, "pv") && WordStart(s, p)) then None
    else
      var b := SkipWhile(s, p + 2, IsSpace);
      if b == p + 2 then None
      else if b < |s| then
        if forall k | b <= k < |s| :: !IsLineTerminator(s[k]) then Some(s[b..]) else None
      else if b - (p + 2) >= 2 && !IsLineTerminator(s[|s| - 1]) then Some(s[|s| - 1..])
      else None
  }

  /** `.*?\bpv\s+(.+)$` from `q`: the lazy `.*?` tries each later position up to a line end. */
  function PvFrom(s: string, q: nat): (r: Option<string>)
    requires q <= |s|
    decreases |s| - q
  {
    match PvAt(s, q)
    case Some(c) => Some(c)
    case None => if q == |s| || IsLineTerminator(s[q]) then None else PvFrom(s, q + 1)
  }

  /** `.*?\bscore...(-?\d+).*?\bpv\s+(.+)$` from `p`: the first score the rest can follow. */
  function ScoreFrom(s: string, p: nat): (r: Option<(ScoreKind, int, string)>)
    requires p <= |s|
    decreases |s| - p
  {
    var here := ScoreAt(s, p);
    if here.Some? && PvFrom(s, here.value.2).Some? then
      Some((here.value.0, here.value.1, PvFrom(s, here.value.2).value))
    else if p == |s| || IsLineTerminator(s[p]) then None
    else ScoreFrom(s, p + 1)
  }

  /** `m[4].trim().split(/\s+/)`: a blank capture splits into one empty string. */
  function PvMoves(capture: string): (pv: seq<string>)
    ensures |pv| >= 1 && forall w | w in pv :: NoSpace(w)
  {
    var t := Trim(capture);
    if t == [] then [""] else Words(t)
  }

  /** What every parsed line satisfies: at least one move, the first one being `move`. */
  predicate WellFormedInfo(info: Info) {
    |info.pv| >= 1 && info.move == info.pv[0] && forall w | w in info.pv :: NoSpace(w)
  }

  /** `line.match(...)`: the leftmost start where the whole expression matches. */
  function InfoFrom(s: string, i: nat): (r: Option<Info>)
    requires i <= |s|
    ensures r.Some? ==> WellFormedInfo(r.value)
    decreases |s| - i
  {
    var here := MultipvAt(s, i);
    if here.Some? && ScoreFrom(s, here.value.1).Some? then
      var (kind, value, capture) := ScoreFrom(s, here.value.1).value;
      var pv := PvMoves(capture);
      Some(Info(here.value.0, kind, value, pv, pv[0]))
    else if i == |s| then None
    else InfoFrom(s, i + 1)
  }

  /** `parseInfoMulti(line)`. */
  function ParseInfo(line: string): (r: Option<Info>)
    ensures r.Some? ==> WellFormedInfo(r.value)
  {
    InfoFrom(line, 0)
  }

  // ---------------------------------------------------------------- rendering

  function KindText(k: ScoreKind): string {
    match k case Cp => "cp" case Mate => "mate"
  }

  function IntText(v: int): string {
    if v < 0 then "-" + NatToDigits(-v) else NatToDigits(v)
  }

  /** An engine line carrying exactly one principal variation. */
  function RenderInfo(n: nat, kind: ScoreKind, v: int, moves: seq<string>): string {
    "info multipv " + NatToDigits(n) + " score " + KindText(kind) + " " + IntText(v)
      + " pv " + Join(moves, " ")
  }

  predicate ValidMoves(moves: seq<string>) {
    moves != [] && forall w | w in moves :: w != [] && NoSpace(w)
  }

  lemma {:induction false} JoinEnds(moves: seq<string>)
    requires ValidMoves(moves)
    ensures var j := Join(moves, " ");
      j != [] && !IsSpace(j[0]) && !IsSpace(j[|j| - 1])
      && forall k | 0 <= k < |j| :: !IsLineTerminator(j[k])
    decreases |moves|
  {
    assert moves[0] in moves;
    var j := Join(moves, " ");
    if |moves| > 1 {
      assert forall w | w in moves[1..] :: w in moves;
      JoinEnds(moves[1..]);
      var t := Join(moves[1..], " ");
      assert j == moves[0] + " " + t;
      forall k | 0 <= k < |j| ensures !IsLineTerminator(j[k]) {
        if k < |moves[0]| { assert j[k] == moves[0][k]; }
        else if k > |moves[0]| { assert j[k] == t[k - |moves[0]| - 1]; }
      }
      assert j[|j| - 1] == t[|t| - 1];
    } else {
      forall k | 0 <= k < |j| ensures !IsLineTerminator(j[k]) { assert !IsSpace(j[k]); }
    }
  }

  lemma LitAt(a: string, piece: string, b: string)
    ensures IsLiteralAt(a + piece + b, |a|, piece)
  {
    assert (a + piece + b)[|a|..|a| + |piece|] == piece;
  }

  lemma LitSplit(s: string, p: nat, x: string, y: string)
    requires IsLiteralAt(s, p, x + y)
    ensures IsLiteralAt(s, p, x) && IsLiteralAt(s, p + |x|, y)
  {
    assert s[p..p + |x|] == s[p..p + |x| + |y|][..|x|];
    assert s[p + |x|..p + |x| + |y|] == s[p..p + |x| + |y|][|x|..];
  }

  /** A run of characters satisfying `f` that `s` holds at `a`, ended by one that does not. */
  lemma RunAfter(s: string, a: nat, run: string, f: char -> bool)
    requires IsLiteralAt(s, a, run)
    requires forall k | 0 <= k < |run| :: f(run[k])
    requires a + |run| < |s| ==> !f(s[a + |run|])
    ensures SkipWhile(s, a, f) == a + |run|
  {
    forall k | a <= k < a + |run| ensures f(s[k]) { assert s[k] == s[a..a + |run|][k - a]; }
    SkipWhileUnique(s, a, f, a + |run|);
  }

  /** One space at `a` before a character that is not white space. */
  lemma OneSpace(s: string, a: nat)
    requires IsLiteralAt(s, a, " ") && a + 1 < |s| && !IsSpace(s[a + 1])
    ensures SkipWhile(s, a, IsSpace) == a + 1
  {
    RunAfter(s, a, " ", IsSpace);
  }

  lemma DigitsAtLit(s: string, a: nat, d: string)
    requires IsLiteralAt(s, a, d) && d != [] && AllDigits(d)
    requires a + |d| < |s| ==> !IsDigit(s[a + |d|])
    ensures DigitsAt(s, a) == Some((DigitsValue(d), a + |d|))
  {
    RunAfter(s, a, d, IsDigit);
  }

  lemma LitChar(s: string, p: nat, lit: string, k: nat)
    requires IsLiteralAt(s, p, lit) && k < |lit|
    ensures s[p + k] == lit[k]
  {
    assert s[p..p + |lit|][k] == lit[k];
  }

  lemma MultipvAtStep(s: string, p: nat, a: nat)
    requires p <= |s| && IsLiteralAt(s, p, "multipv") && WordStart(s, p)
    requires p + 7 < a <= |s| && SkipWhile(s, p + 7, IsSpace) == a
    ensures MultipvAt(s, p) == DigitsAt(s, a)
  {
  }

  /** `multipv ` at `p`, before a digit. */
  lemma MultipvHeadLit(s: string, p: nat, d: string)
    requires IsLiteralAt(s, p, "multipv ") && IsLiteralAt(s, p + 8, d) && d != [] && AllDigits(d)
    ensures p + 8 <= |s| && IsLiteralAt(s, p, "multipv") && SkipWhile(s, p + 7, IsSpace) == p + 8
  {
    LitSplit(s, p, "multipv", " ");
    LitChar(s, p + 8, d, 0);
    OneSpace(s, p + 7);
  }

  lemma MultipvAtLit(s: string, p: nat, d: string)
    requires p <= |s| && WordStart(s, p)
    requires IsLiteralAt(s, p, "multipv ") && IsLiteralAt(s, p + 8, d)
    requires d != [] && AllDigits(d) && IsLiteralAt(s, p + 8 + |d|, " ")
    ensures MultipvAt(s, p) == Some((DigitsValue(d), p + 8 + |d|))
  {
    MultipvHeadLit(s, p, d);
    MultipvDigits(s, p, d);
  }

  lemma MultipvDigits(s: string, p: nat, d: string)
    requires p + 8 <= |s| && IsLiteralAt(s, p, "multipv") && WordStart(s, p)
    requires SkipWhile(s, p + 7, IsSpace) == p + 8
    requires IsLiteralAt(s, p + 8, d) && d != [] && AllDigits(d) && IsLiteralAt(s, p + 8 + |d|, " ")
    ensures MultipvAt(s, p) == Some((DigitsValue(d), p + 8 + |d|))
  {
    LitChar(s, p + 8 + |d|, " ", 0);
    DigitsAtLit(s, p + 8, d);
    MultipvAtStep(s, p, p + 8);
  }

  lemma KindAtLit(s: string, a: nat, kind: ScoreKind)
    requires IsLiteralAt(s, a, KindText(kind))
    ensures KindAt(s, a) == Some((kind, a + |KindText(kind)|))
  {
    if kind == Mate {
      assert s[a] == 'm';
    }
  }

  /** `vt` is how a signed integer `v` prints: an optional minus sign, then digits. */
  predicate SignedDigits(vt: string, v: int) {
    if v < 0 then |vt| >= 2 && vt[0] == '-' && AllDigits(vt[1..]) && DigitsValue(vt[1..]) == -v
    else vt != [] && AllDigits(vt) && DigitsValue(vt) == v
  }

  lemma IntTextSigned(v: int)
    ensures SignedDigits(IntText(v), v)
  {
    if v < 0 {
      assert IntText(v)[1..] == NatToDigits(-v);
    }
  }

  lemma SignedAtLit(s: string, b: nat, vt: string, v: int)
    requires SignedDigits(vt, v)
    requires IsLiteralAt(s, b, vt) && IsLiteralAt(s, b + |vt|, " ")
    ensures SignedAt(s, b) == Some((v, b + |vt|))
  {
    LitChar(s, b + |vt|, " ", 0);
    LitChar(s, b, vt, 0);
    if v < 0 {
      LitSplit(s, b, "-", vt[1..]);
      DigitsAtLit(s, b + 1, vt[1..]);
    } else {
      DigitsAtLit(s, b, vt);
    }
  }

  lemma ScoreAtStep(s: string, p: nat, a: nat, kind: ScoreKind, e: nat, b: nat, v: int, d: nat)
    requires p <= |s| && IsLiteralAt(s, p, "score") && WordStart(s, p)
    requires p + 5 < a <= |s| && SkipWhile(s, p + 5, IsSpace) == a
    requires KindAt(s, a) == Some((kind, e))
    requires e < b <= |s| && SkipWhile(s, e, IsSpace) == b
    requires SignedAt(s, b) == Some((v, d))
    ensures ScoreAt(s, p) == Some((kind, v, d))
  {
  }

  /** `score KIND` at `p`: where the kind starts and what it is. */
  lemma ScoreKindLit(s: string, p: nat, kind: ScoreKind)
    requires IsLiteralAt(s, p, "score ") && IsLiteralAt(s, p + 6, KindText(kind))
    ensures p + 6 <= |s| && SkipWhile(s, p + 5, IsSpace) == p + 6
    ensures IsLiteralAt(s, p, "score") && KindAt(s, p + 6) == Some((kind, p + 6 + |KindText(kind)|))
  {
    LitSplit(s, p, "score", " ");
    LitChar(s, p + 6, KindText(kind), 0);
    assert !IsSpace(KindText(kind)[0]);
    OneSpace(s, p + 5);
    KindAtLit(s, p + 6, kind);
  }

  /** ` V ` at `e`: the signed value after the one space. */
  lemma ScoreValueLit(s: string, e: nat, vt: string, v: int)
    requires SignedDigits(vt, v)
    requires IsLiteralAt(s, e, " ") && IsLiteralAt(s, e + 1, vt) && IsLiteralAt(s, e + 1 + |vt|, " ")
    ensures e + 1 <= |s| && SkipWhile(s, e, IsSpace) == e + 1
    ensures SignedAt(s, e + 1) == Some((v, e + 1 + |vt|))
  {
    LitChar(s, e + 1, vt, 0);
    assert !IsSpace(vt[0]) by { if v >= 0 { assert IsDigit(vt[0]); } }
    OneSpace(s, e);
    SignedAtLit(s, e + 1, vt, v);
  }

  lemma ScoreAtLit(s: string, p: nat, kind: ScoreKind, vt: string, v: int, d: nat)
    requires p <= |s| && WordStart(s, p) && SignedDigits(vt, v)
    requires IsLiteralAt(s, p, "score ") && IsLiteralAt(s, p + 6, KindText(kind))
    requires IsLiteralAt(s, p + 6 + |KindText(kind)|, " ")
    requires IsLiteralAt(s, p + 7 + |KindText(kind)|, vt)
    requires d == p + 7 + |KindText(kind)| + |vt| && IsLiteralAt(s, d, " ")
    ensures ScoreAt(s, p) == Some((kind, v, d))
  {
    var e := p + 6 + |KindText(kind)|;
    ScoreKindLit(s, p, kind);
    ScoreValueLit(s, e, vt, v);
    ScoreAtStep(s, p, p + 6, kind, e, e + 1, v, d);
  }

  lemma PvAtLit(s: string, p: nat, j: string)
    requires p <= |s| && WordStart(s, p)
    requires IsLiteralAt(s, p, "pv ") && s[p + 3..] == j
    requires j != [] && !IsSpace(j[0]) && forall k | 0 <= k < |j| :: !IsLineTerminator(j[k])
    ensures PvAt(s, p) == Some(j)
  {
    LitSplit(s, p, "pv", " ");
    assert s[p + 3] == j[0];
    RunAfter(s, p + 2, " ", IsSpace);
    forall k | p + 3 <= k < |s| ensures !IsLineTerminator(s[k]) { assert s[k] == j[k - p - 3]; }
  }

  lemma PvFromSkip(s: string, q: nat)
    requires q < |s| && s[q] == ' '
    ensures PvFrom(s, q) == PvFrom(s, q + 1)
  {
  }

  lemma ScoreFromSkip(s: string, p: nat)
    requires p < |s| && s[p] == ' '
    ensures ScoreFrom(s, p) == ScoreFrom(s, p + 1)
  {
    assert !IsLiteralAt(s, p, "score") by {
      if IsLiteralAt(s, p, "score") { LitChar(s, p, "score", 0); }
    }
  }

  lemma ScoreFromHere(s: string, p: nat, kind: ScoreKind, v: int, e: nat, c: string)
    requires p <= |s| && ScoreAt(s, p) == Some((kind, v, e)) && PvFrom(s, e) == Some(c)
    ensures ScoreFrom(s, p) == Some((kind, v, c))
  {
  }

  lemma InfoFromSkip(s: string, i: nat)
    requires i < |s| && s[i] != 'm'
    ensures InfoFrom(s, i) == InfoFrom(s, i + 1)
  {
    assert !IsLiteralAt(s, i, "multipv") by {
      if IsLiteralAt(s, i, "multipv") { LitChar(s, i, "multipv", 0); }
    }
  }

  lemma InfoFromHere(s: string, i: nat, n: nat, e: nat, kind: ScoreKind, v: int, c: string)
    requires i <= |s| && MultipvAt(s, i) == Some((n, e)) && ScoreFrom(s, e) == Some((kind, v, c))
    ensures InfoFrom(s, i) == Some(Info(n, kind, v, PvMoves(c), PvMoves(c)[0]))
  {
  }

  /** ` pv MOVES` at `q`, up to the end of the line. */
  lemma PvStage(s: string, q: nat, moves: seq<string>)
    requires ValidMoves(moves)
    requires IsLiteralAt(s, q, " ") && IsLiteralAt(s, q + 1, "pv ") && s[q + 4..] == Join(moves, " ")
    ensures PvFrom(s, q) == Some(Join(moves, " "))
  {
    JoinEnds(moves);
    LitChar(s, q, " ", 0);
    PvAtLit(s, q + 1, Join(moves, " "));
    PvFromSkip(s, q);
  }

  /** `s` holds ` score KT VT pv J` from `q` to its end. */
  predicate TailLaidOut(s: string, q: nat, kt: string, vt: string, j: string) {
    var e := q + 8 + |kt| + |vt|;
    && IsLiteralAt(s, q, " ") && IsLiteralAt(s, q + 1, "score ")
    && IsLiteralAt(s, q + 7, kt) && IsLiteralAt(s, q + 7 + |kt|, " ")
    && IsLiteralAt(s, q + 8 + |kt|, vt)
    && IsLiteralAt(s, e, " ") && IsLiteralAt(s, e + 1, "pv ") && e + 4 <= |s| && s[e + 4..] == j
  }

  /** ` score KIND V pv MOVES` at `q`. */
  lemma ScoreStage(s: string, q: nat, kind: ScoreKind, vt: string, v: int, moves: seq<string>)
    requires SignedDigits(vt, v) && ValidMoves(moves) && TailLaidOut(s, q, KindText(kind), vt, Join(moves, " "))
    ensures ScoreFrom(s, q) == Some((kind, v, Join(moves, " ")))
  {
    var e := q + 8 + |KindText(kind)| + |vt|;
    var c := Join(moves, " ");
    PvStage(s, e, moves);
    LitChar(s, q, " ", 0);
    ScoreAtLit(s, q + 1, kind, vt, v, e);
    ScoreFromHere(s, q + 1, kind, v, e, c);
    ScoreFromSkip(s, q);
  }

  /** No match can start where there is no `m`. */
  lemma {:induction false} InfoFromSkipRun(s: string, i: nat, j: nat)
    requires i <= j <= |s|
    requires forall k | i <= k < j :: s[k] != 'm'
    ensures InfoFrom(s, i) == InfoFrom(s, j)
    decreases j - i
  {
    if i < j {
      InfoFromSkip(s, i);
      InfoFromSkipRun(s, i + 1, j);
    }
  }

  lemma InfoPrefix(s: string)
    requires IsLiteralAt(s, 0, "info ")
    ensures InfoFrom(s, 0) == InfoFrom(s, 5)
  {
    forall k | 0 <= k < 5 ensures s[k] != 'm' { LitChar(s, 0, "info ", k); }
    InfoFromSkipRun(s, 0, 5);
  }

  /** `info multipv N` at the start of the line, followed by a part the rest accepts. */
  lemma InfoStage(s: string, n: nat, d: string, kind: ScoreKind, v: int, j: string)
    requires d != [] && AllDigits(d) && DigitsValue(d) == n
    requires IsLiteralAt(s, 0, "info ") && IsLiteralAt(s, 5, "multipv ") && IsLiteralAt(s, 13, d)
    requires IsLiteralAt(s, 13 + |d|, " ") && ScoreFrom(s, 13 + |d|) == Some((kind, v, j))
    ensures InfoFrom(s, 0) == Some(Info(n, kind, v, PvMoves(j), PvMoves(j)[0]))
  {
    LitChar(s, 0, "info ", 4);
    MultipvAtLit(s, 5, d);
    InfoFromHere(s, 5, n, 13 + |d|, kind, v, j);
    InfoPrefix(s);
  }

  lemma PvMovesOfJoin(moves: seq<string>)
    requires ValidMoves(moves)
    ensures PvMoves(Join(moves, " ")) == moves
  {
    JoinEnds(moves);
    TrimOfClean(Join(moves, " "));
    WordsOfJoin(moves, ' ');
  }

  /** A line laid out as `info multipv N score KIND V pv MOVES` parses to its parts. */
  lemma ParseLaidOut(s: string, n: nat, d: string, kind: ScoreKind, v: int, vt: string, moves: seq<string>)
    requires ValidMoves(moves) && d != [] && AllDigits(d) && DigitsValue(d) == n && SignedDigits(vt, v)
    requires IsLiteralAt(s, 0, "info ") && IsLiteralAt(s, 5, "multipv ") && IsLiteralAt(s, 13, d)
    requires TailLaidOut(s, 13 + |d|, KindText(kind), vt, Join(moves, " "))
    ensures ParseInfo(s) == Some(Info(n, kind, v, moves, moves[0]))
  {
    ScoreStage(s, 13 + |d|, kind, vt, v, moves);
    InfoStage(s, n, d, kind, v, Join(moves, " "));
    PvMovesOfJoin(moves);
  }

  /** A literal `t` holds at `p` is found `|x|` further on once `x` is put in front. */
  lemma LitShift(x: string, t: string, p: nat, lit: string)
    requires IsLiteralAt(t, p, lit)
    ensures IsLiteralAt(x + t, |x| + p, lit)
  {
    assert (x + t)[|x| + p..|x| + p + |lit|] == t[p..p + |lit|];
  }

  /** Where each piece of ` score K V pv J` sits. */
  lemma TailLayout(kt: string, vt: string, j: string)
    ensures TailLaidOut(" score " + kt + " " + vt + " pv " + j, 0, kt, vt, j)
  {
    var t := " score " + kt + " " + vt + " pv " + j;
    var e := 8 + |kt| + |vt|;
    assert t[0..7] == " score ";
    assert t[7..7 + |kt|] == kt;
    assert t[7 + |kt|] == ' ';
    assert t[8 + |kt|..e] == vt;
    assert t[e..e + 4] == " pv ";
    assert t[e + 4..] == j;
    LitSplit(t, 0, " ", "score ");
    LitSplit(t, e, " ", "pv ");
  }

  lemma TailShift(x: string, t: string, kt: string, vt: string, j: string)
    requires TailLaidOut(t, 0, kt, vt, j)
    ensures TailLaidOut(x + t, |x|, kt, vt, j)
  {
    var e := 8 + |kt| + |vt|;
    LitShift(x, t, 0, " ");
    LitShift(x, t, 1, "score ");
    LitShift(x, t, 7, kt);
    LitShift(x, t, 7 + |kt|, " ");
    LitShift(x, t, 8 + |kt|, vt);
    LitShift(x, t, e, " ");
    LitShift(x, t, e + 1, "pv ");
    assert (x + t)[|x| + e + 4..] == t[e + 4..];
  }

  /** Where each piece of `info multipv D score K V pv J` sits. */
  lemma RenderLayout(d: string, kt: string, vt: string, j: string)
    ensures var s := "info multipv " + d + " score " + kt + " " + vt + " pv " + j;
      && IsLiteralAt(s, 0, "info ") && IsLiteralAt(s, 5, "multipv ") && IsLiteralAt(s, 13, d)
      && TailLaidOut(s, 13 + |d|, kt, vt, j)
  {
    var head := "info multipv " + d;
    var tail := " score " + kt + " " + vt + " pv " + j;
    var s := "info multipv " + d + " score " + kt + " " + vt + " pv " + j;
    assert s == head + tail;
    assert s[0..5] == "info ";
    assert s[5..13] == "multipv ";
    assert s[13..13 + |d|] == d;
    TailLayout(kt, vt, j);
    TailShift(head, tail, kt, vt, j);
  }

  /** An `info` line the engine prints parses back to its rank, score and moves. */
  lemma ParseRenderInfo(n: nat, kind: ScoreKind, v: int, moves: seq<string>)
    requires ValidMoves(moves)
    ensures ParseInfo(RenderInfo(n, kind, v, moves)) == Some(Info(n, kind, v, moves, moves[0]))
  {
    RenderLayout(NatToDigits(n), KindText(kind), IntText(v), Join(moves, " "));
    IntTextSigned(v);
    ParseLaidOut(RenderInfo(n, kind, v, moves), n, NatToDigits(n), kind, v, IntText(v), moves);
  }

  // ---------------------------------------------------------------- collecting

  predicate IsInfoLine(line: string) { StartsWith(line, "info ") && Contains(line, "multipv") }

  predicate IsBestmove(line: string) { StartsWith(line, "bestmove ") }

  /** What one message adds to the table: a parsed line of a rank not above the one asked for. */
  function Accepted(line: string, requested: nat): (r: Option<Info>)
    ensures r.Some? ==> r.value.multipv <= requested && WellFormedInfo(r.value)
  {
    if !IsInfoLine(line) then None
    else match ParseInfo(line)
      case Some(info) => if info.multipv <= requested then Some(info) else None
      case None => None
  }

  /** Whether the handler resolves on this message. */
  predicate Resolves(line: string) { !IsInfoLine(line) && IsBestmove(line) }

  /** The index of the first message the handler resolves on, or `|msgs|`. */
  function FirstBestmove(msgs: seq<string>): (b: nat)
    ensures b <= |msgs|
    ensures b < |msgs| ==> Resolves(msgs[b])
    ensures forall k | 0 <= k < b :: !Resolves(msgs[k])
  {
    if msgs == [] then 0
    else if Resolves(msgs[0]) then 0
    else 1 + FirstBestmove(msgs[1..])
  }

  /** The `lines` object after the messages in `msgs`, none of them a `bestmove`. */
  function Table(msgs: seq<string>, requested: nat): (t: map<nat, Info>)
    ensures forall n | n in t :: t[n].multipv == n && n <= requested && WellFormedInfo(t[n])
    decreases |msgs|
  {
    if msgs == [] then map[]
    else
      var t := Table(msgs[..|msgs| - 1], requested);
      match Accepted(msgs[|msgs| - 1], requested)
      case Some(info) => t[info.multipv := info]
      case None => t
  }

  /** The values of `t` with keys below `k`, in ascending key order. */
  function Ranked(t: map<nat, Info>, k: nat): seq<Info>
    decreases k
  {
    if k == 0 then [] else Ranked(t, k - 1) + (if k - 1 in t then [t[k - 1]] else [])
  }

  /**
   * The promise of `onceBestWithMulti(requested)` fed `msgs`: unresolved, or the sorted lines.
   * It stays pending exactly when no `bestmove` line has arrived.
   */
  function OnceBest(msgs: seq<string>, requested: nat): (r: Option<seq<Info>>)
    ensures r.None? <==> forall k | 0 <= k < |msgs| :: !Resolves(msgs[k])
  {
    var b := FirstBestmove(msgs);
    if b == |msgs| then None else Some(Ranked(Table(msgs[..b], requested), requested + 1))
  }

  /** The handler run over the messages in order: stores accepted lines, stops at `bestmove`. */
  method AwaitBest(msgs: seq<string>, requested: nat) returns (r: Option<seq<Info>>)
    ensures r == OnceBest(msgs, requested)
  {
    var lines: map<nat, Info> := map[];
    var i := 0;
    while i < |msgs| && !Resolves(msgs[i])
      invariant i <= FirstBestmove(msgs)
      invariant lines == Table(msgs[..i], requested)
    {
      assert msgs[..i + 1][..i] == msgs[..i];
      var info := Accepted(msgs[i], requested);
      if info.Some? {
        lines := lines[info.value.multipv := info.value];
      }
      i := i + 1;
    }
    if i == |msgs| {
      r := None;
    } else {
      r := Some(Ranked(lines, requested + 1));
    }
  }

  // ---------------------------------------------------------------- properties

  predicate RanksIncrease(r: seq<Info>) {
    forall i, j | 0 <= i < j < |r| :: r[i].multipv < r[j].multipv
  }

  lemma {:induction false} RankedSpec(t: map<nat, Info>, k: nat)
    requires forall n | n in t :: t[n].multipv == n
    ensures RanksIncrease(Ranked(t, k))
    ensures forall i | 0 <= i < |Ranked(t, k)| ::
      Ranked(t, k)[i].multipv < k && Ranked(t, k)[i].multipv in t && t[Ranked(t, k)[i].multipv] == Ranked(t, k)[i]
    ensures forall n | n in t && n < k :: exists i | 0 <= i < |Ranked(t, k)| :: Ranked(t, k)[i] == t[n]
    decreases k
  {
    if k > 0 {
      RankedSpec(t, k - 1);
      var r0 := Ranked(t, k - 1);
      var r := Ranked(t, k);
      assert r == r0 + (if k - 1 in t then [t[k - 1]] else []);
      forall i | 0 <= i < |r|
        ensures r[i].multipv < k && r[i].multipv in t && t[r[i].multipv] == r[i]
      {
        if i < |r0| {
          assert r[i] == r0[i];
          assert r0[i].multipv < k - 1 && r0[i].multipv in t && t[r0[i].multipv] == r0[i];
        } else {
          assert r[i] == t[k - 1];
        }
      }
      forall i, j | 0 <= i < j < |r| ensures r[i].multipv < r[j].multipv {
        assert r[i] == r0[i];
        assert r0[i].multipv < k - 1;
        if j < |r0| {
          assert r[j] == r0[j];
        } else {
          assert r[j] == t[k - 1];
        }
      }
      forall n | n in t && n < k ensures exists i | 0 <= i < |r| :: r[i] == t[n] {
        if n < k - 1 {
          var i :| 0 <= i < |r0| && r0[i] == t[n];
          assert r[i] == r0[i];
        } else {
          assert r[|r0|] == t[n];
        }
      }
    }
  }

  /** The resolved lines are sorted by strictly increasing rank, none above the one asked for. */
  lemma OnceBestSorted(msgs: seq<string>, requested: nat)
    requires OnceBest(msgs, requested).Some?
    ensures var r := OnceBest(msgs, requested).value;
      (forall i, j | 0 <= i < j < |r| :: r[i].multipv < r[j].multipv)
      && forall i | 0 <= i < |r| :: r[i].multipv <= requested && WellFormedInfo(r[i])
  {
    var t := Table(msgs[..FirstBestmove(msgs)], requested);
    RankedSpec(t, requested + 1);
    var r := OnceBest(msgs, requested).value;
    assert r == Ranked(t, requested + 1);
    forall i | 0 <= i < |r| ensures r[i].multipv <= requested && WellFormedInfo(r[i]) {
      assert t[r[i].multipv] == r[i];
    }
  }

  /** The last message accepted for rank `n`, reading `msgs` from the end. */
  function LastFor(msgs: seq<string>, requested: nat, n: nat): Option<Info>
    decreases |msgs|
  {
    if msgs == [] then None
    else
      var a := Accepted(msgs[|msgs| - 1], requested);
      if a.Some? && a.value.multipv == n then a
      else LastFor(msgs[..|msgs| - 1], requested, n)
  }

  /** Every table entry is the last line accepted for its rank, and every accepted rank has one. */
  lemma {:induction false} TableIsLastWriter(msgs: seq<string>, requested: nat, n: nat)
    ensures n in Table(msgs, requested) <==> LastFor(msgs, requested, n).Some?
    ensures n in Table(msgs, requested) ==> Table(msgs, requested)[n] == LastFor(msgs, requested, n).value
    decreases |msgs|
  {
    if msgs != [] {
      TableIsLastWriter(msgs[..|msgs| - 1], requested, n);
    }
  }

  lemma {:induction false} TableFromAccepted(msgs: seq<string>, requested: nat, n: nat)
    requires n in Table(msgs, requested)
    ensures exists k | 0 <= k < |msgs| :: Accepted(msgs[k], requested) == Some(Table(msgs, requested)[n])
    decreases |msgs|
  {
    var init := msgs[..|msgs| - 1];
    var a := Accepted(msgs[|msgs| - 1], requested);
    if a.Some? && a.value.multipv == n {
      assert Accepted(msgs[|msgs| - 1], requested) == Some(Table(msgs, requested)[n]);
    } else {
      TableFromAccepted(init, requested, n);
      var k :| 0 <= k < |init| && Accepted(init[k], requested) == Some(Table(init, requested)[n]);
      assert msgs[k] == init[k];
    }
  }

  /**
   * Each rank the engine reported (at most the one asked for) before its `bestmove` appears
   * exactly in the result, as the last line reported for it.
   */
  lemma OnceBestLastWriter(msgs: seq<string>, requested: nat, n: nat)
    requires OnceBest(msgs, requested).Some?
    ensures var r := OnceBest(msgs, requested).value;
      var last := LastFor(msgs[..FirstBestmove(msgs)], requested, n);
      (last.Some? <==> exists i | 0 <= i < |r| :: r[i].multipv == n)
      && forall i | 0 <= i < |r| && r[i].multipv == n :: r[i] == last.value
  {
    var pre := msgs[..FirstBestmove(msgs)];
    var t := Table(pre, requested);
    var r := OnceBest(msgs, requested).value;
    assert r == Ranked(t, requested + 1);
    RankedSpec(t, requested + 1);
    TableIsLastWriter(pre, requested, n);
    if n in t {
      var i :| 0 <= i < |r| && r[i] == t[n];
      assert r[i].multipv == n;
    }
  }

  /** Messages after the `bestmove` that resolved the promise change nothing. */
  lemma {:induction false} OnceBestIgnoresLater(msgs: seq<string>, more: seq<string>, requested: nat)
    requires OnceBest(msgs, requested).Some?
    ensures OnceBest(msgs + more, requested) == OnceBest(msgs, requested)
  {
    var b := FirstBestmove(msgs);
    FirstBestmoveAppend(msgs, more);
    assert (msgs + more)[..b] == msgs[..b];
  }

  lemma {:induction false} FirstBestmoveAppend(msgs: seq<string>, more: seq<string>)
    requires FirstBestmove(msgs) < |msgs|
    ensures FirstBestmove(msgs + more) == FirstBestmove(msgs)
    decreases |msgs|
  {
    if !Resolves(msgs[0]) {
      assert (msgs + more)[1..] == msgs[1..] + more;
      FirstBestmoveAppend(msgs[1..], more);
    }
  }
}
