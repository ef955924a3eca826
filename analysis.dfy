/**
 * The popup's analysis run: the game's SAN moves are replayed one by one; before each move
 * the engine's candidate lines give the position's score, the played move is scored, the
 * loss is graded, and a record is pushed for the whole game and for the side that moved.
 * The run stops at the first move the rules library refuses. Each side is then summed up.
 *
 * The chess rules library and the engine are oracles: `Oracles` bundles them as functions.
 */
module Analysis {
  import opened Wrappers
  import opened EngineLines
  import opened Scoring
  import TagPairs
  import opened PgnTokens
  import opened Text

  datatype Color = White | Black

  /**
   * The outside world the loop consults, over positions of type `Pos`:
   * `newGame` is `new Chess(startFen)`, `turn` is `base.turn()`, `play` is
   * `preview.move(san, { sloppy: true })` (no position when the move is illegal),
   * `candidates` is the sorted MultiPV answer for a position and `evalMove` the engine's
   * line after a move, if it gave one.
   */
  datatype Oracles<!Pos> = Oracles(
    newGame: Option<string> -> Pos,
    turn: Pos -> Color,
    play: (Pos, string) -> Option<Pos>,
    candidates: Pos -> seq<Info>,
    evalMove: (Pos, string) -> Option<Info>)

  /** One element of `perMove`. */
  datatype Entry = Entry(
    ply: nat, color: Color, san: string, preCp: int, postCp: int, cpLoss: int, tag: Tag,
    pvLines: map<nat, Info>)

  // ---------------------------------------------------------------- the candidate lines

  /** `pvMap[line.multipv] = line` for each line in order: a later line of a rank wins. */
  function PvMap(lines: seq<Info>): (m: map<nat, Info>)
    ensures forall n | n in m :: m[n].multipv == n
    decreases |lines|
  {
    if lines == [] then map[]
    else
      var last := lines[|lines| - 1];
      PvMap(lines[..|lines| - 1])[last.multipv := last]
  }

  /** The loop filling `pvMap`. */
  method CollectPvLines(lines: seq<Info>) returns (m: map<nat, Info>)
    ensures m == PvMap(lines)
  {
    m := map[];
    var i := 0;
    while i < |lines|
      invariant i <= |lines|
      invariant m == PvMap(lines[..i])
    {
      assert lines[..i + 1][..i] == lines[..i];
      m := m[lines[i].multipv := lines[i]];
      i := i + 1;
    }
    assert lines[..i] == lines;
  }

  /** Every rank of the candidate lines has an entry, and nothing else does. */
  lemma {:induction false} PvMapKeys(lines: seq<Info>)
    ensures forall n :: n in PvMap(lines) <==> exists k | 0 <= k < |lines| :: lines[k].multipv == n
    decreases |lines|
  {
    if lines != [] {
      var init := lines[..|lines| - 1];
      PvMapKeys(init);
      forall n | n in PvMap(lines) ensures exists k | 0 <= k < |lines| :: lines[k].multipv == n {
        if n != lines[|lines| - 1].multipv {
          assert n in PvMap(init);
          var k :| 0 <= k < |init| && init[k].multipv == n;
          assert lines[k] == init[k];
        }
      }
      forall n | exists k | 0 <= k < |lines| :: lines[k].multipv == n ensures n in PvMap(lines) {
        var k :| 0 <= k < |lines| && lines[k].multipv == n;
        if k < |init| { assert init[k] == lines[k]; }
      }
    }
  }

  // ---------------------------------------------------------------- one ply

  /** The loss as the loop stores it: `preCp - playedCp`, held within [0, LossCap]. */
  function Loss(preCp: int, playedCp: int): (loss: int)
    ensures 0 <= loss <= LossCap
    ensures 0 <= preCp - playedCp <= LossCap ==> loss == preCp - playedCp
    ensures preCp <= playedCp ==> loss == 0
    ensures preCp - playedCp > LossCap ==> loss == LossCap
    ensures loss == Clamp(preCp - playedCp, 0, LossCap)
  {
    var d := preCp - playedCp;
    if d < 0 then 0 else if d > LossCap then LossCap else d
  }

  /** The score before the move: the first candidate line, or 0 when the engine gave none. */
  function PreCp(preArr: seq<Info>): int {
    InfoToCp(if preArr == [] then None else Some(preArr[0]))
  }

  /** One turn of the loop at `pos`: the record and the position after the move, or `break`. */
  function Step<Pos>(o: Oracles<Pos>, pos: Pos, san: string, ply: nat): (r: Option<(Entry, Pos)>)
    ensures r.Some? ==> var e := r.value.0;
      && e.ply == ply && e.san == san && e.color == o.turn(pos)
      && 0 <= e.cpLoss <= LossCap && -MaxCp <= e.preCp <= MaxCp
      && (o.evalMove(pos, san).None? ==> e.postCp == e.preCp && e.cpLoss == 0)
    ensures r.None? <==> o.play(pos, san).None?
  {
    var preArr := o.candidates(pos);
    var preCp := PreCp(preArr);
    match o.play(pos, san)
    case None => None
    case Some(next) =>
      var playedInfo := o.evalMove(pos, san);
      var playedCp := if playedInfo.Some? then InfoToCp(playedInfo) else preCp;
      var cpLoss := Loss(preCp, playedCp);
      var tag := CategorizeMove(ply, preCp, playedCp, preArr, cpLoss);
      Some((Entry(ply, o.turn(pos), san, preCp, playedCp, cpLoss, tag, PvMap(preArr)), next))
  }

  /** The records the loop pushes from `pos` on, numbering plies from `ply`. */
  function Records<Pos>(o: Oracles<Pos>, pos: Pos, sans: seq<string>, ply: nat): (es: seq<Entry>)
    ensures |es| <= |sans|
    decreases |sans|
  {
    if sans == [] then []
    else match Step(o, pos, sans[0], ply)
      case None => []
      case Some((e, next)) => [e] + Records(o, next, sans[1..], ply + 1)
  }

  /**
   * The loop numbers its records from `ply` without gaps, one per SAN token in order, and
   * every stored loss lies in [0, LossCap].
   */
  lemma {:induction false} RecordsShape<Pos>(o: Oracles<Pos>, pos: Pos, sans: seq<string>, ply: nat)
    ensures var es := Records(o, pos, sans, ply);
      forall k | 0 <= k < |es| :: es[k].ply == ply + k && es[k].san == sans[k] && 0 <= es[k].cpLoss <= LossCap
    decreases |sans|
  {
    if sans != [] && Step(o, pos, sans[0], ply).Some? {
      RecordsShape(o, Step(o, pos, sans[0], ply).value.1, sans[1..], ply + 1);
    }
  }

  /** The rules library hands the move to the other side after every legal move. */
  ghost predicate Alternates<Pos(!new)>(o: Oracles<Pos>) {
    forall p, san, q | o.play(p, san) == Some(q) :: o.turn(q) != o.turn(p)
  }

  /** With such a library the records alternate between the two sides, starting with the side to move. */
  lemma {:induction false} RecordsAlternate<Pos(!new)>(o: Oracles<Pos>, pos: Pos, sans: seq<string>, ply: nat)
    requires Alternates(o)
    ensures Records(o, pos, sans, ply) != [] ==> Records(o, pos, sans, ply)[0].color == o.turn(pos)
    ensures forall k | 0 <= k < |Records(o, pos, sans, ply)| - 1 ::
      Records(o, pos, sans, ply)[k + 1].color != Records(o, pos, sans, ply)[k].color
    decreases |sans|
  {
    if sans != [] && Step(o, pos, sans[0], ply).Some? {
      var next := Step(o, pos, sans[0], ply).value.1;
      RecordsAlternate(o, next, sans[1..], ply + 1);
      assert o.play(pos, sans[0]) == Some(next);
    }
  }

  lemma StepIs<Pos>(o: Oracles<Pos>, pos: Pos, san: string, ply: nat, next: Pos, playedCp: int, entry: Entry)
    requires o.play(pos, san) == Some(next)
    requires var preCp := PreCp(o.candidates(pos));
      && playedCp == (if o.evalMove(pos, san).Some? then InfoToCp(o.evalMove(pos, san)) else preCp)
      && entry == Entry(ply, o.turn(pos), san, preCp, playedCp, Loss(preCp, playedCp),
                        CategorizeMove(ply, preCp, playedCp, o.candidates(pos), Loss(preCp, playedCp)),
                        PvMap(o.candidates(pos)))
    ensures Step(o, pos, san, ply) == Some((entry, next))
  {
  }

  lemma RecordsStep<Pos>(o: Oracles<Pos>, pos: Pos, sans: seq<string>, ply: nat, e: Entry, next: Pos)
    requires sans != [] && Step(o, pos, sans[0], ply) == Some((e, next))
    ensures Records(o, pos, sans, ply) == [e] + Records(o, next, sans[1..], ply + 1)
  {
  }

  /** One more turn of the loop keeps `perMove` followed by the records still to come the same. */
  lemma RecordsAdvance<Pos>(o: Oracles<Pos>, pos: Pos, rest: seq<string>, ply: nat, done: seq<Entry>,
                            all: seq<Entry>, e: Entry, next: Pos)
    requires rest != [] && Step(o, pos, rest[0], ply) == Some((e, next))
    requires done + Records(o, pos, rest, ply) == all
    ensures (done + [e]) + Records(o, next, rest[1..], ply + 1) == all
  {
    RecordsStep(o, pos, rest, ply, e, next);
    assert (done + [e]) + Records(o, next, rest[1..], ply + 1) == done + ([e] + Records(o, next, rest[1..], ply + 1));
  }

  lemma RecordsStop<Pos>(o: Oracles<Pos>, pos: Pos, sans: seq<string>, ply: nat)
    requires sans != [] && o.play(pos, sans[0]).None?
    ensures Records(o, pos, sans, ply) == []
  {
  }

  /** The records of one side, in order. */
  function OfColor(es: seq<Entry>, c: Color): (r: seq<Entry>)
    ensures forall e | e in r :: e in es && e.color == c
  {
    if es == [] then []
    else (if es[0].color == c then [es[0]] else []) + OfColor(es[1..], c)
  }

  /** The two sides' lists split `perMove`: every record lands in exactly one of them. */
  lemma {:induction false} OfColorPartition(es: seq<Entry>)
    ensures |OfColor(es, White)| + |OfColor(es, Black)| == |es|
    ensures forall e | e in es :: e in OfColor(es, e.color)
  {
    if es != [] {
      OfColorPartition(es[1..]);
    }
  }

  lemma {:induction false} OfColorAppend(es: seq<Entry>, e: Entry, c: Color)
    ensures OfColor(es + [e], c) == OfColor(es, c) + (if e.color == c then [e] else [])
    decreases |es|
  {
    if es == [] {
      assert es + [e] == [e];
    } else {
      assert (es + [e])[1..] == es[1..] + [e];
      OfColorAppend(es[1..], e, c);
    }
  }

  /**
   * The records the loop pushes never carry `miss`: `preTop[0]` is the line `preCp` came
   * from, so the best line gains nothing over the position.
   */
  lemma {:induction false} RecordsNeverMiss<Pos>(o: Oracles<Pos>, pos: Pos, sans: seq<string>, ply: nat)
    ensures forall e | e in Records(o, pos, sans, ply) :: e.tag != Miss
    decreases |sans|
  {
    if sans != [] && Step(o, pos, sans[0], ply).Some? {
      var preArr := o.candidates(pos);
      var playedInfo := o.evalMove(pos, sans[0]);
      var preCp := PreCp(preArr);
      var playedCp := if playedInfo.Some? then InfoToCp(playedInfo) else preCp;
      if preArr != [] {
        MissUnreachableInAnalysis(ply, playedCp, preArr);
      }
      RecordsNeverMiss(o, Step(o, pos, sans[0], ply).value.1, sans[1..], ply + 1);
    }
  }

  // ---------------------------------------------------------------- the summaries

  /** `counts` of one side: how many of its records carry each of the nine tags. */
  datatype Counts = Counts(
    best: nat, excellent: nat, great: nat, good: nat, book: nat, miss: nat,
    inaccuracy: nat, mistake: nat, blunder: nat)

  datatype SideSummary = SideSummary(moves: nat, acpl: int, accuracy: int, counts: Counts)

  function CountTag(es: seq<Entry>, t: Tag): (n: nat)
    ensures n <= |es|
  {
    if es == [] then 0 else (if es[0].tag == t then 1 else 0) + CountTag(es[1..], t)
  }

  function SumLoss(es: seq<Entry>): int {
    if es == [] then 0 else es[0].cpLoss + SumLoss(es[1..])
  }

  function TotalCount(c: Counts): nat {
    c.best + c.excellent + c.great + c.good + c.book + c.miss + c.inaccuracy + c.mistake + c.blunder
  }

  /** The nine counts of a list of records add up to its length. */
  lemma {:induction false} CountsCoverAll(es: seq<Entry>)
    ensures CountTag(es, Tag.Best) + CountTag(es, Tag.Excellent) + CountTag(es, Great)
          + CountTag(es, Tag.Good) + CountTag(es, Book) + CountTag(es, Miss)
          + CountTag(es, Tag.Inaccuracy) + CountTag(es, Tag.Mistake) + CountTag(es, Tag.Blunder)
         == |es|
  {
    if es != [] {
      CountsCoverAll(es[1..]);
    }
  }

  /** A stored loss lies in [0, LossCap], so a side's total lies in [0, LossCap * moves]. */
  lemma {:induction false} SumLossBounds(es: seq<Entry>)
    requires forall k | 0 <= k < |es| :: 0 <= es[k].cpLoss <= LossCap
    ensures 0 <= SumLoss(es) <= LossCap * |es|
  {
    if es != [] {
      SumLossBounds(es[1..]);
    }
  }

  /** `by(color)` over that side's records. */
  function BySide(es: seq<Entry>): (s: SideSummary)
    ensures s.moves == |es| && TotalCount(s.counts) == |es|
    ensures 0 <= s.accuracy <= 100
    ensures es == [] ==> s.acpl == 0 && s.accuracy == 100
  {
    var moves := |es|;
    var acpl: real := if moves > 0 then SumLoss(es) as real / moves as real else 0.0;
    CountsCoverAll(es);
    SideSummary(moves, Round(acpl), AcplToAccuracy(acpl),
      Counts(CountTag(es, Tag.Best), CountTag(es, Tag.Excellent), CountTag(es, Great),
             CountTag(es, Tag.Good), CountTag(es, Book), CountTag(es, Miss),
             CountTag(es, Tag.Inaccuracy), CountTag(es, Tag.Mistake), CountTag(es, Tag.Blunder)))
  }

  /** A side's rounded average loss lies in [0, LossCap] when its records' losses do. */
  lemma AcplBounds(es: seq<Entry>)
    requires forall k | 0 <= k < |es| :: 0 <= es[k].cpLoss <= LossCap
    ensures 0 <= BySide(es).acpl <= LossCap
  {
    SumLossBounds(es);
    if es != [] {
      var m := |es| as real;
      var a := SumLoss(es) as real / m;
      assert 0.0 <= a <= LossCap as real by {
        assert SumLoss(es) as real <= LossCap as real * m;
      }
    }
  }

  // ---------------------------------------------------------------- the run

  /** `headers.SetUp === "1" && headers.FEN ? headers.FEN : undefined`. */
  function StartFen(headers: map<string, string>): (r: Option<string>)
    ensures r.Some? <==> ("SetUp" in headers && headers["SetUp"] == "1" && "FEN" in headers && headers["FEN"] != [])
    ensures r.Some? ==> r.value == headers["FEN"]
  {
    if "SetUp" in headers && headers["SetUp"] == "1" && "FEN" in headers && headers["FEN"] != []
    then Some(headers["FEN"]) else None
  }

  datatype Summary = Summary(
    headers: map<string, string>, white: SideSummary, black: SideSummary,
    perMove: seq<Entry>, startFen: Option<string>)

  const NoMoves: string := "Invalid PGN (no moves). Paste PGN from Share -> PGN or open View Game."

  /**
   * The body of the loop for one SAN token: the position's candidate lines and score, the
   * move tried on a copy of the position, the played move's score, the loss held within
   * [0, LossCap], the tag and the candidate-line map. `None` is the loop's `break`.
   */
  method PlayOne<Pos>(o: Oracles<Pos>, base: Pos, san: string, ply: nat) returns (step: Option<(Entry, Pos)>)
    ensures step == Step(o, base, san, ply)
  {
    var stm := o.turn(base);
    var preArr := o.candidates(base);
    var preCp := PreCp(preArr);
    var moveObj := o.play(base, san);
    if moveObj.None? {
      return None;
    }
    var playedInfo := o.evalMove(base, san);
    var playedCp := if playedInfo.Some? then InfoToCp(playedInfo) else preCp;
    var cpLoss := preCp - playedCp;
    if cpLoss < 0 {
      cpLoss := 0;
    }
    if cpLoss > LossCap {
      cpLoss := LossCap;
    }
    assert cpLoss == Loss(preCp, playedCp);
    var tag := CategorizeMove(ply, preCp, playedCp, preArr, cpLoss);
    var pvLines := CollectPvLines(preArr);
    var entry := Entry(ply, stm, san, preCp, playedCp, cpLoss, tag, pvLines);
    StepIs(o, base, san, ply, moveObj.value, playedCp, entry);
    step := Some((entry, moveObj.value));
  }

  /**
   * The loop of `runAnalysis` from the start position: each record is pushed onto `perMove`
   * and onto the list of the side that moved, until the tokens run out or a move is refused.
   */
  method Replay<Pos>(o: Oracles<Pos>, start: Pos, sanTokens: seq<string>)
    returns (perMove: seq<Entry>, white: seq<Entry>, black: seq<Entry>)
    ensures perMove == Records(o, start, sanTokens, 1)
    ensures white == OfColor(perMove, White) && black == OfColor(perMove, Black)
  {
    var base := start;
    perMove := [];
    white := [];
    black := [];
    var i := 0;
    assert sanTokens[0..] == sanTokens;
    while i < |sanTokens|
      invariant i <= |sanTokens|
      invariant perMove + Records(o, base, sanTokens[i..], i + 1) == Records(o, start, sanTokens, 1)
      invariant white == OfColor(perMove, White) && black == OfColor(perMove, Black)
    {
      var step := PlayOne(o, base, sanTokens[i], i + 1);
      assert sanTokens[i..][0] == sanTokens[i];
      if step.None? {
        RecordsStop(o, base, sanTokens[i..], i + 1);
        break;
      }
      var (entry, next) := step.value;
      assert sanTokens[i..][1..] == sanTokens[i + 1..];
      RecordsAdvance(o, base, sanTokens[i..], i + 1, perMove, Records(o, start, sanTokens, 1), entry, next);
      OfColorAppend(perMove, entry, White);
      OfColorAppend(perMove, entry, Black);
      perMove := perMove + [entry];
      if entry.color == White {
        white := white + [entry];
      } else {
        black := black + [entry];
      }
      base := next;
      i := i + 1;
    }
    if i == |sanTokens| {
      assert sanTokens[i..] == [];
    }
  }

  /** `runAnalysis(pgn, opts)`: the headers, the SAN tokens, the loop and the two summaries. */
  method RunAnalysis<Pos>(pgn: string, o: Oracles<Pos>) returns (r: Result<Summary, string>)
    ensures var sans := SanTokens(pgn);
      && (sans == [] <==> r.Failure?)
      && (r.Failure? ==> r.error == NoMoves)
      && (r.Success? ==>
        var startFen := StartFen(TagPairs.Parse(pgn));
        var perMove := Records(o, o.newGame(startFen), sans, 1);
        r.value == Summary(TagPairs.Parse(pgn), BySide(OfColor(perMove, White)), BySide(OfColor(perMove, Black)),
                           perMove, startFen))
  {
    var headers := TagPairs.CollectTags(pgn);
    var startFen := StartFen(headers);
    var sanTokens := ExtractSanTokens(pgn);
    if |sanTokens| == 0 {
      return Failure(NoMoves);
    }
    var perMove, white, black := Replay(o, o.newGame(startFen), sanTokens);
    r := Success(Summary(headers, BySide(white), BySide(black), perMove, startFen));
  }
}
