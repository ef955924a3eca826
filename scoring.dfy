/**
 * How the popup scores a move: an engine line collapsed to centipawns, the centipawn loss
 * graded on a threshold ladder, an average loss turned into an accuracy percentage, and the
 * nine tags a move can receive.
 */
module Scoring {
  import opened Wrappers
  import opened EngineLines

  const MaxCp: int := 1000
  const MateCp: int := 1000
  const LossCap: int := 1000

  function Abs(x: int): (r: int)
    ensures r >= 0 && (r == x || r == -x)
  {
    if x < 0 then -x else x
  }

  /** `Math.max(lo, Math.min(hi, n))`. */
  function Clamp(n: int, lo: int, hi: int): (r: int)
    ensures lo <= hi ==> lo <= r <= hi
    ensures lo <= n <= hi ==> r == n
    ensures n < lo ==> r == lo
    ensures lo <= hi < n ==> r == hi
  {
    var m := if hi < n then hi else n;
    if lo > m then lo else m
  }

  /** `infoToCp(info)`: a missing line is 0, centipawns saturate at ±1000, a mate is ±1000. */
  function InfoToCp(info: Option<Info>): (cp: int)
    ensures -MaxCp <= cp <= MaxCp
    ensures info.None? ==> cp == 0
    ensures info.Some? && info.value.kind == Cp ==>
      (-MaxCp <= info.value.value <= MaxCp ==> cp == info.value.value)
      && (info.value.value > MaxCp ==> cp == MaxCp)
      && (info.value.value < -MaxCp ==> cp == -MaxCp)
    ensures info.Some? && info.value.kind == Mate ==> (cp == MateCp <==> info.value.value > 0)
    ensures info.Some? && info.value.kind == Mate ==> (cp == -MateCp <==> info.value.value <= 0)
  {
    match info
    case None => 0
    case Some(i) =>
      if i.kind == Cp then Clamp(i.value, -MaxCp, MaxCp)
      else
        var sign := if i.value > 0 then 1 else -1;
        sign * MateCp
  }

  /** A larger centipawn score never reads as a smaller one. */
  lemma InfoToCpMonotone(a: Info, b: Info)
    requires a.kind == Cp && b.kind == Cp && a.value <= b.value
    ensures InfoToCp(Some(a)) <= InfoToCp(Some(b))
  {
  }

  /** `Math.round(x)`: the nearest integer, halves going up. */
  function Round(x: real): (r: int)
    ensures x - 0.5 < r as real <= x + 0.5
  {
    (x + 0.5).Floor
  }

  /** `acplToAccuracy(acpl)`: `100 - 0.22 * acpl`, rounded and held within [0, 100]. */
  function AcplToAccuracy(acpl: real): (r: int)
    ensures 0 <= r <= 100
    ensures r == 100 <==> acpl <= 50.0 / 22.0
    ensures r == 0 <==> acpl > 9950.0 / 22.0
  {
    Clamp(Round(100.0 - 0.22 * acpl), 0, 100)
  }

  /** A perfect game is 100% accurate. */
  lemma AccuracyOfNoLoss()
    ensures AcplToAccuracy(0.0) == 100
  {
  }

  /** More average loss never raises the accuracy. */
  lemma AccuracyMonotone(a: real, b: real)
    requires a <= b
    ensures AcplToAccuracy(b) <= AcplToAccuracy(a)
  {
    var x := 100.0 - 0.22 * b + 0.5;
    var y := 100.0 - 0.22 * a + 0.5;
    assert x <= y;
    assert x.Floor as real <= x < x.Floor as real + 1.0;
    assert y.Floor as real <= y;
  }

  datatype Tag = Great | Book | Miss | Best | Excellent | Good | Inaccuracy | Mistake | Blunder

  /** The tags the ladder hands out. */
  predicate IsLadderTag(t: Tag) {
    !(t == Great || t == Book || t == Miss)
  }

  /** `classifyLoss(cpLoss)`: the threshold ladder, tested from the worst grade down. */
  function ClassifyLoss(cpLoss: int): (c: Tag)
    ensures IsLadderTag(c)
    ensures c == Blunder <==> cpLoss >= 300
    ensures c == Mistake <==> 150 <= cpLoss < 300
    ensures c == Inaccuracy <==> 75 <= cpLoss < 150
    ensures c == Best <==> cpLoss <= 10
    ensures c == Excellent <==> 10 < cpLoss <= 30
    ensures c == Good <==> 30 < cpLoss < 75
  {
    if cpLoss >= 300 then Blunder
    else if cpLoss >= 150 then Mistake
    else if cpLoss >= 75 then Inaccuracy
    else if cpLoss <= 10 then Best
    else if cpLoss <= 30 then Excellent
    else Good
  }

  /** How bad a grade of the ladder is, from best to blunder. */
  function Severity(c: Tag): nat
    requires IsLadderTag(c)
  {
    match c
    case Best => 0
    case Excellent => 1
    case Good => 2
    case Inaccuracy => 3
    case Mistake => 4
    case Blunder => 5
  }

  /** A larger loss never gets a better grade. */
  lemma ClassifyMonotone(x: int, y: int)
    requires x <= y
    ensures Severity(ClassifyLoss(x)) <= Severity(ClassifyLoss(y))
  {
  }

  /**
   * `isBook(ply, preCp, playedCp)`: an opening move in a level position, so one that loses
   * at most 60 centipawns.
   */
  function IsBook(ply: int, preCp: int, playedCp: int): (b: bool)
    ensures b ==> -60 <= preCp - playedCp <= 60
  {
    ply <= 10 && Abs(preCp) <= 30 && Abs(playedCp) <= 30
  }

  /** The `great` test: a loss of at most 20, a clear best line, and a played move as good as it. */
  predicate GreatCase(preTop: seq<Info>, playedCp: int, loss: int) {
    |preTop| >= 2
    && var bestEval := InfoToCp(Some(preTop[0]));
    && var secondEval := InfoToCp(Some(preTop[1]));
    loss <= 20 && bestEval - secondEval >= 120 && Abs(playedCp - bestEval) <= 20
  }

  /** The `miss` flag: a small loss, yet a best line that gained 150 more than the played move. */
  predicate MissCase(preTop: seq<Info>, preCp: int, playedCp: int, loss: int) {
    |preTop| >= 2
    && var bestGain := InfoToCp(Some(preTop[0])) - preCp;
    && var yourGain := playedCp - preCp;
    loss <= 35 && bestGain - yourGain >= 150
  }

  /**
   * `categorizeMove({ply, preCp, playedCp, preTop, cpLoss})`: `great` is tested first, then
   * `book`, then `miss`, then the ladder on the loss held within [0, 1000].
   */
  function CategorizeMove(ply: int, preCp: int, playedCp: int, preTop: seq<Info>, cpLoss: int): (tag: Tag)
    ensures (tag == Great || tag == Miss) ==> |preTop| >= 2
    ensures tag == Great ==> Clamp(cpLoss, 0, LossCap) <= 20
    ensures tag == Book ==> ply <= 10 && -30 <= preCp <= 30 && -30 <= playedCp <= 30
    ensures tag == Miss ==> Clamp(cpLoss, 0, LossCap) <= 35 && !IsBook(ply, preCp, playedCp)
    ensures IsLadderTag(tag) ==> tag == ClassifyLoss(Clamp(cpLoss, 0, LossCap))
    ensures tag == Great <==> GreatCase(preTop, playedCp, Clamp(cpLoss, 0, LossCap))
    ensures tag == Book <==> !GreatCase(preTop, playedCp, Clamp(cpLoss, 0, LossCap)) && IsBook(ply, preCp, playedCp)
    ensures tag == Miss <==>
      && !GreatCase(preTop, playedCp, Clamp(cpLoss, 0, LossCap)) && !IsBook(ply, preCp, playedCp)
      && MissCase(preTop, preCp, playedCp, Clamp(cpLoss, 0, LossCap))
    ensures IsLadderTag(tag) <==>
      && !GreatCase(preTop, playedCp, Clamp(cpLoss, 0, LossCap)) && !IsBook(ply, preCp, playedCp)
      && !MissCase(preTop, preCp, playedCp, Clamp(cpLoss, 0, LossCap))
  {
    var loss := Clamp(cpLoss, 0, LossCap);
    if GreatCase(preTop, playedCp, loss) then Great
    else if IsBook(ply, preCp, playedCp) then Book
    else if MissCase(preTop, preCp, playedCp, loss) then Miss
    else ClassifyLoss(loss)
  }

  /** `great` wins over every other tag, `book` over `miss`, and `miss` over the ladder. */
  lemma CategorizePrecedence(ply: int, preCp: int, playedCp: int, preTop: seq<Info>, cpLoss: int)
    ensures var loss := Clamp(cpLoss, 0, LossCap);
      var tag := CategorizeMove(ply, preCp, playedCp, preTop, cpLoss);
      && (GreatCase(preTop, playedCp, loss) ==> tag == Great)
      && (!GreatCase(preTop, playedCp, loss) && IsBook(ply, preCp, playedCp) ==> tag == Book)
      && ((!GreatCase(preTop, playedCp, loss) && !IsBook(ply, preCp, playedCp)
           && MissCase(preTop, preCp, playedCp, loss)) ==> tag == Miss)
  {
  }

  /** The loss only counts through its clamp: a loss past either end grades like the end. */
  lemma CategorizeUsesClampedLoss(ply: int, preCp: int, playedCp: int, preTop: seq<Info>, cpLoss: int)
    ensures CategorizeMove(ply, preCp, playedCp, preTop, cpLoss)
         == CategorizeMove(ply, preCp, playedCp, preTop, Clamp(cpLoss, 0, LossCap))
  {
  }

  /**
   * On the analysis path `preTop[0]` is the line `preCp` was read from, and `cpLoss` is
   * `preCp - playedCp` held within [0, 1000]: the best line gains nothing, so a 150-point
   * gap forces a loss of at least 150, and `miss` is never handed out.
   */
  lemma MissUnreachableInAnalysis(ply: int, playedCp: int, preTop: seq<Info>)
    requires preTop != []
    ensures var preCp := InfoToCp(Some(preTop[0]));
      CategorizeMove(ply, preCp, playedCp, preTop, Clamp(preCp - playedCp, 0, LossCap)) != Miss
  {
  }
}
