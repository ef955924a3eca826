/**
 * The popup's board view: a cursor over the analysed game. The cursor remembers the records
 * of the game, the start position, the ply on show, whether the board is flipped and which
 * candidate line (by MultiPV rank) is displayed. Every navigation goes through `GotoPly`,
 * which clamps the ply and replays the game up to it.
 */
module Board {
  import opened Wrappers
  import opened EngineLines
  import opened Scoring
  import opened Analysis
  import TagPairs
  import PgnTokens
  import Text

  /** What the board keeps of one record: its ply, its SAN and its candidate lines by rank. */
  datatype Node = Node(ply: nat, san: string, pvLines: map<nat, Info>)

  function NodesOf(es: seq<Entry>): (ns: seq<Node>)
    ensures |ns| == |es|
    ensures forall k | 0 <= k < |es| :: ns[k] == Node(es[k].ply, es[k].san, es[k].pvLines)
  {
    if es == [] then [] else [Node(es[0].ply, es[0].san, es[0].pvLines)] + NodesOf(es[1..])
  }

  /** The nodes the board builds from bare SAN tokens: plies from 1 and no candidate lines. */
  function BareNodes(sans: seq<string>, ply: nat): (ns: seq<Node>)
    ensures |ns| == |sans|
    ensures forall k | 0 <= k < |sans| :: ns[k] == Node(ply + k, sans[k], map[])
  {
    if sans == [] then [] else [Node(ply, sans[0], map[])] + BareNodes(sans[1..], ply + 1)
  }

  /** `base.move(san, { sloppy: true })` on the board: a refused move leaves the position as it was. */
  function Advance<Pos>(o: Oracles<Pos>, p: Pos, san: string): Pos {
    match o.play(p, san)
    case None => p
    case Some(q) => q
  }

  /** The position after the first `k` moves of `nodes` are played from `p`. */
  function PositionAt<Pos>(o: Oracles<Pos>, p: Pos, nodes: seq<Node>, k: nat): Pos
    requires k <= |nodes|
  {
    if k == 0 then p else PositionAt(o, Advance(o, p, nodes[0].san), nodes[1..], k - 1)
  }

  /** Playing one more move from the position after `k` moves gives the position after `k + 1`. */
  lemma {:induction false} PositionAtNext<Pos>(o: Oracles<Pos>, p: Pos, nodes: seq<Node>, k: nat)
    requires k < |nodes|
    ensures PositionAt(o, p, nodes, k + 1) == Advance(o, PositionAt(o, p, nodes, k), nodes[k].san)
    decreases k
  {
    if k > 0 {
      PositionAtNext(o, Advance(o, p, nodes[0].san), nodes[1..], k - 1);
    }
  }

  /**
   * The board agrees with the analysis: replaying the records of a run up to ply `k` reaches
   * a position whose side to move is the side of record `k + 1`.
   */
  lemma {:induction false} BoardMatchesRecords<Pos>(o: Oracles<Pos>, pos: Pos, sans: seq<string>, ply: nat)
    ensures var es := Records(o, pos, sans, ply);
      forall k | 0 <= k < |es| :: es[k].color == o.turn(PositionAt(o, pos, NodesOf(es), k))
    decreases |sans|
  {
    if sans != [] && Step(o, pos, sans[0], ply).Some? {
      var (e, next) := Step(o, pos, sans[0], ply).value;
      var rest := Records(o, next, sans[1..], ply + 1);
      var es := Records(o, pos, sans, ply);
      RecordsStep(o, pos, sans, ply, e, next);
      assert NodesOf(es)[1..] == NodesOf(rest);
      assert Advance(o, pos, NodesOf(es)[0].san) == next;
      BoardMatchesRecords(o, next, sans[1..], ply + 1);
      forall k | 0 <= k < |es|
        ensures es[k].color == o.turn(PositionAt(o, pos, NodesOf(es), k))
      {
        if k > 0 {
          assert es[k] == rest[k - 1];
          assert PositionAt(o, pos, NodesOf(es), k) == PositionAt(o, next, NodesOf(rest), k - 1);
        }
      }
    }
  }

  /** `x`/`y` of the top-left corner of a square's cell, in pixels. */
  const Sq: int := 65

  /**
   * `sqToXY(sq)` with `flipped`: the file is the index of `sq[0]` in "abcdefgh" (-1 when absent)
   * and the rank `parseInt(sq[1]) - 1`; `None` is the `NaN` of a second character that is not
   * a digit or is missing.
   */
  function SqToXY(sq: string, flipped: bool): (xy: Option<(int, int)>)
    ensures xy.Some? <==> |sq| >= 2 && Text.IsDigit(sq[1])
  {
    if |sq| < 2 || !Text.IsDigit(sq[1]) then None
    else
      var file := Text.IndexOf("abcdefgh", [sq[0]], 0);
      var f := if file < 8 then file as int else -1;
      var rank := (sq[1] - '0') as int - 1;
      var fx := if flipped then 7 - f else f;
      var fy := if flipped then rank else 7 - rank;
      Some((fx * Sq, fy * Sq))
  }

  predicate IsSquare(sq: string) {
    |sq| == 2 && 'a' <= sq[0] <= 'h' && '1' <= sq[1] <= '8'
  }

  /** On a real square the cell lies on the 8 x 8 grid of the 520-pixel canvas. */
  lemma SqToXYOnGrid(sq: string, flipped: bool)
    requires IsSquare(sq)
    ensures SqToXY(sq, flipped).Some?
    ensures var (x, y) := SqToXY(sq, flipped).value;
      0 <= x <= 7 * Sq && 0 <= y <= 7 * Sq && x % Sq == 0 && y % Sq == 0
  {
    FileIndex(sq[0]);
  }

  lemma FileIndex(c: char)
    requires 'a' <= c <= 'h'
    ensures Text.IndexOf("abcdefgh", [c], 0) == (c - 'a') as nat
  {
    var files := "abcdefgh";
    var i := (c - 'a') as nat;
    assert Text.OccursAt(files, [c], i) by {
      assert files[i..i + 1] == [files[i]];
    }
    var r := Text.IndexOf(files, [c], 0);
    assert r <= i;
    assert files[r..r + 1] == [files[r]];
  }

  /** Flipping the board turns every cell half a turn about the centre of the canvas. */
  lemma SqToXYFlip(sq: string)
    requires IsSquare(sq)
    ensures var (x, y) := SqToXY(sq, false).value;
      SqToXY(sq, true) == Some((7 * Sq - x, 7 * Sq - y))
  {
    FileIndex(sq[0]);
  }

  /** Two squares never share a cell: the square on show is the square named. */
  lemma SqToXYInjective(a: string, b: string, flipped: bool)
    requires IsSquare(a) && IsSquare(b) && a != b
    ensures SqToXY(a, flipped) != SqToXY(b, flipped)
  {
    FileIndex(a[0]);
    FileIndex(b[0]);
    assert a[0] != b[0] || a[1] != b[1];
  }

  /**
   * The board's module-level state: `boardPerMove`, `boardStartFen`, `currentPly`, `flipped`
   * and `selectedPV`.
   */
  class Cursor {
    var perMove: seq<Node>
    var startFen: Option<string>
    var currentPly: int
    var flipped: bool
    var selectedPV: int

    /** The cursor points at a ply of the game, from the start position to the last move. */
    ghost predicate Valid()
      reads this
    {
      0 <= currentPly <= |perMove|
    }

    /** The state before any board is built. */
    constructor ()
      ensures perMove == [] && startFen == None && currentPly == 0 && !flipped && selectedPV == 1
      ensures Valid()
    {
      perMove := [];
      startFen := None;
      currentPly := 0;
      flipped := false;
      selectedPV := 1;
    }

    /**
     * The candidate line on show: the line of rank `selectedPV` of the record of the last
     * move played, and nothing at the start position.
     */
    function Shown(): (line: Option<Info>)
      reads this
      requires Valid()
      ensures currentPly == 0 ==> line.None?
      ensures line.Some? ==>
        (0 <= selectedPV && selectedPV as nat in perMove[currentPly - 1].pvLines
         && line.value == perMove[currentPly - 1].pvLines[selectedPV as nat])
      ensures currentPly > 0 && 0 <= selectedPV && selectedPV as nat in perMove[currentPly - 1].pvLines ==> line.Some?
    {
      if currentPly == 0 || selectedPV < 0 then None
      else
        var node := perMove[currentPly - 1];
        if selectedPV as nat in node.pvLines then Some(node.pvLines[selectedPV as nat]) else None
    }

    /** The ply indicator, `${currentPly}/${boardPerMove.length}`. */
    function Indicator(): (text: string)
      reads this
      requires Valid()
      ensures exists a, b ::
        (text == a + "/" + b && Text.AllDigits(a) && Text.AllDigits(b)
         && Text.DigitsValue(a) == currentPly && Text.DigitsValue(b) == |perMove|)
    {
      Text.NatToDigits(currentPly) + "/" + Text.NatToDigits(|perMove|)
    }

    /**
     * `gotoPly(ply)`: the ply is clamped to [0, |perMove|] and the game is replayed from the
     * start position up to it; the position reached is returned.
     */
    method GotoPly<Pos>(ply: int, o: Oracles<Pos>) returns (base: Pos)
      modifies this
      ensures currentPly == Clamp(ply, 0, |perMove|) && Valid()
      ensures perMove == old(perMove) && startFen == old(startFen)
      ensures flipped == old(flipped) && selectedPV == old(selectedPV)
      ensures base == PositionAt(o, o.newGame(startFen), perMove, currentPly)
    {
      currentPly := Clamp(ply, 0, |perMove|);
      base := o.newGame(startFen);
      var i := 0;
      while i < currentPly
        invariant 0 <= i <= currentPly <= |perMove|
        invariant base == PositionAt(o, o.newGame(startFen), perMove, i)
        invariant currentPly == Clamp(ply, 0, |perMove|)
        invariant perMove == old(perMove) && startFen == old(startFen)
        invariant flipped == old(flipped) && selectedPV == old(selectedPV)
      {
        PositionAtNext(o, o.newGame(startFen), perMove, i);
        base := Advance(o, base, perMove[i].san);
        i := i + 1;
      }
    }

    /** `buildBoard(summary)`: new records and start position, unflipped, rank 1, at the start. */
    method BuildBoard<Pos>(nodes: seq<Node>, fen: Option<string>, o: Oracles<Pos>) returns (base: Pos)
      modifies this
      ensures perMove == nodes && startFen == fen
      ensures currentPly == 0 && !flipped && selectedPV == 1 && Valid()
      ensures Shown().None?
      ensures base == o.newGame(fen)
    {
      perMove := nodes;
      startFen := fen;
      flipped := false;
      selectedPV := 1;
      base := GotoPly(0, o);
    }

    /** The first-move button. */
    method First<Pos>(o: Oracles<Pos>) returns (base: Pos)
      modifies this
      ensures currentPly == 0 && Valid()
      ensures perMove == old(perMove) && startFen == old(startFen)
      ensures flipped == old(flipped) && selectedPV == old(selectedPV)
      ensures base == o.newGame(startFen)
    {
      base := GotoPly(0, o);
    }

    /** The previous-move button: one ply back, and nothing moves at the start position. */
    method Prev<Pos>(o: Oracles<Pos>) returns (base: Pos)
      requires Valid()
      modifies this
      ensures old(currentPly) == 0 ==> currentPly == 0
      ensures old(currentPly) > 0 ==> currentPly == old(currentPly) - 1
      ensures Valid() && perMove == old(perMove) && startFen == old(startFen)
      ensures flipped == old(flipped) && selectedPV == old(selectedPV)
      ensures base == PositionAt(o, o.newGame(startFen), perMove, currentPly)
    {
      base := GotoPly(currentPly - 1, o);
    }

    /** The next-move button: one ply on, and nothing moves at the last move. */
    method Next<Pos>(o: Oracles<Pos>) returns (base: Pos)
      requires Valid()
      modifies this
      ensures old(currentPly) == |perMove| ==> currentPly == old(currentPly)
      ensures old(currentPly) < |perMove| ==> currentPly == old(currentPly) + 1
      ensures Valid() && perMove == old(perMove) && startFen == old(startFen)
      ensures flipped == old(flipped) && selectedPV == old(selectedPV)
      ensures base == PositionAt(o, o.newGame(startFen), perMove, currentPly)
    {
      base := GotoPly(currentPly + 1, o);
    }

    /** The last-move button. */
    method Last<Pos>(o: Oracles<Pos>) returns (base: Pos)
      modifies this
      ensures currentPly == |perMove| && Valid()
      ensures perMove == old(perMove) && startFen == old(startFen)
      ensures flipped == old(flipped) && selectedPV == old(selectedPV)
      ensures base == PositionAt(o, o.newGame(startFen), perMove, |perMove|)
    {
      base := GotoPly(|perMove|, o);
    }

    /** The flip checkbox: only the orientation changes, the ply on show stays. */
    method SetFlipped<Pos>(checked: bool, o: Oracles<Pos>) returns (base: Pos)
      requires Valid()
      modifies this
      ensures flipped == checked
      ensures currentPly == old(currentPly) && Valid()
      ensures perMove == old(perMove) && startFen == old(startFen) && selectedPV == old(selectedPV)
      ensures base == PositionAt(o, o.newGame(startFen), perMove, currentPly)
    {
      flipped := checked;
      base := GotoPly(currentPly, o);
    }

    /**
     * A candidate-line button: `parseInt(b.dataset.pv, 10) || 1`, so a missing number (`NaN`)
     * or 0 selects rank 1. The ply on show stays.
     */
    method SelectPV<Pos>(parsed: Option<int>, o: Oracles<Pos>) returns (base: Pos)
      requires Valid()
      modifies this
      ensures selectedPV == (if parsed.Some? && parsed.value != 0 then parsed.value else 1)
      ensures currentPly == old(currentPly) && Valid()
      ensures perMove == old(perMove) && startFen == old(startFen) && flipped == old(flipped)
      ensures base == PositionAt(o, o.newGame(startFen), perMove, currentPly)
    {
      selectedPV := if parsed.Some? && parsed.value != 0 then parsed.value else 1;
      base := GotoPly(currentPly, o);
    }

    /**
     * The board button: the last analysis when there is one; otherwise the SAN tokens of the
     * trimmed PGN field as bare records, or the status message when there are none.
     */
    method OpenBoard<Pos>(lastSummary: Option<Summary>, pgnField: string, o: Oracles<Pos>)
      returns (r: Result<Pos, string>)
      modifies this
      ensures lastSummary.Some? ==>
        (r.Success? && perMove == NodesOf(lastSummary.value.perMove)
         && startFen == lastSummary.value.startFen)
      ensures lastSummary.None? ==>
        var pgn := Text.Trim(pgnField);
        var sans := PgnTokens.SanTokens(pgn);
        && (sans == [] <==> r.Failure?)
        && (r.Failure? ==> r.error == NoBoard && unchanged(this))
        && (r.Success? ==> perMove == BareNodes(sans, 1) && startFen == StartFen(TagPairs.Parse(pgn)))
      ensures r.Success? ==>
        (currentPly == 0 && !flipped && selectedPV == 1 && Valid()
         && r.value == o.newGame(startFen))
    {
      if lastSummary.None? {
        var pgn := Text.Trim(pgnField);
        var san := PgnTokens.ExtractSanTokens(pgn);
        if |san| == 0 {
          return Failure(NoBoard);
        }
        var headers := TagPairs.CollectTags(pgn);
        var base := BuildBoard(BareNodes(san, 1), StartFen(headers), o);
        r := Success(base);
      } else {
        var base := BuildBoard(NodesOf(lastSummary.value.perMove), lastSummary.value.startFen, o);
        r := Success(base);
      }
    }
  }

  const NoBoard: string := "Board view: analyze or paste a PGN first."
}
