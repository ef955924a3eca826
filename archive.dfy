/**
 * What the two archive servers share: the `/pgn` query check and the per-game reformatting of
 * chess.com's monthly archive — line-break normalisation, the split into header and movetext,
 * the header defaults and layout, the end-time suffix, the movetext clean-up and the wrap to
 * 80 columns. Only the `Link` normalisation differs between the servers; it lives in
 * `ExpressServer` and `EdgeServer`.
 */
module Archive {
  import opened Wrappers
  import opened Text
  import opened Patterns
  import TagPairs
  import MovesText
  import Wrap

  // ---------------------------------------------------------------- the query

  /** The error reply of the `/pgn` route. */
  datatype Reply = Reply(status: nat, message: string)

  const MissingParams := "username, month, and year are required"

  /** A query value JavaScript treats as present: given and not empty. */
  predicate Given(v: Option<string>) {
    v.Some? && v.value != ""
  }

  /** The chess.com archive the route fetches, with the month padded to two digits. */
  function ArchiveUrl(username: string, year: string, month: string): (url: string)
    ensures var mm := PadStart(month, 2, '0');
      |mm| >= 2 && mm[|mm| - |month|..] == month
      && url == "https://api.chess.com/pub/player/" + username + "/games/" + year + "/" + mm + "/pgn"
  {
    "https://api.chess.com/pub/player/" + username + "/games/" + year + "/" + PadStart(month, 2, '0') + "/pgn"
  }

  /**
   * The route's check of `username`, `month` and `year`: a missing or empty one is answered
   * with status 400 before anything is fetched; otherwise the archive URL.
   */
  function CheckQuery(username: Option<string>, month: Option<string>, year: Option<string>): (r: Result<string, Reply>)
    ensures r.Failure? <==> !(Given(username) && Given(month) && Given(year))
    ensures r.Failure? ==> r.error.status == 400
    ensures r.Success? ==> r.value == ArchiveUrl(username.value, year.value, month.value)
  {
    if !Given(username) || !Given(month) || !Given(year) then Failure(Reply(400, MissingParams))
    else Success(ArchiveUrl(username.value, year.value, month.value))
  }

  // ---------------------------------------------------------------- header and movetext

  /**
   * Carriage returns dropped, runs of three or more newlines shortened to a blank line; no
   * carriage return is left.
   */
  function Normalize(raw: string): (r: string)
    ensures '\r' !in r
  {
    var noCr := ReplaceAll(CarriageReturn, raw, "");
    CarriageReturnsGone(raw, 0);
    MovesText.ReplaceChars(BlankLines, noCr, 0, "\n\n", '\r');
    assert noCr[0..] == noCr;
    ReplaceAll(BlankLines, noCr, "\n\n")
  }

  lemma {:induction false} CarriageReturnsGone(s: string, i: nat)
    requires i <= |s|
    ensures '\r' !in ReplaceFrom(CarriageReturn, s, i, "")
    decreases |s| - i
  {
    if i < |s| {
      match MatchAt(CarriageReturn, s, i)
      case Some(e) => CarriageReturnsGone(s, e);
      case None => CarriageReturnsGone(s, i + 1);
    }
  }

  /** `normalized.indexOf("\n\n")`, as `|n| + 1` when there is no blank line. */
  function SplitIndex(n: string): nat {
    IndexOf(n, "\n\n", 0)
  }

  /** Everything before the first blank line (all of it when there is none). */
  function HeaderPart(n: string): string {
    if SplitIndex(n) <= |n| then n[..SplitIndex(n)] else n
  }

  /** Everything after the first blank line (nothing when there is none). */
  function MovesPart(n: string): string {
    if SplitIndex(n) <= |n| then n[SplitIndex(n) + 2..] else ""
  }

  lemma SplitFound(n: string, i: nat)
    requires i == SplitIndex(n) && i <= |n|
    ensures Contains(n, "\n\n") && n == n[..i] + "\n\n" + n[i + 2..]
  {
    ContainsAt(n, "\n\n", i);
    assert n[i..] == n[i..i + 2] + n[i + 2..];
    assert n == n[..i] + n[i..];
  }

  lemma SplitMissing(n: string)
    requires SplitIndex(n) > |n|
    ensures !Contains(n, "\n\n")
  {
    if Contains(n, "\n\n") {
      var k := ContainsIndex(n, "\n\n");
    }
  }

  /**
   * The split is lossless: with a blank line, the text is the header part, the blank line
   * and the movetext; without one, it is all header.
   */
  lemma SplitParts(n: string)
    ensures Contains(n, "\n\n") ==> n == HeaderPart(n) + "\n\n" + MovesPart(n)
    ensures !Contains(n, "\n\n") ==> HeaderPart(n) == n && MovesPart(n) == ""
  {
    var i := SplitIndex(n);
    if i <= |n| {
      SplitFound(n, i);
    } else {
      SplitMissing(n);
    }
  }

  /** The header part holds no blank line. */
  lemma HeaderPartHasNoBlankLine(n: string)
    ensures forall k | 0 <= k <= |HeaderPart(n)| :: !OccursAt(HeaderPart(n), "\n\n", k)
  {
    var i := SplitIndex(n);
    var h := HeaderPart(n);
    forall k | 0 <= k <= |h| ensures !OccursAt(h, "\n\n", k) {
      if k + 2 <= |h| {
        assert !OccursAt(n, "\n\n", k);
        assert h[k..k + 2] == n[k..k + 2];
      }
    }
  }

  /** A position where a contained string occurs. */
  lemma {:induction false} ContainsIndex(s: string, t: string) returns (k: nat)
    requires Contains(s, t)
    ensures k + |t| <= |s| && OccursAt(s, t, k)
    decreases |s|
  {
    if StartsWith(s, t) {
      k := 0;
    } else {
      var k1 := ContainsIndex(s[1..], t);
      k := k1 + 1;
      assert s[k..k + |t|] == s[1..][k1..k1 + |t|];
    }
  }

  /** `tags.Name || fallback`: a missing or empty value falls back. */
  function Field(tags: map<string, string>, name: string, fallback: string): string {
    if name in tags && tags[name] != "" then tags[name] else fallback
  }

  /** The `Result` tag, `*` when missing. */
  function ResultOf(tags: map<string, string>): string {
    Field(tags, "Result", "*")
  }

  /** `EndTime` (else `UTCTime`) with the GMT suffix rule applied. */
  function EndTimeOf(tags: map<string, string>): string {
    MovesText.FixEndTime(Field(tags, "EndTime", Field(tags, "UTCTime", "")))
  }

  /**
   * The rebuilt header in its fixed order: the Seven Tag Roster with the archive's defaults
   * and `Round` always "?", five more pairs, `EndTime` only when there is one, `Link` last.
   */
  function HeaderTags(tags: map<string, string>, endTime: string, link: string): (hs: seq<TagPairs.Tag>)
    ensures Names(hs) == RosterNames + (if endTime != "" then ["EndTime"] else []) + ["Link"]
  {
    [ TagPairs.Tag("Event", Field(tags, "Event", "Live Chess")),
      TagPairs.Tag("Site", Field(tags, "Site", "Chess.com")),
      TagPairs.Tag("Date", Field(tags, "Date", Field(tags, "UTCDate", ""))),
      TagPairs.Tag("Round", "?"),
      TagPairs.Tag("White", Field(tags, "White", "")),
      TagPairs.Tag("Black", Field(tags, "Black", "")),
      TagPairs.Tag("Result", ResultOf(tags)),
      TagPairs.Tag("TimeControl", Field(tags, "TimeControl", "")),
      TagPairs.Tag("WhiteElo", Field(tags, "WhiteElo", "")),
      TagPairs.Tag("BlackElo", Field(tags, "BlackElo", "")),
      TagPairs.Tag("Termination", Field(tags, "Termination", "")),
      TagPairs.Tag("ECO", Field(tags, "ECO", "")) ]
    + (if endTime != "" then [TagPairs.Tag("EndTime", endTime)] else [])
    + [TagPairs.Tag("Link", link)]
  }

  const RosterNames: seq<string> :=
    ["Event", "Site", "Date", "Round", "White", "Black", "Result",
     "TimeControl", "WhiteElo", "BlackElo", "Termination", "ECO"]

  function Names(ts: seq<TagPairs.Tag>): (ns: seq<string>)
    ensures |ns| == |ts| && forall k | 0 <= k < |ts| :: ns[k] == ts[k].name
  {
    seq(|ts|, k requires 0 <= k < |ts| => ts[k].name)
  }

  predicate Distinct(ns: seq<string>) {
    forall i, j | 0 <= i < j < |ns| :: ns[i] != ns[j]
  }

  lemma WithEndTimeDistinct()
    ensures Distinct(RosterNames + ["EndTime"] + ["Link"])
  {
  }

  lemma WithoutEndTimeDistinct()
    ensures Distinct(RosterNames + ["Link"])
  {
  }

  /** No name is printed twice. */
  lemma NamesDistinct(tags: map<string, string>, endTime: string, link: string)
    ensures var hs := HeaderTags(tags, endTime, link);
      forall i, j | 0 <= i < j < |hs| :: hs[i].name != hs[j].name
  {
    var hs := HeaderTags(tags, endTime, link);
    var ns := Names(hs);
    if endTime != "" {
      WithEndTimeDistinct();
      assert ns == RosterNames + ["EndTime"] + ["Link"];
    } else {
      WithoutEndTimeDistinct();
      assert ns == RosterNames + [] + ["Link"] == RosterNames + ["Link"];
    }
    assert Distinct(ns);
    forall i, j | 0 <= i < j < |hs| ensures hs[i].name != hs[j].name {
      assert ns[i] == hs[i].name && ns[j] == hs[j].name;
    }
  }

  lemma HeaderNameWellFormed(n: string)
    requires n in RosterNames || n == "EndTime" || n == "Link"
    ensures n != [] && AllWordChars(n)
  {
    assert forall c | c in n :: IsWordChar(c);
  }

  lemma HeaderNamesWellFormed(tags: map<string, string>, endTime: string, link: string)
    ensures var hs := HeaderTags(tags, endTime, link);
      forall k | 0 <= k < |hs| :: hs[k].name != [] && AllWordChars(hs[k].name)
  {
    var hs := HeaderTags(tags, endTime, link);
    forall k | 0 <= k < |hs| ensures hs[k].name != [] && AllWordChars(hs[k].name) {
      assert Names(hs)[k] == hs[k].name;
      HeaderNameWellFormed(hs[k].name);
    }
  }

  lemma FieldQuoteFree(tags: map<string, string>, name: string, fallback: string)
    requires forall n | n in tags :: '"' !in tags[n]
    requires '"' !in fallback
    ensures '"' !in Field(tags, name, fallback)
  {
  }

  lemma HeaderValuesQuoteFree(tags: map<string, string>, endTime: string, link: string)
    requires forall n | n in tags :: '"' !in tags[n]
    requires '"' !in endTime && '"' !in link
    ensures var hs := HeaderTags(tags, endTime, link);
      forall k | 0 <= k < |hs| :: '"' !in hs[k].value
  {
    FieldQuoteFree(tags, "UTCDate", "");
    var date := Field(tags, "UTCDate", "");
    FieldQuoteFree(tags, "Date", date);
    assert forall name, fallback | fallback in ["", "Live Chess", "Chess.com", "*"] :: '"' !in Field(tags, name, fallback);
  }

  /** Every printed pair can be read back when the values carry no quote. */
  lemma HeaderWellFormed(tags: map<string, string>, endTime: string, link: string)
    requires forall n | n in tags :: '"' !in tags[n]
    requires '"' !in endTime && '"' !in link
    ensures var hs := HeaderTags(tags, endTime, link);
      forall k | 0 <= k < |hs| :: TagPairs.WellFormed(hs[k])
  {
    HeaderNamesWellFormed(tags, endTime, link);
    HeaderValuesQuoteFree(tags, endTime, link);
  }

  /** The header block the server prints. */
  function HeaderBlock(tags: map<string, string>, link: string): string {
    TagPairs.Render(HeaderTags(tags, EndTimeOf(tags), link))
  }

  /** The fixed end time holds no quote when the archive's values hold none. */
  lemma EndTimeQuoteFree(tags: map<string, string>)
    requires forall n | n in tags :: '"' !in tags[n]
    ensures '"' !in EndTimeOf(tags)
  {
    var raw := Field(tags, "EndTime", Field(tags, "UTCTime", ""));
    assert '"' !in raw;
    assert '"' !in " GMT+0000";
  }

  /**
   * Reading the printed header block back gives each printed pair's value under its name,
   * and nothing else: the names are distinct, so no pair hides another.
   */
  lemma HeaderReadBack(tags: map<string, string>, link: string)
    requires forall n | n in tags :: '"' !in tags[n]
    requires '"' !in link
    ensures var hs := HeaderTags(tags, EndTimeOf(tags), link);
      var m := TagPairs.Parse(HeaderBlock(tags, link));
      && (forall k | 0 <= k < |hs| :: hs[k].name in m && m[hs[k].name] == hs[k].value)
      && (forall n | n in m :: n in Names(hs))
  {
    var hs := HeaderTags(tags, EndTimeOf(tags), link);
    EndTimeQuoteFree(tags);
    HeaderWellFormed(tags, EndTimeOf(tags), link);
    TagPairs.ParseRender(hs);
    NamesDistinct(tags, EndTimeOf(tags), link);
    TagPairs.ToMapDistinct(hs);
    forall n | n in TagPairs.ToMap(hs) ensures n in Names(hs) {
      var k :| 0 <= k < |hs| && hs[k].name == n;
      assert Names(hs)[k] == n;
    }
  }

  /** Every printed pair is found, and nothing else. */
  predicate HoldsExactly(m: map<string, string>, hs: seq<TagPairs.Tag>) {
    && (forall k | 0 <= k < |hs| :: hs[k].name in m && m[hs[k].name] == hs[k].value)
    && (forall n | n in m :: n in Names(hs))
  }

  /** `Round`, `Result` and `Link` as a reader finds them, for any end time. */
  lemma FixedFieldsRead(tags: map<string, string>, endTime: string, link: string, m: map<string, string>)
    requires HoldsExactly(m, HeaderTags(tags, endTime, link))
    ensures "Round" in m && m["Round"] == "?"
    ensures "Result" in m && m["Result"] == ResultOf(tags)
    ensures "Link" in m && m["Link"] == link
  {
    var hs := HeaderTags(tags, endTime, link);
    assert hs[3] == TagPairs.Tag("Round", "?");
    assert hs[6] == TagPairs.Tag("Result", ResultOf(tags));
    assert hs[|hs| - 1] == TagPairs.Tag("Link", link);
  }

  /** `Round`, `Result` and `Link` as a reader finds them. */
  lemma FixedFieldsOfReadBack(tags: map<string, string>, link: string, m: map<string, string>)
    requires HoldsExactly(m, HeaderTags(tags, EndTimeOf(tags), link))
    ensures "Round" in m && m["Round"] == "?"
    ensures "Result" in m && m["Result"] == ResultOf(tags)
    ensures "Link" in m && m["Link"] == link
  {
    FixedFieldsRead(tags, EndTimeOf(tags), link, m);
  }

  lemma EndTimeNotRostered()
    ensures "EndTime" !in RosterNames + ["Link"]
  {
  }

  /** `EndTime` as a reader finds it, for any end time: present exactly when not empty. */
  lemma EndTimeRead(tags: map<string, string>, endTime: string, link: string, m: map<string, string>)
    requires HoldsExactly(m, HeaderTags(tags, endTime, link))
    ensures "EndTime" in m <==> endTime != ""
    ensures "EndTime" in m ==> m["EndTime"] == endTime
  {
    var hs := HeaderTags(tags, endTime, link);
    if endTime != "" {
      assert hs[12] == TagPairs.Tag("EndTime", endTime);
    } else {
      EndTimeNotRostered();
      assert Names(hs) == RosterNames + ["Link"];
    }
  }

  /** `EndTime` as a reader finds it: present exactly when the archive's end time is not empty. */
  lemma EndTimeOfReadBack(tags: map<string, string>, link: string, m: map<string, string>)
    requires HoldsExactly(m, HeaderTags(tags, EndTimeOf(tags), link))
    ensures "EndTime" in m <==> EndTimeOf(tags) != ""
    ensures "EndTime" in m ==> m["EndTime"] == EndTimeOf(tags)
  {
    EndTimeRead(tags, EndTimeOf(tags), link, m);
  }

  /**
   * What a reader of the header finds: `Round` is "?", `Result` is the archive's or "*",
   * `EndTime` is present exactly when the archive had an end time and then names a GMT
   * offset, and `Link` is the link given.
   */
  lemma HeaderFields(tags: map<string, string>, link: string)
    requires forall n | n in tags :: '"' !in tags[n]
    requires '"' !in link
    ensures var m := TagPairs.Parse(HeaderBlock(tags, link));
      && "Round" in m && m["Round"] == "?"
      && "Result" in m && m["Result"] == (if "Result" in tags && tags["Result"] != "" then tags["Result"] else "*")
      && ("EndTime" in m <==> Field(tags, "EndTime", Field(tags, "UTCTime", "")) != "")
      && ("EndTime" in m ==> MovesText.HasGmtOffset(m["EndTime"]))
      && "Link" in m && m["Link"] == link
  {
    var m := TagPairs.Parse(HeaderBlock(tags, link));
    HeaderReadBack(tags, link);
    FixedFieldsOfReadBack(tags, link, m);
    EndTimeOfReadBack(tags, link, m);
  }

  // ---------------------------------------------------------------- the link fallback

  const LivePrefix := "https://www.chess.com/game/live/"

  /** The digits the live-game expression captures after the prefix at `i`, if a digit follows. */
  predicate LiveIdAt(h: string, i: nat) {
    OccursAt(h, LivePrefix, i) && i + |LivePrefix| < |h| && IsDigit(h[i + |LivePrefix|])
  }

  /**
   * `headerPart.match(/https:\/\/www\.chess\.com\/game\/live\/(\d+)/)[1]`: the digit run of
   * the leftmost live-game URL from `i` on.
   */
  function FindLiveId(h: string, i: nat): (r: Option<string>)
    requires i <= |h|
    ensures r.Some? ==> r.value != [] && AllDigits(r.value) && '"' !in r.value
    decreases |h| - i
  {
    if LiveIdAt(h, i) then
      var a := i + |LivePrefix|;
      var b := SkipWhile(h, a, IsDigit);
      assert forall k | 0 <= k < b - a :: h[a..b][k] == h[a + k];
      Some(h[a..b])
    else if i == |h| then None
    else FindLiveId(h, i + 1)
  }

  /**
   * The link and id when `Link` is not usable: the archive's first game URL, else the random
   * id. The link contains `move=0`, and a quote only if the random id has one.
   */
  function Fallback(headerPart: string, randomId: string): (r: (string, string))
    ensures Contains(r.1, "move=0") && ('"' !in randomId ==> '"' !in r.1)
  {
    var id := FindLiveId(headerPart, 0).GetOr(randomId);
    SuffixMoveZero(LivePrefix + id, '?');
    assert LivePrefix + id + "?move=0" == LivePrefix + id + ['?'] + "move=0";
    assert '"' !in LivePrefix;
    (id, LivePrefix + id + "?move=0")
  }

  lemma SuffixMoveZero(a: string, sep: char)
    ensures Contains(a + [sep] + "move=0", "move=0")
  {
    assert a + [sep] + "move=0" == (a + [sep]) + "move=0";
    ContainsSuffix(a + [sep], "move=0");
  }

  /** The prefix followed only by digits has no `?`. */
  lemma PrefixDigitsNoQuery(link: string, b: nat)
    requires StartsWith(link, LivePrefix) && b == |link|
    requires forall k | |LivePrefix| <= k < b :: IsDigit(link[k])
    ensures '?' !in link
  {
    assert '?' !in LivePrefix;
    forall q | 0 <= q < |link| ensures link[q] != '?' {
      if q < |LivePrefix| {
        assert link[q] == LivePrefix[q];
        assert LivePrefix[q] in LivePrefix;
      } else {
        assert IsDigit(link[q]);
      }
    }
  }

  // ---------------------------------------------------------------- the movetext

  const Width := 80

  /** The movetext before wrapping: cleaned, then the result enforced. */
  function PreparedMoves(tags: map<string, string>, movesPart: string): string {
    MovesText.EnsureResult(ResultOf(tags), MovesText.CleanMoves(movesPart))
  }

  /** The movetext as served: wrapped to 80 columns. */
  function ServedMoves(tags: map<string, string>, movesPart: string): string {
    Wrap.WrapToWidth(PreparedMoves(tags, movesPart), Width)
  }

  /**
   * The served movetext holds the cleaned movetext's tokens. When the game is finished its
   * last token is the result; when it is not, no token was added or removed.
   */
  lemma ServedMovesTokens(tags: map<string, string>, movesPart: string)
    ensures var w := Words(ServedMoves(tags, movesPart));
      && (MovesText.IsFinalResult(ResultOf(tags)) ==> w != [] && w[|w| - 1] == ResultOf(tags))
      && (ResultOf(tags) == "*" ==> w == Words(MovesText.CleanMoves(movesPart)))
  {
  }

  /** The movetext served when the clean-up folds spaces and tabs before newlines, as the servers do. */
  function ServedMovesAsWritten(tags: map<string, string>, movesPart: string): string {
    Wrap.WrapToWidth(MovesText.EnsureResult(ResultOf(tags), MovesText.CleanMovesAsWritten(movesPart)), Width)
  }

  /**
   * Once wrapped, the order of the two white-space folds makes no difference: the clean-up as
   * written and as corrected serve the same movetext, because the result rule and the wrap
   * depend on the words alone.
   */
  lemma ServedMovesOrderInvisible(tags: map<string, string>, movesPart: string)
    ensures ServedMovesAsWritten(tags, movesPart) == ServedMoves(tags, movesPart)
  {
    MovesText.EnsureResultWords(ResultOf(tags), MovesText.CleanMovesAsWritten(movesPart));
    MovesText.EnsureResultWords(ResultOf(tags), MovesText.CleanMoves(movesPart));
  }

  // ---------------------------------------------------------------- the game

  /** One formatted game: its id and its PGN text. */
  datatype Game = Game(gameID: string, pgn: string)

  /** The header block, a blank line, the wrapped movetext. */
  function Assemble(tags: map<string, string>, movesPart: string, gameID: string, link: string): Game {
    Game(gameID, HeaderBlock(tags, link) + "\n\n" + ServedMoves(tags, movesPart))
  }
}
