/**
 * The edge archive server (`edge-server/src/index.ts`): the same per-game formatter as the
 * Express server, except for the rule that accepts the archive's `Link` and the test for an
 * existing `move=0`.
 */
module EdgeServer {
  import opened Wrappers
  import opened Text
  import TagPairs
  import Archive
  import Wrap
  import ExpressServer

  /**
   * `^https:\/\/www\.chess\.com\/game\/live\/(\d+)`: the prefix and a digit run that is not
   * empty; what follows the run is not looked at. The capture is the whole run.
   */
  function LiveIdPrefix(link: string): (r: Option<string>)
    ensures r.Some? ==> r.value != [] && AllDigits(r.value) && StartsWith(link, Archive.LivePrefix + r.value)
    ensures r.Some? ==> var e := |Archive.LivePrefix| + |r.value|; e == |link| || !IsDigit(link[e])
  {
    if !StartsWith(link, Archive.LivePrefix) then None
    else
      var a := |Archive.LivePrefix|;
      var b := SkipWhile(link, a, IsDigit);
      if b == a then None
      else
        assert forall k | 0 <= k < b - a :: link[a..b][k] == link[a + k];
        assert link[..b] == Archive.LivePrefix + link[a..b];
        Some(link[a..b])
  }

  /** Every link the Express server accepts is accepted here, with the same id. */
  lemma AcceptsExpressLinks(link: string)
    ensures ExpressServer.AnchoredLiveId(link).Some? ==> LiveIdPrefix(link) == ExpressServer.AnchoredLiveId(link)
  {
  }

  /**
   * The game id and link: a link that starts like a live-game link keeps its id, and gets
   * `&move=0` (when it has a `?`) or `?move=0` unless `move=0` occurs anywhere in it;
   * anything else is replaced by the fallback. Every branch's link contains `move=0`; it
   * holds no quote when the archive's link and the random id hold none.
   */
  function NormalizeLink(linkRaw: string, headerPart: string, randomId: string): (r: (string, string))
    ensures Contains(r.1, "move=0")
    ensures '"' !in linkRaw && '"' !in randomId ==> '"' !in r.1
  {
    match LiveIdPrefix(linkRaw)
    case Some(id) =>
      if Contains(linkRaw, "move=0") then (id, linkRaw)
      else if '?' in linkRaw then
        Archive.SuffixMoveZero(linkRaw, '&');
        assert linkRaw + "&move=0" == linkRaw + ['&'] + "move=0";
        (id, linkRaw + "&move=0")
      else
        Archive.SuffixMoveZero(linkRaw, '?');
        assert linkRaw + "?move=0" == linkRaw + ['?'] + "move=0";
        (id, linkRaw + "?move=0")
    case None => Archive.Fallback(headerPart, randomId)
  }

  /** Appending anything that starts with a non-digit after the link keeps its id. */
  lemma PrefixAfterAppend(linkRaw: string, id: string, tail: string)
    requires LiveIdPrefix(linkRaw) == Some(id)
    requires tail != [] && !IsDigit(tail[0])
    ensures LiveIdPrefix(linkRaw + tail) == Some(id)
  {
    var L := linkRaw + tail;
    var a := |Archive.LivePrefix|;
    var b := SkipWhile(linkRaw, a, IsDigit);
    assert L[..a] == linkRaw[..a];
    forall k | a <= k < b ensures IsDigit(L[k]) { assert L[k] == linkRaw[k]; }
    if b == |linkRaw| {
      assert L[b] == tail[0];
    } else {
      assert L[b] == linkRaw[b];
    }
    SkipWhileUnique(L, a, IsDigit, b);
    assert L[a..b] == linkRaw[a..b];
  }

  /**
   * Normalising an accepted link again changes nothing: the id is kept and `move=0` is now
   * found, so nothing more is appended.
   */
  lemma NormalizeLinkIdempotent(linkRaw: string, headerPart: string, randomId: string)
    requires LiveIdPrefix(linkRaw).Some?
    ensures var (id, link) := NormalizeLink(linkRaw, headerPart, randomId);
      id == LiveIdPrefix(linkRaw).value && StartsWith(link, linkRaw)
      && NormalizeLink(link, headerPart, randomId) == (id, link)
  {
    var id := LiveIdPrefix(linkRaw).value;
    if Contains(linkRaw, "move=0") {
      assert linkRaw[..|linkRaw|] == linkRaw;
    } else if '?' in linkRaw {
      var L := linkRaw + "&move=0";
      PrefixAfterAppend(linkRaw, id, "&move=0");
      assert L[..|linkRaw|] == linkRaw;
    } else {
      var L := linkRaw + "?move=0";
      PrefixAfterAppend(linkRaw, id, "?move=0");
      assert L[..|linkRaw|] == linkRaw;
    }
  }

  /**
   * On a bare live-game link `<prefix><digits>` the two servers agree: both keep the digits
   * as id and append `?move=0`.
   */
  lemma CanonicalLink(digits: string, headerPart: string, randomId: string)
    requires digits != [] && AllDigits(digits)
    ensures NormalizeLink(Archive.LivePrefix + digits, headerPart, randomId)
      == (digits, Archive.LivePrefix + digits + "?move=0")
      == ExpressServer.NormalizeLink(Archive.LivePrefix + digits, headerPart, randomId)
  {
    var L := Archive.LivePrefix + digits;
    var a := |Archive.LivePrefix|;
    assert L[..a] == Archive.LivePrefix;
    forall k | a <= k < |L| ensures IsDigit(L[k]) { assert L[k] == digits[k - a]; }
    SkipWhileUnique(L, a, IsDigit, |L|);
    assert L[a..|L|] == digits;
    assert LiveIdPrefix(L) == Some(digits);
    Archive.PrefixDigitsNoQuery(L, |L|);
    assert '=' !in L by {
      assert '=' !in Archive.LivePrefix;
      forall k | 0 <= k < |digits| ensures digits[k] != '=' { assert IsDigit(digits[k]); }
    }
    MissingCharNotContained(L, "move=0", '=');
    ExpressServer.CanonicalLink(digits, headerPart, randomId);
  }

  /**
   * Where the servers part: a link whose query holds the text `move=0` without a `move=0`
   * parameter (`?premove=0`, say) is left as it is here, while the Express server adds the
   * parameter.
   */
  lemma MoveZeroTextInQuery(id: string, q: string, headerPart: string, randomId: string)
    requires id != [] && AllDigits(id)
    requires Contains(q, "move=0") && !StartsWith(q, "move=0")
    requires '"' !in q && '?' !in q && '&' !in q
    ensures var L := Archive.LivePrefix + id + "?" + q;
      && NormalizeLink(L, headerPart, randomId) == (id, L)
      && !ExpressServer.HasMoveParam(L)
      && ExpressServer.NormalizeLink(L, headerPart, randomId) == (id, L + "&move=0")
  {
    var P := Archive.LivePrefix;
    var L := P + id + "?" + q;
    var b := |P| + |id|;
    assert L == P + id + ("?" + q);
    ExpressServer.DigitRunOf(id, "?" + q);
    ContainsAfter(P + id + "?", q, "move=0");
    ExpressServer.AnchoredQuery(id, q);
    ExpressServer.NoMoveParamInQuery(id, q);
    assert L[b] == '?';
  }

  /**
   * Where the servers part the other way: a live-game link with a path after the id
   * (`/analysis`, say) keeps its id here and gains `?move=0`, while the Express server
   * rejects it and falls back.
   */
  lemma PathAfterId(id: string, path: string, headerPart: string, randomId: string)
    requires id != [] && AllDigits(id)
    requires path != [] && !IsDigit(path[0]) && '?' !in path && '=' !in path
    ensures var L := Archive.LivePrefix + id + path;
      && NormalizeLink(L, headerPart, randomId) == (id, L + "?move=0")
      && ExpressServer.AnchoredLiveId(L) == None
      && ExpressServer.NormalizeLink(L, headerPart, randomId) == Archive.Fallback(headerPart, randomId)
  {
    var P := Archive.LivePrefix;
    var L := P + id + path;
    ExpressServer.DigitRunOf(id, path);
    ExpressServer.RejectsPath(id, path);
    assert '=' !in P && '?' !in P;
    forall k | 0 <= k < |id| ensures id[k] != '=' && id[k] != '?' { assert IsDigit(id[k]); }
    assert '=' !in L && '?' !in L;
    MissingCharNotContained(L, "move=0", '=');
  }

  /**
   * The edge server's formatting of one archive game: the printed header, a blank line and the
   * wrapped movetext. Read back, the header has `Round` "?", `Result` the archive's or "*",
   * `EndTime` exactly when the archive had one, and a `Link` that contains `move=0`.
   */
  function Formatted(raw: string, randomId: string): (g: Archive.Game)
    ensures var n := Archive.Normalize(raw);
      var tags := TagPairs.Parse(Archive.HeaderPart(n));
      var link := NormalizeLink(Archive.Field(tags, "Link", ""), Archive.HeaderPart(n), randomId).1;
      var m := TagPairs.Parse(Archive.HeaderBlock(tags, link));
      && g.pgn == Archive.HeaderBlock(tags, link) + "\n\n" + Archive.ServedMoves(tags, Archive.MovesPart(n))
      && ('"' !in randomId ==>
        && "Round" in m && m["Round"] == "?"
        && "Result" in m && m["Result"] == Archive.ResultOf(tags)
        && ("EndTime" in m <==> Archive.EndTimeOf(tags) != "")
        && "Link" in m && Contains(m["Link"], "move=0"))
  {
    var n := Archive.Normalize(raw);
    var h := Archive.HeaderPart(n);
    var tags := TagPairs.Parse(h);
    var (id, link) := NormalizeLink(Archive.Field(tags, "Link", ""), h, randomId);
    if '"' in randomId then Archive.Assemble(tags, Archive.MovesPart(n), id, link)
    else
      Archive.HeaderReadBack(tags, link);
      var m := TagPairs.Parse(Archive.HeaderBlock(tags, link));
      Archive.FixedFieldsOfReadBack(tags, link, m);
      Archive.EndTimeOfReadBack(tags, link, m);
      Archive.Assemble(tags, Archive.MovesPart(n), id, link)
  }

  /** The formatter as the worker runs it: the tag loop, then the wrapping loop. */
  method FormatGame(raw: string, randomId: string) returns (g: Archive.Game)
    ensures g == Formatted(raw, randomId)
  {
    var normalized := Archive.Normalize(raw);
    var headerPart := Archive.HeaderPart(normalized);
    var tags := TagPairs.CollectTags(headerPart);
    var (gameID, link) := NormalizeLink(Archive.Field(tags, "Link", ""), headerPart, randomId);
    var moves := Wrap.EdgeWrapToWidth(Archive.PreparedMoves(tags, Archive.MovesPart(normalized)), Archive.Width);
    g := Archive.Game(gameID, Archive.HeaderBlock(tags, link) + "\n\n" + moves);
  }
}
