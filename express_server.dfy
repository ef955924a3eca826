/**
 * The Express archive server (`server/src/index.js`): its `Link` normalisation and the
 * per-game formatter that puts it together with the shared steps.
 */
module ExpressServer {
  import opened Wrappers
  import opened Text
  import TagPairs
  import Archive
  import Wrap

  /**
   * `^https:\/\/www\.chess\.com\/game\/live\/(\d+)(?:\?[^"]*)?$`: the prefix, a digit run
   * that is not empty, then the end or a `?` with no quote after it. A shorter digit run
   * would be followed by a digit, so the capture is the whole run.
   */
  function AnchoredLiveId(link: string): (r: Option<string>)
    ensures r.Some? ==> r.value != [] && AllDigits(r.value) && StartsWith(link, Archive.LivePrefix + r.value)
  {
    if !StartsWith(link, Archive.LivePrefix) then None
    else
      var a := |Archive.LivePrefix|;
      var b := SkipWhile(link, a, IsDigit);
      if b == a then None
      else if b == |link| || (link[b] == '?' && forall k | b < k < |link| :: link[k] != '"') then
        assert forall k | 0 <= k < b - a :: link[a..b][k] == link[a + k];
        assert link[..b] == Archive.LivePrefix + link[a..b];
        Some(link[a..b])
      else None
  }

  /** `/[?&]move=0(?:&|$)/.test(link)`: `move=0` is one of the link's parameters. */
  predicate HasMoveParam(link: string) {
    exists i | 0 <= i < |link| ::
      (link[i] == '?' || link[i] == '&') && OccursAt(link, "move=0", i + 1)
      && (i + 7 == |link| || link[i + 7] == '&')
  }

  /**
   * The game id and link: an anchored live-game link keeps its id and gets `?move=0` when it
   * has no query, `&move=0` when its query lacks that parameter; anything else is replaced
   * by the fallback. Every branch's link contains `move=0`; it holds no quote when the
   * archive's link and the random id hold none.
   */
  function NormalizeLink(linkRaw: string, headerPart: string, randomId: string): (r: (string, string))
    ensures Contains(r.1, "move=0")
    ensures '"' !in linkRaw && '"' !in randomId ==> '"' !in r.1
  {
    match AnchoredLiveId(linkRaw)
    case Some(id) =>
      if '?' !in linkRaw then
        Archive.SuffixMoveZero(linkRaw, '?');
        assert linkRaw + "?move=0" == linkRaw + ['?'] + "move=0";
        (id, linkRaw + "?move=0")
      else if !HasMoveParam(linkRaw) then
        Archive.SuffixMoveZero(linkRaw, '&');
        assert linkRaw + "&move=0" == linkRaw + ['&'] + "move=0";
        (id, linkRaw + "&move=0")
      else
        MoveParamContained(linkRaw);
        (id, linkRaw)
    case None => Archive.Fallback(headerPart, randomId)
  }

  /** A link with a `move=0` parameter contains the text `move=0`. */
  lemma MoveParamContained(link: string)
    requires HasMoveParam(link)
    ensures Contains(link, "move=0")
  {
    var i :| 0 <= i < |link| && (link[i] == '?' || link[i] == '&')
      && OccursAt(link, "move=0", i + 1) && (i + 7 == |link| || link[i + 7] == '&');
    ContainsAt(link, "move=0", i + 1);
  }

  /** Appending a parameter after the digit run keeps the anchored match and its id. */
  lemma AnchoredAfterAppend(linkRaw: string, id: string, sep: char)
    requires AnchoredLiveId(linkRaw) == Some(id)
    requires sep == '?' ==> '?' !in linkRaw
    requires sep == '&' ==> '?' in linkRaw
    requires sep == '?' || sep == '&'
    ensures AnchoredLiveId(linkRaw + [sep] + "move=0") == Some(id)
  {
    var L := linkRaw + [sep] + "move=0";
    var a := |Archive.LivePrefix|;
    var b := SkipWhile(linkRaw, a, IsDigit);
    assert L[..|linkRaw|] == linkRaw;
    assert L[..a] == linkRaw[..a];
    forall k | a <= k < b ensures IsDigit(L[k]) { assert L[k] == linkRaw[k]; }
    if b == |linkRaw| {
      Archive.PrefixDigitsNoQuery(linkRaw, b);
      assert L[b] == sep;
    } else {
      assert L[b] == linkRaw[b];
    }
    SkipWhileUnique(L, a, IsDigit, b);
    assert L[a..b] == linkRaw[a..b];
    forall k | b < k < |L| ensures L[k] != '"' {
      if k < |linkRaw| { assert L[k] == linkRaw[k]; }
    }
  }

  /** `move=0` appended after `sep` is a parameter. */
  lemma AppendedMoveParam(linkRaw: string, sep: char)
    requires sep == '?' || sep == '&'
    ensures HasMoveParam(linkRaw + [sep] + "move=0")
  {
    var L := linkRaw + [sep] + "move=0";
    var i := |linkRaw|;
    assert L[i] == sep && L[i + 1..i + 7] == "move=0" && i + 7 == |L|;
  }

  /** A link with `move=0` appended after `sep` is accepted again and left as it is. */
  lemma AppendedIsFixed(linkRaw: string, id: string, sep: char, headerPart: string, randomId: string)
    requires AnchoredLiveId(linkRaw) == Some(id)
    requires sep == '?' ==> '?' !in linkRaw
    requires sep == '&' ==> '?' in linkRaw
    requires sep == '?' || sep == '&'
    ensures NormalizeLink(linkRaw + [sep] + "move=0", headerPart, randomId) == (id, linkRaw + [sep] + "move=0")
  {
    var L := linkRaw + [sep] + "move=0";
    AnchoredAfterAppend(linkRaw, id, sep);
    AppendedMoveParam(linkRaw, sep);
    if sep == '?' {
      assert L[|linkRaw|] == '?';
    } else {
      var q :| 0 <= q < |linkRaw| && linkRaw[q] == '?';
      assert L[q] == '?';
    }
  }

  /**
   * Normalising an accepted link again changes nothing: the id is kept and the `move=0`
   * parameter is found, so nothing more is appended.
   */
  lemma NormalizeLinkIdempotent(linkRaw: string, headerPart: string, randomId: string)
    requires AnchoredLiveId(linkRaw).Some?
    ensures var (id, link) := NormalizeLink(linkRaw, headerPart, randomId);
      id == AnchoredLiveId(linkRaw).value && StartsWith(link, linkRaw)
      && NormalizeLink(link, headerPart, randomId) == (id, link)
  {
    var id := AnchoredLiveId(linkRaw).value;
    if '?' !in linkRaw {
      assert linkRaw + "?move=0" == linkRaw + ['?'] + "move=0";
      AppendedIsFixed(linkRaw, id, '?', headerPart, randomId);
      assert (linkRaw + "?move=0")[..|linkRaw|] == linkRaw;
    } else if !HasMoveParam(linkRaw) {
      assert linkRaw + "&move=0" == linkRaw + ['&'] + "move=0";
      AppendedIsFixed(linkRaw, id, '&', headerPart, randomId);
      assert (linkRaw + "&move=0")[..|linkRaw|] == linkRaw;
    } else {
      assert linkRaw[..|linkRaw|] == linkRaw;
    }
  }

  /** A bare live-game link `<prefix><digits>` becomes `<prefix><digits>?move=0` with those digits as id. */
  lemma CanonicalLink(digits: string, headerPart: string, randomId: string)
    requires digits != [] && AllDigits(digits)
    ensures NormalizeLink(Archive.LivePrefix + digits, headerPart, randomId) == (digits, Archive.LivePrefix + digits + "?move=0")
  {
    var L := Archive.LivePrefix + digits;
    var a := |Archive.LivePrefix|;
    assert L[..a] == Archive.LivePrefix;
    forall k | a <= k < |L| ensures IsDigit(L[k]) { assert L[k] == digits[k - a]; }
    SkipWhileUnique(L, a, IsDigit, |L|);
    assert L[a..|L|] == digits;
    assert AnchoredLiveId(L) == Some(digits);
    Archive.PrefixDigitsNoQuery(L, |L|);
  }

  /** The digit run of `<prefix><id><tail>`, the tail starting with a non-digit, ends where `id` does. */
  lemma DigitRunOf(id: string, tail: string)
    requires id != [] && AllDigits(id) && tail != [] && !IsDigit(tail[0])
    ensures var L := Archive.LivePrefix + id + tail; var a := |Archive.LivePrefix|;
      && StartsWith(L, Archive.LivePrefix)
      && SkipWhile(L, a, IsDigit) == a + |id| && L[a..a + |id|] == id && L[a + |id|] == tail[0]
  {
    var L := Archive.LivePrefix + id + tail;
    var a := |Archive.LivePrefix|;
    assert L[..a] == Archive.LivePrefix;
    forall k | a <= k < a + |id| ensures IsDigit(L[k]) { assert L[k] == id[k - a]; }
    assert L[a + |id|] == tail[0];
    SkipWhileUnique(L, a, IsDigit, a + |id|);
    assert L[a..a + |id|] == id;
  }

  /** `<prefix><id>?<q>` with no quote in `q` is accepted with that id. */
  lemma AnchoredQuery(id: string, q: string)
    requires id != [] && AllDigits(id) && '"' !in q
    ensures AnchoredLiveId(Archive.LivePrefix + id + "?" + q) == Some(id)
  {
    var L := Archive.LivePrefix + id + "?" + q;
    var b := |Archive.LivePrefix| + |id|;
    assert L == Archive.LivePrefix + id + ("?" + q);
    DigitRunOf(id, "?" + q);
    forall k | b < k < |L| ensures L[k] != '"' { assert L[k] == q[k - b - 1]; }
  }

  /**
   * In `<prefix><id>?<q>`, with no separator in `q` and `q` not starting with `move=0`, no
   * parameter is `move=0`.
   */
  lemma NoMoveParamInQuery(id: string, q: string)
    requires AllDigits(id) && !StartsWith(q, "move=0") && '?' !in q && '&' !in q
    ensures !HasMoveParam(Archive.LivePrefix + id + "?" + q)
  {
    var P := Archive.LivePrefix;
    var L := P + id + "?" + q;
    var b := |P| + |id|;
    assert '?' !in P && '&' !in P;
    forall i | 0 <= i < |L| && i != b ensures L[i] != '?' && L[i] != '&' {
      if i < |P| {
        assert L[i] == P[i] && P[i] in P;
      } else if i < b {
        assert L[i] == id[i - |P|] && IsDigit(id[i - |P|]);
      } else {
        assert L[i] == q[i - b - 1] && q[i - b - 1] in q;
      }
    }
    assert !OccursAt(L, "move=0", b + 1) by {
      if b + 7 <= |L| {
        assert L[b + 1..b + 7] == q[..6];
      }
    }
  }

  /** `<prefix><id><tail>`, the tail starting with neither a digit nor `?`, is rejected. */
  lemma RejectsPath(id: string, tail: string)
    requires id != [] && AllDigits(id) && tail != [] && !IsDigit(tail[0]) && tail[0] != '?'
    ensures AnchoredLiveId(Archive.LivePrefix + id + tail) == None
  {
    DigitRunOf(id, tail);
  }

  /**
   * The Express server's formatting of one archive game: the printed header, a blank line and the
   * wrapped movetext. Read back, the header has `Round` "?", `Result` the archive's or "*",
   * `EndTime` exactly when the archive had one, and a `Link` that contains `move=0`.
   */
  function Formatted(raw: string, randomId: string): (g: Archive.Game)
    ensures var n := Archive.Normalize(raw);
      var tags := TagPairs.Parse(Archive.HeaderPart(n));
      var link := NormalizeLink(Archive.Field(tags, "Link", ""), Archive.HeaderPart(n), randomId).1;
      var m := TagPairs.Parse(Archive.HeaderBlock(tags, link));
      && g.pgn == Archive.HeaderBlock(tags, link) + "\n\n" + Archive.ServedMoves(tags, Archive.MovesPart(n))
      && ('"' !in randomId ==>
        && "Round" in m && m["Round"] == "?"
        && "Result" in m && m["Result"] == Archive.ResultOf(tags)
        && ("EndTime" in m <==> Archive.EndTimeOf(tags) != "")
        && "Link" in m && Contains(m["Link"], "move=0"))
  {
    var n := Archive.Normalize(raw);
    var h := Archive.HeaderPart(n);
    var tags := TagPairs.Parse(h);
    var (id, link) := NormalizeLink(Archive.Field(tags, "Link", ""), h, randomId);
    if '"' in randomId then Archive.Assemble(tags, Archive.MovesPart(n), id, link)
    else
      Archive.HeaderReadBack(tags, link);
      var m := TagPairs.Parse(Archive.HeaderBlock(tags, link));
      Archive.FixedFieldsOfReadBack(tags, link, m);
      Archive.EndTimeOfReadBack(tags, link, m);
      Archive.Assemble(tags, Archive.MovesPart(n), id, link)
  }

  /** The formatter as the server runs it: the tag loop, then the wrapping loop. */
  method FormatGame(raw: string, randomId: string) returns (g: Archive.Game)
    ensures g == Formatted(raw, randomId)
  {
    var normalized := Archive.Normalize(raw);
    var headerPart := Archive.HeaderPart(normalized);
    var tags := TagPairs.CollectTags(headerPart);
    var (gameID, link) := NormalizeLink(Archive.Field(tags, "Link", ""), headerPart, randomId);
    var moves := Wrap.ExpressWrapToWidth(Archive.PreparedMoves(tags, Archive.MovesPart(normalized)), Archive.Width);
    g := Archive.Game(gameID, Archive.HeaderBlock(tags, link) + "\n\n" + moves);
  }
}
