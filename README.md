# Wazir, modelled in Dafny

Wazir reviews chess.com games. It has three parts:

- **The browser-extension popup** (`extention/popup.js`). It takes a game's PGN text and normalises it. It extracts the SAN move tokens and replays the game. For each ply it asks a Stockfish worker for its candidate lines (UCI `info ... multipv N score cp|mate V ... pv ...` lines, collected until `bestmove`). It scores the played move against the best line and grades it (best, excellent, great, good, book, miss, inaccuracy, mistake, blunder), then sums each side up as an average centipawn loss and an accuracy. A board view then steps through the game, showing the engine's suggestion after each move.
- **Two archive servers** with the same `/pgn` route: an Express one (`server/src/index.js`) and an edge one (`edge-server/src/index.ts`). The route checks its query and fetches a player's monthly archive from chess.com. It splits the archive into games. It rewrites each game's header in a fixed order with defaults and normalises the `Link` tag to carry `move=0`. It gives the end time a GMT offset. It cleans the movetext of clocks, comments and glyphs, puts the result once at the end, and wraps the movetext to 80 columns.
- **`wrapToWidth`**: the Express server's copy, and the edge server's copy in `edge-server/src/utils/wrapToWidth.ts`.

The Dafny modules follow the program:

| module | file | models |
|---|---|---|
| `Text` | text.dfy | JavaScript's white space, `trim`, `split`, `join`, `indexOf`, `padStart` |
| `Patterns` | patterns.dfy | every regular expression the core runs, as a scanner, and the global `replace` |
| `TagPairs` | tag_pairs.dfy | the `[Name "value"]` scan (`re.exec` loop) shared by the popup and both servers, and the header lines the servers print |
| `EngineLines` | engine_lines.dfy | `parseInfoMulti` and `onceBestWithMulti` |
| `Scoring` | scoring.dfy | `clamp`, `infoToCp`, `acplToAccuracy`, `classifyLoss`, `isBook`, `categorizeMove` |
| `PgnTokens` | pgn_tokens.dfy | `normalizePgn` and `extractSanTokens` |
| `Analysis` | analysis.dfy | `runAnalysis` and its per-side summary |
| `Board` | board.dfy | `sqToXY` and the board view's state, as the class `Cursor` (`gotoPly`, `buildBoard` and the controls) |
| `Wrap` | wrap.dfy | both copies of `wrapToWidth` |
| `MovesText` | moves_text.dfy | the servers' movetext clean-up, the result rule and the end-time rule |
| `Archive` | archive.dfy | what both servers share: query, normalisation, header/movetext split, header layout, link fallback |
| `ExpressServer` | express_server.dfy | the Express server's link rule and its per-game formatter |
| `EdgeServer` | edge_server.dfy | the edge server's link rule and its per-game formatter |

Code that works step by step is written as methods with loops and proved against specification functions. In the source these are: the `re.exec` loop, the SAN token loop, `onceBestWithMulti`'s handler, the analysis loop, the `pvMap` loop and both `wrapToWidth` loops. The board's module-level variables, which `gotoPly` and the controls update, become the fields of the class `Board.Cursor`.

Outside code is passed in as parameters:

- The chess rules library (`chess.js`) and the engine are an `Oracles` value of functions.
- `Math.random` is a `randomId` parameter.

The two servers differ in one place, the `Link` rule:

- The Express server accepts a link only when the whole link is `https://www.chess.com/game/live/<digits>`, optionally followed by `?` and a query. It adds `move=0` unless a `move=0` parameter is present.
- The edge server needs only that prefix. It adds `move=0` unless the text `move=0` occurs anywhere in the link.

`EdgeServer.CanonicalLink` proves the servers agree on a bare link. `EdgeServer.MoveZeroTextInQuery` and `EdgeServer.PathAfterId` give the families of links on which they differ.

The clean-up's own comment ("collapse whitespace") reads as leaving tokens one space apart. The code as written does not guarantee this (see Findings). The model states both behaviours.

## Model

| member | source | states |
|---|---|---|
| Text.Trim | server/src/index.js:105 | the trimmed text neither starts nor ends with white space and keeps every other character in order |
| Text.TrimIsSlice | server/src/index.js:105 | trimming only cuts white space off the two ends: the result is a contiguous slice of the input |
| Text.TrimOfClean | server/src/index.js:110-111 | a text already without white space at its ends is left unchanged by `trim` |
| Text.Words | server/src/index.js:162 | `split(/\s+/).filter(Boolean)` yields only non-empty tokens free of white space |
| Text.WordsSplitAt | server/src/index.js:162 | splitting at any white-space character splits the token list there: no token spans the separator |
| Text.WordsOfJoin | extention/popup.js:98 | joining white-space-free tokens with one white-space character and splitting again gives the tokens back |
| Text.SplitOn | extention/popup.js:631 | `split(" ")` yields at least one piece, no piece contains the separator, and joining the pieces with the separator gives the text back |
| Text.WordsAfterGap | server/src/index.js:162 | after a text that is empty or ends in white space, the words of what follows are added unchanged |
| Text.WordsOfTrim | server/src/index.js:105 | `trim` keeps every word of the text, in order |
| Text.LastWordSplit | server/src/index.js:110 | a text that is not all white space splits into the text before its last word, that word and trailing white space, and its words are the earlier words then the last word |
| Text.IndexOf | server/src/index.js:36 | `indexOf` returns the first occurrence at or after the start, or "not found" when none occurs |
| Text.PadStart | server/src/index.js:20 | `padStart(n, c)` ends with the input, is at least `n` long, and only adds copies of `c` in front |
| Text.NatToDigits | extention/popup.js:875 | a ply count's decimal text is a non-empty run of digits whose value is the count, with no leading zero except for the count 0 itself, written `0` |
| Patterns.MatchAt | extention/popup.js:597-627 | a match of any of the core's regular expressions covers at least one character and ends inside the text |
| Patterns.LastLineEnd | extention/popup.js:597-599 | the backtracking of `\s*$` under the `m` flag stops at the last line end in reach, or fails when there is none |
| Patterns.ReplaceWithoutMatch | extention/popup.js:626 | a global replace that finds no match leaves the text unchanged |
| Patterns.ReplaceAllWithoutMatch | extention/popup.js:594-607 | a global replace of a pattern the text does not contain returns the text |
| Patterns.VariationReplaceShrinks | extention/popup.js:626 | one pass of the variation removal never lengthens the text and shortens it whenever a variation remains, so the `while` loop ends |
| TagPairs.TagAt | extention/popup.js:613 | a tag match yields a well-formed tag (non-empty word-character name, quote-free value) and consumes at least one character |
| TagPairs.Exec | extention/popup.js:615 | each `re.exec` from `lastIndex` returns a well-formed tag and moves `lastIndex` forward |
| TagPairs.Parse | extention/popup.js:611-617 | every header the scan collects has a word-character name and a quote-free value |
| TagPairs.ExecStep | server/src/index.js:45-46 | one loop step stores the found tag and lets the tags found later override it |
| TagPairs.ExecNone | server/src/index.js:45 | when `exec` finds nothing more, the rest of the text adds no header |
| TagPairs.CollectTags | server/src/index.js:42-47 | the `while ((m = tagRe.exec(...)))` loop builds exactly the header map of the text, every entry well-formed |
| TagPairs.ToMapDistinct | server/src/index.js:118-133 | with distinct names, the map of a tag list holds each listed tag's value and no other name |
| TagPairs.TagAtLine | server/src/index.js:119-133 | a printed `[Name "value"]` line is read back as exactly that tag, whatever follows it |
| TagPairs.ParseRender | server/src/index.js:135 | scanning printed header lines gives back the map of the printed tags (round trip) |
| EngineLines.MultipvAtLit | extention/popup.js:92 | `\bmultipv\s+(\d+)` on `multipv N ` reads the rank `N` and ends before the space |
| EngineLines.SignedAtLit | extention/popup.js:92-97 | `(-?\d+)` read by `parseInt` on a signed decimal reads back that integer |
| EngineLines.ScoreAtLit | extention/popup.js:92 | the `score` part of the pattern (`cp` or `mate`, then a signed integer) on `score KIND V ` reads that kind and value |
| EngineLines.PvAtLit | extention/popup.js:92 | `\bpv\s+(.+)$` captures the whole rest of the line after `pv ` |
| EngineLines.PvMoves | extention/popup.js:98 | the PV's moves are at least one token and contain no white space |
| EngineLines.PvMovesOfJoin | extention/popup.js:98 | splitting space-joined moves gives the same moves back |
| EngineLines.InfoFromSkipRun | extention/popup.js:91-93 | the unanchored search passes over any stretch holding no `m` without changing the result |
| EngineLines.ParseInfo | extention/popup.js:90-101 | a parsed line has a non-empty PV of white-space-free moves and its `move` is the PV's first move |
| EngineLines.ParseLaidOut | extention/popup.js:90-101 | an `info multipv N score KIND V pv MOVES` line parses to exactly that rank, score and PV |
| EngineLines.ParseRenderInfo | extention/popup.js:90-101 | printing a line in the engine's format and parsing it again gives the same info (round trip) |
| EngineLines.Accepted | extention/popup.js:109-111 | a message is stored only when it is a parsable `info` line whose rank does not exceed the one asked for |
| EngineLines.FirstBestmove | extention/popup.js:112 | the handler resolves at the first `bestmove` message and at none before it |
| EngineLines.Table | extention/popup.js:105-111 | the `lines` object maps each rank to a well-formed line of that rank, none above the one asked for |
| EngineLines.AwaitBest | extention/popup.js:103-120 | feeding the messages to the handler resolves exactly as the specification `OnceBest` says |
| EngineLines.RankedSpec | extention/popup.js:114 | `Object.values(lines).sort(...)` lists every stored rank once, in strictly increasing order |
| EngineLines.OnceBestSorted | extention/popup.js:114-115 | the resolved lines are sorted by strictly increasing rank, each well-formed and at most the rank asked for |
| EngineLines.TableIsLastWriter | extention/popup.js:111 | a rank is stored exactly when some accepted line had it, and then holds the last such line |
| EngineLines.TableFromAccepted | extention/popup.js:111 | every stored line was accepted from some message |
| EngineLines.OnceBestLastWriter | extention/popup.js:111-115 | each rank reported before `bestmove` appears in the result once, as its last report, and no other rank appears |
| EngineLines.OnceBestIgnoresLater | extention/popup.js:113 | messages after the resolving `bestmove` change nothing (the handler is removed) |
| EngineLines.FirstBestmoveAppend | extention/popup.js:112-113 | later messages do not move the point where the handler resolves |
| EngineLines.OnceBest | extention/popup.js:104-119 | the promise stays pending exactly when no message resolves it |
| Scoring.Clamp | extention/popup.js:149-151 | the result lies within the bounds, equals the input inside them and the nearer bound outside them |
| Scoring.InfoToCp | extention/popup.js:153-161 | a score lies within ±1000: no line gives 0, a cp score is clamped, a mate is +1000 exactly when the mate count is positive and −1000 otherwise |
| Scoring.InfoToCpMonotone | extention/popup.js:155 | a better cp score never maps to a lower value |
| Scoring.Round | extention/popup.js:165 | `Math.round` gives the integer within half a unit, with halves rounded up |
| Scoring.AcplToAccuracy | extention/popup.js:163-166 | accuracy lies in 0..100, is 100 exactly when the average loss is at most 50/22 and 0 exactly when it exceeds 9950/22 |
| Scoring.AccuracyOfNoLoss | extention/popup.js:163-166 | no loss gives 100% accuracy |
| Scoring.AccuracyMonotone | extention/popup.js:163-166 | a larger average loss never gives a higher accuracy |
| Scoring.ClassifyLoss | extention/popup.js:168-175 | each loss band gets its grade, in both directions: blunder ≥300, mistake 150..299, inaccuracy 75..149, best ≤10, excellent 11..30, good 31..74 |
| Scoring.ClassifyMonotone | extention/popup.js:168-175 | a larger loss never gets a milder grade |
| Scoring.IsBook | extention/popup.js:177-179 | a book move is one whose evaluations both lie within ±30, so it loses at most 60 centipawns |
| Scoring.CategorizeMove | extention/popup.js:181-210 | in both directions: great exactly when the great test holds (two candidate lines, clamped loss ≤20, best line 120 ahead of the second, played score within 20 of the best); book exactly when great fails and the book test holds (ply ≤10, both scores within ±30); miss exactly when both fail and the miss test holds (two lines, clamped loss ≤35, best line gaining 150 more than the move); a loss grade exactly when all three fail, and then it is the grade of the clamped loss |
| Scoring.CategorizePrecedence | extention/popup.js:184-201 | great beats book, and book beats miss, whenever their conditions hold |
| Scoring.CategorizeUsesClampedLoss | extention/popup.js:182 | only the loss clamped to 0..1000 matters |
| Scoring.MissUnreachableInAnalysis | extention/popup.js:185-201 | with the pre-move score taken from the first candidate line, as the analysis does, a move is never graded miss |
| PgnTokens.TagBlockFrom | extention/popup.js:600 | a match of `^(?:\[[^\]]+\]\s*\n)+` (flag `m`) starts at a line start and ends inside the text |
| PgnTokens.TagBlockLeftmost | extention/popup.js:600 | the match found is the leftmost line start where a tag entry begins, extended over all following entries |
| PgnTokens.SeparateTagBlockAsWritten | extention/popup.js:600-605 | the block separation as written leaves a text without a tag block unchanged |
| PgnTokens.SeparateTagBlock | extention/popup.js:600-605 | the corrected block separation leaves a text without a tag block unchanged |
| PgnTokens.SeparateKeepsText | extention/popup.js:604 | trimming around the inserted blank line changes white space only |
| PgnTokens.SeparateKeepsVisibleText | extention/popup.js:600-605 | the corrected separation keeps every visible character of the PGN in order |
| PgnTokens.SeparateAsWrittenAtStart | extention/popup.js:600-605 | when the tag block is at the very start, as written and corrected agree |
| PgnTokens.SeparateAsWrittenRepeatsBlock | extention/popup.js:600-605 | on `"\n\n[a]\nb"` the code as written repeats a fragment of the block, unlike the corrected version |
| PgnTokens.NormalizePgn | extention/popup.js:593-609 | with the tag-block step as corrected: the normalised PGN starts and ends with no white space, and an empty input gives the empty string |
| PgnTokens.NormalizePgnAsWritten | extention/popup.js:593-609 | with the tag-block step as written: the same two properties |
| PgnTokens.NormalizeAsWrittenAtStart | extention/popup.js:600-605 | when the prepared text has no tag block, or one that opens it, the function as written and the corrected one give the same text |
| PgnTokens.NormalizeOfPlain | extention/popup.js:593-609 | a headerless PGN that no rewrite applies to (no CR LF, dropped header line, `&nbsp;`, zero-width character or run of three line ends) normalises to its own `trim`, by either version |
| PgnTokens.StripComments | extention/popup.js:621-625 | after the tag-line, comment and NAG passes no `{` is left with a `}` after it, and no `$` directly before a digit |
| PgnTokens.StripVariations | extention/popup.js:626 | after the loop no parenthesised variation without nested parentheses remains, and the text is no longer |
| PgnTokens.SpaceRunReplaceClean | extention/popup.js:627 | replacing every `\s+` run by one space leaves spaces as the only white space, never two in a row, and the output starts with a space exactly when the input starts with white space |
| PgnTokens.Collapse | extention/popup.js:627 | the collapsed text has only single spaces as white space and none at its ends |
| PgnTokens.SplitOnSpacesOnly | extention/popup.js:627-631 | splitting the collapsed text on spaces gives pieces free of white space |
| PgnTokens.SanFilter | extention/popup.js:629-638 | every kept token is a move word of the input (not a move number, dots or a result); no more tokens than words |
| PgnTokens.SanFilterStopsAtResult | extention/popup.js:635 | everything from the first result token on is dropped |
| PgnTokens.SanFilterKeepsMoves | extention/popup.js:631-637 | a list of move words is kept whole and in order |
| PgnTokens.SanFilterSkips | extention/popup.js:632-634 | an empty piece, a move number or dots can be taken out of the word list anywhere without changing the tokens |
| PgnTokens.MoveWords | extention/popup.js:631-637 | the move words of a list are move words of that list, no more of them than words |
| PgnTokens.FirstResult | extention/popup.js:635 | the position of the first result marker, or the length when there is none: no marker before it, a marker at it |
| PgnTokens.SanFilterSpec | extention/popup.js:629-638 | the token loop keeps exactly the move words before the first result marker, in order |
| PgnTokens.TakeSanWords | extention/popup.js:629-638 | the token loop computes the filter exactly |
| PgnTokens.ExtractSanTokens | extention/popup.js:619-639 | the tokens are `SanTokens(pgn)`: the filter of the collapsed, comment- and variation-free PGN, normalised with the corrected tag-block step; each is a white-space-free move word |
| PgnTokens.JoinPlain | extention/popup.js:627-631 | plain words joined by one space give plain, single-spaced text with plain characters at both ends |
| PgnTokens.SpaceRunOfSingleSpaced | extention/popup.js:627 | the `\s+` replacement leaves text whose only white space is single spaces unchanged |
| PgnTokens.SplitOnJoin | extention/popup.js:631 | splitting on spaces a non-empty list of space-free words joined by spaces gives the words back |
| PgnTokens.JoinUnique | extention/popup.js:631 | two non-empty lists of space-free words with the same space-joined text are the same list |
| PgnTokens.PlainNormalizes | extention/popup.js:593-609 | plain text with plain characters at both ends is already normalised |
| PgnTokens.PlainPassesThrough | extention/popup.js:620-627 | the tag-line, comment, NAG, variation and white-space passes leave plain single-spaced text unchanged |
| PgnTokens.SanTokensOfWords | extention/popup.js:619-639 | the tokens of plain words joined by spaces are the token loop run over those words |
| PgnTokens.SanTokensRoundTrip | extention/popup.js:619-639 | plain move words joined by spaces are tokenized back to exactly those words, in order |
| PgnTokens.SanTokensSkipNumbers | extention/popup.js:619-639 | with move numbers and dots among plain words and no result marker, the tokens are the move words, in order |
| PgnTokens.SanTokensIdempotent | extention/popup.js:619-639 | tokenizing the space-joined tokens again gives the same tokens, when every token is plain |
| Analysis.PvMap | extention/popup.js:422-425 | each rank in `pvMap` maps to a line of that rank |
| Analysis.CollectPvLines | extention/popup.js:422-425 | the `for ... of preArr` loop builds exactly `PvMap` |
| Analysis.PvMapKeys | extention/popup.js:422-425 | the ranks in `pvMap` are exactly the ranks of the candidate lines |
| Analysis.Loss | extention/popup.js:409-411 | the loss is the score drop clamped to 0..1000: the drop when in range, 0 when the move did not lose, 1000 when it dropped more |
| Analysis.Step | extention/popup.js:392-440 | a record is made exactly when the move is legal; it carries the ply, SAN and side to move, a loss in 0..1000 and a pre-move score in ±1000, and a move the engine gave no line for scores as the pre-move score with no loss |
| Analysis.Records | extention/popup.js:391-445 | the loop makes at most one record per SAN token |
| Analysis.RecordsShape | extention/popup.js:413-436 | record `k` is ply `k + 1` of the SAN list, for that SAN, with a loss in 0..1000 |
| Analysis.RecordsAlternate | extention/popup.js:394 | when the rules alternate sides, the first record is the starting side's and the colours alternate |
| Analysis.RecordsStop | extention/popup.js:401-402 | an illegal move stops the run: no record for it or after it |
| Analysis.OfColor | extention/popup.js:440 | a side's list holds only records of that side, taken from the game's records |
| Analysis.OfColorPartition | extention/popup.js:386-440 | White's and Black's lists together hold every record exactly once |
| Analysis.RecordsNeverMiss | extention/popup.js:396-419 | no record of an analysis run is graded miss |
| Analysis.CountTag | extention/popup.js:453 | a grade's count is at most the number of moves |
| Analysis.CountsCoverAll | extention/popup.js:459-469 | the nine counts add up to the number of moves |
| Analysis.SumLossBounds | extention/popup.js:450 | the summed loss lies between 0 and 1000 times the move count |
| Analysis.BySide | extention/popup.js:447-471 | the summary counts every move, its accuracy lies in 0..100, and a side without moves has average loss 0 and accuracy 100 |
| Analysis.AcplBounds | extention/popup.js:450-457 | the rounded average loss lies in 0..1000 |
| Analysis.StartFen | extention/popup.js:374-375 | a start position is used exactly when the `SetUp` header is `1` and the `FEN` header is non-empty, and it is that `FEN` |
| Analysis.PlayOne | extention/popup.js:392-440 | one loop iteration computes the record and next position `Step` specifies |
| Analysis.Replay | extention/popup.js:384-445 | the loop's `perMove` is the game's records, and the two side lists are its White and Black records |
| Analysis.RunAnalysis | extention/popup.js:372-474 | the run fails with the no-moves error exactly when the PGN has no SAN tokens (read with the corrected tag-block step); otherwise it returns the headers, both side summaries, the records and the start position |
| Board.BareNodes | extention/popup.js:995-999 | a PGN-only board gets one node per SAN token, numbered from ply 1, with no candidate lines |
| Board.PositionAtNext | extention/popup.js:840-842 | replaying `k + 1` moves is replaying `k` moves and then move `k` |
| Board.BoardMatchesRecords | extention/popup.js:840-842 | the board's replay of the analysed game reaches, before each move, a position where the recorded side is to move |
| Board.SqToXY | extention/popup.js:698-704 | a square gets coordinates exactly when its second character is a digit |
| Board.SqToXYOnGrid | extention/popup.js:698-704 | a square `a1`..`h8` lands on the canvas grid, at a multiple of the square size |
| Board.SqToXYFlip | extention/popup.js:701-702 | flipping the board mirrors a square's coordinates through the centre |
| Board.SqToXYInjective | extention/popup.js:698-704 | distinct squares get distinct coordinates |
| Board.Cursor.constructor | extention/popup.js:690-696 | the board starts empty, at ply 0, unflipped, showing candidate line 1 |
| Board.Cursor.Shown | extention/popup.js:859-864 | the line shown is the selected rank's line of the last played move; nothing at ply 0; something whenever that rank exists |
| Board.Cursor.Indicator | extention/popup.js:875 | the indicator reads `current/total` in decimal |
| Board.Cursor.GotoPly | extention/popup.js:837-842 | the ply is clamped to the game, nothing else changes, and the position is the game replayed up to it |
| Board.Cursor.BuildBoard | extention/popup.js:911-923 | a new board holds the given game, unflipped, at ply 0 with line 1 selected, and shows no line |
| Board.Cursor.First | extention/popup.js:962 | goes to ply 0 |
| Board.Cursor.Prev | extention/popup.js:963 | goes one ply back, staying at 0 at the start |
| Board.Cursor.Next | extention/popup.js:964 | goes one ply forward, staying at the end at the last move |
| Board.Cursor.Last | extention/popup.js:965 | goes to the last ply |
| Board.Cursor.SetFlipped | extention/popup.js:967-971 | sets the orientation and redraws the same ply |
| Board.Cursor.SelectPV | extention/popup.js:972-977 | selects the parsed rank, or 1 when it is missing or zero, and redraws the same ply |
| Board.Cursor.OpenBoard | extention/popup.js:979-1004 | opens the analysed game when there is one; otherwise the PGN's SAN tokens (read with the corrected tag-block step) as bare nodes, or refuses with nothing changed when there are none |
| Wrap.WordsOfJoinedLines | server/src/index.js:177 | joining lines with a newline keeps every line's tokens, in order |
| Wrap.Fill | server/src/index.js:166-176 | no pushed line is empty, and there are no more lines than tokens: each line holds at least one |
| Wrap.FillWords | server/src/index.js:166-176 | the loop places every token exactly once, in order |
| Wrap.WrapToWidth | server/src/index.js:161-178 | the wrapped text has exactly the input's tokens, in order: none is split, lost or added |
| Wrap.WrapIdempotent | server/src/index.js:161-178 | wrapping the wrapped text again changes nothing |
| Wrap.WrapOfBlank | server/src/index.js:161-178 | an empty or all-white-space text wraps to the empty string |
| Wrap.FillLines | server/src/index.js:166-176 | every pushed line is non-empty, free of newlines and of white space at its ends, and fits the width unless it is one token |
| Wrap.FillGreedy | server/src/index.js:169-173 | a line is closed only when the next token would not have fitted after it |
| Wrap.WrapLayout | server/src/index.js:161-178 | the lines hold the input's tokens in order, are clean, fit the width unless one long token, and are filled greedily |
| Wrap.ManyTokensFit | server/src/index.js:169 | a line of two or more tokens fits the width |
| Wrap.ExpressWrapToWidth | server/src/index.js:161-178 | the Express loop (testing `line.length === 0`) computes `WrapToWidth` |
| Wrap.EdgeWrapToWidth | edge-server/src/utils/wrapToWidth.ts:1-16 | the edge loop (testing `!line`) computes the same `WrapToWidth` |
| MovesText.BraceFreeIff | server/src/index.js:99 | a text is free of `{...}` comments exactly when `/\{[^}]*\}/` finds no match in it |
| MovesText.CommentRemovalBraceFree | server/src/index.js:99 | after the comment removal no `{` is followed by a `}` |
| MovesText.NagFreeIff | server/src/index.js:101 | a text is free of glyphs exactly when `/\$\d+/` finds no match in it |
| MovesText.NagRemovalNagFree | server/src/index.js:101 | after the glyph removal no `$` is followed by a digit |
| MovesText.SpaceReplaceKeepsNagFree | server/src/index.js:103-104 | replacing white-space runs by a space cannot create a glyph |
| MovesText.SpaceTabRunsSingle | server/src/index.js:103 | after `[ \t]+` becomes one space, no two spaces or tabs are adjacent |
| MovesText.NewlineRunsGone | server/src/index.js:104 | after `\n+` becomes one space, no newline remains |
| MovesText.StripAnnotationsClean | server/src/index.js:95-101 | after the clock, `{%`, comment and glyph removals, no comment and no glyph remains |
| MovesText.FoldNewlinesClean | server/src/index.js:104 | folding newlines keeps the text comment- and glyph-free and removes every newline |
| MovesText.FoldSpacesClean | server/src/index.js:103 | folding spaces and tabs on a newline-free text leaves it single-spaced and clean |
| MovesText.TrimKeepsCleaned | server/src/index.js:105 | trimming keeps a cleaned text cleaned |
| MovesText.CleanMoves | server/src/index.js:92-105 | the corrected clean-up leaves no comment, no glyph, no newline and no double space |
| MovesText.SpaceReplaceKeepsWords | server/src/index.js:103-104 | replacing each run of spaces and tabs, or of newlines, by one space keeps the words, whatever text precedes |
| MovesText.CollapseKeepsWords | server/src/index.js:103-105 | both orders of the white-space folding keep exactly the words of the text |
| MovesText.CleanMovesAsWritten | server/src/index.js:92-105 | the clean-up as written gives the same words as the corrected one |
| MovesText.CollapseAsWrittenDoublesSpace | server/src/index.js:103-104 | as written, `"a \nb"` becomes `"a  b"`, two spaces in a row |
| MovesText.ResultTokenEnd | server/src/index.js:110 | a result token found at a position ends after it, inside the text |
| MovesText.FirstResultTail | server/src/index.js:110 | the search for a trailing result returns a position at or after its start |
| MovesText.FirstResultTailLeftmost | server/src/index.js:110 | the search returns the leftmost position where `\s*(result)\s*$` matches |
| MovesText.StripTrailingResult | server/src/index.js:110 | stripping keeps a prefix of the movetext |
| MovesText.StripTrailingResultSpec | server/src/index.js:110 | what is cut is the leftmost trailing-result match; an unchanged text has no trailing result |
| MovesText.EnsureResultUnfinished | server/src/index.js:108 | a game whose result is `*` or missing keeps its movetext as it is |
| MovesText.AppendShape | server/src/index.js:111 | `${moves} ${result}`.trim() on a trimmed movetext is the moves, one space, the result, or the result alone |
| MovesText.EnsureResultShape | server/src/index.js:107-112 | with a final result, the movetext is the stripped, trimmed moves followed by one space and the result |
| MovesText.AppendResultShape | edge-server/src/index.ts:111-114 | the append step reduces to the same shape |
| MovesText.AppendedTail | server/src/index.js:110 | the appended text ends with a trailing result starting after the moves |
| MovesText.AppendedNoEarlierTail | server/src/index.js:110 | no position inside the moves starts a trailing result of the appended text |
| MovesText.StripAppended | server/src/index.js:110-111 | stripping the trailing result of the appended text gives back the moves |
| MovesText.EnsureResultIdempotent | server/src/index.js:107-112 | ensuring the result twice is ensuring it once: the result appears exactly once at the end |
| MovesText.AppendedLastToken | server/src/index.js:111 | the last token of the appended text is the result |
| MovesText.EnsureResult | server/src/index.js:107-112 | with a final result, the movetext's last token is that result |
| MovesText.ResultTokenEndIff | server/src/index.js:110 | a result token is found between two positions exactly when the text between them is `1-0`, `0-1`, `1/2-1/2` or `*` |
| MovesText.StripResultWords | server/src/index.js:110 | stripping a trailing result changes the words only in the last word: a last word that is a result is dropped, one that ends in a result loses that ending |
| MovesText.EnsureResultWords | server/src/index.js:107-112 | the words after the result rule depend only on the words before it: the last word loses a trailing result and the result's words follow |
| MovesText.FixEndTime | server/src/index.js:86-90 | the end time stays empty exactly when it was empty; otherwise it carries a GMT offset, is unchanged if it had one, and always starts with the original |
| MovesText.FixEndTimeIdempotent | server/src/index.js:86-90 | fixing the end time twice is fixing it once |
| Archive.ArchiveUrl | server/src/index.js:20-21 | the archive URL embeds the month padded to at least two characters, ending with the month as given |
| Archive.CheckQuery | server/src/index.js:12-21 | the query fails with status 400 exactly when username, month or year is missing or empty; otherwise it yields the archive URL |
| Archive.Normalize | server/src/index.js:33 | the normalised game holds no carriage return |
| Archive.SplitParts | server/src/index.js:36-39 | with a blank line the game is header, blank line, movetext; without one it is all header and no movetext |
| Archive.HeaderPartHasNoBlankLine | server/src/index.js:36-38 | the header part holds no blank line |
| Archive.HeaderTags | server/src/index.js:118-133 | the header lines come in the fixed order, `EndTime` present only when the end time is non-empty, `Link` last |
| Archive.NamesDistinct | server/src/index.js:118-133 | no header name is printed twice |
| Archive.HeaderNamesWellFormed | server/src/index.js:118-133 | every printed name is a non-empty run of word characters |
| Archive.FieldQuoteFree | server/src/index.js:50-63 | a field read from quote-free tags with a quote-free default is quote-free |
| Archive.HeaderValuesQuoteFree | server/src/index.js:50-63 | every printed value is quote-free when the tags and the link are |
| Archive.HeaderWellFormed | server/src/index.js:118-133 | every printed header line is a well-formed tag |
| Archive.EndTimeQuoteFree | server/src/index.js:86-90 | the fixed end time is quote-free when the tags are |
| Archive.HeaderReadBack | server/src/index.js:118-135 | scanning the printed header gives back every printed tag and no other name |
| Archive.FixedFieldsRead | server/src/index.js:121-133 | read back, whatever the end time, `Round` is `?`, `Result` is the game's result, `Link` the normalised link |
| Archive.FixedFieldsOfReadBack | server/src/index.js:121-133 | read back, `Round` is `?`, `Result` is the game's result, `Link` the normalised link |
| Archive.EndTimeRead | server/src/index.js:132 | read back, `EndTime` is present exactly when the end time is non-empty, and then equals it |
| Archive.EndTimeOfReadBack | server/src/index.js:86-90 | the same for the end time the server computes |
| Archive.HeaderFields | server/src/index.js:50-135 | a client scanning the served header finds `Round` `?`, the result or `*`, an `EndTime` with a GMT offset exactly when an end or UTC time was given, and the link |
| Archive.FindLiveId | server/src/index.js:80-81 | a live-game id found in the header part is a non-empty run of digits |
| Archive.Fallback | server/src/index.js:79-83 | the fallback link carries `move=0`, and is quote-free when the random id is |
| Archive.ServedMovesTokens | server/src/index.js:107-115 | a finished game's served movetext ends with its result; an unfinished one keeps exactly the cleaned tokens |
| Archive.ServedMovesOrderInvisible | server/src/index.js:92-115 | the served movetext built on the clean-up as written equals the one built on the corrected clean-up |
| ExpressServer.AnchoredLiveId | server/src/index.js:68-70 | an accepted link starts with the live-game prefix followed by its non-empty digit id |
| ExpressServer.AnchoredQuery | server/src/index.js:68-70 | any quote-free query after the id is accepted |
| ExpressServer.RejectsPath | server/src/index.js:68-70 | a link with anything but digits or `?` after the id is refused |
| ExpressServer.NormalizeLink | server/src/index.js:65-84 | every served link contains `move=0`, accepted or not, and is quote-free when its inputs are |
| ExpressServer.AnchoredAfterAppend | server/src/index.js:72-76 | appending `?move=0` or `&move=0` keeps the link accepted, with the same id |
| ExpressServer.AppendedMoveParam | server/src/index.js:75 | an appended `move=0` parameter is recognised as one |
| ExpressServer.NoMoveParamInQuery | server/src/index.js:75 | `move=0` inside another parameter's value is not a `move=0` parameter |
| ExpressServer.AppendedIsFixed | server/src/index.js:71-77 | a link the server has completed is left as it is |
| ExpressServer.NormalizeLinkIdempotent | server/src/index.js:65-84 | for an accepted link, the id is the link's, the new link extends the old, and normalising again changes nothing |
| ExpressServer.CanonicalLink | server/src/index.js:73-74 | a bare live-game link gets `?move=0` and its digits as id |
| ExpressServer.FormatGame | server/src/index.js:31-141 | the per-game formatter computes `Formatted` |
| ExpressServer.Formatted | server/src/index.js:31-141 | the served PGN is the printed header, a blank line and the wrapped movetext; read back, when the random id is quote-free, its header has `Round` `?`, the result, `EndTime` exactly when an end time was given, and a link with `move=0` |
| EdgeServer.LiveIdPrefix | edge-server/src/index.ts:80-82 | a matched link starts with the live-game prefix and its id, the longest digit run there |
| EdgeServer.AcceptsExpressLinks | edge-server/src/index.ts:80-82 | every link the Express server accepts is accepted here, with the same id |
| EdgeServer.NormalizeLink | edge-server/src/index.ts:77-93 | every served link contains `move=0`, and is quote-free when its inputs are |
| EdgeServer.PrefixAfterAppend | edge-server/src/index.ts:80-86 | appending text that does not start with a digit keeps the link matched, with the same id |
| EdgeServer.NormalizeLinkIdempotent | edge-server/src/index.ts:77-93 | for a matched link, the id is the link's, the new link extends the old, and normalising again changes nothing |
| EdgeServer.CanonicalLink | edge-server/src/index.ts:83-87 | on a bare live-game link both servers give the same id and the same `?move=0` link |
| EdgeServer.MoveZeroTextInQuery | edge-server/src/index.ts:85-86 | a query holding the text `move=0` inside another parameter is left alone here, while the Express server appends `&move=0` |
| EdgeServer.PathAfterId | edge-server/src/index.ts:80-87 | a path after the id gets `?move=0` here, while the Express server refuses the link and falls back |
| EdgeServer.FormatGame | edge-server/src/index.ts:49-139 | the per-game formatter computes `Formatted` |
| EdgeServer.Formatted | edge-server/src/index.ts:49-139 | the served PGN is the printed header, a blank line and the wrapped movetext; read back, when the random id is quote-free, its header has `Round` `?`, the result, `EndTime` exactly when an end time was given, and a link with `move=0` |

## Left out

- The `chess.js` rules library: its moves, turns and FEN are the `Oracles` functions. `toSANListFromPV` and `uciToSAN` (popup.js:822-834, 901-909) only call it and are not modelled.
- The engine worker and UCI plumbing (`initEngine`, `post`, the `setoption`/`go` commands of `analyzeFenMulti` and `analyzeFenForMove`). The model has the lines the engine answers with, as `Oracles.candidates` and `Oracles.evalMove`. The message stream of `onceBestWithMulti` is a sequence of strings.
- Drawing and the DOM: the canvas (`drawBoardBase`, `drawPieces`, `highlightSquares`, `drawArrow`, the last-move highlight), `renderMiniMoves`, `renderSummary`, `renderBadges`, `chunkMoves`, `tagLabel`, `preloadPieces`, the progress bar, and the eval text (`toFixed(2)`). None of them decides anything the model states.
- Chrome messaging and the local archive fetch (`getActiveTabId`, `sendMessageToTab`, `ensureContentScript`, `getGameContextFromPage`, `fetchGamesFromLocalApi`, `loadPgnViaLocalApi`, the button handlers, `waitReady`): browser I/O.
- The servers' HTTP layer: the frameworks, the `fetch`/`axios` call, the edge server's 404 and upstream-status replies, the error handlers and the JSON replies. This is network I/O. `Archive.CheckQuery` models the 400 reply.
- The split of a monthly archive into games (server/src/index.js:27-29, edge-server/src/index.ts:45-47) is a regular-expression split at zero-width lookahead positions. The model formats one game's text; the split that produces those texts is not modelled.
- `Math.random().toString(36)` becomes the `randomId` parameter.
- A query value given twice (Express's `req.query` then yields an array) is not modelled. Query values are optional strings.
- JavaScript numbers: scores and losses are integers (centipawns), and the average loss is an exact rational.
- Scoring.AcplToAccuracy: computes `100 - 0.22 * acpl` exactly. The binary rounding of `0.22` is not modelled.
- EngineLines.ParseInfo: ranks and scores are unbounded integers. `parseInt`'s loss of precision beyond 2^53 is not modelled.
- Patterns.MatchAt: its contract only says that a match makes progress. Each scanner's agreement with its regular expression is argued in its comments and proved through the lemmas that use it, not in one contract.
- PgnTokens.NormalizePgn: uses the corrected tag-block step, not the one in the source (`PgnTokens.NormalizePgnAsWritten` models the code as written). So `PgnTokens.ExtractSanTokens`, `Analysis.RunAnalysis` and `Board.Cursor.OpenBoard`, which read SAN tokens through it, match the source only when the prepared text has no tag block or one that starts at index 0 (`PgnTokens.NormalizeAsWrittenAtStart`). When something precedes the block, for instance the blank lines left where a leading `Link`, `ECO` or `EndTime` line was dropped (raw `[Link "x"]\n[ECO "y"]\n[a]\nb`), the source repeats part of the block in the movetext (there the SAN tokens are `]` and `b`) and the model does not (only `b`).
- Wrap.WrapToWidth: lengths are counted in characters (Unicode scalar values). JavaScript's `.length` counts UTF-16 code units. The 80-column test (server/src/index.js:169, edge-server/src/utils/wrapToWidth.ts:8) and `Text.PadStart` (`padStart(2, "0")`, server/src/index.js:20) therefore differ from the source on text outside the Basic Multilingual Plane.
- PgnTokens.ExtractSanTokens: the round trip and the idempotence of tokenizing (`PgnTokens.SanTokensRoundTrip`, `PgnTokens.SanTokensIdempotent`) are proved only for plain tokens, which hold no white space, `[`, `{`, `(`, `;`, `$`, `&` or zero-width character. They fail for other tokens: the text `[a] 1-0` gives the token `[a]`, but `[a]` on a line of its own is a tag line, which the first pass (`/^\s*\[[^\]]+\]\s*$/gm`, extention/popup.js:621) removes, so tokenizing it again gives no token.
- The tags object is a map: prototype quirks of a plain JavaScript object (a tag named `__proto__`) are not modelled.

## Findings

| source | as written | input that shows it | evidently intended | confidence | as-written member | corrected member |
|---|---|---|---|---|---|---|
| extention/popup.js:600-605 | the tag block found by the `m`-flag match, which may start after the beginning of the text, is cut off with `s.slice(tagBlock.length)`, counted from index 0 | `"\n\n[a]\nb"` gives `"[a]\n\n]\nb"`: a fragment of the block is repeated | the rest after the block's end, giving `"[a]\n\nb"`, with no visible character lost or repeated | high; not executed | PgnTokens.SeparateAsWrittenRepeatsBlock | PgnTokens.SeparateKeepsVisibleText |
| server/src/index.js:103-104 | spaces and tabs are folded before newlines, so a space before a newline survives next to the newline's replacement | `"a \nb"` gives `"a  b"` | every gap between tokens becomes one space | medium (the later wrap re-splits on white space and hides it); not executed | MovesText.CollapseAsWrittenDoublesSpace | MovesText.CleanMoves |

The second finding also holds for edge-server/src/index.ts:107-108. The model's servers use the corrected clean-up, `MovesText.CleanMoves`, with newlines folded first. Because `wrapToWidth` splits on any white space afterwards, the served movetext is the same either way: `Archive.ServedMovesOrderInvisible` proves it.

For the first finding, `PgnTokens.NormalizePgn` uses the corrected step and `PgnTokens.NormalizePgnAsWritten` the step as written. `PgnTokens.NormalizeAsWrittenAtStart` proves that they agree whenever the tag block opens the text.
