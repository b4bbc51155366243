# JSON extractor and viewer: a verified model of the recovery and query core

`JSON_extractor_and_viewer.py` is a small viewer for JSON that has been pasted in
damaged form. Typical inputs are log lines prefixed with an index (`0: ...`), JSON
wrapped in one or two extra layers of quotes, escaped JSON inside a string, several
objects on separate lines, or several objects joined by commas. The program
normalises such text into one primary value, a list of recovered values and a list
of error messages. It then offers three queries on the result:

- a per-kind node census;
- a case-insensitive search that reports the paths of matching keys and values;
- extraction of a value by a dotted, bracketed path such as `a.b[2].c`.

This project models that core in Dafny, one module per concern:

| module | file | models |
|---|---|---|
| `JsonValues` | values.dfy | the JSON value tree, the outcomes of the foreign parser and codec |
| `Text` | text.dfy | `strip`, `lower`, `in`, `split`, `str(n)`, `int(digits)` |
| `StrictParse` | strict.dfy | `looks_like_json`, `try_json_loads_once` |
| `EscapeDecoder` | decoder.dfy | `decode_escaped_json` and its three regular-expression cleanups |
| `Segmenter` | segmenter.dfy | `explode_lines` |
| `Normalizer` | normalizer.dfy | `normalize_input_to_json` |
| `Search` | search.dfy | `search_json` |
| `PathExtract` | extract.dfy | `extract_by_path` |
| `HitPaths` | resolve.dfy | how `search_json` and `extract_by_path` fit together |
| `NodeStats` | stats.dfy | `type_label`, `count_nodes` |

The functions that only compute are Dafny functions. The source's loops become
methods, each proved equal to its function:

- the segment loop of `normalize_input_to_json`;
- the child loop and the de-duplication loop of `search_json`;
- the token loops of `extract_by_path`.

The `stats` dictionary that `count_nodes` updates in place becomes the class
`NodeCounter`.

`json.loads` and the `unicode_escape` codec are not modelled. They are parameters: a
`Foreign` value holding a function from text to `Parsed(value)` or
`Rejected(message)`, and a function from text to the decoded text or `None` when the
codec raises. Every property below holds for every such pair of functions.

## Model

| member | source | states |
|---|---|---|
| StrictParse.TryLoadsOnce | JSON_extractor_and_viewer.py:18-26 | The result is None exactly when the parser rejects the text or parses it to JSON null. A real value comes with an empty message, and a rejection's message is passed on unchanged. |
| StrictParse.LooksLikeJson | JSON_extractor_and_viewer.py:14-16 | Text that looks like JSON is at least two characters long once stripped: a lone `{` or `[` is not enough, because the closing bracket must be a character of its own. |
| StrictParse.LooksLikeJsonStartsWithBracket | JSON_extractor_and_viewer.py:14-16 | Text that passes the bracket-shape test is not blank, and its first non-whitespace character is `{` or `[`. |
| EscapeDecoder.IndexPrefixIsCanonical | JSON_extractor_and_viewer.py:42 | Where a leading index prefix (whitespace, digits, whitespace, colon) starts and ends is fixed by the text. The greedy scan finds exactly those positions. |
| EscapeDecoder.StripIndexPrefix | JSON_extractor_and_viewer.py:42 | The substitution only ever removes a prefix: the result is a suffix of the text. |
| EscapeDecoder.StripIndexPrefixChangesOnlyPrefixed | JSON_extractor_and_viewer.py:42 | The index-prefix substitution changes the text if and only if the text starts with an index prefix. |
| EscapeDecoder.StripIndexPrefixRemovesOnePrefix | JSON_extractor_and_viewer.py:42 | For any index prefix the text starts with, the substitution removes exactly that prefix and the whitespace after its colon, and keeps the rest. |
| EscapeDecoder.StripsOnlyOneIndexPrefix | JSON_extractor_and_viewer.py:42 | The pattern is anchored, so of two stacked prefixes only the first goes: `0: 1: x` becomes `1: x`. |
| EscapeDecoder.StripQuoteLayer | JSON_extractor_and_viewer.py:45-47 | The text changes exactly when it starts and ends with the same quote character. It then loses exactly that one pair; a lone quote character becomes empty. |
| EscapeDecoder.FirstCandidate | JSON_extractor_and_viewer.py:42-47 | The first attempt parses the prefix-stripped, trimmed text, either as it is or without one matching outer quote pair. |
| EscapeDecoder.FirstCandidateOfPrefixedText | JSON_extractor_and_viewer.py:42-47 | For text that starts with an index prefix, the first attempt parses what follows the prefix and the whitespace after its colon, trimmed, with at most one quote layer removed. |
| EscapeDecoder.FirstCandidateOfPlainText | JSON_extractor_and_viewer.py:42-47 | For text without an index prefix, the first attempt parses the trimmed text with at most one quote layer removed. |
| EscapeDecoder.FirstCandidateKeepsInnerQuotes | JSON_extractor_and_viewer.py:45-47 | Only the outer quote pair is removed: whatever lies inside it, quotes included, reaches the first attempt intact. |
| EscapeDecoder.LastCloser | JSON_extractor_and_viewer.py:71 | The greedy `(.*)` backtracks to the last position, up to the first line feed, where `""` followed only by whitespace ends the text; otherwise there is no match. |
| EscapeDecoder.CollapseDoubledQuotes | JSON_extractor_and_viewer.py:71 | The text is either left alone or replaced by a strictly shorter text that starts and ends with `"`. |
| EscapeDecoder.ScannedDoubledQuotes | JSON_extractor_and_viewer.py:71 | When the doubled-quote substitution changes the text, the text has the shape whitespace, `""`, a body without line feeds, `""`, whitespace. |
| EscapeDecoder.DoubledQuotesCollapse | JSON_extractor_and_viewer.py:71 | Any text with that shape is shortened, to the longest body that can be closed by `""`, with one `"` on each side. |
| EscapeDecoder.CollapseDoubledQuotesSpec | JSON_extractor_and_viewer.py:71 | The doubled-quote substitution changes the text if and only if the text has the doubled-quote shape. |
| EscapeDecoder.CollapseKeepsLongestBody | JSON_extractor_and_viewer.py:71 | For every match of the shape, the result is `"` + the longest matching body + `"`. |
| EscapeDecoder.SecondCandidate | JSON_extractor_and_viewer.py:66-71 | The second attempt parses the first candidate, trimmed with at most one more quote layer removed; then either as it is, or collapsed to a shorter text wrapped in `"`. |
| EscapeDecoder.DoubleDecode | JSON_extractor_and_viewer.py:54-62 | A non-null value stays non-null. A string is replaced only by what its content parses to, and it is replaced whenever that content parses to something other than null. |
| EscapeDecoder.FirstParsed | JSON_extractor_and_viewer.py:50-93 | The index returned is that of the first candidate text whose parse is not None. Every earlier candidate parses to None. |
| EscapeDecoder.DecodeEscaped | JSON_extractor_and_viewer.py:28-95 | A returned value is non-null exactly when the message is empty. The only exception that escapes is the codec's `UnicodeDecodeError`. |
| EscapeDecoder.DecodeEscapedFollowsLadder | JSON_extractor_and_viewer.py:42-95 | The decoder settles on the first candidate whose parse is not None and double-decodes it. It raises exactly when the first two candidates fail and the codec rejects the second. When all three fail, the value is None and the message lists the three parse errors in order. |
| EscapeDecoder.BracketedTextHasNoIndexPrefix | JSON_extractor_and_viewer.py:42 | The index-prefix step leaves bracket-shaped text unchanged. |
| EscapeDecoder.BracketedTextIsTriedFirst | JSON_extractor_and_viewer.py:42-52 | Bracket-shaped text reaches the first parse attempt only trimmed: no index prefix or quote layer is removed from it. |
| Segmenter.BoundaryEndIsMatch | JSON_extractor_and_viewer.py:117 | What the boundary scan reports at a position is a match of `}\s*,\s*{` there. |
| Segmenter.BoundaryEndFindsEveryMatch | JSON_extractor_and_viewer.py:117 | Every match of `}\s*,\s*{` is found by the scan, with the same end. |
| Segmenter.SplitFromFirstPiece | JSON_extractor_and_viewer.py:117 | The first piece runs from the piece start to the first boundary: no boundary starts inside it, and when the text was split a boundary starts right after it. Without a boundary it is the rest of the text. |
| Segmenter.SplitFromLastPiece | JSON_extractor_and_viewer.py:117 | The last piece is a suffix of the text. When the text was split, the last piece follows the `{` that ends a boundary. |
| Segmenter.SplitFromLastBoundary | JSON_extractor_and_viewer.py:117 | The last piece follows the last boundary: when the text was split, some boundary ends exactly where the last piece starts, and no boundary starts inside the last piece. |
| Segmenter.SplitObjectsEnds | JSON_extractor_and_viewer.py:117 | The first piece is the text before the first boundary (no boundary starts inside it, one starts right after it), or the whole text when there is no boundary. The last piece is the text after the last boundary: a boundary ends where it starts, and none starts inside it. |
| Segmenter.SplitFromCuts | JSON_extractor_and_viewer.py:117 | The scan finds where each of its pieces lies: every piece is the text between two consecutive boundaries (the first from the start, the last to the end), a boundary ends where each next piece starts, and no boundary starts inside a piece. |
| Segmenter.CutsDetermineSplit | JSON_extractor_and_viewer.py:117 | Any pieces that lie that way are exactly the scan's: number, order and contents. |
| Segmenter.SplitObjectsIsTheBoundarySplit | JSON_extractor_and_viewer.py:117 | `re.split` on `}\s*,\s*{` gives the one list of pieces that lies between consecutive boundaries, and no other list does. |
| Segmenter.CutsAreBraced | JSON_extractor_and_viewer.py:117 | Around each boundary the text holds the `}` that ends one piece and the `{` that starts the next. |
| Segmenter.SplitWithoutCloserIsWhole | JSON_extractor_and_viewer.py:117 | Text containing no `}` is not split. |
| Segmenter.NonBlankLines | JSON_extractor_and_viewer.py:111 | Every line kept is non-blank and contains no line break. |
| Segmenter.NonBlankAppend | JSON_extractor_and_viewer.py:111 | The blank-line filter keeps order: filtering a concatenation is concatenating the filtered parts. |
| Segmenter.NonBlankOfOne | JSON_extractor_and_viewer.py:111 | A single line is kept exactly when it is not blank. |
| Segmenter.NonBlankKeepsEveryNonBlank | JSON_extractor_and_viewer.py:111 | No non-blank piece is dropped by the filter. |
| Segmenter.NonBlankLinesKeepsEveryLine | JSON_extractor_and_viewer.py:111 | Every non-blank line of the text is among the lines kept. |
| Segmenter.SingleLineText | JSON_extractor_and_viewer.py:111 | Text without line breaks is one line, which is kept exactly when it is not blank. |
| Segmenter.ReassembleAsWritten | JSON_extractor_and_viewer.py:118-120 | The pieces are kept in number and order. Only the first piece gets `}` back, and every later piece gets only `{` back. |
| Segmenter.ReassembleIntendedPieces | JSON_extractor_and_viewer.py:118-120 | The corrected reassembly keeps the pieces in number and order: `}` goes back on every piece but the last, `{` on every piece but the first. |
| Segmenter.ExplodeLines | JSON_extractor_and_viewer.py:97-123 | There is always at least one segment, chosen in this order. (1) The stripped text alone, when it parses strictly to a non-null value. (2) Otherwise the non-blank lines, when there are several. (3) Otherwise the pieces of the boundary split, reassembled as the code does it. (4) Otherwise the stripped text alone. |
| Segmenter.BlankTextIsOneEmptySegment | JSON_extractor_and_viewer.py:103-123 | Blank input explodes into exactly one empty segment. |
| Segmenter.ExplodedTextKeepsANonBlankSegment | JSON_extractor_and_viewer.py:97-123 | Text that is not all whitespace always explodes into at least one non-blank segment. |
| Segmenter.MiddlePieceLosesItsBrace | JSON_extractor_and_viewer.py:118-120 | As written, `{a},{b},{c}` is reassembled into `{a}`, `{b` and `{c}`. |
| Segmenter.AsWrittenMiddleSegmentsLoseTheirBrace | JSON_extractor_and_viewer.py:117-120 | As written, for every text cut into several pieces: the first segment is the text through the `}` of the first boundary and the last is the text from the `{` of the last boundary, but every middle segment runs from its `{` and stops just before the `}` that closes it in the text. |
| Segmenter.AsWrittenSlices | JSON_extractor_and_viewer.py:118-120 | The same, for any pieces that lie as the split places them. |
| Segmenter.IntendedSegmentsAreSlices | JSON_extractor_and_viewer.py:117-120 | With the corrected reassembly, every segment is the slice of the text from the `{` before its piece through the `}` after it: each object comes back exactly as written. |
| Segmenter.IntendedSlices | JSON_extractor_and_viewer.py:118-120 | The same, for any pieces that lie as the split places them. |
| Segmenter.IntendedPiecesAreBraced | JSON_extractor_and_viewer.py:117-120 | With the corrected reassembly, every piece cut from a braced text starts with `{` and ends with `}`. |
| Normalizer.ProcessSegment | JSON_extractor_and_viewer.py:149-169 | A segment is skipped exactly when it is blank. A recovered value is never null. An error line starts with `Segment failed: `. The only exception is `UnicodeDecodeError`. |
| Normalizer.HeadErrors | JSON_extractor_and_viewer.py:137-143 | The segment loop starts with at most one `Parse error` line. |
| Normalizer.Primary | JSON_extractor_and_viewer.py:172-173 | `single_json` is absent exactly when no value was recovered, the value itself when there is one, and the array of all of them, in order, when there are several. |
| Normalizer.VerdictsJudge | JSON_extractor_and_viewer.py:148-169 | Over all segments, the loop body skips exactly the blank ones, and every verdict it gives is sound: a non-null value, a `Segment failed: ` line or `UnicodeDecodeError`. |
| Normalizer.RaisedStaysRaised | JSON_extractor_and_viewer.py:148-169 | Once a segment raises, the loop never resumes: the exception is the outcome. |
| Normalizer.FiledOneMore | JSON_extractor_and_viewer.py:148-169 | Filing one more verdict advances the loop by one segment. An exception there is the loop's final outcome. |
| Normalizer.SettledAreNonBlank | JSON_extractor_and_viewer.py:150-151 | The number of verdicts that are not skips equals the number of non-blank segments. |
| Normalizer.CollectAccountsForEverySegment | JSON_extractor_and_viewer.py:148-169 | The lists only grow at their ends. Each verdict that is not a skip adds exactly one line to one of them. |
| Normalizer.CollectAddsOnlyValuesAndFailures | JSON_extractor_and_viewer.py:159-169 | When every verdict is sound, the loop adds only non-null values and `Segment failed: ` lines. The only exception that stops it is `UnicodeDecodeError`. |
| Normalizer.FinishedShape | JSON_extractor_and_viewer.py:148-175 | Verdicts that judge the segments give a well-shaped outcome once the loop runs and the result is packed. |
| Normalizer.ClassifySegment | JSON_extractor_and_viewer.py:149-169 | The loop body computes `ProcessSegment`, and so has all of its properties. |
| Normalizer.FileSegment | JSON_extractor_and_viewer.py:148-169 | One pass of the loop files segment `i`'s verdict in the lists, or returns its exception. |
| Normalizer.CollectSegments | JSON_extractor_and_viewer.py:148-169 | The loop's final lists, or the exception that stopped it, are what filing every segment's verdict in order gives, starting from the head errors. |
| Normalizer.Normalize | JSON_extractor_and_viewer.py:125-175 | The method returns what `NormalizeSpec` specifies, so the lemmas below describe it. |
| Normalizer.CleanJsonReturnsAtOnce | JSON_extractor_and_viewer.py:137-141 | Bracket-shaped text whose strict parse is not null is returned at once as the primary value, with no entries and no errors. |
| Normalizer.NormalizeOutcome | JSON_extractor_and_viewer.py:143-175 | On every other input, only `UnicodeDecodeError` escapes. Otherwise: at most one `Parse error` line comes first, then one line per non-blank segment in one list or the other, and later errors start with `Segment failed: `. The primary value is absent exactly when nothing was recovered, the only value when there is one, the array of all of them otherwise, and never null. |
| Normalizer.BlankInputGivesNothing | JSON_extractor_and_viewer.py:125-175 | Empty or whitespace-only input gives no primary value, no entries and no errors. |
| Normalizer.NoValueMeansAnError | JSON_extractor_and_viewer.py:125-175 | For input that is not all whitespace, a normal return with no primary value always carries at least one error line. |
| Search.Dedup | JSON_extractor_and_viewer.py:233-239 | The de-duplicated list has exactly the elements of the input and is no longer. |
| Search.RenderedScalars | JSON_extractor_and_viewer.py:222 | Scalars are matched as `str()` spells them: a string by its text, a number by its lexeme, booleans as `true`/`false`, null as `none`, after lower-casing. |
| Search.DedupKeepsFirstOccurrences | JSON_extractor_and_viewer.py:233-239 | The de-duplicated list has no duplicates and lists the elements in the order of their first occurrence. |
| Search.DedupIdempotent | JSON_extractor_and_viewer.py:233-239 | De-duplicating twice changes nothing. |
| Search.DedupOfDistinct | JSON_extractor_and_viewer.py:233-239 | A list without duplicates is its own de-duplication. |
| Search.Unique | JSON_extractor_and_viewer.py:233-239 | The `seen`-set loop computes the de-duplication. |
| Search.VisitChild | JSON_extractor_and_viewer.py:215-231 | One turn of the child loop appends that child's hits: the key path when the key matches, then the hits below a container or the path of a matching scalar. |
| Search.SearchJson | JSON_extractor_and_viewer.py:211-239 | The recursive search returns what `SearchSpec` specifies. |
| Search.SearchSpec | JSON_extractor_and_viewer.py:211-239 | A scalar at the top has no hits. |
| Search.SearchHasNoDuplicates | JSON_extractor_and_viewer.py:211-239 | The result has no duplicates and holds exactly the raw hits, in the order each was first found. |
| Search.QueryCaseIsIgnored | JSON_extractor_and_viewer.py:213 | The query's case does not matter. |
| Search.IndicesAreNotSearched | JSON_extractor_and_viewer.py:225-231 | Array indices are never matched: an array of scalars, none of which matches, gives no hits, whatever the query. |
| Search.HitsExtendThePath | JSON_extractor_and_viewer.py:215-231 | Every hit below a non-empty starting path begins with that path. |
| Search.ChildHitIsRawHit | JSON_extractor_and_viewer.py:215-231 | A hit contributed by any child survives the rest of the child loop. |
| Search.SearchFindsEveryMatch | JSON_extractor_and_viewer.py:211-239 | Completeness: the path of every match is reported. A match is a member whose key contains the lowered query, or a scalar whose rendering contains it, at any depth. |
| Search.SearchReportsOnlyMatches | JSON_extractor_and_viewer.py:211-239 | Soundness: every reported path is the path of such a match. |
| Search.SearchSpecIsTheMatches | JSON_extractor_and_viewer.py:211-239 | A path is reported if and only if it is the path of a match. |
| PathExtract.FoundTokensAreWellFormed | JSON_extractor_and_viewer.py:247 | Every token found is a non-empty key without brackets or a non-empty run of digits. |
| PathExtract.FewerTokensThanCharacters | JSON_extractor_and_viewer.py:247 | A segment yields at most as many tokens as it has characters. |
| PathExtract.PathTokens | JSON_extractor_and_viewer.py:245-248 | Every token of a path is well formed. |
| PathExtract.DottedPathTokens | JSON_extractor_and_viewer.py:245-248 | The tokens of `p.q` are those of `p` followed by those of `q`. |
| PathExtract.IndexTokens | JSON_extractor_and_viewer.py:247 | Appending `[d]` to a path appends one index token. |
| PathExtract.FindKey | JSON_extractor_and_viewer.py:257-259 | The position found holds the key, and no earlier member has it; the member count means the key is absent. |
| PathExtract.Step | JSON_extractor_and_viewer.py:250-259 | A successful step selects a strict sub-value. A failing key step reports `Key not found: <key>`, and a failing index step reports `Index out of range at [<digits>]`. |
| PathExtract.WalkAppend | JSON_extractor_and_viewer.py:250-259 | Walking two token lists in a row is walking their concatenation, stopping at the first failure. |
| PathExtract.WalkOutcome | JSON_extractor_and_viewer.py:249-259 | Walking no tokens selects the value itself. A successful walk over some tokens selects a value strictly inside it. A failure carries the `Key not found: ` or `Index out of range at [` message of the step that failed. |
| PathExtract.Extract | JSON_extractor_and_viewer.py:243-244 | The empty path selects the value itself. |
| PathExtract.ExtractWalksTheTokens | JSON_extractor_and_viewer.py:243-260 | Extraction is walking the path's tokens, and the empty path is no exception. |
| PathExtract.ExtractComposes | JSON_extractor_and_viewer.py:242-260 | Extracting `p.q` is extracting `q` from what `p` selects, and it fails with `p`'s error when `p` fails. |
| PathExtract.KeyStep | JSON_extractor_and_viewer.py:256-259 | A plain key selects the first member with that name, or fails with `Key not found: <key>`; on a non-object it always fails. |
| PathExtract.IndexStep | JSON_extractor_and_viewer.py:251-255 | `[d]` selects item `int(d)` of an array in range, or fails with `Index out of range at [d]`; on a non-array it always fails. |
| PathExtract.ExtractByPath | JSON_extractor_and_viewer.py:242-260 | Extraction gathers the tokens, then walks them, and so computes `Extract`. |
| PathExtract.GatherTokens | JSON_extractor_and_viewer.py:245-248 | The loop over the dot-separated segments collects exactly the path's tokens, in order. |
| PathExtract.WalkTokens | JSON_extractor_and_viewer.py:249-260 | The loop over the tokens computes the walk, returning the first failure. |
| HitPaths.ChildPathResolves | JSON_extractor_and_viewer.py:215-231 | The path the search builds for a child extracts that child, when the keys are safe. |
| HitPaths.HitsResolve | JSON_extractor_and_viewer.py:211-239 | Every hit of a search started at a path that selects a value can be extracted from the root. |
| HitPaths.SpellResolves | JSON_extractor_and_viewer.py:215-260 | When the keys are safe, the path the search spells for a location extracts exactly the node at that location. |
| HitPaths.HitExtractsAMatch | JSON_extractor_and_viewer.py:211-260 | A reported path extracts the node at a match of the query. |
| HitPaths.MatchIsReportedAndExtracts | JSON_extractor_and_viewer.py:211-260 | The path of every match is reported, and it extracts the node at the match. |
| HitPaths.SearchHitsExtract | JSON_extractor_and_viewer.py:211-260 | When every key is non-empty, distinct within its object, and free of `.`, `[` and `]`: every path the search reports from the root extracts the node at a match of the query, and every match is reported and extracts its node. |
| NodeStats.TypeLabelDistinguishes | JSON_extractor_and_viewer.py:178-191 | Two values get the same label exactly when they are of the same kind and, for containers, of the same size. |
| NodeStats.TypeLabel | JSON_extractor_and_viewer.py:178-191 | The label is `string`, `boolean`, `number` or `null` exactly for values of that kind. Objects and arrays get labels starting with `object ` and `array `. |
| NodeStats.RoutingMovesOnlyBooleans | JSON_extractor_and_viewer.py:275-282 | As written, booleans go to `numbers` and nothing goes to `booleans`; every other kind keeps its own counter. With the corrected test order, every kind goes to its own counter. |
| NodeStats.CountNodesCensus | JSON_extractor_and_viewer.py:263-286 | As written, `total_nodes` is the number of nodes and the sum of the six counters. Each counter holds its own kind, except that `numbers` also holds the booleans and `booleans` stays 0. |
| NodeStats.BooleanCountedAsNumber | JSON_extractor_and_viewer.py:277-280 | A lone boolean is labelled `boolean` but counted under `numbers`, with `booleans` left at 0. |
| NodeStats.IntendedTallyCountsEachKind | JSON_extractor_and_viewer.py:263-286 | With the boolean test ahead of the number test, each counter holds exactly the nodes of its kind. |
| NodeStats.NodeCounter.constructor | JSON_extractor_and_viewer.py:264 | A fresh counter starts with all seven counters at 0. |
| NodeStats.NodeCounter.Walk | JSON_extractor_and_viewer.py:265-284 | `_walk(n)` adds to the counters exactly the as-written census of `n` and everything below it. |
| NodeStats.NodeCounter.WalkChildren | JSON_extractor_and_viewer.py:267-274 | The loop over an object's values or an array's items adds the census of every child. |
| NodeStats.CountNodes | JSON_extractor_and_viewer.py:263-286 | `count_nodes` returns the as-written census, so `CountNodesCensus` describes its result. |
| Text.Strip | JSON_extractor_and_viewer.py:103 | The result is the text after the leading whitespace, ending in neither leading nor trailing whitespace. |
| Text.StripRemovesOnlySpace | JSON_extractor_and_viewer.py:103 | Only whitespace is removed, and only from the two ends. |
| Text.BlankIsAllSpace | JSON_extractor_and_viewer.py:150 | A text strips to nothing exactly when every character is whitespace. |
| Text.Prefix | JSON_extractor_and_viewer.py:162 | `seg[:200]` is a prefix of the segment, of length at most 200. |
| Text.Lower | JSON_extractor_and_viewer.py:213 | Lower-casing keeps the length and maps each character on its own. |
| Text.LowerIdempotent | JSON_extractor_and_viewer.py:213 | Lower-casing twice changes nothing. |
| Text.ContainsIsWindow | JSON_extractor_and_viewer.py:217 | The `in` test holds exactly when some window of the text equals the query. |
| Text.DecimalRoundTrip | JSON_extractor_and_viewer.py:252 | `int(str(n)) == n`, so the index the search writes into a path is the one extraction reads back. |
| Text.SplitLosesOnlySeparators | JSON_extractor_and_viewer.py:246 | Joining the pieces of a split gives back the text with only its separators removed. |

## Left out

- `json.loads` is a parameter of the model. Its grammar, error messages and duplicate-key handling are not modelled. Object members are a list of pairs in the parser's order.
- The `unicode_escape` codec is a parameter that returns the decoded text, or nothing when it raises `UnicodeDecodeError`.
- Numbers are kept as their lexeme (`Num`), so floating point and the integer/float distinction are not modelled. `str(v)` of a number in the search is that lexeme.
- `str(True)` is `True`, and `str(None)` is `None`; the search renders scalars that way.
- Whitespace for `strip` and `\s` is the six ASCII whitespace characters. Python also counts the ASCII separators \x1c to \x1f, \x85, \xa0 and the other Unicode spaces; those are not modelled.
- Lower-casing is ASCII only. `\d` and `int()` accept only ASCII digits.
- `str.splitlines` is modelled by a set of line-break characters. A `\r\n` pair counts as two breaks, which only adds an empty line; empty lines are dropped anyway.
- PathExtract.FindKey: takes the first member with the key. A Python dict holds each key once, so the choice matters only for duplicate members, which the parser model can produce.
- The message of the `KeyError` that extraction raises is modelled as its argument. The quotes `str(KeyError(...))` adds are not modelled.
- `type_label` returns `type(v).__name__` for values outside JSON, and `count_nodes` counts them as strings. Neither case occurs with values the parser produces, so neither is modelled.
- In `count_nodes`, the `elif isinstance(n, bool)` branch is unreachable as written. The as-written model routes booleans through the number test.
- Recursion depth: Python's recursion limit on deeply nested documents is not modelled.
- The user interface is not part of this model: `render_tree`, the Streamlit page, file upload, `json.dumps` rendering and the download button.
- `file_encoding_finder.py` is not part of this model.
- Search.IndicesAreNotSearched: stated for arrays whose items are all scalars.
- HitPaths.SearchHitsExtract: the extraction half is stated only for documents whose keys are non-empty, distinct within their object, and free of `.`, `[` and `]`. For other keys, the path the search reports is split differently by extraction. The match half holds for every document, as `Search.SearchSpecIsTheMatches`.

## Findings

| source | as written | input that shows it | evidently intended | confidence | as-written member | corrected member |
|---|---|---|---|---|---|---|
| JSON_extractor_and_viewer.py:118-120 | After splitting on `}\s*,\s*{`, `}` is put back only on the first piece and `{` only on the later ones. Every middle piece is left without its closing brace. | `{a},{b},{c}` gives the segments `{a}`, `{b`, `{c}` | Every piece gets back both braces the split removed. | not executed | Segmenter.AsWrittenMiddleSegmentsLoseTheirBrace | Segmenter.IntendedSegmentsAreSlices |
| JSON_extractor_and_viewer.py:277-280 | The number test `isinstance(n, (int, float))` comes before the boolean test. `bool` is a subclass of `int`, so booleans are counted as numbers and `booleans` is always 0. | `true` gives `numbers` 1 and `booleans` 0, while `type_label` says `boolean` | Booleans are counted under `booleans`, and numbers only under `numbers`. | not executed | NodeStats.BooleanCountedAsNumber | NodeStats.IntendedTallyCountsEachKind |

`ExplodeLines`, `Normalize` and `CountNodes` model the program as it behaves, so they keep
the as-written definitions (`Segmenter.ReassembleAsWritten`, and the census with `intended`
false). The corrected definitions sit beside them, and the intended properties are proved about
those: `Segmenter.ReassembleIntended`, and the census with `intended` true, in which
`Counter` sends a boolean to `booleans`.
