# TypesettingTools formatting engine, in Dafny

This project models the formatting engine of TypesettingTools. The engine turns a small
Markdown dialect into one block of HTML whose styling is entirely inline, so that it
survives being pasted into a platform that strips stylesheets. It works in four stages:

1. **Punctuation** (`src/utils/punctuation.js`). Straight quotes around a span become
   corner brackets. Runs of full stops become `……`. An inline `--` becomes `——`, except
   on rules, table separator rows and next to table pipes. Ideographs and Latin letters or
   digits get a space between them, and runs of spaces collapse to one.
   Modules: `Quotes`, `Ellipsis`, `Dashes`, `Spacing`, `Punctuation`.
2. **Blocks** (`parseStructure` in `src/utils/formatter.js`). One pass over the lines.
   Two latched modes, a code fence and a table, capture lines verbatim or as rows of
   cells. Every other non-blank line is classified by a first-match chain of tests.
   Module: `Parser`. The method `ParseStructure` runs the loop of the source, and is
   proved to compute the step-function specification `Parse`.
3. **Inline formatting** (`formatInline`). Four global regular-expression replacements,
   applied in turn: code spans, bold, italic and percentages. Modules: `Patterns` (what a
   match is, and a scanner proved to find exactly the matches), `Replace` (a global
   `replace` as a left-to-right scan), `Inline`.
4. **Rendering** (`formatText`, `escapeHtml`, `inlineStyles`).
   - `Layout` holds the block loop (`WriteBlocks`, one turn per block in `WriteBlock`) and
     the table loops (`WriteTable`, `WriteRow`).
   - These methods are generic in a `Writer`, a record of the HTML pieces. They are proved
     to write the intended grouping, `Document`: one list per maximal run of list items,
     typed by the run's first item, and one piece per other block.
   - `Render` supplies the pieces `formatText` writes, with the styles of `Styles`.
   - `Escape` models `escapeHtml`.
   - `Format` models `formatText` and `inlineStyles`.

Strings are `seq<char>`, one element per Unicode character. The
regular expressions are modelled as explicit scans. Each scan tries a match at every
position, and after a match it resumes just past it.

Where the code departs from its own comments or from what the surrounding code suggests, the model follows the code:

- The third and fourth replacements of `normalizeQuotes` (`punctuation.js:13-14`) use the
  same plain ASCII quote classes as the first two. They do not touch curly quotes. The
  third is proved to never change anything (`Quotes.QuotesThirdPassIsNoOp`). The fourth
  is modelled as a second run of the single-quote pass.
- `normalizeDash` treats a line of three or more characters from `-*_`, mixed, as a rule
  (`/^[-*_]{3,}$/`). The parser's rule test needs one repeated character.
- The two parser modes are independent flags. A fenced code block inside a run of table
  lines leaves table mode latched (`Parser.FencedCodeBlock`).
- Inline code spans are not protected from the later passes (`Inline.ItalicInsideCode`).

## Model

| member | source | states |
|---|---|---|
| Quotes.NormalizeQuotes | src/utils/punctuation.js:7-16 | the length is kept; every position that did not hold a `'` holds what the double-quote pass writes there (`DoubleQuoteAt`): `"` pair up from left to right into 「…」 and only an unmatched last `"` survives; at most one `"` is left (the parity of how many there were), and mapping the brackets back to quotes gives the input |
| Quotes.PairDoubleQuotes | src/utils/punctuation.js:9 | the global replace of `/"([^"]*)"/g` as a left-to-right scan; it keeps the length |
| Quotes.PairSingleQuotes | src/utils/punctuation.js:11 | the global replace of `/'([^']*)'(?=[^a-zA-Z]\|$)/g` as a left-to-right scan; it keeps the length |
| Quotes.DoubleQuotePositions | src/utils/punctuation.js:9 | at every position the pass writes `DoubleQuoteAt`: a `"` with an odd number of `"` before it becomes 」, one with an even number becomes 「 if another `"` follows and stays `"` otherwise; other characters are kept |
| Quotes.DoubleQuoteSurvives | src/utils/punctuation.js:9 | a `"` is left exactly at a `"` with an even number of `"` before it and none after it |
| Quotes.DoubleQuotedSpan | src/utils/punctuation.js:9 | a `"`-free span between two `"` becomes 「…」 and the scan resumes after it |
| Quotes.SingleQuotesKeepOthers | src/utils/punctuation.js:11 | the single-quote pass keeps the length and every character other than `'` |
| Quotes.QuotesKeepDoublePositions | src/utils/punctuation.js:9-14 | after all four replacements, every position that did not hold a `'` holds what the double-quote pass wrote there |
| Quotes.DoubleQuoteCount | src/utils/punctuation.js:9 | the double-quote pass converts `"` in pairs: the count left is the input count mod 2 |
| Quotes.DoubleQuotesUnpair | src/utils/punctuation.js:9 | the double-quote pass only turns `"` into 「」, and changes nothing else |
| Quotes.SingleQuotesUnpair | src/utils/punctuation.js:11 | the single-quote pass only turns `'` into 『』, and changes nothing else |
| Quotes.SingleQuotesKeepDoubleQuotes | src/utils/punctuation.js:11 | the single-quote pass never adds or removes a `"` |
| Quotes.DoubleQuotesAtMostOne | src/utils/punctuation.js:9 | with at most one `"` in the text, the double-quote pass is the identity |
| Quotes.QuotesThirdPassIsNoOp | src/utils/punctuation.js:13 | the third replacement never changes the text left by the first two |
| Quotes.SingleQuotedSpan | src/utils/punctuation.js:11 | a `'…'` span whose closing quote is followed by a non-Latin character, or by the end, becomes 『…』 |
| Quotes.ApostropheKept | src/utils/punctuation.js:11 | a closing `'` followed by a Latin letter fails the look-ahead: that `'` is kept and the scan moves one character on |
| Ellipsis.CollapseRuns | src/utils/punctuation.js:20 | the global replace of a run of at least `k` copies of `c` by `……`, as a left-to-right scan; `CollapseRunsAppend`, `CollapseRun` and `CollapseWithoutChar` below pin its result: each run on its own, everything between runs copied |
| Ellipsis.CollapseRunsAppend | src/utils/punctuation.js:20 | text cut anywhere that does not split a run of `c` is collapsed piece by piece: the replacement acts on each run alone |
| Ellipsis.CollapseRun | src/utils/punctuation.js:20 | a run of `n` copies of `c` becomes one `……` when `n` is at least `k`, and is kept when it is shorter |
| Ellipsis.CollapseWithoutChar | src/utils/punctuation.js:20 | text without `c` is copied unchanged |
| Ellipsis.NormalizeEllipsis | src/utils/punctuation.js:19-21 | no three consecutive `.` and no two consecutive `。` remain; `EllipsisFromStops` and `EllipsisFromIdeographicStops` give its result on a run between other text |
| Ellipsis.EllipsisFromStops | src/utils/punctuation.js:19-21 | three or more `.` between text without stops become `……`, and the text around them is kept: `a...b` gives `a……b` |
| Ellipsis.EllipsisFromIdeographicStops | src/utils/punctuation.js:19-21 | two or more `。` between text without stops become `……`, and the text around them is kept |
| Ellipsis.CollapseLeavesNoRun | src/utils/punctuation.js:20 | after `c{k,}` is replaced, no run of `k` copies of `c` is left |
| Ellipsis.CollapseLeadingRun | src/utils/punctuation.js:20 | a leading run is removed exactly when it is at least `k` long |
| Ellipsis.CollapseKeepsNoRun | src/utils/punctuation.js:20 | collapsing `.` creates no run of `。`, so the second replacement does not undo the first |
| Ellipsis.CollapseIdentity | src/utils/punctuation.js:20 | with no run of length `k`, the replacement is the identity |
| Ellipsis.EllipsisIdempotent | src/utils/punctuation.js:19-21 | normalising the ellipses twice is the same as once |
| Dashes.ReplaceDashPairs | src/utils/punctuation.js:38 | the length is kept; every changed character is a `-` of a `--` at which the look-behind and the look-ahead both succeed, turned into `—`; no `-` left in the output starts such a match; its exact output is `ReplaceDashPairsMatches` |
| Dashes.ReplaceDashPairsPaired | src/utils/punctuation.js:38 | every `—` written for a `-` has a `—` beside it at the other hyphen of a `--` where the pattern matches |
| Dashes.ReplaceDashPairsMatches | src/utils/punctuation.js:38 | every output position holds `DashOut`: `—` on both hyphens of each match the scan makes, the input character elsewhere; the matches (`MatchStart`) are the pattern's positions taken leftmost first, each one skipping the position right after a match, so they never overlap (`-----` gives `————-`) |
| Dashes.DashRunReplaced | src/utils/punctuation.js:38 | on pipe-free text, a run of `n` hyphens between hyphen-free stretches becomes `——` for each pair from the left, and an odd last hyphen is kept |
| Dashes.ReplaceRun | src/utils/punctuation.js:38 | over a run of `m` hyphens where the pattern matches at every hyphen but the last, the scan writes `——` per pair from the left, then the odd hyphen (`DashRun(m)`), and carries on after the run |
| Dashes.RunMatches | src/utils/punctuation.js:38 | between pipe-free stretches and before a non-hyphen, the look-behind and look-ahead let the pattern match at every hyphen of a run but the last |
| Dashes.CopiesNoDash | src/utils/punctuation.js:38 | a stretch without `-` is copied unchanged |
| Dashes.DoubleDashReplaced | src/utils/punctuation.js:38 | on text without `\|`, a `--` between hyphen-free stretches becomes `——` and the rest is kept |
| Dashes.TripleDashReplaced | src/utils/punctuation.js:38 | in `---` the leftmost pair is replaced and the third hyphen is kept: `——-` |
| Dashes.DashLine | src/utils/punctuation.js:27-38 | rules and pipe-wrapped rows holding `---` come back unchanged; other lines get exactly `DashOut` at every position, so the only change is `-` to `—` on both hyphens of each non-overlapping, leftmost-first match; the length is kept |
| Dashes.DashLineReplaces | src/utils/punctuation.js:27-38 | on a line that is neither a rule nor a separator row, `a--b` with hyphen-free, pipe-free `a` and `b` becomes `a——b` |
| Dashes.DashExempt | src/utils/punctuation.js:29-37 | a line is returned as it is when its trimmed text is three or more of `-*_`, mixed, or is wrapped in `\|` and contains `---` |
| Dashes.DashPairAt | src/utils/punctuation.js:38 | the pattern matches at `j`: two hyphens, no `\|` reached walking left over hyphens and white space, none reached walking right from after the pair |
| Dashes.NormalizeDash | src/utils/punctuation.js:24-40 | split on `\n`, each line rewritten by `DashLine`, joined with `\n`; its properties are `DashKeepsLines` and those of `DashLine` |
| Dashes.DashKeepsLines | src/utils/punctuation.js:24-40 | splitting the result on `\n` gives the input's lines, each rewritten by the line rule, so the number of lines is kept |
| Spacing.SpaceAfterCjk | src/utils/punctuation.js:45 | the first character is kept; `SpaceAfterCjkAppend`, `SpaceAfterCjkInserts` and `SpaceAfterCjkIdentity` pin where spaces go |
| Spacing.SpaceAfterCjkSeparates | src/utils/punctuation.js:45 | no ideograph is directly followed by a letter or digit |
| Spacing.SpaceBeforeCjk | src/utils/punctuation.js:46 | the first character is kept; `SpaceBeforeCjkAppend`, `SpaceBeforeCjkInserts` and `SpaceBeforeCjkIdentity` pin where spaces go |
| Spacing.CollapseSpaces | src/utils/punctuation.js:48 | the first character is kept; `CollapseSpacesAppend`, `CollapseSpaceRun`, `CollapseKeepsSingleSpace` and `CollapseSpacesIdentity` pin its result |
| Spacing.SpaceBeforeCjkSeparates | src/utils/punctuation.js:46 | no letter or digit is directly followed by an ideograph, and the first pass's separation is kept |
| Spacing.CollapseSpacesSeparates | src/utils/punctuation.js:48 | no two spaces in a row, and both separations are kept |
| Spacing.SpaceAfterCjkKeepsText | src/utils/punctuation.js:45 | the first pass only inserts spaces |
| Spacing.SpaceBeforeCjkKeepsText | src/utils/punctuation.js:46 | the second pass only inserts spaces |
| Spacing.CollapseSpacesKeepsText | src/utils/punctuation.js:48 | collapsing only deletes spaces |
| Spacing.NormalizeSpaces | src/utils/punctuation.js:43-50 | both separations, no double space, and the text is the same once spaces are deleted; text that already has all three is returned unchanged (`NormalizeSpacesIdentity`) |
| Spacing.SpaceAfterCjkAppend | src/utils/punctuation.js:45 | text cut anywhere except between an ideograph and a following letter or digit is spaced piece by piece |
| Spacing.SpaceBeforeCjkAppend | src/utils/punctuation.js:46 | text cut anywhere except between a letter or digit and a following ideograph is spaced piece by piece |
| Spacing.CollapseSpacesAppend | src/utils/punctuation.js:48 | text cut anywhere that does not split a run of spaces is collapsed piece by piece |
| Spacing.SpaceAfterCjkInserts | src/utils/punctuation.js:45 | an ideograph followed by a letter or digit gets one space between them, wherever the pair stands |
| Spacing.SpaceBeforeCjkInserts | src/utils/punctuation.js:46 | a letter or digit followed by an ideograph gets one space between them, wherever the pair stands |
| Spacing.CollapseSpaceRun | src/utils/punctuation.js:48 | a run of one or more spaces becomes one space |
| Spacing.CollapseKeepsSingleSpace | src/utils/punctuation.js:48 | a single space between two pieces is kept |
| Spacing.SpaceAfterCjkIdentity | src/utils/punctuation.js:45 | without an ideograph directly followed by a letter or digit, the first pass changes nothing |
| Spacing.SpaceBeforeCjkIdentity | src/utils/punctuation.js:46 | without a letter or digit directly followed by an ideograph, the second pass changes nothing |
| Spacing.CollapseSpacesIdentity | src/utils/punctuation.js:48 | without two spaces in a row, collapsing changes nothing |
| Spacing.NormalizeSpacesIdentity | src/utils/punctuation.js:43-50 | text with both separations and no double space is returned unchanged, so `hello world` keeps its space |
| Punctuation.NormalizePunctuation | src/utils/punctuation.js:53-60 | the passes run in the source's order; the result has the spacing guarantees, and the text before spacing is the same up to spaces |
| Text.Split | src/utils/formatter.js:12 | at least one piece, none containing the separator |
| Text.JoinSplit | src/utils/formatter.js:12 | joining the pieces of a split gives the text back |
| Text.SplitJoin | src/utils/formatter.js:27 | splitting a join of separator-free pieces gives the pieces back |
| Text.TrimSpec | src/utils/formatter.js:21 | a trimmed line neither starts nor ends with white space, and is no longer than the line |
| Text.TrimFixedPoint | src/utils/formatter.js:21 | trimming is the identity exactly on text that neither starts nor ends with white space |
| Text.TrimStartSpec | src/utils/formatter.js:21 | exactly the leading white space is dropped |
| Text.TrimEndSpec | src/utils/formatter.js:21 | exactly the trailing white space is dropped |
| Text.DigitRun | src/utils/formatter.js:99 | the length of the leading digits: all digits up to it, none at it |
| Text.RunLength | src/utils/punctuation.js:20 | the length of the leading run of `c`: all `c` up to it, none at it |
| Parser.Classify | src/utils/formatter.js:65-109 | every non-blank line that is not a fence or a table line is a text block, never a code block |
| Parser.ClassifyFirstMatch | src/utils/formatter.js:65-109 | the chosen type's test passes on the line, and no test tried before it passes |
| Parser.ClassifyContent | src/utils/formatter.js:66-108 | a rule has empty content; a highlight or paragraph keeps the whole line; the other types drop exactly their marker: two characters for `h1`, `blockquote` and `li`, three for `h2`, four for `h3`, six for the to-do types, and the digits, `.` and one white space for `oli` |
| Parser.OrderedMarkerIff | src/utils/formatter.js:99-100 | the ordered-item marker is found exactly when the line starts with digits, `.` and white space, and it spans all the leading digits |
| Parser.RuleIff | src/utils/formatter.js:66 | the rule test is the union of the three one-character patterns |
| Parser.SeparatorIffDashCells | src/utils/formatter.js:49-51 | a pipe-wrapped line is a separator exactly when every one of its trimmed cells is a dash run with optional colons |
| Parser.TrimAll | src/utils/formatter.js:51 | each cell trimmed, none lost |
| Parser.AllAre | src/utils/formatter.js:66 | true exactly when every character is `c` |
| Parser.Step | src/utils/formatter.js:19-110 | one turn of the loop: fence lines open or close a code block, lines inside a fence are stored, pipe-wrapped lines are stored as cells unless they are separators, and any other line closes an open table and, if not blank, is classified; blocks already emitted are kept and at most two are added |
| Parser.Steps | src/utils/formatter.js:19-110 | the loop body folded over the lines, from a given state |
| Parser.Finish | src/utils/formatter.js:112-120 | after the loop, an open fence with stored lines and then an open table with rows are emitted; the loop's blocks come first, at most two are added, and with both modes off nothing is |
| Parser.Parse | src/utils/formatter.js:11-123 | the loop over all lines from the initial state, then the end-of-input flush |
| Parser.ParseStructure | src/utils/formatter.js:11-123 | the loop computes `Parse`: the step function folded over the lines of `split('\n')`, then the end-of-input flush |
| Parser.StepsAppend | src/utils/formatter.js:19-110 | the loop over two stretches of lines is the loop over their concatenation |
| Parser.StepsSettled | src/utils/formatter.js:14-17 | the code and row accumulators are empty whenever their mode is off |
| Parser.CodeLinesStored | src/utils/formatter.js:37-40 | inside a fence, non-fence lines are stored verbatim, blank ones included, and nothing else changes |
| Parser.FencedCodeBlock | src/utils/formatter.js:24-40 | a fenced block emits one code block of its body lines joined by `\n`, the fence lines themselves are dropped, and the rest of the state is unchanged |
| Parser.UnclosedFence | src/utils/formatter.js:112-120 | an unclosed fence becomes a final code block only if a line followed it; an open table is flushed after it |
| Parser.TableLinesStored | src/utils/formatter.js:43-54 | a run of pipe-wrapped lines latches table mode and stores the cells of its non-separator lines in order |
| Parser.TableClosedByLine | src/utils/formatter.js:55-60 | the first other line emits the table, even an empty one, and is then classified as usual |
| Parser.TableAtEnd | src/utils/formatter.js:117-120 | a table still open at the end is emitted only if it has a row |
| Parser.StepsKeepNoSeparatorRows | src/utils/formatter.js:49-53 | no stored row, open or emitted, is a separator row |
| Parser.ParseHasNoSeparatorRows | src/utils/formatter.js:49-53 | table blocks never hold a separator row |
| Parser.PlainStepsOnlyClassify | src/utils/formatter.js:62-109 | without fences or table lines, the loop only appends the classified non-blank lines |
| Parser.PlainLinesParse | src/utils/formatter.js:62-109 | without fences or table lines, each non-blank line gives exactly one block, in order |
| Parser.PlainBlocksCount | src/utils/formatter.js:63 | blank lines produce no block |
| Patterns.MatchLen | src/utils/formatter.js:132-144 | the length of the match at the start of the text for each of the four patterns, or 0; a match is longer than its two delimiters; `MatchLenSpec` shows it is the pattern's only match there |
| Patterns.MatchLenSpec | src/utils/formatter.js:132-145 | the only prefix of the text that matches a pattern is the one the scanner reports, so the match at a position is unique |
| Patterns.MatchesHereIff | src/utils/formatter.js:132-145 | the scanner reports a match exactly where the pattern matches |
| Patterns.MatchDelims | src/utils/formatter.js:132-141 | a reported match starts and ends with its delimiter |
| Patterns.PercentScan | src/utils/formatter.js:144 | the percentage scanner reads any `\d+\.?\d*%` to its end |
| Patterns.PercentMatchUnique | src/utils/formatter.js:144 | a percentage match is the one the scanner reports |
| Patterns.CodeMatchUnique | src/utils/formatter.js:132 | a code-span match is the one the scanner reports |
| Patterns.BoldMatchUnique | src/utils/formatter.js:136 | a bold match is the one the scanner reports |
| Patterns.ItalicMatchUnique | src/utils/formatter.js:140 | an italic match is the one the scanner reports |
| Patterns.NoTriggerNoMatch | src/utils/formatter.js:132-145 | no match starts where the pattern's trigger character is absent |
| Patterns.NoSignNoPercent | src/utils/formatter.js:144 | no percentage without a `%` |
| Patterns.ItalicRunMatches | src/utils/formatter.js:140 | `*b*` with asterisk-free `b` is one italic match |
| Patterns.PercentHasNoDelims | src/utils/formatter.js:144 | a percentage holds no backtick and no asterisk, so the code-span, bold and italic passes leave it alone |
| Replace.ReplaceAll | src/utils/formatter.js:132-145 | a global `replace` as a left-to-right scan: a match is replaced by the tags around its captured text and the scan resumes after it; otherwise one character is copied; its properties are `ReplaceAllTokens` and the lemmas below |
| Replace.TokensSpec | src/utils/formatter.js:132-145 | the scan's pieces cover the input exactly, every span's text is accepted by the capture group, and a piece is a span exactly where the pattern matches |
| Replace.TokensSource | src/utils/formatter.js:132-145 | reading the pieces back gives the input |
| Replace.TokensBodies | src/utils/formatter.js:132-145 | every span holds text the capture group accepts |
| Replace.TokensSpans | src/utils/formatter.js:132-145 | a piece is a span exactly where the pattern matches |
| Replace.ReplaceAllTokens | src/utils/formatter.js:132-145 | the replacement writes each match's captured text between the tags and copies the rest |
| Replace.NoTriggerUnchanged | src/utils/formatter.js:132-145 | text without the trigger character passes through unchanged |
| Replace.NoMatchUnchanged | src/utils/formatter.js:132-145 | text where the pattern matches at no position passes through unchanged |
| Replace.WholeMatch | src/utils/formatter.js:132-145 | a text that is one whole match becomes the tags around its captured text |
| Replace.CopiedPrefix | src/utils/formatter.js:132-145 | a stretch where nothing matches is copied, and the scan carries on after it |
| Replace.NoMatchInFromEach | src/utils/formatter.js:132-145 | a stretch where the pattern matches at no position is one the scan copies whole |
| Replace.CopiedPlain | src/utils/formatter.js:132-141 | a stretch without the delimiter's character is copied |
| Replace.ItalicRunReplaced | src/utils/formatter.js:140-141 | `*b*` followed by asterisk-free text becomes `<em>`-tagged `b`, and the rest is copied |
| Inline.FormatInline | src/utils/formatter.js:128-148 | the four replacements in the source's order, each with its tags; its properties are the lemmas below |
| Inline.FormatInlinePlain | src/utils/formatter.js:128-148 | text without backtick or asterisk, in which no `%` completes a percentage, is unchanged |
| Inline.BoldWraps | src/utils/formatter.js:136-137 | `**b**` becomes the accent-coloured `<strong>` element, which no later pass touches while the colour holds no `*` or `%` |
| Inline.PercentWraps | src/utils/formatter.js:144-145 | a percentage becomes the accent-coloured `<span>` element |
| Inline.ItalicInsideCode | src/utils/formatter.js:132-141 | the code-span contents are not protected: `` `*b*` `` gets an `<em>` inside the `<code>` |
| Replace.BoldSkipsSingleStars | src/utils/formatter.js:136 | single asterisks never make a bold match |
| Replace.ItalicWrapsMiddle | src/utils/formatter.js:140 | the italic pass wraps the one asterisk-delimited run and copies the rest |
| Inline.CodeTagFree | src/utils/formatter.js:133 | the code-span tag holds no `*` or `%` for later passes to match |
| Inline.BoldTagsFree | src/utils/formatter.js:137 | the bold tag holds a `*` or `%` only if the accent colour does |
| Escape.EscapeHtml | src/utils/formatter.js:268-275 | the five chained single-character replaces in the source's order; its properties are the lemmas below |
| Escape.EscapeHtmlPerChar | src/utils/formatter.js:268-275 | the five passes compose into one character-by-character map: no replacement is rewritten by a later pass |
| Escape.EscapeHtmlRoundTrip | src/utils/formatter.js:268-275 | decoding the entities gives the input back, and no `"` or line break is left |
| Escape.EscapeEachRoundTrip | src/utils/formatter.js:268-275 | the per-character map has the same inverse |
| Escape.EscapeOne | src/utils/formatter.js:270-274 | on one character the five passes give that character's escape |
| Escape.ReplaceCharAppend | src/utils/formatter.js:270-274 | one single-character replacement distributes over concatenation |
| Escape.ReplaceCharAbsent | src/utils/formatter.js:270-274 | a replacement whose character is absent is the identity |
| Escape.UnescapeStep | src/utils/formatter.js:268-275 | decoding one character's escape gives that character |
| Layout.RunEnd | src/utils/formatter.js:191-192 | the end of a run of list items lies between its start and the end of the blocks |
| Layout.RunEndSpec | src/utils/formatter.js:191-192 | every block of the run is a list item, and the block after the run is not |
| Layout.Rest | src/utils/formatter.js:176-262 | the loop's state machine from block `i` with the given list state: what the rest of the loop and the close after it write |
| Layout.Blocks | src/utils/formatter.js:176-262 | the intended grouping from block `i`: a list per maximal run of items, typed by its first item, and a piece per other block |
| Layout.Document | src/utils/formatter.js:176-262 | the intended grouping of all blocks |
| Layout.RestInList | src/utils/formatter.js:180-197 | inside a run, the loop writes the run's remaining items, closes the list with its own type, and carries on outside any list |
| Layout.RestIsBlocks | src/utils/formatter.js:180-262 | the loop writes exactly one list per run of items and one piece per other block; the close-before-another-block and close-after-the-loop branches never fire, so no `</null>` is written |
| Layout.MixedRunOneList | src/utils/formatter.js:182-185 | an ordered item right after a bullet item joins the bullet list |
| Layout.NoItemsArePieces | src/utils/formatter.js:200-256 | without list items, the output is each block's piece in order |
| Layout.RunEndAll | src/utils/formatter.js:191-192 | a run that reaches the last block ends at the end |
| Layout.AllItemsOneList | src/utils/formatter.js:180-197 | blocks that are all list items form a single list, typed by the first item |
| Layout.WriteBlocks | src/utils/formatter.js:176-262 | the block loop, with its post-loop close, appends exactly `Document`: the intended grouping |
| Layout.WriteBlock | src/utils/formatter.js:180-257 | one turn of the loop keeps written output plus what is still to come unchanged |
| Layout.HeaderRowFirst | src/utils/formatter.js:236-243 | only the first row of a table is written with header cells; every later row uses data cells |
| Layout.DataRowsSnoc | src/utils/formatter.js:236-245 | data rows are written in order, one after another |
| Layout.WriteTable | src/utils/formatter.js:234-247 | the row loop writes the table tags around the rows in order |
| Layout.WriteRow | src/utils/formatter.js:237-244 | the cell loop writes the row tags around the cells in order |
| Render.BlockHtml | src/utils/formatter.js:207-256 | the element the `switch` of `formatText` writes for a block that is neither a list item nor a table, around the inline-formatted content; a code block's text is escaped instead, and a type without a case is a paragraph |
| Render.HtmlWriter | src/utils/formatter.js:155-256 | the pieces `formatText` writes, with the styles of the settings |
| Format.FormatText | src/utils/formatter.js:153-266 | normalises the punctuation, parses the blocks and writes the intended document, with the settings' pieces, inside the styled `<section>` |
| Format.InlineStyles | src/utils/formatter.js:280-282 | the HTML is returned unchanged |

## Left out

- Settings: the numeric settings (`fontSize`, `lineHeight`, `letterSpacing`, `paragraphMargin`) are carried as the text JavaScript prints for them. Number formatting is not modelled.
- The HTML pieces: the styles, tags and templates of `formatText` (`formatter.js:158-173` and its `switch`) are plain functions in `Styles` and `Render`, without lemmas of their own. Their string constants make any proof that unfolds them too costly to verify. The properties of the output are therefore proved in `Layout`, for every choice of pieces, and hold in particular for `Render.HtmlWriter`.
- The `null` list type: the loop's `inList` and `listType` locals are modelled, and `listType = null` is the `NoList` type, printed `null`. It is proved never to be printed, because the branches that would print it are unreachable.
- Sample outputs: the result of `formatText` is stated as the intended document, `Format.Formatted`. No concrete HTML strings are proved for sample inputs.
- Quotes: the fourth replacement of `normalizeQuotes` is a second run of the single-quote pass. Unlike the third, it can change text (for example `'x'a'.'.`). Beyond the invariants it shares with the first run, its effect is not characterised.
- Inline.FormatInline: the accent colour is spliced into the bold and percentage tags as it is. JavaScript's `replace` would expand `$&`, `$1`, `` $` ``, `$'` and `$$` in it, so the model, and `BoldWraps` and `PercentWraps`, which require a colour without `$`, agree with the source only for such colours.
- Lengths: a string's length counts Unicode characters. JavaScript counts UTF-16 code units, so for text outside the Basic Multilingual Plane the highlight test `trimmed.length < 50` (`formatter.js:103`) can differ.
- Dashes.ReplaceDashPairs: the look-behind `(?<!\|[\s-]*)` and the look-ahead `(?![-\s]*\|)` are modelled as walks over the text. No general regular-expression engine is modelled.
- The editor, settings UI, clipboard and export code are not part of this model. They sit outside the formatting engine.
