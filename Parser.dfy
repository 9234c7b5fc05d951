/** The block parser of `src/utils/formatter.js` (`parseStructure`): one forward pass over
    the lines of the normalised text with two latched modes, code fence and table, and a
    first-match classifier for every other non-blank line.

    The specification is a step function over a parser state (`Step`), folded over the
    lines (`Steps`) and closed by the end-of-input flush (`Finish`); the method
    `ParseStructure` runs the loop of the source and is proved to compute `Parse`. */
module Parser {
  import opened Text

  /** The `type` tags of the blocks the parser emits, other than `table`. */
  datatype Kind = Hr | H1 | H2 | H3 | Quote | TodoDone | Todo | Li | Oli | Highlight | Para | Code

  /** `{ type, content }`: text content for every type but `table`, whose content is rows of cells. */
  datatype Block = Block(kind: Kind, content: string) | Table(rows: seq<seq<string>>)

  // ---------------------------------------------------------------------------
  // Line tests
  // ---------------------------------------------------------------------------

  /** `trimmed.startsWith('```')` */
  predicate IsFence(t: string) { StartsWith(t, "```") }

  /** `trimmed.startsWith('|') && trimmed.endsWith('|')` (a lone `|` qualifies). */
  predicate IsPipeWrapped(t: string) { |t| >= 1 && t[0] == '|' && t[|t| - 1] == '|' }

  /** `trimmed.slice(1, -1)` */
  function Interior(t: string): string {
    if |t| >= 2 then t[1..|t| - 1] else ""
  }

  /** A trimmed cell matching `:?-+:?`. */
  predicate DashCell(c: string) {
    var a := if c != [] && c[0] == ':' then c[1..] else c;
    var b := if a != [] && a[|a| - 1] == ':' then a[..|a| - 1] else a;
    b != [] && forall i :: 0 <= i < |b| ==> b[i] == '-'
  }

  /** `/^\|(\s*:?-+:?\s*\|)+$/`: every piece between the pipes is, up to white space, a dash
      run with optional colons at either end. */
  predicate IsSeparator(t: string) {
    var pieces := Split(Interior(t), '|');
    |t| >= 2 && t[0] == '|' && t[|t| - 1] == '|' &&
    forall i :: 0 <= i < |pieces| ==> DashCell(Trim(pieces[i]))
  }

  function TrimAll(pieces: seq<string>): (r: seq<string>)
    ensures |r| == |pieces|
    ensures forall i :: 0 <= i < |r| ==> r[i] == Trim(pieces[i])
  {
    if pieces == [] then [] else [Trim(pieces[0])] + TrimAll(pieces[1..])
  }

  /** `trimmed.slice(1, -1).split('|').map(c => c.trim())` */
  function Cells(t: string): (r: seq<string>)
    ensures |r| >= 1
  {
    TrimAll(Split(Interior(t), '|'))
  }

  /** A pipe-wrapped line is a separator exactly when every cell it would yield is a dash
      cell: the rows the parser keeps are precisely those with a cell that is not. */
  lemma SeparatorIffDashCells(t: string)
    requires IsPipeWrapped(t)
    ensures IsSeparator(t) <==> forall i :: 0 <= i < |Cells(t)| ==> DashCell(Cells(t)[i])
  {
    if |t| < 2 {
      assert Split(Interior(t), '|') == [""];
      assert TrimStart("") == "" && TrimEnd("") == "";
      assert Cells(t)[0] == "";
      assert !DashCell(Cells(t)[0]);
      assert !IsSeparator(t);
    } else {
      var pieces := Split(Interior(t), '|');
      assert Cells(t) == TrimAll(pieces);
    }
  }

  // ---------------------------------------------------------------------------
  // Classification of a trimmed, non-blank line
  // ---------------------------------------------------------------------------

  /** Every character of `t` is `c`. */
  function AllAre(t: string, c: char): (r: bool)
    ensures r <==> forall i :: 0 <= i < |t| ==> t[i] == c
  {
    t == [] || (t[0] == c && AllAre(t[1..], c))
  }

  /** `/^-{3,}$/.test(t) || /^\*{3,}$/.test(t) || /^_{3,}$/.test(t)` */
  predicate IsRule(t: string) {
    |t| >= 3 && (AllAre(t, '-') || AllAre(t, '*') || AllAre(t, '_'))
  }

  /** Length of the prefix `^\d+\.\s` that an ordered item drops, or 0 when there is none. */
  function OrderedMarker(t: string): nat {
    var n := DigitRun(t);
    if n >= 1 && n + 1 < |t| && t[n] == '.' && IsSpace(t[n + 1]) then n + 2 else 0
  }

  /** The first-match chain of `parseStructure` for a trimmed, non-blank line. */
  function Classify(t: string): (b: Block)
    ensures b.Block? && b.kind != Code
  {
    if IsRule(t) then Block(Hr, "")
    else if StartsWith(t, "# ") then Block(H1, t[2..])
    else if StartsWith(t, "## ") then Block(H2, t[3..])
    else if StartsWith(t, "### ") then Block(H3, t[4..])
    else if StartsWith(t, "> ") then Block(Quote, t[2..])
    else if StartsWith(t, "- [x] ") || StartsWith(t, "- [X] ") then Block(TodoDone, t[6..])
    else if StartsWith(t, "- [ ] ") then Block(Todo, t[6..])
    else if |t| >= 2 && (t[0] == '-' || t[0] == '*') && IsSpace(t[1]) then Block(Li, t[2..])
    else if OrderedMarker(t) > 0 then Block(Oli, t[OrderedMarker(t)..])
    else if ('【' in t || '「' in t) && |t| < 50 then Block(Highlight, t)
    else Block(Para, t)
  }

  /** The content of a classified line: empty for a rule, the whole line for a highlight or a
      paragraph, and otherwise the line with exactly its marker dropped: `# `, `> ` and a
      bullet take two characters, `## ` three, `### ` four, a to-do box six, and an ordered
      marker its digits, the `.` and one white-space character. */
  lemma ClassifyContent(t: string)
    ensures var b := Classify(t);
            (b.kind == Hr ==> b.content == "") &&
            (b.kind == Highlight || b.kind == Para ==> b.content == t) &&
            (b.kind == H1 || b.kind == Quote || b.kind == Li ==> |t| >= 2 && b.content == t[2..]) &&
            (b.kind == H2 ==> |t| >= 3 && b.content == t[3..]) &&
            (b.kind == H3 ==> |t| >= 4 && b.content == t[4..]) &&
            (b.kind == TodoDone || b.kind == Todo ==> |t| >= 6 && b.content == t[6..]) &&
            (b.kind == Oli ==> DigitRun(t) + 2 <= |t| && b.content == t[DigitRun(t) + 2..])
  {
    var b := Classify(t);
    if IsRule(t) {
      assert b == Block(Hr, "");
    } else if StartsWith(t, "# ") {
      assert b == Block(H1, t[2..]);
    } else if StartsWith(t, "## ") {
      assert b == Block(H2, t[3..]);
    } else if StartsWith(t, "### ") {
      assert b == Block(H3, t[4..]);
    } else if StartsWith(t, "> ") {
      assert b == Block(Quote, t[2..]);
    } else if StartsWith(t, "- [x] ") || StartsWith(t, "- [X] ") {
      assert b == Block(TodoDone, t[6..]);
    } else if StartsWith(t, "- [ ] ") {
      assert b == Block(Todo, t[6..]);
    } else if |t| >= 2 && (t[0] == '-' || t[0] == '*') && IsSpace(t[1]) {
      assert b == Block(Li, t[2..]);
    } else if OrderedMarker(t) > 0 {
      assert b == Block(Oli, t[DigitRun(t) + 2..]);
    } else {
      assert b.kind == Highlight || b.kind == Para;
    }
  }

  /** What each block type asks of the trimmed line, stated the way the source's tests read. */
  ghost predicate Matches(k: Kind, t: string) {
    match k
    case Hr => |t| >= 3 && ((forall i :: 0 <= i < |t| ==> t[i] == '-') ||
                            (forall i :: 0 <= i < |t| ==> t[i] == '*') ||
                            (forall i :: 0 <= i < |t| ==> t[i] == '_'))
    case H1 => StartsWith(t, "# ")
    case H2 => StartsWith(t, "## ")
    case H3 => StartsWith(t, "### ")
    case Quote => StartsWith(t, "> ")
    case TodoDone => StartsWith(t, "- [x] ") || StartsWith(t, "- [X] ")
    case Todo => StartsWith(t, "- [ ] ")
    case Li => |t| >= 2 && (t[0] == '-' || t[0] == '*') && IsSpace(t[1])
    case Oli => exists n :: 1 <= n < |t| - 1 && (forall j :: 0 <= j < n ==> IsDigit(t[j])) &&
                            t[n] == '.' && IsSpace(t[n + 1])
    case Highlight => ('【' in t || '「' in t) && |t| < 50
    case Para => true
    case Code => false
  }

  /** The order in which the source tries the block types. */
  function Rank(k: Kind): nat {
    match k
    case Hr => 0 case H1 => 1 case H2 => 2 case H3 => 3 case Quote => 4 case TodoDone => 5
    case Todo => 6 case Li => 7 case Oli => 8 case Highlight => 9 case Para => 10 case Code => 11
  }

  /** The ordered-item marker is found exactly when the line starts with digits, `.` and
      white space; the digits dropped are all of the leading ones. */
  lemma OrderedMarkerIff(t: string)
    ensures OrderedMarker(t) > 0 <==> Matches(Oli, t)
    ensures OrderedMarker(t) > 0 ==> OrderedMarker(t) == DigitRun(t) + 2
  {
    if Matches(Oli, t) {
      var n :| 1 <= n < |t| - 1 && (forall j :: 0 <= j < n ==> IsDigit(t[j])) &&
               t[n] == '.' && IsSpace(t[n + 1]);
      assert DigitRun(t) == n;
    }
  }

  /** First match wins: the type chosen is one whose test passes, and no type tried before it
      passes. */
  lemma ClassifyFirstMatch(t: string)
    ensures Matches(Classify(t).kind, t)
    ensures forall k :: Rank(k) < Rank(Classify(t).kind) ==> !Matches(k, t)
  {
    OrderedMarkerIff(t);
    RuleIff(t);
    if IsRule(t) {
    } else if StartsWith(t, "# ") {
    } else if StartsWith(t, "## ") {
    } else if StartsWith(t, "### ") {
    } else if StartsWith(t, "> ") {
    } else if StartsWith(t, "- [x] ") || StartsWith(t, "- [X] ") {
    } else if StartsWith(t, "- [ ] ") {
    } else if |t| >= 2 && (t[0] == '-' || t[0] == '*') && IsSpace(t[1]) {
    } else if OrderedMarker(t) > 0 {
    }
  }

  /** The three rule patterns, each of three or more of one character. */
  lemma RuleIff(t: string)
    ensures IsRule(t) <==> Matches(Hr, t)
  {
  }

  // ---------------------------------------------------------------------------
  // The state machine
  // ---------------------------------------------------------------------------

  /** The locals of `parseStructure`: the blocks so far, the two latched modes and what each
      mode has accumulated. The two flags are independent: table mode stays latched across a
      fenced code block. */
  datatype ParseState = ParseState(
    blocks: seq<Block>,
    inCode: bool, code: seq<string>,
    inTable: bool, rows: seq<seq<string>>)

  const Initial := ParseState([], false, [], false, [])

  /** One iteration of the loop of `parseStructure`. Blocks already emitted are kept, and one
      line emits at most two more: a table it closes and its own block. */
  function Step(st: ParseState, line: string): (r: ParseState)
    ensures st.blocks <= r.blocks && |r.blocks| <= |st.blocks| + 2
  {
    var t := Trim(line);
    if IsFence(t) then
      if st.inCode then st.(blocks := st.blocks + [Block(Code, Join(st.code, '\n'))], code := [], inCode := false)
      else st.(inCode := true)
    else if st.inCode then st.(code := st.code + [line])
    else if IsPipeWrapped(t) then
      var tabled := if st.inTable then st else st.(inTable := true, rows := []);
      if IsSeparator(t) then tabled else tabled.(rows := tabled.rows + [Cells(t)])
    else
      var flushed := if st.inTable then st.(blocks := st.blocks + [Table(st.rows)], rows := [], inTable := false) else st;
      if t == [] then flushed else flushed.(blocks := flushed.blocks + [Classify(t)])
  }

  /** The loop run over `lines`. */
  function Steps(st: ParseState, lines: seq<string>): ParseState {
    if lines == [] then st else Step(Steps(st, lines[..|lines| - 1]), lines[|lines| - 1])
  }

  /** The flush after the loop: an open fence with content, then an open table with rows.
      The blocks emitted in the loop come first, and at most two are added. */
  function Finish(st: ParseState): (r: seq<Block>)
    ensures st.blocks <= r && |r| <= |st.blocks| + 2
    ensures !st.inCode && !st.inTable ==> r == st.blocks
  {
    st.blocks
    + (if st.inCode && |st.code| > 0 then [Block(Code, Join(st.code, '\n'))] else [])
    + (if st.inTable && |st.rows| > 0 then [Table(st.rows)] else [])
  }

  /** The blocks `parseStructure` returns for the given lines. */
  function Parse(lines: seq<string>): seq<Block> {
    Finish(Steps(Initial, lines))
  }

  /** `parseStructure` */
  method ParseStructure(text: string) returns (blocks: seq<Block>)
    ensures blocks == Parse(Split(text, '\n'))
  {
    var lines := Split(text, '\n');
    blocks := [];
    var inCodeBlock := false;
    var codeBlockContent: seq<string> := [];
    var inTable := false;
    var tableRows: seq<seq<string>> := [];
    var i := 0;
    while i < |lines|
      invariant 0 <= i <= |lines|
      invariant ParseState(blocks, inCodeBlock, codeBlockContent, inTable, tableRows) == Steps(Initial, lines[..i])
    {
      var line := lines[i];
      var trimmed := Trim(line);
      assert lines[..i + 1][..i] == lines[..i];
      if IsFence(trimmed) {
        if inCodeBlock {
          blocks := blocks + [Block(Code, Join(codeBlockContent, '\n'))];
          codeBlockContent := [];
          inCodeBlock := false;
        } else {
          inCodeBlock := true;
        }
      } else if inCodeBlock {
        codeBlockContent := codeBlockContent + [line];
      } else if IsPipeWrapped(trimmed) {
        if !inTable {
          inTable := true;
          tableRows := [];
        }
        if !IsSeparator(trimmed) {
          tableRows := tableRows + [Cells(trimmed)];
        }
      } else {
        if inTable {
          blocks := blocks + [Table(tableRows)];
          tableRows := [];
          inTable := false;
        }
        if trimmed != [] {
          blocks := blocks + [Classify(trimmed)];
        }
      }
      i := i + 1;
    }
    assert lines[..i] == lines;
    if inCodeBlock && |codeBlockContent| > 0 {
      blocks := blocks + [Block(Code, Join(codeBlockContent, '\n'))];
    }
    if inTable && |tableRows| > 0 {
      blocks := blocks + [Table(tableRows)];
    }
  }

  // ---------------------------------------------------------------------------
  // Properties of the parse
  // ---------------------------------------------------------------------------

  /** Running the loop over two stretches of lines is running it over their concatenation. */
  lemma {:induction false} StepsAppend(st: ParseState, a: seq<string>, b: seq<string>)
    ensures Steps(st, a + b) == Steps(Steps(st, a), b)
  {
    if b == [] {
      assert a + b == a;
    } else {
      assert (a + b)[..|a + b| - 1] == a + b[..|b| - 1];
      StepsAppend(st, a, b[..|b| - 1]);
    }
  }

  /** The accumulators are empty whenever their mode is off. */
  ghost predicate Settled(st: ParseState) {
    (!st.inCode ==> st.code == []) && (!st.inTable ==> st.rows == [])
  }

  lemma {:induction false} StepsSettled(st: ParseState, lines: seq<string>)
    requires Settled(st)
    ensures Settled(Steps(st, lines))
  {
    if lines != [] {
      StepsSettled(st, lines[..|lines| - 1]);
    }
  }

  /** Inside a fence, lines that are not fences are stored verbatim (untrimmed, blank ones
      included) and nothing else changes. */
  lemma {:induction false} CodeLinesStored(st: ParseState, body: seq<string>)
    requires st.inCode
    requires forall j :: 0 <= j < |body| ==> !IsFence(Trim(body[j]))
    ensures Steps(st, body) == st.(code := st.code + body)
  {
    if body != [] {
      var init, last := body[..|body| - 1], body[|body| - 1];
      CodeLinesStored(st, init);
      var prev := Steps(st, init);
      assert !IsFence(Trim(last));
      assert Step(prev, last) == prev.(code := prev.code + [last]);
      assert init + [last] == body;
      assert Steps(st, body) == Step(prev, last);
      assert st.code + body == (st.code + init) + [last];
    } else {
      assert st.code + body == st.code;
    }
  }

  /** A fenced code block: the two fence lines are never stored, the lines between them are
      joined with `\n` into one `codeblock`, and the state is otherwise as before (so a table
      that was open stays open). */
  lemma FencedCodeBlock(st: ParseState, open: string, body: seq<string>, close: string)
    requires Settled(st) && !st.inCode
    requires IsFence(Trim(open)) && IsFence(Trim(close))
    requires forall j :: 0 <= j < |body| ==> !IsFence(Trim(body[j]))
    ensures Steps(st, [open] + body + [close]) == st.(blocks := st.blocks + [Block(Code, Join(body, '\n'))])
  {
    var entered := st.(inCode := true);
    assert Steps(st, [open]) == entered by {
      assert [open][..0] == [];
      assert Steps(st, [open]) == Step(st, open);
    }
    StepsAppend(st, [open], body);
    CodeLinesStored(entered, body);
    var inside := entered.(code := body);
    assert Steps(st, [open] + body) == inside;
    StepsAppend(st, [open] + body, [close]);
    assert Steps(inside, [close]) == Step(inside, close) by {
      assert [close][..0] == [];
    }
  }

  /** An unclosed fence at the end of input becomes a final `codeblock` only when at least
      one line followed it; an open table's rows are flushed after it. */
  lemma UnclosedFence(st: ParseState, open: string, body: seq<string>)
    requires Settled(st) && !st.inCode
    requires IsFence(Trim(open))
    requires forall j :: 0 <= j < |body| ==> !IsFence(Trim(body[j]))
    ensures Finish(Steps(st, [open] + body)) ==
      st.blocks
      + (if body == [] then [] else [Block(Code, Join(body, '\n'))])
      + (if st.inTable && st.rows != [] then [Table(st.rows)] else [])
  {
    var entered := st.(inCode := true);
    assert Steps(st, [open]) == entered by {
      assert [open][..0] == [];
      assert Steps(st, [open]) == Step(st, open);
    }
    StepsAppend(st, [open], body);
    CodeLinesStored(entered, body);
    assert Steps(st, [open] + body) == entered.(code := body);
  }

  /** The rows a run of pipe-wrapped lines contributes: each line's cells, separators skipped. */
  function RowsOf(lines: seq<string>): seq<seq<string>> {
    if lines == [] then []
    else
      var t := Trim(lines[|lines| - 1]);
      RowsOf(lines[..|lines| - 1]) + (if IsSeparator(t) then [] else [Cells(t)])
  }

  ghost predicate AllTableLines(lines: seq<string>) {
    forall j :: 0 <= j < |lines| ==> IsPipeWrapped(Trim(lines[j])) && !IsFence(Trim(lines[j]))
  }

  /** Outside a fence, a run of pipe-wrapped lines opens (or continues) table mode and
      appends the rows of its non-separator lines. */
  lemma {:induction false} TableLinesStored(st: ParseState, lines: seq<string>)
    requires Settled(st) && !st.inCode && !st.inTable
    requires lines != [] && AllTableLines(lines)
    ensures Steps(st, lines) == st.(inTable := true, rows := RowsOf(lines))
  {
    var init := lines[..|lines| - 1];
    if init == [] {
      assert Steps(st, init) == st;
    } else {
      TableLinesStored(st, init);
    }
  }

  /** The first line that is not pipe-wrapped ends the table: one `table` block is emitted,
      even when every line was a separator and it has no rows, and then that line is handled
      as usual. */
  lemma TableClosedByLine(st: ParseState, lines: seq<string>, next: string)
    requires Settled(st) && !st.inCode && !st.inTable
    requires lines != [] && AllTableLines(lines)
    requires !IsPipeWrapped(Trim(next)) && !IsFence(Trim(next))
    ensures Steps(st, lines + [next]).blocks ==
      st.blocks + [Table(RowsOf(lines))] + (if Trim(next) == [] then [] else [Classify(Trim(next))])
  {
    TableLinesStored(st, lines);
    var open := st.(inTable := true, rows := RowsOf(lines));
    assert (lines + [next])[..|lines|] == lines;
    assert Steps(st, lines + [next]) == Step(open, next);
  }

  /** A table still open at the end of input is flushed only when it has a row. */
  lemma TableAtEnd(st: ParseState, lines: seq<string>)
    requires Settled(st) && !st.inCode && !st.inTable
    requires lines != [] && AllTableLines(lines)
    ensures Finish(Steps(st, lines)) == st.blocks + (if RowsOf(lines) == [] then [] else [Table(RowsOf(lines))])
  {
    TableLinesStored(st, lines);
  }

  /** A row with at least one cell that is not a dash cell: never a separator row. */
  ghost predicate DataRow(row: seq<string>) {
    exists i :: 0 <= i < |row| && !DashCell(row[i])
  }

  ghost predicate NoSeparatorRows(blocks: seq<Block>) {
    forall b :: b in blocks && b.Table? ==> forall r :: r in b.rows ==> DataRow(r)
  }

  lemma {:induction false} StepsKeepNoSeparatorRows(lines: seq<string>)
    ensures var st := Steps(Initial, lines);
            NoSeparatorRows(st.blocks) && forall r :: r in st.rows ==> DataRow(r)
  {
    if lines != [] {
      var prev := Steps(Initial, lines[..|lines| - 1]);
      StepsKeepNoSeparatorRows(lines[..|lines| - 1]);
      var line := lines[|lines| - 1];
      var t := Trim(line);
      assert Steps(Initial, lines) == Step(prev, line);
      if IsFence(t) || prev.inCode {
      } else if IsPipeWrapped(t) {
        if !IsSeparator(t) {
          SeparatorIffDashCells(t);
          assert DataRow(Cells(t));
        }
      } else {
        assert forall r :: r in prev.rows ==> DataRow(r);
      }
    }
  }

  /** Table blocks never hold a separator row: every stored row has a cell other than an
      optional-colon dash run. */
  lemma ParseHasNoSeparatorRows(lines: seq<string>)
    ensures NoSeparatorRows(Parse(lines))
  {
    StepsKeepNoSeparatorRows(lines);
  }

  /** The blocks of lines that hold no fence and no pipe-wrapped line: one block per
      non-blank line, in order. */
  function PlainBlocks(lines: seq<string>): seq<Block> {
    if lines == [] then []
    else
      var t := Trim(lines[|lines| - 1]);
      PlainBlocks(lines[..|lines| - 1]) + (if t == [] then [] else [Classify(t)])
  }

  lemma {:induction false} PlainStepsOnlyClassify(lines: seq<string>)
    requires forall j :: 0 <= j < |lines| ==> !IsFence(Trim(lines[j])) && !IsPipeWrapped(Trim(lines[j]))
    ensures Steps(Initial, lines) == Initial.(blocks := PlainBlocks(lines))
  {
    if lines != [] {
      PlainStepsOnlyClassify(lines[..|lines| - 1]);
    }
  }

  /** Outside code and table mode blank lines produce nothing and every other line exactly
      one block, in source order. */
  lemma PlainLinesParse(lines: seq<string>)
    requires forall j :: 0 <= j < |lines| ==> !IsFence(Trim(lines[j])) && !IsPipeWrapped(Trim(lines[j]))
    ensures Parse(lines) == PlainBlocks(lines)
    ensures |Parse(lines)| == NonBlankCount(lines)
  {
    PlainStepsOnlyClassify(lines);
    PlainBlocksCount(lines);
  }

  /** The number of lines that are not blank once trimmed. */
  function NonBlankCount(lines: seq<string>): nat {
    if lines == [] then 0
    else NonBlankCount(lines[..|lines| - 1]) + (if Trim(lines[|lines| - 1]) == [] then 0 else 1)
  }

  lemma {:induction false} PlainBlocksCount(lines: seq<string>)
    ensures |PlainBlocks(lines)| == NonBlankCount(lines)
  {
    if lines != [] {
      PlainBlocksCount(lines[..|lines| - 1]);
    }
  }
}
