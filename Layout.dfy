/** The order in which `formatText` in `src/utils/formatter.js` puts the pieces of its output
    together: the block loop with its list bookkeeping (`WriteBlocks`) and the row and cell
    loops of a table (`WriteTable`). What each piece says (the tags of a list, the HTML of a
    list item, of a cell, of any other block) is a parameter, a `Writer`; `Render` gives the
    one `formatText` uses.

    `Rest` is the block loop written as a function of the position and the two locals
    `inList` and `listType`; `Blocks` is the intended shape of the output, one list per
    maximal run of list items and one piece per other block. `RestIsBlocks` proves the two
    agree. */
module Layout {
  import opened Parser

  // ---------------------------------------------------------------------------
  // Lists
  // ---------------------------------------------------------------------------

  /** `li` and `oli` blocks. */
  predicate IsItem(b: Block) {
    b.Block? && (b.kind == Li || b.kind == Oli)
  }

  /** The `listType` local: `null`, `'ul'` or `'ol'`. */
  datatype ListType = NoList | Ul | Ol

  /** The list a run of items is wrapped in is chosen by its first item. */
  function ListTypeOf(b: Block): ListType {
    if b.Block? && b.kind == Li then Ul else Ol
  }

  /** How each piece of the output is written: the opening and closing tag of a list of a
      given type, a list item, a block of any other type from its type and content, the
      tags around a table and around a row, and a cell (in the header row or not). */
  datatype Writer = Writer(
    openList: ListType -> string,
    closeList: ListType -> string,
    item: Block -> string,
    other: (Kind, string) -> string,
    tableOpen: string,
    tableClose: string,
    rowOpen: string,
    rowClose: string,
    cell: (string, bool) -> string)

  /** A block that is not a list item: a table is written row by row, any other block by
      `other`. */
  function Piece(b: Block, w: Writer): string {
    if b.Table? then TableOf(b.rows, w) else w.other(b.kind, b.content)
  }

  /** Whether the item at `i` is the last of its run: the look-ahead at `blocks[index + 1]`. */
  predicate EndsRun(bs: seq<Block>, i: nat)
    requires i < |bs|
  {
    i + 1 == |bs| || !IsItem(bs[i + 1])
  }

  /** What the block loop appends from position `i` on, with `inList` and `listType` as
      given, including the list closed after the loop when one is still open. An item met
      outside a list first opens one of its own type; any other block met inside a list
      first closes it. */
  function Rest(bs: seq<Block>, i: nat, inList: bool, lt: ListType, w: Writer): string
    requires i <= |bs|
    decreases |bs| - i, if i < |bs| && IsItem(bs[i]) != inList then 1 else 0
  {
    if i == |bs| then
      (if inList then w.closeList(lt) else "")
    else if IsItem(bs[i]) then
      if !inList then
        w.openList(ListTypeOf(bs[i])) + Rest(bs, i, true, ListTypeOf(bs[i]), w)
      else if EndsRun(bs, i) then
        w.item(bs[i]) + w.closeList(lt) + Rest(bs, i + 1, false, NoList, w)
      else
        w.item(bs[i]) + Rest(bs, i + 1, true, lt, w)
    else if inList then
      w.closeList(lt) + Rest(bs, i, false, NoList, w)
    else
      Piece(bs[i], w) + Rest(bs, i + 1, false, NoList, w)
  }

  /** The index just past the run of list items that starts at `i`. */
  function RunEnd(bs: seq<Block>, i: nat): (j: nat)
    requires i <= |bs|
    ensures i <= j <= |bs|
    decreases |bs| - i
  {
    if i < |bs| && IsItem(bs[i]) then RunEnd(bs, i + 1) else i
  }

  /** `RunEnd` stops at the first block from `i` on that is not a list item. */
  lemma {:induction false} RunEndSpec(bs: seq<Block>, i: nat)
    requires i <= |bs|
    ensures forall j :: i <= j < RunEnd(bs, i) ==> IsItem(bs[j])
    ensures RunEnd(bs, i) < |bs| ==> !IsItem(bs[RunEnd(bs, i)])
    decreases |bs| - i
  {
    if i < |bs| && IsItem(bs[i]) {
      RunEndSpec(bs, i + 1);
    }
  }

  /** The items at positions `lo` to `hi - 1`, first to last. */
  function Items(bs: seq<Block>, lo: nat, hi: nat, w: Writer): string
    requires lo <= hi <= |bs|
    decreases hi - lo
  {
    if lo == hi then "" else w.item(bs[lo]) + Items(bs, lo + 1, hi, w)
  }

  /** The intended output for the blocks from `i` on: each maximal run of list items in one
      list whose type is that of the run's first item, every other block by itself. */
  function Blocks(bs: seq<Block>, i: nat, w: Writer): string
    requires i <= |bs|
    decreases |bs| - i
  {
    if i == |bs| then ""
    else if IsItem(bs[i]) then
      var j := RunEnd(bs, i);
      var lt := ListTypeOf(bs[i]);
      w.openList(lt) + Items(bs, i, j, w) + w.closeList(lt) + Blocks(bs, j, w)
    else
      Piece(bs[i], w) + Blocks(bs, i + 1, w)
  }

  /** The intended output for a whole document. */
  function Document(bs: seq<Block>, w: Writer): string {
    Blocks(bs, 0, w)
  }

  /** Outside a list, an item opens a list of its own type and is then handled as inside it. */
  lemma RestOpens(bs: seq<Block>, i: nat, lt: ListType, w: Writer)
    requires i < |bs| && IsItem(bs[i])
    ensures Rest(bs, i, false, lt, w) == w.openList(ListTypeOf(bs[i])) + Rest(bs, i, true, ListTypeOf(bs[i]), w)
  {
  }

  /** Inside a list, the last item of a run closes the list. */
  lemma RestCloses(bs: seq<Block>, i: nat, lt: ListType, w: Writer)
    requires i < |bs| && IsItem(bs[i]) && EndsRun(bs, i)
    ensures Rest(bs, i, true, lt, w) == w.item(bs[i]) + w.closeList(lt) + Rest(bs, i + 1, false, NoList, w)
  {
  }

  /** Inside a list, an item followed by another stays in the list. */
  lemma RestContinues(bs: seq<Block>, i: nat, lt: ListType, w: Writer)
    requires i < |bs| && IsItem(bs[i]) && !EndsRun(bs, i)
    ensures Rest(bs, i, true, lt, w) == w.item(bs[i]) + Rest(bs, i + 1, true, lt, w)
  {
  }

  /** Inside a list, a block that is not an item first closes the list. */
  lemma RestLeaves(bs: seq<Block>, i: nat, lt: ListType, w: Writer)
    requires i < |bs| && !IsItem(bs[i])
    ensures Rest(bs, i, true, lt, w) == w.closeList(lt) + Rest(bs, i, false, NoList, w)
  {
  }

  /** Outside a list, a block that is not an item is written as a piece of its own. */
  lemma RestPiece(bs: seq<Block>, i: nat, w: Writer)
    requires i < |bs| && !IsItem(bs[i])
    ensures Rest(bs, i, false, NoList, w) == Piece(bs[i], w) + Rest(bs, i + 1, false, NoList, w)
  {
  }

  /** Inside a run, the loop writes the rest of the run's items, closes the list with the
      type it was opened with, and carries on outside any list. */
  lemma {:induction false} RestInList(bs: seq<Block>, i: nat, lt: ListType, w: Writer)
    requires i < |bs| && IsItem(bs[i])
    ensures var j := RunEnd(bs, i);
            Rest(bs, i, true, lt, w) == Items(bs, i, j, w) + w.closeList(lt) + Rest(bs, j, false, NoList, w)
    decreases |bs| - i
  {
    var j := RunEnd(bs, i);
    var x := w.item(bs[i]);
    if EndsRun(bs, i) {
      assert RunEnd(bs, i + 1) == i + 1;
      RestCloses(bs, i, lt, w);
      assert Items(bs, i, j, w) == x + "";
      EmptyRight(x);
    } else {
      assert j == RunEnd(bs, i + 1);
      RestContinues(bs, i, lt, w);
      RestInList(bs, i + 1, lt, w);
      assert Items(bs, i, j, w) == x + Items(bs, i + 1, j, w);
      Regroup(x, Items(bs, i + 1, j, w), w.closeList(lt), Rest(bs, j, false, NoList, w));
    }
  }

  /** Outside a list the loop writes exactly the intended output: every list it opens is
      closed by its own last item with its own tag, so the branch that closes a list before
      another block and the one that closes a list after the loop never fire, and the tag of
      `NoList` (`</null>`) is never written. */
  lemma {:induction false} RestIsBlocks(bs: seq<Block>, i: nat, lt: ListType, w: Writer)
    requires i <= |bs|
    ensures Rest(bs, i, false, lt, w) == Blocks(bs, i, w)
    decreases |bs| - i
  {
    if i < |bs| && IsItem(bs[i]) {
      var j := RunEnd(bs, i);
      var lt' := ListTypeOf(bs[i]);
      RestOpens(bs, i, lt, w);
      RestInList(bs, i, lt', w);
      RestIsBlocks(bs, j, NoList, w);
      var body := Items(bs, i, j, w);
      var tail := Blocks(bs, j, w);
      assert Blocks(bs, i, w) == w.openList(lt') + body + w.closeList(lt') + tail;
    } else if i < |bs| {
      RestIsBlocks(bs, i + 1, NoList, w);
    }
  }

  /** The blocks from `i` on, each written as a piece of its own. */
  function PiecesFrom(bs: seq<Block>, i: nat, w: Writer): string
    requires i <= |bs|
    decreases |bs| - i
  {
    if i == |bs| then "" else Piece(bs[i], w) + PiecesFrom(bs, i + 1, w)
  }

  /** Without list items nothing is grouped: the output is each block's piece, in order. */
  lemma {:induction false} NoItemsArePieces(bs: seq<Block>, i: nat, w: Writer)
    requires i <= |bs|
    requires forall j :: i <= j < |bs| ==> !IsItem(bs[j])
    ensures Blocks(bs, i, w) == PiecesFrom(bs, i, w)
    decreases |bs| - i
  {
    if i < |bs| {
      NoItemsArePieces(bs, i + 1, w);
    }
  }

  /** A run that reaches the end of the blocks ends there. */
  lemma {:induction false} RunEndAll(bs: seq<Block>, i: nat)
    requires i <= |bs|
    requires forall j :: i <= j < |bs| ==> IsItem(bs[j])
    ensures RunEnd(bs, i) == |bs|
    decreases |bs| - i
  {
    if i < |bs| {
      RunEndAll(bs, i + 1);
    }
  }

  /** Blocks that are all list items form one list, of the first item's type. */
  lemma AllItemsOneList(bs: seq<Block>, w: Writer)
    requires bs != []
    requires forall j :: 0 <= j < |bs| ==> IsItem(bs[j])
    ensures Document(bs, w) ==
      w.openList(ListTypeOf(bs[0])) + Items(bs, 0, |bs|, w) + w.closeList(ListTypeOf(bs[0]))
  {
    RunEndAll(bs, 0);
    assert Blocks(bs, |bs|, w) == "";
  }

  /** An ordered item right after a bullet item joins the bullet list: the list type is
      fixed by the first item of a run. */
  lemma MixedRunOneList(a: string, b: string, w: Writer)
    ensures Blocks([Block(Li, a), Block(Oli, b)], 0, w) ==
      w.openList(Ul) + w.item(Block(Li, a)) + w.item(Block(Oli, b)) + w.closeList(Ul)
  {
    var bs := [Block(Li, a), Block(Oli, b)];
    assert RunEnd(bs, 0) == 2 by {
      assert RunEnd(bs, 2) == 2;
      assert RunEnd(bs, 1) == 2;
    }
    assert Items(bs, 1, 2, w) == w.item(bs[1]) + "";
  }

  /** The block loop of `formatText`: a list still open after the loop is closed. It writes
      exactly the intended output: one list per run of items, one piece per other block. */
  method WriteBlocks(html: string, bs: seq<Block>, w: Writer) returns (out: string)
    ensures out == html + Document(bs, w)
  {
    out := html;
    var inList := false;
    var listType := NoList;
    var i := 0;
    while i < |bs|
      invariant 0 <= i <= |bs|
      invariant out + Rest(bs, i, inList, listType, w) == html + Rest(bs, 0, false, NoList, w)
    {
      out, inList, listType := WriteBlock(out, bs, i, inList, listType, w);
      i := i + 1;
    }
    if inList {
      out := out + w.closeList(listType);
    } else {
      assert out + "" == out;
    }
    RestIsBlocks(bs, 0, NoList, w);
  }

  /** One turn of the block loop, for the block at `index`: a list item opens a list of its
      own type when none is open and closes it when the next block is not an item; any other
      block first closes an open list. Written so far and still to come, the output is the
      same as before the turn. */
  method WriteBlock(html: string, bs: seq<Block>, index: nat, inList: bool, listType: ListType, w: Writer)
    returns (out: string, inList': bool, listType': ListType)
    requires index < |bs|
    ensures out + Rest(bs, index + 1, inList', listType', w) == html + Rest(bs, index, inList, listType, w)
  {
    var i := index;
    var block := bs[i];
    out, inList', listType' := html, inList, listType;
    if IsItem(block) {
      if !inList' {
        RestOpens(bs, i, listType', w);
        inList' := true;
        listType' := ListTypeOf(block);
        Append(out, w.openList(listType'), Rest(bs, i, true, listType', w));
        out := out + w.openList(listType');
      }
      if i + 1 >= |bs| || !IsItem(bs[i + 1]) {
        RestCloses(bs, i, listType', w);
        Append3(out, w.item(block), w.closeList(listType'), Rest(bs, i + 1, false, NoList, w));
        out := out + w.item(block) + w.closeList(listType');
        inList' := false;
        listType' := NoList;
      } else {
        RestContinues(bs, i, listType', w);
        Append(out, w.item(block), Rest(bs, i + 1, true, listType', w));
        out := out + w.item(block);
      }
    } else {
      if inList' {
        RestLeaves(bs, i, listType', w);
        Append(out, w.closeList(listType'), Rest(bs, i, false, NoList, w));
        out := out + w.closeList(listType');
        inList' := false;
        listType' := NoList;
      }
      RestPiece(bs, i, w);
      Append(out, Piece(block, w), Rest(bs, i + 1, false, NoList, w));
      if block.Table? {
        out := WriteTable(out, block.rows, w);
      } else {
        out := out + w.other(block.kind, block.content);
      }
    }
  }

  lemma Append(a: string, b: string, c: string)
    ensures a + (b + c) == (a + b) + c
  {
  }

  lemma Regroup(a: string, b: string, c: string, d: string)
    ensures a + (b + c + d) == (a + b) + c + d
  {
  }

  lemma EmptyRight(a: string)
    ensures a + "" == a
  {
  }

  lemma Append3(a: string, b: string, c: string, d: string)
    ensures a + (b + c + d) == (a + b + c) + d
  {
  }

  // ---------------------------------------------------------------------------
  // Tables
  // ---------------------------------------------------------------------------

  /** The cells of a row, in order. */
  function RowCells(row: seq<string>, header: bool, w: Writer): string {
    if row == [] then "" else RowCells(row[..|row| - 1], header, w) + w.cell(row[|row| - 1], header)
  }

  function RowOf(row: seq<string>, header: bool, w: Writer): string {
    w.rowOpen + RowCells(row, header, w) + w.rowClose
  }

  /** The rows of a table in order, the row at index 0 only as the header row. */
  function Rows(rows: seq<seq<string>>, w: Writer): string {
    if rows == [] then "" else Rows(rows[..|rows| - 1], w) + RowOf(rows[|rows| - 1], |rows| == 1, w)
  }

  function TableOf(rows: seq<seq<string>>, w: Writer): string {
    w.tableOpen + Rows(rows, w) + w.tableClose
  }

  /** Rows written as data rows, first to last. */
  function DataRows(rows: seq<seq<string>>, w: Writer): string {
    if rows == [] then "" else RowOf(rows[0], false, w) + DataRows(rows[1..], w)
  }

  lemma {:induction false} DataRowsSnoc(rows: seq<seq<string>>, last: seq<string>, w: Writer)
    ensures DataRows(rows + [last], w) == DataRows(rows, w) + RowOf(last, false, w)
  {
    if rows == [] {
      assert [] + [last] == [last];
    } else {
      assert (rows + [last])[1..] == rows[1..] + [last];
      DataRowsSnoc(rows[1..], last, w);
    }
  }

  /** Only the first row of a table is a header row: it is written with header cells and
      every row after it with data cells. */
  lemma {:induction false} HeaderRowFirst(first: seq<string>, rest: seq<seq<string>>, w: Writer)
    ensures Rows([first] + rest, w) == RowOf(first, true, w) + DataRows(rest, w)
  {
    if rest == [] {
      assert ([first] + rest)[..0] == [];
    } else {
      var init, last := rest[..|rest| - 1], rest[|rest| - 1];
      assert ([first] + rest)[..|[first] + rest| - 1] == [first] + init;
      assert Rows([first] + rest, w) == Rows([first] + init, w) + RowOf(last, false, w);
      HeaderRowFirst(first, init, w);
      assert init + [last] == rest;
      DataRowsSnoc(init, last, w);
      Append(RowOf(first, true, w), DataRows(init, w), RowOf(last, false, w));
    }
  }

  /** The `table` case of the block loop: for each row, the row's tags around its cells,
      the cells of the first row written as header cells. */
  method WriteTable(html: string, rows: seq<seq<string>>, w: Writer) returns (out: string)
    ensures out == html + TableOf(rows, w)
  {
    out := html + w.tableOpen;
    var r := 0;
    while r < |rows|
      invariant 0 <= r <= |rows|
      invariant out == html + w.tableOpen + Rows(rows[..r], w)
    {
      RowsStep(rows, r, w);
      Append(html + w.tableOpen, Rows(rows[..r], w), RowOf(rows[r], r == 0, w));
      out := WriteRow(out, rows[r], r == 0, w);
      r := r + 1;
    }
    assert rows[..r] == rows;
    Append3(html, w.tableOpen, Rows(rows, w), w.tableClose);
    out := out + w.tableClose;
  }

  lemma RowsStep(rows: seq<seq<string>>, r: nat, w: Writer)
    requires r < |rows|
    ensures Rows(rows[..r + 1], w) == Rows(rows[..r], w) + RowOf(rows[r], r == 0, w)
  {
    assert rows[..r + 1][..r] == rows[..r];
  }

  /** One row of a table: its opening tag, each cell in order, its closing tag. */
  method WriteRow(html: string, row: seq<string>, header: bool, w: Writer) returns (out: string)
    ensures out == html + RowOf(row, header, w)
  {
    out := html + w.rowOpen;
    var c := 0;
    while c < |row|
      invariant 0 <= c <= |row|
      invariant out == html + w.rowOpen + RowCells(row[..c], header, w)
    {
      assert row[..c + 1][..c] == row[..c];
      Append(html + w.rowOpen, RowCells(row[..c], header, w), w.cell(row[c], header));
      out := out + w.cell(row[c], header);
      c := c + 1;
    }
    assert row[..c] == row;
    Append3(html, w.rowOpen, RowCells(row, header, w), w.rowClose);
    out := out + w.rowClose;
  }
}
