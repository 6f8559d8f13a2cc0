/**
 * The table plugin's command side: building a table of given dimensions and
 * splicing it, with a paragraph after it (and, at a root, one before it),
 * into the children of the root or shadow root that holds the caret.
 */
module CustomTablePlugin {
  import opened Lexical
  import opened CustomTableNodes

  /** A child of a root or shadow root. */
  datatype Block =
    | ParagraphBlock(paragraph: ParagraphNode)
    | TableBlock(table: CustomTableNode)
    | OtherBlock(key: Key)

  /** An exception thrown inside the command; the editor then discards the update. */
  datatype InsertError = TopLevelElementMissing | NoFirstCell

  /** `Handled` is the command returning true. */
  datatype CommandResult = Handled | Threw(error: InsertError)

  /** A fresh empty paragraph (`$createParagraphNode()`). */
  function EmptyParagraph(key: Key): Block
  {
    ParagraphBlock(ParagraphNode(key, []))
  }

  /** The cell `createCellWithParagraphNode` builds from keys key, key + 1 and key + 2. */
  function EmptyCell(key: Key): TableCellNode
  {
    TableCellNode(key, NoStatus, [ParagraphNode(key + 1, [TextNode(key + 2, "")])])
  }

  /** A no-header cell holding one paragraph that holds one empty text node. */
  predicate IsEmptyCell(c: TableCellNode)
  {
    && c.headerState == NoStatus
    && |c.children| == 1
    && |c.children[0].children| == 1
    && c.children[0].children[0].text == ""
  }

  /** `n` cells created one after the other from key `first` on. */
  function CellRun(first: Key, n: nat): (cells: seq<TableCellNode>)
    ensures |cells| == n
    ensures forall j :: 0 <= j < n ==> IsEmptyCell(cells[j]) && cells[j].key == first + 3 * j
  {
    seq(n, j requires 0 <= j < n => EmptyCell(first + 3 * j))
  }

  /**
   * The rows the builder attaches to a table whose rows get keys from
   * `first` on: all rows are created first, then the cells row by row.
   */
  function Grid(first: Key, rowCount: nat, columnCount: nat): (rows: seq<TableRowNode>)
    ensures |rows| == rowCount
    ensures forall i :: 0 <= i < rowCount ==> rows[i].key == first + i && |rows[i].cells| == columnCount
    ensures forall i, j :: 0 <= i < rowCount && 0 <= j < columnCount ==> IsEmptyCell(rows[i].cells[j])
  {
    seq(rowCount, i requires 0 <= i < rowCount =>
      TableRowNode(first + i, CellRun(first + rowCount + 3 * (columnCount * i), columnCount)))
  }

  /** How many nodes (and keys) a built table takes: the table, its rows, and
      a cell, a paragraph and a text node per cell. */
  function TableNodeCount(rowCount: nat, columnCount: nat): nat
  {
    1 + rowCount + 3 * (columnCount * rowCount)
  }

  lemma MulMonotone(c: nat, a: nat, b: nat)
    requires a <= b
    ensures c * a <= c * b
  {
  }

  /** Row-major position (i, j) of a grid with `c` columns comes before (i2, j2). */
  lemma RowMajorOrder(c: nat, i: nat, j: nat, i2: nat, j2: nat)
    requires j < c && j2 < c
    requires i < i2 || (i == i2 && j < j2)
    ensures c * i + j < c * i2 + j2
  {
    if i < i2 {
      MulMonotone(c, i + 1, i2);
      assert c * (i + 1) == c * i + c;
    }
  }

  /** Every row of a grid is created before every cell, whatever their positions. */
  lemma GridRowsBeforeCells(first: Key, rowCount: nat, columnCount: nat, r: nat, i: nat, j: nat)
    requires r < rowCount && i < rowCount && j < columnCount
    ensures var g := Grid(first, rowCount, columnCount);
      g[r].key < first + rowCount <= g[i].cells[j].key
  {
    MulMonotone(columnCount, 0, i);
  }

  /**
   * Rows and cells appear in creation order: row-major enumeration of the
   * grid meets strictly increasing keys, and every row precedes every cell.
   */
  lemma GridCreationOrder(first: Key, rowCount: nat, columnCount: nat, i: nat, j: nat, i2: nat, j2: nat)
    requires i < rowCount && i2 < rowCount && j < columnCount && j2 < columnCount
    requires i < i2 || (i == i2 && j < j2)
    ensures var g := Grid(first, rowCount, columnCount);
      g[i].key <= g[i2].key < g[i].cells[j].key < g[i2].cells[j2].key
  {
    var g := Grid(first, rowCount, columnCount);
    assert g[i].cells[j].key == first + rowCount + 3 * (columnCount * i) + 3 * j;
    assert g[i2].cells[j2].key == first + rowCount + 3 * (columnCount * i2) + 3 * j2;
    RowMajorOrder(columnCount, i, j, i2, j2);
  }

  /**
   * Splice at a root or shadow root: a paragraph, the table and a paragraph
   * go in front of the child at the caret offset, or at the end when there is
   * no such child; every existing child keeps its place relative to the others.
   */
  function RootInsertion(children: seq<Block>, offset: nat, before: Block, table: Block, after: Block): (r: seq<Block>)
    ensures var k := if offset < |children| then offset else |children|;
      && |r| == |children| + 3
      && r[k] == before && r[k + 1] == table && r[k + 2] == after
      && (forall i :: 0 <= i < k ==> r[i] == children[i])
      && (forall i :: k <= i < |children| ==> r[i + 3] == children[i])
  {
    var k := if offset < |children| then offset else |children|;
    children[..k] + [before, table, after] + children[k..]
  }

  /**
   * Splice after a nested caret: the table and a paragraph go right after the
   * caret's top-level element; every existing child keeps its place.
   */
  function NestedInsertion(children: seq<Block>, index: nat, table: Block, after: Block): (r: seq<Block>)
    requires index < |children|
    ensures |r| == |children| + 2
    ensures r[index + 1] == table && r[index + 2] == after
    ensures forall i :: 0 <= i <= index ==> r[i] == children[i]
    ensures forall i :: index < i < |children| ==> r[i + 2] == children[i]
  {
    children[..index + 1] + [table, after] + children[index + 1..]
  }

  /**
   * The editor as one insert command sees it: the key counter, the children
   * of the root or shadow root that held the caret when the command ran, and
   * the selection. An `Editor` describes a single command: `children` does
   * not follow the caret when the command moves it into the new table.
   */
  class Editor {
    var keyCounter: nat
    var children: seq<Block>
    var selection: Selection

    constructor (children: seq<Block>, selection: Selection, keyCounter: nat)
      ensures this.children == children && this.selection == selection && this.keyCounter == keyCounter
    {
      this.children := children;
      this.selection := selection;
      this.keyCounter := keyCounter;
    }

    method GenerateKey() returns (key: Key)
      modifies this`keyCounter
      ensures key == old(keyCounter) && keyCounter == key + 1
    {
      key := keyCounter;
      keyCounter := keyCounter + 1;
    }

    /** `$createParagraphNode()`. */
    method CreateParagraphNode() returns (p: Block)
      modifies this`keyCounter
      ensures p == EmptyParagraph(old(keyCounter)) && keyCounter == old(keyCounter) + 1
    {
      var key := GenerateKey();
      p := ParagraphBlock(ParagraphNode(key, []));
    }

    /** `createCellWithParagraphNode`: the cell first, then its paragraph, then the text node. */
    method CreateCellWithParagraphNode() returns (cell: TableCellNode)
      modifies this`keyCounter
      ensures cell == EmptyCell(old(keyCounter)) && keyCounter == old(keyCounter) + 3
    {
      var cellKey := GenerateKey();
      var paragraphKey := GenerateKey();
      var textKey := GenerateKey();
      cell := TableCellNode(cellKey, NoStatus, [ParagraphNode(paragraphKey, [TextNode(textKey, "")])]);
    }

    /** `cellsToAppend(cells)(row)`: appends `cells` new cells to the row. */
    method CellsToAppend(cells: nat, row: TableRowNode) returns (result: TableRowNode)
      modifies this`keyCounter
      ensures result == row.(cells := row.cells + CellRun(old(keyCounter), cells))
      ensures keyCounter == old(keyCounter) + 3 * cells
    {
      result := row;
      for j := 0 to cells
        invariant keyCounter == old(keyCounter) + 3 * j
        invariant result == row.(cells := row.cells + CellRun(old(keyCounter), j))
      {
        var cell := CreateCellWithParagraphNode();
        result := result.(cells := result.cells + [cell]);
      }
    }

    /** `createRows(rows)`: that many new empty rows. */
    method CreateRows(rows: nat) returns (result: seq<TableRowNode>)
      modifies this`keyCounter
      ensures |result| == rows
      ensures forall i :: 0 <= i < rows ==> result[i] == TableRowNode(old(keyCounter) + i, [])
      ensures keyCounter == old(keyCounter) + rows
    {
      result := [];
      for i := 0 to rows
        invariant |result| == i && keyCounter == old(keyCounter) + i
        invariant forall r :: 0 <= r < i ==> result[r] == TableRowNode(old(keyCounter) + r, [])
      {
        var key := GenerateKey();
        result := result + [TableRowNode(key, [])];
      }
    }

    /**
     * `$createCustomTableNodeWithDimensions`: a detached table of the given
     * width with `rowCount` rows of `columnCount` empty no-header cells, in
     * creation order.
     */
    method CreateCustomTableNodeWithDimensions(rowCount: nat, columnCount: nat, width: nat)
      returns (tableNode: CustomTableNode)
      modifies this`keyCounter
      ensures fresh(tableNode)
      ensures tableNode.key == old(keyCounter) && tableNode.width == width
      ensures tableNode.rows == Grid(old(keyCounter) + 1, rowCount, columnCount)
      ensures keyCounter == old(keyCounter) + TableNodeCount(rowCount, columnCount)
    {
      var key := GenerateKey();
      tableNode := new CustomTableNode(width, key);
      var rows := CreateRows(rowCount);
      ghost var grid := Grid(key + 1, rowCount, columnCount);
      // Fill each row with its cells, row by row.
      for i := 0 to rowCount
        invariant |rows| == rowCount && tableNode.rows == []
        invariant keyCounter == key + 1 + rowCount + 3 * (columnCount * i)
        invariant forall r :: 0 <= r < i ==> rows[r] == grid[r]
        invariant forall r :: i <= r < rowCount ==> rows[r] == TableRowNode(key + 1 + r, [])
      {
        ghost var start := keyCounter;
        var row := CellsToAppend(columnCount, rows[i]);
        assert row.cells == CellRun(start, columnCount);
        assert row == grid[i];
        assert columnCount * (i + 1) == columnCount * i + columnCount;
        rows := rows[i := row];
      }
      // Attach the filled rows to the table, in order.
      for i := 0 to rowCount
        invariant tableNode.rows == rows[..i]
        invariant keyCounter == key + 1 + rowCount + 3 * (columnCount * rowCount)
      {
        tableNode.Append(rows[i]);
      }
      assert rows == grid;
    }

    /** `insertBefore` on the child at `index`. */
    method InsertBefore(index: nat, block: Block)
      requires index < |children|
      modifies this`children
      ensures children == old(children)[..index] + [block] + old(children)[index..]
    {
      children := children[..index] + [block] + children[index..];
    }

    /** `insertAfter` on the child at `index`. */
    method InsertAfter(index: nat, block: Block)
      requires index < |children|
      modifies this`children
      ensures children == old(children)[..index + 1] + [block] + old(children)[index + 1..]
    {
      children := children[..index + 1] + [block] + children[index + 1..];
    }

    method Append(block: Block)
      modifies this`children
      ensures children == old(children) + [block]
    {
      children := children + [block];
    }

    /**
     * Placing the table at the root: it goes in front of the child at
     * the caret offset, or at the end, and a new paragraph in front of it.
     */
    method PlaceAtRoot(offset: nat, table: Block) returns (tableIndex: nat)
      modifies this`children, this`keyCounter
      ensures var k := if offset < |old(children)| then offset else |old(children)|;
        && children == old(children)[..k] + [EmptyParagraph(old(keyCounter)), table] + old(children)[k..]
        && tableIndex == k + 1
      ensures keyCounter == old(keyCounter) + 1
    {
      if offset < |children| {
        InsertBefore(offset, table);
        tableIndex := offset;
      } else {
        Append(table);
        tableIndex := |children| - 1;
      }
      var before := CreateParagraphNode();
      InsertBefore(tableIndex, before);
      tableIndex := tableIndex + 1;
    }

    /**
     * The `INSERT_CUSTOM_TABLE_COMMAND` handler. Without a range selection
     * or a focus node it does nothing. Otherwise it builds the table and
     * splices it in (see SpliceTable).
     */
    method InsertCustomTable(rows: nat, columns: nat, width: nat)
      returns (result: CommandResult, ghost tableNode: CustomTableNode?)
      modifies this
      ensures !old(selection).RangeSelection? || old(selection).focus.node.None? ==>
        && result == Handled && tableNode == null
        && children == old(children) && selection == old(selection) && keyCounter == old(keyCounter)
      ensures old(selection).RangeSelection? && old(selection).focus.node.Some? ==>
        && tableNode != null && fresh(tableNode)
        && tableNode.key == old(keyCounter) && tableNode.width == width
        && tableNode.rows == Grid(old(keyCounter) + 1, rows, columns)
        && Inserted(old(children), old(selection), old(keyCounter) + TableNodeCount(rows, columns), tableNode,
                    result, children, selection, keyCounter)
    {
      tableNode := null;
      if !selection.RangeSelection? {
        return Handled, tableNode;
      }
      var focus := selection.focus;
      if focus.node.None? {
        return Handled, tableNode;
      }
      var newTable := CreateCustomTableNodeWithDimensions(rows, columns, width);
      tableNode := newTable;
      result := SpliceTable(newTable);
    }

    /**
     * Placing a built table: the splice at the
     * root or after the caret's top-level element, the trailing paragraph, and
     * the caret moved into the first cell. An exception on the way discards
     * the update, so the children and the selection are as before.
     */
    method SpliceTable(tableNode: CustomTableNode) returns (result: CommandResult)
      requires selection.RangeSelection? && selection.focus.node.Some?
      modifies this`children, this`selection, this`keyCounter
      ensures Inserted(old(children), old(selection), old(keyCounter), tableNode,
                       result, children, selection, keyCounter)
    {
      var focus := selection.focus;
      var focusNode := focus.node.value;
      // the state the editor restores when the update throws
      var childrenBefore, selectionBefore := children, selection;
      ghost var first := keyCounter;
      var table := TableBlock(tableNode);
      var tableIndex: nat;
      if focusNode.ContainerNode? {
        tableIndex := PlaceAtRoot(focus.offset, table);
      } else {
        // getTopLevelElementOrThrow
        if !TopLevelFound(focusNode, children) {
          return Threw(TopLevelElementMissing);
        }
        InsertAfter(focusNode.topLevelIndex.value, table);
        tableIndex := focusNode.topLevelIndex.value + 1;
      }
      var after := CreateParagraphNode();
      InsertAfter(tableIndex, after);
      if focusNode.ContainerNode? {
        RootSteps(childrenBefore, focus.offset, EmptyParagraph(first), table, after);
      } else {
        NestedSteps(childrenBefore, focusNode.topLevelIndex.value, table, after);
      }
      // getFirstChildOrThrow on the table, then on its first row
      if |tableNode.rows| == 0 || |tableNode.rows[0].cells| == 0 {
        children, selection := childrenBefore, selectionBefore;
        return Threw(NoFirstCell);
      }
      selection := CaretInCell(tableNode.rows[0].cells[0]);
      result := Handled;
    }
  }

  /** The two root-branch splices and the final insert-after make RootInsertion. */
  lemma RootSteps(c: seq<Block>, offset: nat, before: Block, table: Block, after: Block)
    ensures var k := if offset < |c| then offset else |c|;
      var placed := c[..k] + [before, table] + c[k..];
      placed[..k + 2] + [after] + placed[k + 2..] == RootInsertion(c, offset, before, table, after)
  {
    var k := if offset < |c| then offset else |c|;
    var placed := c[..k] + [before, table] + c[k..];
    assert placed[..k + 2] == c[..k] + [before, table];
    assert placed[k + 2..] == c[k..];
  }

  /** The nested-branch splice and the final insert-after make NestedInsertion. */
  lemma NestedSteps(c: seq<Block>, index: nat, table: Block, after: Block)
    requires index < |c|
    ensures var placed := c[..index + 1] + [table] + c[index + 1..];
      placed[..index + 2] + [after] + placed[index + 2..] == NestedInsertion(c, index, table, after)
  {
    var placed := c[..index + 1] + [table] + c[index + 1..];
    assert placed[..index + 2] == c[..index + 1] + [table];
    assert placed[index + 2..] == c[index + 1..];
  }

  /**
   * The state after the handler spliced in `table`, whose nodes took the keys
   * below `first`, for a range selection with a focus node: a failed
   * top-level lookup or a table without a first cell throws and leaves
   * children and selection alone; otherwise the table is spliced in and the
   * caret sits in its first cell.
   */
  ghost predicate Inserted(
    children: seq<Block>, selection: Selection, first: Key, table: CustomTableNode,
    result: CommandResult, children': seq<Block>, selection': Selection, keyCounter': nat)
    requires selection.RangeSelection? && selection.focus.node.Some?
    reads table
  {
    var focus := selection.focus;
    var node := focus.node.value;
    if node.NestedNode? && !TopLevelFound(node, children) then
      && result == Threw(TopLevelElementMissing)
      && children' == children && selection' == selection
      && keyCounter' == first
    else
      && keyCounter' == first + (if node.ContainerNode? then 2 else 1)
      && if |table.rows| == 0 || |table.rows[0].cells| == 0 then
           result == Threw(NoFirstCell) && children' == children && selection' == selection
         else
           && result == Handled
           && selection' == CaretInCell(table.rows[0].cells[0])
           && children' == (if node.ContainerNode?
                            then RootInsertion(children, focus.offset, EmptyParagraph(first),
                                               TableBlock(table), EmptyParagraph(first + 1))
                            else NestedInsertion(children, node.topLevelIndex.value,
                                                 TableBlock(table), EmptyParagraph(first)))
  }

  /** Whether `getTopLevelElementOrThrow` finds the focus node's top-level element. */
  predicate TopLevelFound(node: NodeRef, children: seq<Block>)
    requires node.NestedNode?
  {
    node.topLevelIndex.Some? && node.topLevelIndex.value < |children|
  }
}
