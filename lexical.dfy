/**
 * The parts of the host rich-text editor that the table plugin talks to,
 * reduced to values: node keys, the nodes the plugin creates, and the
 * selection with the answers the editor gives about a selection point.
 */
module Lexical {

  datatype Option<+T> = None | Some(value: T)

  /** A node key. The editor hands keys out from a counter, so a larger key
      belongs to a node created later. */
  type Key = nat

  /** The identity of a rendered DOM element. */
  datatype Element = Element(id: nat)

  /** Partial lookup of the rendered element of a node (`getElementByKey`). */
  function GetElementByKey(elements: map<Key, Element>, key: Key): (r: Option<Element>)
    ensures r.Some? <==> key in elements
    ensures r.Some? ==> r.value == elements[key]
  {
    if key in elements then Some(elements[key]) else None
  }

  /** The header classification of a table cell (`TableCellHeaderStates`). */
  datatype HeaderState = NoStatus | RowHeader | ColumnHeader | BothHeaders

  datatype TextNode = TextNode(key: Key, text: string)

  datatype ParagraphNode = ParagraphNode(key: Key, children: seq<TextNode>)

  datatype TableCellNode = TableCellNode(key: Key, headerState: HeaderState, children: seq<ParagraphNode>)

  datatype TableRowNode = TableRowNode(key: Key, cells: seq<TableCellNode>)

  /**
   * The node a selection point sits on, as the editor describes it.
   * A ContainerNode is a root or shadow root (`$isRootOrShadowRoot`; a table
   * cell is a shadow root); any other node is a NestedNode, whose top-level
   * element (`getTopLevelElement`) is child number `topLevelIndex` of the
   * nearest root or shadow root, when the editor finds one. `tableCell` is the
   * key of the nearest enclosing table cell, the node itself included
   * (`$getTableCellNodeFromLexicalNode`).
   */
  datatype NodeRef =
    | ContainerNode(key: Key, tableCell: Option<Key>)
    | NestedNode(key: Key, topLevelIndex: Option<nat>, tableCell: Option<Key>)

  /** A selection point; `node` is None when `getNode()` yields nothing. */
  datatype Point = Point(node: Option<NodeRef>, offset: nat)

  datatype Selection =
    | RangeSelection(anchor: Point, focus: Point)
    | NodeSelection
    | GridSelection
    | NoSelection

  /** The enclosing table cell of a point's node; no node has none. */
  function TableCellOf(p: Point): (r: Option<Key>)
    ensures p.node.None? ==> r.None?
    ensures p.node.Some? ==> r == p.node.value.tableCell
  {
    match p.node
    case None => None
    case Some(n) => n.tableCell
  }

  /**
   * The selection after `cell.select()`: a collapsed range selection on the
   * cell, at the offset after its last child.
   */
  function CaretInCell(cell: TableCellNode): (s: Selection)
    ensures s.RangeSelection? && s.anchor == s.focus
    ensures TableCellOf(s.anchor) == Some(cell.key)
    ensures s.focus.node.Some? && s.focus.node.value.ContainerNode?
  {
    var p := Point(Some(ContainerNode(cell.key, Some(cell.key))), |cell.children|);
    RangeSelection(p, p)
  }
}
