/**
 * The table action menu: a single slot holding the rendered element of the
 * table cell under the selection's anchor, kept up to date by a
 * selection-change listener, and a menu button shown while the slot is set.
 */
module TableActionMenu {
  import opened Lexical
  import CustomTablePlugin

  /**
   * The slot after a selection change, from the slot before it. A selection
   * that is not a range selection leaves the slot as it is; otherwise the slot
   * becomes the rendered element of the table cell enclosing the anchor's
   * node, or nothing when there is no such cell or it has no element.
   */
  function ActiveCellAfter(current: Option<Element>, selection: Selection, elements: map<Key, Element>)
    : (r: Option<Element>)
    ensures !selection.RangeSelection? ==> r == current
    ensures selection.RangeSelection? && TableCellOf(selection.anchor).None? ==> r.None?
    ensures selection.RangeSelection? && TableCellOf(selection.anchor).Some? ==>
      var cell := TableCellOf(selection.anchor).value;
      (r.Some? <==> cell in elements) && (r.Some? ==> r.value == elements[cell])
  {
    if !selection.RangeSelection? then current
    else
      match TableCellOf(selection.anchor)
      case None => None
      case Some(cell) => GetElementByKey(elements, cell)
  }

  /** The focus plays no part: only the anchor decides the active cell. */
  lemma AnchorDecides(current: Option<Element>, anchor: Point, focus1: Point, focus2: Point,
                      elements: map<Key, Element>)
    ensures ActiveCellAfter(current, RangeSelection(anchor, focus1), elements)
         == ActiveCellAfter(current, RangeSelection(anchor, focus2), elements)
  {
  }

  /** For a range selection the old slot is forgotten: the slot holds only a
      registered element or nothing. */
  lemma RangeSelectionForgetsSlot(current: Option<Element>, selection: Selection, elements: map<Key, Element>)
    requires selection.RangeSelection?
    ensures var r := ActiveCellAfter(current, selection, elements);
      r == ActiveCellAfter(None, selection, elements) && (r.Some? ==> r.value in elements.Values)
  {
  }

  /** After a table is inserted the caret is in its first cell, so the slot
      becomes that cell's rendered element. */
  lemma FirstCellBecomesActive(current: Option<Element>, cell: TableCellNode, elements: map<Key, Element>)
    ensures ActiveCellAfter(current, CaretInCell(cell), elements) == GetElementByKey(elements, cell.key)
  {
  }

  /** The insert command (when it succeeds) followed by the selection change
      makes the first cell of the new table the active one. */
  lemma InsertThenTrack(rows: nat, columns: nat, first: Key, current: Option<Element>, elements: map<Key, Element>)
    requires rows > 0 && columns > 0
    ensures var cell := CustomTablePlugin.Grid(first, rows, columns)[0].cells[0];
      && cell.key == first + rows
      && ActiveCellAfter(current, CaretInCell(cell), elements) == GetElementByKey(elements, first + rows)
  {
    var cell := CustomTablePlugin.Grid(first, rows, columns)[0].cells[0];
    assert cell.key == first + rows + 3 * (columns * 0) + 3 * 0;
  }

  /** The items of the menu; none is wired to a table change. */
  datatype MenuItem =
    | InsertRowAbove | InsertRowBelow
    | InsertColumnAbove | InsertColumnBelow
    | DeleteRow | DeleteColumn | DeleteTable

  /** The menu button anchored at the active cell, with its open/closed state. */
  class TableMenuButton {
    var anchorElement: Element
    var isOpen: bool

    constructor (anchorElement: Element)
      ensures this.anchorElement == anchorElement && !isOpen
    {
      this.anchorElement := anchorElement;
      isOpen := false;
    }

    /** Clicking the button opens the menu. */
    method Click()
      modifies this`isOpen
      ensures isOpen
    {
      isOpen := true;
    }

    /** Closing the menu (`onClose`). */
    method Close()
      modifies this`isOpen
      ensures !isOpen
    {
      isOpen := false;
    }

    /** Choosing any item only closes the menu. */
    method Choose(item: MenuItem)
      modifies this`isOpen
      ensures !isOpen
    {
      isOpen := false;
    }
  }

  /** The plugin's state: the active-cell slot and the button rendered for it. */
  class TableActionMenuPlugin {
    var currentTableCellDOM: Option<Element>
    var button: TableMenuButton?

    constructor ()
      ensures currentTableCellDOM.None? && button == null
    {
      currentTableCellDOM := None;
      button := null;
    }

    /** The `SELECTION_CHANGE_COMMAND` listener; it returns true on every path. */
    method OnSelectionChange(selection: Selection, elements: map<Key, Element>) returns (handled: bool)
      modifies this`currentTableCellDOM
      ensures handled
      ensures currentTableCellDOM == ActiveCellAfter(old(currentTableCellDOM), selection, elements)
    {
      if !selection.RangeSelection? {
        return true;
      }
      var tableCellNode := TableCellOf(selection.anchor);
      if tableCellNode.None? {
        currentTableCellDOM := None;
        return true;
      }
      currentTableCellDOM := GetElementByKey(elements, tableCellNode.value);
      return true;
    }

    /**
     * Rendering: the button is shown exactly while the slot is set, anchored
     * at the slot's element. A button that stays shown keeps its open state
     * when the anchor moves; a newly shown one starts closed.
     */
    method Render()
      modifies this`button, button
      ensures (button != null) == currentTableCellDOM.Some?
      ensures button != null ==> button.anchorElement == currentTableCellDOM.value
      ensures button != null && old(button) != null ==> button == old(button) && button.isOpen == old(button.isOpen)
      ensures button != null && old(button) == null ==> fresh(button) && !button.isOpen
    {
      if currentTableCellDOM.None? {
        button := null;
      } else if button == null {
        button := new TableMenuButton(currentTableCellDOM.value);
      } else {
        button.anchorElement := currentTableCellDOM.value;
      }
    }
  }
}
