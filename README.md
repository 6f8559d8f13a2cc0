# Table plugin for a Lexical rich-text editor, modelled in Dafny

This project models the table-lifecycle core of a small plugin layer for the
Lexical editor. The layer adds four things:

- a table node that carries a pixel width (`CustomTableNode`);
- a command that builds a `rows × columns` table and splices it into the
  document at the caret (`INSERT_CUSTOM_TABLE_COMMAND`);
- a registry that binds one interactive table selection per rendered table
  and releases it when the table is destroyed or the plugin unmounts;
- an action menu whose button follows the table cell under the selection's
  anchor.

The editor itself is abstracted. Node keys come from a key counter, so a
larger key means a later node. The children of the root or shadow root that
holds the caret when a command runs are a `seq<Block>`. Rows, cells, paragraphs and text nodes
are values. A selection point carries the editor's answers about its node:
whether it is a root or shadow root, the index of its top-level element, and
its enclosing table cell. Rendered elements are a partial map from key to
element.

Files and modules:

- `lexical.dfy`, module `Lexical`: keys, node values, selections, and the
  selection `cell.select()` leaves.
- `custom_table_node.dfy`, module `CustomTableNodes`: the class
  `CustomTableNode` (constructor, `clone`, `getType`, the width style of
  `createDOM`). It also holds the decimal numeral and its parser, which
  prove the width can be read back from the style.
- `custom_table_plugin.dfy`, module `CustomTablePlugin`: the class `Editor`
  (key counter, container children, selection). It holds the grid builder
  and the insert-command handler. The pure specifications `Grid`,
  `RootInsertion` and `NestedInsertion` sit beside it.
- `table_selection_registry.dfy`, module `TableSelectionRegistry`: the class
  `Registry`, whose `map` field holds the handles, and the class
  `TableSelection`, the handle with its `released` flag. Also the pure
  created/destroyed filters of the mutation listener.
- `table_action_menu.dfy`, module `TableActionMenu`: the active-cell slot,
  the selection-change listener, the menu button and its open state.

Behaviours of the code worth noting:

- A selection that is not a range selection leaves the active-cell slot as
  it was; the slot is not cleared.
- The enclosing cell is looked up from the anchor, not the focus.
- The selection-change listener returns true on every path.
- Teardown releases every handle but does not clear the map; each mount
  starts from a fresh map.
- Built cells have header state `NO_STATUS`, row 0 included.
- `CustomTableNode` defines no JSON export or import, so the width round
  trip modelled here is the one through the rendered style.

## Model

| member | source | states |
|---|---|---|
| `CustomTableNodes.CustomTableNode.GetType` | src/nodes/CustomTableNode.ts:8-10 | the type name is always `"table"` |
| `CustomTableNodes.CustomTableNode.Clone` | src/nodes/CustomTableNode.ts:12-14 | the clone is a new node with the same width and the same key |
| `CustomTableNodes.CustomTableNode.constructor` | src/nodes/CustomTableNode.ts:16-28 | the given width and key are stored unchanged; the node starts without rows |
| `CustomTableNodes.CustomTableNode.Append` | src/plugins/CustomTablePlugin.tsx:65-67 | appending a row adds it after the existing rows |
| `CustomTableNodes.CustomTableNode.CreateDOM` | src/nodes/CustomTableNode.ts:30-35 | the width style is the decimal width followed by `px`, and reading that style back gives the node's width |
| `CustomTableNodes.DecimalString` | src/nodes/CustomTableNode.ts:33 | the decimal numeral (the form a template literal prints for a width below 10^21) is non-empty, all digits, and has no leading zero unless the number is 0 |
| `CustomTableNodes.ParseDecimalString` | src/nodes/CustomTableNode.ts:33 | parsing the numeral of n gives n back |
| `CustomTableNodes.WidthStyleRoundTrip` | src/nodes/CustomTableNode.ts:33 | parsing the width style gives back exactly the width |
| `CustomTableNodes.WidthStyleInjective` | src/nodes/CustomTableNode.ts:33 | two widths with the same style are equal |
| `CustomTablePlugin.Editor.CreateParagraphNode` | src/plugins/CustomTablePlugin.tsx:118 | a new empty paragraph takes the next key |
| `CustomTablePlugin.Editor.CreateCellWithParagraphNode` | src/plugins/CustomTablePlugin.tsx:48-54 | a no-header cell holding one paragraph that holds one empty text node, with three consecutive keys: the cell, then the paragraph, then the text |
| `CustomTablePlugin.Editor.CellsToAppend` | src/plugins/CustomTablePlugin.tsx:56-60 | the row gains exactly `cells` new empty cells after its existing ones, in creation order |
| `CustomTablePlugin.Editor.CreateRows` | src/plugins/CustomTablePlugin.tsx:62-63 | exactly `rows` new empty rows with consecutive keys |
| `CustomTablePlugin.Editor.CreateCustomTableNodeWithDimensions` | src/plugins/CustomTablePlugin.tsx:43-74 | a new table with the given width whose rows are exactly `Grid(rowCount, columnCount)`; it uses one key per created node |
| `CustomTablePlugin.CellRun` | src/plugins/CustomTablePlugin.tsx:56-60 | n cells, each a no-header cell with one paragraph holding one empty text node, with keys in creation order |
| `CustomTablePlugin.Grid` | src/plugins/CustomTablePlugin.tsx:56-72 | exactly `rowCount` rows of exactly `columnCount` cells each, every cell no-header with one paragraph holding one empty text node |
| `CustomTablePlugin.GridRowsBeforeCells` | src/plugins/CustomTablePlugin.tsx:62-72 | every row key is below `first + rowCount` and every cell key is at least that, so all rows are created before any cell, for every grid including 1×1 |
| `CustomTablePlugin.GridCreationOrder` | src/plugins/CustomTablePlugin.tsx:62-72 | row-major enumeration meets strictly increasing cell keys, and row keys are below the cell keys |
| `CustomTablePlugin.RootInsertion` | src/plugins/CustomTablePlugin.tsx:111-118 | a caret at a root or shadow root gives `c[..k] + [P, T, P] + c[k..]`, with k the caret offset, or the end when there is no child at that offset; there are 3 more children and every old child keeps its order |
| `CustomTablePlugin.NestedInsertion` | src/plugins/CustomTablePlugin.tsx:119-124 | a nested caret puts the table and then one paragraph right after its top-level element; there are 2 more children and all other children are unchanged |
| `CustomTablePlugin.Editor.PlaceAtRoot` | src/plugins/CustomTablePlugin.tsx:111-118 | the table goes before the child at the offset, or is appended, and a new paragraph goes before the table |
| `CustomTablePlugin.Editor.InsertBefore` | src/plugins/CustomTablePlugin.tsx:114 | the block lands right before the child at the index |
| `CustomTablePlugin.Editor.InsertAfter` | src/plugins/CustomTablePlugin.tsx:121 | the block lands right after the child at the index |
| `CustomTablePlugin.Editor.Append` | src/plugins/CustomTablePlugin.tsx:116 | the block becomes the last child |
| `CustomTablePlugin.RootSteps` | src/plugins/CustomTablePlugin.tsx:111-124 | the root-branch splices plus the trailing paragraph make exactly `RootInsertion` |
| `CustomTablePlugin.NestedSteps` | src/plugins/CustomTablePlugin.tsx:119-124 | the nested-branch splice plus the trailing paragraph make exactly `NestedInsertion` |
| `CustomTablePlugin.Editor.SpliceTable` | src/plugins/CustomTablePlugin.tsx:111-131 | the children become `RootInsertion` or `NestedInsertion` and the caret moves into row 0, cell 0; a missing top-level element or a table without a first cell throws and leaves children and selection unchanged |
| `CustomTablePlugin.Editor.InsertCustomTable` | src/plugins/CustomTablePlugin.tsx:87-132 | a non-range selection or a missing focus node leaves everything unchanged and returns true; otherwise the table built from the given dimensions and width is spliced in as in `SpliceTable` |
| `TableSelectionRegistry.CreatedTableKeys` | src/plugins/CustomTablePlugin.tsx:169-182 | exactly the keys tagged "created" that resolve to a table node |
| `TableSelectionRegistry.DestroyedKeys` | src/plugins/CustomTablePlugin.tsx:184-186 | exactly the keys tagged "destroyed", without repeats when the batch has none |
| `TableSelectionRegistry.TableSelection.Apply` | src/plugins/CustomTablePlugin.tsx:147-151 | a new handle is bound to the table's key and element and is not released |
| `TableSelectionRegistry.TableSelection.RemoveListeners` | src/plugins/CustomTablePlugin.tsx:197 | the handle is released |
| `TableSelectionRegistry.Registry.InitializeTableNode` | src/plugins/CustomTablePlugin.tsx:140-153 | a handle is added only when the key has a rendered element and no handle yet; otherwise the map is unchanged, so a key never gets a second handle |
| `TableSelectionRegistry.Registry.Mount` | src/plugins/CustomTablePlugin.tsx:154-164 | after the initial reconciliation, exactly the existing table nodes that have a rendered element have a handle |
| `TableSelectionRegistry.Registry.InitializeTableNodes` | src/plugins/CustomTablePlugin.tsx:174-182 | the created table keys that have an element gain a handle; existing handles stay as they are |
| `TableSelectionRegistry.Registry.CleanUp` | src/plugins/CustomTablePlugin.tsx:192-199 | a key without a handle is a no-op; otherwise that key's handle is released and only that key is removed |
| `TableSelectionRegistry.Registry.CleanUpAll` | src/plugins/CustomTablePlugin.tsx:201-206 | every destroyed key loses its handle, each removed handle is released, and the other entries are untouched |
| `TableSelectionRegistry.CreatedDestroyedDisjoint` | src/plugins/CustomTablePlugin.tsx:166-186 | in a batch with distinct keys no key is both a created table key and a destroyed key, so a handle bound in a batch is never one of that batch's destroyed handles |
| `TableSelectionRegistry.Registry.OnMutations` | src/plugins/CustomTablePlugin.tsx:166-208 | the new keys are (old keys ∪ created table keys with an element) − destroyed keys; surviving handles are unchanged, and the handles of destroyed keys are released |
| `TableSelectionRegistry.Registry.Teardown` | src/plugins/CustomTablePlugin.tsx:209-215 | the listener is unregistered and every handle still in the map is released |
| `Lexical.CaretInCell` | src/plugins/CustomTablePlugin.tsx:126-129 | `cell.select()` leaves a collapsed range selection whose enclosing cell is that cell |
| `TableActionMenu.ActiveCellAfter` | src/plugins/TableActionMenuPluginRefactor.tsx:103-124 | a non-range selection keeps the slot; no enclosing cell gives null; otherwise the slot is the rendered element of the anchor's cell |
| `TableActionMenu.TableActionMenuPlugin.OnSelectionChange` | src/plugins/TableActionMenuPluginRefactor.tsx:100-125 | returns true on every path and sets the slot to `ActiveCellAfter` of the old slot |
| `TableActionMenu.AnchorDecides` | src/plugins/TableActionMenuPluginRefactor.tsx:108-110 | the focus point has no influence on the slot |
| `TableActionMenu.RangeSelectionForgetsSlot` | src/plugins/TableActionMenuPluginRefactor.tsx:112-121 | after a range selection the old slot is forgotten, and the slot holds a registered element or nothing |
| `TableActionMenu.FirstCellBecomesActive` | src/plugins/TableActionMenuPluginRefactor.tsx:108-121 | once the caret is put in a cell, the slot becomes that cell's rendered element |
| `TableActionMenu.InsertThenTrack` | src/plugins/CustomTablePlugin.tsx:126-129 | for a non-empty table the first cell has the key right after the rows, and the caret there makes its element the active one |
| `TableActionMenu.TableActionMenuPlugin.constructor` | src/plugins/TableActionMenuPluginRefactor.tsx:92-93 | the slot starts null, with no button shown |
| `TableActionMenu.TableActionMenuPlugin.Render` | src/plugins/TableActionMenuPluginRefactor.tsx:128-135 | the button is shown exactly while the slot is set, anchored at the slot's element; a button that stays shown keeps its open state |
| `TableActionMenu.TableMenuButton.constructor` | src/plugins/TableActionMenuPluginRefactor.tsx:31-32 | a new button starts closed |
| `TableActionMenu.TableMenuButton.Click` | src/plugins/TableActionMenuPluginRefactor.tsx:57 | clicking opens the menu |
| `TableActionMenu.TableMenuButton.Close` | src/plugins/TableActionMenuPluginRefactor.tsx:71 | closing the menu sets it closed |
| `TableActionMenu.TableMenuButton.Choose` | src/plugins/TableActionMenuPluginRefactor.tsx:72-84 | every item only closes the menu and changes nothing else |

## Left out

- The check that the editor has the table node types registered (src/plugins/CustomTablePlugin.tsx:79-83) is configuration and is not modelled.
- Parsing the command's `rows` and `columns` strings with `Number` is not modelled (src/plugins/CustomTablePlugin.tsx:100-101). The counts are naturals.
- Widths are naturals. A fractional JavaScript number prints with a decimal point, and that is not modelled.
- `CustomTableNodes.CustomTableNode.CreateDOM`: the style is stated as the plain decimal numeral for every width. JavaScript prints a number of 10^21 or more in exponent form (`1e+21px`), so the contract matches the code only for widths below 10^21.
- Lexical internals are parameters or opaque:
  - `applyTableHandlers` is a handle with a `released` flag.
  - `$nodesOfType` is a list of table keys.
  - `$getNodeByKey` with `$isTableNode` is a set of table keys.
  - `getElementByKey` is a partial map.
  - `$getTableCellNodeFromLexicalNode` and `getTopLevelElementOrThrow` are answers carried by the selection point.
- The document is only the children of the root or shadow root that holds the caret. Parent links and the rest of the tree are not modelled.
- `CustomTablePlugin.Editor.InsertCustomTable`: an `Editor` describes one command. Its `children` are the container the caret was in when the command ran, and they do not follow the caret into the new table's first cell, so a second command on the same `Editor` does not model inserting into that cell.
- `A.filter(G.isString)` is not modelled: every node key is a string, so it passes every entry.
- An exception inside the command discards the editor update. The model restores the children and the selection; keys already handed out stay used.
- `CaretInCell`: the editor's `select()` may carry the caret down into the cell's last descendant. The model puts it on the cell itself; both lie inside the first cell.
- Command and listener registration, their priorities for the insert command, unsubscription of the selection listener, and React effect scheduling are not modelled. `Render` is called explicitly after a state change.
- Button positioning from bounding rectangles (src/plugins/TableActionMenuPluginRefactor.tsx:36-51) is floating-point DOM geometry and is not modelled.
- DOM element creation and the theme class names in `createDOM` are not modelled. Only the width style is.
