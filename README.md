# WebAccess node tree and generic table, modelled in Dafny

WebAccess for NVDA turns the flattened "text with fields" stream of a web
page into a tree of nodes. The stream holds runs of text plus `controlStart`,
`controlEnd` and `formatChange` commands. The node manager rebuilds that tree
when the page's length changes and answers queries over it: the text leaf at
an offset, the leaves containing a string, and nodes selected by attribute
predicates. It also moves a current node forwards and backwards through the
document. A separate table widget keeps a column cursor and a per-cell
character cursor, renders cells for a braille display, and remembers column
widths in a per-page configuration.

The project has six modules:

- `Common` (`common.dfy`): Option/Result and the Python string operations the code relies on. These are substring `in`, `replace`, `strip`, the slice `s[0:w]` and `join`.
- `NodeField` (`node_field.dfy`): stream atoms, the three kinds of node and how `NodeField.__init__` builds each one. It also defines the well-formedness invariant of a built tree (a control's size is the sum of its contiguous children's sizes), node equality, order and containment by offset, and `innerText`.
- `NodeSearch` (`node_search.dfy`): `searchOffset`, `firstTextNode`, `searchString`, `search_eq`, `search_in` and `searchNode`. Each is a specification function with lemmas. `searchNode` is also an imperative method, `SearchNodeAt`, proved equal to the function; its key loop is the method `ScanKeys` and its child loop stays in `SearchNodeAt`.
- `TreeBuilder` (`tree_builder.dfy`): `createNodeField` as a pure recursive-descent parser over a cursor `(fieldIndex, fieldOffset, lastTextNode)`, with lemmas on the trees and cursors it produces.
- `NodeManager` (`node_manager.dfy`): the class `NodeManager`. Its fields are the builder cursor, `_ready`, `treeInterceptorSize`, `mainNode`, `identifier`, `_curNode` and `caretNode`. `CreateNodeField` and its child loop `ReadChildren` are proved to follow `TreeBuilder.ParseNode` exactly. The class also has `Update`, `IsReady`, the three queries and the two navigation scripts.
- `GenericTable` (`generic_table.dfy`): `ColumnHeader`, `Cell` (braille text, text, character cursor), `Row.getCell`, and the class `GenericTable`. The table class holds the column cursor, width editing, braille routing and the nested table configuration.

Things the page provides are passed in as values:

- whether the page is ready;
- its length before and after the rebuild;
- the field stream;
- the caret offset;
- `time.time()`, which becomes the tree identifier.

Speech, beeps, braille output and scheduler notifications are outputs only. `Update` returns the scheduler event as a tag, and the other members return an outcome value in place of what they would say.

## Model

| member | source | states |
|---|---|---|
| NodeField.NewTextNode | addon/globalPlugins/webAccess/nodeHandler.py:300-305 | a text run becomes a leaf at the cursor whose size is the UTF-16 length of its text (what `len` gives on the screen reader's narrow build), taking role and control identifier from its parent; with no parent it fails (the attribute error of the source) |
| NodeField.NewFormatNode | addon/globalPlugins/webAccess/nodeHandler.py:306-307 | a format change becomes a marker of size 0 at the cursor |
| NodeField.NewControlNode | addon/globalPlugins/webAccess/nodeHandler.py:308-339 | a control opens with size 0 and no children at the cursor, records the last text leaf seen, takes its role from the field, its name and control identifier from the field or the defaults "" and "0", and its tag, id, class and src from their fallback chains; a field without "role" fails with MissingRole |
| NodeField.Resolve | addon/globalPlugins/webAccess/nodeHandler.py:324-338 | the tag/id/class/src fallback chains: the value of the first key that is set and non-empty, "" when none is |
| NodeField.ChainsResolve | addon/globalPlugins/webAccess/nodeHandler.py:324-338 | the four key-by-key chains written out in `NewControlNode` (`TagOf`, `IdOf`, `ClassNameOf`, `SrcOf`) each give exactly the first set value of their key list, in the order the source tries the keys |
| NodeField.ChildrenInSpan | addon/globalPlugins/webAccess/nodeHandler.py:160-169 | in a well-formed tree every child lies inside its parent's interval |
| NodeField.WellFormedReach | addon/globalPlugins/webAccess/nodeHandler.py:160-169 | every node reachable in a well-formed tree is itself well formed |
| NodeField.LeavesOrdered | addon/globalPlugins/webAccess/nodeHandler.py:160-169 | the text leaves of a well-formed tree are in document order and inside the root's interval |
| NodeField.LeavesReachable | addon/globalPlugins/webAccess/nodeHandler.py:160-169 | every text leaf listed is a text node reachable from the root |
| NodeField.LeavesCompareInOrder | addon/globalPlugins/webAccess/nodeHandler.py:514-524 | on the text leaves of a well-formed tree `__lt__` follows document order, and `__eq__` holds between two non-empty leaves only when they are the same leaf |
| NodeField.HoldsWithinSpan | addon/globalPlugins/webAccess/nodeHandler.py:526-533 | a node that `__contains__` another encloses its start offset |
| NodeField.InnerText | addon/globalPlugins/webAccess/nodeHandler.py:538-555 | a leaf's inner text is its text followed by at most one separator; a format marker contributes nothing |
| NodeField.DecoratedLength | addon/globalPlugins/webAccess/nodeHandler.py:547-550 | a leaf adds one blank exactly when its text is non-empty and does not end in a newline |
| NodeField.InnerTextByLeaves | addon/globalPlugins/webAccess/nodeHandler.py:538-555 | `innerText` is the concatenation of the blank-separated text leaves of the subtree, in document order |
| NodeField.InnerTextLength | addon/globalPlugins/webAccess/nodeHandler.py:538-555 | measured as `len` measures it, the inner text is at least as long as the node and at most twice as long |
| NodeSearch.SearchOffsetIsLeaf | addon/globalPlugins/webAccess/nodeHandler.py:434-443 | what `searchOffset` returns is a text leaf of the subtree whose half-open interval holds the offset |
| NodeSearch.SearchOffset | addon/globalPlugins/webAccess/nodeHandler.py:434-443 | what is found is a text leaf whose half-open interval holds the offset |
| NodeSearch.SearchOffsetCovers | addon/globalPlugins/webAccess/nodeHandler.py:434-443 | in a well-formed tree a leaf is found exactly when the offset lies inside the node and the node is not a format marker |
| NodeSearch.SearchOffsetUnique | addon/globalPlugins/webAccess/nodeHandler.py:434-443 | every non-empty text leaf that holds the offset is the one returned |
| NodeSearch.FirstTextNodeIsFirstLeaf | addon/globalPlugins/webAccess/nodeHandler.py:445-446 | `firstTextNode` is a leaf starting at the node's own offset; any earlier-listed leaf overlapping it is empty |
| NodeSearch.FirstTextNode | addon/globalPlugins/webAccess/nodeHandler.py:445-446 | what is found is a text leaf holding the node's own start offset |
| NodeSearch.ParentHoldsLeaf | addon/globalPlugins/webAccess/nodeHandler.py:250-251 | the parent used by navigation is a reachable control whose children include the leaf found |
| NodeSearch.SearchStringIsMatching | addon/globalPlugins/webAccess/nodeHandler.py:351-364 | `searchString` returns exactly the text leaves of the tree that contain one of the needles, in tree order |
| NodeSearch.SearchStringOrdered | addon/globalPlugins/webAccess/nodeHandler.py:351-364 | on a well-formed tree those results are in document order, inside the node, reachable leaves |
| NodeSearch.SearchString | addon/globalPlugins/webAccess/nodeHandler.py:351-364 | every result is a text leaf whose text contains one of the needles |
| NodeSearch.SearchTestsOnAbsent | addon/globalPlugins/webAccess/nodeHandler.py:366-382 | `search_eq` is membership of the value in the list; an absent value matches neither test and an empty one never matches `search_in` |
| NodeSearch.SearchEqImpliesIn | addon/globalPlugins/webAccess/nodeHandler.py:366-382 | without wildcards, a `search_eq` match on a non-empty value is also a `search_in` match |
| NodeSearch.SearchInWildcards | addon/globalPlugins/webAccess/nodeHandler.py:374-382 | `search_in` deletes `*`: the pattern `*p*` matches the same values as `p` |
| NodeSearch.SearchInWildcardOnly | addon/globalPlugins/webAccess/nodeHandler.py:374-382 | a pattern made only of `*` matches exactly the non-empty values |
| NodeSearch.SearchNodeAt | addon/globalPlugins/webAccess/nodeHandler.py:395-432 | the key loop and child loop of `searchNode` compute exactly `SearchNode` |
| NodeSearch.ScanKeys | addon/globalPlugins/webAccess/nodeHandler.py:399-416 | the key loop at a control ends the search exactly when some `notEq_`/`notIn_` keyword holds there; otherwise the keywords left are exactly those the control did not satisfy, and `found` holds exactly when every `eq_`/`in_` keyword other than `eq_text`/`in_text` is satisfied |
| NodeSearch.SearchNodeAnswers | addon/globalPlugins/webAccess/nodeHandler.py:395-432 | every result is reachable, and is a control not vetoed by any `notEq_`/`notIn_` key, or a text leaf containing the `eq_text` value |
| NodeSearch.SearchNodeKeywordsMet | addon/globalPlugins/webAccess/nodeHandler.py:395-432 | every `eq_`/`in_` key (other than the text keys) of the query is satisfied by the result or by a control on the path to it, because satisfied keys are dropped before recursing |
| NodeSearch.SearchNodeOrdered | addon/globalPlugins/webAccess/nodeHandler.py:395-432 | on a well-formed tree the results are in document order |
| NodeSearch.PendingKeeps | addon/globalPlugins/webAccess/nodeHandler.py:404-412 | what children receive keeps every veto, the `eq_text` key and `prev_text`, and adds no key |
| NodeSearch.InheritedKeywordExample | addon/globalPlugins/webAccess/nodeHandler.py:395-432 | asking for a menu class and a link role returns a link inside the menu even though the link has no menu class |
| NodeSearch.Attr | addon/globalPlugins/webAccess/nodeHandler.py:403-416 | `getattr` answers exactly the string-valued attributes of a control, including `innerText` and the empty class-level `customText`; any other name gives None |
| TreeBuilder.ParseNodeWellFormed | addon/globalPlugins/webAccess/nodeHandler.py:147-169 | every node the builder returns is well formed: a control's children are contiguous from its offset and its size is the sum of theirs |
| TreeBuilder.ParseNode | addon/globalPlugins/webAccess/nodeHandler.py:147-170 | the cursor never moves back, and a node is only produced from a field inside the stream; a text atom under a control yields a leaf at the cursor as long as its text (UTF-16 units), inherits the control's role and identifier, becomes the last text leaf seen, and advances the offset by that length |
| TreeBuilder.ParseChildren | addon/globalPlugins/webAccess/nodeHandler.py:160-169 | reading children never moves the cursor back and, unless it raises, returns the control |
| TreeBuilder.ParseNodeTracks | addon/globalPlugins/webAccess/nodeHandler.py:151-168 | the offset cursor after a node is the total text length of the atoms consumed; a node starts at the text length before it; a control's previous text node is the last text atom before it in the stream |
| TreeBuilder.ParseChildrenKeeps | addon/globalPlugins/webAccess/nodeHandler.py:160-169 | reading children only appends to the control's children and adds to its size: offset, previous text node, role, name and every other attribute stay as the control was made |
| TreeBuilder.BuildWellFormed | addon/globalPlugins/webAccess/nodeHandler.py:109-113 | a full build yields a well-formed, non-text root at offset 0 whose size is the text length of the consumed atoms |
| TreeBuilder.BuildEdgeCases | addon/globalPlugins/webAccess/nodeHandler.py:148-157 | an empty stream or a leading controlEnd yields no node; a leading text run raises; a control without a role raises |
| TreeBuilder.ReadFormat | addon/globalPlugins/webAccess/nodeHandler.py:158-159 | a formatChange yields a size-0 marker and leaves the cursor where it was |
| TreeBuilder.CloseControl | addon/globalPlugins/webAccess/nodeHandler.py:148-157 | a controlEnd or the end of the stream closes the current child list |
| NodeManager.NavTargetCovers | addon/globalPlugins/webAccess/nodeHandler.py:244-253 | the navigation target is reachable, holds the offset, and is the leaf there or the control directly holding it |
| NodeManager.NavTarget | addon/globalPlugins/webAccess/nodeHandler.py:244-253 | navigation finds a target exactly when `searchOffset` finds a leaf at the offset |
| NodeManager.NodeManager.IsReady | addon/globalPlugins/webAccess/nodeHandler.py:142-145 | ready only when the last update published a tree and the page is ready; a ready manager has a well-formed tree to search |
| NodeManager.NodeManager.CreateNodeField | addon/globalPlugins/webAccess/nodeHandler.py:147-170 | the imperative builder returns what `ParseNode` describes and leaves the cursor fields where it does, on success and on error |
| NodeManager.NodeManager.ReadChildren | addon/globalPlugins/webAccess/nodeHandler.py:161-169 | the child loop returns the control `ParseChildren` describes |
| NodeManager.NodeManager.Update | addon/globalPlugins/webAccess/nodeHandler.py:80-140 | no rebuild while the length is unchanged; the length is recorded before the fetch; an early return (page not ready, length unreadable or unchanged, fields unreadable) leaves the tree, the cursor fields and the stream as they were; a build that raises keeps `ready` and the old tree; an empty build leaves no tree and not ready; after a build the manager is ready exactly when the length after equals the length before; the event sent says which |
| NodeManager.NodeManager.Rebuild | addon/globalPlugins/webAccess/nodeHandler.py:108-140 | once the fields are read: the stream and the builder cursor end as `Build` leaves them; a raising build keeps `ready`, the tree, the cursor nodes and the identifier; an empty build leaves no tree and not ready; a built tree gets the new identifier, the caret leaf is looked up only if the previous tree was ready, and the manager is ready exactly when the length after equals the length before, with the matching event |
| NodeManager.NodeManager.SearchString | addon/globalPlugins/webAccess/nodeHandler.py:172-175 | nothing while not ready; otherwise exactly the text leaves of the tree that contain a needle, in document order |
| NodeManager.NodeManager.SearchNode | addon/globalPlugins/webAccess/nodeHandler.py:187-195 | nothing while not ready; otherwise exactly what `searchNode` on the root returns: non-vetoed answers in document order |
| NodeManager.NodeManager.SearchOffset | addon/globalPlugins/webAccess/nodeHandler.py:197-201 | None while not ready; otherwise a leaf is found exactly when the offset is inside the tree, and it holds the offset |
| NodeManager.NodeManager.NextItem | addon/globalPlugins/webAccess/nodeHandler.py:238-254 | ignored while not ready; passed through in pass-through mode; stays at the bottom of the document; otherwise moves to a reachable node ending after the current one |
| NodeManager.NodeManager.PreviousItem | addon/globalPlugins/webAccess/nodeHandler.py:256-272 | ignored while not ready; passed through in pass-through mode; stays at the top; otherwise moves to a reachable node starting before the current one |
| GenericTable.Cell.Create | addon/globalPlugins/webAccess/widgets/genericTable.py:91-103 | a missing name is refused first, then a missing column header; otherwise a cell with the given attributes and character cursor 0 |
| GenericTable.BrlLabel | addon/globalPlugins/webAccess/widgets/genericTable.py:142-155 | a check box or an available radio button leads with a three-character marker whose middle is "x" exactly when checked; an unavailable radio button leads with nothing; other roles with the name |
| GenericTable.BrlContent | addon/globalPlugins/webAccess/widgets/genericTable.py:156-160 | the content written to braille never holds a slash |
| GenericTable.BrlCell | addon/globalPlugins/webAccess/widgets/genericTable.py:161-162 | the braille text is a prefix of the content padded with 35 blanks, and exactly the width for widths 0..35 |
| GenericTable.BrlCellShape | addon/globalPlugins/webAccess/widgets/genericTable.py:138-162 | braille text never holds a slash, is the content padded with 35 blanks and cut to the width, and is exactly the width for widths 0..35 |
| GenericTable.BrlCellMarker | addon/globalPlugins/webAccess/widgets/genericTable.py:142-153 | on a column at least 3 wide a radio button starts with `(x)`/`( )` and a check box with `[x]`/`[ ]` as it is checked |
| Common.Strip | addon/globalPlugins/webAccess/widgets/genericTable.py:159 | `unicode.strip()`: empty exactly when every character is whitespace; otherwise the slice between the leading and trailing whitespace runs, which starts and ends non-blank |
| GenericTable.CellText | addon/globalPlugins/webAccess/widgets/genericTable.py:171-173 | the middle of name + " " + value with exactly its blank ends cut off (what is cut is blank, what is kept starts and ends non-blank); absent exactly when the value is missing |
| GenericTable.CellTextJoins | addon/globalPlugins/webAccess/widgets/genericTable.py:171-173 | a name and value with non-blank outer ends are kept exactly, joined by one blank |
| GenericTable.Cell.Text | addon/globalPlugins/webAccess/widgets/genericTable.py:171-173 | a cell has a text exactly when it has a value |
| GenericTable.Cell.NextCharacter | addon/globalPlugins/webAccess/widgets/genericTable.py:175-182 | the index moves by `NextIndex` and the character under it is spoken; a missing value leaves it unchanged |
| GenericTable.Cell.PriorCharacter | addon/globalPlugins/webAccess/widgets/genericTable.py:185-192 | the index moves by `PriorIndex` and the character under it is spoken |
| GenericTable.NextIndexNClosed | addon/globalPlugins/webAccess/widgets/genericTable.py:175-182 | k forward steps land on min(i + k, len - 1), never moving back |
| GenericTable.PriorIndexNClosed | addon/globalPlugins/webAccess/widgets/genericTable.py:185-192 | k backward steps land on max(i - k, 0) |
| GenericTable.CharacterIndexStaysInText | addon/globalPlugins/webAccess/widgets/genericTable.py:175-192 | from an index inside the text both moves stay inside it, and each stays put exactly at its edge |
| GenericTable.NextIndex | addon/globalPlugins/webAccess/widgets/genericTable.py:175-182 | the character index moves forward by at most one, stays below the length, and stays put exactly from the last character on |
| GenericTable.PriorIndex | addon/globalPlugins/webAccess/widgets/genericTable.py:185-192 | the character index moves back by one unless it is already 0 |
| GenericTable.Row.GetCell | addon/globalPlugins/webAccess/widgets/genericTable.py:200-204 | None outside 1..number of cells, otherwise the cell at position n - 1 |
| GenericTable.GetCellEnumerates | addon/globalPlugins/webAccess/widgets/genericTable.py:200-204 | each cell is found under its column number, and every cell of the row is reachable this way |
| GenericTable.StepsInRange | addon/globalPlugins/webAccess/widgets/genericTable.py:441-451 | right and left moves keep the column in 1..count, undo each other away from the edges, and stay put exactly at the edge |
| GenericTable.StepRightNClosed | addon/globalPlugins/webAccess/widgets/genericTable.py:441-445 | k right moves land on min(col + k, count) |
| GenericTable.StepRight | addon/globalPlugins/webAccess/widgets/genericTable.py:441-445 | the column never passes the count and stays put exactly at or past the last column |
| GenericTable.StepLeft | addon/globalPlugins/webAccess/widgets/genericTable.py:447-451 | the column never drops below 1 and stays put exactly at or before the first column |
| GenericTable.GenericTable.RightCell | addon/globalPlugins/webAccess/widgets/genericTable.py:441-445 | the cursor moves by `StepRight` and stays in range |
| GenericTable.GenericTable.LeftCell | addon/globalPlugins/webAccess/widgets/genericTable.py:447-451 | the cursor moves by `StepLeft` and stays in range |
| GenericTable.GenericTable.FirstCell | addon/globalPlugins/webAccess/widgets/genericTable.py:457-458 | the cursor goes to column 1 |
| GenericTable.GenericTable.LastCell | addon/globalPlugins/webAccess/widgets/genericTable.py:454-455 | the cursor goes to the last column |
| GenericTable.GenericTable.IncreaseColWidth | addon/globalPlugins/webAccess/widgets/genericTable.py:274-280 | the current column grows by exactly 1, every other column keeps its width, and `width_<id>` is stored for this table; with no current cell no width and no configuration changes |
| GenericTable.GenericTable.DecreaseColWidth | addon/globalPlugins/webAccess/widgets/genericTable.py:283-292 | the current column shrinks by 1 only when wider than 1, so it never goes below 1, and the new width is stored; every other column keeps its width; with no current cell nothing changes |
| GenericTable.RoutedColumnFirstMatch | addon/globalPlugins/webAccess/widgets/genericTable.py:422-427 | routing finds a column exactly when some span covers the braille cell, and then it is the column of the first such span |
| GenericTable.GenericTable.BrailleRouting | addon/globalPlugins/webAccess/widgets/genericTable.py:416-427 | a repeated press activates; otherwise the cursor goes to the routed column + 1, or stays and beeps |
| GenericTable.Store | addon/globalPlugins/webAccess/widgets/genericTable.py:461-475 | stores under `[page][id][key]`, or `[page][key]` with an empty id, creating sections; fails exactly when a scalar sits where a section is needed; other pages are untouched |
| GenericTable.Lookup | addon/globalPlugins/webAccess/widgets/genericTable.py:477-484 | a value is found only inside the page's section, and a key set at page level is always found |
| GenericTable.StoreThenLookup | addon/globalPlugins/webAccess/widgets/genericTable.py:461-484 | reading back a stored key gives the stored value |
| GenericTable.StoreKeepsOtherKeys | addon/globalPlugins/webAccess/widgets/genericTable.py:461-484 | storing one key leaves the other keys of the table as they were |
| GenericTable.StoreKeepsOtherPages | addon/globalPlugins/webAccess/widgets/genericTable.py:461-484 | storing on one page leaves lookups on other pages as they were |
| GenericTable.GenericTable.TableId | addon/globalPlugins/webAccess/widgets/genericTable.py:256-259 | a cached identifier is kept; otherwise the header titles joined with "_" |
| GenericTable.GenericTable.GetTableConfig | addon/globalPlugins/webAccess/widgets/genericTable.py:477-484 | `[page][id][key]`, then `[page][key]`, else None; never found when the page has no section |
| GenericTable.GenericTable.SetTableConfig | addon/globalPlugins/webAccess/widgets/genericTable.py:461-475 | caches the identifier, stores through `Store`, and the value can then be read back |

## Left out

- Access to the page (`makeTextInfo`, `getTextWithFields`, `_endOffset`) is replaced by the `Source` value of `Update`. A failure of any such read is a missing length or missing fields.
- The uncaught `_endOffset` read after the build (nodeHandler.py:129) is merged with the lengths that cannot be read. `Update` then reports not ready rather than raising.
- Timers, `tickUpdate`, the `updating` flag, the separate-thread option and the scheduler are not modelled. The scheduler's two messages are an event tag.
- `devNode` is never set to anything but None, so `searchOffset` always searches `mainNode`.
- Node side effects are not modelled: `moveto`, `activate`, `sayAll`, `mouseMove`, `getNVDAObject`, `getTextInfo`, `getPresentationString`, `event_caret`, and the messages at the top and bottom of the document.
- `searchSimple` is not modelled. It is a stub that returns an empty list.
- `customText` in `innerText` is not modelled separately. On a leaf it always equals the text, and on a control it is the class-level "".
- Roles and control identifiers are strings, not the screen reader's integer constants, and a missing `controlIdentifier_ID` gives the string "0" rather than the integer 0. `eq_`/`notEq_` keys compare them by equality, which strings preserve. An `in_`/`notIn_` key on an integer attribute raises `TypeError` in the source (`in` on an integer); the model instead tests substrings of the string form.
- NodeSearch.Attr: it answers only the string-valued attributes. Names of other attributes (`offset`, `size`, `children`, `parent`, `control`, `format`, `previousTextNode`, methods) give None, where the source would compare the keyword's items against that object.
- `search_eq` and `search_in` also accept a single item instead of a list. The model's keywords always carry a list, and a single item is its one-element list.
- The bare `raise` of `createNodeField` (nodeHandler.py:170) for an unknown field command is not modelled. The model's atoms have only the four known commands.
- `getCaretNode`'s own exception handling is not modelled. The caret offset is an input that may be absent.
- The constructor's initial `update` call and `__del__` are not modelled. The model's constructor gives the state before the first update.
- NodeManager.NodeManager.NextItem: it stops at the bottom when the leaf found has the current node's offset. It does not model the `AttributeError` a missing parent or a missing current node raises; both outcomes are returned as values.
- NodeManager.NodeManager.PreviousItem: like `NextItem`, it returns the `AttributeError` of a missing current node or a missing parent as an outcome value instead of raising it.
- Text sizes and offsets in the tree count UTF-16 code units, as `len` does on the screen reader's narrow build. The table cell's character cursor and braille slices count Unicode scalar values, so a character above U+FFFF is one position there instead of two.
- GenericTable.BrlCellMarker: it speaks only about markers, not about the name shown for other roles.
- Speech, beeps, `displayBraille`, `speakCell` and `enter()` are not modelled. So are the column header customisation that `speakCell` performs after routing and the normalisation of a missing value in `Cell.speak`.
- Configuration is not modelled as a file. `ConfigObj` loading and `write()` are absent, and values are kept in memory as ints or strings.
- GenericTable.GenericTable.GetTableConfig: it does not cache the identifier the way `getTableIdentifier` does when called from `getTableConfig`. `SetTableConfig` does cache it.
- GenericTable.StoreThenLookup: it excludes a hand-written section named "" on the page. With an empty table identifier, that section is read before the page-level key.
- Column header titles are non-empty strings, as the class's own documentation requires. A `None` title, which would make `join` raise, is not modelled.
- `ColumnHeader` has no working constructor in the source (`__iint__` is misspelt). The model's constructor sets the identifier and title and starts at the default width of 10.
- The table's own `__init__` (genericTable.py:227, which does not parse), the gesture maps and scripts, `selectionCol`, `speakRow` and the duplicate empty class at the end of the file are not modelled.
- The table model keeps the row under the cursor (`getRow()`) and the row naming the table (`_row`) as two fields. The source obtains them differently.

Where the code and its documentation disagree, the model follows the code:

- `update` replaces `mainNode` before the length check after the build. When that check fails, the new tree is installed but the manager is not ready.
- `update` looks up the caret while the readiness of the previous build still holds. After the first build `_curNode` is therefore None.
- `searchNode` removes the keys a control satisfies before searching its children. Descendants inherit what their ancestors matched.
- The new length is recorded before the fields are fetched. A failed fetch or an empty build is not retried while the length stays the same.
