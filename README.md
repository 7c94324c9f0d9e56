# Binder tree engine and mention extractor

This project is a Dafny model of the logic at the centre of Codex AI, a
writing app. The app keeps a novel's material in a *binder*: a forest of
items. Each item is a folder or a document (a manuscript chapter, character
sheet, location profile, lore entry or research note). Documents hold plain
text or a record of named fields, and folders hold child items. The model
covers two parts of the app.

- **The binder tree engine.**
  - `src/utils.ts` gives the immutable tree operations: update by id, pre-order lookup, and insertion under a parent or at the root.
  - The tree logic inline in `src/App.tsx`:
    - choosing the first visible document;
    - listing the folders for the create dialog;
    - selecting an item (a folder toggles open/closed);
    - editing the selected item;
    - creating documents and folders;
    - drag-and-drop: `moveItemInTree`, plus the drop-target resolution of `handleDragEnd`.
- **The mention extractor** (`src/services/contextService.ts`). It finds the non-folder items whose title the user's chat message mentions, in pre-order. It renders each one as a context block and joins the blocks for the AI prompt.

Every operation of the source returns a fresh tree (spread copies, or a JSON
deep copy in `moveItemInTree`), so trees are Dafny datatype values. Where the
source accumulates in a loop, the operation is a method proved equal to a
specification function. Those loops are the search in
`findMentionedItemsRecursive`, the folder listing in `flattenFolders`, the
index scan in `findParentAndIndex`, and the `filter` pass in
`moveItemInTree`'s `remove`. `handleDragEnd` has no loop of its own; it is a
method because it calls those methods. Separate lemmas then prove the
properties of each specification function.

Modules, one file each:

| file | module | models |
|---|---|---|
| `wrappers.dfy` | `Wrappers` | `Option` (for `T \| null`) |
| `types.dfy` | `Types` | `BinderItem` and `DocumentType` (`src/types.ts`), `TEMPLATES` (`src/constants.tsx`), pre-order id lists and node lists of a forest |
| `text.dfy` | `Text` | the JavaScript string operations used: `trim`, `toLowerCase`, `includes`, `join`, the punctuation `replace` |
| `utils.dfy` | `Utils` | `updateItemInTree`, `findItemByIdRecursive`, `addItemToTree` |
| `context_service.dfy` | `ContextService` | `formatItemContent`, `findMentionedItemsRecursive`, `buildContextString` |
| `app.dfy` | `App` | first-document selection, `flattenFolders`, `handleSelectItem`, `handleContentChange`, `handleCreateItem`, `handleCreateFolder` |
| `move.dfy` | `BinderMove` | `moveItemInTree` (`remove` and `insert`), `findItemAndParent`, `findParentAndIndex`, `handleDragEnd` |

React state is modelled as a value. `BinderState` pairs the item forest with
the selected item. A handler is a function from the old state to the new
one, and its state setters take effect in the order the handler calls them.

## Model

| member | source | states |
|---|---|---|
| Types.KidsSmaller | src/types.ts:20 | a child list has fewer nodes than the forest holding its parent (the termination measure of every recursive walk) |
| Types.PreIdsAreFlattenIds | src/types.ts:13-22 | the pre-order id list is exactly the ids of the pre-order node list, position by position |
| Text.TrimStart | src/App.tsx:189 | the result is a suffix of the input and everything cut off before it is whitespace; it is empty exactly when the input is all whitespace, and otherwise starts with a non-whitespace character |
| Text.TrimEnd | src/App.tsx:189 | the result is a prefix of the input and everything cut off after it is whitespace; it is empty exactly when the input is all whitespace, and otherwise ends with a non-whitespace character |
| Text.TrimEmptyIffAllWhitespace | src/services/contextService.ts:13 | `trim()` yields "" exactly when every character is whitespace, which is the test that drops blank fields and rejects blank folder names |
| Text.ToLowerCase | src/services/contextService.ts:39 | same length, and every character is the case fold of the input character at that position |
| Text.ReplacePunctuation | src/services/contextService.ts:32 | same length; each of `.,!?;:()` becomes a space and every other character is kept |
| Text.IncludesIffOccurs | src/services/contextService.ts:39 | `includes` is true exactly when the needle occurs at some index of the haystack |
| Text.Join | src/services/contextService.ts:72 | no parts join to "", one part joins to itself, and a non-empty join starts with its first part |
| Text.JoinAppend | src/services/contextService.ts:72 | joining two non-empty lists in a row is the first join, one separator, then the second join: the parts appear in order with exactly one separator between neighbours |
| Utils.UpdateAbsent | src/utils.ts:4-14 | when no node carries the id, the update returns the forest unchanged |
| Utils.UpdateItemAbsent | src/utils.ts:6-12 | a node whose subtree lacks the id comes back unchanged |
| Utils.UpdateKeepsShape | src/utils.ts:4-14 | with unique ids and a patch that keeps id and children, the pre-order ids are unchanged; position by position in pre-order, every node keeps its number of children (which fixes the nesting), the node with the id has the patched fields, and every other node keeps its fields |
| Utils.UpdateItemKeepsShape | src/utils.ts:6-12 | the same for one node and its subtree |
| Utils.FindItemByIdRecursive | src/utils.ts:16-25 | a result carries the id and is a node of the forest; the result is null exactly when no node has the id |
| Utils.FindInItem | src/utils.ts:18-22 | the same for a node and its subtree |
| Utils.FindIsFirstInPreorder | src/utils.ts:16-25 | the lookup returns the first node with the id in pre-order |
| Utils.FindInItemIsFirst | src/utils.ts:18-22 | the same for one node's subtree |
| Utils.FindAppend | src/utils.ts:17-23 | on two sibling lists in a row, the lookup answers from the first list if it can, else from the second |
| Utils.FindAfterUpdate | src/utils.ts:4-25 | after an update that keeps the id, looking the id up gives the node found before, with the patch applied |
| Utils.FindInItemAfterUpdate | src/utils.ts:6-10 | the same for one node's subtree |
| Utils.AddItemToTree | src/utils.ts:27-48 | a null parent appends the item as the last root; an absent parent leaves the forest as it was; a present parent is found afterwards with the item appended as its last child (children created if absent) and `isOpen` true |
| Utils.AddUnderAbsent | src/utils.ts:37-47 | with a parent id no node carries, the forest comes back unchanged and the new item is not inserted |
| Utils.AddUnderItemAbsent | src/utils.ts:43-46 | a subtree without the parent id is returned as it was |
| Utils.FindParentAfterAdd | src/utils.ts:37-47 | the parent, looked up after insertion, is the old parent with the new item last among its children and opened |
| Utils.FindParentInItemAfterAdd | src/utils.ts:38-44 | the same within one node's subtree |
| Utils.FindNewAfterAddUnder | src/utils.ts:37-47 | with a present parent and a fresh id, the new item is found by its id afterwards |
| Utils.FindNewInItemAfterAddUnder | src/utils.ts:38-44 | the same within one node's subtree |
| Utils.FindNewAfterAdd | src/utils.ts:27-48 | with a fresh id, and a parent that is null or present, the new item is found afterwards |
| Utils.AddUnderSplices | src/utils.ts:37-47 | with unique ids and a present parent, insertion puts the new item's subtree into the pre-order listing as one contiguous block; position by position around it, the parent keeps its fields, is opened and gains exactly one child, and every other node keeps its fields and number of children |
| Utils.AddUnderItemSplices | src/utils.ts:38-44 | the same for one node's subtree |
| ContextService.FirstMatch | src/services/contextService.ts:8 | `find` stops at the first entry whose value matches: every earlier entry differs, and it runs off the end only when no entry matches |
| ContextService.KeyOf | src/services/contextService.ts:8 | the label is the key of the first matching entry, or "Document" when none matches or that key is the empty string; either way it is "Document" or a key paired with the value |
| ContextService.TypeLabel | src/services/contextService.ts:8 | a document's label is the enum key of its type, never the fallback; a folder falls back to "Document" |
| ContextService.NonBlankEntries | src/services/contextService.ts:11-13 | keeps exactly the fields whose value is not blank, and is empty exactly when every value is blank; a single field is kept exactly when its value is not blank |
| ContextService.NonBlankEntriesAppend | src/services/contextService.ts:11-13 | the filter distributes over concatenation, so with the single-field case it keeps the non-blank fields in their order and multiplicity |
| ContextService.FieldLines | src/services/contextService.ts:14 | one `  - key: value` line per kept field, in order |
| ContextService.FieldLinesNotBlank | src/services/contextService.ts:15-18 | joining at least one field line never yields a blank string, so the "all fields empty" test fires exactly when no field was kept |
| ContextService.FormatItemContent | src/services/contextService.ts:7-23 | text content gives header, newline, text; field content gives "" exactly when every field is blank, and otherwise the header, a newline and the kept fields' lines joined by newlines; any non-empty block starts with the `[Label: title]` header |
| ContextService.FindMentionedItemsRecursive | src/services/contextService.ts:26-49 | the loop returns exactly the specification's mention list |
| ContextService.FilterMentioned | src/services/contextService.ts:39 | the reference filter keeps exactly the mentioned items of a flat list |
| ContextService.MentionedAppend | src/services/contextService.ts:34-46 | the matches of two sibling lists in a row are the first list's matches followed by the second's |
| ContextService.MentionedIsPreorderFilter | src/services/contextService.ts:34-46 | the matches are the pre-order node list filtered by the mention test: a node before its descendants, siblings in order |
| ContextService.MentionedInItemIsFilter | src/services/contextService.ts:39-45 | the same for one node's subtree |
| ContextService.MentionedIff | src/services/contextService.ts:32-39 | an item is reported exactly when it is a non-folder node of the tree and its space-padded, lower-cased title occurs in the lower-cased, space-padded input with `.,!?;:()` replaced by spaces |
| ContextService.FoldersNeverMentioned | src/services/contextService.ts:39 | no folder is ever reported, whatever its title |
| ContextService.PunctuatedTitleNeverMentioned | src/services/contextService.ts:32-39 | a title that contains one of `.,!?;:()` can never be mentioned |
| ContextService.PossessiveTitleNotMentioned | src/services/contextService.ts:32 | the apostrophe is not replaced, so "Elara's" does not mention an item titled "Elara" |
| ContextService.Titles | src/services/contextService.ts:70 | one title per item, in order |
| ContextService.NonEmptyParts | src/services/contextService.ts:69 | the filter keeps exactly the non-empty parts, and keeps none exactly when every part is empty; a single part is kept exactly when it is not "" |
| ContextService.NonEmptyPartsAppend | src/services/contextService.ts:69 | the filter distributes over concatenation, so with the single-part case it keeps the non-empty blocks in their order and multiplicity |
| ContextService.BlocksAllEmptyIff | src/services/contextService.ts:69 | every formatted block is empty exactly when every mentioned item formats to "" |
| ContextService.BuildContextString | src/services/contextService.ts:53-78 | an empty input or root list gives empty results; otherwise the titles are every matched item's title in match order, and the context string is the non-empty blocks joined by `\n---\n`; the context string is "" exactly when the input is empty or every matched block is empty |
| App.FindFirstDocumentRecursive | src/App.tsx:22-31 | a result is a non-folder node of the forest |
| App.FirstDocumentInItem | src/App.tsx:24-28 | a result is a non-folder node of the item's subtree |
| App.FirstDocumentIsFirstVisible | src/App.tsx:22-31 | the result is the first non-folder in the pre-order that enters only folders with `isOpen` set, and null when there is none |
| App.FirstDocumentInItemIsFirstVisible | src/App.tsx:24-28 | the same for one node |
| App.InitialSelectedItem | src/App.tsx:33-36 | the fallback to a non-folder first root never changes the answer: the initial selection is the first visible document |
| App.FlattenFolders | src/App.tsx:133-142 | the loop returns exactly the specification's folder list |
| App.FolderEntriesAreAllFolders | src/App.tsx:133-142 | when no folder sits below a document, the list is the (id, title) of every folder of the tree in pre-order |
| App.FolderEntriesOfAreAllFolders | src/App.tsx:136-139 | the same for one node |
| App.FolderPairsNone | src/App.tsx:136 | a node list without folders contributes no entry |
| App.FolderBelowDocumentNotListed | src/App.tsx:136-139 | the loop does not enter a document, so a folder under a document is missing from the list though it is a folder of the tree |
| App.HandleSelectItem | src/App.tsx:66-77 | a document becomes the selection and the tree is unchanged; a folder leaves the selection, the tree becomes `updateItemInTree` with `isOpen` negated, and afterwards the folder is found with `isOpen` negated (no change if it is not in the tree) |
| App.SelectFolderChangesOnlyIt | src/App.tsx:66-77 | with unique ids, toggling a folder keeps every node's place and children, flips the folder's `isOpen` and leaves every other node's fields as they were |
| App.HandleContentChange | src/App.tsx:79-84 | with no selection nothing changes; otherwise the tree becomes `updateItemInTree` with the new content, the selection and the tree node with its id both carry it, and a selection not in the tree leaves the tree unchanged |
| App.ContentChangeChangesOnlySelected | src/App.tsx:79-84 | with unique ids, editing keeps every node's place and children, gives the selected node the new content and leaves every other node's fields as they were |
| App.NewItemLevel | src/App.tsx:146-156 | parent level + 1 when the parent id is non-empty and found, else 0 |
| App.EmptyFields | src/App.tsx:162 | every template field name is paired with "", in order |
| App.TemplateContent | src/App.tsx:162 | a manuscript starts as "", and every other type starts as its template's fields, all "" |
| App.NewDocument | src/App.tsx:158-166 | the new document's id, title, type (Manuscript by default), template content, level and missing children |
| App.HandleCreateItem | src/App.tsx:145-171 | the tree becomes `addItemToTree` of the new document, and the new document is selected |
| App.CreateItemUnderParent | src/App.tsx:149-170 | under a present parent, the new item is found in the tree at the parent's level + 1, last among the opened parent's children |
| App.CreateItemUnderMissingParentIsDropped | src/App.tsx:149-167 | under an absent parent the tree is unchanged and the new item, though selected at level 0, is not in it |
| App.HandleCreateItemWithRootFallback | src/App.tsx:149-170 | the corrected handler: the selected new item is always in the tree, at the parent's level + 1 when the parent is found, otherwise as the last root at level 0 |
| App.NewFolder | src/App.tsx:187-196 | the new folder's id, trimmed title, level, empty child list and `isOpen` |
| App.HandleCreateFolder | src/App.tsx:174-201 | a blank name changes nothing; otherwise the folder is added under the selected folder (or at the root), and then the select handler flips its `isOpen` |
| App.CreatedFolderEndsClosed | src/App.tsx:195-200 | a newly created folder is found in the tree closed, because the select handler toggles its initial `isOpen: true` |
| App.CreateThenEditFindsNewContent | src/App.tsx:79-84 | after creating a manuscript (content "") and editing it, the tree holds the new item with the edited content |
| BinderMove.Later | src/App.tsx:211-216 | the later write to `removed` wins, and `removed` is null only if neither write happened |
| BinderMove.RemoveSetsRemovedIff | src/App.tsx:212-225 | `removed` is set exactly when some node has the id |
| BinderMove.RemoveInItemSetsRemovedIff | src/App.tsx:218-220 | the same for a kept node's children |
| BinderMove.RemovedIsNodeOfTree | src/App.tsx:213-216 | what `removed` holds is a node of the forest with the id |
| BinderMove.RemovedInItemIsNodeOfTree | src/App.tsx:218-220 | the same for a kept node's children |
| BinderMove.RemoveAppend | src/App.tsx:213-222 | filtering two sibling lists in a row keeps each list's result in order, and the second list's `removed` wins |
| BinderMove.RemoveNodes | src/App.tsx:212-223 | the filtering scan returns exactly the specification's (tree without the id, removed node) |
| BinderMove.RemoveAbsent | src/App.tsx:212-225 | with the id absent nothing is removed and the tree is unchanged, so `moveItemInTree` returns early |
| BinderMove.RemoveInItemAbsent | src/App.tsx:218-220 | the same for a node's subtree |
| BinderMove.RemoveTakesLookup | src/App.tsx:211-225 | with unique ids, the removed node is the one the lookup finds |
| BinderMove.RemoveInItemTakesLookup | src/App.tsx:218-220 | the same below a kept node |
| BinderMove.RemoveSplits | src/App.tsx:212-224 | with unique ids and the id present, removal cuts the removed node's whole subtree out of the pre-order as one block and keeps every other id in order |
| BinderMove.RemoveInItemSplits | src/App.tsx:218-220 | the same below a kept node |
| BinderMove.SpliceIndex | src/App.tsx:234 | the position `splice(newIndex, 0, x)` inserts at lies within the array |
| BinderMove.SplicePlaces | src/App.tsx:234 | after the splice the item sits at the clamped index, and removing it gives back the original array |
| BinderMove.SpliceSplits | src/App.tsx:244 | a splice adds the moved node's ids to the pre-order as one block |
| BinderMove.FindAfterSplice | src/App.tsx:234 | an item with a fresh id is found once spliced in |
| BinderMove.InsertUnderAbsent | src/App.tsx:237-251 | with the parent id absent, `insert` returns the tree unchanged, and the moved item is not placed |
| BinderMove.InsertUnderItemAbsent | src/App.tsx:247-250 | the same for a node's subtree |
| BinderMove.FindParentAfterInsert | src/App.tsx:237-251 | the parent, looked up after `insert`, has the moved item spliced into its children at the index and is opened |
| BinderMove.FindParentInItemAfterInsert | src/App.tsx:238-249 | the same within one node's subtree |
| BinderMove.InsertUnderSplits | src/App.tsx:237-251 | with unique ids and the parent present, `insert` adds the moved node's ids as one block and keeps every other id in order |
| BinderMove.InsertUnderItemSplits | src/App.tsx:238-249 | the same within one node's subtree |
| BinderMove.FindMovedAfterInsert | src/App.tsx:237-251 | with the parent present and a fresh id, the moved item is found after `insert` |
| BinderMove.FindMovedInItemAfterInsert | src/App.tsx:238-249 | the same within one node's subtree |
| BinderMove.MoveItemInTree | src/App.tsx:204-254 | the remove-then-insert method returns exactly the specification's move |
| BinderMove.MoveAbsentIsIdentity | src/App.tsx:224-225 | moving an id that is not in the tree returns the input |
| BinderMove.MoveKeepsEveryNode | src/App.tsx:204-254 | when the destination survives removal, the moved subtree's ids leave the pre-order as one block and come back as one block, with the other ids in the same order |
| BinderMove.MoveKeepsIdMultiset | src/App.tsx:204-254 | when the destination survives removal, a move neither loses nor duplicates an id |
| BinderMove.MoveKeepsMovedNode | src/App.tsx:204-254 | when the destination survives removal, the moved node, children and level unchanged, is found by its id after the move |
| BinderMove.MoveToRootSplices | src/App.tsx:228-235 | with a null parent, the removed node sits at the clamped index of the new root list, and removing it gives back the other roots in their order |
| BinderMove.MoveIntoParentSplices | src/App.tsx:237-246 | with a parent that survives removal, that parent gets the removed node spliced into its children at the index and is opened |
| BinderMove.MoveIntoFolderPutsFirst | src/App.tsx:278-280 | a drop on a folder makes the moved node its first child and opens it |
| BinderMove.MoveIntoOwnSubtreeLosesIt | src/App.tsx:204-254 | as written: moving a node under itself or one of its descendants returns the tree without that subtree, which loses its nodes |
| BinderMove.DropFolderOntoItsChildEmptiesBinder | src/App.tsx:278-280 | as written: dropping the only root folder onto its child folder leaves an empty binder |
| BinderMove.MoveItemGuarded | src/App.tsx:224-253 | the corrected move: if the destination survives removal it is the source's move, otherwise the tree is unchanged |
| BinderMove.GuardedMoveKeepsEveryId | src/App.tsx:204-254 | with unique ids, the corrected move never loses or duplicates an id, for every input |
| BinderMove.FindParentAndIndex | src/App.tsx:283-292 | the index scan returns exactly the specification's (parent, index) |
| BinderMove.ParentAndIndexFromNoneIff | src/App.tsx:283-292 | the scan returns null exactly when no node from the index on carries the id |
| BinderMove.ParentAndIndexBelowNoneIff | src/App.tsx:286-289 | the same below one node |
| BinderMove.ParentAndIndexFromReports | src/App.tsx:284-291 | a reported (parent, index) names the sibling list that holds the id: the list scanned, or the children of a node carrying the parent id |
| BinderMove.ParentAndIndexBelowReports | src/App.tsx:286-289 | the same below one node |
| BinderMove.FindNodeOfTree | src/utils.ts:16-25 | with unique ids, every node of the tree is what the lookup returns for its id |
| BinderMove.ParentAndIndexLocates | src/App.tsx:283-293 | with unique ids, the scan is null exactly when the id is absent; otherwise the index points at the node with the id, in the root list or in the children of the reported parent |
| BinderMove.FindItemAndParentAgrees | src/App.tsx:261-270 | `findItemAndParent` returns the lookup's node and the parent that `findParentAndIndex` reports |
| BinderMove.FindItemAndParentBelowAgrees | src/App.tsx:264-267 | the same below one node |
| BinderMove.HandleDragEnd | src/App.tsx:256-296 | no drop target, a drop on itself, or a missing dragged or target item changes nothing; a folder target moves the item to index 0 of that folder; any other target moves it to the target's parent and index, which always exist |

## Left out

- Icons (`icon: React.ReactNode`) are not modelled, and neither is the folder-icon reassignment in `insert`.
- Toasts, console logging, modal open/close flags, editor suggestions and error state, and the theme and `localStorage` code are UI effects and are not modelled.
- Ids made from `Date.now()` are a parameter `newId` of the create handlers. Where a lemma needs a fresh id, freshness is a precondition.
- The Gemini client (`src/services/geminiService.ts`) is network I/O and is not part of this model.
- The `DocumentType` enum has no `PlotLines` member, so the `TEMPLATES` row keyed by `DocumentType.PlotLines` no document type can reach is omitted. The model has the enum's five members, as the code declares them.
- ToLowerCase: folds ASCII `A`–`Z` only; JavaScript's Unicode lower-casing of other letters is not modelled.
- Item: an absent `isOpen` is `false`. The code only reads `isOpen` for truth or writes `true`, `!isOpen` or `false`.
- Patch: a field of a `Partial<BinderItem>` is present or absent. A present `undefined` is expressible only for `children`.
- HandleCreateItem: the level is read from the same state the item is added to. The source reads the render-time `binderItems` but adds to the updater's `prev`, which coincide unless two updates are queued in one render.
- HandleDragEnd: the drop target's type and position come from the same tree that is moved. The source reads the render-time `binderItems` and moves in `prev`.
- MoveItemInTree: the JSON deep copy is implicit, since datatypes are values. The model does not recompute `level` after a move, and neither does the code.
- FolderEntriesAreAllFolders: proved only when no folder sits below a document. Folders are created only at the root or under a folder (src/App.tsx:179), but a drag that drops a folder on a child of a document inserts it beside that child, under the document (src/App.tsx:282-295). `flattenFolders` then leaves it out (`App.FolderBelowDocumentNotListed`).

## Findings

| source | as written | input that shows it | evidently intended | confidence | as-written member | corrected member |
|---|---|---|---|---|---|---|
| src/App.tsx:204-254 | `remove` takes the dragged node out with its subtree. `insert` then looks for the new parent in what is left, and when the parent was inside that subtree it is not found, so the subtree is dropped. | Drop the root folder "draft" (children `[act-1]`) onto its child folder "act-1": `moveItemInTree([draft], "draft", "act-1", 0)` returns `[]` | A move whose destination disappears with the removed subtree leaves the tree unchanged | not executed | BinderMove.MoveIntoOwnSubtreeLosesIt | BinderMove.MoveItemGuarded |
| src/App.tsx:149-167 | With a non-empty parent id that is not in the tree, the handler logs "defaulting to root" and computes level 0. It then calls `addItemToTree` with the same id, which adds nothing, yet still selects the new item. | `handleCreateItem("Notes", Manuscript, "gone")` on a tree without "gone": the tree is unchanged and the selected item is in no folder | The item is added at the root with level 0, as the log message says | not executed | App.CreateItemUnderMissingParentIsDropped | App.HandleCreateItemWithRootFallback |
