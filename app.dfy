/**
 * The binder logic held inline in src/App.tsx: first-document selection,
 * folder flattening, the new-item handlers, drag-and-drop relocation
 * (`moveItemInTree`) and drop-target resolution (`handleDragEnd`).
 */
module App {
  import opened Wrappers
  import opened Types
  import opened Text
  import opened Utils

  // ---------------------------------------------------------------------------
  // findFirstDocumentRecursive and the initial selection

  /** `findFirstDocumentRecursive`: the first non-folder, descending only into open folders. */
  function FindFirstDocumentRecursive(items: seq<Item>): (r: Option<Item>)
    ensures r.Some? ==> r.value.kind != Folder && r.value in Flatten(items)
    decreases items
  {
    if items == [] then None
    else
      var d := FirstDocumentInItem(items[0]);
      if d.Some? then d else FindFirstDocumentRecursive(items[1..])
  }

  /** One iteration of its loop: the item itself if a document, else an open folder's children. */
  function FirstDocumentInItem(x: Item): (r: Option<Item>)
    ensures r.Some? ==> r.value.kind != Folder && r.value in FlattenNode(x)
    decreases x
  {
    if x.kind != Folder then Some(x)
    else match x.children
      case Present(cs) => if x.isOpen then FindFirstDocumentRecursive(cs) else None
      case Absent => None
  }

  /** The nodes a reader sees in the binder: every root, and the children of open folders, in pre-order. */
  function Visible(items: seq<Item>): seq<Item>
    decreases items
  {
    if items == [] then [] else VisibleNode(items[0]) + Visible(items[1..])
  }

  function VisibleNode(x: Item): seq<Item>
    decreases x
  {
    [x] + match x.children
      case Present(cs) => if x.kind == Folder && x.isOpen then Visible(cs) else []
      case Absent => []
  }

  /** The reference definition: the first non-folder of a flat list. */
  function FirstNonFolder(s: seq<Item>): Option<Item>
  {
    if s == [] then None else if s[0].kind != Folder then Some(s[0]) else FirstNonFolder(s[1..])
  }

  lemma {:induction false} FirstNonFolderAppend(a: seq<Item>, b: seq<Item>)
    ensures FirstNonFolder(a + b) == if FirstNonFolder(a).Some? then FirstNonFolder(a) else FirstNonFolder(b)
  {
    if a == [] {
      assert a + b == b;
    } else {
      assert (a + b)[0] == a[0] && (a + b)[1..] == a[1..] + b;
      FirstNonFolderAppend(a[1..], b);
    }
  }

  /** The selection is the first document a reader sees, top to bottom, or none if every visible node is a folder. */
  lemma {:induction false} FirstDocumentIsFirstVisible(items: seq<Item>)
    ensures FindFirstDocumentRecursive(items) == FirstNonFolder(Visible(items))
    decreases items
  {
    if items != [] {
      FirstDocumentInItemIsFirstVisible(items[0]);
      FirstDocumentIsFirstVisible(items[1..]);
      FirstNonFolderAppend(VisibleNode(items[0]), Visible(items[1..]));
    }
  }

  lemma {:induction false} FirstDocumentInItemIsFirstVisible(x: Item)
    ensures FirstDocumentInItem(x) == FirstNonFolder(VisibleNode(x))
    decreases x
  {
    var below := match x.children
      case Present(cs) => if x.kind == Folder && x.isOpen then Visible(cs) else []
      case Absent => [];
    FirstNonFolderAppend([x], below);
    assert [x][1..] == [];
    match x.children
    case Present(cs) => FirstDocumentIsFirstVisible(cs);
    case Absent =>
  }

  /** `getInitialSelectedItem`: its fallback to a non-folder first root never changes the answer. */
  function InitialSelectedItem(items: seq<Item>): (r: Option<Item>)
    ensures r == FindFirstDocumentRecursive(items)
  {
    var first := FindFirstDocumentRecursive(items);
    if first.Some? then first
    else if |items| > 0 && items[0].kind != Folder then Some(items[0])
    else None
  }

  // ---------------------------------------------------------------------------
  // flattenFolders

  /** The specification of `flattenFolders`: (id, title) of each folder reached through folders, in pre-order. */
  function FolderEntries(items: seq<Item>): seq<(string, string)>
    decreases items
  {
    if items == [] then [] else FolderEntriesOf(items[0]) + FolderEntries(items[1..])
  }

  function FolderEntriesOf(x: Item): seq<(string, string)>
    decreases x
  {
    if x.kind != Folder then []
    else [(x.id, x.title)] + match x.children case Present(cs) => FolderEntries(cs) case Absent => []
  }

  lemma {:induction false} FolderEntriesAppend(a: seq<Item>, b: seq<Item>)
    ensures FolderEntries(a + b) == FolderEntries(a) + FolderEntries(b)
  {
    if a == [] {
      assert a + b == b;
    } else {
      assert (a + b)[0] == a[0] && (a + b)[1..] == a[1..] + b;
      FolderEntriesAppend(a[1..], b);
    }
  }

  /** One more item of the sibling list adds that item's entries. */
  lemma FolderEntriesPrefixStep(items: seq<Item>, i: nat)
    requires i < |items|
    ensures FolderEntries(items[..i + 1]) == FolderEntries(items[..i]) + FolderEntriesOf(items[i])
  {
    assert items[..i + 1] == items[..i] + [items[i]];
    FolderEntriesAppend(items[..i], [items[i]]);
    assert [items[i]][1..] == [];
  }

  /** `flattenFolders`: the accumulating loop over one sibling list. */
  method FlattenFolders(items: seq<Item>) returns (result: seq<(string, string)>)
    ensures result == FolderEntries(items)
    decreases Count(items)
  {
    result := [];
    var i := 0;
    while i < |items|
      invariant 0 <= i <= |items|
      invariant result == FolderEntries(items[..i])
    {
      var item := items[i];
      var entries: seq<(string, string)> := [];
      if item.kind == Folder {
        var nested: seq<(string, string)> := [];
        if item.children.Present? {
          KidsSmaller(items, i);
          nested := FlattenFolders(item.children.items);
        }
        entries := [(item.id, item.title)] + nested;
      }
      assert entries == FolderEntriesOf(item);
      FolderEntriesPrefixStep(items, i);
      result := result + entries;
      i := i + 1;
    }
    assert items[..|items|] == items;
  }

  /**
   * No folder sits anywhere below a non-folder. Documents may carry children
   * (a document created while a document is selected goes under it), but
   * folders are only ever created at the root or under a folder.
   */
  ghost predicate NoFolderBelowDocument(s: seq<Item>)
  {
    forall x | x in s && x.kind != Folder :: forall y | y in Flatten(Kids(x)) :: y.kind != Folder
  }

  /** The reference definition: the (id, title) of every folder of a flat list. */
  function FolderPairs(s: seq<Item>): seq<(string, string)>
  {
    if s == [] then [] else (if s[0].kind == Folder then [(s[0].id, s[0].title)] else []) + FolderPairs(s[1..])
  }

  lemma {:induction false} FolderPairsAppend(a: seq<Item>, b: seq<Item>)
    ensures FolderPairs(a + b) == FolderPairs(a) + FolderPairs(b)
  {
    if a == [] {
      assert a + b == b;
    } else {
      assert (a + b)[0] == a[0] && (a + b)[1..] == a[1..] + b;
      FolderPairsAppend(a[1..], b);
    }
  }

  /** A flat list without folders has no folder entries. */
  lemma {:induction false} FolderPairsNone(s: seq<Item>)
    requires forall y | y in s :: y.kind != Folder
    ensures FolderPairs(s) == []
  {
    if s != [] {
      assert s[0] in s;
      assert forall y | y in s[1..] :: y in s;
      FolderPairsNone(s[1..]);
    }
  }

  /**
   * When no folder sits below a document, `flattenFolders` lists every folder
   * of the binder, in pre-order.
   */
  lemma {:induction false} FolderEntriesAreAllFolders(items: seq<Item>)
    requires NoFolderBelowDocument(Flatten(items))
    ensures FolderEntries(items) == FolderPairs(Flatten(items))
    decreases items
  {
    if items != [] {
      assert Flatten(items) == FlattenNode(items[0]) + Flatten(items[1..]);
      FolderEntriesOfAreAllFolders(items[0]);
      FolderEntriesAreAllFolders(items[1..]);
      FolderPairsAppend(FlattenNode(items[0]), Flatten(items[1..]));
    }
  }

  lemma {:induction false} FolderEntriesOfAreAllFolders(x: Item)
    requires NoFolderBelowDocument(FlattenNode(x))
    ensures FolderEntriesOf(x) == FolderPairs(FlattenNode(x))
    decreases x
  {
    FolderPairsAppend([x], Flatten(Kids(x)));
    assert [x][1..] == [];
    assert x in FlattenNode(x);
    if x.kind == Folder {
      match x.children
      case Present(cs) =>
        assert NoFolderBelowDocument(Flatten(cs)) by {
          assert forall z | z in Flatten(cs) :: z in FlattenNode(x);
        }
        FolderEntriesAreAllFolders(cs);
      case Absent =>
    } else {
      FolderPairsNone(Flatten(Kids(x)));
    }
  }

  /**
   * A folder below a document is not listed: the loop does not descend into
   * a non-folder, so the folder picker cannot offer it.
   */
  lemma FolderBelowDocumentNotListed(doc: Item, folder: Item)
    requires doc.kind != Folder && folder.kind == Folder && folder.children == Absent
    requires doc.children == Present([folder])
    ensures FolderEntries([doc]) == []
    ensures FolderPairs(Flatten([doc])) == [(folder.id, folder.title)]
  {
    assert Flatten([doc]) == [doc, folder] by {
      assert Flatten([folder]) == [folder];
    }
    assert FolderPairs([doc, folder]) == FolderPairs([folder]) by {
      assert [doc, folder][1..] == [folder];
    }
  }

  // ---------------------------------------------------------------------------
  // The selection and editing handlers

  /** The part of the component's state the binder handlers change: the tree and the selected item. */
  datatype BinderState = BinderState(items: seq<Item>, selected: Option<Item>)

  const NoChange: Patch := Patch(None, None, None, None, None, None, None)

  /** `handleSelectItem`: a document becomes the selection; a folder is toggled open or closed in the tree. */
  function HandleSelectItem(s: BinderState, item: Item): (r: BinderState)
    ensures item.kind != Folder ==> r == s.(selected := Some(item))
    ensures item.kind == Folder ==> r.selected == s.selected
    ensures item.kind == Folder && item.id !in PreIds(s.items) ==> r == s
    ensures item.kind == Folder && item.id in PreIds(s.items) ==>
      FindItemByIdRecursive(r.items, item.id)
        == Some(FindItemByIdRecursive(s.items, item.id).value.(isOpen := !item.isOpen))
    ensures item.kind == Folder ==> r.items == UpdateItemInTree(s.items, item.id, NoChange.(isOpen := Some(!item.isOpen)))
  {
    if item.kind != Folder then s.(selected := Some(item))
    else
      var u := NoChange.(isOpen := Some(!item.isOpen));
      if item.id in PreIds(s.items) then
        FindAfterUpdate(s.items, item.id, u);
        s.(items := UpdateItemInTree(s.items, item.id, u))
      else
        UpdateAbsent(s.items, item.id, u);
        s.(items := UpdateItemInTree(s.items, item.id, u))
  }

  /** `handleContentChange`: the selected item's content is replaced, in the tree and in the selection. */
  function HandleContentChange(s: BinderState, newContent: Content): (r: BinderState)
    ensures s.selected.None? ==> r == s
    ensures s.selected.Some? ==> r.selected == Some(s.selected.value.(content := newContent))
    ensures s.selected.Some? && s.selected.value.id in PreIds(s.items) ==>
      FindItemByIdRecursive(r.items, s.selected.value.id)
        == Some(FindItemByIdRecursive(s.items, s.selected.value.id).value.(content := newContent))
    ensures s.selected.Some? && s.selected.value.id !in PreIds(s.items) ==> r.items == s.items
    ensures s.selected.Some? ==>
      r.items == UpdateItemInTree(s.items, s.selected.value.id, NoChange.(content := Some(newContent)))
  {
    if s.selected.None? then s
    else
      var item := s.selected.value;
      var u := NoChange.(content := Some(newContent));
      if item.id in PreIds(s.items) then FindAfterUpdate(s.items, item.id, u);
        BinderState(UpdateItemInTree(s.items, item.id, u), Some(item.(content := newContent)))
      else
        UpdateAbsent(s.items, item.id, u);
        BinderState(UpdateItemInTree(s.items, item.id, u), Some(item.(content := newContent)))
  }

  /**
   * Toggling a folder changes nothing else: on a binder with unique ids every
   * node keeps its place and children, the folder gets the flipped `isOpen`,
   * and every other node keeps its fields.
   */
  lemma SelectFolderChangesOnlyIt(s: BinderState, item: Item)
    requires item.kind == Folder && UniqueIds(s.items)
    ensures var r := HandleSelectItem(s, item);
      && PreIds(r.items) == PreIds(s.items)
      && PatchedAt(Flatten(s.items), Flatten(r.items), item.id, NoChange.(isOpen := Some(!item.isOpen)))
  {
    UpdateKeepsShape(s.items, item.id, NoChange.(isOpen := Some(!item.isOpen)));
  }

  /**
   * Editing changes nothing else: on a binder with unique ids every node
   * keeps its place and children, the selected node gets the new content, and
   * every other node keeps its fields.
   */
  lemma ContentChangeChangesOnlySelected(s: BinderState, newContent: Content)
    requires s.selected.Some? && UniqueIds(s.items)
    ensures var r := HandleContentChange(s, newContent);
      && PreIds(r.items) == PreIds(s.items)
      && PatchedAt(Flatten(s.items), Flatten(r.items), s.selected.value.id, NoChange.(content := Some(newContent)))
  {
    UpdateKeepsShape(s.items, s.selected.value.id, NoChange.(content := Some(newContent)));
  }

  // ---------------------------------------------------------------------------
  // handleCreateItem and handleCreateFolder

  /** `if (parentId)`: a parent id that is present and not the empty string. */
  predicate Truthy(parentId: Option<string>)
  {
    parentId.Some? && parentId.value != ""
  }

  /** The level given to a new item: its parent's level plus one when that parent is found, else 0. */
  function NewItemLevel(items: seq<Item>, parentId: Option<string>): (r: int)
    ensures Truthy(parentId) && parentId.value in PreIds(items) ==>
      r == FindItemByIdRecursive(items, parentId.value).value.level + 1
    ensures !(Truthy(parentId) && parentId.value in PreIds(items)) ==> r == 0
  {
    if Truthy(parentId) then
      match FindItemByIdRecursive(items, parentId.value)
      case Some(parentFolder) => parentFolder.level + 1
      case None => 0
    else 0
  }

  /** `Object.fromEntries(fields.map(field => [field, '']))`. */
  function EmptyFields(fields: seq<string>): (r: seq<(string, string)>)
    ensures |r| == |fields|
    ensures forall i | 0 <= i < |fields| :: r[i] == (fields[i], "")
  {
    if fields == [] then [] else [(fields[0], "")] + EmptyFields(fields[1..])
  }

  /** The initial content of a new document: empty text for a manuscript, else its template with every field empty. */
  function TemplateContent(docType: DocumentType): (r: Content)
    ensures docType == Manuscript ==> r == Text("")
    ensures docType != Manuscript ==>
      && r.Fields?
      && TypeValue(Document(docType)) in Templates
      && var names := Templates[TypeValue(Document(docType))];
         |r.entries| == |names| && forall i | 0 <= i < |names| :: r.entries[i] == (names[i], "")
  {
    if docType == Manuscript then Text("")
    else
      var key := TypeValue(Document(docType));
      Fields(EmptyFields(if key in Templates then Templates[key] else []))
  }

  /** The document `handleCreateItem` builds; a missing type means a manuscript chapter. */
  function NewDocument(items: seq<Item>, title: string, docType: Option<DocumentType>, parentId: Option<string>, newId: string): (r: Item)
    ensures r.id == newId && r.title == title && r.children == Absent && !r.isOpen
    ensures r.kind == Document(if docType.Some? then docType.value else Manuscript)
    ensures r.content == TemplateContent(if docType.Some? then docType.value else Manuscript)
    ensures r.level == NewItemLevel(items, parentId)
  {
    var d := if docType.Some? then docType.value else Manuscript;
    Item(newId, title, Document(d), TemplateContent(d), NewItemLevel(items, parentId), Absent, false)
  }

  /** `handleCreateItem`: insert the new document under `parentId` (or at the root) and select it. */
  function HandleCreateItem(s: BinderState, title: string, docType: Option<DocumentType>, parentId: Option<string>, newId: string): (r: BinderState)
    ensures var newItem := NewDocument(s.items, title, docType, parentId, newId);
      && r.items == AddItemToTree(s.items, parentId, newItem)
      && r.selected == Some(newItem)
  {
    var newItem := NewDocument(s.items, title, docType, parentId, newId);
    HandleSelectItem(BinderState(AddItemToTree(s.items, parentId, newItem), s.selected), newItem)
  }

  /**
   * A new document under a parent that is present is found by its id, one
   * level below that parent, as the parent's last child, with the parent open.
   */
  lemma CreateItemUnderParent(s: BinderState, title: string, docType: Option<DocumentType>, p: string, newId: string)
    requires p != "" && p in PreIds(s.items) && newId !in PreIds(s.items)
    ensures var r := HandleCreateItem(s, title, docType, Some(p), newId);
      var newItem := r.selected.value;
      var parent := FindItemByIdRecursive(s.items, p).value;
      && FindItemByIdRecursive(r.items, newId) == Some(newItem)
      && newItem.level == parent.level + 1
      && FindItemByIdRecursive(r.items, p) == Some(parent.(children := Present(Kids(parent) + [newItem]), isOpen := true))
  {
    var newItem := NewDocument(s.items, title, docType, Some(p), newId);
    FindNewAfterAdd(s.items, Some(p), newItem);
  }

  /**
   * `handleCreateItem` with a parent id that is not in the tree (or is the
   * empty string, which `if (parentId)` skips): the level is 0 as for a root,
   * but `addItemToTree` returns the tree unchanged, so the new item is
   * selected yet not in the binder.
   */
  lemma CreateItemUnderMissingParentIsDropped(s: BinderState, title: string, docType: Option<DocumentType>, p: string, newId: string)
    requires p !in PreIds(s.items) && newId !in PreIds(s.items)
    ensures var r := HandleCreateItem(s, title, docType, Some(p), newId);
      && r.items == s.items
      && r.selected.value.level == 0
      && newId !in PreIds(r.items)
  {
  }

  /** The corrected handler: a parent that is not found sends the new item to the root, as the level computation already expects. */
  function HandleCreateItemWithRootFallback(s: BinderState, title: string, docType: Option<DocumentType>, parentId: Option<string>, newId: string): (r: BinderState)
    requires newId !in PreIds(s.items)
    ensures FindItemByIdRecursive(r.items, newId) == r.selected
    ensures r.selected.Some? && r.selected.value.id == newId
    ensures Truthy(parentId) && parentId.value in PreIds(s.items) ==>
      r.selected.value.level == FindItemByIdRecursive(s.items, parentId.value).value.level + 1
    ensures !(Truthy(parentId) && parentId.value in PreIds(s.items)) ==>
      r.selected.value.level == 0 && r.items == s.items + [r.selected.value]
  {
    var target := if Truthy(parentId) && parentId.value in PreIds(s.items) then parentId else None;
    var newItem := NewDocument(s.items, title, docType, parentId, newId);
    FindNewAfterAdd(s.items, target, newItem);
    HandleSelectItem(BinderState(AddItemToTree(s.items, target, newItem), s.selected), newItem)
  }

  /** The folder `handleCreateFolder` builds: trimmed title, empty children, open. */
  function NewFolder(items: seq<Item>, title: string, parentId: Option<string>, newId: string): (r: Item)
    ensures r.id == newId && r.title == Trim(title) && r.kind == Folder
    ensures r.children == Present([]) && r.isOpen && r.content == Text("")
    ensures r.level == NewItemLevel(items, parentId)
  {
    Item(newId, Trim(title), Folder, Text(""), NewItemLevel(items, parentId), Present([]), true)
  }

  /** The parent of a new folder: the selected item when it is a folder, else the root. */
  function FolderParent(selected: Option<Item>): Option<string>
  {
    if selected.Some? && selected.value.kind == Folder then Some(selected.value.id) else None
  }

  /**
   * `handleCreateFolder`: a blank title is refused; otherwise the folder is
   * added under the selected folder (or at the root) and then passed to
   * `handleSelectItem`, which toggles its `isOpen`.
   */
  function HandleCreateFolder(s: BinderState, title: string, newId: string): (r: BinderState)
    ensures AllWhitespace(title) ==> r == s
    ensures !AllWhitespace(title) ==>
      var newFolder := NewFolder(s.items, title, FolderParent(s.selected), newId);
      && r.selected == s.selected
      && r.items == UpdateItemInTree(AddItemToTree(s.items, FolderParent(s.selected), newFolder), newId,
                                     NoChange.(isOpen := Some(false)))
  {
    TrimEmptyIffAllWhitespace(title);
    if title == "" || Trim(title) == "" then s
    else
      var parentId := FolderParent(s.selected);
      var newFolder := NewFolder(s.items, title, parentId, newId);
      HandleSelectItem(BinderState(AddItemToTree(s.items, parentId, newFolder), s.selected), newFolder)
  }

  /**
   * Because `handleSelectItem` toggles the folder it is given, a folder
   * created with `isOpen: true` is found closed right after creation.
   */
  lemma CreatedFolderEndsClosed(s: BinderState, title: string, newId: string)
    requires !AllWhitespace(title) && newId !in PreIds(s.items)
    requires FolderParent(s.selected).None? || FolderParent(s.selected).value in PreIds(s.items)
    ensures var r := HandleCreateFolder(s, title, newId);
      && FindItemByIdRecursive(r.items, newId).Some?
      && !FindItemByIdRecursive(r.items, newId).value.isOpen
  {
    var parentId := FolderParent(s.selected);
    var newFolder := NewFolder(s.items, title, parentId, newId);
    var added := AddItemToTree(s.items, parentId, newFolder);
    FindNewAfterAdd(s.items, parentId, newFolder);
    FindAfterUpdate(added, newId, NoChange.(isOpen := Some(false)));
  }

  /**
   * Creating a manuscript chapter and then editing it: the lookup by its id
   * returns exactly the edited content.
   */
  lemma CreateThenEditFindsNewContent(s: BinderState, title: string, parentId: Option<string>, newId: string, text: string)
    requires newId !in PreIds(s.items)
    requires parentId.None? || parentId.value in PreIds(s.items)
    ensures var created := HandleCreateItem(s, title, Some(Manuscript), parentId, newId);
      var edited := HandleContentChange(created, Text(text));
      && created.selected.value.content == Text("")
      && FindItemByIdRecursive(edited.items, newId) == Some(created.selected.value.(content := Text(text)))
  {
    var newItem := NewDocument(s.items, title, Some(Manuscript), parentId, newId);
    FindNewAfterAdd(s.items, parentId, newItem);
    PreIdsAreFlattenIds(AddItemToTree(s.items, parentId, newItem));
  }
}
