/**
 * The immutable tree operations of src/utils.ts: id-addressed update,
 * pre-order lookup and insertion under a parent or at the root.
 */
module Utils {
  import opened Wrappers
  import opened Types

  /**
   * A `Partial<BinderItem>`: each present field overrides the item's own.
   * `children: Some(Absent)` stands for an explicit `children: undefined`.
   */
  datatype Patch = Patch(
    id: Option<string>,
    title: Option<string>,
    kind: Option<ItemType>,
    content: Option<Content>,
    level: Option<int>,
    children: Option<Children>,
    isOpen: Option<bool>)

  /** A patch that changes neither the id nor the children, as every caller's patch does. */
  predicate KeepsShape(u: Patch)
  {
    u.id.None? && u.children.None?
  }

  function Pick<T>(o: Option<T>, default: T): T
  {
    if o.Some? then o.value else default
  }

  /** `{ ...item, ...updates }`. */
  function Apply(x: Item, u: Patch): Item
  {
    Item(Pick(u.id, x.id), Pick(u.title, x.title), Pick(u.kind, x.kind), Pick(u.content, x.content),
         Pick(u.level, x.level), Pick(u.children, x.children), Pick(u.isOpen, x.isOpen))
  }

  /** An item with its `children` field blanked: the fields an update compares. */
  function Own(x: Item): Item
  {
    x.(children := Absent)
  }

  // ---------------------------------------------------------------------------
  // updateItemInTree

  /** `updateItemInTree`: `items.map` of the per-item step below. */
  function UpdateItemInTree(items: seq<Item>, itemId: string, u: Patch): (r: seq<Item>)
    ensures |r| == |items|
    decreases items
  {
    if items == [] then [] else [UpdateItem(items[0], itemId, u)] + UpdateItemInTree(items[1..], itemId, u)
  }

  /** A matching item is patched (its subtree is not visited); any other item has its children updated. */
  function UpdateItem(x: Item, itemId: string, u: Patch): Item
    decreases x
  {
    if x.id == itemId then Apply(x, u)
    else match x.children
      case Present(cs) => x.(children := Present(UpdateItemInTree(cs, itemId, u)))
      case Absent => x
  }

  /** With no node carrying `itemId`, the update returns a tree equal to its input. */
  lemma {:induction false} UpdateAbsent(items: seq<Item>, itemId: string, u: Patch)
    requires itemId !in PreIds(items)
    ensures UpdateItemInTree(items, itemId, u) == items
    decreases items
  {
    if items != [] {
      UpdateItemAbsent(items[0], itemId, u);
      UpdateAbsent(items[1..], itemId, u);
    }
  }

  lemma {:induction false} UpdateItemAbsent(x: Item, itemId: string, u: Patch)
    requires itemId !in NodeIds(x)
    ensures UpdateItem(x, itemId, u) == x
    decreases x
  {
    match x.children
    case Present(cs) => UpdateAbsent(cs, itemId, u);
    case Absent =>
  }

  /** Both nodes have a `children` field or neither does, and as many children. */
  predicate SameArity(x: Item, y: Item)
  {
    x.children.Present? == y.children.Present? && |Kids(x)| == |Kids(y)|
  }

  /**
   * Two pre-order listings related position by position: each node keeps its
   * number of children, and a node carrying `itemId` has the patched fields,
   * every other node its old ones. Since a pre-order listing with the arity of
   * every node determines the forest, this fixes the nesting as well.
   */
  ghost predicate PatchedAt(before: seq<Item>, after: seq<Item>, itemId: string, u: Patch)
  {
    && |before| == |after|
    && forall k | 0 <= k < |before| ::
         && SameArity(after[k], before[k])
         && Own(after[k]) == if before[k].id == itemId then Own(Apply(before[k], u)) else Own(before[k])
  }

  lemma PatchedAtAppend(a: seq<Item>, b: seq<Item>, a': seq<Item>, b': seq<Item>, itemId: string, u: Patch)
    requires PatchedAt(a, a', itemId, u) && PatchedAt(b, b', itemId, u)
    ensures PatchedAt(a + b, a' + b', itemId, u)
  {
    forall k | 0 <= k < |a + b|
      ensures SameArity((a' + b')[k], (a + b)[k])
      ensures Own((a' + b')[k]) == if (a + b)[k].id == itemId then Own(Apply((a + b)[k], u)) else Own((a + b)[k])
    {
      if k < |a| {
        assert (a + b)[k] == a[k] && (a' + b')[k] == a'[k];
      } else {
        assert (a + b)[k] == b[k - |a|] && (a' + b')[k] == b'[k - |a|];
      }
    }
  }

  lemma PatchedAtRefl(s: seq<Item>, itemId: string, u: Patch)
    requires forall k | 0 <= k < |s| :: s[k].id != itemId
    ensures PatchedAt(s, s, itemId, u)
  {
  }

  /**
   * On a tree with unique ids and a patch that keeps ids and children, the
   * update keeps every node's place and number of children, and changes
   * exactly the fields of the node carrying `itemId`, leaving every other
   * node's fields as they were.
   */
  lemma {:induction false} UpdateKeepsShape(items: seq<Item>, itemId: string, u: Patch)
    requires UniqueIds(items) && KeepsShape(u)
    ensures PreIds(UpdateItemInTree(items, itemId, u)) == PreIds(items)
    ensures PatchedAt(Flatten(items), Flatten(UpdateItemInTree(items, itemId, u)), itemId, u)
    decreases items
  {
    if items != [] {
      DistinctParts(NodeIds(items[0]), PreIds(items[1..]));
      UpdateItemKeepsShape(items[0], itemId, u);
      UpdateKeepsShape(items[1..], itemId, u);
      PatchedAtAppend(FlattenNode(items[0]), Flatten(items[1..]),
        FlattenNode(UpdateItem(items[0], itemId, u)), Flatten(UpdateItemInTree(items[1..], itemId, u)), itemId, u);
    }
  }

  lemma {:induction false} UpdateItemKeepsShape(x: Item, itemId: string, u: Patch)
    requires Distinct(NodeIds(x)) && KeepsShape(u)
    ensures NodeIds(UpdateItem(x, itemId, u)) == NodeIds(x)
    ensures PatchedAt(FlattenNode(x), FlattenNode(UpdateItem(x, itemId, u)), itemId, u)
    decreases x
  {
    var x' := UpdateItem(x, itemId, u);
    DistinctParts([x.id], PreIds(Kids(x)));
    PreIdsAreFlattenIds(Kids(x));
    assert PatchedAt([x], [x'], itemId, u);
    if x.id == itemId {
      assert x'.children == x.children;
      forall k | 0 <= k < |Flatten(Kids(x))| ensures Flatten(Kids(x))[k].id != itemId {
        assert PreIds(Kids(x))[k] in PreIds(Kids(x));
      }
      PatchedAtRefl(Flatten(Kids(x)), itemId, u);
    } else {
      match x.children
      case Present(cs) => UpdateKeepsShape(cs, itemId, u);
      case Absent =>
    }
    PatchedAtAppend([x], Flatten(Kids(x)), [x'], Flatten(Kids(x')), itemId, u);
  }

  // ---------------------------------------------------------------------------
  // findItemByIdRecursive

  /** `findItemByIdRecursive`: the first item of `items` whose own subtree search succeeds. */
  function FindItemByIdRecursive(items: seq<Item>, itemId: string): (r: Option<Item>)
    ensures r.Some? ==> r.value.id == itemId && r.value in Flatten(items)
    ensures r.None? <==> itemId !in PreIds(items)
    decreases items
  {
    if items == [] then None
    else
      var h := FindInItem(items[0], itemId);
      if h.Some? then h else FindItemByIdRecursive(items[1..], itemId)
  }

  /** One iteration of the search loop: the item itself, else its children. */
  function FindInItem(x: Item, itemId: string): (r: Option<Item>)
    ensures r.Some? ==> r.value.id == itemId && r.value in FlattenNode(x)
    ensures r.None? <==> itemId !in NodeIds(x)
    decreases x
  {
    if x.id == itemId then Some(x)
    else match x.children
      case Present(cs) => FindItemByIdRecursive(cs, itemId)
      case Absent => None
  }

  /** The reference definition: a left-to-right scan of a flat list for the first id match. */
  function FirstWithId(s: seq<Item>, itemId: string): Option<Item>
  {
    if s == [] then None else if s[0].id == itemId then Some(s[0]) else FirstWithId(s[1..], itemId)
  }

  lemma {:induction false} FirstWithIdAppend(a: seq<Item>, b: seq<Item>, itemId: string)
    ensures FirstWithId(a + b, itemId) == if FirstWithId(a, itemId).Some? then FirstWithId(a, itemId) else FirstWithId(b, itemId)
  {
    if a == [] {
      assert a + b == b;
    } else {
      assert (a + b)[0] == a[0] && (a + b)[1..] == a[1..] + b;
      FirstWithIdAppend(a[1..], b, itemId);
    }
  }

  /** The lookup returns the first node in pre-order whose id matches. */
  lemma {:induction false} FindIsFirstInPreorder(items: seq<Item>, itemId: string)
    ensures FindItemByIdRecursive(items, itemId) == FirstWithId(Flatten(items), itemId)
    decreases items
  {
    if items != [] {
      FindInItemIsFirst(items[0], itemId);
      FindIsFirstInPreorder(items[1..], itemId);
      FirstWithIdAppend(FlattenNode(items[0]), Flatten(items[1..]), itemId);
    }
  }

  lemma {:induction false} FindInItemIsFirst(x: Item, itemId: string)
    ensures FindInItem(x, itemId) == FirstWithId(FlattenNode(x), itemId)
    decreases x
  {
    FirstWithIdAppend([x], Flatten(Kids(x)), itemId);
    match x.children
    case Present(cs) => FindIsFirstInPreorder(cs, itemId);
    case Absent =>
  }

  /** Searching a concatenation searches the first part, then the second. */
  lemma FindAppend(a: seq<Item>, b: seq<Item>, itemId: string)
    ensures FindItemByIdRecursive(a + b, itemId)
         == if FindItemByIdRecursive(a, itemId).Some? then FindItemByIdRecursive(a, itemId) else FindItemByIdRecursive(b, itemId)
  {
    FindIsFirstInPreorder(a + b, itemId);
    FindIsFirstInPreorder(a, itemId);
    FindIsFirstInPreorder(b, itemId);
    FlattenAppend(a, b);
    FirstWithIdAppend(Flatten(a), Flatten(b), itemId);
  }

  /** Looking up the updated id finds the node with the patch applied. */
  lemma {:induction false} FindAfterUpdate(items: seq<Item>, itemId: string, u: Patch)
    requires itemId in PreIds(items) && u.id.None?
    ensures FindItemByIdRecursive(UpdateItemInTree(items, itemId, u), itemId)
         == Some(Apply(FindItemByIdRecursive(items, itemId).value, u))
    decreases items
  {
    if itemId in NodeIds(items[0]) {
      FindInItemAfterUpdate(items[0], itemId, u);
    } else {
      UpdateItemAbsent(items[0], itemId, u);
      FindAfterUpdate(items[1..], itemId, u);
    }
  }

  lemma {:induction false} FindInItemAfterUpdate(x: Item, itemId: string, u: Patch)
    requires itemId in NodeIds(x) && u.id.None?
    ensures FindInItem(UpdateItem(x, itemId, u), itemId) == Some(Apply(FindInItem(x, itemId).value, u))
    decreases x
  {
    if x.id != itemId {
      match x.children
      case Present(cs) => FindAfterUpdate(cs, itemId, u);
      case Absent =>
    }
  }

  // ---------------------------------------------------------------------------
  // addItemToTree

  /** `addItemToTree`: append at the root, or under the parent with id `parentId`. */
  function AddItemToTree(items: seq<Item>, parentId: Option<string>, newItem: Item): (r: seq<Item>)
    ensures parentId.None? ==> r == items + [newItem]
    ensures parentId.Some? && parentId.value !in PreIds(items) ==> r == items
    ensures parentId.Some? && parentId.value in PreIds(items) ==>
      var p := FindItemByIdRecursive(items, parentId.value).value;
      FindItemByIdRecursive(r, parentId.value) == Some(p.(children := Present(Kids(p) + [newItem]), isOpen := true))
  {
    if parentId.None? then items + [newItem]
    else
      var p := parentId.value;
      if p !in PreIds(items) then AddUnderAbsent(items, p, newItem); AddUnder(items, p, newItem)
      else FindParentAfterAdd(items, p, newItem); AddUnder(items, p, newItem)
  }

  /** The `items.map` branch of `addItemToTree`, for a non-null parent id. */
  function AddUnder(items: seq<Item>, parentId: string, newItem: Item): (r: seq<Item>)
    ensures |r| == |items|
    decreases items
  {
    if items == [] then [] else [AddUnderItem(items[0], parentId, newItem)] + AddUnder(items[1..], parentId, newItem)
  }

  /** The parent gets `newItem` appended (children created if absent) and is opened; others recurse. */
  function AddUnderItem(x: Item, parentId: string, newItem: Item): Item
    decreases x
  {
    if x.id == parentId then x.(children := Present(Kids(x) + [newItem]), isOpen := true)
    else match x.children
      case Present(cs) => x.(children := Present(AddUnder(cs, parentId, newItem)))
      case Absent => x
  }

  lemma {:induction false} AddUnderAbsent(items: seq<Item>, parentId: string, newItem: Item)
    requires parentId !in PreIds(items)
    ensures AddUnder(items, parentId, newItem) == items
    decreases items
  {
    if items != [] {
      AddUnderItemAbsent(items[0], parentId, newItem);
      AddUnderAbsent(items[1..], parentId, newItem);
    }
  }

  lemma {:induction false} AddUnderItemAbsent(x: Item, parentId: string, newItem: Item)
    requires parentId !in NodeIds(x)
    ensures AddUnderItem(x, parentId, newItem) == x
    decreases x
  {
    match x.children
    case Present(cs) => AddUnderAbsent(cs, parentId, newItem);
    case Absent =>
  }

  lemma {:induction false} FindParentAfterAdd(items: seq<Item>, parentId: string, newItem: Item)
    requires parentId in PreIds(items)
    ensures var p := FindItemByIdRecursive(items, parentId).value;
      FindItemByIdRecursive(AddUnder(items, parentId, newItem), parentId)
        == Some(p.(children := Present(Kids(p) + [newItem]), isOpen := true))
    decreases items
  {
    if parentId in NodeIds(items[0]) {
      FindParentInItemAfterAdd(items[0], parentId, newItem);
    } else {
      AddUnderItemAbsent(items[0], parentId, newItem);
      FindParentAfterAdd(items[1..], parentId, newItem);
    }
  }

  lemma {:induction false} FindParentInItemAfterAdd(x: Item, parentId: string, newItem: Item)
    requires parentId in NodeIds(x)
    ensures var p := FindInItem(x, parentId).value;
      FindInItem(AddUnderItem(x, parentId, newItem), parentId)
        == Some(p.(children := Present(Kids(p) + [newItem]), isOpen := true))
    decreases x
  {
    if x.id != parentId {
      match x.children
      case Present(cs) => FindParentAfterAdd(cs, parentId, newItem);
      case Absent =>
    }
  }

  /** A new item with a fresh id is found by its id once inserted under a parent that is present. */
  lemma {:induction false} FindNewAfterAddUnder(items: seq<Item>, parentId: string, newItem: Item)
    requires parentId in PreIds(items) && newItem.id !in PreIds(items)
    ensures FindItemByIdRecursive(AddUnder(items, parentId, newItem), newItem.id) == Some(newItem)
    decreases items
  {
    var h, t := items[0], items[1..];
    assert items == [h] + t;
    PreIdsCons(h, t);
    FindAppend([AddUnderItem(h, parentId, newItem)], AddUnder(t, parentId, newItem), newItem.id);
    assert [AddUnderItem(h, parentId, newItem)] + AddUnder(t, parentId, newItem) == AddUnder(items, parentId, newItem);
    PreIdsSingle(h);
    if parentId in NodeIds(h) {
      FindNewInItemAfterAddUnder(h, parentId, newItem);
      PreIdsSingle(AddUnderItem(h, parentId, newItem));
    } else {
      AddUnderItemAbsent(h, parentId, newItem);
      FindNewAfterAddUnder(t, parentId, newItem);
    }
  }

  lemma {:induction false} FindNewInItemAfterAddUnder(x: Item, parentId: string, newItem: Item)
    requires parentId in NodeIds(x) && newItem.id !in NodeIds(x)
    ensures FindInItem(AddUnderItem(x, parentId, newItem), newItem.id) == Some(newItem)
    decreases x
  {
    if x.id == parentId {
      FindAppend(Kids(x), [newItem], newItem.id);
      PreIdsSingle(newItem);
    } else {
      match x.children
      case Present(cs) => FindNewAfterAddUnder(cs, parentId, newItem);
      case Absent =>
    }
  }

  /** After `addItemToTree` at the root or under a present parent, the new item is found by its (fresh) id. */
  lemma FindNewAfterAdd(items: seq<Item>, parentId: Option<string>, newItem: Item)
    requires newItem.id !in PreIds(items)
    requires parentId.None? || parentId.value in PreIds(items)
    ensures FindItemByIdRecursive(AddItemToTree(items, parentId, newItem), newItem.id) == Some(newItem)
  {
    if parentId.None? {
      FindAppend(items, [newItem], newItem.id);
      PreIdsSingle(newItem);
    } else {
      FindNewAfterAddUnder(items, parentId.value, newItem);
    }
  }

  /**
   * One node before and after insertion: the parent is opened and gains
   * exactly one child, keeping its other fields; any other node keeps its
   * fields and its number of children.
   */
  predicate Grown(x: Item, x': Item, parentId: string)
  {
    if x.id == parentId then
      && Own(x') == Own(x).(isOpen := true)
      && x'.children.Present? && |Kids(x')| == |Kids(x)| + 1
    else
      SameArity(x', x) && Own(x') == Own(x)
  }

  /** Two pre-order listings related position by position by `Grown`. */
  ghost predicate GrownAt(before: seq<Item>, after: seq<Item>, parentId: string)
  {
    |before| == |after| && forall k | 0 <= k < |before| :: Grown(before[k], after[k], parentId)
  }

  lemma GrownAtAppend(a: seq<Item>, b: seq<Item>, a': seq<Item>, b': seq<Item>, parentId: string)
    requires GrownAt(a, a', parentId) && GrownAt(b, b', parentId)
    ensures GrownAt(a + b, a' + b', parentId)
  {
    forall k | 0 <= k < |a + b|
      ensures (a + b)[k] == (if k < |a| then a[k] else b[k - |a|])
      ensures (a' + b')[k] == (if k < |a| then a'[k] else b'[k - |a|])
    {
    }
  }

  /** The ids of a forest's nodes, position by position in its pre-order listing, avoid an id it lacks. */
  lemma AbsentFromFlatten(items: seq<Item>, id: string)
    requires id !in PreIds(items)
    ensures forall k | 0 <= k < |Flatten(items)| :: Flatten(items)[k].id != id
  {
    PreIdsAreFlattenIds(items);
    forall k | 0 <= k < |Flatten(items)| ensures Flatten(items)[k].id != id {
      assert PreIds(items)[k] in PreIds(items);
    }
  }

  /**
   * With unique ids and the parent present, insertion adds exactly the new
   * item's subtree to the pre-order listing, as one block; position by
   * position around that block, the parent is opened and gains one child and
   * every other node keeps its fields and its number of children.
   */
  lemma {:induction false} AddUnderSplices(items: seq<Item>, parentId: string, newItem: Item)
      returns (before: seq<Item>, after: seq<Item>, before': seq<Item>, after': seq<Item>)
    requires UniqueIds(items) && parentId in PreIds(items)
    ensures Flatten(items) == before + after
    ensures Flatten(AddUnder(items, parentId, newItem)) == before' + FlattenNode(newItem) + after'
    ensures GrownAt(before, before', parentId) && GrownAt(after, after', parentId)
    decreases items, 1
  {
    assert PreIds(items) == NodeIds(items[0]) + PreIds(items[1..]);
    if parentId in NodeIds(items[0]) {
      before, after, before', after' := AddUnderSplicesAtHead(items, parentId, newItem);
    } else {
      before, after, before', after' := AddUnderSplicesInTail(items, parentId, newItem);
    }
  }

  lemma {:induction false} AddUnderSplicesAtHead(items: seq<Item>, parentId: string, newItem: Item)
      returns (before: seq<Item>, after: seq<Item>, before': seq<Item>, after': seq<Item>)
    requires UniqueIds(items) && items != [] && parentId in NodeIds(items[0])
    ensures Flatten(items) == before + after
    ensures Flatten(AddUnder(items, parentId, newItem)) == before' + FlattenNode(newItem) + after'
    ensures GrownAt(before, before', parentId) && GrownAt(after, after', parentId)
    decreases items, 0
  {
    var h, t := items[0], items[1..];
    assert Distinct(NodeIds(h)) && parentId !in PreIds(t) by {
      assert PreIds(items) == NodeIds(h) + PreIds(t);
      DistinctParts(NodeIds(h), PreIds(t));
    }
    var b, a, b', a' := AddUnderItemSplices(h, parentId, newItem);
    AddUnderBeforeTail(items, parentId, newItem, b', a');
    GrownAtBeforeTail(a, a', items[1..], parentId);
    assert Flatten(items) == FlattenNode(h) + Flatten(t);
    SeqRegroupTail(b, [], a, Flatten(t));
    before, after, before', after' := b, a + Flatten(t), b', a' + Flatten(t);
  }

  lemma {:induction false} AddUnderSplicesInTail(items: seq<Item>, parentId: string, newItem: Item)
      returns (before: seq<Item>, after: seq<Item>, before': seq<Item>, after': seq<Item>)
    requires UniqueIds(items) && items != [] && parentId !in NodeIds(items[0]) && parentId in PreIds(items)
    ensures Flatten(items) == before + after
    ensures Flatten(AddUnder(items, parentId, newItem)) == before' + FlattenNode(newItem) + after'
    ensures GrownAt(before, before', parentId) && GrownAt(after, after', parentId)
    decreases items, 0
  {
    var h, t := items[0], items[1..];
    assert UniqueIds(t) && parentId in PreIds(t) by {
      assert PreIds(items) == NodeIds(h) + PreIds(t);
      DistinctParts(NodeIds(h), PreIds(t));
    }
    var b, a, b', a' := AddUnderSplices(t, parentId, newItem);
    AddUnderPastHead(items, parentId, newItem, b', a');
    GrownAtPastHead(h, b, b', parentId);
    assert Flatten(items) == FlattenNode(h) + Flatten(t);
    SeqRegroup(FlattenNode(h), b, [], a);
    before, after, before', after' := FlattenNode(h) + b, a, FlattenNode(h) + b', a';
  }

  /** A tail without the parent is copied, so it follows the head's listing. */
  lemma AddUnderBeforeTail(items: seq<Item>, parentId: string, newItem: Item, b': seq<Item>, a': seq<Item>)
    requires items != [] && parentId !in PreIds(items[1..])
    requires FlattenNode(AddUnderItem(items[0], parentId, newItem)) == b' + FlattenNode(newItem) + a'
    ensures Flatten(AddUnder(items, parentId, newItem)) == b' + FlattenNode(newItem) + (a' + Flatten(items[1..]))
  {
    AddUnderAbsent(items[1..], parentId, newItem);
    var r := AddUnder(items, parentId, newItem);
    assert r[0] == AddUnderItem(items[0], parentId, newItem) && r[1..] == items[1..];
    SeqRegroupTail(b', FlattenNode(newItem), a', Flatten(items[1..]));
  }

  lemma GrownAtBeforeTail(a: seq<Item>, a': seq<Item>, t: seq<Item>, parentId: string)
    requires parentId !in PreIds(t) && GrownAt(a, a', parentId)
    ensures GrownAt(a + Flatten(t), a' + Flatten(t), parentId)
  {
    AbsentFromFlatten(t, parentId);
    assert GrownAt(Flatten(t), Flatten(t), parentId);
    GrownAtAppend(a, Flatten(t), a', Flatten(t), parentId);
  }

  /** A head without the parent is copied, so the tail's listing follows it. */
  lemma AddUnderPastHead(items: seq<Item>, parentId: string, newItem: Item, b': seq<Item>, a': seq<Item>)
    requires items != [] && parentId !in NodeIds(items[0])
    requires Flatten(AddUnder(items[1..], parentId, newItem)) == b' + FlattenNode(newItem) + a'
    ensures Flatten(AddUnder(items, parentId, newItem)) == (FlattenNode(items[0]) + b') + FlattenNode(newItem) + a'
  {
    AddUnderItemAbsent(items[0], parentId, newItem);
    var r := AddUnder(items, parentId, newItem);
    assert r[0] == items[0] && r[1..] == AddUnder(items[1..], parentId, newItem);
    SeqRegroup(FlattenNode(items[0]), b', FlattenNode(newItem), a');
  }

  lemma GrownAtPastHead(h: Item, b: seq<Item>, b': seq<Item>, parentId: string)
    requires parentId !in NodeIds(h) && GrownAt(b, b', parentId)
    ensures GrownAt(FlattenNode(h) + b, FlattenNode(h) + b', parentId)
  {
    AbsentFromFlatten([h], parentId);
    assert Flatten([h]) == FlattenNode(h);
    assert GrownAt(FlattenNode(h), FlattenNode(h), parentId);
    GrownAtAppend(FlattenNode(h), b, FlattenNode(h), b', parentId);
  }

  lemma {:induction false} AddUnderItemSplices(x: Item, parentId: string, newItem: Item)
      returns (before: seq<Item>, after: seq<Item>, before': seq<Item>, after': seq<Item>)
    requires Distinct(NodeIds(x)) && parentId in NodeIds(x)
    ensures FlattenNode(x) == before + after
    ensures FlattenNode(AddUnderItem(x, parentId, newItem)) == before' + FlattenNode(newItem) + after'
    ensures GrownAt(before, before', parentId) && GrownAt(after, after', parentId)
    decreases x
  {
    var x' := AddUnderItem(x, parentId, newItem);
    assert Distinct(PreIds(Kids(x))) && x.id !in PreIds(Kids(x)) by {
      assert NodeIds(x) == [x.id] + PreIds(Kids(x));
      DistinctParts([x.id], PreIds(Kids(x)));
    }
    if x.id == parentId {
      AddUnderItemAtParent(x, parentId, newItem);
      GrownAtParent(x, parentId, newItem);
      before, after, before', after' := [x] + Flatten(Kids(x)), [], [x'] + Flatten(Kids(x)), [];
    } else {
      assert parentId in PreIds(Kids(x));
      var b, a, b', a' := AddUnderSplices(x.children.items, parentId, newItem);
      AddUnderItemBelowParent(x, parentId, newItem, b, a, b', a');
      before, after, before', after' := [x] + b, a, [x'] + b', a';
    }
  }

  /** At the parent: its own subtree is listed unchanged and the new subtree follows it. */
  lemma AddUnderItemAtParent(x: Item, parentId: string, newItem: Item)
    requires x.id == parentId
    ensures FlattenNode(x) == ([x] + Flatten(Kids(x))) + []
    ensures FlattenNode(AddUnderItem(x, parentId, newItem)) ==
      ([AddUnderItem(x, parentId, newItem)] + Flatten(Kids(x))) + FlattenNode(newItem) + []
  {
    var x' := AddUnderItem(x, parentId, newItem);
    assert FlattenNode(x') == [x'] + Flatten(Kids(x'));
    assert Kids(x') == Kids(x) + [newItem];
    FlattenAppend(Kids(x), [newItem]);
    assert Flatten([newItem]) == FlattenNode(newItem);
  }

  /** At the parent: it is opened and gains one child, and the nodes below it are unchanged. */
  lemma GrownAtParent(x: Item, parentId: string, newItem: Item)
    requires x.id == parentId && parentId !in PreIds(Kids(x))
    ensures GrownAt([x] + Flatten(Kids(x)), [AddUnderItem(x, parentId, newItem)] + Flatten(Kids(x)), parentId)
  {
    AbsentFromFlatten(Kids(x), parentId);
    assert GrownAt([x], [AddUnderItem(x, parentId, newItem)], parentId);
    assert GrownAt(Flatten(Kids(x)), Flatten(Kids(x)), parentId);
    GrownAtAppend([x], Flatten(Kids(x)), [AddUnderItem(x, parentId, newItem)], Flatten(Kids(x)), parentId);
  }

  /** Above the parent: the node keeps its fields and arity, and its children's listing follows it. */
  lemma AddUnderItemBelowParent(x: Item, parentId: string, newItem: Item, b: seq<Item>, a: seq<Item>, b': seq<Item>, a': seq<Item>)
    requires x.id != parentId && x.children.Present?
    requires Flatten(x.children.items) == b + a
    requires Flatten(AddUnder(x.children.items, parentId, newItem)) == b' + FlattenNode(newItem) + a'
    requires GrownAt(b, b', parentId)
    ensures FlattenNode(x) == ([x] + b) + a
    ensures FlattenNode(AddUnderItem(x, parentId, newItem)) == ([AddUnderItem(x, parentId, newItem)] + b') + FlattenNode(newItem) + a'
    ensures GrownAt([x] + b, [AddUnderItem(x, parentId, newItem)] + b', parentId)
  {
    var x' := AddUnderItem(x, parentId, newItem);
    assert FlattenNode(x') == [x'] + Flatten(Kids(x'));
    assert GrownAt([x], [x'], parentId);
    GrownAtAppend([x], b, [x'], b', parentId);
    SeqRegroup([x'], b', FlattenNode(newItem), a');
    SeqRegroup([x], b, [], a);
  }
}
