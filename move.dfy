/**
 * Drag-and-drop relocation in the binder: `moveItemInTree` and the
 * drop-target resolution of `handleDragEnd` (both inline in `App.tsx`).
 *
 * A move removes the dragged node from the tree (together with its subtree)
 * and splices it back in, either into the root list or into a parent's
 * children. The source works on a JSON deep copy and rewrites `children` on
 * that copy; Dafny datatypes are values, so the copy is implicit and the
 * caller's tree is never changed.
 */
module BinderMove {
  import opened Wrappers
  import opened Types
  import opened Utils

  // ---------------------------------------------------------------------------
  // remove

  /** The closure variable `removed` after two writes: the later write wins. */
  function Later(first: Option<Item>, second: Option<Item>): (r: Option<Item>)
    ensures r.None? <==> first.None? && second.None?
    ensures second.Some? ==> r == second
  {
    if second.Some? then second else first
  }

  /**
   * `remove`: the forest without every node whose id is `itemId` (the search
   * does not enter a removed node), and the node `removed` holds at the end,
   * which is the last one taken out in pre-order.
   */
  function Remove(items: seq<Item>, itemId: string): (seq<Item>, Option<Item>)
    decreases items
  {
    if items == [] then ([], None)
    else
      var rest := Remove(items[1..], itemId);
      if items[0].id == itemId then (rest.0, Later(Some(items[0]), rest.1))
      else
        var inX := RemoveInItem(items[0], itemId);
        ([inX.0] + rest.0, Later(inX.1, rest.1))
  }

  /** A node that is kept: its children (when it has a list) are filtered in turn. */
  function RemoveInItem(x: Item, itemId: string): (Item, Option<Item>)
    decreases x
  {
    match x.children
    case Present(cs) =>
      var c := Remove(cs, itemId);
      (x.(children := Present(c.0)), c.1)
    case Absent => (x, None)
  }

  /** `removed` is set exactly when some node of the forest has the id. */
  lemma {:induction false} RemoveSetsRemovedIff(items: seq<Item>, itemId: string)
    ensures Remove(items, itemId).1.None? <==> itemId !in PreIds(items)
    decreases items
  {
    if items != [] {
      RemoveInItemSetsRemovedIff(items[0], itemId);
      RemoveSetsRemovedIff(items[1..], itemId);
    }
  }

  lemma {:induction false} RemoveInItemSetsRemovedIff(x: Item, itemId: string)
    ensures RemoveInItem(x, itemId).1.None? <==> itemId !in PreIds(Kids(x))
    decreases x
  {
    match x.children
    case Present(cs) => RemoveSetsRemovedIff(cs, itemId);
    case Absent =>
  }

  /** What `removed` holds is a node of the tree carrying the id. */
  lemma {:induction false} RemovedIsNodeOfTree(items: seq<Item>, itemId: string)
    ensures var r := Remove(items, itemId);
      r.1.Some? ==> r.1.value.id == itemId && r.1.value in Flatten(items)
    decreases items
  {
    if items != [] {
      RemovedInItemIsNodeOfTree(items[0], itemId);
      RemovedIsNodeOfTree(items[1..], itemId);
    }
  }

  lemma {:induction false} RemovedInItemIsNodeOfTree(x: Item, itemId: string)
    ensures var r := RemoveInItem(x, itemId);
      r.1.Some? ==> r.1.value.id == itemId && r.1.value in Flatten(Kids(x))
    decreases x
  {
    match x.children
    case Present(cs) => RemovedIsNodeOfTree(cs, itemId);
    case Absent =>
  }

  lemma {:induction false} RemoveAppend(a: seq<Item>, b: seq<Item>, itemId: string)
    ensures Remove(a + b, itemId) == (Remove(a, itemId).0 + Remove(b, itemId).0, Later(Remove(a, itemId).1, Remove(b, itemId).1))
  {
    if a == [] {
      assert a + b == b;
      assert [] + Remove(b, itemId).0 == Remove(b, itemId).0;
    } else {
      assert (a + b)[0] == a[0] && (a + b)[1..] == a[1..] + b;
      RemoveAppend(a[1..], b, itemId);
      var ra, rb, rt := Remove(a[1..], itemId), Remove(b, itemId), Remove(a[1..] + b, itemId);
      if a[0].id != itemId {
        var inX := RemoveInItem(a[0], itemId);
        assert Remove(a + b, itemId).0 == [inX.0] + rt.0;
        assert [inX.0] + (ra.0 + rb.0) == ([inX.0] + ra.0) + rb.0;
      }
    }
  }

  /** One step of `remove` on a non-empty forest. */
  lemma RemoveCons(h: Item, t: seq<Item>, itemId: string)
    ensures Remove([h] + t, itemId) == if h.id == itemId then (Remove(t, itemId).0, Later(Some(h), Remove(t, itemId).1))
      else ([RemoveInItem(h, itemId).0] + Remove(t, itemId).0, Later(RemoveInItem(h, itemId).1, Remove(t, itemId).1))
  {
    assert ([h] + t)[0] == h && ([h] + t)[1..] == t;
  }

  lemma RemoveSingle(x: Item, itemId: string)
    ensures Remove([x], itemId) == if x.id == itemId then ([], Some(x))
      else ([RemoveInItem(x, itemId).0], RemoveInItem(x, itemId).1)
  {
    assert [x][1..] == [];
    var inX := RemoveInItem(x, itemId);
    assert [inX.0] + [] == [inX.0];
  }

  /** One more item of the sibling list: its result is appended and its `removed` wins if set. */
  lemma RemovePrefixStep(items: seq<Item>, i: nat, itemId: string)
    requires i < |items|
    ensures Remove(items[..i + 1], itemId)
         == (Remove(items[..i], itemId).0 + Remove([items[i]], itemId).0, Later(Remove(items[..i], itemId).1, Remove([items[i]], itemId).1))
  {
    assert items[..i + 1] == items[..i] + [items[i]];
    RemoveAppend(items[..i], [items[i]], itemId);
  }

  /**
   * The `filter` of `remove` as the source runs it: a scan that keeps the
   * non-matching items, filters their children by a recursive call, and
   * overwrites `removed` at every match.
   */
  method RemoveNodes(items: seq<Item>, itemId: string) returns (kept: seq<Item>, removed: Option<Item>)
    ensures (kept, removed) == Remove(items, itemId)
    decreases Count(items)
  {
    kept, removed := [], None;
    var i := 0;
    while i < |items|
      invariant 0 <= i <= |items|
      invariant (kept, removed) == Remove(items[..i], itemId)
    {
      var item := items[i];
      var stepKept: seq<Item>, stepRemoved: Option<Item> := [], None;
      if item.id == itemId {
        stepRemoved := Some(item);
      } else {
        if item.children.Present? {
          KidsSmaller(items, i);
          var nestedKept, nestedRemoved := RemoveNodes(item.children.items, itemId);
          stepRemoved := nestedRemoved;
          item := item.(children := Present(nestedKept));
        }
        stepKept := [item];
      }
      RemoveSingle(items[i], itemId);
      RemovePrefixStep(items, i, itemId);
      kept, removed := kept + stepKept, Later(removed, stepRemoved);
      i := i + 1;
    }
    assert items[..|items|] == items;
  }

  /** Nothing is removed when no node has the id. */
  lemma {:induction false} RemoveAbsent(items: seq<Item>, itemId: string)
    requires itemId !in PreIds(items)
    ensures Remove(items, itemId) == (items, None)
    decreases items
  {
    if items != [] {
      assert PreIds(items) == NodeIds(items[0]) + PreIds(items[1..]);
      assert NodeIds(items[0])[0] == items[0].id;
      RemoveInItemAbsent(items[0], itemId);
      RemoveAbsent(items[1..], itemId);
      assert items == [items[0]] + items[1..];
    }
  }

  lemma {:induction false} RemoveInItemAbsent(x: Item, itemId: string)
    requires itemId !in NodeIds(x)
    ensures RemoveInItem(x, itemId) == (x, None)
    decreases x
  {
    match x.children
    case Present(cs) => RemoveAbsent(cs, itemId);
    case Absent =>
  }

  /** With unique ids, the node `remove` takes out is the one the lookup finds. */
  lemma {:induction false} RemoveTakesLookup(items: seq<Item>, itemId: string)
    requires UniqueIds(items)
    ensures Remove(items, itemId).1 == FindItemByIdRecursive(items, itemId)
    decreases items
  {
    if items != [] {
      var h, t := items[0], items[1..];
      assert items == [h] + t;
      PreIdsCons(h, t);
      DistinctParts(NodeIds(h), PreIds(t));
      if itemId in NodeIds(h) {
        RemoveAbsent(t, itemId);
        if h.id != itemId {
          RemoveInItemTakesLookup(h, itemId);
        }
      } else {
        RemoveInItemAbsent(h, itemId);
        RemoveTakesLookup(t, itemId);
      }
    }
  }

  lemma {:induction false} RemoveInItemTakesLookup(x: Item, itemId: string)
    requires Distinct(NodeIds(x)) && x.id != itemId
    ensures RemoveInItem(x, itemId).1 == FindInItem(x, itemId)
    decreases x
  {
    assert NodeIds(x) == [x.id] + PreIds(Kids(x));
    DistinctParts([x.id], PreIds(Kids(x)));
    match x.children
    case Present(cs) => RemoveTakesLookup(cs, itemId);
    case Absent =>
  }

  /**
   * With unique ids and the id present, `remove` takes out the removed node
   * with its whole subtree, as one block of the pre-order, and keeps every
   * other node in its relative order.
   */
  lemma {:induction false} RemoveSplits(items: seq<Item>, itemId: string) returns (before: seq<string>, after: seq<string>)
    requires UniqueIds(items) && itemId in PreIds(items)
    ensures Remove(items, itemId).1.Some?
    ensures PreIds(items) == before + NodeIds(Remove(items, itemId).1.value) + after
    ensures PreIds(Remove(items, itemId).0) == before + after
    decreases items, 1
  {
    assert PreIds(items) == NodeIds(items[0]) + PreIds(items[1..]);
    if itemId in NodeIds(items[0]) {
      before, after := RemoveSplitsAtHead(items, itemId);
    } else {
      before, after := RemoveSplitsInTail(items, itemId);
    }
  }

  /** The case of `RemoveSplits` where the id lies after the first root's subtree. */
  lemma {:induction false} RemoveSplitsInTail(items: seq<Item>, itemId: string) returns (before: seq<string>, after: seq<string>)
    requires UniqueIds(items) && items != [] && itemId !in NodeIds(items[0]) && itemId in PreIds(items)
    ensures Remove(items, itemId).1.Some?
    ensures PreIds(items) == before + NodeIds(Remove(items, itemId).1.value) + after
    ensures PreIds(Remove(items, itemId).0) == before + after
    decreases items, 0
  {
    var h, t := items[0], items[1..];
    assert items == [h] + t;
    PreIdsCons(h, t);
    assert UniqueIds(t) by {
      DistinctParts(NodeIds(h), PreIds(t));
    }
    assert h.id != itemId by {
      assert NodeIds(h)[0] == h.id;
    }
    RemoveInItemAbsent(h, itemId);
    RemoveCons(h, t, itemId);
    var rt := Remove(t, itemId);
    var b, a := RemoveSplits(t, itemId);
    PreIdsCons(h, rt.0);
    SeqRegroup(NodeIds(h), b, NodeIds(rt.1.value), a);
    before, after := NodeIds(h) + b, a;
  }

  /** The case of `RemoveSplits` where the id lies in the first root's subtree. */
  lemma {:induction false} RemoveSplitsAtHead(items: seq<Item>, itemId: string) returns (before: seq<string>, after: seq<string>)
    requires UniqueIds(items) && items != [] && itemId in NodeIds(items[0])
    ensures Remove(items, itemId).1.Some?
    ensures PreIds(items) == before + NodeIds(Remove(items, itemId).1.value) + after
    ensures PreIds(Remove(items, itemId).0) == before + after
    decreases items, 0
  {
    var h, t := items[0], items[1..];
    assert items == [h] + t;
    PreIdsCons(h, t);
    assert Distinct(NodeIds(h)) && itemId !in PreIds(t) by {
      DistinctParts(NodeIds(h), PreIds(t));
    }
    RemoveAbsent(t, itemId);
    var r := Remove(items, itemId);
    if h.id == itemId {
      assert r == (t, Some(h));
      before, after := [], PreIds(t);
    } else {
      var inX := RemoveInItem(h, itemId);
      var b, a := RemoveInItemSplits(h, itemId);
      assert r == ([inX.0] + t, inX.1);
      PreIdsCons(inX.0, t);
      SeqRegroupTail(b, NodeIds(inX.1.value), a, PreIds(t));
      before, after := b, a + PreIds(t);
    }
  }

  lemma {:induction false} RemoveInItemSplits(x: Item, itemId: string) returns (before: seq<string>, after: seq<string>)
    requires Distinct(NodeIds(x)) && itemId in NodeIds(x) && x.id != itemId
    ensures RemoveInItem(x, itemId).1.Some?
    ensures NodeIds(x) == before + NodeIds(RemoveInItem(x, itemId).1.value) + after
    ensures NodeIds(RemoveInItem(x, itemId).0) == before + after
    decreases x
  {
    assert NodeIds(x) == [x.id] + PreIds(Kids(x));
    assert UniqueIds(Kids(x)) && itemId in PreIds(Kids(x)) by {
      DistinctParts([x.id], PreIds(Kids(x)));
    }
    match x.children
    case Present(cs) =>
      var c := Remove(cs, itemId);
      var b, a := RemoveSplits(cs, itemId);
      var y := x.(children := Present(c.0));
      assert RemoveInItem(x, itemId) == (y, c.1);
      assert NodeIds(y) == [x.id] + PreIds(c.0);
      SeqRegroup([x.id], b, NodeIds(c.1.value), a);
      before, after := [x.id] + b, a;
    case Absent =>
      assert false;
  }

  // ---------------------------------------------------------------------------
  // insert

  /** Where `splice(start, 0, x)` inserts: a negative start counts from the end; both ends clamp. */
  function SpliceIndex(len: nat, start: int): (k: nat)
    ensures k <= len
  {
    if start < 0 then (if len + start < 0 then 0 else len + start)
    else if start > len then len
    else start
  }

  /** `arr.splice(start, 0, x)` on a copy: `x` sits at the splice index and deleting it gives back `s`. */
  function Splice(s: seq<Item>, start: int, x: Item): (r: seq<Item>)
    ensures |r| == |s| + 1
  {
    var k := SpliceIndex(|s|, start);
    assert (s[..k] + [x] + s[k..])[k + 1..] == s[k..];
    s[..k] + [x] + s[k..]
  }

  /** The `items.map` branch of `insert`: only the nodes reached through kept ancestors are visited. */
  function InsertUnder(items: seq<Item>, parentId: string, newIndex: int, moved: Item): (r: seq<Item>)
    ensures |r| == |items|
    decreases items
  {
    if items == [] then [] else [InsertUnderItem(items[0], parentId, newIndex, moved)] + InsertUnder(items[1..], parentId, newIndex, moved)
  }

  /** The parent gets `moved` spliced into its children (created if absent) and is opened; others recurse. */
  function InsertUnderItem(x: Item, parentId: string, newIndex: int, moved: Item): Item
    decreases x
  {
    if x.id == parentId then x.(children := Present(Splice(Kids(x), newIndex, moved)), isOpen := true)
    else match x.children
      case Present(cs) => x.(children := Present(InsertUnder(cs, parentId, newIndex, moved)))
      case Absent => x
  }

  /** `insert`: into the root list when `newParentId` is null, else under that parent. */
  function Insert(items: seq<Item>, newParentId: Option<string>, newIndex: int, moved: Item): seq<Item>
  {
    if newParentId.None? then Splice(items, newIndex, moved) else InsertUnder(items, newParentId.value, newIndex, moved)
  }

  lemma {:induction false} InsertUnderAbsent(items: seq<Item>, parentId: string, newIndex: int, moved: Item)
    requires parentId !in PreIds(items)
    ensures InsertUnder(items, parentId, newIndex, moved) == items
    decreases items
  {
    if items != [] {
      InsertUnderItemAbsent(items[0], parentId, newIndex, moved);
      InsertUnderAbsent(items[1..], parentId, newIndex, moved);
    }
  }

  lemma {:induction false} InsertUnderItemAbsent(x: Item, parentId: string, newIndex: int, moved: Item)
    requires parentId !in NodeIds(x)
    ensures InsertUnderItem(x, parentId, newIndex, moved) == x
    decreases x
  {
    match x.children
    case Present(cs) => InsertUnderAbsent(cs, parentId, newIndex, moved);
    case Absent =>
  }

  /** The parent found by its id has `moved` spliced into its children and is open. */
  lemma {:induction false} FindParentAfterInsert(items: seq<Item>, parentId: string, newIndex: int, moved: Item)
    requires parentId in PreIds(items)
    ensures var p := FindItemByIdRecursive(items, parentId).value;
      FindItemByIdRecursive(InsertUnder(items, parentId, newIndex, moved), parentId)
        == Some(p.(children := Present(Splice(Kids(p), newIndex, moved)), isOpen := true))
    decreases items
  {
    if parentId in NodeIds(items[0]) {
      FindParentInItemAfterInsert(items[0], parentId, newIndex, moved);
    } else {
      InsertUnderItemAbsent(items[0], parentId, newIndex, moved);
      FindParentAfterInsert(items[1..], parentId, newIndex, moved);
    }
  }

  lemma {:induction false} FindParentInItemAfterInsert(x: Item, parentId: string, newIndex: int, moved: Item)
    requires parentId in NodeIds(x)
    ensures var p := FindInItem(x, parentId).value;
      FindInItem(InsertUnderItem(x, parentId, newIndex, moved), parentId)
        == Some(p.(children := Present(Splice(Kids(p), newIndex, moved)), isOpen := true))
    decreases x
  {
    if x.id != parentId {
      match x.children
      case Present(cs) => FindParentAfterInsert(cs, parentId, newIndex, moved);
      case Absent =>
    }
  }

  /** Splicing one node into a list adds its subtree's ids as one block of the pre-order. */
  lemma SpliceSplits(s: seq<Item>, start: int, moved: Item) returns (before: seq<string>, after: seq<string>)
    ensures PreIds(s) == before + after
    ensures PreIds(Splice(s, start, moved)) == before + NodeIds(moved) + after
  {
    var k := SpliceIndex(|s|, start);
    assert s == s[..k] + s[k..];
    PreIdsAppend(s[..k], s[k..]);
    PreIdsAppend(s[..k] + [moved], s[k..]);
    PreIdsAppend(s[..k], [moved]);
    PreIdsSingle(moved);
    before, after := PreIds(s[..k]), PreIds(s[k..]);
  }

  /** With unique ids and the parent present, `insert` adds the moved subtree as one block and keeps every other node's order. */
  lemma {:induction false} InsertUnderSplits(items: seq<Item>, parentId: string, newIndex: int, moved: Item)
      returns (before: seq<string>, after: seq<string>)
    requires UniqueIds(items) && parentId in PreIds(items)
    ensures PreIds(items) == before + after
    ensures PreIds(InsertUnder(items, parentId, newIndex, moved)) == before + NodeIds(moved) + after
    decreases items, 1
  {
    assert PreIds(items) == NodeIds(items[0]) + PreIds(items[1..]);
    if parentId in NodeIds(items[0]) {
      before, after := InsertUnderSplitsAtHead(items, parentId, newIndex, moved);
    } else {
      before, after := InsertUnderSplitsInTail(items, parentId, newIndex, moved);
    }
  }

  lemma {:induction false} InsertUnderSplitsAtHead(items: seq<Item>, parentId: string, newIndex: int, moved: Item)
      returns (before: seq<string>, after: seq<string>)
    requires UniqueIds(items) && items != [] && parentId in NodeIds(items[0])
    ensures PreIds(items) == before + after
    ensures PreIds(InsertUnder(items, parentId, newIndex, moved)) == before + NodeIds(moved) + after
    decreases items, 0
  {
    var h, t := items[0], items[1..];
    assert PreIds(items) == NodeIds(h) + PreIds(t);
    var h' := InsertUnderItem(h, parentId, newIndex, moved);
    assert Distinct(NodeIds(h)) && parentId !in PreIds(t) by {
      DistinctParts(NodeIds(h), PreIds(t));
    }
    InsertUnderAbsent(t, parentId, newIndex, moved);
    PreIdsCons(h', t);
    var b, a := InsertUnderItemSplits(h, parentId, newIndex, moved);
    SeqRegroupTail(b, NodeIds(moved), a, PreIds(t));
    before, after := b, a + PreIds(t);
  }

  lemma {:induction false} InsertUnderSplitsInTail(items: seq<Item>, parentId: string, newIndex: int, moved: Item)
      returns (before: seq<string>, after: seq<string>)
    requires UniqueIds(items) && items != [] && parentId !in NodeIds(items[0]) && parentId in PreIds(items)
    ensures PreIds(items) == before + after
    ensures PreIds(InsertUnder(items, parentId, newIndex, moved)) == before + NodeIds(moved) + after
    decreases items, 0
  {
    var h, t := items[0], items[1..];
    assert PreIds(items) == NodeIds(h) + PreIds(t);
    var t' := InsertUnder(t, parentId, newIndex, moved);
    assert UniqueIds(t) by {
      DistinctParts(NodeIds(h), PreIds(t));
    }
    InsertUnderItemAbsent(h, parentId, newIndex, moved);
    PreIdsCons(h, t');
    var b, a := InsertUnderSplits(t, parentId, newIndex, moved);
    SeqRegroup(NodeIds(h), b, NodeIds(moved), a);
    before, after := NodeIds(h) + b, a;
  }

  lemma {:induction false} InsertUnderItemSplits(x: Item, parentId: string, newIndex: int, moved: Item)
      returns (before: seq<string>, after: seq<string>)
    requires Distinct(NodeIds(x)) && parentId in NodeIds(x)
    ensures NodeIds(x) == before + after
    ensures NodeIds(InsertUnderItem(x, parentId, newIndex, moved)) == before + NodeIds(moved) + after
    decreases x
  {
    var x' := InsertUnderItem(x, parentId, newIndex, moved);
    assert NodeIds(x) == [x.id] + PreIds(Kids(x));
    assert NodeIds(x') == [x.id] + PreIds(Kids(x'));
    var b, a;
    if x.id == parentId {
      assert Kids(x') == Splice(Kids(x), newIndex, moved);
      b, a := SpliceSplits(Kids(x), newIndex, moved);
    } else {
      assert Distinct(PreIds(Kids(x))) && parentId in PreIds(Kids(x)) by {
        DistinctParts([x.id], PreIds(Kids(x)));
      }
      var cs := x.children.items;
      assert Kids(x') == InsertUnder(cs, parentId, newIndex, moved);
      b, a := InsertUnderSplits(cs, parentId, newIndex, moved);
    }
    SeqRegroup([x.id], b, NodeIds(moved), a);
    before, after := [x.id] + b, a;
  }

  /** After the splice, `x` sits at the splice index, the items before it are unchanged and the rest follow in order. */
  lemma SplicePlaces(s: seq<Item>, start: int, x: Item)
    ensures var k := SpliceIndex(|s|, start); var r := Splice(s, start, x);
      && r[k] == x && r[..k] == s[..k] && r[k + 1..] == s[k..]
      && r[..k] + r[k + 1..] == s
  {
    var k := SpliceIndex(|s|, start);
    var r := Splice(s, start, x);
    assert r[..k] == s[..k];
    assert r[k + 1..] == s[k..];
    assert s == s[..k] + s[k..];
  }

  /** A node whose id is fresh in `s` is found by that id once spliced in. */
  lemma FindAfterSplice(s: seq<Item>, start: int, x: Item)
    requires x.id !in PreIds(s)
    ensures FindItemByIdRecursive(Splice(s, start, x), x.id) == Some(x)
  {
    var k := SpliceIndex(|s|, start);
    assert s == s[..k] + s[k..];
    PreIdsAppend(s[..k], s[k..]);
    FindAppend(s[..k] + [x], s[k..], x.id);
    FindAppend(s[..k], [x], x.id);
    PreIdsSingle(x);
  }

  /** The moved node, when its id is fresh in the tree, is found by its id once inserted under a present parent. */
  lemma {:induction false} FindMovedAfterInsert(items: seq<Item>, parentId: string, newIndex: int, moved: Item)
    requires parentId in PreIds(items) && moved.id !in PreIds(items)
    ensures FindItemByIdRecursive(InsertUnder(items, parentId, newIndex, moved), moved.id) == Some(moved)
    decreases items
  {
    var h, t := items[0], items[1..];
    assert PreIds(items) == NodeIds(h) + PreIds(t);
    var h' := InsertUnderItem(h, parentId, newIndex, moved);
    if parentId in NodeIds(h) {
      FindMovedInItemAfterInsert(h, parentId, newIndex, moved);
    } else {
      InsertUnderItemAbsent(h, parentId, newIndex, moved);
      FindMovedAfterInsert(t, parentId, newIndex, moved);
    }
  }

  lemma {:induction false} FindMovedInItemAfterInsert(x: Item, parentId: string, newIndex: int, moved: Item)
    requires parentId in NodeIds(x) && moved.id !in NodeIds(x)
    ensures FindInItem(InsertUnderItem(x, parentId, newIndex, moved), moved.id) == Some(moved)
    decreases x
  {
    if x.id == parentId {
      FindAfterSplice(Kids(x), newIndex, moved);
    } else {
      match x.children
      case Present(cs) => FindMovedAfterInsert(cs, parentId, newIndex, moved);
      case Absent =>
    }
  }

  // ---------------------------------------------------------------------------
  // moveItemInTree

  /** `moveItemInTree`: the tree itself when no node has the id, else the removed node inserted into what remains. */
  function Moved(items: seq<Item>, itemId: string, newParentId: Option<string>, newIndex: int): seq<Item>
  {
    var (treeWithout, removed) := Remove(items, itemId);
    if removed.None? then items else Insert(treeWithout, newParentId, newIndex, removed.value)
  }

  /** `moveItemInTree` as the source runs it: the in-place `remove` pass, then `insert`. */
  method MoveItemInTree(items: seq<Item>, itemId: string, newParentId: Option<string>, newIndex: int) returns (r: seq<Item>)
    ensures r == Moved(items, itemId, newParentId, newIndex)
  {
    var treeWithout, removed := RemoveNodes(items, itemId);
    if removed.None? {
      return items;
    }
    r := Insert(treeWithout, newParentId, newIndex, removed.value);
  }

  /** The destination can take the node: the root list, or a parent that survives the removal. */
  ghost predicate DestinationSurvives(items: seq<Item>, itemId: string, newParentId: Option<string>)
  {
    newParentId.None? || newParentId.value in PreIds(Remove(items, itemId).0)
  }

  /** A move of an id no node has returns the tree unchanged. */
  lemma MoveAbsentIsIdentity(items: seq<Item>, itemId: string, newParentId: Option<string>, newIndex: int)
    requires itemId !in PreIds(items)
    ensures Moved(items, itemId, newParentId, newIndex) == items
  {
    RemoveSetsRemovedIff(items, itemId);
  }

  /** Two duplicate-free id lists with nothing in common join into a duplicate-free list. */
  lemma DistinctJoin(a: seq<string>, b: seq<string>)
    requires Distinct(a) && Distinct(b) && forall s | s in a :: s !in b
    ensures Distinct(a + b)
  {
    forall i, j | 0 <= i < j < |a + b| ensures (a + b)[i] != (a + b)[j] {
      if j < |a| {
        assert (a + b)[i] == a[i] && (a + b)[j] == a[j];
      } else if i < |a| {
        assert (a + b)[i] == a[i] && (a + b)[j] == b[j - |a|];
        assert a[i] in a;
      } else {
        assert (a + b)[i] == b[i - |a|] && (a + b)[j] == b[j - |a|];
      }
    }
  }

  /** Dropping a block from a duplicate-free list leaves it duplicate-free and without that block's ids. */
  lemma DistinctWithout(a: seq<string>, m: seq<string>, b: seq<string>)
    requires Distinct(a + m + b)
    ensures Distinct(a + b)
    ensures forall s | s in m :: s !in a + b
  {
    assert a + m + b == a + (m + b);
    DistinctParts(a, m + b);
    DistinctParts(m, b);
    DistinctJoin(a, b);
  }

  /**
   * With unique ids, the id present and a destination that survives the
   * removal, a move keeps every node: the moved subtree leaves the
   * pre-order as one block and comes back as one block, and the other
   * nodes keep their relative order.
   */
  lemma MoveKeepsEveryNode(items: seq<Item>, itemId: string, newParentId: Option<string>, newIndex: int)
      returns (before: seq<string>, after: seq<string>, before': seq<string>, after': seq<string>)
    requires UniqueIds(items) && itemId in PreIds(items) && DestinationSurvives(items, itemId, newParentId)
    ensures var m := NodeIds(FindItemByIdRecursive(items, itemId).value);
      && PreIds(items) == before + m + after
      && PreIds(Moved(items, itemId, newParentId, newIndex)) == before' + m + after'
      && before + after == before' + after'
  {
    RemoveTakesLookup(items, itemId);
    var (w, removed) := Remove(items, itemId);
    var m := removed.value;
    before, after := RemoveSplits(items, itemId);
    DistinctWithout(before, NodeIds(m), after);
    if newParentId.None? {
      before', after' := SpliceSplits(w, newIndex, m);
    } else {
      before', after' := InsertUnderSplits(w, newParentId.value, newIndex, m);
    }
  }

  /** Moving a block elsewhere in a list keeps the list's multiset. */
  lemma MultisetRegroup(a: seq<string>, b: seq<string>, c: seq<string>, d: seq<string>, m: seq<string>)
    requires a + b == c + d
    ensures multiset(a + m + b) == multiset(c + m + d)
  {
    calc {
      multiset(a + m + b);
      multiset(a) + multiset(m) + multiset(b);
      multiset(a + b) + multiset(m);
      multiset(c + d) + multiset(m);
      multiset(c) + multiset(m) + multiset(d);
      multiset(c + m + d);
    }
  }

  /** Hence a move neither loses nor duplicates an id. */
  lemma MoveKeepsIdMultiset(items: seq<Item>, itemId: string, newParentId: Option<string>, newIndex: int)
    requires UniqueIds(items) && DestinationSurvives(items, itemId, newParentId)
    ensures multiset(PreIds(Moved(items, itemId, newParentId, newIndex))) == multiset(PreIds(items))
  {
    if itemId !in PreIds(items) {
      MoveAbsentIsIdentity(items, itemId, newParentId, newIndex);
    } else {
      var a, b, c, d := MoveKeepsEveryNode(items, itemId, newParentId, newIndex);
      MultisetRegroup(a, b, c, d, NodeIds(FindItemByIdRecursive(items, itemId).value));
    }
  }

  /**
   * The moved node keeps everything, its `level` included (the move never
   * recomputes levels): looking it up after the move finds the node that
   * was found before.
   */
  lemma MoveKeepsMovedNode(items: seq<Item>, itemId: string, newParentId: Option<string>, newIndex: int)
    requires UniqueIds(items) && itemId in PreIds(items) && DestinationSurvives(items, itemId, newParentId)
    ensures FindItemByIdRecursive(Moved(items, itemId, newParentId, newIndex), itemId) == FindItemByIdRecursive(items, itemId)
  {
    RemoveTakesLookup(items, itemId);
    var (w, removed) := Remove(items, itemId);
    var m := removed.value;
    var before, after := RemoveSplits(items, itemId);
    DistinctWithout(before, NodeIds(m), after);
    assert m.id in NodeIds(m);
    if newParentId.None? {
      FindAfterSplice(w, newIndex, m);
    } else {
      FindMovedAfterInsert(w, newParentId.value, newIndex, m);
    }
  }

  /** Moving to the root splices the node into the remaining root list at the splice index, other roots in order. */
  lemma MoveToRootSplices(items: seq<Item>, itemId: string, newIndex: int)
    requires itemId in PreIds(items)
    ensures var w := Remove(items, itemId).0;
      var k := SpliceIndex(|w|, newIndex);
      var r := Moved(items, itemId, None, newIndex);
      && |r| == |w| + 1
      && Some(r[k]) == Remove(items, itemId).1
      && r[..k] + r[k + 1..] == w
  {
    RemoveSetsRemovedIff(items, itemId);
    var (w, removed) := Remove(items, itemId);
    SplicePlaces(w, newIndex, removed.value);
  }

  /** Moving under a surviving parent splices the node into its children and opens it. */
  lemma MoveIntoParentSplices(items: seq<Item>, itemId: string, parentId: string, newIndex: int)
    requires itemId in PreIds(items) && parentId in PreIds(Remove(items, itemId).0)
    ensures Remove(items, itemId).1.Some?
    ensures var w := Remove(items, itemId).0;
      var p := FindItemByIdRecursive(w, parentId).value;
      FindItemByIdRecursive(Moved(items, itemId, Some(parentId), newIndex), parentId)
        == Some(p.(children := Present(Splice(Kids(p), newIndex, Remove(items, itemId).1.value)), isOpen := true))
  {
    RemoveSetsRemovedIff(items, itemId);
    var (w, removed) := Remove(items, itemId);
    FindParentAfterInsert(w, parentId, newIndex, removed.value);
  }

  /** Dropping on a folder (index 0) puts the node first among that folder's children. */
  lemma MoveIntoFolderPutsFirst(items: seq<Item>, itemId: string, parentId: string)
    requires itemId in PreIds(items) && parentId in PreIds(Remove(items, itemId).0)
    ensures Remove(items, itemId).1.Some?
    ensures FindItemByIdRecursive(Moved(items, itemId, Some(parentId), 0), parentId).Some?
    ensures var w := Remove(items, itemId).0;
      var p := FindItemByIdRecursive(w, parentId).value;
      var p' := FindItemByIdRecursive(Moved(items, itemId, Some(parentId), 0), parentId).value;
      && p'.isOpen
      && Kids(p') == [Remove(items, itemId).1.value] + Kids(p)
  {
    MoveIntoParentSplices(items, itemId, parentId, 0);
  }

  /**
   * Moving a node under itself or under one of its descendants: the
   * destination parent leaves the tree together with the removed subtree,
   * `insert` finds no parent, and the whole subtree is gone from the result.
   */
  lemma MoveIntoOwnSubtreeLosesIt(items: seq<Item>, itemId: string, parentId: string, newIndex: int)
    requires UniqueIds(items) && itemId in PreIds(items)
    requires parentId in NodeIds(FindItemByIdRecursive(items, itemId).value)
    ensures var r := Moved(items, itemId, Some(parentId), newIndex);
      && r == Remove(items, itemId).0
      && itemId !in PreIds(r) && parentId !in PreIds(r)
      && Count(r) == Count(items) - |NodeIds(FindItemByIdRecursive(items, itemId).value)|
  {
    RemoveTakesLookup(items, itemId);
    var (w, removed) := Remove(items, itemId);
    var m := removed.value;
    var before, after := RemoveSplits(items, itemId);
    DistinctWithout(before, NodeIds(m), after);
    assert itemId in NodeIds(m);
    InsertUnderAbsent(w, parentId, newIndex, m);
  }

  /** A draft folder holding one empty folder: dropping the draft onto its child leaves an empty binder. */
  lemma DropFolderOntoItsChildEmptiesBinder()
    ensures var child := Item("act-1", "Act I", Folder, Text(""), 1, Present([]), true);
      var draft := Item("draft", "Draft", Folder, Text(""), 0, Present([child]), true);
      Moved([draft], "draft", Some("act-1"), 0) == []
  {
    var child := Item("act-1", "Act I", Folder, Text(""), 1, Present([]), true);
    var draft := Item("draft", "Draft", Folder, Text(""), 0, Present([child]), true);
    assert PreIds([child]) == ["act-1"] by { PreIdsSingle(child); }
    assert NodeIds(draft) == ["draft", "act-1"];
    assert PreIds([draft]) == ["draft", "act-1"] by { PreIdsSingle(draft); }
    MoveIntoOwnSubtreeLosesIt([draft], "draft", "act-1", 0);
  }

  /**
   * The move with the guard the source lacks: when the destination parent
   * does not survive the removal, the tree is left as it was.
   */
  function MoveItemGuarded(items: seq<Item>, itemId: string, newParentId: Option<string>, newIndex: int): (r: seq<Item>)
    ensures DestinationSurvives(items, itemId, newParentId) ==> r == Moved(items, itemId, newParentId, newIndex)
    ensures !DestinationSurvives(items, itemId, newParentId) ==> r == items
  {
    var (treeWithout, removed) := Remove(items, itemId);
    if removed.None? || (newParentId.Some? && newParentId.value !in PreIds(treeWithout)) then items
    else Insert(treeWithout, newParentId, newIndex, removed.value)
  }

  /** With unique ids the guarded move never loses or duplicates an id, whatever the destination. */
  lemma GuardedMoveKeepsEveryId(items: seq<Item>, itemId: string, newParentId: Option<string>, newIndex: int)
    requires UniqueIds(items)
    ensures multiset(PreIds(MoveItemGuarded(items, itemId, newParentId, newIndex))) == multiset(PreIds(items))
  {
    if DestinationSurvives(items, itemId, newParentId) {
      MoveKeepsIdMultiset(items, itemId, newParentId, newIndex);
    }
  }

  // ---------------------------------------------------------------------------
  // handleDragEnd: drop-target resolution

  /** `findItemAndParent`: the first node in pre-order with the id, and the id of its parent (null for a root). */
  function FindItemAndParent(items: seq<Item>, id: string, parentId: Option<string>): (Option<Item>, Option<string>)
    decreases items
  {
    if items == [] then (None, None)
    else if items[0].id == id then (Some(items[0]), parentId)
    else
      var found := FindItemAndParentBelow(items[0], id);
      if found.0.Some? then found else FindItemAndParent(items[1..], id, parentId)
  }

  /** The recursive call on a node's children, which become the parent of what is found there. */
  function FindItemAndParentBelow(x: Item, id: string): (Option<Item>, Option<string>)
    decreases x
  {
    match x.children
    case Present(cs) => FindItemAndParent(cs, id, Some(x.id))
    case Absent => (None, None)
  }

  /** `findParentAndIndex` from position `i` of `items` on: the parent's id and the index in its list of the first node with the id. */
  function ParentAndIndexFrom(items: seq<Item>, i: nat, id: string, parentId: Option<string>): Option<(Option<string>, nat)>
    requires i <= |items|
    decreases items, |items| - i
  {
    if i == |items| then None
    else if items[i].id == id then Some((parentId, i))
    else
      var found := ParentAndIndexBelow(items[i], id);
      if found.Some? then found else ParentAndIndexFrom(items, i + 1, id, parentId)
  }

  function ParentAndIndexBelow(x: Item, id: string): Option<(Option<string>, nat)>
    decreases x
  {
    match x.children
    case Present(cs) => ParentAndIndexFrom(cs, 0, id, Some(x.id))
    case Absent => None
  }

  /** The call `findParentAndIndex(binderItems, overId)`: a search from the roots, whose parent is null. */
  function ParentAndIndex(items: seq<Item>, id: string): Option<(Option<string>, nat)>
  {
    ParentAndIndexFrom(items, 0, id, None)
  }

  /** `findParentAndIndex` as the source runs it: an index loop that recurses into every child list. */
  method FindParentAndIndex(items: seq<Item>, id: string, parentId: Option<string>) returns (r: Option<(Option<string>, nat)>)
    ensures r == ParentAndIndexFrom(items, 0, id, parentId)
    decreases Count(items)
  {
    var i := 0;
    while i < |items|
      invariant 0 <= i <= |items|
      invariant ParentAndIndexFrom(items, 0, id, parentId) == ParentAndIndexFrom(items, i, id, parentId)
    {
      if items[i].id == id {
        return Some((parentId, i));
      }
      if items[i].children.Present? {
        KidsSmaller(items, i);
        var found := FindParentAndIndex(items[i].children.items, id, Some(items[i].id));
        if found.Some? {
          return found;
        }
      }
      i := i + 1;
    }
    return None;
  }

  /** The search from position `i` fails exactly when no node of `items[i..]` has the id. */
  lemma {:induction false} ParentAndIndexFromNoneIff(items: seq<Item>, i: nat, id: string, parentId: Option<string>)
    requires i <= |items|
    ensures ParentAndIndexFrom(items, i, id, parentId).None? <==> id !in PreIds(items[i..])
    decreases items, |items| - i
  {
    if i < |items| {
      assert items[i..][0] == items[i] && items[i..][1..] == items[i + 1..];
      assert PreIds(items[i..]) == NodeIds(items[i]) + PreIds(items[i + 1..]);
      ParentAndIndexBelowNoneIff(items[i], id);
      ParentAndIndexFromNoneIff(items, i + 1, id, parentId);
    }
  }

  lemma {:induction false} ParentAndIndexBelowNoneIff(x: Item, id: string)
    ensures ParentAndIndexBelow(x, id).None? <==> id !in PreIds(Kids(x))
    decreases x
  {
    match x.children
    case Present(cs) =>
      ParentAndIndexFromNoneIff(cs, 0, id, Some(x.id));
      assert cs[0..] == cs;
    case Absent =>
  }

  /** Every node of a list is in the list's pre-order. */
  lemma {:induction false} ElemInFlatten(s: seq<Item>, k: nat)
    requires k < |s|
    ensures s[k] in Flatten(s)
    decreases k
  {
    if k > 0 {
      ElemInFlatten(s[1..], k - 1);
    }
  }

  /** A child of a node of the pre-order is in the pre-order too. */
  lemma {:induction false} ChildInFlatten(items: seq<Item>, y: Item, k: nat)
    requires y in Flatten(items) && k < |Kids(y)|
    ensures Kids(y)[k] in Flatten(items)
    decreases items
  {
    assert Flatten(items) == FlattenNode(items[0]) + Flatten(items[1..]);
    if y in FlattenNode(items[0]) {
      ChildInFlattenNode(items[0], y, k);
    } else {
      ChildInFlatten(items[1..], y, k);
    }
  }

  lemma {:induction false} ChildInFlattenNode(x: Item, y: Item, k: nat)
    requires y in FlattenNode(x) && k < |Kids(y)|
    ensures Kids(y)[k] in FlattenNode(x)
    decreases x
  {
    assert FlattenNode(x) == [x] + Flatten(Kids(x));
    if y == x {
      ElemInFlatten(Kids(x), k);
    } else {
      match x.children
      case Present(cs) => ChildInFlatten(cs, y, k);
      case Absent =>
    }
  }

  /** In a list whose ids are pairwise different, the scan for an element's id returns that element. */
  lemma {:induction false} FirstWithIdOfMember(s: seq<Item>, y: Item)
    requires forall i, j | 0 <= i < j < |s| :: s[i].id != s[j].id
    requires y in s
    ensures FirstWithId(s, y.id) == Some(y)
  {
    if s[0] != y {
      var j :| 0 <= j < |s| && s[j] == y;
      assert s[0].id != s[j].id;
      assert s[1..][j - 1] == y;
      FirstWithIdOfMember(s[1..], y);
    }
  }

  /** With unique ids, looking up the id of any node of the tree returns that node. */
  lemma FindNodeOfTree(items: seq<Item>, y: Item)
    requires UniqueIds(items) && y in Flatten(items)
    ensures FindItemByIdRecursive(items, y.id) == Some(y)
  {
    PreIdsAreFlattenIds(items);
    var f := Flatten(items);
    forall i, j | 0 <= i < j < |f| ensures f[i].id != f[j].id {
      assert PreIds(items)[i] != PreIds(items)[j];
    }
    FindIsFirstInPreorder(items, y.id);
    FirstWithIdOfMember(f, y);
  }

  /**
   * What the search from position `i` reports: either the node at index `k`
   * of `items` itself, with the given parent, or a node `y` of the subtrees
   * whose `k`-th child has the id, with `y`'s id as the parent.
   */
  lemma {:induction false} ParentAndIndexFromReports(items: seq<Item>, i: nat, id: string, parentId: Option<string>)
      returns (nested: bool, y: Item)
    requires i <= |items| && ParentAndIndexFrom(items, i, id, parentId).Some?
    ensures var (q, k) := ParentAndIndexFrom(items, i, id, parentId).value;
      && (!nested ==> q == parentId && i <= k < |items| && items[k].id == id)
      && (nested ==> q == Some(y.id) && y in Flatten(items[i..]) && k < |Kids(y)| && Kids(y)[k].id == id)
    decreases items, |items| - i
  {
    assert items[i..][0] == items[i] && items[i..][1..] == items[i + 1..];
    assert Flatten(items[i..]) == FlattenNode(items[i]) + Flatten(items[i + 1..]);
    if items[i].id == id {
      nested, y := false, items[i];
    } else if ParentAndIndexBelow(items[i], id).Some? {
      y := ParentAndIndexBelowReports(items[i], id);
      nested := true;
    } else {
      nested, y := ParentAndIndexFromReports(items, i + 1, id, parentId);
    }
  }

  lemma {:induction false} ParentAndIndexBelowReports(x: Item, id: string) returns (y: Item)
    requires ParentAndIndexBelow(x, id).Some?
    ensures var (q, k) := ParentAndIndexBelow(x, id).value;
      q == Some(y.id) && y in FlattenNode(x) && k < |Kids(y)| && Kids(y)[k].id == id
    decreases x
  {
    assert FlattenNode(x) == [x] + Flatten(Kids(x));
    var cs := x.children.items;
    assert cs[0..] == cs;
    var nested, y' := ParentAndIndexFromReports(cs, 0, id, Some(x.id));
    y := if nested then y' else x;
  }

  /**
   * With unique ids, `findParentAndIndex` from the roots finds the node with
   * the id exactly when there is one, and reports where it sits: index `k`
   * of the root list when the parent is null, else index `k` of the
   * children of the parent it names.
   */
  lemma ParentAndIndexLocates(items: seq<Item>, id: string)
    requires UniqueIds(items)
    ensures ParentAndIndex(items, id).None? <==> id !in PreIds(items)
    ensures ParentAndIndex(items, id).Some? ==>
      var (q, k) := ParentAndIndex(items, id).value;
      && (q.None? ==> k < |items| && Some(items[k]) == FindItemByIdRecursive(items, id))
      && (q.Some? ==>
            && FindItemByIdRecursive(items, q.value).Some?
            && k < |Kids(FindItemByIdRecursive(items, q.value).value)|
            && Some(Kids(FindItemByIdRecursive(items, q.value).value)[k]) == FindItemByIdRecursive(items, id))
  {
    assert items[0..] == items;
    ParentAndIndexFromNoneIff(items, 0, id, None);
    if ParentAndIndex(items, id).Some? {
      var (q, k) := ParentAndIndex(items, id).value;
      var nested, y := ParentAndIndexFromReports(items, 0, id, None);
      if nested {
        FindNodeOfTree(items, y);
        ChildInFlatten(items, y, k);
        FindNodeOfTree(items, Kids(y)[k]);
      } else {
        ElemInFlatten(items, k);
        FindNodeOfTree(items, items[k]);
      }
    }
  }

  /** The parent of a found node: the first component of what the index search reports. */
  function ReportedParent(found: Option<(Option<string>, nat)>): Option<string>
  {
    if found.Some? then found.value.0 else None
  }

  /** `findItemAndParent` and `findParentAndIndex` walk the tree in the same order: same node as the lookup, same parent. */
  lemma {:induction false} FindItemAndParentAgrees(items: seq<Item>, i: nat, id: string, parentId: Option<string>)
    requires i <= |items|
    ensures FindItemAndParent(items[i..], id, parentId)
         == (FindItemByIdRecursive(items[i..], id), ReportedParent(ParentAndIndexFrom(items, i, id, parentId)))
    decreases items, |items| - i
  {
    if i < |items| {
      assert items[i..][0] == items[i] && items[i..][1..] == items[i + 1..];
      assert FindInItem(items[i], id) == if items[i].id == id then Some(items[i]) else FindItemByIdRecursive(Kids(items[i]), id);
      ParentAndIndexBelowNoneIff(items[i], id);
      FindItemAndParentBelowAgrees(items[i], id);
      FindItemAndParentAgrees(items, i + 1, id, parentId);
    }
  }

  lemma {:induction false} FindItemAndParentBelowAgrees(x: Item, id: string)
    ensures FindItemAndParentBelow(x, id) == (FindItemByIdRecursive(Kids(x), id), ReportedParent(ParentAndIndexBelow(x, id)))
    decreases x
  {
    match x.children
    case Present(cs) =>
      FindItemAndParentAgrees(cs, 0, id, Some(x.id));
      assert cs[0..] == cs;
    case Absent =>
  }

  /**
   * `handleDragEnd`: nothing happens without a drop target, on a drop onto
   * the dragged item itself, or when either id is missing; a drop on a
   * folder moves the item to the front of that folder; any other drop
   * moves it to the target's parent list at the target's index.
   */
  method HandleDragEnd(items: seq<Item>, activeId: string, overId: Option<string>) returns (r: seq<Item>)
    ensures overId.None? || overId.value == activeId ==> r == items
    ensures overId.Some? && overId.value != activeId ==>
      var dragged := FindItemByIdRecursive(items, activeId);
      var target := FindItemByIdRecursive(items, overId.value);
      var dropInfo := ParentAndIndex(items, overId.value);
      && (dragged.None? || target.None? ==> r == items)
      && (dragged.Some? && target.Some? && target.value.kind == Folder ==>
            r == Moved(items, activeId, Some(overId.value), 0))
      && (dragged.Some? && target.Some? && target.value.kind != Folder ==>
            dropInfo.Some? && r == Moved(items, activeId, dropInfo.value.0, dropInfo.value.1))
  {
    if overId.None? || activeId == overId.value {
      return items;
    }
    var over := overId.value;
    assert items[0..] == items;
    FindItemAndParentAgrees(items, 0, activeId, None);
    FindItemAndParentAgrees(items, 0, over, None);
    var draggedItem := FindItemAndParent(items, activeId, None).0;
    var dropTarget := FindItemAndParent(items, over, None).0;
    if draggedItem.None? || dropTarget.None? {
      return items;
    }
    if dropTarget.value.kind == Folder {
      r := MoveItemInTree(items, activeId, Some(dropTarget.value.id), 0);
      return;
    }
    ParentAndIndexFromNoneIff(items, 0, over, None);
    var dropInfo := FindParentAndIndex(items, over, None);
    if dropInfo.None? {
      return items;
    }
    r := MoveItemInTree(items, activeId, dropInfo.value.0, dropInfo.value.1);
  }
}
