/**
 * The binder's data model (src/types.ts and the TEMPLATES table of
 * src/constants.tsx) and the pre-order measures of a binder forest that the
 * other modules state their contracts with.
 */
module Types {
  import opened Wrappers

  /** The members of the `DocumentType` string enum, in declaration order. */
  datatype DocumentType = Manuscript | CharacterSheet | Location | Lore | Research

  /** An item's `type`: one of the enum's values, or the literal 'Folder'. */
  datatype ItemType = Folder | Document(doc: DocumentType)

  /**
   * `string | Record<string, string>`: plain text, or the field record as the
   * ordered list of entries that `Object.entries` yields.
   */
  datatype Content = Text(text: string) | Fields(entries: seq<(string, string)>)

  /**
   * A `BinderItem`. The React `icon` is not modelled. An absent `isOpen`
   * reads as false everywhere the code looks at it, so it is a plain bool.
   */
  datatype Item = Item(
    id: string,
    title: string,
    kind: ItemType,
    content: Content,
    level: int,
    children: Children,
    isOpen: bool)

  /**
   * The optional `children` array: absent (documents) and present but empty
   * (an empty folder) are distinct states.
   */
  datatype Children = Absent | Present(items: seq<Item>)

  /** The string value of an item's `type` field. */
  function TypeValue(t: ItemType): string
  {
    match t
    case Folder => "Folder"
    case Document(d) =>
      match d
      case Manuscript => "Manuscript Chapter"
      case CharacterSheet => "Character Sheet"
      case Location => "Location Profile"
      case Lore => "Lore Entry"
      case Research => "Research Note"
  }

  /** The enum's (key, value) pairs in declaration order, as `Object.keys` lists them. */
  const DocumentTypeTable: seq<(string, string)> := [
    ("Manuscript", "Manuscript Chapter"),
    ("CharacterSheet", "Character Sheet"),
    ("Location", "Location Profile"),
    ("Lore", "Lore Entry"),
    ("Research", "Research Note")
  ]

  /** TEMPLATES: the ordered field names of each templated document type, keyed by type value. */
  const Templates: map<string, seq<string>> := map[
    "Character Sheet" := ["Role", "Goal", "Motivation", "Flaw", "Backstory"],
    "Location Profile" := ["Description", "Atmosphere", "History", "Key Points of Interest"],
    "Lore Entry" := ["Summary", "Rules", "Impact on World"],
    "Research Note" := ["Source URL", "Key Takeaways", "Quotes", "Notes"]
  ]

  /** The `children` list of an item, or the empty list when it has none (`item.children || []`). */
  function Kids(x: Item): (r: seq<Item>)
    ensures x.children.Present? ==> r == x.children.items
    ensures x.children.Absent? ==> r == []
  {
    match x.children
    case Present(cs) => cs
    case Absent => []
  }

  /** Every node of the forest in pre-order: a node, then its subtree, then its later siblings. */
  function Flatten(items: seq<Item>): seq<Item>
    decreases items
  {
    if items == [] then [] else FlattenNode(items[0]) + Flatten(items[1..])
  }

  /** A node followed by its subtree in pre-order. */
  function FlattenNode(x: Item): seq<Item>
    decreases x
  {
    [x] + match x.children case Present(cs) => Flatten(cs) case Absent => []
  }

  /** The ids of every node of the forest, in pre-order. */
  function PreIds(items: seq<Item>): seq<string>
    decreases items
  {
    if items == [] then [] else NodeIds(items[0]) + PreIds(items[1..])
  }

  /** A node's id followed by the ids of its subtree in pre-order. */
  function NodeIds(x: Item): seq<string>
    decreases x
  {
    [x.id] + match x.children case Present(cs) => PreIds(cs) case Absent => []
  }

  /** The number of nodes of the forest. */
  function Count(items: seq<Item>): nat
  {
    |PreIds(items)|
  }

  /** No two positions of `s` hold the same string. */
  ghost predicate Distinct(s: seq<string>)
  {
    forall i, j | 0 <= i < j < |s| :: s[i] != s[j]
  }

  /** The binder invariant that every id occurs once in the whole forest. */
  ghost predicate UniqueIds(items: seq<Item>)
  {
    Distinct(PreIds(items))
  }

  lemma {:induction false} PreIdsAppend(a: seq<Item>, b: seq<Item>)
    ensures PreIds(a + b) == PreIds(a) + PreIds(b)
  {
    if a == [] {
      assert a + b == b;
    } else {
      assert (a + b)[0] == a[0];
      assert (a + b)[1..] == a[1..] + b;
      PreIdsAppend(a[1..], b);
    }
  }

  lemma {:induction false} FlattenAppend(a: seq<Item>, b: seq<Item>)
    ensures Flatten(a + b) == Flatten(a) + Flatten(b)
  {
    if a == [] {
      assert a + b == b;
    } else {
      assert (a + b)[0] == a[0];
      assert (a + b)[1..] == a[1..] + b;
      FlattenAppend(a[1..], b);
    }
  }

  lemma PreIdsCons(x: Item, t: seq<Item>)
    ensures PreIds([x] + t) == NodeIds(x) + PreIds(t)
    ensures Flatten([x] + t) == FlattenNode(x) + Flatten(t)
  {
    assert ([x] + t)[0] == x && ([x] + t)[1..] == t;
  }

  /** A child list holds fewer nodes than the forest around it (the measure for recursive methods). */
  lemma KidsSmaller(items: seq<Item>, i: int)
    requires 0 <= i < |items|
    ensures Count(Kids(items[i])) < Count(items)
  {
    assert items == items[..i] + [items[i]] + items[i + 1..];
    PreIdsAppend(items[..i] + [items[i]], items[i + 1..]);
    PreIdsAppend(items[..i], [items[i]]);
    PreIdsSingle(items[i]);
  }

  /** A one-item forest is that item's subtree. */
  lemma PreIdsSingle(x: Item)
    ensures PreIds([x]) == NodeIds(x)
    ensures Flatten([x]) == FlattenNode(x)
  {
    assert [x][1..] == [];
  }

  /** Pre-order ids are the ids of the pre-order nodes. */
  lemma {:induction false} PreIdsAreFlattenIds(items: seq<Item>)
    ensures |PreIds(items)| == |Flatten(items)|
    ensures forall k | 0 <= k < |Flatten(items)| :: PreIds(items)[k] == Flatten(items)[k].id
    decreases items
  {
    if items != [] {
      NodeIdsAreFlattenIds(items[0]);
      PreIdsAreFlattenIds(items[1..]);
    }
  }

  lemma {:induction false} NodeIdsAreFlattenIds(x: Item)
    ensures |NodeIds(x)| == |FlattenNode(x)|
    ensures forall k | 0 <= k < |FlattenNode(x)| :: NodeIds(x)[k] == FlattenNode(x)[k].id
    decreases x
  {
    match x.children
    case Present(cs) => PreIdsAreFlattenIds(cs);
    case Absent =>
  }

  lemma DistinctParts(a: seq<string>, b: seq<string>)
    requires Distinct(a + b)
    ensures Distinct(a) && Distinct(b)
    ensures forall s | s in a :: s !in b
  {
    forall s | s in a ensures s !in b {
      var i :| 0 <= i < |a| && a[i] == s;
      forall j | 0 <= j < |b| ensures b[j] != s {
        assert (a + b)[i] == a[i] && (a + b)[|a| + j] == b[j];
      }
    }
    forall i, j | 0 <= i < j < |b| ensures b[i] != b[j] {
      assert (a + b)[|a| + i] == b[i] && (a + b)[|a| + j] == b[j];
    }
    forall i, j | 0 <= i < j < |a| ensures a[i] != a[j] {
      assert (a + b)[i] == a[i] && (a + b)[j] == a[j];
    }
  }

  /** Re-bracketing of sequence concatenations, used where a block is cut out of a pre-order. */
  lemma SeqRegroup<T>(p: seq<T>, b: seq<T>, m: seq<T>, a: seq<T>)
    ensures p + (b + m + a) == (p + b) + m + a
    ensures p + (b + a) == (p + b) + a
  {
  }

  lemma SeqRegroupTail<T>(b: seq<T>, m: seq<T>, a: seq<T>, t: seq<T>)
    ensures (b + m + a) + t == b + m + (a + t)
    ensures (b + a) + t == b + (a + t)
  {
  }
}
