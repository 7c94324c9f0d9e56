/**
 * The mention extractor of src/services/contextService.ts: finds the
 * documents whose titles the user's chat message mentions and renders them
 * as context blocks for the outgoing prompt.
 */
module ContextService {
  import opened Types
  import opened Text

  // ---------------------------------------------------------------------------
  // formatItemContent

  /**
   * The index `find` stops at: the first entry whose value is `value`, or
   * `|table|` when no entry matches.
   */
  function FirstMatch(table: seq<(string, string)>, value: string): (k: nat)
    ensures k <= |table|
    ensures k < |table| ==> table[k].1 == value
    ensures forall j | 0 <= j < k :: table[j].1 != value
    decreases |table|
  {
    if table == [] || table[0].1 == value then 0
    else
      var k := FirstMatch(table[1..], value);
      assert forall j | 0 < j < k + 1 :: table[j] == table[1..][j - 1];
      k + 1
  }

  /**
   * `Object.keys(DocumentType).find(...) || 'Document'`: the key at the first
   * match; 'Document' when no value matches, or when the key found is the
   * falsy empty string.
   */
  function KeyOf(table: seq<(string, string)>, value: string): (r: string)
    ensures r == "Document" || (r, value) in table
    ensures var k := FirstMatch(table, value);
      r == if k < |table| && table[k].0 != "" then table[k].0 else "Document"
  {
    var k := FirstMatch(table, value);
    if k < |table| && table[k].0 != "" then table[k].0 else "Document"
  }

  /** The type label of a block header: the enum key for a document type. */
  function TypeLabel(t: ItemType): (r: string)
    ensures t.Document? ==> r != "Document" && (r, TypeValue(t)) in DocumentTypeTable
    ensures t.Folder? ==> r == "Document"
  {
    var r := KeyOf(DocumentTypeTable, TypeValue(t));
    assert t.Document? ==> FirstMatch(DocumentTypeTable, TypeValue(t)) < |DocumentTypeTable|;
    r
  }

  /** `[${typeLabel}: ${item.title}]`. */
  function Header(item: Item): string
  {
    "[" + TypeLabel(item.kind) + ": " + item.title + "]"
  }

  /** `  - ${key}: ${value}`. */
  function FieldLine(e: (string, string)): string
  {
    "  - " + e.0 + ": " + e.1
  }

  /** The field-record entries kept by `.filter(([, value]) => value && value.trim() !== '')`. */
  function NonBlankEntries(entries: seq<(string, string)>): (r: seq<(string, string)>)
    ensures forall e | e in r :: e in entries && !AllWhitespace(e.1)
    ensures forall e | e in entries && !AllWhitespace(e.1) :: e in r
    ensures r == [] <==> forall e | e in entries :: AllWhitespace(e.1)
    ensures |entries| == 1 ==> r == if AllWhitespace(entries[0].1) then [] else entries
  {
    if entries == [] then []
    else
      var e := entries[0];
      TrimEmptyIffAllWhitespace(e.1);
      (if e.1 != "" && Trim(e.1) != "" then [e] else []) + NonBlankEntries(entries[1..])
  }

  /** The filter keeps order and multiplicity: it distributes over concatenation. */
  lemma {:induction false} NonBlankEntriesAppend(a: seq<(string, string)>, b: seq<(string, string)>)
    ensures NonBlankEntries(a + b) == NonBlankEntries(a) + NonBlankEntries(b)
    decreases |a|
  {
    if a != [] {
      var h := NonBlankEntries([a[0]]);
      assert [a[0]][1..] == [];
      assert (a + b)[0] == a[0] && (a + b)[1..] == a[1..] + b;
      assert NonBlankEntries(a + b) == h + NonBlankEntries(a[1..] + b);
      assert NonBlankEntries(a) == h + NonBlankEntries(a[1..]);
      NonBlankEntriesAppend(a[1..], b);
      SeqRegroup(h, NonBlankEntries(a[1..]), [], NonBlankEntries(b));
    } else {
      assert a + b == b;
    }
  }

  function FieldLines(entries: seq<(string, string)>): (r: seq<string>)
    ensures |r| == |entries|
    ensures forall i | 0 <= i < |entries| :: r[i] == FieldLine(entries[i])
  {
    if entries == [] then [] else [FieldLine(entries[0])] + FieldLines(entries[1..])
  }

  /** Field lines all start with `  - `, so joining at least one of them leaves something after trimming. */
  lemma FieldLinesNotBlank(kept: seq<(string, string)>)
    ensures kept != [] ==> !AllWhitespace(Join(FieldLines(kept), "\n"))
  {
    if kept == [] { return; }
    var lines := FieldLines(kept);
    var fields := Join(lines, "\n");
    assert lines[0] == "  - " + kept[0].0 + ": " + kept[0].1;
    assert lines[0][2] == '-';
    assert fields[..|lines[0]|] == lines[0];
    assert fields[2] == '-';
  }

  /** The joined field lines are blank exactly when every field value is blank. */
  lemma FieldsBlankIff(entries: seq<(string, string)>)
    ensures Trim(Join(FieldLines(NonBlankEntries(entries)), "\n")) == "" <==>
      forall e | e in entries :: AllWhitespace(e.1)
  {
    var kept := NonBlankEntries(entries);
    TrimEmptyIffAllWhitespace(Join(FieldLines(kept), "\n"));
    FieldLinesNotBlank(kept);
  }

  lemma HeaderPrefix(h: string, a: string, b: string)
    ensures |h| <= |h + a + b| && (h + a + b)[..|h|] == h
  {
  }

  /**
   * `formatItemContent`: a header and the text verbatim, or a header and one
   * line per non-blank field; a field record with no non-blank field
   * renders as the empty string.
   */
  function FormatItemContent(item: Item): (r: string)
    ensures item.content.Text? ==> r == Header(item) + "\n" + item.content.text
    ensures item.content.Fields? ==>
      (r == "" <==> forall e | e in item.content.entries :: AllWhitespace(e.1))
    ensures r != "" ==> |Header(item)| <= |r| && r[..|Header(item)|] == Header(item)
    ensures item.content.Fields? && r != "" ==>
      r == Header(item) + "\n" + Join(FieldLines(NonBlankEntries(item.content.entries)), "\n")
  {
    match item.content
    case Fields(entries) =>
      var fields := Join(FieldLines(NonBlankEntries(entries)), "\n");
      FieldsBlankIff(entries);
      HeaderPrefix(Header(item), "\n", fields);
      if Trim(fields) == "" then "" else Header(item) + "\n" + fields
    case Text(s) =>
      HeaderPrefix(Header(item), "\n", s);
      Header(item) + "\n" + s
  }

  // ---------------------------------------------------------------------------
  // findMentionedItemsRecursive

  /** The user's input with `.,!?;:()` replaced by spaces, padded with one space on each side. */
  function CleanInput(userInput: string): string
  {
    " " + ReplacePunctuation(userInput) + " "
  }

  /** The test of contextService.ts line 39: a non-folder whose space-padded title occurs, case-folded, in the cleaned input. */
  predicate IsMentioned(cleanUserInput: string, item: Item)
  {
    item.kind != Folder && Includes(ToLowerCase(cleanUserInput), ToLowerCase(" " + item.title + " "))
  }

  /** The specification of the search: every mentioned node, in pre-order. */
  function MentionedItems(userInput: string, items: seq<Item>): seq<Item>
    decreases items
  {
    if items == [] then [] else MentionedInItem(userInput, items[0]) + MentionedItems(userInput, items[1..])
  }

  function MentionedInItem(userInput: string, x: Item): seq<Item>
    decreases x
  {
    (if IsMentioned(CleanInput(userInput), x) then [x] else [])
    + match x.children case Present(cs) => MentionedItems(userInput, cs) case Absent => []
  }

  lemma {:induction false} MentionedAppend(userInput: string, a: seq<Item>, b: seq<Item>)
    ensures MentionedItems(userInput, a + b) == MentionedItems(userInput, a) + MentionedItems(userInput, b)
  {
    if a == [] {
      assert a + b == b;
    } else {
      assert (a + b)[0] == a[0] && (a + b)[1..] == a[1..] + b;
      MentionedAppend(userInput, a[1..], b);
    }
  }

  /** One more item of the sibling list adds that item's matches. */
  lemma MentionedPrefixStep(userInput: string, items: seq<Item>, i: nat)
    requires i < |items|
    ensures MentionedItems(userInput, items[..i + 1]) == MentionedItems(userInput, items[..i]) + MentionedInItem(userInput, items[i])
  {
    assert items[..i + 1] == items[..i] + [items[i]];
    MentionedAppend(userInput, items[..i], [items[i]]);
    assert [items[i]][1..] == [];
  }

  /** One pass of the loop: the item's own match, then its children's matches, extend the prefix's matches. */
  lemma MentionedLoopStep(userInput: string, items: seq<Item>, i: nat, found: seq<Item>, here: seq<Item>, fromChildren: seq<Item>)
    requires i < |items|
    requires found == MentionedItems(userInput, items[..i])
    requires here == if IsMentioned(CleanInput(userInput), items[i]) then [items[i]] else []
    requires fromChildren == if items[i].children.Present? then MentionedItems(userInput, items[i].children.items) else []
    ensures found + here + fromChildren == MentionedItems(userInput, items[..i + 1])
  {
    MentionedPrefixStep(userInput, items, i);
    assert MentionedInItem(userInput, items[i]) == here + fromChildren;
  }

  /**
   * `findMentionedItemsRecursive`: the loop over one sibling list, pushing
   * each matching item and then appending the matches of its children.
   */
  method FindMentionedItemsRecursive(userInput: string, items: seq<Item>) returns (found: seq<Item>)
    ensures found == MentionedItems(userInput, items)
    decreases Count(items)
  {
    found := [];
    var cleanUserInput := CleanInput(userInput);
    var i := 0;
    while i < |items|
      invariant 0 <= i <= |items|
      invariant found == MentionedItems(userInput, items[..i])
    {
      var item := items[i];
      var here: seq<Item> := [];
      if IsMentioned(cleanUserInput, item) {
        here := [item];
      }
      var fromChildren: seq<Item> := [];
      if item.children.Present? {
        KidsSmaller(items, i);
        fromChildren := FindMentionedItemsRecursive(userInput, item.children.items);
      }
      MentionedLoopStep(userInput, items, i, found, here, fromChildren);
      found := found + here + fromChildren;
      i := i + 1;
    }
    assert items[..|items|] == items;
  }

  /** The reference definition: filter a flat pre-order list by the mention test. */
  function FilterMentioned(cleanUserInput: string, s: seq<Item>): (r: seq<Item>)
    ensures forall x | x in r :: x in s && IsMentioned(cleanUserInput, x)
    ensures forall x | x in s && IsMentioned(cleanUserInput, x) :: x in r
  {
    if s == [] then []
    else (if IsMentioned(cleanUserInput, s[0]) then [s[0]] else []) + FilterMentioned(cleanUserInput, s[1..])
  }

  lemma {:induction false} FilterMentionedAppend(c: string, a: seq<Item>, b: seq<Item>)
    ensures FilterMentioned(c, a + b) == FilterMentioned(c, a) + FilterMentioned(c, b)
  {
    if a == [] {
      assert a + b == b;
    } else {
      assert (a + b)[0] == a[0] && (a + b)[1..] == a[1..] + b;
      FilterMentionedAppend(c, a[1..], b);
    }
  }

  /**
   * The mentioned items are exactly the pre-order list of all nodes, filtered
   * by the mention test: a node comes before its descendants, siblings in
   * list order, and every mentioned node appears.
   */
  lemma {:induction false} MentionedIsPreorderFilter(userInput: string, items: seq<Item>)
    ensures MentionedItems(userInput, items) == FilterMentioned(CleanInput(userInput), Flatten(items))
    decreases items
  {
    if items != [] {
      MentionedInItemIsFilter(userInput, items[0]);
      MentionedIsPreorderFilter(userInput, items[1..]);
      FilterMentionedAppend(CleanInput(userInput), FlattenNode(items[0]), Flatten(items[1..]));
    }
  }

  lemma {:induction false} MentionedInItemIsFilter(userInput: string, x: Item)
    ensures MentionedInItem(userInput, x) == FilterMentioned(CleanInput(userInput), FlattenNode(x))
    decreases x
  {
    FilterMentionedAppend(CleanInput(userInput), [x], Flatten(Kids(x)));
    assert [x][1..] == [];
    match x.children
    case Present(cs) => MentionedIsPreorderFilter(userInput, cs);
    case Absent =>
  }

  /** A node is reported exactly when it is in the tree, is not a folder and its padded title occurs in the cleaned input. */
  lemma MentionedIff(userInput: string, items: seq<Item>, x: Item)
    ensures x in MentionedItems(userInput, items) <==>
      && x in Flatten(items)
      && x.kind != Folder
      && exists k :: OccursAt(ToLowerCase(CleanInput(userInput)), ToLowerCase(" " + x.title + " "), k)
  {
    MentionedIsPreorderFilter(userInput, items);
    IncludesIffOccurs(ToLowerCase(CleanInput(userInput)), ToLowerCase(" " + x.title + " "));
  }

  /** No folder is ever reported as mentioned, whatever its title. */
  lemma FoldersNeverMentioned(userInput: string, items: seq<Item>)
    ensures forall x | x in MentionedItems(userInput, items) :: x.kind != Folder
  {
    MentionedIsPreorderFilter(userInput, items);
  }

  /**
   * A title containing one of `.,!?;:()` can never be mentioned: the cleaned
   * input no longer holds those characters.
   */
  lemma PunctuatedTitleNeverMentioned(userInput: string, item: Item, j: int)
    requires 0 <= j < |item.title| && IsPunctuation(item.title[j])
    ensures !IsMentioned(CleanInput(userInput), item)
  {
    var hay := ToLowerCase(CleanInput(userInput));
    var needle := ToLowerCase(" " + item.title + " ");
    assert needle[j + 1] == item.title[j];
    forall i | 0 <= i < |hay| ensures !IsPunctuation(hay[i]) {
      var c := CleanInput(userInput)[i];
      assert !IsPunctuation(c);
    }
    IncludesIffOccurs(hay, needle);
    forall k: int ensures !OccursAt(hay, needle, k) {
      if 0 <= k && k + |needle| <= |hay| {
        assert hay[k..k + |needle|][j + 1] == hay[k + j + 1];
        assert !IsPunctuation(hay[k + j + 1]);
      }
    }
  }

  /**
   * The apostrophe is not among the replaced characters, so a possessive does
   * not count as a mention: "Elara's" does not mention an item titled "Elara".
   */
  lemma PossessiveTitleNotMentioned(elara: Item)
    requires elara.title == "Elara"
    ensures !IsMentioned(CleanInput("Elara's"), elara)
  {
    var c := CleanInput("Elara's");
    assert c == " Elara's ";
    var s := ToLowerCase(c);
    var t := ToLowerCase(" " + elara.title + " ");
    assert |s| == 9 && |t| == 7;
    assert s[1] == 'e' && s[2] == 'l' && s[6] == '\'';
    assert t[0] == ' ' && t[6] == ' ';
    assert !Includes(s, t) by {
      IncludesIffOccurs(s, t);
      forall k: int ensures !OccursAt(s, t, k) {
        if 0 <= k <= 2 {
          assert s[k..k + 7][0] == s[k] && s[k..k + 7][6] == s[k + 6];
        }
      }
    }
  }

  // ---------------------------------------------------------------------------
  // buildContextString

  /** The result of `buildContextString`. */
  datatype ContextResult = ContextResult(contextString: string, mentionedItemTitles: seq<string>)

  /** The separator line between context blocks. */
  const BlockSeparator: string := "\n---\n"

  function Titles(items: seq<Item>): (r: seq<string>)
    ensures |r| == |items|
    ensures forall i | 0 <= i < |items| :: r[i] == items[i].title
  {
    if items == [] then [] else [items[0].title] + Titles(items[1..])
  }

  /** `mentionedItems.map(formatItemContent)`. */
  function Blocks(items: seq<Item>): (r: seq<string>)
    ensures |r| == |items|
    ensures forall i | 0 <= i < |items| :: r[i] == FormatItemContent(items[i])
  {
    seq(|items|, i requires 0 <= i < |items| => FormatItemContent(items[i]))
  }

  /** `.filter(part => part !== '')`. */
  function NonEmptyParts(parts: seq<string>): (r: seq<string>)
    ensures forall b | b in r :: b != "" && b in parts
    ensures forall b | b in parts && b != "" :: b in r
    ensures r == [] <==> forall b | b in parts :: b == ""
    ensures |parts| == 1 ==> r == if parts[0] == "" then [] else parts
  {
    if parts == [] then []
    else
      var r := (if parts[0] != "" then [parts[0]] else []) + NonEmptyParts(parts[1..]);
      assert r != [] ==> r[0] in r;
      assert parts == [parts[0]] + parts[1..];
      r
  }

  /** The filter keeps order and multiplicity: it distributes over concatenation. */
  lemma {:induction false} NonEmptyPartsAppend(a: seq<string>, b: seq<string>)
    ensures NonEmptyParts(a + b) == NonEmptyParts(a) + NonEmptyParts(b)
    decreases |a|
  {
    if a != [] {
      var h := if a[0] != "" then [a[0]] else [];
      assert (a + b)[0] == a[0] && (a + b)[1..] == a[1..] + b;
      assert NonEmptyParts(a + b) == h + NonEmptyParts(a[1..] + b);
      assert NonEmptyParts(a) == h + NonEmptyParts(a[1..]);
      NonEmptyPartsAppend(a[1..], b);
      SeqRegroup(h, NonEmptyParts(a[1..]), [], NonEmptyParts(b));
    } else {
      assert a + b == b;
    }
  }

  /** Every block is empty exactly when every item formats to "". */
  lemma BlocksAllEmptyIff(items: seq<Item>)
    ensures (forall b | b in Blocks(items) :: b == "") <==> forall x | x in items :: FormatItemContent(x) == ""
  {
    var bs := Blocks(items);
    if forall b | b in bs :: b == "" {
      forall x | x in items ensures FormatItemContent(x) == "" {
        var i :| 0 <= i < |items| && items[i] == x;
        assert bs[i] in bs;
      }
    }
    if forall x | x in items :: FormatItemContent(x) == "" {
      forall b | b in bs ensures b == "" {
        var i :| 0 <= i < |bs| && bs[i] == b;
        assert items[i] in items;
      }
    }
  }

  /**
   * `buildContextString`: empty for an empty input or an empty binder;
   * otherwise the titles of all mentioned items in pre-order, and their
   * non-empty blocks joined by a `---` line.
   */
  function BuildContextString(userInput: string, binderItems: seq<Item>): (r: ContextResult)
    ensures userInput == "" || binderItems == [] ==> r == ContextResult("", [])
    ensures userInput != "" ==> r.mentionedItemTitles == Titles(MentionedItems(userInput, binderItems))
    ensures userInput != "" ==>
      r.contextString == Join(NonEmptyParts(Blocks(MentionedItems(userInput, binderItems))), BlockSeparator)
    ensures r.contextString == "" <==>
      userInput == "" || forall x | x in MentionedItems(userInput, binderItems) :: FormatItemContent(x) == ""
  {
    if userInput == "" || |binderItems| == 0 then
      assert binderItems == [] ==> MentionedItems(userInput, binderItems) == [];
      ContextResult("", [])
    else
      var mentionedItems := MentionedItems(userInput, binderItems);
      if |mentionedItems| == 0 then
        ContextResult("", [])
      else
        var contextParts := NonEmptyParts(Blocks(mentionedItems));
        BlocksAllEmptyIff(mentionedItems);
        assert contextParts != [] ==> contextParts[0] in contextParts;
        ContextResult(Join(contextParts, BlockSeparator), Titles(mentionedItems))
  }
}
