/**
 * A list inside a string container. The parser gives every string below a
 * `<template>` (or a `script`, `style`, `rt` or `rp`) that container's
 * string class, so `item.get_text(strip=True)` at line 59 of
 * `blog/translation_cleanup.py` finds no text in any item of such a list:
 * line 60 decomposes each item without nested items, and line 70 pads
 * empty items in their place. The same list outside a container keeps its
 * item.
 */
module ContainedList {
  import opened Wrappers
  import opened Strings
  import opened Html
  import opened ListLabels
  import opened ListAlignment
  import opened ListPass
  import opened DecomposedListFinding
  import opened ListRerun

  /** `<ul><li>x</li></ul>`. */
  const Bare: seq<Node> := [Ul([Li([Text("x")])])]
  /** `<template><ul><li>x</li></ul></template>`. */
  const InTemplate: seq<Node> := [Element("template", map[], Bare)]
  /** `<template><ul><li></li></ul></template>`. */
  const Emptied: seq<Node> := [Element("template", map[], [Ul([Li([])])])]

  const XItem: LNode := LItem([LText("x")])
  const TemplateNode: LNode := LElement("template", map[], [LList([XItem])], None)

  /**
   * With the markup as both the original and the translation, the item of
   * the list inside `<template>` is emptied, and the item of the bare list
   * is kept.
   */
  lemma ContainerHidesItemText()
    ensures NormalizeLists(InTemplate, InTemplate) == Emptied
    ensures NormalizeLists(Bare, Bare) == Bare
  {
    BareLists();
    TemplateLists();
    ContainedPass(Bare);
    BarePass(Bare);
  }

  lemma BareLists()
    ensures Lists(Bare) == Bare && ListsOf(Bare[0]) == Bare
    ensures Label(Bare, 0) == [LList([XItem])]
    ensures ChildItems(Bare[0].children) == Bare[0].children
  {
    LabelLetterItem("x", 1);
    ListsOne(Li([Text("x")]));
    LabelFlatList(Bare[0].children, [XItem]);
    assert Bare[0].children[1..] == [];
  }

  lemma TemplateLists()
    requires Lists(Bare) == Bare && Label(Bare, 0) == [LList([XItem])]
    ensures Lists(InTemplate) == Bare
    ensures Label(InTemplate, 0) == [TemplateNode]
  {
    ListsOne(InTemplate[0]);
    LabelOne(InTemplate[0], 0);
  }

  lemma BareSource(origs: seq<Node>)
    requires origs == Bare && ChildItems(Bare[0].children) == Bare[0].children
    ensures ListSources(origs) && IsSourceList(origs[0]) && DesiredCount(origs[0]) == 1
  {
  }

  /** Inside the container no item has text: the item goes and an empty one is padded. */
  lemma ContainedPass(origs: seq<Node>)
    requires origs == Bare && Lists(Bare) == Bare && ChildItems(Bare[0].children) == Bare[0].children
    requires Lists(InTemplate) == Bare && Label(InTemplate, 0) == [TemplateNode]
    ensures NormalizeLists(InTemplate, InTemplate) == Emptied
  {
    BareSource(origs);
    assert AfterDrop(InTemplate, InTemplate) == [TemplateNode];
    ContainedRound(origs);
    NoAttrsCopied(LIST_ATTRS);
    assert AlignList(LList([XItem]), origs[0], true) == LList([EmptyItem]);
    EmptyAligned(origs);
    AlignForestOne(LList([XItem]), origs, true);
    AlignForestOne(TemplateNode, origs, false);
    assert NormalizeListsTagged(InTemplate, InTemplate) == [LElement("template", map[], [LList([EmptyItem])], None)];
    EraseOne(EmptyItem);
    EraseOne(LList([EmptyItem]));
    EraseOne(LElement("template", map[], [LList([EmptyItem])], None));
  }

  /** Outside a container the item has the text "x", and the list is left as it is. */
  lemma BarePass(origs: seq<Node>)
    requires origs == Bare && Lists(Bare) == Bare && ChildItems(Bare[0].children) == Bare[0].children
    requires Label(Bare, 0) == [LList([XItem])]
    ensures NormalizeLists(Bare, Bare) == Bare
  {
    BareSource(origs);
    assert AfterDrop(Bare, Bare) == [LList([XItem])];
    BareRound(origs);
    NoAttrsCopied(LIST_ATTRS);
    assert AlignList(LList([XItem]), origs[0], false) == LList([XItem]);
    XAligned(origs);
    AlignForestOne(LList([XItem]), origs, false);
    assert NormalizeListsTagged(Bare, Bare) == [LList([XItem])];
    EraseOne(LText("x"));
    EraseOne(XItem);
    EraseOne(LList([XItem]));
  }

  lemma XText()
    ensures Promoted([LText("x")]) == []
    ensures StrippedText([LText("x")]) == "x"
  {
    assert [LText("x")][1..] == [];
    assert Strip("x") == "x" by {
      assert LeadCount("x", PY_WHITESPACE) == 0;
      assert TailCount("x", PY_WHITESPACE) == 0;
    }
  }

  /** The round inside the container: promotion drops the item, padding adds an empty one. */
  lemma ContainedRound(origs: seq<Node>)
    requires origs == Bare && IsSourceList(origs[0]) && DesiredCount(origs[0]) == 1
    requires ChildItems(Bare[0].children) == Bare[0].children
    ensures AlignItems([XItem], origs[0], true) == [EmptyItem]
  {
    XText();
    EmptyItemDropped(XItem, true);
    assert Items([]) == [];
    assert PadStep([], 1) == [EmptyItem] by {
      assert Repeat(NewTag("li"), 1) == [EmptyItem];
    }
    OneFixed(EmptyItem, origs);
  }

  /** The round outside a container: the item has text and stays. */
  lemma BareRound(origs: seq<Node>)
    requires origs == Bare && IsSourceList(origs[0]) && DesiredCount(origs[0]) == 1
    requires ChildItems(Bare[0].children) == Bare[0].children
    ensures AlignItems([XItem], origs[0], false) == [XItem]
  {
    XText();
    EmptyItemDropped(XItem, false);
    ItemsOfOne(XItem);
    assert TrimStep([XItem], 1) == [XItem];
    assert PadStep([XItem], 1) == [XItem];
    OneFixed(XItem, origs);
  }

  /** The original's item holds no `<p>`, so an attribute-free item is left as it is. */
  lemma OneFixed(x: LNode, origs: seq<Node>)
    requires origs == Bare && IsItem(x) && x.attrs == map[]
    requires ChildItems(Bare[0].children) == Bare[0].children
    ensures FixItems([x], ChildItems(origs[0].children)) == [x]
  {
    FixLetter(x, "x");
    assert [x][1..] == [];
    assert Bare[0].children[1..] == [];
  }

  lemma EmptyAligned(origs: seq<Node>)
    requires ListSources(origs)
    ensures AlignForest([EmptyItem], origs, true) == [EmptyItem]
  {
    AlignForestOne(EmptyItem, origs, true);
  }

  lemma XAligned(origs: seq<Node>)
    requires ListSources(origs)
    ensures AlignForest([XItem], origs, false) == [XItem]
  {
    AlignForestOne(LText("x"), origs, false);
    ItemAligned(XItem, origs);
    AlignForestOne(XItem, origs, false);
  }
}
