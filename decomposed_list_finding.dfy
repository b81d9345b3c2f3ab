/**
 * Lines 28-43 of `blog/translation_cleanup.py` run over the snapshot of the
 * translated lists taken at line 26. A round that decomposes an item (a
 * promoted wrapper at line 55, an empty item at line 60, a surplus item at
 * line 65) decomposes every list inside it too, but those lists stay in the
 * snapshot. The HTML library's `decompose` empties each destroyed node, so
 * when the loop reaches such a list, `translated_list.attrs` is `None`, and
 * line 41 or 42 raises `TypeError` out of `clean_translation_html`.
 */
module DecomposedListFinding {
  import opened Wrappers
  import opened Strings
  import opened Html
  import opened ListLabels
  import opened ListAlignment
  import opened ListPass

  /**
   * The loop as written; `None` is the `TypeError`. Rounds run in the
   * snapshot's order, outer lists first, and a round that leaves fewer
   * paired lists below its list than it found has destroyed one of them,
   * which a later round then reaches.
   */
  function AlignForestAsWritten(f: seq<LNode>, origs: seq<Node>, hidden: bool): Option<seq<LNode>>
    requires ListSources(origs)
    decreases PairedCount(f), Size(f), 1
  {
    if f == [] then Some([])
    else
      match AlignNodeAsWritten(f[0], origs, hidden)
      case None => None
      case Some(h) =>
        match AlignForestAsWritten(f[1..], origs, hidden)
        case None => None
        case Some(t) => Some(h + t)
  }

  function AlignNodeAsWritten(n: LNode, origs: seq<Node>, hidden: bool): Option<seq<LNode>>
    requires ListSources(origs)
    decreases PairedCountOf(n), SizeOf(n), 0
  {
    match n
    case LElement(t, a, c, p) =>
      if IsPairedList(n) then
        if p.value < |origs| then
          var r := AlignList(n, origs[p.value], hidden);
          AlignListCount(n, origs[p.value], hidden);
          if PairedCount(r.children) < PairedCount(c) then None
          else
            (match AlignForestAsWritten(r.children, origs, hidden)
             case None => None
             case Some(c2) => Some([LElement(r.tag, r.attrs, c2, r.pair)]))
        else
          Some([])
      else
        (match AlignForestAsWritten(c, origs, Inside(hidden, t))
         case None => None
         case Some(c2) => Some([LElement(t, a, c2, p)]))
    case _ => Some([n])
  }

  /** `_normalize_lists` as written: `None` where it raises. */
  function NormalizeListsAsWritten(original: seq<Node>, translated: seq<Node>): Option<seq<Node>> {
    ListsAreListElements(original);
    match AlignForestAsWritten(AfterDrop(original, translated), Lists(original), false)
    case None => None
    case Some(f) => Some(Erase(f))
  }

  /** Where the loop as written does not raise, it computes the corrected pass. */
  lemma {:induction false} AlignForestAgrees(f: seq<LNode>, origs: seq<Node>, hidden: bool)
    requires ListSources(origs)
    ensures AlignForestAsWritten(f, origs, hidden).Some? ==> AlignForestAsWritten(f, origs, hidden).value == AlignForest(f, origs, hidden)
    decreases PairedCount(f), Size(f), 1
  {
    if f != [] {
      AlignNodeAgrees(f[0], origs, hidden);
      AlignForestAgrees(f[1..], origs, hidden);
    }
  }

  lemma {:induction false} AlignNodeAgrees(n: LNode, origs: seq<Node>, hidden: bool)
    requires ListSources(origs)
    ensures AlignNodeAsWritten(n, origs, hidden).Some? ==> AlignNodeAsWritten(n, origs, hidden).value == AlignNode(n, origs, hidden)
    decreases PairedCountOf(n), SizeOf(n), 0
  {
    match n
    case LElement(t, a, c, p) =>
      if IsPairedList(n) {
        if p.value < |origs| {
          var r := AlignList(n, origs[p.value], hidden);
          AlignListCount(n, origs[p.value], hidden);
          AlignForestAgrees(r.children, origs, hidden);
        }
      } else {
        AlignForestAgrees(c, origs, Inside(hidden, t));
      }
    case LText(_) =>
    case LComment(_) =>
  }

  /** A successful run of the code as written ends in the tree the corrected pass gives. */
  lemma NormalizeListsAgrees(original: seq<Node>, translated: seq<Node>)
    ensures NormalizeListsAsWritten(original, translated).Some? ==>
      NormalizeListsAsWritten(original, translated).value == NormalizeLists(original, translated)
  {
    ListsAreListElements(original);
    AlignForestAgrees(AfterDrop(original, translated), Lists(original), false);
  }

  function Li(children: seq<Node>): Node {
    Element("li", map[], children)
  }

  function Ul(children: seq<Node>): Node {
    Element("ul", map[], children)
  }

  /** `<ul><li>A<ul><li>B</li></ul></li></ul>`. */
  const NestedMarkup: seq<Node> := [Ul([Li([Text("A"), Ul([Li([Text("B")])])])])]

  /** The same markup with its two lists tagged 0 and 1. */
  const InnerItem: LNode := LElement("li", map[], [LText("B")], None)
  const InnerList: LNode := LElement("ul", map[], [InnerItem], Some(1))
  const OuterItem: LNode := LElement("li", map[], [LText("A"), InnerList], None)
  const OuterList: LNode := LElement("ul", map[], [OuterItem], Some(0))

  /**
   * With this markup as both the original and the translation, the first
   * round promotes `<li>B</li>` and decomposes the item, and with it the
   * inner `<ul>`, which the second round then reaches: the code as written
   * raises, where the corrected pass gives `<ul><li>B</li></ul>`.
   */
  lemma DecomposedListRaises()
    ensures NormalizeListsAsWritten(NestedMarkup, NestedMarkup) == None
    ensures NormalizeLists(NestedMarkup, NestedMarkup) == [Ul([Li([Text("B")])])]
  {
    TaggedMarkup();
    OriginalLists();
    OuterRound();
    NestedSources(Lists(NestedMarkup));
    BothRuns(Lists(NestedMarkup));
  }

  lemma NestedSources(origs: seq<Node>)
    requires origs == Lists(NestedMarkup)
    ensures ListSources(origs)
  {
    ListsAreListElements(NestedMarkup);
  }

  lemma BothRuns(origs: seq<Node>)
    requires origs == Lists(NestedMarkup) && ListSources(origs) && |origs| == 2 && origs[0] == NestedMarkup[0]
    requires AfterDrop(NestedMarkup, NestedMarkup) == [OuterList]
    requires AlignList(OuterList, NestedMarkup[0], false) == LElement("ul", map[], [InnerItem], Some(0))
    ensures NormalizeListsAsWritten(NestedMarkup, NestedMarkup) == None
    ensures NormalizeLists(NestedMarkup, NestedMarkup) == [Ul([Li([Text("B")])])]
  {
    OuterAsWritten(origs);
    RaisesOn(NestedMarkup, origs);
    CorrectedRound(origs);
  }

  /** A run whose only top-level list is `OuterList`, and whose first round raises, raises. */
  lemma RaisesOn(m: seq<Node>, origs: seq<Node>)
    requires origs == Lists(m) && ListSources(origs)
    requires AfterDrop(m, m) == [OuterList] && AlignForestAsWritten([OuterList], origs, false) == None
    ensures NormalizeListsAsWritten(m, m) == None
  {
  }

  /** The second round's list was destroyed by the first: the run as written raises. */
  lemma OuterAsWritten(origs: seq<Node>)
    requires ListSources(origs) && |origs| == 2 && origs[0] == NestedMarkup[0]
    requires AlignList(OuterList, NestedMarkup[0], false) == LElement("ul", map[], [InnerItem], Some(0))
    ensures AlignForestAsWritten([OuterList], origs, false) == None
  {
    OuterRoundDestroys();
    assert AlignNodeAsWritten(OuterList, origs, false) == None;
  }

  lemma LabelOne(n: Node, next: nat)
    ensures Label([n], next) == LabelNode(n, next)
  {
    assert [n][1..] == [];
  }

  lemma LabelTwo(m: Node, n: Node, next: nat)
    ensures Label([m, n], next) == LabelNode(m, next) + LabelNode(n, next + |ListsOf(m)|)
  {
    assert [m, n][1..] == [n];
    LabelOne(n, next + |ListsOf(m)|);
  }

  /** Labelling tags the outer list 0 and the inner one 1; nothing is dropped. */
  lemma TaggedMarkup()
    ensures Label(NestedMarkup, 0) == [OuterList]
    ensures AfterDrop(NestedMarkup, NestedMarkup) == [OuterList]
  {
    var inner := Li([Text("B")]);
    LabelOne(Text("B"), 2);
    LabelOne(inner, 2);
    var innerList := Ul([inner]);
    LabelOne(innerList, 1);
    assert Label([innerList], 1) == [InnerList];
    LabelTwo(Text("A"), innerList, 1);
    assert Label([Text("A"), innerList], 1) == [LText("A"), InnerList];
    var outer := Li([Text("A"), innerList]);
    LabelOne(outer, 1);
    assert Label([outer], 1) == [OuterItem];
    LabelOne(Ul([outer]), 0);
  }

  lemma ListsOne(n: Node)
    ensures Lists([n]) == ListsOf(n)
  {
    assert [n][1..] == [];
  }

  /** The original's lists: the outer `<ul>`, then the inner one. */
  lemma OriginalLists()
    ensures |Lists(NestedMarkup)| == 2
    ensures Lists(NestedMarkup)[0] == NestedMarkup[0]
  {
    var inner := Li([Text("B")]);
    var innerList := Ul([inner]);
    ListsOne(Text("B"));
    ListsOne(inner);
    ListsOne(innerList);
    var c := [Text("A"), innerList];
    assert Lists(c) == [innerList] by {
      assert c[1..] == [innerList];
    }
    var outer := Li(c);
    ListsOne(outer);
    ListsOne(NestedMarkup[0]);
  }

  lemma PromotedOne(n: LNode)
    ensures Promoted([n]) == PromotedOf(n)
  {
    assert [n][1..] == [];
  }

  lemma PairedCountOne(n: LNode)
    ensures PairedCount([n]) == PairedCountOf(n)
  {
    assert [n][1..] == [];
  }

  /** Nothing is copied between attribute-free elements. */
  lemma NoAttrsCopied(names: seq<string>)
    ensures CopyAttrs(map[], map[], names) == map[]
  {
  }

  /** The promoted entry is all of the first round's list content. */
  lemma OuterPromotion()
    ensures PromoteItems(OuterList.children, false) == [InnerItem]
  {
    PromotedOne(LText("B"));
    assert RemoveItems([LText("B")]) == [LText("B")] by {
      assert [LText("B")][1..] == [];
    }
    PromotedOne(InnerItem);
    PromotedOne(InnerList);
    assert Promoted(OuterItem.children) == [InnerItem] by {
      assert OuterItem.children[1..] == [InnerList];
    }
    assert PromoteItems([OuterItem], false) == [InnerItem] by {
      assert [OuterItem][1..] == [];
    }
  }

  /** The only original item has no paragraph, so the promoted entry is kept as it is. */
  lemma OuterFix(s: Node)
    requires s == Li([Text("A"), Ul([Li([Text("B")])])])
    ensures FixItems([InnerItem], [s]) == [InnerItem]
  {
    var sc := s.children;
    assert !HasChildTag(sc, "p") by {
      forall i | 0 <= i < |sc| ensures !(sc[i].Element? && sc[i].tag == "p") {
        assert i == 0 || i == 1;
      }
    }
    NoAttrsCopied(ITEM_ATTRS);
    assert FixItem(InnerItem, s) == InnerItem;
    assert [InnerItem][1..] == [];
    assert [s][1..] == [];
  }

  /** The first round: `<li>B</li>` is promoted and the item holding the inner list is gone. */
  lemma OuterRound()
    ensures AlignList(OuterList, NestedMarkup[0], false) == LElement("ul", map[], [InnerItem], Some(0))
  {
    var src := NestedMarkup[0];
    assert ChildItems(src.children) == src.children by {
      assert src.children[1..] == [];
    }
    assert DesiredCount(src) == 1;
    OuterPromotion();
    ItemsOfOne(InnerItem);
    assert TrimStep([InnerItem], 1) == [InnerItem];
    assert PadStep([InnerItem], 1) == [InnerItem];
    OuterFix(src.children[0]);
    assert AlignItems(OuterList.children, src, false) == [InnerItem];
    NoAttrsCopied(LIST_ATTRS);
  }

  /** The first round leaves no list below the outer one, where there was one. */
  lemma OuterRoundDestroys()
    ensures PairedCount([InnerItem]) == 0
    ensures PairedCount(OuterList.children) == 1
  {
    PairedCountOne(LText("B"));
    PairedCountOne(InnerItem);
    PairedCountOne(InnerList);
    assert PairedCount([LText("A"), InnerList]) == PairedCount([InnerList]) by {
      assert [LText("A"), InnerList][1..] == [InnerList];
    }
    PairedCountOne(OuterItem);
  }

  lemma AlignForestOne(n: LNode, origs: seq<Node>, hidden: bool)
    requires ListSources(origs)
    ensures AlignForest([n], origs, hidden) == AlignNode(n, origs, hidden)
  {
    assert [n][1..] == [];
  }

  lemma EraseOne(n: LNode)
    ensures Erase([n]) == [EraseNode(n)]
  {
    assert [n][1..] == [];
  }

  /** The corrected pass keeps the promoted item and ends with `<ul><li>B</li></ul>`. */
  lemma CorrectedRound(origs: seq<Node>)
    requires origs == Lists(NestedMarkup) && ListSources(origs)
    requires AfterDrop(NestedMarkup, NestedMarkup) == [OuterList]
    requires |origs| == 2 && origs[0] == NestedMarkup[0]
    requires AlignList(OuterList, NestedMarkup[0], false) == LElement("ul", map[], [InnerItem], Some(0))
    ensures NormalizeLists(NestedMarkup, NestedMarkup) == [Ul([Li([Text("B")])])]
  {
    var done := LElement("ul", map[], [InnerItem], Some(0));
    CorrectedTagged(origs);
    assert NormalizeListsTagged(NestedMarkup, NestedMarkup) == [done];
    EraseOne(LText("B"));
    EraseOne(InnerItem);
    EraseOne(done);
  }

  lemma CorrectedTagged(origs: seq<Node>)
    requires ListSources(origs) && |origs| == 2 && origs[0] == NestedMarkup[0]
    requires AlignList(OuterList, NestedMarkup[0], false) == LElement("ul", map[], [InnerItem], Some(0))
    ensures AlignForest([OuterList], origs, false) == [LElement("ul", map[], [InnerItem], Some(0))]
  {
    AlignForestOne(LText("B"), origs, false);
    AlignForestOne(InnerItem, origs, false);
    AlignForestOne(OuterList, origs, false);
  }
}
