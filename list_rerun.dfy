/**
 * Running the list pass of `blog/translation_cleanup.py` a second time, with
 * the same original, can change the tree again. A nested item promoted at
 * line 54 skips the emptiness test of lines 58-60 (line 56 goes on to the
 * next item), so an empty promoted item survives the first pass; the second
 * pass drops it at line 60 and pads at the end at line 70.
 */
module ListRerun {
  import opened Wrappers
  import opened Strings
  import opened Html
  import opened ListLabels
  import opened ListAlignment
  import opened ListPass
  import opened DecomposedListFinding

  /** `<ul><li>p</li><li>q</li></ul>`. */
  const Original: seq<Node> := [Ul([Li([Text("p")]), Li([Text("q")])])]
  /** `<ul><li>a<li></li></li><li>y</li></ul>`. */
  const Translated: seq<Node> := [Ul([Li([Text("a"), Li([])]), Li([Text("y")])])]
  /** `<ul><li></li><li>y</li></ul>`. */
  const Once: seq<Node> := [Ul([Li([]), Li([Text("y")])])]
  /** `<ul><li>y</li><li></li></ul>`. */
  const Twice: seq<Node> := [Ul([Li([Text("y")]), Li([])])]

  function LItem(c: seq<LNode>): LNode {
    LElement("li", map[], c, None)
  }

  /** The first list of the snapshot, tagged 0. */
  function LList(c: seq<LNode>): LNode {
    LElement("ul", map[], c, Some(0))
  }

  const EmptyItem: LNode := LItem([])
  const YItem: LNode := LItem([LText("y")])
  const AItem: LNode := LItem([LText("a"), EmptyItem])

  /**
   * The pass is not idempotent: on `Translated` it gives `Once`, and run
   * again over `Once` it gives `Twice`, a different tree.
   */
  lemma NormalizeListsNotIdempotent()
    ensures NormalizeLists(Original, Translated) == Once
    ensures NormalizeLists(Original, NormalizeLists(Original, Translated)) == Twice
    ensures Twice != Once
  {
    OriginalLists();
    OriginalIsSource(Original);
    FirstPass(Original);
    SecondPass(Original);
    Differ();
  }

  lemma OriginalIsSource(origs: seq<Node>)
    requires origs == Original
    ensures ListSources(origs)
  {
    assert |origs| == 1 && IsSourceList(origs[0]);
  }

  /** The two results differ in their first item. */
  lemma Differ()
    ensures Twice != Once
  {
    assert Twice[0].children[0] != Once[0].children[0];
  }

  lemma FirstPass(origs: seq<Node>)
    requires origs == Lists(Original) && origs == Original && ListSources(origs)
    ensures NormalizeLists(Original, Translated) == Once
  {
    TranslatedTagged();
    FirstRound();
    FlatItems([EmptyItem, YItem], origs);
    FlatListPass(Translated, [AItem, YItem], [EmptyItem, YItem], origs);
    ErasedPass([EmptyItem, YItem]);
  }

  lemma SecondPass(origs: seq<Node>)
    requires origs == Lists(Original) && origs == Original && ListSources(origs)
    ensures NormalizeLists(Original, Once) == Twice
  {
    OnceTagged();
    SecondRound();
    FlatItems([YItem, EmptyItem], origs);
    FlatListPass(Once, [EmptyItem, YItem], [YItem, EmptyItem], origs);
    ErasedPass([YItem, EmptyItem]);
  }

  /** A pass over one list, against the one original list, whose round leaves no list below it. */
  lemma FlatListPass(translated: seq<Node>, c: seq<LNode>, r: seq<LNode>, origs: seq<Node>)
    requires origs == Lists(Original) && origs == Original && ListSources(origs)
    requires |Lists(translated)| == 1 && Label(translated, 0) == [LList(c)]
    requires AlignItems(c, Original[0], false) == r && AlignForest(r, origs, false) == r
    ensures NormalizeListsTagged(Original, translated) == [LList(r)]
  {
    assert AfterDrop(Original, translated) == [LList(c)];
    NoAttrsCopied(LIST_ATTRS);
    assert AlignList(LList(c), Original[0], false) == LList(r);
    AlignForestOne(LList(c), origs, false);
  }

  lemma ErasedPass(r: seq<LNode>)
    requires r == [EmptyItem, YItem] || r == [YItem, EmptyItem]
    ensures Erase([LList(r)]) == (if r == [EmptyItem, YItem] then Once else Twice)
  {
    EraseOne(LText("y"));
    assert Erase([]) == [];
    assert Erase(r) == [EraseNode(r[0]), EraseNode(r[1])] by {
      assert r[1..] == [r[1]];
      EraseOne(r[1]);
    }
    EraseOne(LList(r));
  }

  /** The original has one list, with two items and no lists inside. */
  lemma OriginalLists()
    ensures Lists(Original) == Original
    ensures ChildItems(Original[0].children) == Original[0].children
  {
    var p := Li([Text("p")]);
    var q := Li([Text("q")]);
    LabelLetterItem("p", 1);
    LabelLetterItem("q", 1);
    assert Lists([p, q]) == [] by {
      assert [p, q][1..] == [q];
      ListsOne(q);
    }
    ListsOne(Original[0]);
    assert [p, q][1..] == [q];
    assert [q][1..] == [];
  }

  /** `<li>` with one letter: no lists inside, and tagged as it is. */
  lemma LabelLetterItem(letter: string, next: nat)
    ensures ListsOf(Li([Text(letter)])) == []
    ensures Label([Li([Text(letter)])], next) == [LItem([LText(letter)])]
  {
    ListsOne(Text(letter));
    LabelOne(Text(letter), next);
    LabelOne(Li([Text(letter)]), next);
  }

  lemma LabelEmptyItem(next: nat)
    ensures ListsOf(Li([])) == []
    ensures Label([Li([])], next) == [EmptyItem]
  {
    LabelOne(Li([]), next);
  }

  lemma LabelAItem(next: nat)
    ensures ListsOf(Li([Text("a"), Li([])])) == []
    ensures Label([Li([Text("a"), Li([])])], next) == [AItem]
  {
    var e := Li([]);
    LabelEmptyItem(next);
    ListsOne(e);
    assert Lists([Text("a"), e]) == [] by {
      assert [Text("a"), e][1..] == [e];
    }
    assert Label([Text("a"), e], next) == [LText("a"), EmptyItem] by {
      assert [Text("a"), e][1..] == [e];
      LabelOne(Text("a"), next);
    }
    LabelOne(Li([Text("a"), e]), next);
  }

  lemma LabelTwoItems(x: Node, y: Node, lx: LNode, ly: LNode, next: nat)
    requires ListsOf(x) == [] && ListsOf(y) == []
    requires Label([x], next) == [lx] && Label([y], next) == [ly]
    ensures Lists([x, y]) == []
    ensures Label([x, y], next) == [lx, ly]
  {
    assert [x, y][1..] == [y];
    ListsOne(y);
    LabelOne(x, next);
    LabelOne(y, next);
  }

  /** A `<ul>` of items without lists is the snapshot's only list, tagged 0. */
  lemma LabelFlatList(items: seq<Node>, tagged: seq<LNode>)
    requires Lists(items) == [] && Label(items, 1) == tagged
    ensures Lists([Ul(items)]) == [Ul(items)]
    ensures Label([Ul(items)], 0) == [LList(tagged)]
  {
    ListsOne(Ul(items));
    LabelOne(Ul(items), 0);
  }

  /** `Translated`, tagged: its one list is 0. */
  lemma TranslatedTagged()
    ensures |Lists(Translated)| == 1
    ensures Label(Translated, 0) == [LList([AItem, YItem])]
  {
    LabelAItem(1);
    LabelLetterItem("y", 1);
    LabelTwoItems(Li([Text("a"), Li([])]), Li([Text("y")]), AItem, YItem, 1);
    LabelFlatList(Translated[0].children, [AItem, YItem]);
  }

  /** `Once`, tagged: its one list is 0. */
  lemma OnceTagged()
    ensures |Lists(Once)| == 1
    ensures Label(Once, 0) == [LList([EmptyItem, YItem])]
  {
    LabelEmptyItem(1);
    LabelLetterItem("y", 1);
    LabelTwoItems(Li([]), Li([Text("y")]), EmptyItem, YItem, 1);
    LabelFlatList(Once[0].children, [EmptyItem, YItem]);
  }

  /** A letter item has no nested items and keeps its text. */
  lemma LetterItem(letter: string)
    requires letter == "a" || letter == "y"
    ensures Promoted([LText(letter)]) == []
    ensures StrippedText([LText(letter)]) == letter
  {
    assert [LText(letter)][1..] == [];
    assert Strip(letter) == letter by {
      assert LeadCount(letter, PY_WHITESPACE) == 0;
      assert TailCount(letter, PY_WHITESPACE) == 0;
    }
  }

  /** A round is its four steps: promotion, trimming, padding and the item fixes. */
  lemma AlignItemsSteps(c: seq<LNode>, src: Node, promoted: seq<LNode>, sized: seq<LNode>, r: seq<LNode>)
    requires IsSourceList(src) && PromoteItems(c, false) == promoted
    requires PadStep(TrimStep(promoted, DesiredCount(src)), DesiredCount(src)) == sized
    requires FixItems(sized, ChildItems(src.children)) == r
    ensures AlignItems(c, src, false) == r
  {
  }

  /** An attribute-free item is left as it is by a letter item of the original. */
  lemma FixLetter(x: LNode, letter: string)
    requires IsItem(x) && x.attrs == map[]
    ensures FixItem(x, Li([Text(letter)])) == x
  {
    NoAttrsCopied(ITEM_ATTRS);
    var sc := [Text(letter)];
    assert |sc| == 1 && !sc[0].Element?;
    assert !NeedsParagraph(Li(sc));
  }

  /** The source items hold no `<p>`, so attribute-free items are left as they are. */
  lemma FixesNothing(x: LNode, y: LNode)
    requires IsItem(x) && x.attrs == map[] && IsItem(y) && y.attrs == map[]
    ensures FixItems([x, y], [Li([Text("p")]), Li([Text("q")])]) == [x, y]
  {
    var p := Li([Text("p")]);
    var q := Li([Text("q")]);
    FixLetter(x, "p");
    FixLetter(y, "q");
    assert FixItems([y], [q]) == [y] by {
      assert [y][1..] == [];
      assert [q][1..] == [];
    }
    assert [x, y][1..] == [y];
    assert [p, q][1..] == [q];
    assert FixItems([x, y], [p, q]) == [FixItem(x, p)] + FixItems([y], [q]);
  }

  lemma DesiredTwo()
    ensures IsSourceList(Original[0]) && DesiredCount(Original[0]) == 2
    ensures ChildItems(Original[0].children) == [Li([Text("p")]), Li([Text("q")])]
  {
    OriginalLists();
  }

  lemma FirstPromotion()
    ensures PromoteItems([AItem, YItem], false) == [EmptyItem, YItem]
  {
    LetterItem("a");
    LetterItem("y");
    PromotedOne(EmptyItem);
    assert Promoted(AItem.children) == [EmptyItem] by {
      assert AItem.children[1..] == [EmptyItem];
    }
    assert PromoteItems([YItem], false) == [YItem] by {
      assert [YItem][1..] == [];
    }
    assert [AItem, YItem][1..] == [YItem];
  }

  lemma SecondPromotion()
    ensures PromoteItems([EmptyItem, YItem], false) == [YItem]
  {
    LetterItem("y");
    assert PromoteItems([YItem], false) == [YItem] by {
      assert [YItem][1..] == [];
    }
    assert [EmptyItem, YItem][1..] == [YItem];
  }

  /** The first round promotes the empty item without testing it, and keeps `<li>y</li>`. */
  lemma FirstRound()
    ensures AlignItems([AItem, YItem], Original[0], false) == [EmptyItem, YItem]
  {
    DesiredTwo();
    FirstPromotion();
    TwoItems(EmptyItem, YItem);
    FixesNothing(EmptyItem, YItem);
    AlignItemsSteps([AItem, YItem], Original[0], [EmptyItem, YItem], [EmptyItem, YItem], [EmptyItem, YItem]);
  }

  /** The second round drops the empty item and pads one at the end. */
  lemma SecondRound()
    ensures AlignItems([EmptyItem, YItem], Original[0], false) == [YItem, EmptyItem]
  {
    DesiredTwo();
    SecondPromotion();
    OnePadded();
    FixesNothing(YItem, EmptyItem);
    AlignItemsSteps([EmptyItem, YItem], Original[0], [YItem], [YItem, EmptyItem], [YItem, EmptyItem]);
  }

  lemma OnePadded()
    ensures TrimStep([YItem], 2) == [YItem]
    ensures PadStep([YItem], 2) == [YItem, EmptyItem]
  {
    assert Items([YItem]) == [YItem] by {
      assert [YItem][1..] == [];
    }
    assert Repeat(NewTag("li"), 1) == [EmptyItem];
    assert [YItem] + [EmptyItem] == [YItem, EmptyItem];
  }

  lemma TwoItems(x: LNode, y: LNode)
    requires IsItem(x) && IsItem(y)
    ensures |Items([x, y])| == 2
    ensures TrimStep([x, y], 2) == [x, y] && PadStep([x, y], 2) == [x, y]
  {
    assert Items([y]) == [y] by {
      assert [y][1..] == [];
    }
    assert Items([x, y]) == [x, y] by {
      assert [x, y][1..] == [y];
    }
  }

  /** An unpaired item whose children the recursion leaves alone is left alone. */
  lemma ItemAligned(x: LNode, origs: seq<Node>)
    requires ListSources(origs) && IsItem(x) && x.pair.None? && AlignForest(x.children, origs, false) == x.children
    ensures AlignNode(x, origs, false) == [x]
  {
  }

  /** The two items are left alone by the recursion below the list. */
  lemma FlatItems(c: seq<LNode>, origs: seq<Node>)
    requires ListSources(origs)
    requires c == [EmptyItem, YItem] || c == [YItem, EmptyItem]
    ensures AlignForest(c, origs, false) == c
  {
    assert AlignForest([], origs, false) == [];
    AlignForestOne(LText("y"), origs, false);
    ItemAligned(EmptyItem, origs);
    ItemAligned(YItem, origs);
    AlignForestOne(c[1], origs, false);
    assert c[1..] == [c[1]];
  }
}
