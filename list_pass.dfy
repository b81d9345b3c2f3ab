/**
 * The whole list pass: drop the surplus lists, then process every remaining
 * list against the original list with the same snapshot index, outer lists
 * before the lists they contain (the snapshot's document order).
 */
module ListPass {
  import opened Wrappers
  import opened Html
  import opened ListLabels
  import opened ListAlignment

  /** The original lists, as `find_all(["ul", "ol"])` returns them. */
  predicate ListSources(origs: seq<Node>) {
    forall i :: 0 <= i < |origs| ==> IsSourceList(origs[i])
  }

  /**
   * The loop over the translated lists, corrected. A list processed here may
   * move or destroy the lists inside it, never another one, so processing
   * each list and then its content yields what processing the snapshot in
   * order does. A list destroyed by an earlier round is skipped here; the
   * code as written raises on it instead (`DecomposedListFinding.NormalizeListsAsWritten`).
   * `hidden` says that `f` lies inside a string container (`Inside`), which
   * decides whether the item strings count as text; a document starts
   * outside one.
   */
  function AlignForest(f: seq<LNode>, origs: seq<Node>, hidden: bool): seq<LNode>
    requires ListSources(origs)
    decreases PairedCount(f), Size(f), 1
  {
    if f == [] then [] else AlignNode(f[0], origs, hidden) + AlignForest(f[1..], origs, hidden)
  }

  function AlignNode(n: LNode, origs: seq<Node>, hidden: bool): seq<LNode>
    requires ListSources(origs)
    decreases PairedCountOf(n), SizeOf(n), 0
  {
    match n
    case LElement(t, a, c, p) =>
      if IsPairedList(n) then
        if p.value < |origs| then
          var r := AlignList(n, origs[p.value], hidden);
          AlignListCount(n, origs[p.value], hidden);
          [LElement(r.tag, r.attrs, AlignForest(r.children, origs, hidden), r.pair)]
        else
          []
      else
        [LElement(t, a, AlignForest(c, origs, Inside(hidden, t)), p)]
    case _ => [n]
  }

  lemma {:induction false} AlignForestCount(f: seq<LNode>, origs: seq<Node>, hidden: bool)
    requires ListSources(origs)
    ensures PairedCount(AlignForest(f, origs, hidden)) <= PairedCount(f)
    decreases PairedCount(f), Size(f), 1
  {
    if f != [] {
      AlignNodeCount(f[0], origs, hidden);
      AlignForestCount(f[1..], origs, hidden);
      PairedCountConcat(AlignNode(f[0], origs, hidden), AlignForest(f[1..], origs, hidden));
    }
  }

  lemma {:induction false} AlignNodeCount(n: LNode, origs: seq<Node>, hidden: bool)
    requires ListSources(origs)
    ensures PairedCount(AlignNode(n, origs, hidden)) <= PairedCountOf(n)
    decreases PairedCountOf(n), SizeOf(n), 0
  {
    match n
    case LElement(t, a, c, p) =>
      if IsPairedList(n) {
        if p.value < |origs| {
          var r := AlignList(n, origs[p.value], hidden);
          AlignListCount(n, origs[p.value], hidden);
          AlignListMatches(n, origs[p.value], hidden);
          AlignForestCount(r.children, origs, hidden);
          var o := LElement(r.tag, r.attrs, AlignForest(r.children, origs, hidden), r.pair);
          assert PairedCount([o]) == PairedCountOf(o) + PairedCount([]);
        }
      } else {
        AlignForestCount(c, origs, Inside(hidden, t));
        var o := LElement(t, a, AlignForest(c, origs, Inside(hidden, t)), p);
        assert PairedCount([o]) == PairedCountOf(o) + PairedCount([]);
      }
    case LText(_) =>
      assert PairedCount([n]) == PairedCountOf(n) + PairedCount([]);
    case LComment(_) =>
      assert PairedCount([n]) == PairedCountOf(n) + PairedCount([]);
  }

  lemma {:induction false} HasParagraphConcat(a: seq<LNode>, b: seq<LNode>)
    requires HasParagraph(a) || HasParagraph(b)
    ensures HasParagraph(a + b)
  {
    if a != [] {
      assert (a + b)[0] == a[0];
      assert (a + b)[1..] == a[1..] + b;
      if !(a[0].LElement? && a[0].tag == "p") {
        HasParagraphConcat(a[1..], b);
      }
    } else {
      assert a + b == b;
    }
  }

  /** Processing the lists below keeps a `<p>` child where there was one. */
  lemma {:induction false} AlignForestParagraph(c: seq<LNode>, origs: seq<Node>, hidden: bool)
    requires ListSources(origs)
    requires HasParagraph(c)
    ensures HasParagraph(AlignForest(c, origs, hidden))
  {
    var h := AlignNode(c[0], origs, hidden);
    if c[0].LElement? && c[0].tag == "p" {
      assert HasParagraph(h);
      HasParagraphConcat(h, AlignForest(c[1..], origs, hidden));
    } else {
      AlignForestParagraph(c[1..], origs, hidden);
      HasParagraphConcat(h, AlignForest(c[1..], origs, hidden));
    }
  }

  /** `after` has the direct items of `before`, with their attributes and their paragraphs. */
  predicate ItemsKept(before: seq<LNode>, after: seq<LNode>) {
    && |Items(after)| == |Items(before)|
    && forall i :: 0 <= i < |Items(before)| ==>
      && Items(after)[i].LElement?
      && Items(after)[i].attrs == Items(before)[i].attrs
      && (HasParagraph(Items(before)[i].children) ==> HasParagraph(Items(after)[i].children))
  }

  lemma ItemsKeptConcat(a1: seq<LNode>, b1: seq<LNode>, a2: seq<LNode>, b2: seq<LNode>)
    requires ItemsKept(a1, b1) && ItemsKept(a2, b2)
    ensures ItemsKept(a1 + a2, b1 + b2)
  {
    ItemsConcat(a1, a2);
    ItemsConcat(b1, b2);
    var ia := Items(a1) + Items(a2);
    var ib := Items(b1) + Items(b2);
    forall i | 0 <= i < |ia|
      ensures ib[i].LElement? && ib[i].attrs == ia[i].attrs
      ensures HasParagraph(ia[i].children) ==> HasParagraph(ib[i].children)
    {
      if i < |Items(a1)| {
        assert ia[i] == Items(a1)[i] && ib[i] == Items(b1)[i];
      } else {
        assert ia[i] == Items(a2)[i - |Items(a1)|] && ib[i] == Items(b2)[i - |Items(a1)|];
      }
    }
  }

  /** Processing the lists below keeps the direct items, their attributes and their paragraphs. */
  lemma {:induction false} AlignForestItems(c: seq<LNode>, origs: seq<Node>, hidden: bool)
    requires ListSources(origs)
    ensures ItemsKept(c, AlignForest(c, origs, hidden))
  {
    if c != [] {
      AlignForestItems(c[1..], origs, hidden);
      AlignNodeItems(c[0], origs, hidden);
      assert c == [c[0]] + c[1..];
      assert AlignForest(c, origs, hidden) == AlignNode(c[0], origs, hidden) + AlignForest(c[1..], origs, hidden);
      ItemsKeptConcat([c[0]], AlignNode(c[0], origs, hidden), c[1..], AlignForest(c[1..], origs, hidden));
    }
  }

  lemma AlignNodeItems(n: LNode, origs: seq<Node>, hidden: bool)
    requires ListSources(origs)
    ensures ItemsKept([n], AlignNode(n, origs, hidden))
  {
    if IsItem(n) {
      AlignItemItems(n, origs, hidden);
    } else {
      AlignOtherItems(n, origs, hidden);
    }
  }

  lemma AlignItemItems(n: LNode, origs: seq<Node>, hidden: bool)
    requires ListSources(origs) && IsItem(n)
    ensures ItemsKept([n], AlignNode(n, origs, hidden))
  {
    ItemsOfOne(n);
    var y := LElement(n.tag, n.attrs, AlignForest(n.children, origs, Inside(hidden, n.tag)), n.pair);
    assert AlignNode(n, origs, hidden) == [y];
    ItemsOfOne(y);
    if HasParagraph(n.children) {
      AlignForestParagraph(n.children, origs, Inside(hidden, n.tag));
    }
  }

  lemma AlignOtherItems(n: LNode, origs: seq<Node>, hidden: bool)
    requires ListSources(origs) && !IsItem(n)
    ensures ItemsKept([n], AlignNode(n, origs, hidden))
  {
    ItemsOfOne(n);
    match n
    case LElement(t, a, ch, p) =>
      if IsPairedList(n) && p.value < |origs| {
        AlignListMatches(n, origs[p.value], hidden);
      }
      var h := AlignNode(n, origs, hidden);
      assert |h| <= 1;
      if h != [] {
        assert !IsItem(h[0]);
        ItemsOfOne(h[0]);
        assert h == [h[0]];
      }
    case LText(_) =>
    case LComment(_) =>
  }

  /** Every paired list below has a matching original, and matches it. */
  predicate Matched(f: seq<LNode>, origs: seq<Node>) {
    forall i :: 0 <= i < |f| ==> MatchedNode(f[i], origs)
  }

  predicate MatchedNode(n: LNode, origs: seq<Node>) {
    n.LElement? ==>
      && (IsPairedList(n) ==> n.pair.value < |origs| && ListMatches(n, origs[n.pair.value]))
      && Matched(n.children, origs)
  }

  lemma MatchedConcat(a: seq<LNode>, b: seq<LNode>, origs: seq<Node>)
    requires Matched(a, origs) && Matched(b, origs)
    ensures Matched(a + b, origs)
  {
    forall i | 0 <= i < |a + b| ensures MatchedNode((a + b)[i], origs) {
      if i >= |a| {
        assert (a + b)[i] == b[i - |a|];
      }
    }
  }

  /** After the pass, every paired list matches the original list with its snapshot index. */
  lemma {:induction false} AlignForestMatched(f: seq<LNode>, origs: seq<Node>, hidden: bool)
    requires ListSources(origs)
    ensures Matched(AlignForest(f, origs, hidden), origs)
    decreases PairedCount(f), Size(f), 1
  {
    if f != [] {
      AlignNodeMatched(f[0], origs, hidden);
      AlignForestMatched(f[1..], origs, hidden);
      MatchedConcat(AlignNode(f[0], origs, hidden), AlignForest(f[1..], origs, hidden), origs);
    }
  }

  lemma {:induction false} AlignNodeMatched(n: LNode, origs: seq<Node>, hidden: bool)
    requires ListSources(origs)
    ensures Matched(AlignNode(n, origs, hidden), origs)
    decreases PairedCountOf(n), SizeOf(n), 0
  {
    match n
    case LElement(t, a, c, p) =>
      if IsPairedList(n) {
        if p.value < |origs| {
          var src := origs[p.value];
          var r := AlignList(n, src, hidden);
          AlignListCount(n, src, hidden);
          AlignListMatches(n, src, hidden);
          AlignForestMatched(r.children, origs, hidden);
          AlignForestItems(r.children, origs, hidden);
          var o := LElement(r.tag, r.attrs, AlignForest(r.children, origs, hidden), r.pair);
          assert AlignNode(n, origs, hidden) == [o];
          var srcs := ChildItems(src.children);
          forall i | 0 <= i < |Items(o.children)| && i < |srcs|
            ensures ItemMatches(Items(o.children)[i], srcs[i])
          {
            assert ItemMatches(Items(r.children)[i], srcs[i]);
          }
          assert ListMatches(o, src);
          assert MatchedNode(o, origs);
        }
      } else {
        AlignForestMatched(c, origs, Inside(hidden, t));
        var o := LElement(t, a, AlignForest(c, origs, Inside(hidden, t)), p);
        assert AlignNode(n, origs, hidden) == [o];
        assert MatchedNode(o, origs);
      }
    case LText(_) =>
    case LComment(_) =>
  }

  /** Every original list and its content uses tags in `allowed`. */
  predicate SourcesIn(origs: seq<Node>, allowed: set<string>) {
    forall i :: 0 <= i < |origs| ==> AllTagsIn([origs[i]], allowed)
  }

  /** The pass introduces only tags of the original lists, and list elements stay exactly the paired ones. */
  lemma {:induction false} AlignForestKeeps(f: seq<LNode>, origs: seq<Node>, allowed: set<string>, hidden: bool)
    requires ListSources(origs) && SourcesIn(origs, allowed)
    ensures TagsIn(f, allowed) ==> TagsIn(AlignForest(f, origs, hidden), allowed)
    ensures WellLabelled(f) ==> WellLabelled(AlignForest(f, origs, hidden))
    decreases PairedCount(f), Size(f), 1
  {
    if f != [] {
      AlignNodeKeeps(f[0], origs, allowed, hidden);
      AlignForestKeeps(f[1..], origs, allowed, hidden);
      KeepsConcat(AlignNode(f[0], origs, hidden), AlignForest(f[1..], origs, hidden), allowed);
      KeepsConcat([f[0]], f[1..], allowed);
      assert f == [f[0]] + f[1..];
    }
  }

  lemma {:induction false} AlignNodeKeeps(n: LNode, origs: seq<Node>, allowed: set<string>, hidden: bool)
    requires ListSources(origs) && SourcesIn(origs, allowed)
    ensures TagsInNode(n, allowed) ==> TagsIn(AlignNode(n, origs, hidden), allowed)
    ensures WellLabelledNode(n) ==> WellLabelled(AlignNode(n, origs, hidden))
    decreases PairedCountOf(n), SizeOf(n), 0
  {
    match n
    case LElement(t, a, c, p) =>
      if IsPairedList(n) {
        if p.value < |origs| {
          var src := origs[p.value];
          var r := AlignList(n, src, hidden);
          AlignListCount(n, src, hidden);
          AlignListMatches(n, src, hidden);
          AlignListKeeps(n, src, allowed, hidden);
          AlignForestKeeps(r.children, origs, allowed, hidden);
          var o := LElement(r.tag, r.attrs, AlignForest(r.children, origs, hidden), r.pair);
          assert AlignNode(n, origs, hidden) == [o];
        }
      } else {
        AlignForestKeeps(c, origs, allowed, Inside(hidden, t));
        var o := LElement(t, a, AlignForest(c, origs, Inside(hidden, t)), p);
        assert AlignNode(n, origs, hidden) == [o];
      }
    case LText(_) =>
    case LComment(_) =>
  }

  // ---------------------------------------------------------------------------
  // `_normalize_lists`
  // ---------------------------------------------------------------------------

  /** Lines 19-26: the translated lists, tagged, with those beyond the original's count decomposed. */
  function AfterDrop(original: seq<Node>, translated: seq<Node>): seq<LNode> {
    var labelled := Label(translated, 0);
    if |Lists(translated)| > |Lists(original)| then DropFrom(labelled, |Lists(original)|) else labelled
  }

  /** The lists left after the drop are the first ones of the snapshot, tagged with their indices. */
  lemma AfterDropPairs(original: seq<Node>, translated: seq<Node>)
    ensures Pairs(AfterDrop(original, translated))
         == Range(0, if |Lists(translated)| < |Lists(original)| then |Lists(translated)| else |Lists(original)|)
    ensures WellLabelled(AfterDrop(original, translated))
  {
    LabelPairs(translated, 0);
    LabelWellLabelled(translated, 0);
    if |Lists(translated)| > |Lists(original)| {
      DropLabelPairs(translated, 0, |Lists(original)|);
      DropWellLabelled(Label(translated, 0), |Lists(original)|);
    }
  }

  /** The whole pass, with each list still carrying its snapshot index. */
  function NormalizeListsTagged(original: seq<Node>, translated: seq<Node>): seq<LNode> {
    ListsAreListElements(original);
    AlignForest(AfterDrop(original, translated), Lists(original), false)
  }

  /** `_normalize_lists(original_soup, translated_soup)`. */
  function NormalizeLists(original: seq<Node>, translated: seq<Node>): seq<Node> {
    Erase(NormalizeListsTagged(original, translated))
  }

  /**
   * Every list of the result is the translated list at some snapshot index
   * `p`, and agrees with the original's p-th list: same tag, same structural
   * attributes, as many direct items as that list has (when it has any), and
   * item by item the same class and style and a paragraph where it has one.
   */
  lemma NormalizeListsMatch(original: seq<Node>, translated: seq<Node>)
    ensures WellLabelled(NormalizeListsTagged(original, translated))
    ensures Matched(NormalizeListsTagged(original, translated), Lists(original))
  {
    ListsAreListElements(original);
    AfterDropPairs(original, translated);
    AlignForestMatched(AfterDrop(original, translated), Lists(original), false);
    var tags := set e | e in Elements(original) :: e.tag;
    OriginalSources(original, tags);
    AlignForestKeeps(AfterDrop(original, translated), Lists(original), tags, false);
  }

  lemma OriginalSources(original: seq<Node>, allowed: set<string>)
    requires AllTagsIn(original, allowed)
    ensures SourcesIn(Lists(original), allowed)
  {
    var origs := Lists(original);
    ListsAreListElements(original);
    forall i | 0 <= i < |origs| ensures AllTagsIn([origs[i]], allowed) {
      assert origs[i] in Lists(original);
      SubtreeElements(original, origs[i]);
      assert Elements([origs[i]]) == ElementsOf(origs[i]) + Elements([]);
    }
  }

  /** The translation ends with no more lists than the original. */
  lemma NormalizeListsCount(original: seq<Node>, translated: seq<Node>)
    ensures |Lists(NormalizeLists(original, translated))| <= |Lists(original)|
  {
    ListsAreListElements(original);
    var kept := AfterDrop(original, translated);
    AfterDropPairs(original, translated);
    PairedCountIsListCount(kept);
    AlignForestCount(kept, Lists(original), false);
    NormalizeListsMatch(original, translated);
    PairedCountIsListCount(NormalizeListsTagged(original, translated));
  }

  /** The pass adds only tags the original uses. */
  lemma NormalizeListsTags(original: seq<Node>, translated: seq<Node>, allowed: set<string>)
    requires AllTagsIn(original, allowed) && AllTagsIn(translated, allowed)
    ensures AllTagsIn(NormalizeLists(original, translated), allowed)
  {
    var origs := Lists(original);
    ListsAreListElements(original);
    OriginalSources(original, allowed);
    LabelTagsIn(translated, 0, allowed);
    if |Lists(translated)| > |origs| {
      DropTagsIn(Label(translated, 0), |origs|, allowed);
    }
    AlignForestKeeps(AfterDrop(original, translated), origs, allowed, false);
    EraseTagsIn(NormalizeListsTagged(original, translated), allowed);
  }
}
