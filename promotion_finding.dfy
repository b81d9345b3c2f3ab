/**
 * Line 54 of `blog/translation_cleanup.py` finds the position to insert a
 * promoted item with `translated_list.contents.index(item)`. Python's
 * `list.index` compares with `==`, and the HTML library compares elements by
 * name, attributes and contents, not by identity. Once the item's nested
 * entries have been moved out, it can equal an earlier sibling, and the next
 * promoted entry is inserted before that sibling instead.
 */
module PromotionFinding {
  import opened Wrappers
  import opened Strings
  import opened ListLabels
  import opened ListAlignment

  /**
   * What the HTML library's `==` compares: an element's name, attributes
   * and children, and a string's characters, whatever kind of string it is.
   * The pairing labels are not part of the markup.
   */
  function Markup(f: seq<LNode>): (r: seq<LNode>)
    ensures |r| == |f|
  {
    if f == [] then [] else [MarkupNode(f[0])] + Markup(f[1..])
  }

  function MarkupNode(n: LNode): LNode {
    match n
    case LElement(t, a, c, _) => LElement(t, a, Markup(c), None)
    case LText(s) => LText(s)
    case LComment(s) => LText(s)
  }

  predicate SameMarkup(a: LNode, b: LNode) {
    MarkupNode(a) == MarkupNode(b)
  }

  /** Two lists that differ only in their pairing labels are equal markup, and so are a string and a comment of the same characters. */
  lemma SameMarkupIgnoresLabels(t: string, a: map<string, string>, c: seq<LNode>, p: Option<nat>, q: Option<nat>, s: string)
    ensures SameMarkup(LElement(t, a, c, p), LElement(t, a, c, q))
    ensures SameMarkup(LText(s), LComment(s))
    ensures !SameMarkup(LText(s), LElement(t, a, c, p))
  {
  }

  /** `contents.index(x)`: the first position holding markup equal to `x` (`|contents|` when none does). */
  function StructuralIndex(contents: seq<LNode>, x: LNode): (i: nat)
    ensures i <= |contents|
    ensures i < |contents| ==> SameMarkup(contents[i], x)
    ensures forall j :: 0 <= j < i ==> !SameMarkup(contents[j], x)
  {
    if contents == [] then 0 else if SameMarkup(contents[0], x) then 0 else 1 + StructuralIndex(contents[1..], x)
  }

  /**
   * The list's contents during the promotion loop, with the position of the
   * item being processed: the item is known by identity, whatever it has
   * come to equal.
   */
  datatype Promotion = Promotion(contents: seq<LNode>, at: nat)

  predicate ValidPromotion(s: Promotion) {
    s.at < |s.contents|
  }

  /** Where line 54 inserts: `contents.index(item)`, taken before the entry moves. */
  function InsertPosition(s: Promotion): (i: nat)
    requires ValidPromotion(s)
    ensures i <= s.at
  {
    StructuralIndex(s.contents, s.contents[s.at])
  }

  /** `n` without its `k`-th child. */
  function WithoutChild(n: LNode, k: nat): LNode
    requires n.LElement? && k < |n.children|
  {
    n.(children := n.children[..k] + n.children[k + 1..])
  }

  /**
   * One step of the loop as written, for a nested entry that is child `k`
   * of entry `e` of the list: `insert` first detaches the entry from its
   * parent, then puts it at the position `index` reported; the item moves
   * one place on when the entry lands before it.
   */
  function InsertAsWritten(s: Promotion, e: nat, k: nat): (r: Promotion)
    requires ValidPromotion(s) && e < |s.contents| && s.contents[e].LElement? && k < |s.contents[e].children|
    ensures ValidPromotion(r) && r.at == s.at + 1
    ensures |r.contents| == |s.contents| + 1
    ensures r.contents[InsertPosition(s)] == s.contents[e].children[k]
  {
    var nested := s.contents[e].children[k];
    var i := InsertPosition(s);
    var moved := s.contents[e := WithoutChild(s.contents[e], k)];
    Promotion(moved[..i] + [nested] + moved[i..], s.at + 1)
  }

  /** Line 55: `item.decompose()` removes the item itself, wherever it stands. */
  function RemoveItem(s: Promotion): (r: seq<LNode>)
    requires ValidPromotion(s)
    ensures |r| + 1 == |s.contents|
  {
    s.contents[..s.at] + s.contents[s.at + 1..]
  }

  /**
   * Whenever a sibling before the item equals it, the entry as written is
   * put at or before that sibling, not directly before the item.
   */
  lemma InsertMissesItem(s: Promotion, j: nat, e: nat, k: nat)
    requires ValidPromotion(s) && j < s.at && SameMarkup(s.contents[j], s.contents[s.at])
    requires e < |s.contents| && s.contents[e].LElement? && k < |s.contents[e].children|
    ensures InsertPosition(s) <= j < s.at
    ensures InsertAsWritten(s, e, k).contents[InsertPosition(s)] == s.contents[e].children[k]
  {
  }

  function Item(children: seq<LNode>): LNode {
    LElement("li", map[], children, None)
  }

  /** `<li>t<ol></ol></li>`, its empty list carrying the label `k`. */
  function ItemWithList(k: nat): LNode {
    Item([LText("t"), LElement("ol", map[], [], Some(k))])
  }

  /**
   * Items holding lists of different labels are still equal markup: once
   * `<li>b</li>` has left `<li>t<ol></ol><li>b</li></li>`, the index finds
   * the earlier `<li>t<ol></ol></li>` rather than the item itself.
   */
  lemma LabelsDoNotSeparateItems(i: nat, j: nat)
    ensures StructuralIndex([ItemWithList(i), ItemWithList(j)], ItemWithList(j)) == 0
  {
    SameMarkupIgnoresLabels("ol", map[], [], Some(i), Some(j), "");
    assert Markup([LText("t"), LElement("ol", map[], [], Some(i))]) == Markup([LText("t"), LElement("ol", map[], [], Some(j))]) by {
      assert [LText("t"), LElement("ol", map[], [], Some(i))][1..] == [LElement("ol", map[], [], Some(i))];
      assert [LText("t"), LElement("ol", map[], [], Some(j))][1..] == [LElement("ol", map[], [], Some(j))];
    }
  }

  /** `<li>a</li>`, which is also what the second item is once its nested entries are gone. */
  const First: LNode := Item([LText("a")])
  /** `<li>c</li>`. */
  const Third: LNode := Item([LText("c")])
  /** `<li>b<li>c</li></li>` before `Third` is moved out, and `<li>b</li>` after. */
  const SecondFull: LNode := Item([LText("b"), Third])
  const SecondBare: LNode := Item([LText("b")])
  /** `<li>a<li>b<li>c</li></li></li>`. */
  const Outer: LNode := Item([LText("a"), SecondFull])

  /**
   * On `<ul><li>a</li><li>a<li>b<li>c</li></li></li></ul>` the code as written
   * ends with the items c, a, b: `<li>b<li>c</li></li>` goes directly before
   * the item, which, emptied, then equals `<li>a</li>` at position 0, where
   * `<li>c</li>` lands; the item itself is removed last. The corrected
   * promotion keeps document order a, b, c.
   */
  lemma StructuralIndexReordersItems()
    ensures InsertAsWritten(Promotion([First, Outer], 1), 1, 1) == Promotion([First, SecondFull, First], 2)
    ensures InsertAsWritten(Promotion([First, SecondFull, First], 2), 1, 1) == Promotion([Third, First, SecondBare, First], 3)
    ensures RemoveItem(Promotion([Third, First, SecondBare, First], 3)) == [Third, First, SecondBare]
    ensures PromoteItems([First, Outer], false) == [First, SecondBare, Third]
  {
    FirstInsertion();
    SecondInsertion();
    assert [Third, First, SecondBare, First][..3] == [Third, First, SecondBare];
    CorrectedOrder();
  }

  /** The first nested entry goes directly before the item, which is left as `<li>a</li>`. */
  lemma FirstInsertion()
    ensures InsertAsWritten(Promotion([First, Outer], 1), 1, 1) == Promotion([First, SecondFull, First], 2)
  {
    var s := Promotion([First, Outer], 1);
    assert InsertPosition(s) == 1 by {
      assert [First, Outer][0] != Outer;
      assert [First, Outer][1..] == [Outer];
    }
    assert WithoutChild(Outer, 1) == First;
  }

  /** The emptied item equals the first one, so the next entry lands at position 0. */
  lemma SecondInsertion()
    ensures InsertAsWritten(Promotion([First, SecondFull, First], 2), 1, 1) == Promotion([Third, First, SecondBare, First], 3)
  {
    var s := Promotion([First, SecondFull, First], 2);
    assert InsertPosition(s) == 0 by {
      assert s.contents[0] == s.contents[2];
    }
    assert WithoutChild(SecondFull, 1) == SecondBare;
  }

  /** The corrected promotion keeps document order. */
  lemma CorrectedOrder()
    ensures PromoteItems([First, Outer], false) == [First, SecondBare, Third]
  {
    assert PromoteItems([First], false) == [First] by {
      SimpleItem("a");
      assert [First][1..] == [];
    }
    NestedPromotion();
    assert [First, Outer] == [First] + [Outer] + [];
    PromotionInPlace([First], Outer, [], false);
  }

  /** An item holding one non-blank letter and nothing else is kept as it is. */
  lemma SimpleItem(letter: string)
    requires letter == "a" || letter == "b" || letter == "c"
    ensures Promoted([LText(letter)]) == []
    ensures RemoveItems([LText(letter)]) == [LText(letter)]
    ensures StrippedText([LText(letter)]) == letter
  {
    assert [LText(letter)][1..] == [];
    assert Strip(letter) == letter by {
      assert LeadCount(letter, PY_WHITESPACE) == 0;
      assert TailCount(letter, PY_WHITESPACE) == 0;
    }
  }

  /** `<li>a<li>b<li>c</li></li></li>` gives up `<li>b</li>` and then `<li>c</li>`. */
  lemma NestedPromotion()
    ensures Promoted(Outer.children) == [SecondBare, Third]
  {
    SimpleItem("c");
    assert PromotedOf(Third) == [Third];
    assert Promoted([Third]) == [Third] by {
      assert [Third][1..] == [];
    }
    assert Promoted([LText("b"), Third]) == [Third] by {
      assert [LText("b"), Third][1..] == [Third];
    }
    assert RemoveItems([LText("b"), Third]) == [LText("b")] by {
      assert [LText("b"), Third][1..] == [Third];
      assert RemoveItems([Third]) == [] by {
        assert [Third][1..] == [];
      }
    }
    assert PromotedOf(SecondFull) == [SecondBare, Third];
    assert Promoted([SecondFull]) == [SecondBare, Third] by {
      assert [SecondFull][1..] == [];
    }
    assert Outer.children[1..] == [SecondFull];
  }
}
