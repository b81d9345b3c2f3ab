/**
 * `_normalize_lists`: every translated `<ul>`/`<ol>` is forced to match the
 * original list at the same snapshot index: its tag, its structural
 * attributes, the number of its direct items, the attributes of each item
 * and the `<p>` wrapping of each item's content.
 */
module ListAlignment {
  import opened Wrappers
  import opened Strings
  import opened Html
  import opened ListLabels

  /** The list attributes copied from the original list. */
  const LIST_ATTRS: seq<string> := ["type", "start", "reversed", "class", "style"]

  /** The item attributes copied from the original item. */
  const ITEM_ATTRS: seq<string> := ["class", "style"]

  predicate IsItem(n: LNode) {
    n.LElement? && n.tag == "li"
  }

  /** `translated_soup.new_tag(name)`: a fresh element with no attributes and no content. */
  function NewTag(name: string): LNode {
    LElement(name, map[], [], None)
  }

  function Repeat(n: LNode, count: nat): (r: seq<LNode>)
    ensures |r| == count
    ensures forall i :: 0 <= i < count ==> r[i] == n
  {
    seq(count, _ => n)
  }

  // ---------------------------------------------------------------------------
  // Attributes
  // ---------------------------------------------------------------------------

  /** For each name: present with the source's value iff the source has it. */
  predicate AttrsAgree(a: Attrs, from: Attrs, names: seq<string>) {
    forall k :: k in names ==> (k in a <==> k in from) && (k in from ==> a[k] == from[k])
  }

  /** One round of the copy loop: take the source's value, or delete the attribute. */
  function CopyAttr(attrs: Attrs, from: Attrs, name: string): Attrs {
    if name in from then attrs[name := from[name]]
    else if name in attrs then attrs - {name}
    else attrs
  }

  /** The copy loop over `names`, in order. */
  function CopyAttrs(attrs: Attrs, from: Attrs, names: seq<string>): (r: Attrs)
    ensures AttrsAgree(r, from, names)
    ensures forall k :: k in r && k !in names ==> k in attrs && r[k] == attrs[k]
    ensures forall k :: k in attrs && k !in names ==> k in r
    decreases |names|
  {
    if names == [] then attrs else CopyAttrs(CopyAttr(attrs, from, names[0]), from, names[1..])
  }

  // ---------------------------------------------------------------------------
  // Direct items and their text
  // ---------------------------------------------------------------------------

  /** `find_all("li", recursive=False)` on a translated element. */
  function Items(c: seq<LNode>): (r: seq<LNode>)
    ensures forall i :: 0 <= i < |r| ==> IsItem(r[i])
  {
    if c == [] then [] else (if IsItem(c[0]) then [c[0]] else []) + Items(c[1..])
  }

  /** The direct children that are not items. */
  function NonItems(c: seq<LNode>): seq<LNode> {
    if c == [] then [] else (if IsItem(c[0]) then [] else [c[0]]) + NonItems(c[1..])
  }

  lemma {:induction false} ItemsConcat(a: seq<LNode>, b: seq<LNode>)
    ensures Items(a + b) == Items(a) + Items(b)
    ensures NonItems(a + b) == NonItems(a) + NonItems(b)
  {
    if a != [] {
      assert (a + b)[0] == a[0];
      assert (a + b)[1..] == a[1..] + b;
      ItemsConcat(a[1..], b);
    } else {
      assert a + b == b;
    }
  }

  /** Some direct child is a `<p>` element. */
  predicate HasParagraph(c: seq<LNode>) {
    c != [] && ((c[0].LElement? && c[0].tag == "p") || HasParagraph(c[1..]))
  }

  /**
   * The elements whose strings `html.parser` gives a string class of their
   * own (script, stylesheet, template and ruby text), which an item's
   * `get_text` skips.
   */
  const STRING_CONTAINERS: set<string> := {"script", "style", "template", "rt", "rp"}

  /**
   * `get_text(strip=True)`: the stripped text strings below, joined;
   * comments and the strings inside a string container do not count.
   */
  function StrippedText(f: seq<LNode>): string {
    if f == [] then [] else StrippedTextOf(f[0]) + StrippedText(f[1..])
  }

  function StrippedTextOf(n: LNode): string {
    match n
    case LElement(t, _, c, _) => if t in STRING_CONTAINERS then [] else StrippedText(c)
    case LText(s) => Strip(s)
    case LComment(_) => []
  }

  /**
   * Whether the strings below an element named `t` have a string container's
   * class, given whether the element itself lies inside one: the parser gives
   * each string the class of the innermost string container open around it,
   * so below any such container no string is a plain one.
   */
  function Inside(hidden: bool, t: string): bool {
    hidden || t in STRING_CONTAINERS
  }

  // ---------------------------------------------------------------------------
  // Promotion of nested items and removal of empty items (lines 48-60)
  // ---------------------------------------------------------------------------

  /** The forest with every `<li>` element cut out, with what it holds. */
  function RemoveItems(f: seq<LNode>): seq<LNode> {
    if f == [] then [] else RemoveItemsOf(f[0]) + RemoveItems(f[1..])
  }

  function RemoveItemsOf(n: LNode): seq<LNode> {
    match n
    case LElement(t, a, c, p) => if t == "li" then [] else [LElement(t, a, RemoveItems(c), p)]
    case _ => [n]
  }

  /**
   * `item.find_all("li")` after each has been moved out in turn: every
   * descendant `<li>` in document order, each without the `<li>`s it held
   * (those were moved out after it).
   */
  function Promoted(f: seq<LNode>): seq<LNode> {
    if f == [] then [] else PromotedOf(f[0]) + Promoted(f[1..])
  }

  function PromotedOf(n: LNode): seq<LNode> {
    match n
    case LElement(t, a, c, p) => (if t == "li" then [LElement(t, a, RemoveItems(c), p)] else []) + Promoted(c)
    case _ => []
  }

  /**
   * What one direct item becomes: its nested items, nothing when it is empty,
   * or itself. `hidden` says that the list lies inside a string container,
   * so that none of the item's strings is plain and `get_text` finds none.
   */
  function PromoteItem(x: LNode, hidden: bool): seq<LNode>
    requires IsItem(x)
  {
    var nested := Promoted(x.children);
    if nested != [] then nested
    else if hidden || StrippedText(x.children) == [] then []
    else [x]
  }

  /** The first loop over the direct items of the list; `hidden` as for `PromoteItem`. */
  function PromoteItems(c: seq<LNode>, hidden: bool): seq<LNode> {
    if c == [] then [] else (if IsItem(c[0]) then PromoteItem(c[0], hidden) else [c[0]]) + PromoteItems(c[1..], hidden)
  }

  lemma {:induction false} PromoteItemsConcat(a: seq<LNode>, b: seq<LNode>, hidden: bool)
    ensures PromoteItems(a + b, hidden) == PromoteItems(a, hidden) + PromoteItems(b, hidden)
  {
    if a != [] {
      assert (a + b)[0] == a[0];
      assert (a + b)[1..] == a[1..] + b;
      PromoteItemsConcat(a[1..], b, hidden);
    } else {
      assert a + b == b;
    }
  }

  /**
   * An item with nested items is replaced, in its own place, by those items;
   * they are not examined for emptiness, and the siblings are untouched.
   */
  lemma PromotionInPlace(before: seq<LNode>, x: LNode, after: seq<LNode>, hidden: bool)
    requires IsItem(x) && Promoted(x.children) != []
    ensures PromoteItems(before + [x] + after, hidden) == PromoteItems(before, hidden) + Promoted(x.children) + PromoteItems(after, hidden)
  {
    PromoteItemsConcat(before + [x], after, hidden);
    PromoteItemsConcat(before, [x], hidden);
    assert PromoteItems([x], hidden) == PromoteItem(x, hidden) + PromoteItems([], hidden);
  }

  /**
   * An item with no nested item and no visible text is dropped; one with
   * text stays, unless the list lies inside a string container, where no
   * item has visible text.
   */
  lemma EmptyItemDropped(x: LNode, hidden: bool)
    requires IsItem(x) && Promoted(x.children) == []
    ensures PromoteItems([x], hidden) == (if hidden || StrippedText(x.children) == [] then [] else [x])
  {
    assert PromoteItems([x], hidden) == PromoteItem(x, hidden) + PromoteItems([], hidden);
  }

  /** An item holding only a script, whatever its code, has no text and is dropped. */
  lemma ScriptOnlyItemDropped(a: Attrs, code: string, p: Option<nat>, hidden: bool)
    ensures PromoteItems([LElement("li", a, [LElement("script", map[], [LText(code)], None)], p)], hidden) == []
  {
    var script := LElement("script", map[], [LText(code)], None);
    var x := LElement("li", a, [script], p);
    assert [script][1..] == [];
    assert Promoted([LText(code)]) == [] by {
      assert [LText(code)][1..] == [];
    }
    assert Promoted(x.children) == [];
    assert StrippedText(x.children) == [];
    EmptyItemDropped(x, hidden);
  }

  // ---------------------------------------------------------------------------
  // Trimming and padding (lines 62-71)
  // ---------------------------------------------------------------------------

  /** Decomposes every direct item after the first `keep`. */
  function TrimItems(c: seq<LNode>, keep: nat): (r: seq<LNode>)
    ensures Items(r) == Items(c)[..if keep < |Items(c)| then keep else |Items(c)|]
    ensures NonItems(r) == NonItems(c)
  {
    if c == [] then []
    else if IsItem(c[0]) then
      if keep > 0 then
        var rest := TrimItems(c[1..], keep - 1);
        TrimKeepsItem(c, keep, rest);
        [c[0]] + rest
      else
        var rest := TrimItems(c[1..], 0);
        TrimDropsItem(c, rest);
        rest
    else
      var rest := TrimItems(c[1..], keep);
      TrimKeepsOther(c, keep, rest);
      [c[0]] + rest
  }

  lemma ItemsOfOne(x: LNode)
    ensures Items([x]) == if IsItem(x) then [x] else []
    ensures NonItems([x]) == if IsItem(x) then [] else [x]
  {
    assert [x][1..] == [];
  }

  lemma TrimKeepsItem(c: seq<LNode>, keep: nat, rest: seq<LNode>)
    requires c != [] && IsItem(c[0]) && keep > 0
    requires Items(rest) == Items(c[1..])[..if keep - 1 < |Items(c[1..])| then keep - 1 else |Items(c[1..])|]
    requires NonItems(rest) == NonItems(c[1..])
    ensures Items([c[0]] + rest) == Items(c)[..if keep < |Items(c)| then keep else |Items(c)|]
    ensures NonItems([c[0]] + rest) == NonItems(c)
  {
    ItemsConcat([c[0]], rest);
    ItemsOfOne(c[0]);
    assert Items(c) == [c[0]] + Items(c[1..]);
  }

  lemma TrimDropsItem(c: seq<LNode>, rest: seq<LNode>)
    requires c != [] && IsItem(c[0])
    requires Items(rest) == Items(c[1..])[..0]
    requires NonItems(rest) == NonItems(c[1..])
    ensures Items(rest) == Items(c)[..0]
    ensures NonItems(rest) == NonItems(c)
  {
  }

  lemma TrimKeepsOther(c: seq<LNode>, keep: nat, rest: seq<LNode>)
    requires c != [] && !IsItem(c[0])
    requires Items(rest) == Items(c[1..])[..if keep < |Items(c[1..])| then keep else |Items(c[1..])|]
    requires NonItems(rest) == NonItems(c[1..])
    ensures Items([c[0]] + rest) == Items(c)[..if keep < |Items(c)| then keep else |Items(c)|]
    ensures NonItems([c[0]] + rest) == NonItems(c)
  {
    ItemsConcat([c[0]], rest);
    ItemsOfOne(c[0]);
    assert Items(c) == Items(c[1..]);
  }


  /** Appends `count` fresh empty items. */
  function PadItems(c: seq<LNode>, count: nat): (r: seq<LNode>)
    ensures |Items(r)| == |Items(c)| + count
    ensures Items(r)[..|Items(c)|] == Items(c)
    ensures NonItems(r) == NonItems(c)
  {
    var r := c + Repeat(NewTag("li"), count);
    ItemsConcat(c, Repeat(NewTag("li"), count));
    AllItems(Repeat(NewTag("li"), count));
    r
  }

  lemma {:induction false} AllItems(c: seq<LNode>)
    requires forall i :: 0 <= i < |c| ==> IsItem(c[i])
    ensures Items(c) == c
    ensures NonItems(c) == []
  {
    if c != [] {
      AllItems(c[1..]);
    }
  }

  // ---------------------------------------------------------------------------
  // Per-item attributes and paragraphs (lines 75-96)
  // ---------------------------------------------------------------------------

  function NodeAttrs(s: Node): Attrs {
    if s.Element? then s.attrs else map[]
  }

  /** The source item has a direct `<p>` child. */
  predicate NeedsParagraph(s: Node) {
    s.Element? && HasChildTag(s.children, "p")
  }

  /** A translated item agrees with its source item. */
  predicate ItemMatches(x: LNode, s: Node) {
    x.LElement? && AttrsAgree(x.attrs, NodeAttrs(s), ITEM_ATTRS) && (NeedsParagraph(s) ==> HasParagraph(x.children))
  }

  /** One round of the item loop. */
  function FixItem(x: LNode, s: Node): (r: LNode)
    requires IsItem(x)
    ensures IsItem(r) && r.pair == x.pair
    ensures ItemMatches(r, s)
    ensures StrippedText(r.children) == StrippedText(x.children)
    ensures NeedsParagraph(s) && !HasParagraph(x.children) ==> r.children == [LElement("p", map[], x.children, None)]
    ensures !(NeedsParagraph(s) && !HasParagraph(x.children)) ==> r.children == x.children
  {
    var attrs := CopyAttrs(x.attrs, NodeAttrs(s), ITEM_ATTRS);
    if NeedsParagraph(s) && !HasParagraph(x.children) then
      var p := LElement("p", map[], x.children, None);
      assert StrippedText([p]) == StrippedText(x.children) + StrippedText([]);
      LElement(x.tag, attrs, [p], x.pair)
    else
      LElement(x.tag, attrs, x.children, x.pair)
  }

  /** The item loop: the i-th direct item is fixed against the i-th source item, if any. */
  function FixItems(c: seq<LNode>, srcs: seq<Node>): seq<LNode> {
    if c == [] then []
    else if IsItem(c[0]) && srcs != [] then [FixItem(c[0], srcs[0])] + FixItems(c[1..], srcs[1..])
    else [c[0]] + FixItems(c[1..], if IsItem(c[0]) then [] else srcs)
  }

  /** Every direct item agrees with the source item at its index, as far as there are source items. */
  predicate ItemsAgree(c: seq<LNode>, srcs: seq<Node>) {
    forall i :: 0 <= i < |Items(c)| && i < |srcs| ==> ItemMatches(Items(c)[i], srcs[i])
  }

  lemma {:induction false} FixItemsSpec(c: seq<LNode>, srcs: seq<Node>)
    ensures |Items(FixItems(c, srcs))| == |Items(c)|
    ensures ItemsAgree(FixItems(c, srcs), srcs)
    ensures NonItems(FixItems(c, srcs)) == NonItems(c)
  {
    if c != [] {
      var r := FixItems(c, srcs);
      if IsItem(c[0]) && srcs != [] {
        var y := FixItem(c[0], srcs[0]);
        FixItemsSpec(c[1..], srcs[1..]);
        ItemsConcat([y], FixItems(c[1..], srcs[1..]));
        assert Items(r) == [y] + Items(FixItems(c[1..], srcs[1..]));
        forall i | 0 <= i < |Items(r)| && i < |srcs| ensures ItemMatches(Items(r)[i], srcs[i]) {
          if i > 0 {
            assert Items(r)[i] == Items(FixItems(c[1..], srcs[1..]))[i - 1];
          }
        }
      } else if IsItem(c[0]) {
        FixItemsSpec(c[1..], []);
        ItemsConcat([c[0]], FixItems(c[1..], []));
        assert srcs == [];
      } else {
        FixItemsSpec(c[1..], srcs);
        ItemsConcat([c[0]], FixItems(c[1..], srcs));
      }
    }
  }

  // ---------------------------------------------------------------------------
  // One list (lines 34-96)
  // ---------------------------------------------------------------------------

  /** A source list: the original lists are elements named `ul` or `ol`. */
  predicate IsSourceList(src: Node) {
    src.Element? && IsListTag(src.tag)
  }

  /** `len(original_list.find_all("li", recursive=False))`. */
  function DesiredCount(src: Node): nat
    requires src.Element?
  {
    |ChildItems(src.children)|
  }

  /** The processing of one translated list against its original, inner lists aside; `hidden` as for `PromoteItem`. */
  function AlignList(n: LNode, src: Node, hidden: bool): LNode
    requires IsPairedList(n) && IsSourceList(src)
  {
    LElement(src.tag, CopyAttrs(n.attrs, src.attrs, LIST_ATTRS), AlignItems(n.children, src, hidden), n.pair)
  }

  /** The list's content after promotion, trimming, padding and the per-item fixes (lines 48-96). */
  function AlignItems(c: seq<LNode>, src: Node, hidden: bool): seq<LNode>
    requires IsSourceList(src)
  {
    var desired := DesiredCount(src);
    FixItems(PadStep(TrimStep(PromoteItems(c, hidden), desired), desired), ChildItems(src.children))
  }

  /** Lines 63-66: a surplus of items is cut to `desired`, unless `desired` is zero. */
  function TrimStep(c: seq<LNode>, desired: nat): seq<LNode> {
    if desired > 0 && |Items(c)| > desired then TrimItems(c, desired) else c
  }

  /** Lines 68-71: a shortfall of items is made up with empty ones, unless `desired` is zero. */
  function PadStep(c: seq<LNode>, desired: nat): seq<LNode> {
    if desired > 0 && |Items(c)| < desired then PadItems(c, desired - |Items(c)|) else c
  }

  /** A translated list agrees with its original list. */
  predicate ListMatches(e: LNode, src: Node) {
    && e.LElement? && src.Element?
    && e.tag == src.tag
    && AttrsAgree(e.attrs, src.attrs, LIST_ATTRS)
    && (DesiredCount(src) > 0 ==> |Items(e.children)| == DesiredCount(src))
    && ItemsAgree(e.children, ChildItems(src.children))
  }

  /** After its own round, a list matches its original in tag, attributes, item count and items. */
  lemma AlignListMatches(n: LNode, src: Node, hidden: bool)
    requires IsPairedList(n) && IsSourceList(src)
    ensures IsPairedList(AlignList(n, src, hidden)) && AlignList(n, src, hidden).pair == n.pair
    ensures ListMatches(AlignList(n, src, hidden), src)
  {
    var desired := DesiredCount(src);
    var promoted := PromoteItems(n.children, hidden);
    var trimmed := TrimStep(promoted, desired);
    var padded := PadStep(trimmed, desired);
    FixItemsSpec(padded, ChildItems(src.children));
    assert AlignList(n, src, hidden).children == FixItems(padded, ChildItems(src.children));
  }

  /** A source list without direct items disables both trimming and padding. */
  lemma AlignListWithoutSourceItems(n: LNode, src: Node, hidden: bool)
    requires IsPairedList(n) && IsSourceList(src) && DesiredCount(src) == 0
    ensures AlignList(n, src, hidden).children == PromoteItems(n.children, hidden)
  {
    FixItemsNoSources(PromoteItems(n.children, hidden));
  }

  lemma {:induction false} FixItemsNoSources(c: seq<LNode>)
    ensures FixItems(c, []) == c
  {
    if c != [] {
      FixItemsNoSources(c[1..]);
    }
  }

  /** Trimming keeps the first items; the other content of the list stays. */
  lemma AlignListTrims(n: LNode, src: Node, hidden: bool)
    requires IsPairedList(n) && IsSourceList(src)
    requires 0 < DesiredCount(src) < |Items(PromoteItems(n.children, hidden))|
    ensures |Items(AlignList(n, src, hidden).children)| == DesiredCount(src)
    ensures NonItems(AlignList(n, src, hidden).children) == NonItems(PromoteItems(n.children, hidden))
  {
    var desired := DesiredCount(src);
    var trimmed := TrimItems(PromoteItems(n.children, hidden), desired);
    assert TrimStep(PromoteItems(n.children, hidden), desired) == trimmed;
    assert PadStep(trimmed, desired) == trimmed;
    FixItemsSpec(trimmed, ChildItems(src.children));
    assert AlignList(n, src, hidden).children == FixItems(trimmed, ChildItems(src.children));
  }

  // ---------------------------------------------------------------------------
  // Counting paired lists through a round
  // ---------------------------------------------------------------------------

  /** Cutting the items out and promoting them splits the paired lists between the two. */
  lemma {:induction false} PromotedPartition(f: seq<LNode>)
    ensures PairedCount(RemoveItems(f)) + PairedCount(Promoted(f)) == PairedCount(f)
  {
    if f != [] {
      PromotedPartition(f[1..]);
      PairedCountConcat(RemoveItemsOf(f[0]), RemoveItems(f[1..]));
      PairedCountConcat(PromotedOf(f[0]), Promoted(f[1..]));
      match f[0]
      case LElement(t, a, c, p) =>
        PromotedPartition(c);
        var x := LElement(t, a, RemoveItems(c), p);
        assert PairedCount([x]) == PairedCountOf(x) + PairedCount([]);
        assert PairedCountOf(x) == (if IsPairedList(x) then 1 else 0) + PairedCount(RemoveItems(c));
        if t == "li" {
          assert !IsPairedList(x) && !IsPairedList(f[0]);
          assert PromotedOf(f[0]) == [x] + Promoted(c);
          PairedCountConcat([x], Promoted(c));
        } else {
          assert PromotedOf(f[0]) == Promoted(c);
          assert RemoveItemsOf(f[0]) == [x];
        }
      case LText(_) =>
      case LComment(_) =>
    }
  }

  lemma {:induction false} PromoteItemsCount(c: seq<LNode>, hidden: bool)
    ensures PairedCount(PromoteItems(c, hidden)) <= PairedCount(c)
  {
    if c != [] {
      PromoteItemsCount(c[1..], hidden);
      var head := if IsItem(c[0]) then PromoteItem(c[0], hidden) else [c[0]];
      PairedCountConcat(head, PromoteItems(c[1..], hidden));
      if IsItem(c[0]) {
        PromotedPartition(c[0].children);
        assert PairedCount([c[0]]) == PairedCountOf(c[0]) + PairedCount([]);
      }
    }
  }

  lemma {:induction false} TrimItemsCount(c: seq<LNode>, keep: nat)
    ensures PairedCount(TrimItems(c, keep)) <= PairedCount(c)
  {
    if c != [] {
      if IsItem(c[0]) && keep > 0 {
        TrimItemsCount(c[1..], keep - 1);
        PairedCountConcat([c[0]], TrimItems(c[1..], keep - 1));
      } else if IsItem(c[0]) {
        TrimItemsCount(c[1..], 0);
      } else {
        TrimItemsCount(c[1..], keep);
        PairedCountConcat([c[0]], TrimItems(c[1..], keep));
      }
      assert PairedCount(c) == PairedCountOf(c[0]) + PairedCount(c[1..]);
      assert PairedCount([c[0]]) == PairedCountOf(c[0]) + PairedCount([]);
    }
  }

  lemma {:induction false} EmptyItemsCount(c: seq<LNode>)
    requires forall i :: 0 <= i < |c| ==> c[i] == NewTag("li")
    ensures PairedCount(c) == 0
  {
    if c != [] {
      EmptyItemsCount(c[1..]);
    }
  }

  lemma {:induction false} FixItemsCount(c: seq<LNode>, srcs: seq<Node>)
    ensures PairedCount(FixItems(c, srcs)) == PairedCount(c)
  {
    if c != [] {
      if IsItem(c[0]) && srcs != [] {
        var y := FixItem(c[0], srcs[0]);
        FixItemsCount(c[1..], srcs[1..]);
        PairedCountConcat([y], FixItems(c[1..], srcs[1..]));
        assert PairedCount([y]) == PairedCountOf(y) + PairedCount([]);
        if NeedsParagraph(srcs[0]) && !HasParagraph(c[0].children) {
          var p := LElement("p", map[], c[0].children, None);
          assert PairedCount([p]) == PairedCountOf(p) + PairedCount([]);
        }
      } else {
        var s := if IsItem(c[0]) then [] else srcs;
        FixItemsCount(c[1..], s);
        PairedCountConcat([c[0]], FixItems(c[1..], s));
      }
      assert PairedCount(c) == PairedCountOf(c[0]) + PairedCount(c[1..]);
      assert PairedCount([c[0]]) == PairedCountOf(c[0]) + PairedCount([]);
    }
  }

  /** A round never adds a paired list below the list it processes. */
  lemma AlignListCount(n: LNode, src: Node, hidden: bool)
    requires IsPairedList(n) && IsSourceList(src)
    ensures PairedCount(AlignList(n, src, hidden).children) <= PairedCount(n.children)
  {
    assert AlignList(n, src, hidden).children == AlignItems(n.children, src, hidden);
    var desired := DesiredCount(src);
    var promoted := PromoteItems(n.children, hidden);
    PromoteItemsCount(n.children, hidden);
    TrimStepCount(promoted, desired);
    var trimmed := TrimStep(promoted, desired);
    PadStepCount(trimmed, desired);
    var padded := PadStep(trimmed, desired);
    FixItemsCount(padded, ChildItems(src.children));
  }

  lemma TrimStepCount(c: seq<LNode>, desired: nat)
    ensures PairedCount(TrimStep(c, desired)) <= PairedCount(c)
  {
    TrimItemsCount(c, desired);
  }

  lemma PadStepCount(c: seq<LNode>, desired: nat)
    ensures PairedCount(PadStep(c, desired)) == PairedCount(c)
  {
    if desired > 0 && |Items(c)| < desired {
      PadItemsCount(c, desired - |Items(c)|);
    }
  }

  lemma PadItemsCount(c: seq<LNode>, count: nat)
    ensures PairedCount(PadItems(c, count)) == PairedCount(c)
  {
    var extra := Repeat(NewTag("li"), count);
    assert PadItems(c, count) == c + extra;
    PairedCountConcat(c, extra);
    EmptyItemsCount(extra);
  }


  // ---------------------------------------------------------------------------
  // What a round keeps: tags drawn from the two documents, and pairing tags on
  // list elements only
  // ---------------------------------------------------------------------------

  lemma SubsetKeeps(a: seq<LNode>, b: seq<LNode>, allowed: set<string>)
    requires forall x :: x in b ==> x in a
    ensures TagsIn(a, allowed) ==> TagsIn(b, allowed)
    ensures WellLabelled(a) ==> WellLabelled(b)
  {
    forall i | 0 <= i < |b| ensures TagsIn(a, allowed) ==> TagsInNode(b[i], allowed) {
      assert b[i] in a;
    }
    forall i | 0 <= i < |b| ensures WellLabelled(a) ==> WellLabelledNode(b[i]) {
      assert b[i] in a;
    }
  }

  lemma {:induction false} PromotedKeeps(f: seq<LNode>, allowed: set<string>)
    ensures TagsIn(f, allowed) ==> TagsIn(RemoveItems(f), allowed) && TagsIn(Promoted(f), allowed)
    ensures WellLabelled(f) ==> WellLabelled(RemoveItems(f)) && WellLabelled(Promoted(f))
  {
    if f != [] {
      PromotedKeeps(f[1..], allowed);
      PromotedOfKeeps(f[0], allowed);
      assert TagsIn(f, allowed) ==> TagsInNode(f[0], allowed);
      assert WellLabelled(f) ==> WellLabelledNode(f[0]);
      KeepsConcat(RemoveItemsOf(f[0]), RemoveItems(f[1..]), allowed);
      KeepsConcat(PromotedOf(f[0]), Promoted(f[1..]), allowed);
      assert TagsIn(f, allowed) ==> TagsIn(f[1..], allowed);
      assert WellLabelled(f) ==> WellLabelled(f[1..]);
    }
  }

  lemma {:induction false} PromotedOfKeeps(n: LNode, allowed: set<string>)
    ensures TagsInNode(n, allowed) ==> TagsIn(RemoveItemsOf(n), allowed) && TagsIn(PromotedOf(n), allowed)
    ensures WellLabelledNode(n) ==> WellLabelled(RemoveItemsOf(n)) && WellLabelled(PromotedOf(n))
  {
    match n
    case LElement(t, a, c, p) =>
      PromotedKeeps(c, allowed);
      var x := LElement(t, a, RemoveItems(c), p);
      assert TagsInNode(n, allowed) ==> TagsInNode(x, allowed);
      assert WellLabelledNode(n) ==> WellLabelledNode(x);
      KeepsConcat(if t == "li" then [x] else [], Promoted(c), allowed);
    case LText(_) =>
    case LComment(_) =>
  }

  lemma {:induction false} PromoteItemsKeeps(c: seq<LNode>, allowed: set<string>, hidden: bool)
    ensures TagsIn(c, allowed) ==> TagsIn(PromoteItems(c, hidden), allowed)
    ensures WellLabelled(c) ==> WellLabelled(PromoteItems(c, hidden))
  {
    if c != [] {
      PromoteItemsKeeps(c[1..], allowed, hidden);
      var head := if IsItem(c[0]) then PromoteItem(c[0], hidden) else [c[0]];
      KeepsConcat(head, PromoteItems(c[1..], hidden), allowed);
      KeepsConcat([c[0]], c[1..], allowed);
      assert c == [c[0]] + c[1..];
      if IsItem(c[0]) {
        PromotedKeeps(c[0].children, allowed);
      }
    }
  }

  lemma {:induction false} TrimItemsSubset(c: seq<LNode>, keep: nat)
    ensures forall x :: x in TrimItems(c, keep) ==> x in c
  {
    if c != [] {
      var k := if IsItem(c[0]) && keep > 0 then keep - 1 else keep;
      var head := if IsItem(c[0]) && keep == 0 then [] else [c[0]];
      var rest := TrimItems(c[1..], k);
      TrimItemsSubset(c[1..], k);
      assert TrimItems(c, keep) == head + rest;
      ConsSubset(c, head, rest);
    }
  }

  lemma ConsSubset(c: seq<LNode>, head: seq<LNode>, rest: seq<LNode>)
    requires c != [] && (head == [] || head == [c[0]])
    requires forall x :: x in rest ==> x in c[1..]
    ensures forall x :: x in head + rest ==> x in c
  {
    forall x | x in head + rest ensures x in c {
      if x in rest {
        var i :| 0 <= i < |c[1..]| && c[1..][i] == x;
        assert c[i + 1] == x;
      }
    }
  }

  lemma PadItemsKeeps(c: seq<LNode>, count: nat, allowed: set<string>)
    requires count > 0 ==> "li" in allowed
    ensures TagsIn(c, allowed) ==> TagsIn(PadItems(c, count), allowed)
    ensures WellLabelled(c) ==> WellLabelled(PadItems(c, count))
  {
    var extra := Repeat(NewTag("li"), count);
    assert PadItems(c, count) == c + extra;
    assert WellLabelledNode(NewTag("li"));
  }

  /** Wherever a source item asks for a paragraph, `p` is allowed. */
  predicate ParagraphsAllowed(srcs: seq<Node>, allowed: set<string>) {
    forall j :: 0 <= j < |srcs| && NeedsParagraph(srcs[j]) ==> "p" in allowed
  }

  lemma {:induction false} FixItemsKeeps(c: seq<LNode>, srcs: seq<Node>, allowed: set<string>)
    requires ParagraphsAllowed(srcs, allowed)
    ensures TagsIn(c, allowed) ==> TagsIn(FixItems(c, srcs), allowed)
    ensures WellLabelled(c) ==> WellLabelled(FixItems(c, srcs))
  {
    if c != [] {
      if IsItem(c[0]) && srcs != [] {
        FixItemsKeeps(c[1..], srcs[1..], allowed);
        var y := FixItem(c[0], srcs[0]);
        if NeedsParagraph(srcs[0]) && !HasParagraph(c[0].children) {
          var p := LElement("p", map[], c[0].children, None);
          assert y.children == [p];
          assert TagsInNode(c[0], allowed) ==> TagsInNode(p, allowed);
          assert WellLabelledNode(c[0]) ==> WellLabelledNode(p);
        }
        assert TagsInNode(c[0], allowed) ==> TagsInNode(y, allowed);
        assert WellLabelledNode(c[0]) ==> WellLabelledNode(y);
      } else {
        FixItemsKeeps(c[1..], if IsItem(c[0]) then [] else srcs, allowed);
      }
    }
  }

  /** Every element a round leaves in a list carries a tag of the translation or of the original list. */
  lemma TrimStepKeeps(c: seq<LNode>, desired: nat, allowed: set<string>)
    ensures TagsIn(c, allowed) ==> TagsIn(TrimStep(c, desired), allowed)
    ensures WellLabelled(c) ==> WellLabelled(TrimStep(c, desired))
  {
    TrimItemsSubset(c, desired);
    SubsetKeeps(c, TrimStep(c, desired), allowed);
  }

  lemma PadStepKeeps(c: seq<LNode>, desired: nat, allowed: set<string>)
    requires desired > 0 ==> "li" in allowed
    ensures TagsIn(c, allowed) ==> TagsIn(PadStep(c, desired), allowed)
    ensures WellLabelled(c) ==> WellLabelled(PadStep(c, desired))
  {
    if desired > 0 && |Items(c)| < desired {
      PadItemsKeeps(c, desired - |Items(c)|, allowed);
    }
  }

  lemma AlignListKeeps(n: LNode, src: Node, allowed: set<string>, hidden: bool)
    requires IsPairedList(n) && IsSourceList(src)
    requires AllTagsIn([src], allowed)
    ensures TagsInNode(n, allowed) ==> TagsInNode(AlignList(n, src, hidden), allowed)
    ensures WellLabelledNode(n) ==> WellLabelledNode(AlignList(n, src, hidden))
  {
    var desired := DesiredCount(src);
    var srcs := ChildItems(src.children);
    assert Elements([src]) == [src] + Elements(src.children);
    ChildItemsAreChildren(src.children);
    if desired > 0 {
      var x := srcs[0];
      assert x in src.children;
      ElementChildrenAreElements([src], src, x);
    }
    forall j | 0 <= j < |srcs| && NeedsParagraph(srcs[j]) ensures "p" in allowed {
      var x := srcs[j];
      assert x in src.children;
      ElementChildrenAreElements([src], src, x);
      var i :| 0 <= i < |x.children| && x.children[i].Element? && x.children[i].tag == "p";
      ElementChildrenAreElements([src], x, x.children[i]);
    }
    var promoted := PromoteItems(n.children, hidden);
    PromoteItemsKeeps(n.children, allowed, hidden);
    var trimmed := TrimStep(promoted, desired);
    TrimStepKeeps(promoted, desired, allowed);
    var padded := PadStep(trimmed, desired);
    PadStepKeeps(trimmed, desired, allowed);
    FixItemsKeeps(padded, srcs, allowed);
    assert AlignList(n, src, hidden).children == FixItems(padded, srcs);
  }
}
