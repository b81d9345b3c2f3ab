/**
 * The markup tree with each translated list tagged by its position in the
 * snapshot `find_all(["ul", "ol"])` that the list pass pairs against the
 * original's lists. The tag travels with the element when later steps move
 * it, so it plays the part of the element's identity.
 */
module ListLabels {
  import opened Wrappers
  import opened Html

  datatype LNode =
    | LElement(tag: string, attrs: Attrs, children: seq<LNode>, pair: Option<nat>)
    | LText(text: string)
    | LComment(text: string)

  /** `next, next + 1, ..., next + n - 1`. */
  function Range(next: nat, n: nat): (r: seq<nat>)
    ensures |r| == n
    decreases n
  {
    if n == 0 then [] else [next] + Range(next + 1, n - 1)
  }

  lemma {:induction false} RangeConcat(next: nat, a: nat, b: nat)
    ensures Range(next, a) + Range(next + a, b) == Range(next, a + b)
    decreases a
  {
    if a > 0 {
      RangeConcat(next + 1, a - 1, b);
    }
  }

  /** An element the list pass treats as a paired list. */
  predicate IsPairedList(n: LNode) {
    n.LElement? && IsListTag(n.tag) && n.pair.Some?
  }

  /** Forgets the pairing tags. */
  function Erase(f: seq<LNode>): (r: seq<Node>)
    ensures |r| == |f|
  {
    if f == [] then [] else [EraseNode(f[0])] + Erase(f[1..])
  }

  function EraseNode(n: LNode): Node {
    match n
    case LElement(t, a, c, _) => Element(t, a, Erase(c))
    case LText(s) => Text(s)
    case LComment(s) => Comment(s)
  }

  lemma {:induction false} EraseConcat(a: seq<LNode>, b: seq<LNode>)
    ensures Erase(a + b) == Erase(a) + Erase(b)
  {
    if a != [] {
      assert (a + b)[0] == a[0];
      assert (a + b)[1..] == a[1..] + b;
      EraseConcat(a[1..], b);
    } else {
      assert a + b == b;
    }
  }

  /** Tags every list of `f` with its document-order index among the lists, counting from `next`. */
  function Label(f: seq<Node>, next: nat): seq<LNode> {
    if f == [] then [] else LabelNode(f[0], next) + Label(f[1..], next + |ListsOf(f[0])|)
  }

  function LabelNode(n: Node, next: nat): seq<LNode> {
    match n
    case Element(t, a, c) =>
      if IsListTag(t) then [LElement(t, a, Label(c, next + 1), Some(next))]
      else [LElement(t, a, Label(c, next), None)]
    case Text(s) => [LText(s)]
    case Comment(s) => [LComment(s)]
  }

  /** The pairing tags of a forest, in document order. */
  function Pairs(f: seq<LNode>): seq<nat> {
    if f == [] then [] else PairsOf(f[0]) + Pairs(f[1..])
  }

  function PairsOf(n: LNode): seq<nat> {
    match n
    case LElement(_, _, c, p) => (if p.Some? then [p.value] else []) + Pairs(c)
    case _ => []
  }

  /** The tagged elements of a forest without their tags, in document order. */
  function PairedElements(f: seq<LNode>): seq<Node> {
    if f == [] then [] else PairedElementsOf(f[0]) + PairedElements(f[1..])
  }

  function PairedElementsOf(n: LNode): seq<Node> {
    match n
    case LElement(_, _, c, p) => (if p.Some? then [EraseNode(n)] else []) + PairedElements(c)
    case _ => []
  }

  lemma {:induction false} PairsConcat(a: seq<LNode>, b: seq<LNode>)
    ensures Pairs(a + b) == Pairs(a) + Pairs(b)
    ensures PairedElements(a + b) == PairedElements(a) + PairedElements(b)
  {
    if a != [] {
      assert (a + b)[0] == a[0];
      assert (a + b)[1..] == a[1..] + b;
      PairsConcat(a[1..], b);
    } else {
      assert a + b == b;
    }
  }

  /** Labelling loses nothing: erasing the tags gives back the forest. */
  lemma {:induction false} EraseLabel(f: seq<Node>, next: nat)
    ensures Erase(Label(f, next)) == f
  {
    if f != [] {
      var m := |ListsOf(f[0])|;
      EraseConcat(LabelNode(f[0], next), Label(f[1..], next + m));
      EraseLabel(f[1..], next + m);
      match f[0]
      case Element(t, a, c) =>
        if IsListTag(t) {
          EraseLabel(c, next + 1);
        } else {
          EraseLabel(c, next);
        }
      case Text(_) =>
      case Comment(_) =>
    }
  }

  /**
   * The tags are the snapshot indices: the lists in document order carry
   * `next, next + 1, ...`, and the one carrying `next + i` is the i-th list.
   */
  lemma {:induction false} LabelPairs(f: seq<Node>, next: nat)
    ensures Pairs(Label(f, next)) == Range(next, |Lists(f)|)
    ensures PairedElements(Label(f, next)) == Lists(f)
  {
    if f != [] {
      var m := |ListsOf(f[0])|;
      var head := LabelNode(f[0], next);
      var tail := Label(f[1..], next + m);
      assert Label(f, next) == head + tail;
      PairsConcat(head, tail);
      LabelPairs(f[1..], next + m);
      LabelNodePairs(f[0], next);
      assert Lists(f) == ListsOf(f[0]) + Lists(f[1..]);
      RangeConcat(next, m, |Lists(f[1..])|);
    }
  }

  lemma {:induction false} LabelNodePairs(n: Node, next: nat)
    ensures Pairs(LabelNode(n, next)) == Range(next, |ListsOf(n)|)
    ensures PairedElements(LabelNode(n, next)) == ListsOf(n)
  {
    match n
    case Element(t, a, c) =>
      if IsListTag(t) {
        LabelPairs(c, next + 1);
        EraseLabel(c, next + 1);
        var x := LElement(t, a, Label(c, next + 1), Some(next));
        assert LabelNode(n, next) == [x];
        assert Pairs([x]) == [next] + Pairs(Label(c, next + 1));
        assert PairedElements([x]) == [EraseNode(x)] + PairedElements(Label(c, next + 1));
        assert EraseNode(x) == n;
        assert ListsOf(n) == [n] + Lists(c);
      } else {
        LabelPairs(c, next);
        var x := LElement(t, a, Label(c, next), None);
        assert LabelNode(n, next) == [x];
        assert Pairs([x]) == Pairs(Label(c, next));
        assert PairedElements([x]) == PairedElements(Label(c, next));
        assert ListsOf(n) == Lists(c);
      }
    case Text(_) =>
    case Comment(_) =>
  }

  /**
   * The first step of `_normalize_lists`: decompose every list whose
   * snapshot index is `k` or more, together with its content.
   */
  function DropFrom(f: seq<LNode>, k: nat): seq<LNode> {
    if f == [] then [] else DropNode(f[0], k) + DropFrom(f[1..], k)
  }

  function DropNode(n: LNode, k: nat): seq<LNode> {
    match n
    case LElement(t, a, c, p) =>
      if p.Some? && p.value >= k then [] else [LElement(t, a, DropFrom(c, k), p)]
    case _ => [n]
  }

  lemma {:induction false} DropConcat(a: seq<LNode>, b: seq<LNode>, k: nat)
    ensures DropFrom(a + b, k) == DropFrom(a, k) + DropFrom(b, k)
  {
    if a != [] {
      assert (a + b)[0] == a[0];
      assert (a + b)[1..] == a[1..] + b;
      DropConcat(a[1..], b, k);
    } else {
      assert a + b == b;
    }
  }

  /** How many of `len` indices counted from `next` lie below `k`. */
  function Clip(len: nat, next: nat, k: nat): nat {
    if k <= next then 0 else if len < k - next then len else k - next
  }

  lemma RangeClipConcat(next: nat, m: nat, rest: nat, k: nat)
    ensures Range(next, Clip(m, next, k)) + Range(next + m, Clip(rest, next + m, k))
         == Range(next, Clip(m + rest, next, k))
  {
    if Clip(m, next, k) == m {
      RangeConcat(next, m, Clip(rest, next + m, k));
    }
  }

  /** After the drop, the surviving lists are exactly the first `k` of the snapshot, in order. */
  lemma {:induction false} DropLabelPairs(f: seq<Node>, next: nat, k: nat)
    ensures Pairs(DropFrom(Label(f, next), k)) == Range(next, Clip(|Lists(f)|, next, k))
  {
    if f != [] {
      var m := |ListsOf(f[0])|;
      var head := DropFrom(LabelNode(f[0], next), k);
      var tail := DropFrom(Label(f[1..], next + m), k);
      assert Label(f, next) == LabelNode(f[0], next) + Label(f[1..], next + m);
      DropConcat(LabelNode(f[0], next), Label(f[1..], next + m), k);
      assert DropFrom(Label(f, next), k) == head + tail;
      PairsConcat(head, tail);
      DropLabelPairs(f[1..], next + m, k);
      DropLabelNodePairs(f[0], next, k);
      assert |Lists(f)| == m + |Lists(f[1..])|;
      RangeClipConcat(next, m, |Lists(f[1..])|, k);
    }
  }

  lemma {:induction false} DropLabelNodePairs(n: Node, next: nat, k: nat)
    ensures Pairs(DropFrom(LabelNode(n, next), k)) == Range(next, Clip(|ListsOf(n)|, next, k))
  {
    match n
    case Element(t, a, c) =>
      if IsListTag(t) {
        var x := LElement(t, a, Label(c, next + 1), Some(next));
        assert LabelNode(n, next) == [x];
        assert DropFrom([x], k) == DropNode(x, k) + DropFrom([], k);
        if next < k {
          DropLabelPairs(c, next + 1, k);
          var y := LElement(t, a, DropFrom(Label(c, next + 1), k), Some(next));
          assert DropFrom([x], k) == [y];
          assert Pairs([y]) == [next] + Pairs(DropFrom(Label(c, next + 1), k));
          var c1 := Clip(|Lists(c)|, next + 1, k);
          assert [next] + Range(next + 1, c1) == Range(next, 1 + c1);
        }
      } else {
        DropLabelPairs(c, next, k);
        var x := LElement(t, a, Label(c, next), None);
        var y := LElement(t, a, DropFrom(Label(c, next), k), None);
        assert DropFrom([x], k) == DropNode(x, k) + DropFrom([], k);
        assert DropFrom([x], k) == [y];
        assert Pairs([y]) == Pairs(DropFrom(Label(c, next), k));
      }
    case Text(s) =>
      assert DropFrom([LText(s)], k) == [LText(s)];
    case Comment(s) =>
      assert DropFrom([LComment(s)], k) == [LComment(s)];
  }

  /** Only list elements carry a pairing tag, and every list element carries one. */
  predicate WellLabelled(f: seq<LNode>) {
    forall i :: 0 <= i < |f| ==> WellLabelledNode(f[i])
  }

  predicate WellLabelledNode(n: LNode) {
    n.LElement? ==> (IsListTag(n.tag) <==> n.pair.Some?) && WellLabelled(n.children)
  }

  lemma {:induction false} LabelWellLabelled(f: seq<Node>, next: nat)
    ensures WellLabelled(Label(f, next))
  {
    if f != [] {
      var m := |ListsOf(f[0])|;
      LabelWellLabelled(f[1..], next + m);
      match f[0]
      case Element(t, a, c) =>
        if IsListTag(t) {
          LabelWellLabelled(c, next + 1);
        } else {
          LabelWellLabelled(c, next);
        }
      case Text(_) =>
      case Comment(_) =>
    }
  }

  lemma {:induction false} DropWellLabelled(f: seq<LNode>, k: nat)
    requires WellLabelled(f)
    ensures WellLabelled(DropFrom(f, k))
  {
    if f != [] {
      DropWellLabelled(f[1..], k);
      match f[0]
      case LElement(t, a, c, p) =>
        DropWellLabelled(c, k);
      case LText(_) =>
      case LComment(_) =>
    }
  }

  /** The number of paired lists in a forest. */
  function PairedCount(f: seq<LNode>): nat {
    if f == [] then 0 else PairedCountOf(f[0]) + PairedCount(f[1..])
  }

  function PairedCountOf(n: LNode): nat {
    match n
    case LElement(_, _, c, _) => (if IsPairedList(n) then 1 else 0) + PairedCount(c)
    case _ => 0
  }

  lemma {:induction false} PairedCountConcat(a: seq<LNode>, b: seq<LNode>)
    ensures PairedCount(a + b) == PairedCount(a) + PairedCount(b)
  {
    if a != [] {
      assert (a + b)[0] == a[0];
      assert (a + b)[1..] == a[1..] + b;
      PairedCountConcat(a[1..], b);
    } else {
      assert a + b == b;
    }
  }

  /** In a well-tagged forest, the paired lists are all the lists there are, one per tag. */
  lemma {:induction false} PairedCountIsListCount(f: seq<LNode>)
    requires WellLabelled(f)
    ensures PairedCount(f) == |Lists(Erase(f))|
    ensures PairedCount(f) == |Pairs(f)|
  {
    if f != [] {
      PairedCountIsListCount(f[1..]);
      assert Erase(f) == [EraseNode(f[0])] + Erase(f[1..]);
      ListsConcat([EraseNode(f[0])], Erase(f[1..]));
      match f[0]
      case LElement(t, a, c, p) =>
        PairedCountIsListCount(c);
      case LText(_) =>
      case LComment(_) =>
    }
  }

  /** A forest size, for termination of the list pass. */
  function Size(f: seq<LNode>): nat {
    if f == [] then 0 else SizeOf(f[0]) + Size(f[1..])
  }

  function SizeOf(n: LNode): nat {
    match n
    case LElement(_, _, c, _) => 1 + Size(c)
    case _ => 1
  }

  /** Every element of the forest carries a tag in `allowed`. */
  predicate TagsIn(f: seq<LNode>, allowed: set<string>) {
    forall i :: 0 <= i < |f| ==> TagsInNode(f[i], allowed)
  }

  predicate TagsInNode(n: LNode, allowed: set<string>) {
    n.LElement? ==> n.tag in allowed && TagsIn(n.children, allowed)
  }

  lemma KeepsConcat(a: seq<LNode>, b: seq<LNode>, allowed: set<string>)
    ensures TagsIn(a + b, allowed) <==> TagsIn(a, allowed) && TagsIn(b, allowed)
    ensures WellLabelled(a + b) <==> WellLabelled(a) && WellLabelled(b)
  {
    if TagsIn(a, allowed) && TagsIn(b, allowed) {
      forall i | 0 <= i < |a + b| ensures TagsInNode((a + b)[i], allowed) {
        if i >= |a| {
          assert (a + b)[i] == b[i - |a|];
        }
      }
    }
    if TagsIn(a + b, allowed) {
      forall i | 0 <= i < |a| ensures TagsInNode(a[i], allowed) {
        assert (a + b)[i] == a[i];
      }
      forall i | 0 <= i < |b| ensures TagsInNode(b[i], allowed) {
        assert (a + b)[i + |a|] == b[i];
      }
    }
    if WellLabelled(a) && WellLabelled(b) {
      forall i | 0 <= i < |a + b| ensures WellLabelledNode((a + b)[i]) {
        if i >= |a| {
          assert (a + b)[i] == b[i - |a|];
        }
      }
    }
    if WellLabelled(a + b) {
      forall i | 0 <= i < |a| ensures WellLabelledNode(a[i]) {
        assert (a + b)[i] == a[i];
      }
      forall i | 0 <= i < |b| ensures WellLabelledNode(b[i]) {
        assert (a + b)[i + |a|] == b[i];
      }
    }
  }

  lemma {:induction false} LabelTagsIn(f: seq<Node>, next: nat, allowed: set<string>)
    requires AllTagsIn(f, allowed)
    ensures TagsIn(Label(f, next), allowed)
  {
    if f != [] {
      ElementsConcat([f[0]], f[1..]);
      assert f == [f[0]] + f[1..];
      var m := |ListsOf(f[0])|;
      LabelTagsIn(f[1..], next + m, allowed);
      match f[0]
      case Element(t, a, c) =>
        assert Elements([f[0]]) == [f[0]] + Elements(c);
        if IsListTag(t) {
          LabelTagsIn(c, next + 1, allowed);
        } else {
          LabelTagsIn(c, next, allowed);
        }
      case Text(_) =>
      case Comment(_) =>
    }
  }

  lemma {:induction false} DropTagsIn(f: seq<LNode>, k: nat, allowed: set<string>)
    requires TagsIn(f, allowed)
    ensures TagsIn(DropFrom(f, k), allowed)
  {
    if f != [] {
      DropTagsIn(f[1..], k, allowed);
      match f[0]
      case LElement(t, a, c, p) =>
        DropTagsIn(c, k, allowed);
      case LText(_) =>
      case LComment(_) =>
    }
  }

  lemma {:induction false} EraseTagsIn(f: seq<LNode>, allowed: set<string>)
    requires TagsIn(f, allowed)
    ensures AllTagsIn(Erase(f), allowed)
  {
    if f != [] {
      EraseTagsIn(f[1..], allowed);
      assert Erase(f) == [EraseNode(f[0])] + Erase(f[1..]);
      ElementsConcat([EraseNode(f[0])], Erase(f[1..]));
      match f[0]
      case LElement(t, a, c, p) =>
        EraseTagsIn(c, allowed);
        assert Elements([EraseNode(f[0])]) == [EraseNode(f[0])] + Elements(Erase(c));
      case LText(_) =>
      case LComment(_) =>
    }
  }
}
