/**
 * The parsed markup tree that BeautifulSoup's `html.parser` builds, as a value:
 * a forest of elements (tag name, attributes, children), text strings and
 * comments. The soup object itself is its top-level forest.
 */
module Html {

  type Attrs = map<string, string>

  datatype Node =
    | Element(tag: string, attrs: Attrs, children: seq<Node>)
    | Text(text: string)
    | Comment(text: string)

  /** The two structural wrapper tags that tag removal always keeps. */
  const SENTINELS: set<string> := {"html", "body"}

  predicate IsListTag(t: string) {
    t == "ul" || t == "ol"
  }

  /** `find_all(True)`: every element of a forest at any depth, in document order. */
  function Elements(f: seq<Node>): (r: seq<Node>)
    ensures forall e :: e in r ==> e.Element?
  {
    if f == [] then [] else ElementsOf(f[0]) + Elements(f[1..])
  }

  function ElementsOf(n: Node): (r: seq<Node>)
    ensures forall e :: e in r ==> e.Element?
  {
    match n
    case Element(_, _, c) => [n] + Elements(c)
    case _ => []
  }

  /** The tag names of `Elements(f)`, in document order. */
  function TagSeq(f: seq<Node>): seq<string> {
    if f == [] then [] else TagSeqOf(f[0]) + TagSeq(f[1..])
  }

  function TagSeqOf(n: Node): seq<string> {
    match n
    case Element(t, _, c) => [t] + TagSeq(c)
    case _ => []
  }

  /** The string leaves (text and comment nodes) of a forest, in document order. */
  function Leaves(f: seq<Node>): seq<Node> {
    if f == [] then [] else LeavesOf(f[0]) + Leaves(f[1..])
  }

  function LeavesOf(n: Node): seq<Node> {
    match n
    case Element(_, _, c) => Leaves(c)
    case _ => [n]
  }

  /** `find_all(["ul", "ol"])`: the list elements of a forest, in document order. */
  function Lists(f: seq<Node>): seq<Node> {
    if f == [] then [] else ListsOf(f[0]) + Lists(f[1..])
  }

  function ListsOf(n: Node): seq<Node> {
    match n
    case Element(t, _, c) => (if IsListTag(t) then [n] else []) + Lists(c)
    case _ => []
  }

  /** The direct children of an element that are `<li>` elements: `find_all("li", recursive=False)`. */
  function ChildItems(children: seq<Node>): seq<Node> {
    if children == [] then []
    else (if children[0].Element? && children[0].tag == "li" then [children[0]] else []) + ChildItems(children[1..])
  }

  /** Some direct child is an element named `t`. */
  predicate HasChildTag(children: seq<Node>, t: string) {
    exists i :: 0 <= i < |children| && children[i].Element? && children[i].tag == t
  }

  /** An element named `t` occurs somewhere in the forest (an independent, tree-shaped definition). */
  predicate Occurs(f: seq<Node>, t: string) {
    exists i :: 0 <= i < |f| && OccursIn(f[i], t)
  }

  predicate OccursIn(n: Node, t: string) {
    n.Element? && (n.tag == t || Occurs(n.children, t))
  }

  /** Every element in the forest has a tag in `allowed`. */
  predicate AllTagsIn(f: seq<Node>, allowed: set<string>) {
    forall e :: e in Elements(f) ==> e.tag in allowed
  }

  lemma ElementsConcat(a: seq<Node>, b: seq<Node>)
    ensures Elements(a + b) == Elements(a) + Elements(b)
  {
    if a != [] {
      assert (a + b)[0] == a[0];
      assert (a + b)[1..] == a[1..] + b;
      ElementsConcat(a[1..], b);
    } else {
      assert a + b == b;
    }
  }

  lemma TagSeqConcat(a: seq<Node>, b: seq<Node>)
    ensures TagSeq(a + b) == TagSeq(a) + TagSeq(b)
  {
    if a != [] {
      assert (a + b)[0] == a[0];
      assert (a + b)[1..] == a[1..] + b;
      TagSeqConcat(a[1..], b);
    } else {
      assert a + b == b;
    }
  }

  lemma LeavesConcat(a: seq<Node>, b: seq<Node>)
    ensures Leaves(a + b) == Leaves(a) + Leaves(b)
  {
    if a != [] {
      assert (a + b)[0] == a[0];
      assert (a + b)[1..] == a[1..] + b;
      LeavesConcat(a[1..], b);
    } else {
      assert a + b == b;
    }
  }

  lemma ListsConcat(a: seq<Node>, b: seq<Node>)
    ensures Lists(a + b) == Lists(a) + Lists(b)
  {
    if a != [] {
      assert (a + b)[0] == a[0];
      assert (a + b)[1..] == a[1..] + b;
      ListsConcat(a[1..], b);
    } else {
      assert a + b == b;
    }
  }

  lemma ChildItemsConcat(a: seq<Node>, b: seq<Node>)
    ensures ChildItems(a + b) == ChildItems(a) + ChildItems(b)
  {
    if a != [] {
      assert (a + b)[0] == a[0];
      assert (a + b)[1..] == a[1..] + b;
      ChildItemsConcat(a[1..], b);
    } else {
      assert a + b == b;
    }
  }

  lemma AllTagsInConcat(a: seq<Node>, b: seq<Node>, allowed: set<string>)
    ensures AllTagsIn(a + b, allowed) <==> AllTagsIn(a, allowed) && AllTagsIn(b, allowed)
  {
    ElementsConcat(a, b);
  }

  /** The tag sequence is the sequence of tags of the elements. */
  lemma {:induction false} TagSeqOfElements(f: seq<Node>)
    ensures |TagSeq(f)| == |Elements(f)|
    ensures forall i :: 0 <= i < |f| ==> TagSeqOf(f[i]) == TagSeq([f[i]])
    ensures forall i :: 0 <= i < |TagSeq(f)| ==> TagSeq(f)[i] == Elements(f)[i].tag
  {
    if f != [] {
      TagSeqOfElements(f[1..]);
      forall i | 0 <= i < |f| ensures TagSeqOf(f[i]) == TagSeq([f[i]]) {
        assert [f[i]][1..] == [];
      }
      match f[0]
      case Element(t, a, c) =>
        TagSeqOfElements(c);
      case Text(_) =>
      case Comment(_) =>
    }
  }

  /** Every list element is an element with a list tag, taken from the forest. */
  lemma {:induction false} ListsAreListElements(f: seq<Node>)
    ensures forall e :: e in Lists(f) ==> e in Elements(f) && e.Element? && IsListTag(e.tag)
  {
    if f != [] {
      ListsAreListElements(f[1..]);
      match f[0]
      case Element(t, a, c) =>
        ListsAreListElements(c);
      case Text(_) =>
      case Comment(_) =>
    }
  }

  /** `Elements` is closed under taking element children. */
  lemma {:induction false} ElementChildrenAreElements(f: seq<Node>, e: Node, c: Node)
    requires e in Elements(f) && e.Element? && c in e.children && c.Element?
    ensures c in Elements(f)
  {
    if f != [] {
      ElementsConcat([f[0]], f[1..]);
      assert f == [f[0]] + f[1..];
      if e in Elements(f[1..]) {
        ElementChildrenAreElements(f[1..], e, c);
      } else {
        assert e in ElementsOf(f[0]);
        var n := f[0];
        if e == n {
          var i :| 0 <= i < |n.children| && n.children[i] == c;
          ElementsOfChild(n.children, i);
        } else {
          ElementChildrenAreElements(n.children, e, c);
        }
      }
    }
  }

  lemma {:induction false} ElementsOfChild(f: seq<Node>, i: nat)
    requires i < |f| && f[i].Element?
    ensures f[i] in Elements(f)
  {
    if i > 0 {
      ElementsOfChild(f[1..], i - 1);
    }
  }

  /** The set of tags in the flattened element list is the set of tags that occur in the tree. */
  lemma {:induction false} ElementsMatchOccurs(f: seq<Node>, t: string)
    ensures (exists e :: e in Elements(f) && e.tag == t) <==> Occurs(f, t)
  {
    if f == [] {
    } else {
      ElementsMatchOccurs(f[1..], t);
      assert Occurs(f, t) <==> OccursIn(f[0], t) || Occurs(f[1..], t) by {
        if Occurs(f[1..], t) {
          var i :| 0 <= i < |f[1..]| && OccursIn(f[1..][i], t);
          assert OccursIn(f[i + 1], t);
        }
        if Occurs(f, t) && !OccursIn(f[0], t) {
          var i :| 0 <= i < |f| && OccursIn(f[i], t);
          assert f[1..][i - 1] == f[i];
        }
      }
      match f[0]
      case Element(tg, a, c) =>
        ElementsMatchOccurs(c, t);
      case Text(_) =>
      case Comment(_) =>
    }
  }

  /** The direct items are direct children named `li`. */
  lemma {:induction false} ChildItemsAreChildren(children: seq<Node>)
    ensures forall x :: x in ChildItems(children) ==> x in children && x.Element? && x.tag == "li"
  {
    if children != [] {
      ChildItemsAreChildren(children[1..]);
    }
  }

  /** Every element below an element of the forest belongs to the forest's elements. */
  lemma {:induction false} SubtreeElements(f: seq<Node>, e: Node)
    requires e in Elements(f)
    ensures forall x :: x in ElementsOf(e) ==> x in Elements(f)
  {
    if f != [] {
      ElementsConcat([f[0]], f[1..]);
      assert f == [f[0]] + f[1..];
      assert Elements([f[0]]) == ElementsOf(f[0]) + Elements([]);
      if e in Elements(f[1..]) {
        SubtreeElements(f[1..], e);
      } else if e != f[0] {
        var n := f[0];
        assert e in Elements(n.children);
        SubtreeElements(n.children, e);
      }
    }
  }
}
