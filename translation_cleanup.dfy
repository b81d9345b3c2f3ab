/**
 * `clean_translation_html`: the passes run in order on the parsed
 * translation, blank top-level strings are dropped, and `_soup_to_markup`
 * picks what is serialized. Parsing and the serializing of nodes to a
 * string are the HTML library's and stay outside the model: the function
 * takes and returns node forests.
 */
module TranslationCleanup {
  import opened Wrappers
  import opened Strings
  import opened Html
  import opened TagCleanup
  import opened ListPass
  import opened InternalLinks

  /** A top-level string node (text or comment) that `strip()` empties. */
  predicate BlankString(n: Node) {
    match n
    case Text(s) => Strip(s) == []
    case Comment(s) => Strip(s) == []
    case Element(_, _, _) => false
  }

  /** The loop over `list(translated_soup.contents)`: every blank top-level string is extracted. */
  function TrimTopLevel(f: seq<Node>): (r: seq<Node>)
    ensures |r| <= |f|
  {
    if f == [] then [] else (if BlankString(f[0]) then [] else [f[0]]) + TrimTopLevel(f[1..])
  }

  /** A single top-level node goes iff it is a blank string. */
  lemma TrimTopLevelOne(n: Node)
    ensures TrimTopLevel([n]) == (if BlankString(n) then [] else [n])
  {
    assert [n][1..] == [];
  }

  /**
   * The trim works node by node: with `TrimTopLevelOne` this fixes the
   * result as the non-blank nodes of the input, in their order and with
   * their repetitions.
   */
  lemma {:induction false} TrimTopLevelConcat(a: seq<Node>, b: seq<Node>)
    ensures TrimTopLevel(a + b) == TrimTopLevel(a) + TrimTopLevel(b)
  {
    if a == [] {
      assert a + b == b;
    } else {
      var x := a[0];
      assert a == [x] + a[1..];
      assert a + b == [x] + (a[1..] + b);
      TrimTopLevelCons(x, a[1..] + b);
      TrimTopLevelCons(x, a[1..]);
      TrimTopLevelConcat(a[1..], b);
    }
  }

  lemma TrimTopLevelCons(x: Node, rest: seq<Node>)
    ensures TrimTopLevel([x] + rest) == TrimTopLevel([x]) + TrimTopLevel(rest)
  {
    assert ([x] + rest)[0] == x;
    assert ([x] + rest)[1..] == rest;
    TrimTopLevelOne(x);
  }

  /** No blank string is left, nothing new appears, and every non-blank node stays. */
  lemma {:induction false} TrimTopLevelStrings(f: seq<Node>)
    ensures forall i :: 0 <= i < |TrimTopLevel(f)| ==> !BlankString(TrimTopLevel(f)[i])
    ensures forall n :: n in TrimTopLevel(f) ==> n in f
    ensures forall n :: n in f && !BlankString(n) ==> n in TrimTopLevel(f)
  {
    if f != [] {
      var x := f[0];
      assert f == [x] + f[1..];
      TrimTopLevelCons(x, f[1..]);
      TrimTopLevelOne(x);
      TrimTopLevelStrings(f[1..]);
      var h := TrimTopLevel([x]);
      var t := TrimTopLevel(f[1..]);
      forall i | 0 <= i < |h + t| ensures !BlankString((h + t)[i]) {
        if i >= |h| {
          assert (h + t)[i] == t[i - |h|];
        }
      }
    }
  }

  /** Trimming touches only strings: every element, and so every list, stays where it was. */
  lemma {:induction false} TrimTopLevelKeepsElements(f: seq<Node>)
    ensures Elements(TrimTopLevel(f)) == Elements(f)
    ensures Lists(TrimTopLevel(f)) == Lists(f)
  {
    if f != [] {
      TrimTopLevelKeepsElements(f[1..]);
      var head := if BlankString(f[0]) then [] else [f[0]];
      assert f == [f[0]] + f[1..];
      ElementsConcat(head, TrimTopLevel(f[1..]));
      ElementsConcat([f[0]], f[1..]);
      ListsConcat(head, TrimTopLevel(f[1..]));
      ListsConcat([f[0]], f[1..]);
      if BlankString(f[0]) {
        assert Elements([f[0]]) == [];
        assert Lists([f[0]]) == [];
      }
    }
  }

  // ---------------------------------------------------------------------------
  // `_soup_to_markup` (lines 157-161)
  // ---------------------------------------------------------------------------

  predicate IsBody(n: Node) {
    n.Element? && n.tag == "body"
  }

  /** `soup.body`: the first `body` element in document order, if any. */
  function FirstBody(f: seq<Node>): Option<Node> {
    if f == [] then None
    else match FirstBodyOf(f[0])
      case Some(b) => Some(b)
      case None => FirstBody(f[1..])
  }

  function FirstBodyOf(n: Node): Option<Node> {
    match n
    case Element(t, _, c) => if t == "body" then Some(n) else FirstBody(c)
    case _ => None
  }

  /**
   * `r` is the first element of `es` named `body`, and `None` exactly when
   * there is none.
   */
  predicate FirstBodyIn(es: seq<Node>, r: Option<Node>) {
    && (r.None? <==> forall i :: 0 <= i < |es| ==> !IsBody(es[i]))
    && (r.Some? ==> exists i :: (0 <= i < |es| && es[i] == r.value && IsBody(es[i])
                                 && forall j :: 0 <= j < i ==> !IsBody(es[j])))
  }

  /** `FirstBody` finds the first `body` element in document order. */
  lemma {:induction false} FirstBodySpec(f: seq<Node>)
    ensures FirstBodyIn(Elements(f), FirstBody(f))
  {
    if f != [] {
      FirstBodySpec(f[1..]);
      FirstBodyOfSpec(f[0]);
      assert Elements(f) == ElementsOf(f[0]) + Elements(f[1..]);
      FirstBodyStep(ElementsOf(f[0]), Elements(f[1..]), FirstBodyOf(f[0]), FirstBody(f[1..]));
    }
  }

  lemma {:induction false} FirstBodyOfSpec(n: Node)
    ensures FirstBodyIn(ElementsOf(n), FirstBodyOf(n))
  {
    match n
    case Element(t, _, c) =>
      if t == "body" {
        assert ElementsOf(n)[0] == n;
      } else {
        FirstBodySpec(c);
        assert ElementsOf(n) == [n] + Elements(c);
        FirstBodyStep([n], Elements(c), None, FirstBody(c));
      }
    case Text(_) =>
    case Comment(_) =>
  }

  /** The first body of `a + b` is the first of `a`, or else the first of `b`. */
  lemma FirstBodyStep(a: seq<Node>, b: seq<Node>, ra: Option<Node>, rb: Option<Node>)
    requires FirstBodyIn(a, ra) && FirstBodyIn(b, rb)
    ensures FirstBodyIn(a + b, if ra.Some? then ra else rb)
  {
    var ab := a + b;
    if ra.Some? {
      var i :| 0 <= i < |a| && a[i] == ra.value && IsBody(a[i]) && forall j :: 0 <= j < i ==> !IsBody(a[j]);
      assert ab[i] == a[i];
      forall j | 0 <= j < i ensures !IsBody(ab[j]) {
        assert ab[j] == a[j];
      }
    } else if rb.Some? {
      var i :| 0 <= i < |b| && b[i] == rb.value && IsBody(b[i]) && forall j :: 0 <= j < i ==> !IsBody(b[j]);
      assert ab[|a| + i] == b[i];
      forall j | 0 <= j < |a| + i ensures !IsBody(ab[j]) {
        if j < |a| {
          assert ab[j] == a[j];
        } else {
          assert ab[j] == b[j - |a|];
        }
      }
    } else {
      forall j | 0 <= j < |ab| ensures !IsBody(ab[j]) {
        if j < |a| {
          assert ab[j] == a[j];
        } else {
          assert ab[j] == b[j - |a|];
        }
      }
    }
  }

  /** `_soup_to_markup`: the children of the first `body` element, or else the whole tree. */
  function SoupToMarkup(f: seq<Node>): seq<Node> {
    match FirstBody(f)
    case Some(b) => if b.Element? then b.children else f
    case None => f
  }

  /**
   * With a `body` element anywhere, only the first one's children are kept
   * and everything outside it is lost; without one the tree is kept whole.
   */
  lemma SoupToMarkupSpec(f: seq<Node>)
    ensures (forall i :: 0 <= i < |Elements(f)| ==> !IsBody(Elements(f)[i])) ==> SoupToMarkup(f) == f
    ensures FirstBody(f).Some? ==> exists i :: (0 <= i < |Elements(f)| && IsBody(Elements(f)[i])
                                                && SoupToMarkup(f) == Elements(f)[i].children
                                                && forall j :: 0 <= j < i ==> !IsBody(Elements(f)[j]))
  {
    FirstBodySpec(f);
  }

  /** `<p>x</p><body><p>y</p></body>` comes back as `<p>y</p>`. */
  lemma SoupToMarkupDropsOutside()
    ensures SoupToMarkup([Element("p", map[], [Text("x")]), Element("body", map[], [Element("p", map[], [Text("y")])])])
         == [Element("p", map[], [Text("y")])]
  {
    var p := Element("p", map[], [Text("x")]);
    var body := Element("body", map[], [Element("p", map[], [Text("y")])]);
    assert FirstBody([Text("x")]) == None by {
      assert [Text("x")][1..] == [];
    }
    assert FirstBodyOf(p) == None;
    assert [p, body][1..] == [body];
  }

  /** What `_soup_to_markup` keeps is part of the tree: its elements are elements of the tree, and it has no more lists. */
  lemma SoupToMarkupWithin(f: seq<Node>)
    ensures forall e :: e in Elements(SoupToMarkup(f)) ==> e in Elements(f)
    ensures |Lists(SoupToMarkup(f))| <= |Lists(f)|
  {
    FirstBodySpec(f);
    if FirstBody(f).Some? && FirstBody(f).value.Element? {
      var b := FirstBody(f).value;
      assert b in Elements(f);
      SubtreeElements(f, b);
      assert ElementsOf(b) == [b] + Elements(b.children);
      SubtreeLists(f, b);
    }
  }

  /** An element's children have no more lists than the forest holding it. */
  lemma {:induction false} SubtreeLists(f: seq<Node>, e: Node)
    requires e in Elements(f) && e.Element?
    ensures |Lists(e.children)| <= |Lists(f)|
  {
    if f != [] {
      ElementsConcat([f[0]], f[1..]);
      assert f == [f[0]] + f[1..];
      assert Elements([f[0]]) == ElementsOf(f[0]) + Elements([]);
      if e in Elements(f[1..]) {
        SubtreeLists(f[1..], e);
      } else if e != f[0] {
        var n := f[0];
        assert e in Elements(n.children);
        SubtreeLists(n.children, e);
      }
    }
  }

  /** `clean_translation_html(original_html, translated_html, slug_lookup)` on parsed markup. */
  function CleanTranslation(original: seq<Node>, translated: seq<Node>, lookup: Lookup, parse: string -> Url, unparse: Url -> string): seq<Node> {
    var allowed := AllowedTags(original);
    var unwrapped := Unwrap(translated, allowed);
    var unbroken := StripBreaks(unwrapped, allowed);
    var listed := NormalizeLists(original, unbroken);
    var linked := RewriteHrefs(listed, lookup, parse, unparse);
    SoupToMarkup(TrimTopLevel(linked))
  }

  /** Every element of the cleaned translation carries a tag the original uses, or a wrapper tag. */
  lemma CleanTranslationTags(original: seq<Node>, translated: seq<Node>, lookup: Lookup, parse: string -> Url, unparse: Url -> string)
    ensures AllTagsIn(CleanTranslation(original, translated, lookup, parse, unparse), Kept(AllowedTags(original)))
  {
    var allowed := AllowedTags(original);
    var unwrapped := Unwrap(translated, allowed);
    UnwrapAllowed(translated, allowed);
    StripBreaksAfterUnwrap(translated, allowed);
    OriginalIsAllowed(original);
    assert AllTagsIn(original, Kept(allowed));
    NormalizeListsTags(original, unwrapped, Kept(allowed));
    var listed := NormalizeLists(original, unwrapped);
    RewriteLinksOnlyHrefs(listed, lookup, parse, unparse, Kept(allowed));
    TrimTopLevelKeepsElements(RewriteHrefs(listed, lookup, parse, unparse));
    SoupToMarkupWithin(TrimTopLevel(RewriteHrefs(listed, lookup, parse, unparse)));
  }

  /** A tag the original never uses (a `<br>`, say) never appears in the cleaned translation, unless it is a wrapper. */
  lemma CleanTranslationForeignTag(original: seq<Node>, translated: seq<Node>, lookup: Lookup, parse: string -> Url, unparse: Url -> string, t: string)
    requires t !in SENTINELS && !Occurs(original, t)
    ensures NoneNamed(CleanTranslation(original, translated, lookup, parse, unparse), t)
  {
    CleanTranslationTags(original, translated, lookup, parse, unparse);
    AllowedTagsExact(original, t);
  }

  /** The cleaned translation has no more lists than the original. */
  lemma CleanTranslationListCount(original: seq<Node>, translated: seq<Node>, lookup: Lookup, parse: string -> Url, unparse: Url -> string)
    ensures |Lists(CleanTranslation(original, translated, lookup, parse, unparse))| <= |Lists(original)|
  {
    var allowed := AllowedTags(original);
    var unbroken := StripBreaks(Unwrap(translated, allowed), allowed);
    var listed := NormalizeLists(original, unbroken);
    NormalizeListsCount(original, unbroken);
    RewriteLinksOnlyHrefs(listed, lookup, parse, unparse, {});
    TrimTopLevelKeepsElements(RewriteHrefs(listed, lookup, parse, unparse));
    SoupToMarkupWithin(TrimTopLevel(RewriteHrefs(listed, lookup, parse, unparse)));
  }

  /** With no posts to link to, the pipeline is unwrapping, list alignment and trimming alone. */
  lemma CleanTranslationWithoutLookup(original: seq<Node>, translated: seq<Node>, parse: string -> Url, unparse: Url -> string)
    ensures CleanTranslation(original, translated, map[], parse, unparse)
         == SoupToMarkup(TrimTopLevel(NormalizeLists(original, Unwrap(translated, AllowedTags(original)))))
  {
    StripBreaksAfterUnwrap(translated, AllowedTags(original));
  }
}
