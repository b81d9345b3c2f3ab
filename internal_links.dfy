/**
 * `_rewrite_internal_hrefs` and `build_slug_lookup`: anchors that point at a
 * post are redirected to the post's localized slug. URL parsing and
 * unparsing are the standard library's and enter as function parameters.
 */
module InternalLinks {
  import opened Wrappers
  import opened Strings
  import opened Html

  /** The six fields `urlparse` splits a URL into. */
  datatype Url = Url(scheme: string, netloc: string, path: string, params: string, query: string, fragment: string)

  type Lookup = map<string, string>

  /** The entries of `parts` that are not empty, in order. */
  function NonEmpty(parts: seq<string>): (r: seq<string>)
    ensures forall i :: 0 <= i < |r| ==> r[i] != [] && r[i] in parts
  {
    if parts == [] then [] else (if parts[0] != [] then [parts[0]] else []) + NonEmpty(parts[1..])
  }

  lemma {:induction false} NonEmptyConcat(a: seq<string>, b: seq<string>)
    ensures NonEmpty(a + b) == NonEmpty(a) + NonEmpty(b)
  {
    if a != [] {
      assert (a + b)[0] == a[0];
      assert (a + b)[1..] == a[1..] + b;
      NonEmptyConcat(a[1..], b);
    } else {
      assert a + b == b;
    }
  }

  lemma {:induction false} NonEmptyKeepsAll(parts: seq<string>)
    requires forall i :: 0 <= i < |parts| ==> parts[i] != []
    ensures NonEmpty(parts) == parts
  {
    if parts != [] {
      NonEmptyKeepsAll(parts[1..]);
    }
  }

  /** The path segments, ignoring leading, trailing and doubled slashes. */
  function Segments(path: string): (r: seq<string>)
    ensures forall i :: 0 <= i < |r| ==> r[i] != [] && '/' !in r[i]
  {
    NonEmpty(Split(path, '/'))
  }

  /** `slug_lookup.get(segment)` is truthy: present and not empty. */
  predicate Truthy(lookup: Lookup, key: string) {
    key in lookup && lookup[key] != ""
  }

  /** The index of the first segment with a truthy lookup value, or `|segs|` when there is none. */
  function FirstMatch(segs: seq<string>, lookup: Lookup): (i: nat)
    ensures i <= |segs|
    ensures forall j :: 0 <= j < i ==> !Truthy(lookup, segs[j])
    ensures i < |segs| ==> Truthy(lookup, segs[i])
  {
    if segs == [] then 0 else if Truthy(lookup, segs[0]) then 0 else 1 + FirstMatch(segs[1..], lookup)
  }

  /**
   * The loop over the segments (lines 136-142): replace the first one with a
   * truthy value and stop. Its contract ties the loop to `FirstMatch`, which
   * `RewritePath` uses in its place, since a function cannot call a method.
   */
  method ReplaceFirstMatch(segments: seq<string>, lookup: Lookup) returns (out: seq<string>, updated: bool)
    ensures updated <==> FirstMatch(segments, lookup) < |segments|
    ensures updated ==> out == segments[FirstMatch(segments, lookup) := lookup[segments[FirstMatch(segments, lookup)]]]
    ensures !updated ==> out == segments
  {
    out := segments;
    updated := false;
    var idx := 0;
    while idx < |out|
      invariant 0 <= idx <= |segments|
      invariant out == segments && !updated
      invariant forall j :: 0 <= j < idx ==> !Truthy(lookup, segments[j])
    {
      var segment := out[idx];
      if segment in lookup && lookup[segment] != "" {
        out := out[idx := lookup[segment]];
        updated := true;
        break;
      }
      idx := idx + 1;
    }
  }

  /** The new path of a rewritten href, or `None` when the href is left alone (lines 127-151). */
  function RewritePath(path: string, lookup: Lookup): Option<string> {
    if path == [] then None
    else
      var segs := Segments(path);
      if segs == [] then None
      else
        var i := FirstMatch(segs, lookup);
        if i == |segs| then None
        else
          var trimmed := "/" + Join(segs[i := lookup[segs[i]]], "/");
          Some(if EndsWith(path, "/") then trimmed + "/" else trimmed)
  }

  /** A path is rewritten exactly when one of its segments has a truthy lookup value. */
  lemma RewritePathNone(path: string, lookup: Lookup)
    ensures RewritePath(path, lookup).None? <==> forall j :: 0 <= j < |Segments(path)| ==> !Truthy(lookup, Segments(path)[j])
  {
    if path == [] {
      assert Split(path, '/') == [""];
      assert Segments(path) == [];
    }
  }

  /**
   * A rewritten path starts with `/`, ends with `/` iff the old one did, and
   * (when the replacement holds no `/`) re-splits into the old segments with
   * the first truthy one replaced by its lookup value.
   */
  lemma RewritePathSegments(path: string, lookup: Lookup)
    requires RewritePath(path, lookup).Some?
    requires '/' !in lookup[Segments(path)[FirstMatch(Segments(path), lookup)]]
    ensures var p := RewritePath(path, lookup).value;
      var segs := Segments(path);
      var i := FirstMatch(segs, lookup);
      && StartsWith(p, "/")
      && (EndsWith(p, "/") <==> EndsWith(path, "/"))
      && Segments(p) == segs[i := lookup[segs[i]]]
  {
    var segs := Segments(path);
    var i := FirstMatch(segs, lookup);
    var s2 := segs[i := lookup[segs[i]]];
    assert forall j :: 0 <= j < |s2| ==> s2[j] != [] && '/' !in s2[j];
    RootedPath(s2);
  }

  /** `"/" + "/".join(segs)`, with or without a trailing slash, splits back into `segs`. */
  lemma RootedPath(segs: seq<string>)
    requires |segs| >= 1
    requires forall j :: 0 <= j < |segs| ==> segs[j] != [] && '/' !in segs[j]
    ensures StartsWith("/" + Join(segs, "/"), "/") && StartsWith("/" + Join(segs, "/") + "/", "/")
    ensures !EndsWith("/" + Join(segs, "/"), "/") && EndsWith("/" + Join(segs, "/") + "/", "/")
    ensures Segments("/" + Join(segs, "/")) == segs && Segments("/" + Join(segs, "/") + "/") == segs
  {
    RootedSegments(segs);
    RootedEnd(segs);
  }

  /** The segments of a rooted path, with and without a trailing slash. */
  lemma RootedSegments(segs: seq<string>)
    requires |segs| >= 1
    requires forall j :: 0 <= j < |segs| ==> segs[j] != [] && '/' !in segs[j]
    ensures Segments("/" + Join(segs, "/")) == segs && Segments("/" + Join(segs, "/") + "/") == segs
  {
    RootedParts(segs);
    NonEmptyKeepsAll(segs);
    SegmentsOfParts([""] + segs, segs);
    SegmentsOfParts([""] + segs + [""], segs);
  }

  /** Empty parts around already non-empty ones are dropped. */
  lemma SegmentsOfParts(parts: seq<string>, segs: seq<string>)
    requires parts == [""] + segs || parts == [""] + segs + [""]
    requires NonEmpty(segs) == segs
    ensures NonEmpty(parts) == segs
  {
    assert NonEmpty([""]) == [];
    NonEmptyConcat([""], segs);
    if parts != [""] + segs {
      NonEmptyConcat([""] + segs, [""]);
    }
  }

  /** The split of a rooted path, with and without a trailing slash. */
  lemma RootedParts(segs: seq<string>)
    requires |segs| >= 1
    requires forall j :: 0 <= j < |segs| ==> '/' !in segs[j]
    ensures Split("/" + Join(segs, "/"), '/') == [""] + segs
    ensures Split("/" + Join(segs, "/") + "/", '/') == [""] + segs + [""]
  {
    var parts := [""] + segs;
    NoSlashAround(segs, parts, parts + [""]);
    JoinPrepend("", segs, "/");
    assert "/" + Join(segs, "/") == Join(parts, "/");
    SplitJoin(parts, '/');
    JoinAppend(parts, "", "/");
    assert Join(parts + [""], "/") == "/" + Join(segs, "/") + "/";
    SplitJoin(parts + [""], '/');
  }

  /** Empty parts added at either end hold no slash either. */
  lemma NoSlashAround(segs: seq<string>, parts: seq<string>, more: seq<string>)
    requires forall j :: 0 <= j < |segs| ==> '/' !in segs[j]
    requires parts == [""] + segs && more == parts + [""]
    ensures forall j :: 0 <= j < |parts| ==> '/' !in parts[j]
    ensures forall j :: 0 <= j < |more| ==> '/' !in more[j]
  {
    forall j | 0 <= j < |parts| ensures '/' !in parts[j] {
      if j > 0 { assert parts[j] == segs[j - 1]; }
    }
    forall j | 0 <= j < |more| ensures '/' !in more[j] {
      if j < |parts| { assert more[j] == parts[j]; }
    }
  }

  /** A rooted path ends with a slash only when one is appended. */
  lemma RootedEnd(segs: seq<string>)
    requires |segs| >= 1
    requires forall j :: 0 <= j < |segs| ==> segs[j] != [] && '/' !in segs[j]
    ensures StartsWith("/" + Join(segs, "/"), "/") && StartsWith("/" + Join(segs, "/") + "/", "/")
    ensures !EndsWith("/" + Join(segs, "/"), "/") && EndsWith("/" + Join(segs, "/") + "/", "/")
  {
    var trimmed := "/" + Join(segs, "/");
    var last := segs[|segs| - 1];
    JoinLast(segs, "/");
    assert trimmed[|trimmed| - 1] == last[|last| - 1];
    assert last[|last| - 1] in last;
  }

  /** The joined parts end with the last part. */
  lemma {:induction false} JoinLast(parts: seq<string>, sep: string)
    requires |parts| >= 1
    ensures EndsWith(Join(parts, sep), parts[|parts| - 1])
    decreases |parts|
  {
    if |parts| > 1 {
      JoinLast(parts[1..], sep);
    }
  }

  /** Only the path of a URL changes. */
  function RewriteUrl(u: Url, lookup: Lookup): (r: Option<Url>)
    ensures r.Some? ==> r.value == u.(path := r.value.path)
    ensures r.Some? <==> RewritePath(u.path, lookup).Some?
    ensures r.Some? ==> r.value.path == RewritePath(u.path, lookup).value
  {
    match RewritePath(u.path, lookup)
    case None => None
    case Some(p) => Some(u.(path := p))
  }

  /** The new `href` value, or `None` when the anchor keeps its own. */
  function RewriteHref(href: string, lookup: Lookup, parse: string -> Url, unparse: Url -> string): Option<string> {
    if href == "" then None
    else
      match RewriteUrl(parse(href), lookup)
      case None => None
      case Some(u) => Some(unparse(u))
  }

  function RewriteAttrs(t: string, a: Attrs, lookup: Lookup, parse: string -> Url, unparse: Url -> string): Attrs {
    if t == "a" && "href" in a then
      match RewriteHref(a["href"], lookup, parse, unparse)
      case None => a
      case Some(h) => a["href" := h]
    else a
  }

  /** The loop over `find_all("a")`, applied to every anchor at any depth. */
  function RewriteLinks(f: seq<Node>, lookup: Lookup, parse: string -> Url, unparse: Url -> string): (r: seq<Node>)
    ensures |r| == |f|
  {
    if f == [] then [] else [RewriteLinksNode(f[0], lookup, parse, unparse)] + RewriteLinks(f[1..], lookup, parse, unparse)
  }

  function RewriteLinksNode(n: Node, lookup: Lookup, parse: string -> Url, unparse: Url -> string): Node {
    match n
    case Element(t, a, c) => Element(t, RewriteAttrs(t, a, lookup, parse, unparse), RewriteLinks(c, lookup, parse, unparse))
    case _ => n
  }

  /** `_rewrite_internal_hrefs(translated_soup, slug_lookup)`. */
  function RewriteHrefs(f: seq<Node>, lookup: Lookup, parse: string -> Url, unparse: Url -> string): seq<Node> {
    if lookup == map[] then f else RewriteLinks(f, lookup, parse, unparse)
  }

  /** The early return changes nothing: with an empty lookup no anchor would be rewritten anyway. */
  lemma {:induction false} EmptyLookupRewritesNothing(f: seq<Node>, parse: string -> Url, unparse: Url -> string)
    ensures RewriteLinks(f, map[], parse, unparse) == f
  {
    if f != [] {
      EmptyLookupRewritesNothing(f[1..], parse, unparse);
      match f[0]
      case Element(t, a, c) =>
        EmptyLookupRewritesNothing(c, parse, unparse);
        if t == "a" && "href" in a && a["href"] != "" {
          RewritePathNone(parse(a["href"]).path, map[]);
        }
      case Text(_) =>
      case Comment(_) =>
    }
  }

  /** The forest with the `href` of every anchor removed: everything the pass may not change. */
  function WithoutHrefs(f: seq<Node>): (r: seq<Node>)
    ensures |r| == |f|
  {
    if f == [] then [] else [WithoutHrefsNode(f[0])] + WithoutHrefs(f[1..])
  }

  function WithoutHrefsNode(n: Node): Node {
    match n
    case Element(t, a, c) => Element(t, if t == "a" then a - {"href"} else a, WithoutHrefs(c))
    case _ => n
  }

  /** Only anchors' `href` values change; elements, lists and text are left exactly as they were. */
  lemma {:induction false} RewriteLinksOnlyHrefs(f: seq<Node>, lookup: Lookup, parse: string -> Url, unparse: Url -> string, allowed: set<string>)
    ensures WithoutHrefs(RewriteLinks(f, lookup, parse, unparse)) == WithoutHrefs(f)
    ensures |Lists(RewriteLinks(f, lookup, parse, unparse))| == |Lists(f)|
    ensures AllTagsIn(f, allowed) ==> AllTagsIn(RewriteLinks(f, lookup, parse, unparse), allowed)
  {
    if f != [] {
      var h := RewriteLinksNode(f[0], lookup, parse, unparse);
      var rest := RewriteLinks(f[1..], lookup, parse, unparse);
      RewriteLinksOnlyHrefs(f[1..], lookup, parse, unparse, allowed);
      RewriteNodeOnlyHrefs(f[0], lookup, parse, unparse, allowed);
      assert RewriteLinks(f, lookup, parse, unparse) == [h] + rest;
      assert f == [f[0]] + f[1..];
      ListsConcat([h], rest);
      ListsConcat([f[0]], f[1..]);
      AllTagsInConcat([h], rest, allowed);
      AllTagsInConcat([f[0]], f[1..], allowed);
    }
  }

  lemma {:induction false} RewriteNodeOnlyHrefs(n: Node, lookup: Lookup, parse: string -> Url, unparse: Url -> string, allowed: set<string>)
    ensures WithoutHrefsNode(RewriteLinksNode(n, lookup, parse, unparse)) == WithoutHrefsNode(n)
    ensures |Lists([RewriteLinksNode(n, lookup, parse, unparse)])| == |Lists([n])|
    ensures AllTagsIn([n], allowed) ==> AllTagsIn([RewriteLinksNode(n, lookup, parse, unparse)], allowed)
  {
    match n
    case Element(t, a, c) =>
      var h := RewriteLinksNode(n, lookup, parse, unparse);
      RewriteLinksOnlyHrefs(c, lookup, parse, unparse, allowed);
      assert Elements([h]) == [h] + Elements(h.children);
      assert Elements([n]) == [n] + Elements(c);
      assert Lists([h]) == ListsOf(h);
      assert Lists([n]) == ListsOf(n);
      if t == "a" {
        var a2 := RewriteAttrs(t, a, lookup, parse, unparse);
        assert a2 - {"href"} == a - {"href"};
      }
    case Text(_) =>
    case Comment(_) =>
  }


  // ---------------------------------------------------------------------------
  // `build_slug_lookup` (lines 189-198)
  // ---------------------------------------------------------------------------

  /**
   * A post as the lookup sees it: its default-language slug (`None` when it
   * has none) and what its translation method answers for each language.
   */
  datatype Post = Post(slug: Option<string>, translatedSlugs: map<string, string>)

  /** `post.get_translated_slug(language=language)`; a missing entry plays the part of a `None` answer. */
  function TranslatedSlug(post: Post, language: string): Option<string> {
    if language in post.translatedSlugs then Some(post.translatedSlugs[language]) else None
  }

  /** The post's slug is truthy. */
  predicate HasSlug(post: Post) {
    post.slug.Some? && post.slug.value != ""
  }

  /** `str(translated_slug or base_slug)`. */
  function LocalSlug(post: Post, language: string): (r: string)
    requires HasSlug(post)
    ensures r != ""
  {
    match TranslatedSlug(post, language)
    case Some(t) => if t != "" then t else post.slug.value
    case None => post.slug.value
  }

  /** The lookup after the loop has seen `posts`: each later post overwrites an earlier one with the same slug. */
  function SlugLookup(posts: seq<Post>, language: string): Lookup {
    if posts == [] then map[]
    else
      var m := SlugLookup(posts[..|posts| - 1], language);
      var post := posts[|posts| - 1];
      if HasSlug(post) then m[post.slug.value := LocalSlug(post, language)] else m
  }

  /** `build_slug_lookup(posts, language)`. */
  method BuildSlugLookup(posts: seq<Post>, language: string) returns (lookup: Lookup)
    ensures lookup == SlugLookup(posts, language)
  {
    lookup := map[];
    for i := 0 to |posts|
      invariant lookup == SlugLookup(posts[..i], language)
    {
      assert posts[..i + 1][..i] == posts[..i];
      var post := posts[i];
      if !HasSlug(post) {
        continue;
      }
      var translated := TranslatedSlug(post, language);
      var base := post.slug.value;
      lookup := lookup[base := if translated.Some? && translated.value != "" then translated.value else base];
    }
    assert posts[..|posts|] == posts;
  }

  /**
   * The keys are exactly the truthy slugs; each maps to the localized slug of
   * the last post carrying it, which is never empty, so every entry counts as
   * a match in the href pass.
   */
  lemma {:induction false} SlugLookupEntries(posts: seq<Post>, language: string, key: string)
    ensures key in SlugLookup(posts, language) <==> exists i :: 0 <= i < |posts| && HasSlug(posts[i]) && posts[i].slug.value == key
    ensures key in SlugLookup(posts, language) ==> Truthy(SlugLookup(posts, language), key)
    ensures forall i :: 0 <= i < |posts| && HasSlug(posts[i]) && posts[i].slug.value == key
              && (forall j :: i < j < |posts| ==> !(HasSlug(posts[j]) && posts[j].slug.value == key))
              ==> key in SlugLookup(posts, language) && SlugLookup(posts, language)[key] == LocalSlug(posts[i], language)
    decreases |posts|
  {
    if posts != [] {
      var init := posts[..|posts| - 1];
      SlugLookupEntries(init, language, key);
      forall i | 0 <= i < |init| ensures init[i] == posts[i] { }
      var last := posts[|posts| - 1];
      if !(HasSlug(last) && last.slug.value == key) {
        if exists i :: 0 <= i < |posts| && HasSlug(posts[i]) && posts[i].slug.value == key {
          var i :| 0 <= i < |posts| && HasSlug(posts[i]) && posts[i].slug.value == key;
          assert i < |init|;
        }
      }
    }
  }
}
