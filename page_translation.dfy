/**
 * The pure helpers of `pincatch/signals.py` that page translation and the
 * page templates rely on: the whitespace-preserving replacement of a text
 * node, the right-to-left attribute rule, the short-circuits and dispatch of
 * `_safe_translate` with its HTML path, and the template locations. The
 * translation provider, the HTML parser and the serializer are parameters.
 */
module PageTranslation {
  import opened Wrappers
  import opened Strings
  import opened Html
  import opened PageModel

  // ---------------------------------------------------------------------
  // `_preserve_whitespace`
  // ---------------------------------------------------------------------

  /** The group `(\s*)` at the start of `(\s*)(.*?)(\s*)$`: the longest whitespace prefix. */
  function LeadingSpace(s: string): (w: string)
    ensures StartsWith(s, w)
    ensures forall k :: 0 <= k < |w| ==> w[k] in PY_WHITESPACE
    ensures |w| < |s| ==> s[|w|] !in PY_WHITESPACE
  {
    s[..LeadCount(s, PY_WHITESPACE)]
  }

  /**
   * The final group `(\s*)$`: the core is matched lazily, so this is the
   * longest whitespace suffix of what follows the leading group (nothing
   * when the string is all whitespace, since the leading group took it all).
   */
  function TrailingSpace(s: string): (w: string)
    ensures EndsWith(s, w)
    ensures |LeadingSpace(s)| + |w| <= |s|
    ensures forall k :: 0 <= k < |w| ==> w[k] in PY_WHITESPACE
  {
    var rest := s[LeadCount(s, PY_WHITESPACE)..];
    rest[|rest| - TailCount(rest, PY_WHITESPACE)..]
  }

  /** The three groups of the match put back together give the string; the middle one is `s.strip()`. */
  lemma SpaceAroundCore(s: string)
    ensures s == LeadingSpace(s) + Strip(s) + TrailingSpace(s)
  {
    var rest := s[LeadCount(s, PY_WHITESPACE)..];
    TrimSplits(s, PY_WHITESPACE, rest, TrailingSpace(s));
  }

  /**
   * `_preserve_whitespace(original, translated)`. The regular expression
   * always matches, so the `translated` fallback for a failed match is never
   * taken.
   */
  function PreserveWhitespace(original: string, translated: string): (r: string)
    ensures |r| == |original| - |Strip(original)| + |translated|
    ensures StartsWith(r, LeadingSpace(original)) && EndsWith(r, TrailingSpace(original))
  {
    SpaceAroundCore(original);
    LeadingSpace(original) + translated + TrailingSpace(original)
  }

  /** Handing back the stripped core of a string restores the string exactly. */
  lemma PreserveWhitespaceRoundTrip(original: string)
    ensures PreserveWhitespace(original, Strip(original)) == original
  {
    SpaceAroundCore(original);
  }

  /** The padding is whitespace only: the visible text of the result is that of the translation. */
  lemma PreserveWhitespaceStrip(original: string, translated: string)
    ensures Strip(PreserveWhitespace(original, translated)) == Strip(translated)
  {
    TrimPadded(LeadingSpace(original), translated, TrailingSpace(original), PY_WHITESPACE);
  }

  /**
   * Passing the original itself (what the code does when the provider raises)
   * gives the original back only when it has no surrounding whitespace;
   * otherwise that whitespace is doubled.
   */
  lemma PreserveOriginalDoubles(original: string)
    ensures PreserveWhitespace(original, original) == original <==> Strip(original) == original
  {
    if Strip(original) == original {
      PreserveWhitespaceRoundTrip(original);
    }
  }

  /** On the string `" a "` the fallback as written yields `"  a  "`. */
  lemma FallbackDoublesWhitespace()
    ensures PreserveWhitespace(" a ", " a ") == "  a  "
    ensures TranslatedString(" a ", None) == " a "
  {
    assert LeadCount(" a ", PY_WHITESPACE) == 1 by {
      assert " a "[1..] == "a ";
      assert "a "[0] == 'a';
    }
    var rest := " a "[1..];
    assert rest == "a ";
    assert TailCount(rest, PY_WHITESPACE) == 1 by {
      assert rest[..1] == "a";
    }
  }

  /**
   * The replacement of one string node, corrected: a translation keeps the
   * original's surrounding whitespace, and a provider error (`None`) leaves
   * the original as it was.
   */
  function TranslatedString(original: string, answer: Option<string>): (r: string)
    ensures answer.None? ==> r == original
    ensures answer.Some? ==> Strip(r) == Strip(answer.value)
    ensures answer == Some(Strip(original)) ==> r == original
  {
    match answer
    case None => original
    case Some(t) =>
      PreserveWhitespaceStrip(original, t);
      PreserveWhitespaceRoundTrip(original);
      PreserveWhitespace(original, t)
  }

  // ---------------------------------------------------------------------
  // `_apply_rtl`
  // ---------------------------------------------------------------------

  /** The tag names `_apply_rtl` searches for. */
  const BLOCK_TAGS: set<string> := {
    "p", "li", "ul", "ol", "h1", "h2", "h3", "h4", "h5", "h6",
    "div", "section", "article", "details", "summary"
  }

  /** What is appended to an existing style, before `.strip("; ")`. */
  const RTL_STYLE: string := "; text-align: right;"

  const STYLE_TRIM: set<char> := {';', ' '}

  const TEXT_ALIGN: string := "text-align"

  /** `tag.get("style", "")`. */
  function CurrentStyle(attrs: Attrs): string {
    if "style" in attrs then attrs["style"] else ""
  }

  /** A substring that begins and ends with kept characters survives trimming. */
  lemma TrimKeepsInner(s: string, cs: set<char>, i: nat, j: nat)
    requires i < j <= |s| && s[i] !in cs && s[j - 1] !in cs
    ensures Contains(Trim(s, cs), s[i..j])
  {
    var n := LeadCount(s, cs);
    var r := Trim(s, cs);
    KeptBetween(s, cs, n, n + |r|, i, j);
    InnerSlice(s, n, r, i, j);
    ContainsAt(r, s[i..j], i - n);
  }

  lemma KeptBetween(s: string, cs: set<char>, n: nat, m: nat, i: nat, j: nat)
    requires n <= m <= |s| && i < j <= |s| && s[i] !in cs && s[j - 1] !in cs
    requires forall k :: 0 <= k < n ==> s[k] in cs
    requires forall k :: m <= k < |s| ==> s[k] in cs
    ensures n <= i && j <= m
  {
  }

  lemma InnerSlice(s: string, n: nat, r: string, i: nat, j: nat)
    requires n + |r| <= |s| && r == s[n..n + |r|]
    requires n <= i <= j <= n + |r|
    ensures r[i - n..j - n] == s[i..j]
  {
    forall k | 0 <= k < j - i ensures r[i - n..j - n][k] == s[i..j][k] {
      assert r[i - n + k] == s[i + k];
    }
  }

  /** The appended declaration always survives the trimming. */
  lemma AppendedStyleAligns(current: string)
    ensures Contains(Trim(current + RTL_STYLE, STYLE_TRIM), TEXT_ALIGN)
  {
    var s := current + RTL_STYLE;
    assert s[|current| + 2..|current| + 12] == TEXT_ALIGN;
    TrimKeepsInner(s, STYLE_TRIM, |current| + 2, |current| + 12);
  }

  /** With no style to begin with, the result is exactly `text-align: right`. */
  lemma EmptyStyleAligns()
    ensures Trim("" + RTL_STYLE, STYLE_TRIM) == "text-align: right"
  {
    assert "" + RTL_STYLE == "; " + "text-align: right" + ";";
    TrimUnique("; ", "text-align: right", ";", STYLE_TRIM);
  }

  lemma NoStyleNoAlign(attrs: Attrs)
    ensures Contains(CurrentStyle(attrs), TEXT_ALIGN) ==> "style" in attrs
  {
    if Contains(CurrentStyle(attrs), TEXT_ALIGN) {
      ContainsLonger(CurrentStyle(attrs), TEXT_ALIGN);
    }
  }

  /** The attributes `_apply_rtl` leaves on one block element. */
  function RtlAttrs(attrs: Attrs): (r: Attrs)
    ensures "dir" in r && r["dir"] == (if "dir" in attrs then attrs["dir"] else "rtl")
    ensures forall k :: k in attrs && k != "dir" && k != "style" ==> k in r && r[k] == attrs[k]
    ensures forall k :: k in r ==> k in attrs || k == "dir" || k == "style"
    ensures Contains(CurrentStyle(attrs), TEXT_ALIGN) ==> "style" in attrs && "style" in r && r["style"] == attrs["style"]
    ensures !Contains(CurrentStyle(attrs), TEXT_ALIGN) ==>
      "style" in r && r["style"] == Trim(CurrentStyle(attrs) + RTL_STYLE, STYLE_TRIM)
    ensures "style" !in attrs ==> r["style"] == "text-align: right"
    ensures "style" in r && Contains(r["style"], TEXT_ALIGN)
  {
    var withDir := if "dir" in attrs then attrs else attrs["dir" := "rtl"];
    var current := CurrentStyle(attrs);
    NoStyleNoAlign(attrs);
    if Contains(current, TEXT_ALIGN) then withDir
    else withDir["style" := AlignedStyle(current)]
  }

  /** The style after the rule, for a style that lacks a text alignment. */
  function AlignedStyle(current: string): (r: string)
    requires !Contains(current, TEXT_ALIGN)
    ensures Contains(r, TEXT_ALIGN)
    ensures current == "" ==> r == "text-align: right"
  {
    AppendedStyleAligns(current);
    EmptyStyleAligns();
    Trim(current + RTL_STYLE, STYLE_TRIM)
  }

  /** A second application changes nothing. */
  lemma RtlAttrsIdempotent(attrs: Attrs)
    ensures RtlAttrs(RtlAttrs(attrs)) == RtlAttrs(attrs)
  {
    var once := RtlAttrs(attrs);
    var twice := RtlAttrs(once);
    assert twice.Keys == once.Keys;
  }

  /** `_apply_rtl(soup)` on the tree as a value; only the attributes of block elements change. */
  function ApplyRtl(f: seq<Node>): (r: seq<Node>)
    ensures |r| == |f|
  {
    if f == [] then [] else [ApplyRtlNode(f[0])] + ApplyRtl(f[1..])
  }

  function ApplyRtlNode(n: Node): Node {
    match n
    case Element(tag, attrs, c) =>
      Element(tag, if tag in BLOCK_TAGS then RtlAttrs(attrs) else attrs, ApplyRtl(c))
    case _ => n
  }

  /** The attributes an element should carry after `_apply_rtl`. */
  function RtlOf(e: Node): Attrs
    requires e.Element?
  {
    if e.tag in BLOCK_TAGS then RtlAttrs(e.attrs) else e.attrs
  }

  /** `b` lists the elements of `a`, one for one, with the attributes `_apply_rtl` gives them. */
  predicate RtlImage(a: seq<Node>, b: seq<Node>)
    requires forall e :: e in a ==> e.Element?
  {
    |a| == |b| &&
    forall i :: 0 <= i < |a| ==> b[i].Element? && b[i].tag == a[i].tag && b[i].attrs == RtlOf(a[i])
  }

  lemma RtlImageConcat(a: seq<Node>, b: seq<Node>, c: seq<Node>, d: seq<Node>)
    requires forall e :: e in a ==> e.Element?
    requires forall e :: e in c ==> e.Element?
    requires RtlImage(a, b) && RtlImage(c, d)
    ensures forall e :: e in a + c ==> e.Element?
    ensures RtlImage(a + c, b + d)
  {
    forall i | 0 <= i < |a + c|
      ensures (b + d)[i].Element? && (b + d)[i].tag == (a + c)[i].tag && (b + d)[i].attrs == RtlOf((a + c)[i])
    {
      if i < |a| {
        assert (a + c)[i] == a[i] && (b + d)[i] == b[i];
      } else {
        assert (a + c)[i] == c[i - |a|] && (b + d)[i] == d[i - |a|];
      }
    }
  }

  /**
   * Element by element in document order, the result has the same tags, and
   * exactly the block elements have their attributes rewritten by `RtlAttrs`.
   */
  lemma {:induction false} ApplyRtlElements(f: seq<Node>)
    ensures RtlImage(Elements(f), Elements(ApplyRtl(f)))
  {
    if f != [] {
      ApplyRtlNodeElements(f[0]);
      ApplyRtlElements(f[1..]);
      assert ApplyRtl(f) == [ApplyRtlNode(f[0])] + ApplyRtl(f[1..]);
      ElementsConcat([ApplyRtlNode(f[0])], ApplyRtl(f[1..]));
      ElementsConcat([f[0]], f[1..]);
      assert [f[0]] + f[1..] == f;
      assert Elements([f[0]]) == ElementsOf(f[0]) by {
        assert [f[0]][1..] == [];
      }
      assert Elements([ApplyRtlNode(f[0])]) == ElementsOf(ApplyRtlNode(f[0])) by {
        assert [ApplyRtlNode(f[0])][1..] == [];
      }
      RtlImageConcat(ElementsOf(f[0]), ElementsOf(ApplyRtlNode(f[0])), Elements(f[1..]), Elements(ApplyRtl(f[1..])));
    }
  }

  lemma {:induction false} ApplyRtlNodeElements(n: Node)
    ensures RtlImage(ElementsOf(n), ElementsOf(ApplyRtlNode(n)))
  {
    match n
    case Element(tag, attrs, c) =>
      ApplyRtlElements(c);
      var m := ApplyRtlNode(n);
      assert ElementsOf(m) == [m] + Elements(ApplyRtl(c));
      RtlImageConcat([n], [m], Elements(c), Elements(ApplyRtl(c)));
    case _ =>
  }

  /** All text and comments are left as they were. */
  lemma {:induction false} ApplyRtlKeepsLeaves(f: seq<Node>)
    ensures Leaves(ApplyRtl(f)) == Leaves(f)
  {
    if f != [] {
      ApplyRtlNodeKeepsLeaves(f[0]);
      ApplyRtlKeepsLeaves(f[1..]);
    }
  }

  lemma {:induction false} ApplyRtlNodeKeepsLeaves(n: Node)
    ensures LeavesOf(ApplyRtlNode(n)) == LeavesOf(n)
  {
    match n
    case Element(_, _, c) => ApplyRtlKeepsLeaves(c);
    case _ =>
  }

  /** Applying the rule to an already right-to-left tree changes nothing. */
  lemma {:induction false} ApplyRtlIdempotent(f: seq<Node>)
    ensures ApplyRtl(ApplyRtl(f)) == ApplyRtl(f)
  {
    if f != [] {
      ApplyRtlNodeIdempotent(f[0]);
      ApplyRtlIdempotent(f[1..]);
    }
  }

  lemma {:induction false} ApplyRtlNodeIdempotent(n: Node)
    ensures ApplyRtlNode(ApplyRtlNode(n)) == ApplyRtlNode(n)
  {
    match n
    case Element(tag, attrs, c) =>
      ApplyRtlIdempotent(c);
      if tag in BLOCK_TAGS {
        RtlAttrsIdempotent(attrs);
      }
    case _ =>
  }

  // ---------------------------------------------------------------------
  // The text-node loop of `_translate_html`
  // ---------------------------------------------------------------------

  /** `translate_text(text, source, target)`; `None` is an exception. */
  type Provider = (string, string, string) -> Option<string>

  /** Strings inside these tags are never translated. */
  const RAW_TEXT_TAGS: set<string> := {"script", "style"}

  /** The name of the soup object, the parent of top-level strings. */
  const DOCUMENT: string := "[document]"

  /** The strings of `f`, in document order, that the loop hands to the provider. */
  function Requests(f: seq<Node>, parent: string): (r: seq<string>)
    ensures forall i :: 0 <= i < |r| ==> !IsBlank(r[i])
  {
    if f == [] then [] else RequestsOf(f[0], parent) + Requests(f[1..], parent)
  }

  function RequestsOf(n: Node, parent: string): (r: seq<string>)
    ensures forall i :: 0 <= i < |r| ==> !IsBlank(r[i])
  {
    match n
    case Element(tag, _, c) => Requests(c, tag)
    case Text(s) => if parent !in RAW_TEXT_TAGS && !IsBlank(s) then [s] else []
    case Comment(_) => []
  }

  /** Every string sent to the provider is the text of a string node of the tree (never a comment). */
  lemma {:induction false} RequestsAreTexts(f: seq<Node>, parent: string)
    ensures forall s :: s in Requests(f, parent) ==> Text(s) in Leaves(f)
  {
    if f != [] {
      RequestsOfAreTexts(f[0], parent);
      RequestsAreTexts(f[1..], parent);
    }
  }

  lemma {:induction false} RequestsOfAreTexts(n: Node, parent: string)
    ensures forall s :: s in RequestsOf(n, parent) ==> Text(s) in LeavesOf(n)
  {
    match n
    case Element(tag, _, c) => RequestsAreTexts(c, tag);
    case _ =>
  }

  /**
   * The loop over `find_all(string=True)`: comments, strings whose parent is
   * `script` or `style`, and whitespace-only strings stay as they are; every
   * other string is replaced by its translation.
   */
  function TranslateTexts(f: seq<Node>, parent: string, translate: string -> Option<string>): (r: seq<Node>)
    ensures |r| == |f|
  {
    if f == [] then [] else [TranslateTextsNode(f[0], parent, translate)] + TranslateTexts(f[1..], parent, translate)
  }

  function TranslateTextsNode(n: Node, parent: string, translate: string -> Option<string>): Node {
    match n
    case Element(tag, attrs, c) => Element(tag, attrs, TranslateTexts(c, tag, translate))
    case Text(s) =>
      if parent !in RAW_TEXT_TAGS && !IsBlank(s) then Text(TranslatedString(s, translate(s))) else n
    case Comment(_) => n
  }

  /** The result depends on the provider only through the strings in `Requests`: nothing else is sent. */
  lemma {:induction false} TranslateUsesOnlyRequests(f: seq<Node>, parent: string, t1: string -> Option<string>, t2: string -> Option<string>)
    requires forall s :: s in Requests(f, parent) ==> t1(s) == t2(s)
    ensures TranslateTexts(f, parent, t1) == TranslateTexts(f, parent, t2)
  {
    if f != [] {
      TranslateNodeUsesOnlyRequests(f[0], parent, t1, t2);
      TranslateUsesOnlyRequests(f[1..], parent, t1, t2);
    }
  }

  lemma {:induction false} TranslateNodeUsesOnlyRequests(n: Node, parent: string, t1: string -> Option<string>, t2: string -> Option<string>)
    requires forall s :: s in RequestsOf(n, parent) ==> t1(s) == t2(s)
    ensures TranslateTextsNode(n, parent, t1) == TranslateTextsNode(n, parent, t2)
  {
    match n
    case Element(tag, _, c) => TranslateUsesOnlyRequests(c, tag, t1, t2);
    case Text(s) =>
      if parent !in RAW_TEXT_TAGS && !IsBlank(s) {
        assert s in RequestsOf(n, parent);
      }
    case Comment(_) =>
  }

  /** A provider that fails, or hands back each string's own core, leaves the tree unchanged. */
  lemma {:induction false} TranslateIdentity(f: seq<Node>, parent: string, translate: string -> Option<string>)
    requires forall s :: s in Requests(f, parent) ==> translate(s) == None || translate(s) == Some(Strip(s))
    ensures TranslateTexts(f, parent, translate) == f
  {
    if f != [] {
      TranslateNodeIdentity(f[0], parent, translate);
      TranslateIdentity(f[1..], parent, translate);
    }
  }

  lemma {:induction false} TranslateNodeIdentity(n: Node, parent: string, translate: string -> Option<string>)
    requires forall s :: s in RequestsOf(n, parent) ==> translate(s) == None || translate(s) == Some(Strip(s))
    ensures TranslateTextsNode(n, parent, translate) == n
  {
    match n
    case Element(tag, _, c) => TranslateIdentity(c, tag, translate);
    case Text(s) =>
      if parent !in RAW_TEXT_TAGS && !IsBlank(s) {
        assert s in RequestsOf(n, parent);
      }
    case Comment(_) =>
  }

  /** Only string nodes change: the tags of the tree stay as they are. */
  lemma {:induction false} TranslateKeepsTags(f: seq<Node>, parent: string, translate: string -> Option<string>)
    ensures TagSeq(TranslateTexts(f, parent, translate)) == TagSeq(f)
  {
    if f != [] {
      TranslateNodeKeepsTags(f[0], parent, translate);
      TranslateKeepsTags(f[1..], parent, translate);
    }
  }

  lemma {:induction false} TranslateNodeKeepsTags(n: Node, parent: string, translate: string -> Option<string>)
    ensures TagSeqOf(TranslateTextsNode(n, parent, translate)) == TagSeqOf(n)
  {
    match n
    case Element(tag, _, c) => TranslateKeepsTags(c, tag, translate);
    case _ =>
  }

  // ---------------------------------------------------------------------
  // `_safe_translate`
  // ---------------------------------------------------------------------

  /** The `LANGUAGE_CODE_MAP` of this file (it differs from the blog's). */
  const TARGET_CODE_MAP: map<string, string> := map[
    "en" := "EN-US", "br" := "PT-BR", "pt" := "PT-PT", "de" := "DE", "es" := "ES",
    "fr" := "FR", "ru" := "RU", "ar" := "AR", "tr" := "TR", "id" := "ID",
    "it" := "IT", "uk" := "UK", "ko" := "KO", "ja" := "JA", "zh-hans" := "ZH"
  ]

  const RTL_LANGS: set<string> := {"ar", "ar-ye", "ar-eg", "ar-sa", "fa", "he", "ur", "ps"}

  /** `LANGUAGE_CODE_MAP.get(target_lang, target_lang)`. */
  function NormalizeTarget(target: string): (r: string)
    ensures target !in TARGET_CODE_MAP ==> r == target
    ensures target in TARGET_CODE_MAP ==> r in TARGET_CODE_MAP.Values
  {
    if target in TARGET_CODE_MAP then TARGET_CODE_MAP[target] else target
  }

  predicate IsRtlTarget(normalized: string) {
    Lower(normalized) in RTL_LANGS
  }

  lemma LowerTwo(s: string, a: char, b: char)
    requires |s| == 2 && LowerChar(s[0]) == a && LowerChar(s[1]) == b
    ensures Lower(s) == [a, b]
  {
  }

  /** Of the mapped codes only Arabic's is right-to-left. */
  lemma MappedRtl(target: string)
    requires target in TARGET_CODE_MAP
    ensures IsRtlTarget(TARGET_CODE_MAP[target]) <==> target == "ar"
  {
    var v := TARGET_CODE_MAP[target];
    if target == "ar" {
      LowerTwo("AR", 'a', 'r');
    } else if |v| == 2 {
      assert 'A' <= v[0] <= 'Z' && 'A' <= v[1] <= 'Z';
      assert v != "AR";
      var low := Lower(v);
      assert low[0] == LowerChar(v[0]) && low[1] == LowerChar(v[1]);
      assert low !in RTL_LANGS;
    } else {
      assert |v| == 5;
      assert v[0] in {'E', 'P'};
    }
  }

  /** Right-to-left markup is added for Arabic, and for unmapped codes that are right-to-left themselves. */
  lemma RtlTargets(target: string)
    ensures IsRtlTarget(NormalizeTarget(target)) <==>
      target == "ar" || (target !in TARGET_CODE_MAP && IsRtlTarget(target))
  {
    if target in TARGET_CODE_MAP {
      MappedRtl(target);
    }
  }

  predicate HasMarkup(text: string) {
    '<' in text && '>' in text
  }

  /**
   * `_translate_html(text)`: `None` where parsing (or the import) fails;
   * otherwise the serialized tree with its strings translated and, for a
   * right-to-left target, the block elements marked.
   */
  function TranslateHtml(text: string, source: string, normalized: string, provider: Provider,
                         parse: string -> Option<seq<Node>>, render: seq<Node> -> string): (r: Option<string>)
    ensures r.None? <==> parse(text).None?
  {
    match parse(text)
    case None => None
    case Some(soup) =>
      var translated := TranslateTexts(soup, DOCUMENT, s => provider(s, source, normalized));
      Some(render(if IsRtlTarget(normalized) then ApplyRtl(translated) else translated))
  }

  /** What `_safe_translate` returns, and the provider's `_disable_after_error` afterwards. */
  datatype Translation = Translation(text: string, disableAfterError: bool)

  /**
   * `_safe_translate(provider, text, source_lang, target_lang)`; `provider`
   * is `None` when none could be built, and `disabled` is its current
   * `_disable_after_error`. A falsy `text` is the empty string.
   */
  function SafeTranslate(provider: Option<Provider>, disabled: bool, text: string, source: string, target: string,
                         parse: string -> Option<seq<Node>>, render: seq<Node> -> string): (r: Translation)
    ensures text == [] || provider.None? || disabled ==> r == Translation(text, disabled)
    ensures disabled ==> r.disableAfterError
    ensures r.disableAfterError && !disabled ==> r.text == text
    ensures r.disableAfterError != disabled ==>
      provider.Some? && provider.value(text, source, NormalizeTarget(target)).None?
    ensures text != [] && provider.Some? && !disabled && (!HasMarkup(text) || parse(text).None?) ==>
      var whole := provider.value(text, source, NormalizeTarget(target));
      && (whole.None? ==> r == Translation(text, true))
      && (whole.Some? ==> r == Translation(whole.value, false))
  {
    if text == [] || provider.None? || disabled then Translation(text, disabled)
    else
      var normalized := NormalizeTarget(target);
      var viaHtml := if HasMarkup(text) then TranslateHtml(text, source, normalized, provider.value, parse, render) else None;
      if viaHtml.Some? then Translation(viaHtml.value, false)
      else match provider.value(text, source, normalized)
        case Some(t) => Translation(t, false)
        case None => Translation(text, true)
  }

  /** Without both `<` and `>` the parser and serializer play no part. */
  lemma PlainTextSkipsHtml(provider: Option<Provider>, disabled: bool, text: string, source: string, target: string,
                           parse1: string -> Option<seq<Node>>, render1: seq<Node> -> string,
                           parse2: string -> Option<seq<Node>>, render2: seq<Node> -> string)
    requires !HasMarkup(text)
    ensures SafeTranslate(provider, disabled, text, source, target, parse1, render1)
         == SafeTranslate(provider, disabled, text, source, target, parse2, render2)
  {
  }

  /** Markup that parses is never sent to the provider whole, so a failure there cannot disable it. */
  lemma ParsedMarkupStaysEnabled(provider: Provider, text: string, source: string, target: string,
                                 parse: string -> Option<seq<Node>>, render: seq<Node> -> string)
    requires text != [] && HasMarkup(text) && parse(text).Some?
    ensures !SafeTranslate(Some(provider), false, text, source, target, parse, render).disableAfterError
    ensures SafeTranslate(Some(provider), false, text, source, target, parse, render).text
         == TranslateHtml(text, source, NormalizeTarget(target), provider, parse, render).value
  {
  }

  /**
   * In the HTML path only the strings of `Requests` reach the provider:
   * two providers that agree on them give the same page.
   */
  lemma TranslateHtmlUsesOnlyRequests(text: string, source: string, normalized: string, p1: Provider, p2: Provider,
                                      parse: string -> Option<seq<Node>>, render: seq<Node> -> string)
    requires parse(text).Some?
    requires forall s :: s in Requests(parse(text).value, DOCUMENT) ==> p1(s, source, normalized) == p2(s, source, normalized)
    ensures TranslateHtml(text, source, normalized, p1, parse, render) == TranslateHtml(text, source, normalized, p2, parse, render)
  {
    var soup := parse(text).value;
    var t1 := s => p1(s, source, normalized);
    var t2 := s => p2(s, source, normalized);
    TranslateUsesOnlyRequests(soup, DOCUMENT, t1, t2);
  }

  // ---------------------------------------------------------------------
  // `_get_template_paths`
  // ---------------------------------------------------------------------

  /** `os.path.join(a, b)` on POSIX. */
  function PathJoin(a: string, b: string): (r: string)
    ensures StartsWith(b, "/") ==> r == b
    ensures !StartsWith(b, "/") ==> StartsWith(r, a) && EndsWith(r, b)
  {
    if StartsWith(b, "/") then b
    else if a == [] || EndsWith(a, "/") then a + b
    else a + "/" + b
  }

  /** `_get_template_paths(slug_url, language_slug)` under `base`, the project's `BASE_DIR`. */
  function TemplatePaths(base: string, slug: string, languageSlug: string): (string, string) {
    var dir := PathJoin(PathJoin(base, "templates"), slug);
    (dir, PathJoin(dir, languageSlug + ".html"))
  }

  /** The template file sits directly inside the template directory. */
  lemma TemplateFileInDir(base: string, slug: string, languageSlug: string)
    requires '/' !in languageSlug
    ensures StartsWith(TemplatePaths(base, slug, languageSlug).1, TemplatePaths(base, slug, languageSlug).0)
    ensures TemplatePaths(base, slug, languageSlug).1[|TemplatePaths(base, slug, languageSlug).0|..]
      == JoinSep(TemplatePaths(base, slug, languageSlug).0) + languageSlug + ".html"
  {
    var dir := PathJoin(PathJoin(base, "templates"), slug);
    assert TemplatePaths(base, slug, languageSlug) == (dir, PathJoin(dir, languageSlug + ".html"));
    FileInDir(dir, languageSlug);
  }

  lemma FileInDir(dir: string, languageSlug: string)
    requires '/' !in languageSlug
    ensures StartsWith(PathJoin(dir, languageSlug + ".html"), dir)
    ensures PathJoin(dir, languageSlug + ".html")[|dir|..] == JoinSep(dir) + languageSlug + ".html"
  {
    RelativeFile(languageSlug);
    PathJoinRelative(dir, languageSlug + ".html");
    assert JoinSep(dir) + (languageSlug + ".html") == JoinSep(dir) + languageSlug + ".html";
  }

  /** The separator `os.path.join` puts after `a` before a relative part. */
  function JoinSep(a: string): string {
    if a == [] || EndsWith(a, "/") then "" else "/"
  }

  lemma RelativeFile(languageSlug: string)
    requires '/' !in languageSlug
    ensures !StartsWith(languageSlug + ".html", "/")
  {
    var file := languageSlug + ".html";
    assert file[|languageSlug|] == '.';
    if languageSlug != [] {
      assert file[0] == languageSlug[0];
    }
  }

  /** A relative part is appended after the separator, and `a` is a prefix of the result. */
  lemma PathJoinRelative(a: string, b: string)
    requires !StartsWith(b, "/")
    ensures PathJoin(a, b) == a + (JoinSep(a) + b)
    ensures StartsWith(PathJoin(a, b), a) && PathJoin(a, b)[|a|..] == JoinSep(a) + b
  {
    var rest := JoinSep(a) + b;
    assert PathJoin(a, b) == a + rest;
    assert (a + rest)[..|a|] == a;
  }

  /** A slug as `clean` leaves it, under a base without a trailing slash. */
  lemma CleanSlugPaths(base: string, slug: string, languageSlug: string)
    requires base != [] && base[|base| - 1] != '/'
    requires slug != [] && '/' !in slug && '/' !in languageSlug
    ensures TemplatePaths(base, slug, languageSlug) ==
      (base + "/templates/" + slug, base + "/templates/" + slug + "/" + languageSlug + ".html")
  {
    var templates := base + "/" + "templates";
    JoinPlain(base, "templates");
    var dir := templates + "/" + slug;
    JoinPlain(templates, slug);
    var file := languageSlug + ".html";
    RelativeFile(languageSlug);
    JoinPlain(dir, file);
    TemplateSpelling(base, slug, languageSlug);
  }

  /** Joining a relative part onto a non-empty path without a trailing slash inserts one slash. */
  lemma JoinPlain(a: string, b: string)
    requires a != [] && a[|a| - 1] != '/'
    requires b == [] || b[0] != '/'
    ensures PathJoin(a, b) == a + "/" + b
    ensures b != [] ==> (a + "/" + b)[|a + "/" + b| - 1] == b[|b| - 1]
  {
    assert !EndsWith(a, "/") by {
      assert a[|a| - 1] != "/"[0];
    }
    if b != [] {
      assert !StartsWith(b, "/") by {
        assert b[0] != "/"[0];
      }
    }
  }

  lemma TemplateSpelling(base: string, slug: string, languageSlug: string)
    ensures base + "/" + "templates" + "/" + slug == base + "/templates/" + slug
    ensures base + "/" + "templates" + "/" + slug + "/" + (languageSlug + ".html")
      == base + "/templates/" + slug + "/" + languageSlug + ".html"
  {
  }

  /** Two segments without slashes before a slash are recovered from the joined string. */
  lemma SlashSplitUnique(a: string, x: string, c: string, y: string)
    requires '/' !in a && '/' !in c && a + "/" + x == c + "/" + y
    ensures a == c && x == y
  {
    var s := a + "/" + x;
    var t := c + "/" + y;
    assert s[|a|] == '/' && t[|c|] == '/';
    assert forall k :: 0 <= k < |a| ==> s[k] == a[k] && s[k] != '/';
    assert forall k :: 0 <= k < |c| ==> t[k] == c[k] && t[k] != '/';
    assert |a| == |c|;
    assert a == s[..|a|] && c == t[..|c|];
    assert x == s[|a| + 1..] && y == t[|c| + 1..];
  }

  /** Distinct pages (slug and language slug) never share a template file. */
  lemma TemplatePathsInjective(base: string, s1: string, l1: string, s2: string, l2: string)
    requires base != [] && base[|base| - 1] != '/'
    requires s1 != [] && '/' !in s1 && '/' !in l1
    requires s2 != [] && '/' !in s2 && '/' !in l2
    requires TemplatePaths(base, s1, l1).1 == TemplatePaths(base, s2, l2).1
    ensures s1 == s2 && l1 == l2
  {
    CleanSlugPaths(base, s1, l1);
    CleanSlugPaths(base, s2, l2);
    var prefix := base + "/templates/";
    PrefixedFile(prefix, s1, l1);
    PrefixedFile(prefix, s2, l2);
    DropPrefix(prefix, s1 + "/" + (l1 + ".html"), s2 + "/" + (l2 + ".html"));
    SlashSplitUnique(s1, l1 + ".html", s2, l2 + ".html");
    DropSuffix(l1, l2, ".html");
  }

  lemma PrefixedFile(prefix: string, slug: string, languageSlug: string)
    ensures prefix + slug + "/" + languageSlug + ".html" == prefix + (slug + "/" + (languageSlug + ".html"))
  {
  }

  lemma DropPrefix(p: string, x: string, y: string)
    requires p + x == p + y
    ensures x == y
  {
    assert x == (p + x)[|p|..];
    assert y == (p + y)[|p|..];
  }

  lemma DropSuffix(x: string, y: string, q: string)
    requires x + q == y + q
    ensures x == y
  {
    assert x == (x + q)[..|x|];
    assert y == (y + q)[..|y|];
  }

  /** A page that passes `clean` (and is not the homepage) gets its templates under its own slug. */
  lemma CleanedPageTemplates(base: string, raw: string, language: string, languages: seq<string>, languageSlug: string)
    requires base != [] && base[|base| - 1] != '/' && '/' !in languageSlug
    requires CleanedSlug(raw, false, language, languages).Some?
    ensures var slug := CleanedSlug(raw, false, language, languages).value;
      TemplatePaths(base, slug, languageSlug).0 == base + "/templates/" + slug
  {
    CleanSlugPaths(base, CleanedSlug(raw, false, language, languages).value, languageSlug);
  }
}
