# Pinterest video downloader: a Dafny model of its core logic

The modelled repository is a Django site that downloads Pinterest media. Its
translations are generated automatically. The model covers the parts that
decide things, and leaves out the parts that talk to the outside world:

- **Translation cleanup** (`blog/translation_cleanup.py`). A machine-translated
  HTML fragment is forced back into the shape of the original. The steps are:
  - tags the original never uses are unwrapped;
  - stray `<br>`s go;
  - every `<ul>`/`<ol>` is aligned with the original list at the same position:
    tag, attributes, item count, item attributes and `<p>` wrapping;
  - links to posts are rewritten to the localized slugs;
  - blank top-level strings are dropped;
  - when the tree has a `<body>`, only that body's content is kept.

  The slug lookup is built from the posts.
- **Proxy pool** (`pincatch/proxy_pool.py`). A round-robin pool of proxies with
  per-proxy cooldown deadlines and failure counters.
- **Page slugs** (`pincatch/models.py`). The validation and defaulting of a
  page's `slug_url` and `language_slug`.
- **Language codes** (`blog/signals.py`). The exact-then-case-insensitive
  mapping of site language codes to the translation provider's codes.
- **Page translation helpers** (`pincatch/signals.py`):
  - a text node's replacement keeps its surrounding whitespace;
  - the right-to-left attribute rule;
  - the short-circuits and dispatch of `_safe_translate`, including its
    text-node loop;
  - the template file locations.
- **Browser helpers** (`static/js/app.js`):
  - the CSRF cookie reader;
  - the Pinterest URL check;
  - the language menu's open state;
  - its wrap-around arrow-key focus index.

How the model represents things:

- Parsed markup is a value: a forest of `Html.Node`.
- The tree passes are recursive functions on that value. Their properties are
  stated over the elements in document order (`Elements`, `TagSeq`, `Leaves`,
  `Lists`).
- Objects whose fields the code updates are classes: `ProxyPool`, `Page` and
  the language menu.
- Loops that build a value become methods with loop invariants: the proxy
  scan, the segment replacement, the slug lookup and the cookie scan.
- Each method is specified by a function on the old state and the inputs.
- The HTML parser, the serializer, `urlparse`/`urlunparse`,
  `decodeURIComponent` and the translation provider enter as function
  parameters.
- Clock readings are integer parameters.

Files (one module each):

| file | contents |
|---|---|
| `wrappers.dfy` | `Option`, `Outcome` |
| `strings.dfy` | Python `strip`/`split`/`join`/`lower`/`in`, JavaScript `trim` |
| `html.dfy` | the markup tree and its document-order views |
| `tag_cleanup.dfy` | the allow-list, tag unwrapping, `<br>` removal |
| `list_labels.dfy` | lists tagged with their snapshot index, the surplus-list drop |
| `list_alignment.dfy` | one list's round of `_normalize_lists` |
| `list_pass.dfy` | the whole list pass |
| `internal_links.dfy` | href rewriting and `build_slug_lookup` |
| `translation_cleanup.dfy` | `clean_translation_html` |
| `promotion_finding.dfy` | the `contents.index(item)` discrepancy (see Findings) |
| `decomposed_list_finding.dfy` | the list loop reaching a destroyed list (see Findings) |
| `list_rerun.dfy` | a second run of the list pass changing the tree again |
| `contained_list.dfy` | a list inside a `<template>`, whose items have no text |
| `proxy_pool.dfy` | `ProxyPool` |
| `page.dfy` | `Page.clean`, `Page.save`, `Page.get_language_slug` |
| `language_codes.dfy` | `normalize_language_code` |
| `page_translation.dfy` | the helpers of `pincatch/signals.py` |
| `client.dfy` | the helpers of `static/js/app.js` |

## Model

| member | source | states |
|---|---|---|
| `TagCleanup.AllowedTags` | blog/translation_cleanup.py:11-14 | the allow-list; its contract is stated by `AllowedTagsExact` and `OriginalIsAllowed` |
| `TagCleanup.AllowedTagsExact` | blog/translation_cleanup.py:11-14 | a tag is in the allow-list iff it occurs at some depth of the original; empty markup gives the empty set |
| `TagCleanup.OriginalIsAllowed` | blog/translation_cleanup.py:11-14 | every element of the original carries an allowed tag |
| `TagCleanup.Unwrap` | blog/translation_cleanup.py:99-105 | the unwrap pass; its contract is stated by `UnwrapAllowed`, `UnwrapKeepsLeaves`, `UnwrapTagSeq`, `UnwrapIdentity` and `UnwrapIdempotent` |
| `TagCleanup.UnwrapAllowed` | blog/translation_cleanup.py:99-105 | after unwrapping, every element at any depth is allowed or is `html`/`body` |
| `TagCleanup.UnwrapKeepsLeaves` | blog/translation_cleanup.py:99-105 | unwrapping keeps every text and comment node, in document order |
| `TagCleanup.UnwrapTagSeq` | blog/translation_cleanup.py:99-105 | the surviving elements are exactly the kept ones of the input, in document order |
| `TagCleanup.UnwrapIdentity` | blog/translation_cleanup.py:99-105 | a forest whose tags are all kept is unchanged |
| `TagCleanup.UnwrapIdempotent` | blog/translation_cleanup.py:101-105 | a second pass changes nothing: one pass over the snapshot suffices |
| `TagCleanup.StripBreaks` | blog/translation_cleanup.py:108-113 | the break pass, run only when the original has no `br`; stated by `StripBreaksRemovesAll` and `StripBreaksAfterUnwrap` |
| `TagCleanup.RemoveBreaks` | blog/translation_cleanup.py:112-113 | every `<br>` decomposed; stated by `RemoveBreaksKeepsRest` and `RemoveBreaksIdentity` |
| `TagCleanup.StripBreaksRemovesAll` | blog/translation_cleanup.py:108-113 | when the original has no `<br>`, none is left at any depth |
| `TagCleanup.RemoveBreaksKeepsRest` | blog/translation_cleanup.py:112-113 | with void breaks, every string and every non-`br` element stays, in order |
| `TagCleanup.RemoveBreaksIdentity` | blog/translation_cleanup.py:108-113 | a forest without `<br>` is unchanged |
| `TagCleanup.StripBreaksAfterUnwrap` | blog/translation_cleanup.py:175-176 | after unwrapping, the break pass has nothing left to do |
| `ListLabels.EraseLabel` | blog/translation_cleanup.py:19-20 | tagging lists with their snapshot index loses nothing |
| `ListLabels.LabelPairs` | blog/translation_cleanup.py:19-20 | the tags are the snapshot indices 0, 1, … in document order, and the list tagged i is the i-th list |
| `ListLabels.DropLabelPairs` | blog/translation_cleanup.py:22-26 | after the drop, the surviving lists are exactly the first k of the snapshot, in order |
| `ListLabels.PairedCountIsListCount` | blog/translation_cleanup.py:26 | in a well-tagged forest the tagged lists are all the lists, one per tag |
| `ListAlignment.CopyAttrs` | blog/translation_cleanup.py:39-43 | for each copied name, the result has it iff the source does, with the source's value; other attributes are untouched |
| `ListAlignment.PromoteItems` | blog/translation_cleanup.py:48-60 | the item loop: nested items promoted, empty items dropped, every item without nested items dropped when the list lies inside a string container; stated by `PromotionInPlace`, `EmptyItemDropped` and `ScriptOnlyItemDropped` |
| `ListAlignment.StrippedText` | blog/translation_cleanup.py:59 | `get_text(strip=True)`; its use is stated by `EmptyItemDropped` and `ScriptOnlyItemDropped` |
| `ListAlignment.PromotionInPlace` | blog/translation_cleanup.py:49-56 | an item with nested items is replaced, in its own place, by those items; siblings are untouched |
| `ListAlignment.EmptyItemDropped` | blog/translation_cleanup.py:58-60 | an item without nested items is dropped iff its stripped text is empty; comments and the strings of `script`, `style`, `template`, `rt` and `rp` elements are not text, whether the element lies inside the item or around the whole list |
| `ListAlignment.ScriptOnlyItemDropped` | blog/translation_cleanup.py:58-60 | an item holding only a script is dropped, whatever the script's code |
| `ListAlignment.TrimStep` | blog/translation_cleanup.py:62-66 | trimming only when the original has items and there is a surplus; stated by `AlignListTrims` and `AlignListWithoutSourceItems` |
| `ListAlignment.PadStep` | blog/translation_cleanup.py:68-71 | padding only when the original has items and there is a shortfall; stated by `AlignListMatches` (the item count) and `AlignListWithoutSourceItems` |
| `ListAlignment.TrimItems` | blog/translation_cleanup.py:62-66 | keeps the first `keep` direct items and every non-item child |
| `ListAlignment.PadItems` | blog/translation_cleanup.py:68-71 | adds exactly `count` items after the existing ones, leaving the rest unchanged |
| `ListAlignment.FixItem` | blog/translation_cleanup.py:81-96 | the item takes the source item's class and style; a source `<p>` makes it wrap its content in one `<p>`, and its text is unchanged |
| `ListAlignment.FixItems` | blog/translation_cleanup.py:75-96 | the per-item loop over direct items and source items; stated by `FixItemsSpec` |
| `ListAlignment.FixItemsSpec` | blog/translation_cleanup.py:75-96 | the i-th direct item agrees with the i-th source item, as far as there are source items; non-items stay |
| `ListAlignment.AlignList` | blog/translation_cleanup.py:34-96 | one round on one list; stated by `AlignListMatches`, `AlignListCount` and `AlignListKeeps` |
| `ListAlignment.AlignItems` | blog/translation_cleanup.py:45-96 | the round's content: promotion, trimming, padding, item fixes; stated by `AlignListMatches`, `AlignListTrims` and `AlignListWithoutSourceItems` |
| `ListAlignment.AlignListMatches` | blog/translation_cleanup.py:34-96 | after its round a list has the original's tag, structural attributes, item count (when non-zero) and matching items |
| `ListAlignment.AlignListWithoutSourceItems` | blog/translation_cleanup.py:63-71 | an original list with no direct items disables trimming and padding |
| `ListAlignment.AlignListTrims` | blog/translation_cleanup.py:63-66 | a surplus of items is cut to the desired count, keeping the other content |
| `ListAlignment.AlignListCount` | blog/translation_cleanup.py:49-71 | a round never adds a list below the one it processes |
| `ListAlignment.AlignListKeeps` | blog/translation_cleanup.py:34-96 | a round introduces only tags of the translation or of the original list |
| `ListPass.AlignForest` | blog/translation_cleanup.py:28-96 | the loop over the snapshot, corrected to skip destroyed lists, passing down whether a string container encloses the list; stated by `NormalizeListsMatch`, `NormalizeListsCount` and `NormalizeListsTags`, and tied to the loop as written by `DecomposedListFinding.AlignForestAgrees` |
| `ListPass.AfterDropPairs` | blog/translation_cleanup.py:19-26 | the lists left after the drop are the first min(translated, original) of the snapshot |
| `ListPass.NormalizeLists` | blog/translation_cleanup.py:17-96 | `_normalize_lists`, corrected as in the Findings; stated by `NormalizeListsMatch`, `NormalizeListsCount`, `NormalizeListsTags`, and shown not idempotent by `ListRerun.NormalizeListsNotIdempotent` |
| `ListPass.NormalizeListsTagged` | blog/translation_cleanup.py:19-96 | the same pass with each list still carrying its snapshot index; stated by `NormalizeListsMatch` |
| `ListPass.NormalizeListsMatch` | blog/translation_cleanup.py:17-96 | after the corrected pass, every list is the translated list of some snapshot index p and matches the original's p-th list |
| `ListPass.NormalizeListsCount` | blog/translation_cleanup.py:17-32 | the result has no more lists than the original |
| `ListPass.NormalizeListsTags` | blog/translation_cleanup.py:17-96 | the pass adds only tags that the original and the translation use |
| `ContainedList.ContainerHidesItemText` | blog/translation_cleanup.py:58-71 | with `<template><ul><li>x</li></ul></template>` as both original and translation the item's string is a template string, so the item is dropped and an empty one padded, giving `<template><ul><li></li></ul></template>`; the bare `<ul><li>x</li></ul>` is left as it is |
| `ListRerun.NormalizeListsNotIdempotent` | blog/translation_cleanup.py:49-71 | running the pass again can change the tree: with original `<ul><li>p</li><li>q</li></ul>`, `<ul><li>a<li></li></li><li>y</li></ul>` gives `<ul><li></li><li>y</li></ul>` (the promoted empty item skips the emptiness test), and a second run gives `<ul><li>y</li><li></li></ul>` |
| `InternalLinks.Segments` | blog/translation_cleanup.py:131-132 | the path segments are non-empty and hold no `/` |
| `InternalLinks.FirstMatch` | blog/translation_cleanup.py:137-142 | the first segment with a truthy lookup value, or the count when none has one |
| `InternalLinks.ReplaceFirstMatch` | blog/translation_cleanup.py:136-145 | the loop replaces exactly the first segment with a truthy value and reports whether it did |
| `InternalLinks.RewritePath` | blog/translation_cleanup.py:127-151 | the path rewrite of one href; stated by `RewritePathNone` and `RewritePathSegments` |
| `InternalLinks.RewritePathNone` | blog/translation_cleanup.py:127-145 | a path is rewritten iff one of its segments has a truthy lookup value |
| `InternalLinks.RewritePathSegments` | blog/translation_cleanup.py:147-151 | the new path starts with `/` and ends with `/` iff the old one did; provided the replacement value holds no `/`, it re-splits into the old segments with the first match replaced (a value with `/`, joined unchecked at line 150, re-splits into more segments) |
| `InternalLinks.RewriteHref` | blog/translation_cleanup.py:122-154 | one anchor's new href, if any; stated by `RewriteUrl` and `RewritePathNone` |
| `InternalLinks.RewriteUrl` | blog/translation_cleanup.py:153-154 | only the path of the parsed URL changes |
| `InternalLinks.EmptyLookupRewritesNothing` | blog/translation_cleanup.py:118-119 | with an empty lookup nothing is rewritten, so the early return is harmless |
| `InternalLinks.RewriteLinks` | blog/translation_cleanup.py:121-154 | the anchor loop without the early return; stated by `RewriteLinksOnlyHrefs` and `EmptyLookupRewritesNothing` |
| `InternalLinks.RewriteHrefs` | blog/translation_cleanup.py:116-154 | `_rewrite_internal_hrefs`, with the early return of lines 118-119; `EmptyLookupRewritesNothing` makes it equal to `RewriteLinks`, which `RewriteLinksOnlyHrefs` states |
| `InternalLinks.RewriteLinksOnlyHrefs` | blog/translation_cleanup.py:121-154 | only anchors' `href`s change; elements, lists and text stay as they were |
| `InternalLinks.LocalSlug` | blog/translation_cleanup.py:196-197 | the value stored for a post is never empty |
| `InternalLinks.BuildSlugLookup` | blog/translation_cleanup.py:189-198 | the loop computes the lookup that `SlugLookup` specifies |
| `InternalLinks.SlugLookup` | blog/translation_cleanup.py:189-198 | the lookup `build_slug_lookup` returns; stated by `SlugLookupEntries`, and computed by the loop of `BuildSlugLookup` |
| `InternalLinks.SlugLookupEntries` | blog/translation_cleanup.py:192-197 | the keys are exactly the truthy slugs, each value is truthy, and the last post with a slug wins |
| `TranslationCleanup.TrimTopLevel` | blog/translation_cleanup.py:180-183 | the top-level string trim; stated by `TrimTopLevelOne`, `TrimTopLevelConcat`, `TrimTopLevelStrings` and `TrimTopLevelKeepsElements` |
| `TranslationCleanup.TrimTopLevelOne` | blog/translation_cleanup.py:180-183 | a single top-level node is removed iff it is a string (text or comment) that `strip()` empties |
| `TranslationCleanup.TrimTopLevelConcat` | blog/translation_cleanup.py:180-183 | the trim works node by node, so the result is the non-blank top-level nodes in their order and with their repetitions |
| `TranslationCleanup.TrimTopLevelStrings` | blog/translation_cleanup.py:180-183 | no blank top-level string remains, nothing new appears, and every non-blank node is kept |
| `TranslationCleanup.TrimTopLevelKeepsElements` | blog/translation_cleanup.py:181-183 | the trim touches only strings: elements and lists are unchanged |
| `TranslationCleanup.FirstBodySpec` | blog/translation_cleanup.py:159 | `soup.body` is the first `body` element in document order, and `None` iff there is none |
| `TranslationCleanup.SoupToMarkup` | blog/translation_cleanup.py:157-161 | `_soup_to_markup` before serializing; stated by `SoupToMarkupSpec`, `SoupToMarkupDropsOutside` and `SoupToMarkupWithin` |
| `TranslationCleanup.SoupToMarkupSpec` | blog/translation_cleanup.py:157-161 | without a `body` the whole tree is kept; with one, exactly the children of the first `body` in document order |
| `TranslationCleanup.SoupToMarkupDropsOutside` | blog/translation_cleanup.py:157-161 | `<p>x</p><body><p>y</p></body>` comes back as `<p>y</p>` |
| `TranslationCleanup.SoupToMarkupWithin` | blog/translation_cleanup.py:157-161 | what is kept is part of the tree: no new element and no more lists |
| `TranslationCleanup.CleanTranslation` | blog/translation_cleanup.py:164-186 | `clean_translation_html` on parsed trees, up to serializing; stated by the four `CleanTranslation…` lemmas |
| `TranslationCleanup.CleanTranslationTags` | blog/translation_cleanup.py:164-186 | every element of the result carries a tag of the original or a wrapper tag |
| `TranslationCleanup.CleanTranslationForeignTag` | blog/translation_cleanup.py:164-186 | a non-wrapper tag the original never uses does not appear in the result |
| `TranslationCleanup.CleanTranslationListCount` | blog/translation_cleanup.py:164-186 | the result has no more lists than the original |
| `TranslationCleanup.CleanTranslationWithoutLookup` | blog/translation_cleanup.py:170-185 | with no posts the pipeline is unwrap, list alignment, trim and the body selection (the break pass is a no-op after unwrapping) |
| `PromotionFinding.StructuralIndex` | blog/translation_cleanup.py:54 | `contents.index(x)`: the first position whose markup equals `x`'s (same name, attributes and children; strings by their characters), `|contents|` when none does |
| `PromotionFinding.SameMarkupIgnoresLabels` | blog/translation_cleanup.py:54 | the `==` that `index` uses ignores which snapshot list an element is, counts a string and a comment of the same characters as equal, and never equates a string with an element |
| `PromotionFinding.LabelsDoNotSeparateItems` | blog/translation_cleanup.py:54 | items holding lists of different snapshot positions still compare equal, so `index` finds the earlier one |
| `PromotionFinding.InsertAsWritten` | blog/translation_cleanup.py:53-54 | one step as written: the entry, detached from its parent, lands at the position `index` reported before it moved, and the item moves one place on |
| `PromotionFinding.RemoveItem` | blog/translation_cleanup.py:55 | `item.decompose()` removes exactly the item itself, by position, whatever it has come to equal |
| `PromotionFinding.InsertMissesItem` | blog/translation_cleanup.py:54 | when an earlier sibling equals the item, the entry lands at or before that sibling, not directly before the item |
| `PromotionFinding.StructuralIndexReordersItems` | blog/translation_cleanup.py:49-56 | on `<ul><li>a</li><li>a<li>b<li>c</li></li></li></ul>` the two steps and the removal as written end with c, a, b, where the corrected promotion gives a, b, c |
| `DecomposedListFinding.AlignForestAsWritten` | blog/translation_cleanup.py:28-96 | the list loop as written, `None` where it raises; stated by `AlignForestAgrees` and `DecomposedListRaises` |
| `DecomposedListFinding.NormalizeListsAsWritten` | blog/translation_cleanup.py:17-96 | `_normalize_lists` as written; stated by `NormalizeListsAgrees` and `DecomposedListRaises` |
| `DecomposedListFinding.AlignForestAgrees` | blog/translation_cleanup.py:28-96 | wherever the list loop as written does not raise, it computes what the corrected pass does |
| `DecomposedListFinding.NormalizeListsAgrees` | blog/translation_cleanup.py:17-96 | a `_normalize_lists` run as written that does not raise ends in the corrected pass's tree, so `NormalizeListsMatch` holds of it |
| `DecomposedListFinding.DecomposedListRaises` | blog/translation_cleanup.py:28-60 | on `<ul><li>A<ul><li>B</li></ul></li></ul>` as original and translation the code as written raises, where the corrected pass gives `<ul><li>B</li></ul>` |
| `ProxyPoolModel.Initial` | pincatch/proxy_pool.py:23-27 | only non-blank entries are kept, each with no deadline and no failures |
| `ProxyPoolModel.InitialConcat` | pincatch/proxy_pool.py:23-27 | the pool keeps the input order |
| `ProxyPoolModel.InitialSingle` | pincatch/proxy_pool.py:24-26 | one entry is kept, stripped, iff it is not blank |
| `ProxyPoolModel.ProxyPool.constructor` | pincatch/proxy_pool.py:16-32 | the pool starts with the stripped non-blank entries, cursor 0 and the given settings |
| `ProxyPoolModel.ProxyPool.Length` | pincatch/proxy_pool.py:34-35 | the number of proxies |
| `ProxyPoolModel.FirstReady` | pincatch/proxy_pool.py:42-46 | the number of entries inspected before the first ready one, cyclically from the cursor |
| `ProxyPoolModel.NextStep` | pincatch/proxy_pool.py:37-47 | an empty pool answers `None` and keeps the cursor; otherwise the cursor stays in range and any answer is a ready proxy |
| `ProxyPoolModel.NextStepNone` | pincatch/proxy_pool.py:37-47 | a call answers `None` iff the pool is empty or every proxy is cooling |
| `ProxyPoolModel.ProxyPool.NextProxy` | pincatch/proxy_pool.py:37-47 | the loop answers and moves the cursor as `NextStep` says, other state unchanged |
| `ProxyPoolModel.CallsRoundRobin` | pincatch/proxy_pool.py:42-46 | with nothing cooling, the j-th consecutive call returns the entry j steps from the cursor |
| `ProxyPoolModel.RoundRobinVisitsEach` | pincatch/proxy_pool.py:42-46 | with nothing cooling, `len` consecutive calls return every proxy exactly once |
| `ProxyPoolModel.CyclicOrder` | pincatch/proxy_pool.py:44 | the cursor steps visit each position once per round |
| `ProxyPoolModel.FindIn` | pincatch/proxy_pool.py:49-55 | the first entry with the URL; `None` for a missing or empty URL or an unknown one |
| `ProxyPoolModel.Failed` | pincatch/proxy_pool.py:62-66 | one entry after `mark_failure`; stated by `FailedDeadline` and `FailedNotPicked` |
| `ProxyPoolModel.FailedDeadline` | pincatch/proxy_pool.py:62-66 | a failure counts once and cools for one cooldown, or two once the count exceeds the threshold |
| `ProxyPoolModel.FailedNotPicked` | pincatch/proxy_pool.py:11-13 | a proxy that just failed is not picked again before its cooldown ends |
| `ProxyPoolModel.Succeeded` | pincatch/proxy_pool.py:73-74 | a success clears the failures and makes the proxy eligible at once |
| `ProxyPoolModel.ProxyPool.MarkFailure` | pincatch/proxy_pool.py:57-66 | the first entry with the URL is updated as `Failed` says; an unknown or missing URL changes nothing |
| `ProxyPoolModel.ProxyPool.MarkSuccess` | pincatch/proxy_pool.py:68-74 | the first entry with the URL is updated as `Succeeded` says; an unknown or missing URL changes nothing |
| `PageModel.NormalizeSlug` | pincatch/models.py:67-73 | the first `/`-segment of the input trimmed of whitespace and then of `/`: no `/`, empty iff the trimmed input is |
| `PageModel.CleanedSlug` | pincatch/models.py:64-75 | `clean` passes iff the language is configured and the page is the homepage or has a non-empty slug; a homepage gets `home` |
| `PageModel.NormalizeIdempotent` | pincatch/models.py:67-73 | normalizing a normalized slug changes nothing, provided the slug has no whitespace at either end |
| `PageModel.NormalizeNotIdempotent` | pincatch/models.py:67-73 | without that proviso it fails: `"a /b"` normalizes to `"a "`, which normalizes to `"a"`, so the slug changes again on the page's next save |
| `PageModel.Page.constructor` | pincatch/models.py:64-94 | a page holds the given slug, language slug, language and homepage flag |
| `PageModel.Page.Clean` | pincatch/models.py:64-75 | state and messages as `CleanedSlug` says; the language check comes first; a failure changes nothing |
| `PageModel.Page.GetLanguageSlug` | pincatch/models.py:89-94 | `""` iff the default-language homepage has an empty language slug (or the language is empty); else the language slug, or the language |
| `PageModel.Page.Save` | pincatch/models.py:77-84 | after `clean`, an empty language slug becomes `""` for the default-language homepage and the language otherwise; `get_language_slug` then reports it |
| `LanguageCodes.FindKey` | blog/signals.py:58-62 | the first entry in map order whose key matches, exactly or ignoring case |
| `LanguageCodes.NormalizeLanguageCode` | blog/signals.py:44-66 | the result is `None` or one of the map's values |
| `LanguageCodes.KeysDistinct` | blog/signals.py:22-41 | the map's keys are distinct |
| `LanguageCodes.ExactKeyLookup` | blog/signals.py:51-55 | a key gives exactly its own value, `None` included |
| `LanguageCodes.FoldedKeyLookup` | blog/signals.py:58-62 | otherwise the first key equal ignoring case decides |
| `LanguageCodes.UnknownCode` | blog/signals.py:64-66 | a code matching no key is unsupported |
| `LanguageCodes.UnsupportedCodes` | blog/signals.py:24-39 | `bn`, `vi` and `az` are unsupported |
| `LanguageCodes.ChineseCodes` | blog/signals.py:30-31 | both Chinese codes map to `ZH` |
| `LanguageCodes.BrazilianCode` | blog/signals.py:40 | `br` maps to `PT-BR` |
| `LanguageCodes.MixedCaseCode` | blog/signals.py:58-62 | `ZH_cn` finds `zh_CN` by the case-insensitive loop |
| `PageTranslation.SpaceAroundCore` | pincatch/signals.py:203-207 | the three groups of the match make up the string, and the middle one is its `strip()` |
| `PageTranslation.PreserveWhitespace` | pincatch/signals.py:203-208 | the result is the original's leading whitespace, the translation, then its trailing whitespace |
| `PageTranslation.PreserveWhitespaceRoundTrip` | pincatch/signals.py:203-208 | handing back the stripped core restores the original exactly |
| `PageTranslation.PreserveWhitespaceStrip` | pincatch/signals.py:203-208 | the padding is whitespace only: the result strips to what the translation strips to |
| `PageTranslation.PreserveOriginalDoubles` | pincatch/signals.py:223-227 | passing the original itself gives it back iff it has no surrounding whitespace |
| `PageTranslation.FallbackDoublesWhitespace` | pincatch/signals.py:223-227 | a provider error on `" a "` yields `"  a  "` as written; the corrected replacement keeps `" a "` |
| `PageTranslation.TranslatedString` | pincatch/signals.py:223-227 | a translation keeps the whitespace and strips to the translation's core; an error keeps the original |
| `PageTranslation.RtlAttrs` | pincatch/signals.py:196-201 | `dir` is added only when absent; text alignment is appended only when the style lacks it; no style gives exactly `text-align: right` |
| `PageTranslation.RtlAttrsIdempotent` | pincatch/signals.py:196-201 | applying the rule twice equals applying it once |
| `PageTranslation.ApplyRtl` | pincatch/signals.py:193-201 | `_apply_rtl`; stated by `ApplyRtlElements`, `ApplyRtlKeepsLeaves` and `ApplyRtlIdempotent` |
| `PageTranslation.ApplyRtlElements` | pincatch/signals.py:193-201 | element by element, tags stay and exactly the block elements have their attributes rewritten |
| `PageTranslation.ApplyRtlKeepsLeaves` | pincatch/signals.py:193-201 | text and comments are untouched |
| `PageTranslation.ApplyRtlIdempotent` | pincatch/signals.py:193-201 | marking an already right-to-left tree changes nothing |
| `PageTranslation.Requests` | pincatch/signals.py:214-224 | the strings sent to the provider are never blank |
| `PageTranslation.RequestsAreTexts` | pincatch/signals.py:214-220 | every string sent is the text of a string node, never a comment |
| `PageTranslation.TranslateTexts` | pincatch/signals.py:214-227 | the string loop of `_translate_html`; stated by `TranslateUsesOnlyRequests`, `TranslateIdentity` and `TranslateKeepsTags` |
| `PageTranslation.TranslateUsesOnlyRequests` | pincatch/signals.py:214-227 | the result depends on the provider only at the requested strings, so comments, `script`/`style` text and blank strings are never sent |
| `PageTranslation.TranslateIdentity` | pincatch/signals.py:214-227 | a provider that fails, or hands back each string's core, leaves the tree unchanged |
| `PageTranslation.TranslateKeepsTags` | pincatch/signals.py:214-227 | only string nodes change; the tags are kept |
| `PageTranslation.NormalizeTarget` | pincatch/signals.py:185 | an unmapped code passes through unchanged; a mapped one becomes one of the map's values |
| `PageTranslation.RtlTargets` | pincatch/signals.py:228-229 | right-to-left marking applies exactly for `ar` and for unmapped codes that are right-to-left |
| `PageTranslation.TranslateHtml` | pincatch/signals.py:187-232 | the HTML path fails exactly when parsing fails |
| `PageTranslation.SafeTranslate` | pincatch/signals.py:177-252 | falsy text, no provider or a disabled provider return the text unchanged; the flag is only ever set, and only after a whole-text failure, which returns the text; when the text has no markup or does not parse, an enabled provider's answer to the whole text is returned with the flag left clear, and its failure returns the text with the flag set |
| `PageTranslation.PlainTextSkipsHtml` | pincatch/signals.py:234-237 | without both `<` and `>` the parser and serializer play no part |
| `PageTranslation.ParsedMarkupStaysEnabled` | pincatch/signals.py:234-237 | markup that parses returns the HTML path's result and never disables the provider |
| `PageTranslation.TranslateHtmlUsesOnlyRequests` | pincatch/signals.py:214-230 | two providers that agree on the requested strings give the same page |
| `PageTranslation.PathJoin` | pincatch/signals.py:272-273 | an absolute second part replaces the first; otherwise the result begins with the first and ends with the second |
| `PageTranslation.TemplatePaths` | pincatch/signals.py:270-274 | `_get_template_paths`; stated by `TemplateFileInDir`, `CleanSlugPaths`, `TemplatePathsInjective` and `CleanedPageTemplates` |
| `PageTranslation.TemplateFileInDir` | pincatch/signals.py:270-274 | the template file sits directly inside the template directory |
| `PageTranslation.CleanSlugPaths` | pincatch/signals.py:270-274 | for a clean slug the paths are `BASE/templates/slug` and `BASE/templates/slug/lang.html` |
| `PageTranslation.TemplatePathsInjective` | pincatch/signals.py:270-274 | distinct pages (slug and language slug) never share a template file |
| `PageTranslation.CleanedPageTemplates` | pincatch/signals.py:270-274 | a page that passes `clean` gets its template directory under its own slug |
| `Client.CookieValue` | static/js/app.js:408-421 | `getCookie`; stated by `FirstCookie`, `FirstCookieWins` and `LongerNameDiffers`, and computed by the loop of `GetCookie` |
| `Client.FirstCookie` | static/js/app.js:411-418 | `None` iff no trimmed entry starts with `name=` |
| `Client.SubstringPrefix` | static/js/app.js:414 | the clipped `substring` comparison is exactly a prefix test |
| `Client.GetCookie` | static/js/app.js:408-421 | the loop returns the value `CookieValue` specifies (`None` for an empty cookie string) |
| `Client.FirstCookieWins` | static/js/app.js:412-417 | the first matching entry's decoded value is returned, whatever later entries hold |
| `Client.LongerNameDiffers` | static/js/app.js:414 | a cookie whose name only begins with `name` does not match |
| `Client.IsValidPinterestUrl` | static/js/app.js:424-427 | `isValidPinterestUrl`; stated by `ScanMatchesPatterns`, `LongFormAfterScheme`, `ShortFormAfterScheme` and `HostsAfterScheme` |
| `Client.AfterScheme` | static/js/app.js:425-426 | the rest after `http://` or `https://`; the two cannot both apply |
| `Client.AnyTld` | static/js/app.js:425 | some listed domain, then `/pin/` and a digit |
| `Client.ScanMatchesPatterns` | static/js/app.js:424-427 | a left-to-right scan accepts exactly the URLs the two case-insensitive patterns accept |
| `Client.LongFormAfterScheme` | static/js/app.js:425 | the long form is a scheme, then an optional `www.`, `pinterest.`, a domain, `/pin/` and a digit |
| `Client.ShortFormAfterScheme` | static/js/app.js:426 | the short form is a scheme, then `pin.it/` and an alphanumeric |
| `Client.HostsAfterScheme` | static/js/app.js:425 | the optional `www.` is taken exactly when present |
| `Client.LanguageMenu.constructor` | static/js/app.js:16-36 | the menu starts in the state the page's markup gives it |
| `Client.LanguageMenu.Close` | static/js/app.js:16-21 | closed, `aria-expanded` false, `aria-hidden` true, hidden |
| `Client.LanguageMenu.Open` | static/js/app.js:23-28 | open, `aria-expanded` true, `aria-hidden` false, shown |
| `Client.LanguageMenu.Toggle` | static/js/app.js:30-36 | the open state flips; closing sets `aria-expanded` false, `aria-hidden` true and hidden, and opening sets them to true, false and shown |
| `Client.JsRem` | static/js/app.js:74-78 | JavaScript's `%`: Euclidean for non-negative operands, and always strictly inside `(-n, n)` |
| `Client.ArrowTarget` | static/js/app.js:71-78 | the option the arrow keys focus; stated by `ArrowTargetInRange` |
| `Client.ArrowTargetInRange` | static/js/app.js:67-79 | both keys stay within the options and wrap at the ends; ArrowUp with no focused option goes to the second-to-last option (the only one when there is just one) |

## Left out

- HTML parsing and serialization (`BeautifulSoup(..., "html.parser")`, `str(soup)`, the `str(child)` and `soup.decode()` of `_soup_to_markup`). These are the HTML library's. Functions take and return node forests, and `TranslateHtml`/`SafeTranslate` take `parse` and `render` as parameters. `_soup_to_markup` itself is the module's own code, and its choice of what to serialize is modelled (`TranslationCleanup.SoupToMarkup`): with a `<body>` only that body's children are kept. The joining of the children's strings and the final `cleaned.strip()` of the serialized string are not modelled.
- Doctypes, CDATA sections, processing instructions and declarations. `Html.Node` has only elements, strings and comments, and `parse` never yields the other kinds. In the code they are strings too: `find_all(string=True)` in `_translate_html` returns them and line 216 of `pincatch/signals.py` skips only `Comment`, so the text of a `<!DOCTYPE html>` or a `<![CDATA[…]]>` is sent to the provider and line 227 replaces the node with a plain string, which then serializes as text rather than as a doctype or a CDATA section. The model does not capture this.
- `urlparse`/`urlunparse` and `decodeURIComponent` enter as total function parameters. The exceptions they can raise are not modelled: `urlparse`'s `ValueError` on an unbalanced IPv6 bracket such as `http://[::1` (line 126 of `blog/translation_cleanup.py`, which nothing catches) and `decodeURIComponent`'s `URIError` on a malformed escape such as `%E0%A4%A` (line 415 of `static/js/app.js`).
- The translation provider's `translate_text` enters as a function parameter; its exception is `None`.
- The import of `bs4` inside `_translate_html` failing. It is folded into `parse` answering `None`.
- In-place mutation of the soup. The tree passes are modelled on values, without node identity. Every loop runs over a snapshot taken before it, and each element's change is local to it, so the value passes compute the same tree. The exception is `contents.index(item)`, which is one of the Findings.
- `_normalize_lists` processes lists top-down. The outer list comes before the lists it contains, which is the snapshot's document order. A list destroyed by an earlier round makes the code as written raise `TypeError` when the loop reaches it (see Findings); the corrected pass `ListPass.NormalizeLists`, used everywhere else, skips it.
- Idempotence of `_normalize_lists`: the model does not promise it, because the code does not have it. An item promoted at line 54 skips the emptiness test of lines 58-60, since line 56 moves on to the next item. So an empty promoted item survives one run, and a second run with the same original drops it at line 60 and pads at the end at line 70. `ListRerun.NormalizeListsNotIdempotent` proves this on a two-item list.
- NormalizeListsMatch: is stated of the corrected pass. The code as written raises instead when a round destroys a list inside a decomposed item; `DecomposedListFinding.NormalizeListsAgrees` shows the two agree whenever it does not.
- StrippedText: tells the strings `get_text` skips by the elements around them (`script`, `style`, `template`, `rt`, `rp`), as the Beautiful Soup releases from 4.10 on do for markup that `html.parser` built. A container inside the item is seen by `StrippedText` itself, and one around the whole list by the `hidden` flag that `ListPass.AlignForest` passes down. A string whose container element the tag pass unwrapped keeps its class in the library and is still skipped there, but counts here: the model's text nodes do not record the string class.
- `_safe_translate` is modelled as one function. It returns the text and the provider's new `_disable_after_error` flag. The `try` around setting that flag is not modelled.
- `_safe_translate`'s `text` is a string: `None` text is not distinguished from `""`.
- `_get_provider_safely`, `_translate_page_to_other_languages`, the signal handlers, and template generation, moving and removal. These are ORM, settings and filesystem I/O; only `_get_template_paths` is modelled.
- `PageTranslation.SafeTranslate`, `PageTranslation.TranslateHtml`: the node-level fallback on a provider error uses the corrected rule (keep the node), not the code's as written. See Findings.
- `ProxyPool` locking (`threading.Lock`). The pool is modelled sequentially. `time.time()` floats are integer `now` parameters.
- `proxy_request` and `add_proxy_to_chrome_options`. These are network retries.
- `ProxyPoolModel.ProxyPool.constructor`: `retry_statuses` is taken as a sequence and stored as its set. A missing value is the empty sequence.
- The database write, the `PageGroup` slug update and `settings` in `Page.save`/`clean`. The configured language codes and the default language are parameters.
- Letter case is ASCII only. `str.lower()`, `toLowerCase()` and the regex `/i` flag are modelled as lower-casing `A`-`Z`, which covers every key, code and pattern in the modelled code.
- `clean_translation_html`'s `original_html or ""` and `translated_html or ""`. They appear as an empty forest.
- The trailing-whitespace trim loop removes every blank top-level string, not only leading and trailing ones. The model follows the code, not the comment above it.
- Logging calls (`logger.warning`, `logger.error`, `logger.info`). They have no effect on results.
- The DOM and event-listener wiring, `fetch`, toasts and previews in `static/js/app.js`. The menu's DOM state is the four fields of `LanguageMenu`, and the focus index is the arithmetic of lines 74 and 78.

## Findings

| source | as written | input that shows it | evidently intended | confidence | as-written member | corrected member |
|---|---|---|---|---|---|---|
| blog/translation_cleanup.py:54 | `translated_list.contents.index(item)` finds the first child EQUAL to the item; the HTML library compares tags by name, attributes and contents | `<ul><li>a</li><li>a<li>b<li>c</li></li></li></ul>`: after the first nested entry moves out, the second item equals `<li>a</li>`, and `<li>c</li>` is inserted before the first item; removing the item then leaves c, a, b | insert each promoted entry directly before the item being processed, giving a, b, c | medium, not executed | `PromotionFinding.StructuralIndexReordersItems` | `ListAlignment.PromotionInPlace` |
| blog/translation_cleanup.py:28-43 | the loop runs over the snapshot of line 26; decomposing an item (lines 55, 60, 65) also decomposes the lists inside it, which stay in the snapshot, and when the loop reaches one, its `attrs` is `None` and line 41 or 42 raises `TypeError` out of `clean_translation_html` | `<ul><li>A<ul><li>B</li></ul></li></ul>` as both original and translation: the first round promotes `<li>B</li>` and decomposes the item holding the inner `<ul>`, and the second round raises | skip lists already destroyed, giving `<ul><li>B</li></ul>`, with every remaining list matching its original | medium, not executed | `DecomposedListFinding.DecomposedListRaises` | `ListPass.NormalizeListsMatch` |
| pincatch/signals.py:223-227 | when `translate_text` raises for a string node, `translated = original` and the node becomes `_preserve_whitespace(original, original)`, which repeats its leading and trailing whitespace | the text `<p> a </p>` with a provider that raises: the paragraph's text becomes `"  a  "` | a node the provider could not translate keeps its original text | medium, not executed | `PageTranslation.FallbackDoublesWhitespace` | `PageTranslation.TranslatedString` |
