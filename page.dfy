/**
 * The slug rules of `Page` in `pincatch/models.py`: validation in `clean`,
 * the defaulting of `language_slug` in `save`, and `get_language_slug`.
 * The configured language codes and the default language are parameters;
 * the database write is outside the model.
 */
module PageModel {
  import opened Wrappers
  import opened Strings

  /** `Page.HOME_SLUG`. */
  const HOME_SLUG: string := "home"

  /** The message of the language check's `ValidationError`. */
  function UnsupportedLanguage(language: string): string {
    "Language " + language + " is not supported"
  }

  const EMPTY_SLUG: string := "Slug URL cannot be empty unless this is the homepage."

  /** The first segment of `s.split(sep)` is everything before the first separator. */
  lemma SplitFirst(s: string, sep: char)
    ensures Split(s, sep)[0] == s[..IndexOf(s, sep)]
  {
  }

  /**
   * `(slug_url or "").strip().strip('/')`, cut at the first remaining `/`:
   * the first path segment of the trimmed input.
   */
  function NormalizeSlug(raw: string): (r: string)
    ensures '/' !in r
    ensures r == [] <==> Trim(Strip(raw), {'/'}) == []
    ensures StartsWith(Trim(Strip(raw), {'/'}), r)
    ensures |r| < |Trim(Strip(raw), {'/'})| ==> Trim(Strip(raw), {'/'})[|r|] == '/'
  {
    var normalized := Trim(Strip(raw), {'/'});
    SplitFirst(normalized, '/');
    if '/' in normalized then Split(normalized, '/')[0] else normalized
  }

  /** What `clean` leaves in `slug_url`, or `None` where it raises; the language check comes first. */
  function CleanedSlug(raw: string, isHomepage: bool, language: string, languages: seq<string>): (r: Option<string>)
    ensures r.Some? <==> language in languages && (isHomepage || Trim(Strip(raw), {'/'}) != [])
    ensures r.Some? && isHomepage ==> r.value == HOME_SLUG
    ensures r.Some? ==> r.value != [] && '/' !in r.value
  {
    if language !in languages then None
    else if isHomepage then Some(HOME_SLUG)
    else
      var normalized := NormalizeSlug(raw);
      if normalized != [] then Some(normalized) else None
  }

  /** An input that is already a clean slug is kept as it is. */
  lemma NormalizeCleanSlug(slug: string)
    requires slug != [] && '/' !in slug
    requires slug[0] !in PY_WHITESPACE && slug[|slug| - 1] !in PY_WHITESPACE
    ensures NormalizeSlug(slug) == slug
  {
    assert LeadCount(slug, PY_WHITESPACE) == 0;
    assert TailCount(slug, PY_WHITESPACE) == 0;
    assert Strip(slug) == slug;
    assert LeadCount(slug, {'/'}) == 0;
    assert TailCount(slug, {'/'}) == 0;
    assert Trim(slug, {'/'}) == slug;
  }

  /** Normalizing twice changes nothing. */
  lemma NormalizeIdempotent(raw: string)
    requires NormalizeSlug(raw) == [] || (NormalizeSlug(raw)[0] !in PY_WHITESPACE && NormalizeSlug(raw)[|NormalizeSlug(raw)| - 1] !in PY_WHITESPACE)
    ensures NormalizeSlug(NormalizeSlug(raw)) == NormalizeSlug(raw)
  {
    var r := NormalizeSlug(raw);
    if r == [] {
      assert Strip(r) == [];
      assert Trim([], {'/'}) == [];
    } else {
      NormalizeCleanSlug(r);
    }
  }

  /**
   * Normalizing is not idempotent in general: whitespace before the first
   * `/` survives the first pass and is stripped by the second, so a page
   * saved with "a /b" gets the slug "a ", and "a" on its next save.
   */
  lemma NormalizeNotIdempotent()
    ensures NormalizeSlug("a /b") == "a "
    ensures NormalizeSlug("a ") == "a"
  {
    NothingToStrip();
    NothingToTrim();
    FirstSegmentWithSpace();
    SlugIsFirstSegment("a /b");
    TrailingSpace();
    SlugWithoutSlash("a ", "a");
  }

  /** Where stripping and trimming leave a path with a `/`, the slug is its first segment. */
  lemma SlugIsFirstSegment(raw: string)
    requires Trim(Strip(raw), {'/'}) == raw && '/' in raw
    ensures NormalizeSlug(raw) == Split(raw, '/')[0]
  {
  }

  /** Where stripping and trimming leave no `/`, the slug is what they leave. */
  lemma SlugWithoutSlash(raw: string, r: string)
    requires Trim(Strip(raw), {'/'}) == r && '/' !in r
    ensures NormalizeSlug(raw) == r
  {
  }

  lemma NothingToStrip()
    ensures Strip("a /b") == "a /b"
  {
    var s := "a /b";
    assert LeadCount(s, PY_WHITESPACE) == 0;
    assert TailCount(s, PY_WHITESPACE) == 0;
  }

  lemma NothingToTrim()
    ensures Trim("a /b", {'/'}) == "a /b" && '/' in "a /b"
  {
    var s := "a /b";
    assert LeadCount(s, {'/'}) == 0;
    assert TailCount(s, {'/'}) == 0;
    assert s[2] == '/';
  }

  lemma FirstSegmentWithSpace()
    ensures Split("a /b", '/')[0] == "a "
  {
    var s := "a /b";
    assert IndexOf(s, '/') == 2 by {
      assert s[1..] == " /b";
      assert " /b"[1..] == "/b";
    }
    SplitFirst(s, '/');
    assert s[..2] == "a ";
  }

  lemma TrailingSpace()
    ensures Trim(Strip("a "), {'/'}) == "a" && '/' !in "a"
  {
    var s := "a ";
    assert LeadCount(s, PY_WHITESPACE) == 0;
    assert TailCount("a", PY_WHITESPACE) == 0;
    assert s[..1] == "a";
    assert TailCount(s, PY_WHITESPACE) == 1;
    assert Strip(s) == "a";
    assert LeadCount("a", {'/'}) == 0;
    assert TailCount("a", {'/'}) == 0;
    assert Trim("a", {'/'}) == "a";
  }

  class Page {
    var slugUrl: string
    var languageSlug: string
    var language: string
    var isHomepage: bool

    /** A page with the given field values; a missing `slug_url` is the empty string. */
    constructor (slug: string, langSlug: string, lang: string, homepage: bool)
      ensures slugUrl == slug && languageSlug == langSlug && language == lang && isHomepage == homepage
    {
      slugUrl := slug;
      languageSlug := langSlug;
      language := lang;
      isHomepage := homepage;
    }

    /** `clean()`: a `Fail` is the `ValidationError`, raised before any field changes. */
    method Clean(languages: seq<string>) returns (outcome: Outcome)
      modifies this
      ensures languageSlug == old(languageSlug) && language == old(language) && isHomepage == old(isHomepage)
      ensures outcome.Pass? <==> CleanedSlug(old(slugUrl), isHomepage, language, languages).Some?
      ensures outcome.Pass? ==> slugUrl == CleanedSlug(old(slugUrl), isHomepage, language, languages).value
      ensures outcome.Fail? ==> slugUrl == old(slugUrl)
      ensures outcome.Fail? && language !in languages ==> outcome.message == UnsupportedLanguage(language)
      ensures outcome.Fail? && language in languages ==> outcome.message == EMPTY_SLUG
    {
      if language !in languages {
        return Fail(UnsupportedLanguage(language));
      }
      var normalized := Trim(Strip(slugUrl), {'/'});
      if isHomepage {
        slugUrl := HOME_SLUG;
      } else if normalized != [] {
        if '/' in normalized {
          normalized := Split(normalized, '/')[0];
        }
        slugUrl := normalized;
      } else {
        return Fail(EMPTY_SLUG);
      }
      outcome := Pass;
    }

    /** `get_language_slug()`. */
    function GetLanguageSlug(defaultLanguage: string): (r: string)
      reads this
      ensures isHomepage && language == defaultLanguage && languageSlug == [] ==> r == []
      ensures !(isHomepage && language == defaultLanguage && languageSlug == []) ==> r == (if languageSlug != [] then languageSlug else language)
      ensures r == [] <==> languageSlug == [] && ((isHomepage && language == defaultLanguage) || language == [])
    {
      if isHomepage && language == defaultLanguage && languageSlug == [] then []
      else if languageSlug != [] then languageSlug else language
    }

    /**
     * `save()` up to the database write: `clean`, then an empty
     * `language_slug` is filled in. The value stored is the one
     * `get_language_slug` reports.
     */
    method Save(languages: seq<string>, defaultLanguage: string) returns (outcome: Outcome)
      modifies this
      ensures language == old(language) && isHomepage == old(isHomepage)
      ensures outcome.Pass? <==> CleanedSlug(old(slugUrl), isHomepage, language, languages).Some?
      ensures outcome.Fail? ==> slugUrl == old(slugUrl) && languageSlug == old(languageSlug)
      ensures outcome.Pass? ==> slugUrl == CleanedSlug(old(slugUrl), isHomepage, language, languages).value
      ensures outcome.Pass? && old(languageSlug) != [] ==> languageSlug == old(languageSlug)
      ensures outcome.Pass? && old(languageSlug) == [] ==>
        languageSlug == (if isHomepage && language == defaultLanguage then [] else language)
      ensures outcome.Pass? ==> GetLanguageSlug(defaultLanguage) == languageSlug
    {
      outcome := Clean(languages);
      if outcome.Fail? {
        return;
      }
      if languageSlug == [] {
        if isHomepage && language == defaultLanguage {
          languageSlug := [];
        } else {
          languageSlug := language;
        }
      }
    }
  }
}
