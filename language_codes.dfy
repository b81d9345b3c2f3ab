/**
 * `LANGUAGE_CODE_MAP` and `normalize_language_code` of `blog/signals.py`:
 * site language codes to the translation provider's codes, where `None`
 * marks a language the provider does not support.
 */
module LanguageCodes {
  import opened Wrappers
  import opened Strings

  /** The entries of `LANGUAGE_CODE_MAP`, in their declaration order. */
  const LANGUAGE_CODE_MAP: seq<(string, Option<string>)> := [
    ("en", Some("EN-US")),
    ("bn", None),
    ("fr", Some("FR")),
    ("de", Some("DE")),
    ("es", Some("ES")),
    ("pt", Some("PT-PT")),
    ("ru", Some("RU")),
    ("zh_CN", Some("ZH")),
    ("zh_TW", Some("ZH")),
    ("ja", Some("JA")),
    ("ko", Some("KO")),
    ("it", Some("IT")),
    ("tr", Some("TR")),
    ("ar", Some("AR")),
    ("vi", None),
    ("id", Some("ID")),
    ("az", None),
    ("br", Some("PT-BR"))
  ]

  /** The position of the first entry whose key satisfies `matches`, or `|entries|`. */
  function FindKey(entries: seq<(string, Option<string>)>, code: string, fold: bool): (i: nat)
    ensures i <= |entries|
    ensures i < |entries| ==> KeyMatches(entries[i].0, code, fold)
    ensures forall j :: 0 <= j < i ==> !KeyMatches(entries[j].0, code, fold)
  {
    if entries == [] then 0
    else if KeyMatches(entries[0].0, code, fold) then 0
    else 1 + FindKey(entries[1..], code, fold)
  }

  /** Exact equality, or equality after lower-casing both sides. */
  predicate KeyMatches(key: string, code: string, fold: bool) {
    if fold then Lower(key) == Lower(code) else key == code
  }

  /** `normalize_language_code(lang_code)`; the outer `None` of the map's values is the provider's "unsupported". */
  function NormalizeLanguageCode(code: string): (r: Option<string>)
    ensures r.Some? ==> exists i :: 0 <= i < |LANGUAGE_CODE_MAP| && LANGUAGE_CODE_MAP[i].1 == r
  {
    var exact := FindKey(LANGUAGE_CODE_MAP, code, false);
    if exact < |LANGUAGE_CODE_MAP| then LANGUAGE_CODE_MAP[exact].1
    else
      var folded := FindKey(LANGUAGE_CODE_MAP, code, true);
      if folded < |LANGUAGE_CODE_MAP| then LANGUAGE_CODE_MAP[folded].1 else None
  }

  /** The keys of the map are distinct, so a dictionary holds exactly these entries. */
  lemma KeysDistinct()
    ensures forall i, j :: 0 <= i < j < |LANGUAGE_CODE_MAP| ==> LANGUAGE_CODE_MAP[i].0 != LANGUAGE_CODE_MAP[j].0
  {
  }

  /** A key of the map gives exactly its own value, `None` included. */
  lemma ExactKeyLookup(i: nat)
    requires i < |LANGUAGE_CODE_MAP|
    ensures NormalizeLanguageCode(LANGUAGE_CODE_MAP[i].0) == LANGUAGE_CODE_MAP[i].1
  {
    KeysDistinct();
    var exact := FindKey(LANGUAGE_CODE_MAP, LANGUAGE_CODE_MAP[i].0, false);
    assert exact <= i;
  }

  /** A code that is no key takes the value of the first key that equals it ignoring case. */
  lemma FoldedKeyLookup(code: string, i: nat)
    requires i < |LANGUAGE_CODE_MAP|
    requires forall j :: 0 <= j < |LANGUAGE_CODE_MAP| ==> LANGUAGE_CODE_MAP[j].0 != code
    requires Lower(LANGUAGE_CODE_MAP[i].0) == Lower(code)
    requires forall j :: 0 <= j < i ==> Lower(LANGUAGE_CODE_MAP[j].0) != Lower(code)
    ensures NormalizeLanguageCode(code) == LANGUAGE_CODE_MAP[i].1
  {
    var exact := FindKey(LANGUAGE_CODE_MAP, code, false);
    assert exact == |LANGUAGE_CODE_MAP|;
    var folded := FindKey(LANGUAGE_CODE_MAP, code, true);
    assert folded == i;
  }

  /** A code matching no key, exactly or ignoring case, is unsupported. */
  lemma UnknownCode(code: string)
    requires forall j :: 0 <= j < |LANGUAGE_CODE_MAP| ==> Lower(LANGUAGE_CODE_MAP[j].0) != Lower(code)
    ensures NormalizeLanguageCode(code) == None
  {
  }

  /** Bengali, Vietnamese and Azerbaijani are mapped, to "unsupported". */
  lemma UnsupportedCodes()
    ensures NormalizeLanguageCode("bn") == None
    ensures NormalizeLanguageCode("vi") == None
    ensures NormalizeLanguageCode("az") == None
  {
    ExactKeyLookup(1);
    ExactKeyLookup(14);
    ExactKeyLookup(16);
  }

  /** Both Chinese variants go to the same provider code. */
  lemma ChineseCodes()
    ensures NormalizeLanguageCode("zh_CN") == Some("ZH")
    ensures NormalizeLanguageCode("zh_TW") == Some("ZH")
  {
    assert LANGUAGE_CODE_MAP[7] == ("zh_CN", Some("ZH"));
    ExactKeyLookup(7);
    assert LANGUAGE_CODE_MAP[8] == ("zh_TW", Some("ZH"));
    ExactKeyLookup(8);
  }

  /** Brazilian Portuguese has a provider code of its own. */
  lemma BrazilianCode()
    ensures NormalizeLanguageCode("br") == Some("PT-BR")
  {
    assert LANGUAGE_CODE_MAP[17] == ("br", Some("PT-BR"));
    ExactKeyLookup(17);
  }

  /** A code in other letter case finds its key by the second loop. */
  lemma MixedCaseCode()
    ensures NormalizeLanguageCode("ZH_cn") == Some("ZH")
  {
    var target := Lower("ZH_cn");
    assert target == "zh_cn" by {
      assert |target| == 5;
      assert target[0] == 'z' && target[1] == 'h' && target[2] == '_' && target[3] == 'c' && target[4] == 'n';
    }
    assert Lower("zh_CN") == target by {
      var k := Lower("zh_CN");
      assert |k| == 5;
      assert k[0] == 'z' && k[1] == 'h' && k[2] == '_' && k[3] == 'c' && k[4] == 'n';
    }
    forall j | 0 <= j < 7 ensures Lower(LANGUAGE_CODE_MAP[j].0) != target {
      assert |Lower(LANGUAGE_CODE_MAP[j].0)| == 2;
    }
    forall j | 0 <= j < |LANGUAGE_CODE_MAP| ensures LANGUAGE_CODE_MAP[j].0 != "ZH_cn" {
      assert LANGUAGE_CODE_MAP[j].0[0] != 'Z';
    }
    FoldedKeyLookup("ZH_cn", 7);
  }
}
