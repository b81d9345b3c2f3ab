/**
 * Helpers of `static/js/app.js`: the cookie reader, the Pinterest URL check,
 * the language menu's open state and its wrap-around focus index. The
 * browser's `decodeURIComponent` is a function parameter.
 */
module Client {
  import opened Wrappers
  import opened Strings

  // ---------------------------------------------------------------------------
  // getCookie (lines 408-421)
  // ---------------------------------------------------------------------------

  /** The value of the first entry, trimmed, that starts with `name=`; `None` when none does. */
  function FirstCookie(entries: seq<string>, name: string, decode: string -> string): (r: Option<string>)
    ensures r.None? <==> forall i :: 0 <= i < |entries| ==> !StartsWith(JsTrim(entries[i]), name + "=")
  {
    if entries == [] then None
    else
      var cookie := JsTrim(entries[0]);
      if StartsWith(cookie, name + "=") then Some(decode(cookie[|name| + 1..]))
      else FirstCookie(entries[1..], name, decode)
  }

  /** What `getCookie(name)` answers for the cookie string `cookies`. */
  function CookieValue(cookies: string, name: string, decode: string -> string): Option<string> {
    if cookies == [] then None else FirstCookie(Split(cookies, ';'), name, decode)
  }

  /** `cookie.substring(0, name.length + 1) === name + '='`: `substring` clips at the end of the string. */
  function SubstringTo(s: string, end: nat): string {
    if end <= |s| then s[..end] else s
  }

  lemma SubstringPrefix(s: string, name: string)
    ensures (SubstringTo(s, |name| + 1) == name + "=") <==> StartsWith(s, name + "=")
  {
  }

  /** `getCookie(name)`: the loop stops at the first entry with the name. */
  method GetCookie(cookies: string, name: string, decode: string -> string) returns (cookieValue: Option<string>)
    ensures cookieValue == CookieValue(cookies, name, decode)
  {
    cookieValue := None;
    if cookies != [] {
      var parts := Split(cookies, ';');
      var i := 0;
      while i < |parts|
        invariant 0 <= i <= |parts|
        invariant FirstCookie(parts[i..], name, decode) == FirstCookie(parts, name, decode)
        invariant cookieValue == None
      {
        var cookie := JsTrim(parts[i]);
        SubstringPrefix(cookie, name);
        assert parts[i..][0] == parts[i] && parts[i..][1..] == parts[i + 1..];
        if SubstringTo(cookie, |name| + 1) == name + "=" {
          cookieValue := Some(decode(cookie[|name| + 1..]));
          break;
        }
        i := i + 1;
      }
    }
  }

  /**
   * The first matching entry decides: its value after `name=` is decoded,
   * whatever later entries with the same name hold.
   */
  lemma {:induction false} FirstCookieWins(entries: seq<string>, name: string, decode: string -> string, i: nat)
    requires i < |entries| && StartsWith(JsTrim(entries[i]), name + "=")
    requires forall j :: 0 <= j < i ==> !StartsWith(JsTrim(entries[j]), name + "=")
    ensures FirstCookie(entries, name, decode) == Some(decode(JsTrim(entries[i])[|name| + 1..]))
  {
    if i > 0 {
      FirstCookieWins(entries[1..], name, decode, i - 1);
    }
  }

  /** A cookie whose name only begins with `name` does not match it. */
  lemma LongerNameDiffers(entry: string, name: string)
    requires |JsTrim(entry)| > |name| && JsTrim(entry)[..|name|] == name && JsTrim(entry)[|name|] != '='
    ensures !StartsWith(JsTrim(entry), name + "=")
  {
    assert (name + "=")[|name|] == '=';
  }

  // ---------------------------------------------------------------------------
  // isValidPinterestUrl (lines 424-427)
  // ---------------------------------------------------------------------------

  /** The top-level domains of the long-form pattern, in the alternation's order. */
  const TLDS: seq<string> := ["com", "it", "fr", "de", "es", "co.uk", "ca", "com.au", "co.nz", "pt", "nl",
                              "co.in", "co.jp", "co.kr", "ru", "com.mx", "co.id", "com.br", "com.tr"]
  const SCHEMES: seq<string> := ["http://", "https://"]
  const HOSTS: seq<string> := ["pinterest.", "www.pinterest."]

  predicate IsDigit(c: char) {
    '0' <= c <= '9'
  }

  /** `[a-zA-Z0-9]` once lower-cased. */
  predicate IsAlnum(c: char) {
    'a' <= c <= 'z' || IsDigit(c)
  }

  /** `p` is a prefix of `u` and the character after it satisfies the class of the next atom. */
  predicate PrefixThen(u: string, p: string, digit: bool) {
    StartsWith(u, p) && |u| > |p| && (if digit then IsDigit(u[|p|]) else IsAlnum(u[|p|]))
  }

  /** The first pattern as an alternation: some scheme, host and domain, then `/pin/` and a digit. */
  predicate LongForm(u: string) {
    LongFormIn(u, SCHEMES, HOSTS, TLDS)
  }

  /** The second pattern: some scheme, `pin.it/` and an alphanumeric. */
  predicate ShortForm(u: string) {
    exists i :: 0 <= i < |SCHEMES| && PrefixThen(u, SCHEMES[i] + "pin.it/", false)
  }

  /** `isValidPinterestUrl(url)`, with the `/i` flag as lower-casing of the input. */
  predicate IsValidPinterestUrl(url: string) {
    LongForm(Lower(url)) || ShortForm(Lower(url))
  }

  /** The rest of `u` after its scheme, if it has one: the two alternatives exclude each other. */
  function AfterScheme(u: string): (r: Option<string>)
    ensures r.Some? <==> exists i :: 0 <= i < |SCHEMES| && StartsWith(u, SCHEMES[i])
    ensures forall i :: 0 <= i < |SCHEMES| && StartsWith(u, SCHEMES[i]) ==> r == Some(u[|SCHEMES[i]|..])
  {
    assert SCHEMES[0] == "http://" && SCHEMES[1] == "https://";
    assert StartsWith(u, "http://") ==> u[4] == ':';
    assert StartsWith(u, "https://") ==> u[4] == 's';
    if StartsWith(u, "https://") then Some(u[8..])
    else if StartsWith(u, "http://") then Some(u[7..])
    else None
  }

  /** One scan of the domain list: the first domain followed by `/pin/` and a digit. */
  function AnyTld(s: string, tlds: seq<string>): (b: bool)
    ensures b <==> exists k :: 0 <= k < |tlds| && PrefixThen(s, tlds[k] + "/pin/", true)
  {
    if tlds == [] then false
    else PrefixThen(s, tlds[0] + "/pin/", true) || AnyTld(s, tlds[1..])
  }

  /** A deterministic reading of the two patterns, scanning left to right. */
  predicate ScanPinterestUrl(url: string) {
    var u := Lower(url);
    match AfterScheme(u)
    case None => false
    case Some(rest) =>
      var host := if StartsWith(rest, "www.") then rest[4..] else rest;
      (StartsWith(host, "pinterest.") && AnyTld(host[10..], TLDS)) || PrefixThen(rest, "pin.it/", false)
  }

  lemma PrefixThenConcat(u: string, a: string, b: string, digit: bool)
    ensures PrefixThen(u, a + b, digit) <==> StartsWith(u, a) && PrefixThen(u[|a|..], b, digit)
  {
    if StartsWith(u, a) && PrefixThen(u[|a|..], b, digit) {
      assert u[..|a + b|] == u[..|a|] + u[|a|..][..|b|];
    }
    if PrefixThen(u, a + b, digit) {
      assert u[..|a|] == (a + b)[..|a|];
      assert u[|a|..][..|b|] == u[..|a + b|][|a|..];
    }
  }

  /** The scan accepts exactly the URLs the two patterns accept. */
  lemma ScanMatchesPatterns(url: string)
    ensures ScanPinterestUrl(url) <==> IsValidPinterestUrl(url)
  {
    var u := Lower(url);
    ShortFormAfterScheme(u);
    LongFormAfterScheme(u);
    if AfterScheme(u).Some? {
      HostsAfterScheme(AfterScheme(u).value);
    }
  }

  /** The short form is the scheme, then `pin.it/` and an alphanumeric. */
  lemma ShortFormAfterScheme(u: string)
    ensures ShortForm(u) <==> AfterScheme(u).Some? && PrefixThen(AfterScheme(u).value, "pin.it/", false)
  {
    forall i | 0 <= i < |SCHEMES|
      ensures PrefixThen(u, SCHEMES[i] + "pin.it/", false) <==> StartsWith(u, SCHEMES[i]) && PrefixThen(u[|SCHEMES[i]|..], "pin.it/", false)
    {
      PrefixThenConcat(u, SCHEMES[i], "pin.it/", false);
    }
  }

  /** A long-form match with some host and some domain, after the scheme. */
  predicate HostMatch(rest: string) {
    HostMatchIn(rest, HOSTS, TLDS)
  }

  predicate HostMatchIn(rest: string, hosts: seq<string>, tlds: seq<string>) {
    exists h, k :: 0 <= h < |hosts| && 0 <= k < |tlds| && StartsWith(rest, hosts[h]) && PrefixThen(rest[|hosts[h]|..], tlds[k] + "/pin/", true)
  }

  predicate LongFormIn(u: string, schemes: seq<string>, hosts: seq<string>, tlds: seq<string>) {
    exists i, h, k :: 0 <= i < |schemes| && 0 <= h < |hosts| && 0 <= k < |tlds| &&
      PrefixThen(u, schemes[i] + hosts[h] + tlds[k] + "/pin/", true)
  }

  /** The alternation splits into a scheme and a host match on the rest. */
  lemma LongFormInSplit(u: string, schemes: seq<string>, hosts: seq<string>, tlds: seq<string>)
    ensures LongFormIn(u, schemes, hosts, tlds) <==>
      exists i :: 0 <= i < |schemes| && StartsWith(u, schemes[i]) && HostMatchIn(u[|schemes[i]|..], hosts, tlds)
  {
    if LongFormIn(u, schemes, hosts, tlds) {
      LongFormToHost(u, schemes, hosts, tlds);
    }
    if exists i :: 0 <= i < |schemes| && StartsWith(u, schemes[i]) && HostMatchIn(u[|schemes[i]|..], hosts, tlds) {
      var i :| 0 <= i < |schemes| && StartsWith(u, schemes[i]) && HostMatchIn(u[|schemes[i]|..], hosts, tlds);
      HostToLongForm(u, schemes, hosts, tlds, i);
    }
  }

  lemma LongFormToHost(u: string, schemes: seq<string>, hosts: seq<string>, tlds: seq<string>)
    requires LongFormIn(u, schemes, hosts, tlds)
    ensures exists i :: 0 <= i < |schemes| && StartsWith(u, schemes[i]) && HostMatchIn(u[|schemes[i]|..], hosts, tlds)
  {
    var i, h, k :| 0 <= i < |schemes| && 0 <= h < |hosts| && 0 <= k < |tlds| &&
      PrefixThen(u, schemes[i] + hosts[h] + tlds[k] + "/pin/", true);
    LongFormWitness(u, schemes, hosts, tlds, i, h, k);
  }

  lemma HostToLongForm(u: string, schemes: seq<string>, hosts: seq<string>, tlds: seq<string>, i: nat)
    requires i < |schemes| && StartsWith(u, schemes[i]) && HostMatchIn(u[|schemes[i]|..], hosts, tlds)
    ensures LongFormIn(u, schemes, hosts, tlds)
  {
    var rest := u[|schemes[i]|..];
    var h, k :| 0 <= h < |hosts| && 0 <= k < |tlds| && StartsWith(rest, hosts[h]) && PrefixThen(rest[|hosts[h]|..], tlds[k] + "/pin/", true);
    LongFormSplit(u, schemes[i], hosts[h], tlds[k] + "/pin/");
    assert PrefixThen(u, schemes[i] + hosts[h] + tlds[k] + "/pin/", true);
  }

  lemma LongFormWitness(u: string, schemes: seq<string>, hosts: seq<string>, tlds: seq<string>, i: nat, h: nat, k: nat)
    requires i < |schemes| && h < |hosts| && k < |tlds|
    requires PrefixThen(u, schemes[i] + hosts[h] + tlds[k] + "/pin/", true)
    ensures StartsWith(u, schemes[i]) && HostMatchIn(u[|schemes[i]|..], hosts, tlds)
  {
    LongFormSplit(u, schemes[i], hosts[h], tlds[k] + "/pin/");
    var rest := u[|schemes[i]|..];
    assert StartsWith(rest, hosts[h]) && PrefixThen(rest[|hosts[h]|..], tlds[k] + "/pin/", true);
  }

  /** The long form is the scheme, then a host and a domain. */
  lemma LongFormAfterScheme(u: string)
    ensures LongForm(u) <==> AfterScheme(u).Some? && HostMatch(AfterScheme(u).value)
  {
    assert LongForm(u) == LongFormIn(u, SCHEMES, HOSTS, TLDS);
    LongFormInSplit(u, SCHEMES, HOSTS, TLDS);
  }

  lemma LongFormSplit(u: string, scheme: string, host: string, path: string)
    ensures PrefixThen(u, scheme + host + path, true) <==>
      StartsWith(u, scheme) && StartsWith(u[|scheme|..], host) && PrefixThen(u[|scheme|..][|host|..], path, true)
  {
    assert scheme + host + path == scheme + (host + path);
    PrefixThenConcat(u, scheme, host + path, true);
    if StartsWith(u, scheme) {
      PrefixThenConcat(u[|scheme|..], host, path, true);
    }
  }

  lemma StartsWithConcat(u: string, a: string, b: string)
    ensures StartsWith(u, a + b) ==> StartsWith(u, a)
  {
    if StartsWith(u, a + b) {
      assert u[..|a|] == (a + b)[..|a|];
    }
  }

  /** After the scheme, the optional `www.` is taken exactly when present: `pinterest.` never starts with it. */
  lemma HostsAfterScheme(rest: string)
    ensures HostMatch(rest) <==>
      (var host := if StartsWith(rest, "www.") then rest[4..] else rest;
       StartsWith(host, "pinterest.") && AnyTld(host[10..], TLDS))
  {
    var host := if StartsWith(rest, "www.") then rest[4..] else rest;
    assert HOSTS[1] == "www." + "pinterest.";
    StartsWithConcat(rest, "www.", "pinterest.");
    if StartsWith(rest, "www.") {
      assert !StartsWith(rest, HOSTS[0]) by {
        assert rest[0] == 'w' && HOSTS[0][0] == 'p';
      }
      assert StartsWith(rest, HOSTS[1]) <==> StartsWith(host, "pinterest.") by {
        if StartsWith(rest, HOSTS[1]) {
          assert host[..10] == rest[4..14];
        }
        if StartsWith(host, "pinterest.") {
          assert rest[..14] == rest[..4] + host[..10];
        }
      }
      assert StartsWith(rest, HOSTS[1]) ==> rest[|HOSTS[1]|..] == host[10..];
    } else {
      assert !StartsWith(rest, HOSTS[1]);
      assert StartsWith(rest, HOSTS[0]) ==> rest[|HOSTS[0]|..] == host[10..];
    }
  }

  // ---------------------------------------------------------------------------
  // The language menu (lines 16-36, 67-98)
  // ---------------------------------------------------------------------------

  /** The dropdown's `open` class, the trigger's `aria-expanded`, and the menu's `aria-hidden` and `hidden`. */
  class LanguageMenu {
    var open: bool
    var ariaExpanded: string
    var ariaHidden: string
    var hidden: bool

    /** The four indicators agree with each other. */
    predicate Consistent()
      reads this
    {
      (open <==> ariaExpanded == "true") && (open <==> ariaHidden == "false") && (open <==> !hidden)
    }

    /** The menu as the page's markup leaves it, which need not be consistent. */
    constructor (isOpen: bool, expanded: string, ariaHiddenAttr: string, isHidden: bool)
      ensures open == isOpen && ariaExpanded == expanded && ariaHidden == ariaHiddenAttr && hidden == isHidden
    {
      open := isOpen;
      ariaExpanded := expanded;
      ariaHidden := ariaHiddenAttr;
      hidden := isHidden;
    }

    /** `closeMenu`. */
    method Close()
      modifies this
      ensures !open && Consistent()
      ensures ariaExpanded == "false" && ariaHidden == "true" && hidden
    {
      open := false;
      ariaExpanded := "false";
      ariaHidden := "true";
      hidden := true;
    }

    /** `openMenu`. */
    method Open()
      modifies this
      ensures open && Consistent()
      ensures ariaExpanded == "true" && ariaHidden == "false" && !hidden
    {
      open := true;
      ariaExpanded := "true";
      ariaHidden := "false";
      hidden := false;
    }

    /** `toggleMenu`: flips the `open` class and brings the other indicators in line. */
    method Toggle()
      modifies this
      ensures open == !old(open) && Consistent()
      ensures old(open) ==> ariaExpanded == "false" && ariaHidden == "true" && hidden
      ensures !old(open) ==> ariaExpanded == "true" && ariaHidden == "false" && !hidden
    {
      if open {
        Close();
      } else {
        Open();
      }
    }
  }

  /** JavaScript's `a % n`: the remainder takes the sign of `a`. */
  function JsRem(a: int, n: int): (r: int)
    requires n > 0
    ensures a >= 0 ==> r == a % n
    ensures -n < r < n
  {
    if a >= 0 then a % n else -((-a) % n)
  }

  /**
   * The option focused by an arrow key, from `current` (`indexOf` of the
   * focused element, `-1` when it is none of them); `None` when there are no
   * options, where `options[NaN].focus()` throws.
   */
  function ArrowTarget(down: bool, current: int, n: nat): Option<int> {
    if n == 0 then None
    else if down then Some(JsRem(current + 1, n))
    else Some(JsRem(current - 1 + n, n))
  }

  /** Both keys stay within the options, and wrap around at the ends. */
  lemma ArrowTargetInRange(down: bool, current: int, n: nat)
    requires n >= 1 && -1 <= current < n
    ensures ArrowTarget(down, current, n).Some?
    ensures 0 <= ArrowTarget(down, current, n).value < n
    ensures down && current == n - 1 ==> ArrowTarget(down, current, n).value == 0
    ensures down && current < n - 1 ==> ArrowTarget(down, current, n).value == current + 1
    ensures !down && current == 0 ==> ArrowTarget(down, current, n).value == n - 1
    ensures !down && current > 0 ==> ArrowTarget(down, current, n).value == current - 1
    ensures !down && current == -1 ==> ArrowTarget(down, current, n).value == (if n == 1 then 0 else n - 2)
  {
    if !down && current == -1 && n == 1 {
      assert JsRem(-1, 1) == 0;
    } else if !down {
      assert current - 1 + n >= 0;
      ModRange(current - 1 + n, n);
    } else {
      ModRange(current + 1, n);
    }
  }

  lemma ModRange(a: int, n: int)
    requires n > 0 && 0 <= a <= 2 * n - 1
    ensures a % n == if a < n then a else a - n
  {
    if a >= n {
      assert a == n + (a - n);
    }
  }
}
