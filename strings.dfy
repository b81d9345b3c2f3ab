/**
 * String helpers with the semantics of the host languages' built-ins that the
 * modelled code relies on: Python's `str.strip`, `str.split`, `str.join`,
 * `str.lower` and `in`, and JavaScript's `String.prototype.trim`.
 */
module Strings {

  /** The characters for which Python's `str.isspace()` holds; `str.strip()` and `\s` in `re` use them. */
  const PY_WHITESPACE: set<char> := {
    '\t', '\n', '\U{000B}', '\U{000C}', '\r', '\U{001C}', '\U{001D}', '\U{001E}', '\U{001F}', ' ',
    '\U{0085}', '\U{00A0}', '\U{1680}', '\U{2000}', '\U{2001}', '\U{2002}', '\U{2003}', '\U{2004}',
    '\U{2005}', '\U{2006}', '\U{2007}', '\U{2008}', '\U{2009}', '\U{200A}', '\U{2028}', '\U{2029}',
    '\U{202F}', '\U{205F}', '\U{3000}'
  }

  /** JavaScript's WhiteSpace and LineTerminator characters, the set `String.prototype.trim` removes. */
  const JS_WHITESPACE: set<char> := {
    '\t', '\n', '\U{000B}', '\U{000C}', '\r', ' ', '\U{00A0}', '\U{1680}', '\U{2000}', '\U{2001}',
    '\U{2002}', '\U{2003}', '\U{2004}', '\U{2005}', '\U{2006}', '\U{2007}', '\U{2008}', '\U{2009}',
    '\U{200A}', '\U{2028}', '\U{2029}', '\U{202F}', '\U{205F}', '\U{3000}', '\U{FEFF}'
  }

  /** The number of leading characters of `s` that belong to `cs`. */
  function LeadCount(s: string, cs: set<char>): (n: nat)
    ensures n <= |s|
    ensures forall i :: 0 <= i < n ==> s[i] in cs
    ensures n < |s| ==> s[n] !in cs
  {
    if s != [] && s[0] in cs then 1 + LeadCount(s[1..], cs) else 0
  }

  /** The number of trailing characters of `s` that belong to `cs`. */
  function TailCount(s: string, cs: set<char>): (n: nat)
    ensures n <= |s|
    ensures forall i :: |s| - n <= i < |s| ==> s[i] in cs
    ensures n < |s| ==> s[|s| - n - 1] !in cs
  {
    if s != [] && s[|s| - 1] in cs then 1 + TailCount(s[..|s| - 1], cs) else 0
  }

  /** Python's `s.strip(chars)`: drop leading and trailing characters of `cs`. */
  function Trim(s: string, cs: set<char>): (r: string)
    ensures LeadCount(s, cs) + |r| <= |s|
    ensures r == s[LeadCount(s, cs)..LeadCount(s, cs) + |r|]
    ensures forall i :: LeadCount(s, cs) + |r| <= i < |s| ==> s[i] in cs
    ensures r != [] ==> r[0] !in cs && r[|r| - 1] !in cs
  {
    var rest := s[LeadCount(s, cs)..];
    rest[..|rest| - TailCount(rest, cs)]
  }

  /** Python's `s.strip()`. */
  function Strip(s: string): string {
    Trim(s, PY_WHITESPACE)
  }

  /** JavaScript's `s.trim()`. */
  function JsTrim(s: string): string {
    Trim(s, JS_WHITESPACE)
  }

  /** Python's `not s.strip()`: the string holds nothing but whitespace. */
  predicate IsBlank(s: string) {
    Strip(s) == []
  }

  lemma BlankIffAllWhitespace(s: string)
    ensures IsBlank(s) <==> forall i :: 0 <= i < |s| ==> s[i] in PY_WHITESPACE
  {
    if !IsBlank(s) {
      var r := Strip(s);
      var k := LeadCount(s, PY_WHITESPACE);
      assert s[k] == r[0];
    }
  }

  predicate StartsWith(s: string, prefix: string) {
    |prefix| <= |s| && s[..|prefix|] == prefix
  }

  predicate EndsWith(s: string, suffix: string) {
    |suffix| <= |s| && s[|s| - |suffix|..] == suffix
  }

  /** Python's `sub in s` for strings. */
  predicate Contains(s: string, sub: string)
    decreases |s|
  {
    StartsWith(s, sub) || (s != [] && Contains(s[1..], sub))
  }

  lemma ContainsAt(s: string, sub: string, i: nat)
    requires i + |sub| <= |s| && s[i..i + |sub|] == sub
    ensures Contains(s, sub)
    decreases i
  {
    if i > 0 {
      assert s[1..][i - 1..i - 1 + |sub|] == s[i..i + |sub|];
      ContainsAt(s[1..], sub, i - 1);
    }
  }

  lemma {:induction false} ContainsLonger(s: string, sub: string)
    requires Contains(s, sub)
    ensures |sub| <= |s|
    decreases |s|
  {
    if !StartsWith(s, sub) {
      ContainsLonger(s[1..], sub);
    }
  }

  /** ASCII lower-casing of one character. */
  function LowerChar(c: char): char {
    if 'A' <= c <= 'Z' then (c as int + 32) as char else c
  }

  /** `s.lower()` / `s.toLowerCase()`, restricted to ASCII letters. */
  function Lower(s: string): (r: string)
    ensures |r| == |s|
    ensures forall i :: 0 <= i < |s| ==> r[i] == LowerChar(s[i])
  {
    seq(|s|, i requires 0 <= i < |s| => LowerChar(s[i]))
  }

  /** The index of the first occurrence of `c` in `s`, or `|s|` when there is none. */
  function IndexOf(s: string, c: char): (i: nat)
    ensures i <= |s|
    ensures i < |s| ==> s[i] == c
    ensures forall k :: 0 <= k < i ==> s[k] != c
  {
    if s == [] then 0 else if s[0] == c then 0 else 1 + IndexOf(s[1..], c)
  }

  /** `sep.join(parts)`. */
  function Join(parts: seq<string>, sep: string): string {
    if |parts| == 0 then []
    else if |parts| == 1 then parts[0]
    else parts[0] + sep + Join(parts[1..], sep)
  }

  /** `s.split(sep)` for a one-character separator (Python and JavaScript agree here). */
  function Split(s: string, sep: char): (parts: seq<string>)
    ensures |parts| >= 1
    ensures forall i :: 0 <= i < |parts| ==> sep !in parts[i]
    ensures Join(parts, [sep]) == s
    decreases |s|
  {
    var i := IndexOf(s, sep);
    if i == |s| then
      assert sep !in s by {
        forall k | 0 <= k < |s| ensures s[k] != sep { }
      }
      [s]
    else
      var rest := Split(s[i + 1..], sep);
      assert s == s[..i] + [sep] + s[i + 1..];
      assert sep !in s[..i] by {
        forall k | 0 <= k < i ensures s[..i][k] != sep { }
      }
      [s[..i]] + rest
  }

  /** Splitting undoes joining: the parts come back when none holds the separator. */
  lemma {:induction false} SplitJoin(parts: seq<string>, sep: char)
    requires |parts| >= 1
    requires forall i :: 0 <= i < |parts| ==> sep !in parts[i]
    ensures Split(Join(parts, [sep]), sep) == parts
    decreases |parts|
  {
    var s := Join(parts, [sep]);
    if |parts| == 1 {
      assert forall k :: 0 <= k < |s| ==> s[k] in parts[0];
    } else {
      var rest := Join(parts[1..], [sep]);
      assert s == parts[0] + [sep] + rest;
      var i := IndexOf(s, sep);
      assert s[|parts[0]|] == sep;
      assert forall k :: 0 <= k < |parts[0]| ==> s[k] == parts[0][k];
      assert s[..i] == parts[0];
      assert s[i + 1..] == rest;
      SplitJoin(parts[1..], sep);
    }
  }

  lemma {:induction false} JoinAppend(parts: seq<string>, x: string, sep: string)
    requires |parts| >= 1
    ensures Join(parts + [x], sep) == Join(parts, sep) + sep + x
    decreases |parts|
  {
    if |parts| == 1 {
      assert (parts + [x])[1..] == [x];
    } else {
      assert (parts + [x])[1..] == parts[1..] + [x];
      JoinAppend(parts[1..], x, sep);
    }
  }

  lemma JoinPrepend(x: string, parts: seq<string>, sep: string)
    requires |parts| >= 1
    ensures Join([x] + parts, sep) == x + sep + Join(parts, sep)
  {
    assert ([x] + parts)[1..] == parts;
  }

  /** Only `cs` characters around a core that neither starts nor ends with one: trimming gives that core. */
  lemma TrimUnique(a: string, r: string, b: string, cs: set<char>)
    requires forall k :: 0 <= k < |a| ==> a[k] in cs
    requires forall k :: 0 <= k < |b| ==> b[k] in cs
    requires r != [] ==> r[0] !in cs && r[|r| - 1] !in cs
    ensures Trim(a + r + b, cs) == r
  {
    var s := a + r + b;
    var n := LeadCount(s, cs);
    if r == [] {
      assert forall k :: 0 <= k < |s| ==> s[k] in cs by {
        forall k | 0 <= k < |s| ensures s[k] in cs {
          if k < |a| { assert s[k] == a[k]; } else { assert s[k] == b[k - |a|]; }
        }
      }
      assert n == |s|;
    } else {
      assert s[|a|] == r[0];
      assert n == |a|;
      var rest := s[n..];
      assert rest == r + b;
      var t := TailCount(rest, cs);
      assert rest[|r| - 1] == r[|r| - 1];
      assert t == |b|;
      assert rest[..|rest| - t] == r;
    }
  }

  /** Trimming ignores any padding made of the trimmed characters. */
  lemma TrimPadded(w1: string, t: string, w2: string, cs: set<char>)
    requires forall k :: 0 <= k < |w1| ==> w1[k] in cs
    requires forall k :: 0 <= k < |w2| ==> w2[k] in cs
    ensures Trim(w1 + t + w2, cs) == Trim(t, cs)
  {
    var r := Trim(t, cs);
    var n := LeadCount(t, cs);
    var a := t[..n];
    var b := t[n + |r|..];
    TrimSides(t, cs, r, n, a, b);
    PadSides(w1, a, r, b, w2, cs);
    Regroup(w1, a, r, b, w2);
    TrimUnique(w1 + a, r, b + w2, cs);
  }

  /** The trimmed ends of `t` around its core. */
  lemma TrimSides(t: string, cs: set<char>, r: string, n: nat, a: string, b: string)
    requires r == Trim(t, cs) && n == LeadCount(t, cs)
    requires a == t[..n] && n + |r| <= |t| && b == t[n + |r|..]
    ensures t == a + r + b
    ensures forall k :: 0 <= k < |a| ==> a[k] in cs
    ensures forall k :: 0 <= k < |b| ==> b[k] in cs
  {
    assert r == t[n..n + |r|];
    assert t == t[..n] + t[n..n + |r|] + t[n + |r|..];
    forall k | 0 <= k < |b| ensures b[k] in cs {
      assert b[k] == t[n + |r| + k];
    }
  }

  lemma Regroup(w1: string, a: string, r: string, b: string, w2: string)
    ensures w1 + (a + r + b) + w2 == (w1 + a) + r + (b + w2)
  {
  }

  lemma PadSides(w1: string, a: string, r: string, b: string, w2: string, cs: set<char>)
    requires forall k :: 0 <= k < |w1| ==> w1[k] in cs
    requires forall k :: 0 <= k < |a| ==> a[k] in cs
    requires forall k :: 0 <= k < |b| ==> b[k] in cs
    requires forall k :: 0 <= k < |w2| ==> w2[k] in cs
    ensures forall k :: 0 <= k < |w1 + a| ==> (w1 + a)[k] in cs
    ensures forall k :: 0 <= k < |b + w2| ==> (b + w2)[k] in cs
  {
  }

  /** The trimmed characters at each end and the trimmed core make up the string. */
  lemma TrimSplits(s: string, cs: set<char>, rest: string, tail: string)
    requires rest == s[LeadCount(s, cs)..]
    requires tail == rest[|rest| - TailCount(rest, cs)..]
    ensures s == s[..LeadCount(s, cs)] + Trim(s, cs) + tail
  {
    TrimIsCore(s, cs, rest);
    SlicesJoin(s, LeadCount(s, cs), rest, |rest| - TailCount(rest, cs), tail);
  }

  lemma TrimIsCore(s: string, cs: set<char>, rest: string)
    requires rest == s[LeadCount(s, cs)..]
    ensures Trim(s, cs) == rest[..|rest| - TailCount(rest, cs)]
  {
  }

  lemma SlicesJoin(s: string, n: nat, rest: string, m: nat, tail: string)
    requires n <= |s| && rest == s[n..] && m <= |rest| && tail == rest[m..]
    ensures s == s[..n] + rest[..m] + tail
  {
    assert rest == rest[..m] + tail;
    assert s == s[..n] + rest;
  }
}
