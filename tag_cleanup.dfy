/**
 * The two tag-level passes of the translation cleaner: the allow-list drawn
 * from the original markup, the unwrapping of every element the original
 * never used, and the removal of line breaks the original did not have.
 */
module TagCleanup {
  import opened Html

  /** The tags kept by unwrapping: the allow-list plus the structural wrappers. */
  function Kept(allowed: set<string>): set<string> {
    allowed + SENTINELS
  }

  /** The entries of `ts` that lie in `keep`, in order. */
  function Keep(ts: seq<string>, keep: set<string>): (r: seq<string>)
    ensures |r| <= |ts|
    ensures forall i :: 0 <= i < |r| ==> r[i] in keep
  {
    if ts == [] then [] else (if ts[0] in keep then [ts[0]] else []) + Keep(ts[1..], keep)
  }

  /** The entries of `ts` other than `t`, in order. */
  function Omit(ts: seq<string>, t: string): (r: seq<string>)
    ensures |r| <= |ts|
    ensures t !in r
  {
    if ts == [] then [] else (if ts[0] != t then [ts[0]] else []) + Omit(ts[1..], t)
  }

  lemma {:induction false} KeepConcat(a: seq<string>, b: seq<string>, keep: set<string>)
    ensures Keep(a + b, keep) == Keep(a, keep) + Keep(b, keep)
  {
    if a != [] {
      assert (a + b)[0] == a[0];
      assert (a + b)[1..] == a[1..] + b;
      KeepConcat(a[1..], b, keep);
    } else {
      assert a + b == b;
    }
  }

  lemma {:induction false} OmitConcat(a: seq<string>, b: seq<string>, t: string)
    ensures Omit(a + b, t) == Omit(a, t) + Omit(b, t)
  {
    if a != [] {
      assert (a + b)[0] == a[0];
      assert (a + b)[1..] == a[1..] + b;
      OmitConcat(a[1..], b, t);
    } else {
      assert a + b == b;
    }
  }

  /** `_allowed_tags_from_original`: the names of all elements of the parsed original. */
  function AllowedTags(original: seq<Node>): set<string> {
    set e | e in Elements(original) :: e.tag
  }

  /** The allow-list holds exactly the tags occurring at some depth in the original; empty markup gives none. */
  lemma AllowedTagsExact(original: seq<Node>, t: string)
    ensures t in AllowedTags(original) <==> Occurs(original, t)
    ensures original == [] ==> AllowedTags(original) == {}
  {
    ElementsMatchOccurs(original, t);
  }

  /** The original's own elements all carry allowed tags. */
  lemma OriginalIsAllowed(original: seq<Node>)
    ensures AllTagsIn(original, AllowedTags(original))
  {
  }

  /** `_remove_disallowed_tags`: unwrap each element whose tag is neither a wrapper nor allowed. */
  function Unwrap(f: seq<Node>, allowed: set<string>): seq<Node> {
    if f == [] then [] else UnwrapNode(f[0], allowed) + Unwrap(f[1..], allowed)
  }

  function UnwrapNode(n: Node, allowed: set<string>): seq<Node> {
    match n
    case Element(t, a, c) =>
      if t in SENTINELS || t in allowed then [Element(t, a, Unwrap(c, allowed))] else Unwrap(c, allowed)
    case _ => [n]
  }

  lemma {:induction false} UnwrapConcat(a: seq<Node>, b: seq<Node>, allowed: set<string>)
    ensures Unwrap(a + b, allowed) == Unwrap(a, allowed) + Unwrap(b, allowed)
  {
    if a != [] {
      assert (a + b)[0] == a[0];
      assert (a + b)[1..] == a[1..] + b;
      UnwrapConcat(a[1..], b, allowed);
    } else {
      assert a + b == b;
    }
  }

  /** After unwrapping, every element is allowed or a wrapper. */
  lemma {:induction false} UnwrapAllowed(f: seq<Node>, allowed: set<string>)
    ensures AllTagsIn(Unwrap(f, allowed), Kept(allowed))
  {
    if f != [] {
      UnwrapAllowed(f[1..], allowed);
      ElementsConcat(UnwrapNode(f[0], allowed), Unwrap(f[1..], allowed));
      match f[0]
      case Element(t, a, c) =>
        UnwrapAllowed(c, allowed);
        if t in SENTINELS || t in allowed {
          var e := Element(t, a, Unwrap(c, allowed));
          assert Elements([e]) == [e] + Elements(Unwrap(c, allowed));
        }
      case Text(_) =>
      case Comment(_) =>
    }
  }

  /** Unwrapping keeps every text and comment node, in document order. */
  lemma {:induction false} UnwrapKeepsLeaves(f: seq<Node>, allowed: set<string>)
    ensures Leaves(Unwrap(f, allowed)) == Leaves(f)
  {
    if f != [] {
      UnwrapKeepsLeaves(f[1..], allowed);
      LeavesConcat(UnwrapNode(f[0], allowed), Unwrap(f[1..], allowed));
      match f[0]
      case Element(t, a, c) =>
        UnwrapKeepsLeaves(c, allowed);
        if t in SENTINELS || t in allowed {
          var e := Element(t, a, Unwrap(c, allowed));
          assert Leaves([e]) == Leaves(Unwrap(c, allowed));
        }
      case Text(_) =>
        assert Leaves([f[0]]) == [f[0]];
      case Comment(_) =>
        assert Leaves([f[0]]) == [f[0]];
    }
  }

  /** The surviving elements are exactly the allowed ones, in their original document order. */
  lemma {:induction false} UnwrapTagSeq(f: seq<Node>, allowed: set<string>)
    ensures TagSeq(Unwrap(f, allowed)) == Keep(TagSeq(f), Kept(allowed))
  {
    if f != [] {
      UnwrapTagSeq(f[1..], allowed);
      TagSeqConcat(UnwrapNode(f[0], allowed), Unwrap(f[1..], allowed));
      match f[0]
      case Element(t, a, c) =>
        UnwrapTagSeq(c, allowed);
        KeepConcat([t], TagSeq(c), Kept(allowed));
        KeepConcat(TagSeqOf(f[0]), TagSeq(f[1..]), Kept(allowed));
        if t in SENTINELS || t in allowed {
          var e := Element(t, a, Unwrap(c, allowed));
          assert TagSeq([e]) == [t] + TagSeq(Unwrap(c, allowed));
        }
      case Text(_) =>
        assert TagSeq([f[0]]) == [];
        assert TagSeq(f) == TagSeq(f[1..]);
      case Comment(_) =>
        assert TagSeq([f[0]]) == [];
        assert TagSeq(f) == TagSeq(f[1..]);
    }
  }

  /** A forest whose tags are all kept is left as it is. */
  lemma {:induction false} UnwrapIdentity(f: seq<Node>, allowed: set<string>)
    requires AllTagsIn(f, Kept(allowed))
    ensures Unwrap(f, allowed) == f
  {
    if f != [] {
      AllTagsInConcat([f[0]], f[1..], Kept(allowed));
      assert f == [f[0]] + f[1..];
      UnwrapIdentity(f[1..], allowed);
      match f[0]
      case Element(t, a, c) =>
        assert Elements([f[0]]) == [f[0]] + Elements(c);
        UnwrapIdentity(c, allowed);
      case Text(_) =>
      case Comment(_) =>
    }
  }

  /** One pass over the snapshot suffices: a second pass changes nothing. */
  lemma UnwrapIdempotent(f: seq<Node>, allowed: set<string>)
    ensures Unwrap(Unwrap(f, allowed), allowed) == Unwrap(f, allowed)
  {
    UnwrapAllowed(f, allowed);
    UnwrapIdentity(Unwrap(f, allowed), allowed);
  }

  /** No element named `t` anywhere in the forest. */
  predicate NoneNamed(f: seq<Node>, t: string) {
    forall e :: e in Elements(f) ==> e.tag != t
  }

  /** Every `<br>` element is empty, as the parser builds void elements. */
  predicate BreaksAreVoid(f: seq<Node>) {
    forall e :: e in Elements(f) && e.tag == "br" ==> e.children == []
  }

  /** `decompose()` of every `<br>` element, with whatever it holds. */
  function RemoveBreaks(f: seq<Node>): seq<Node> {
    if f == [] then [] else RemoveBreaksNode(f[0]) + RemoveBreaks(f[1..])
  }

  function RemoveBreaksNode(n: Node): seq<Node> {
    match n
    case Element(t, a, c) => if t == "br" then [] else [Element(t, a, RemoveBreaks(c))]
    case _ => [n]
  }

  /** `_strip_redundant_breaks`: nothing happens when the original has `<br>`, otherwise every `<br>` goes. */
  function StripBreaks(f: seq<Node>, allowed: set<string>): seq<Node> {
    if "br" in allowed then f else RemoveBreaks(f)
  }

  /** After the pass, a `<br>` survives only where the original had one. */
  lemma {:induction false} StripBreaksRemovesAll(f: seq<Node>, allowed: set<string>)
    requires "br" !in allowed
    ensures NoneNamed(StripBreaks(f, allowed), "br")
  {
    if f != [] {
      StripBreaksRemovesAll(f[1..], allowed);
      ElementsConcat(RemoveBreaksNode(f[0]), RemoveBreaks(f[1..]));
      match f[0]
      case Element(t, a, c) =>
        StripBreaksRemovesAll(c, allowed);
        if t != "br" {
          var e := Element(t, a, RemoveBreaks(c));
          assert Elements([e]) == [e] + Elements(RemoveBreaks(c));
        }
      case Text(_) =>
      case Comment(_) =>
    }
  }

  /** With void breaks, removing them keeps every string leaf and every other element in order. */
  lemma {:induction false} RemoveBreaksKeepsRest(f: seq<Node>)
    requires BreaksAreVoid(f)
    ensures Leaves(RemoveBreaks(f)) == Leaves(f)
    ensures TagSeq(RemoveBreaks(f)) == Omit(TagSeq(f), "br")
  {
    if f != [] {
      ElementsConcat([f[0]], f[1..]);
      assert f == [f[0]] + f[1..];
      RemoveBreaksKeepsRest(f[1..]);
      LeavesConcat(RemoveBreaksNode(f[0]), RemoveBreaks(f[1..]));
      TagSeqConcat(RemoveBreaksNode(f[0]), RemoveBreaks(f[1..]));
      OmitConcat(TagSeqOf(f[0]), TagSeq(f[1..]), "br");
      match f[0]
      case Element(t, a, c) =>
        assert Elements([f[0]]) == [f[0]] + Elements(c);
        OmitConcat([t], TagSeq(c), "br");
        if t == "br" {
          assert c == [];
        } else {
          RemoveBreaksKeepsRest(c);
          var e := Element(t, a, RemoveBreaks(c));
          assert Leaves([e]) == Leaves(RemoveBreaks(c));
          assert TagSeq([e]) == [t] + TagSeq(RemoveBreaks(c));
        }
      case Text(_) =>
        assert Leaves([f[0]]) == [f[0]];
      case Comment(_) =>
        assert Leaves([f[0]]) == [f[0]];
    }
  }

  /** A forest without `<br>` is not changed by the pass. */
  lemma {:induction false} RemoveBreaksIdentity(f: seq<Node>)
    requires NoneNamed(f, "br")
    ensures RemoveBreaks(f) == f
  {
    if f != [] {
      ElementsConcat([f[0]], f[1..]);
      assert f == [f[0]] + f[1..];
      RemoveBreaksIdentity(f[1..]);
      match f[0]
      case Element(t, a, c) =>
        assert Elements([f[0]]) == [f[0]] + Elements(c);
        RemoveBreaksIdentity(c);
      case Text(_) =>
      case Comment(_) =>
    }
  }

  /**
   * The break pass has nothing left to do after unwrapping: a `<br>` the
   * original lacks was already unwrapped away.
   */
  lemma StripBreaksAfterUnwrap(f: seq<Node>, allowed: set<string>)
    ensures StripBreaks(Unwrap(f, allowed), allowed) == Unwrap(f, allowed)
  {
    if "br" !in allowed {
      UnwrapAllowed(f, allowed);
      RemoveBreaksIdentity(Unwrap(f, allowed));
    }
  }
}
