/** Stage 1 of the reducer (backend/app.py:55-58): every element whose tag is not one of
    the important tags is replaced by its children. */
module Unwrap {
  import opened Words
  import opened Dom
  import opened Markup
  import opened Removal

  const ImportantTags: set<string> := {"p", "a", "img", "strong", "em", "h1", "h2", "h3"}

  predicate Unimportant(e: Element) {
    e.tag !in ImportantTags
  }

  /** The forest with every unimportant element replaced by its (likewise reduced) children. */
  function UnwrapAll(f: seq<Node>): seq<Node>
    decreases f
  {
    if f == [] then [] else UnwrapNode(f[0]) + UnwrapAll(f[1..])
  }

  function UnwrapNode(n: Node): seq<Node>
    decreases n, 0
  {
    match n
    case Elem(e) =>
      if Unimportant(e) then UnwrapAll(e.children)
      else [Elem(Element(e.tag, e.attrs, UnwrapAll(e.children)))]
    case _ => [n]
  }

  /** The tags of `ts` that are important, in order. */
  function KeepImportant(ts: seq<string>): (r: seq<string>)
    ensures forall t :: t in r ==> t in ImportantTags && t in ts
  {
    if ts == [] then []
    else (if ts[0] in ImportantTags then [ts[0]] else []) + KeepImportant(ts[1..])
  }

  lemma UnwrapCons(n: Node, rest: seq<Node>)
    ensures UnwrapAll([n] + rest) == UnwrapNode(n) + UnwrapAll(rest)
  {
    assert ([n] + rest)[0] == n && ([n] + rest)[1..] == rest;
  }

  lemma {:induction false} UnwrapConcat(a: seq<Node>, b: seq<Node>)
    ensures UnwrapAll(a + b) == UnwrapAll(a) + UnwrapAll(b)
  {
    if a == [] {
      assert a + b == b;
    } else {
      assert (a + b)[0] == a[0] && (a + b)[1..] == a[1..] + b;
      UnwrapConcat(a[1..], b);
    }
  }

  lemma UnwrapOne(n: Node)
    ensures UnwrapAll([n]) == UnwrapNode(n)
  {
    assert [n][1..] == [];
  }

  lemma {:induction false} KeepImportantConcat(a: seq<string>, b: seq<string>)
    ensures KeepImportant(a + b) == KeepImportant(a) + KeepImportant(b)
  {
    if a == [] {
      assert a + b == b;
    } else {
      assert (a + b)[0] == a[0] && (a + b)[1..] == a[1..] + b;
      KeepImportantConcat(a[1..], b);
    }
  }

  // ---- One `unwrap` in the loop ----

  /** Unwrapping one unimportant element does not change the reference. */
  lemma {:induction false} UnwrapStep(f: seq<Node>, j: nat)
    requires j < |Elements(f)| && Unimportant(Elements(f)[j])
    ensures UnwrapAll(EditAt(f, j, Unwrap)) == UnwrapAll(f)
    decreases f, 1
  {
    var n, rest := f[0], f[1..];
    var own := Own(n);
    ElementsUnfold(f);
    if j >= |own| {
      var r := EditAt(rest, j - |own|, Unwrap);
      assert EditAt(f, j, Unwrap) == [n] + r;
      UnwrapCons(n, r);
      assert Elements(f)[j] == Elements(rest)[j - |own|];
      UnwrapStep(rest, j - |own|);
    } else {
      var r := EditIn(n, j, Unwrap);
      assert EditAt(f, j, Unwrap) == r + rest;
      UnwrapConcat(r, rest);
      assert Elements(f)[j] == own[j];
      UnwrapInStep(n, j);
    }
  }

  lemma {:induction false} UnwrapInStep(n: Node, j: nat)
    requires j < |Own(n)| && Unimportant(Own(n)[j])
    ensures UnwrapAll(EditIn(n, j, Unwrap)) == UnwrapNode(n)
    decreases n, 0
  {
    var e := n.element;
    OwnUnfold(n);
    assert n == Elem(e);
    if j > 0 {
      var c := EditAt(e.children, j - 1, Unwrap);
      var m := Element(e.tag, e.attrs, c);
      assert EditIn(n, j, Unwrap) == [Elem(m)];
      UnwrapOne(Elem(m));
      assert Own(n)[j] == Elements(e.children)[j - 1];
      UnwrapStep(e.children, j - 1);
    }
  }

  /** After unwrapping position `j`, the live list from `j` on is the old list from `j + 1` on:
      the unwrapped element's subtree moves up in its place. */
  lemma UnwrapSuffix(f: seq<Node>, j: nat)
    requires j < |Elements(f)|
    ensures j + 1 <= |Elements(f)| && j <= |Elements(EditAt(f, j, Unwrap))|
    ensures Drop(Elements(EditAt(f, j, Unwrap)), j) == Drop(Elements(f), j + 1)
  {
    var es := Elements(f);
    EditSuffix(f, j, Unwrap);
    ForestSubtree(f, j);
    DropSplit(es, j + 1, j + Size(es[j]));
  }

  /** Unwrapping keeps the tag of every element before the unwrapped one. */
  lemma UnwrapPrefixTag(f: seq<Node>, j: nat, i: nat)
    requires i < j < |Elements(f)|
    ensures i < |Elements(EditAt(f, j, Unwrap))|
    ensures Elements(EditAt(f, j, Unwrap))[i].tag == Elements(f)[i].tag
  {
    EditPrefix(f, j, Unwrap, i);
  }

  /** A forest whose elements are all important is its own reference. */
  lemma {:induction false} UnwrapNone(f: seq<Node>)
    requires NoneSelected(Elements(f), Unimportant)
    ensures UnwrapAll(f) == f
    decreases f, 1
  {
    if f != [] {
      ElementsUnfold(f);
      NoneSelectedSplit(Own(f[0]), Elements(f[1..]), Unimportant);
      UnwrapNodeNone(f[0]);
      UnwrapNone(f[1..]);
      assert f == [f[0]] + f[1..];
    }
  }

  lemma {:induction false} UnwrapNodeNone(n: Node)
    requires NoneSelected(Own(n), Unimportant)
    ensures UnwrapNode(n) == [n]
    decreases n, 0
  {
    if n.Elem? {
      var e := n.element;
      OwnUnfold(n);
      assert e in Own(n);
      NoneSelectedSplit([e], Elements(e.children), Unimportant);
      UnwrapNone(e.children);
    }
  }

  // ---- What the pass keeps ----

  /** The tags left are the original tags with the unimportant ones taken out, in order. */
  lemma {:induction false} UnwrapTags(f: seq<Node>)
    ensures Tags(Elements(UnwrapAll(f))) == KeepImportant(Tags(Elements(f)))
    decreases f, 1
  {
    if f != [] {
      var a, b := UnwrapNode(f[0]), UnwrapAll(f[1..]);
      ElementsConcat(a, b);
      ElementsUnfold(f);
      TagsConcat(Elements(a), Elements(b));
      TagsConcat(Own(f[0]), Elements(f[1..]));
      KeepImportantConcat(Tags(Own(f[0])), Tags(Elements(f[1..])));
      UnwrapNodeTags(f[0]);
      UnwrapTags(f[1..]);
    }
  }

  lemma {:induction false} UnwrapNodeTags(n: Node)
    ensures Tags(Elements(UnwrapNode(n))) == KeepImportant(Tags(Own(n)))
    decreases n, 0
  {
    match n
    case Elem(e) =>
      OwnUnfold(n);
      TagsConcat([e], Elements(e.children));
      KeepImportantConcat([e.tag], Tags(Elements(e.children)));
      assert Tags([e]) == [e.tag];
      assert KeepImportant([e.tag]) == (if e.tag in ImportantTags then [e.tag] else []) + KeepImportant([]);
      UnwrapTags(e.children);
      if !Unimportant(e) {
        var m := Element(e.tag, e.attrs, UnwrapAll(e.children));
        ElementsCons(Elem(m), []);
        assert [Elem(m)] + [] == [Elem(m)];
        assert Elements([]) == [];
        OwnUnfold(Elem(m));
        TagsConcat([m], Elements(m.children));
        assert Tags([m]) == [e.tag];
      }
    case _ =>
      ElementsCons(n, []);
      assert [n] + [] == [n];
  }

  /** After stage 1 every element's tag is important. */
  lemma UnwrapLeavesImportant(f: seq<Node>)
    ensures forall e :: e in Elements(UnwrapAll(f)) ==> e.tag in ImportantTags
  {
    UnwrapTags(f);
    var es := Elements(UnwrapAll(f));
    forall e | e in es ensures e.tag in ImportantTags {
      var i :| 0 <= i < |es| && es[i] == e;
      assert Tags(es)[i] in Tags(es);
    }
  }

  /** Unwrapping leaves the text nodes as they were, in the same order. */
  lemma {:induction false} UnwrapStrings(f: seq<Node>)
    ensures Strings(UnwrapAll(f)) == Strings(f)
    decreases f, 1
  {
    if f != [] {
      StringsConcat(UnwrapNode(f[0]), UnwrapAll(f[1..]));
      UnwrapNodeStrings(f[0]);
      UnwrapStrings(f[1..]);
    }
  }

  lemma {:induction false} UnwrapNodeStrings(n: Node)
    ensures Strings(UnwrapNode(n)) == NodeStrings(n)
    decreases n, 0
  {
    match n
    case Elem(e) =>
      UnwrapStrings(e.children);
      if !Unimportant(e) {
        StringsCons(Elem(Element(e.tag, e.attrs, UnwrapAll(e.children))), []);
      }
    case _ =>
      StringsCons(n, []);
  }

  /** Hence `get_text()` is unchanged too. */
  lemma UnwrapText(f: seq<Node>)
    ensures TextOf(UnwrapAll(f)) == TextOf(f)
  {
    UnwrapStrings(f);
    TextOfStrings(f);
    TextOfStrings(UnwrapAll(f));
  }

  /** Unwrapping deletes markup. */
  lemma {:induction false} UnwrapSub(f: seq<Node>)
    ensures Sub(Serialize(UnwrapAll(f)), Serialize(f))
    decreases f, 1
  {
    if f == [] {
      SubRefl([]);
    } else {
      var n, rest := f[0], f[1..];
      assert f == [n] + rest;
      SerializeCons(n, rest);
      SerializeConcat(UnwrapNode(n), UnwrapAll(rest));
      UnwrapNodeSub(n);
      UnwrapSub(rest);
      SubConcat(Serialize(UnwrapNode(n)), SerializeNode(n), Serialize(UnwrapAll(rest)), Serialize(rest));
    }
  }

  lemma {:induction false} UnwrapNodeSub(n: Node)
    ensures Sub(Serialize(UnwrapNode(n)), SerializeNode(n))
    decreases n, 0
  {
    match n
    case Elem(e) =>
      UnwrapSub(e.children);
      if Unimportant(e) {
        SubChildren(e);
        SubTrans(Serialize(UnwrapAll(e.children)), Serialize(e.children), SerializeNode(n));
      } else {
        var m := Element(e.tag, e.attrs, UnwrapAll(e.children));
        SerializeOne(Elem(m));
        SubRefl(SerializeAttrs(e.attrs));
        SubElement(m, e);
      }
    case _ =>
      SerializeOne(n);
      SubRefl(SerializeNode(n));
  }
}
