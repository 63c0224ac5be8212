/** Stage 3 of the reducer (backend/app.py:68-71): the `href` of every `a` element that has
    one and the `src` of every `img` element that has one go through the URL rewrite. */
module Links {
  import opened Words
  import opened Dom
  import opened Markup
  import opened Url

  /** The attribute list holds the attribute `name` (`href=True` in `find_all`). */
  predicate HasAttr(attrs: seq<Attr>, name: string) {
    exists i :: 0 <= i < |attrs| && attrs[i].name == name
  }

  /** `find_all(tag, name=True)` selects `e`. */
  predicate Targets(e: Element, tag: string, name: string) {
    e.tag == tag && HasAttr(e.attrs, name)
  }

  /** The attribute list after `e[name] = ShortenUrl(e[name])`. */
  function ShortenAttrs(attrs: seq<Attr>, name: string): (r: seq<Attr>)
    ensures |r| == |attrs|
    ensures forall i :: 0 <= i < |attrs| ==> r[i].name == attrs[i].name
    ensures forall i :: 0 <= i < |attrs| && attrs[i].name != name ==> r[i] == attrs[i]
    ensures forall i :: 0 <= i < |attrs| && attrs[i].name == name ==> r[i].value == ShortenUrl(attrs[i].value)
  {
    if attrs == [] then []
    else
      var a := attrs[0];
      [if a.name == name then Attr(a.name, ShortenUrl(a.value)) else a] + ShortenAttrs(attrs[1..], name)
  }

  /** The attributes `e` has after the pass. */
  function Retarget(e: Element, tag: string, name: string): seq<Attr> {
    if Targets(e, tag, name) then ShortenAttrs(e.attrs, name) else e.attrs
  }

  /** Reference: every element of the forest with its attributes retargeted. */
  function RewriteAll(f: seq<Node>, tag: string, name: string): (r: seq<Node>)
    ensures |r| == |f|
    decreases f
  {
    if f == [] then [] else [RewriteNode(f[0], tag, name)] + RewriteAll(f[1..], tag, name)
  }

  function RewriteNode(n: Node, tag: string, name: string): Node
    decreases n, 0
  {
    match n
    case Elem(e) => Elem(Element(e.tag, Retarget(e, tag, name), RewriteAll(e.children, tag, name)))
    case _ => n
  }

  /** `k - m`, or 0 when `m` is larger. */
  function Sat(k: nat, m: nat): nat {
    if k >= m then k - m else 0
  }

  /** The forest with its first `k` elements, in document order, retargeted: the state after
      `k` rounds of the loop. */
  function RewriteFirst(f: seq<Node>, k: nat, tag: string, name: string): (r: seq<Node>)
    ensures |r| == |f|
    decreases f
  {
    if f == [] then []
    else [RewriteNodeFirst(f[0], k, tag, name)] + RewriteFirst(f[1..], Sat(k, |Own(f[0])|), tag, name)
  }

  function RewriteNodeFirst(n: Node, k: nat, tag: string, name: string): Node
    decreases n, 0
  {
    match n
    case Elem(e) =>
      Elem(Element(e.tag, if k > 0 then Retarget(e, tag, name) else e.attrs,
                   RewriteFirst(e.children, Sat(k, 1), tag, name)))
    case _ => n
  }

  // ---- The shape of the tree does not change ----

  lemma {:induction false} RewriteFirstSize(f: seq<Node>, k: nat, tag: string, name: string)
    ensures |Elements(RewriteFirst(f, k, tag, name))| == |Elements(f)|
    decreases f, 1
  {
    if f != [] {
      RewriteNodeFirstSize(f[0], k, tag, name);
      RewriteFirstSize(f[1..], Sat(k, |Own(f[0])|), tag, name);
    }
  }

  lemma {:induction false} RewriteNodeFirstSize(n: Node, k: nat, tag: string, name: string)
    ensures |Own(RewriteNodeFirst(n, k, tag, name))| == |Own(n)|
    decreases n, 0
  {
    if n.Elem? {
      RewriteFirstSize(n.element.children, Sat(k, 1), tag, name);
    }
  }

  /** No round done: the forest as it was. */
  lemma {:induction false} RewriteFirstNone(f: seq<Node>, tag: string, name: string)
    ensures RewriteFirst(f, 0, tag, name) == f
    decreases f, 1
  {
    if f != [] {
      RewriteNodeFirstNone(f[0], tag, name);
      RewriteFirstNone(f[1..], tag, name);
      assert f == [f[0]] + f[1..];
    }
  }

  lemma {:induction false} RewriteNodeFirstNone(n: Node, tag: string, name: string)
    ensures RewriteNodeFirst(n, 0, tag, name) == n
    decreases n, 0
  {
    if n.Elem? {
      RewriteFirstNone(n.element.children, tag, name);
    }
  }

  /** Every round done: the reference. */
  lemma {:induction false} RewriteFirstAll(f: seq<Node>, k: nat, tag: string, name: string)
    requires |Elements(f)| <= k
    ensures RewriteFirst(f, k, tag, name) == RewriteAll(f, tag, name)
    decreases f, 1
  {
    if f != [] {
      ElementsUnfold(f);
      RewriteNodeFirstAll(f[0], k, tag, name);
      RewriteFirstAll(f[1..], Sat(k, |Own(f[0])|), tag, name);
    }
  }

  lemma {:induction false} RewriteNodeFirstAll(n: Node, k: nat, tag: string, name: string)
    requires |Own(n)| <= k
    ensures RewriteNodeFirst(n, k, tag, name) == RewriteNode(n, tag, name)
    decreases n, 0
  {
    if n.Elem? {
      OwnUnfold(n);
      RewriteFirstAll(n.element.children, Sat(k, 1), tag, name);
    }
  }

  // ---- One round ----

  /** Round `j` edits the attributes of element `j` exactly when the element is a target. */
  lemma {:induction false} RewriteStep(f: seq<Node>, j: nat, tag: string, name: string)
    requires j < |Elements(f)|
    ensures j < |Elements(RewriteFirst(f, j, tag, name))|
    ensures var e := Elements(f)[j];
      RewriteFirst(f, j + 1, tag, name) ==
        if Targets(e, tag, name) then EditAt(RewriteFirst(f, j, tag, name), j, SetAttrs(ShortenAttrs(e.attrs, name)))
        else RewriteFirst(f, j, tag, name)
    decreases f, 1
  {
    var n, rest := f[0], f[1..];
    var m := |Own(n)|;
    ElementsUnfold(f);
    RewriteFirstSize(f, j, tag, name);
    var g := RewriteFirst(f, j, tag, name);
    RewriteNodeFirstSize(n, j, tag, name);
    assert g[0] == RewriteNodeFirst(n, j, tag, name) && g[1..] == RewriteFirst(rest, Sat(j, m), tag, name);
    if j >= m {
      RewriteNodeFirstAll(n, j, tag, name);
      RewriteNodeFirstAll(n, j + 1, tag, name);
      assert Elements(f)[j] == Elements(rest)[j - m];
      RewriteStep(rest, j - m, tag, name);
    } else {
      RewriteFirstNone(rest, tag, name);
      assert Elements(f)[j] == Own(n)[j];
      RewriteNodeStep(n, j, tag, name);
    }
  }

  lemma {:induction false} RewriteNodeStep(n: Node, j: nat, tag: string, name: string)
    requires j < |Own(n)|
    ensures j < |Own(RewriteNodeFirst(n, j, tag, name))|
    ensures var e := Own(n)[j];
      [RewriteNodeFirst(n, j + 1, tag, name)] ==
        if Targets(e, tag, name) then EditIn(RewriteNodeFirst(n, j, tag, name), j, SetAttrs(ShortenAttrs(e.attrs, name)))
        else [RewriteNodeFirst(n, j, tag, name)]
    decreases n, 0
  {
    var e := n.element;
    OwnUnfold(n);
    RewriteNodeFirstSize(n, j, tag, name);
    if j == 0 {
      RewriteFirstNone(e.children, tag, name);
    } else {
      assert Own(n)[j] == Elements(e.children)[j - 1];
      RewriteStep(e.children, j - 1, tag, name);
    }
  }

  // ---- What the pass changes ----

  /** The attribute lists of an element list, in order. */
  function AttrLists(es: seq<Element>): (r: seq<seq<Attr>>)
    ensures |r| == |es|
    ensures forall i :: 0 <= i < |es| ==> r[i] == es[i].attrs
  {
    if es == [] then [] else [es[0].attrs] + AttrLists(es[1..])
  }

  /** The attribute lists the pass gives an element list, in order. */
  function Retargeted(es: seq<Element>, tag: string, name: string): (r: seq<seq<Attr>>)
    ensures |r| == |es|
    ensures forall i :: 0 <= i < |es| ==> r[i] == Retarget(es[i], tag, name)
  {
    if es == [] then [] else [Retarget(es[0], tag, name)] + Retargeted(es[1..], tag, name)
  }

  lemma AttrListsConcat(a: seq<Element>, b: seq<Element>)
    ensures AttrLists(a + b) == AttrLists(a) + AttrLists(b)
  {
  }

  lemma RetargetedConcat(a: seq<Element>, b: seq<Element>, tag: string, name: string)
    ensures Retargeted(a + b, tag, name) == Retargeted(a, tag, name) + Retargeted(b, tag, name)
  {
  }

  /** Every element keeps its tag and gets its attributes retargeted, in document order. */
  lemma {:induction false} RewriteAllElements(f: seq<Node>, tag: string, name: string)
    ensures Tags(Elements(RewriteAll(f, tag, name))) == Tags(Elements(f))
    ensures AttrLists(Elements(RewriteAll(f, tag, name))) == Retargeted(Elements(f), tag, name)
    decreases f, 1
  {
    if f != [] {
      var r := RewriteAll(f, tag, name);
      var a, b := RewriteNode(f[0], tag, name), RewriteAll(f[1..], tag, name);
      assert r == [a] + b;
      ElementsCons(a, b);
      ElementsUnfold(f);
      RewriteNodeElements(f[0], tag, name);
      RewriteAllElements(f[1..], tag, name);
      TagsConcat(Own(a), Elements(b));
      TagsConcat(Own(f[0]), Elements(f[1..]));
      AttrListsConcat(Own(a), Elements(b));
      RetargetedConcat(Own(f[0]), Elements(f[1..]), tag, name);
    }
  }

  lemma {:induction false} RewriteNodeElements(n: Node, tag: string, name: string)
    ensures Tags(Own(RewriteNode(n, tag, name))) == Tags(Own(n))
    ensures AttrLists(Own(RewriteNode(n, tag, name))) == Retargeted(Own(n), tag, name)
    decreases n, 0
  {
    if n.Elem? {
      var e := n.element;
      var m := RewriteNode(n, tag, name).element;
      OwnUnfold(n);
      OwnUnfold(Elem(m));
      RewriteAllElements(e.children, tag, name);
      TagsConcat([m], Elements(m.children));
      TagsConcat([e], Elements(e.children));
      AttrListsConcat([m], Elements(m.children));
      RetargetedConcat([e], Elements(e.children), tag, name);
    }
  }

  /** Hence, position by position: the tag is kept, a target gets its `name` attribute
      shortened, and every other attribute and every non-target is left alone. */
  lemma RewriteOnlyTargets(f: seq<Node>, tag: string, name: string, i: nat, k: nat)
    requires i < |Elements(f)|
    ensures |Elements(RewriteAll(f, tag, name))| == |Elements(f)|
    ensures var e, d := Elements(f)[i], Elements(RewriteAll(f, tag, name))[i];
      d.tag == e.tag && |d.attrs| == |e.attrs| &&
      (!Targets(e, tag, name) ==> d.attrs == e.attrs) &&
      (k < |e.attrs| ==> d.attrs[k].name == e.attrs[k].name) &&
      (k < |e.attrs| && e.attrs[k].name != name ==> d.attrs[k] == e.attrs[k]) &&
      (k < |e.attrs| && e.attrs[k].name == name && Targets(e, tag, name) ==>
        d.attrs[k].value == ShortenUrl(e.attrs[k].value))
  {
    RewriteAllElements(f, tag, name);
    var es, ds := Elements(f), Elements(RewriteAll(f, tag, name));
    assert Tags(ds)[i] == Tags(es)[i];
    assert AttrLists(ds)[i] == Retargeted(es, tag, name)[i];
  }

  /** The pass leaves the text nodes as they were. */
  lemma {:induction false} RewriteStrings(f: seq<Node>, tag: string, name: string)
    ensures Strings(RewriteAll(f, tag, name)) == Strings(f)
    decreases f, 1
  {
    if f != [] {
      StringsCons(RewriteNode(f[0], tag, name), RewriteAll(f[1..], tag, name));
      assert RewriteAll(f, tag, name) == [RewriteNode(f[0], tag, name)] + RewriteAll(f[1..], tag, name);
      RewriteNodeStrings(f[0], tag, name);
      RewriteStrings(f[1..], tag, name);
    }
  }

  lemma {:induction false} RewriteNodeStrings(n: Node, tag: string, name: string)
    ensures NodeStrings(RewriteNode(n, tag, name)) == NodeStrings(n)
    decreases n, 0
  {
    if n.Elem? {
      RewriteStrings(n.element.children, tag, name);
    }
  }

  // ---- The rewrite deletes characters ----

  lemma {:induction false} ShortenAttrsSub(attrs: seq<Attr>, name: string)
    ensures Sub(SerializeAttrs(ShortenAttrs(attrs, name)), SerializeAttrs(attrs))
  {
    if attrs != [] {
      var a, r := attrs[0], ShortenAttrs(attrs, name);
      var b := r[0];
      assert r[1..] == ShortenAttrs(attrs[1..], name);
      ShortenAttrsSub(attrs[1..], name);
      var p, q := " " + a.name + "=\"", "\"";
      SubRefl(p);
      SubRefl(q);
      if a.name == name {
        ShortenIsSub(a.value);
      } else {
        SubRefl(a.value);
      }
      SubConcat(p, p, b.value, a.value);
      SubConcat(p + b.value, p + a.value, q, q);
      SubConcat(p + b.value + q, p + a.value + q, SerializeAttrs(r[1..]), SerializeAttrs(attrs[1..]));
      assert SerializeAttrs(r) == p + b.value + q + SerializeAttrs(r[1..]);
      assert SerializeAttrs(attrs) == p + a.value + q + SerializeAttrs(attrs[1..]);
    }
  }

  /** The pass deletes markup. */
  lemma {:induction false} RewriteSub(f: seq<Node>, tag: string, name: string)
    ensures Sub(Serialize(RewriteAll(f, tag, name)), Serialize(f))
    decreases f, 1
  {
    if f == [] {
      SubRefl([]);
    } else {
      var n, rest := f[0], f[1..];
      var a, b := RewriteNode(n, tag, name), RewriteAll(rest, tag, name);
      assert f == [n] + rest && RewriteAll(f, tag, name) == [a] + b;
      SerializeCons(n, rest);
      SerializeCons(a, b);
      RewriteNodeSub(n, tag, name);
      RewriteSub(rest, tag, name);
      SubConcat(SerializeNode(a), SerializeNode(n), Serialize(b), Serialize(rest));
    }
  }

  lemma {:induction false} RewriteNodeSub(n: Node, tag: string, name: string)
    ensures Sub(SerializeNode(RewriteNode(n, tag, name)), SerializeNode(n))
    decreases n, 0
  {
    if n.Elem? {
      var e := n.element;
      RewriteSub(e.children, tag, name);
      if Targets(e, tag, name) {
        ShortenAttrsSub(e.attrs, name);
      } else {
        SubRefl(SerializeAttrs(e.attrs));
      }
      SubElement(RewriteNode(n, tag, name).element, e);
    } else {
      SubRefl(SerializeNode(n));
    }
  }
}
