/** What the reducer reads off a tree: its text, as `get_text()` gathers it, and its
    markup, as `str(soup)` prints it. */
module Markup {
  import opened Words
  import opened Dom

  /** The text of a forest: its text nodes in document order (comments are not text). */
  function TextOf(f: seq<Node>): string
    decreases f
  {
    if f == [] then [] else NodeText(f[0]) + TextOf(f[1..])
  }

  function NodeText(n: Node): string
    decreases n, 0
  {
    match n
    case Elem(e) => TextOf(e.children)
    case Text(s) => s
    case Comment(_) => []
  }

  /** The text nodes of a forest, in document order. */
  function Strings(f: seq<Node>): seq<string>
    decreases f
  {
    if f == [] then [] else NodeStrings(f[0]) + Strings(f[1..])
  }

  function NodeStrings(n: Node): seq<string>
    decreases n, 0
  {
    match n
    case Elem(e) => Strings(e.children)
    case Text(s) => [s]
    case Comment(_) => []
  }

  /** `get_text()` joins the text nodes. */
  lemma {:induction false} TextOfStrings(f: seq<Node>)
    ensures TextOf(f) == Concat(Strings(f))
    decreases f, 1
  {
    if f != [] {
      TextOfStringsNode(f[0]);
      TextOfStrings(f[1..]);
      ConcatAppend(NodeStrings(f[0]), Strings(f[1..]));
    }
  }

  lemma {:induction false} TextOfStringsNode(n: Node)
    ensures NodeText(n) == Concat(NodeStrings(n))
    decreases n, 0
  {
    match n
    case Elem(e) => TextOfStrings(e.children);
    case Text(s) => assert Concat([s]) == s + Concat([]);
    case Comment(_) =>
  }

  lemma StringsCons(n: Node, rest: seq<Node>)
    ensures Strings([n] + rest) == NodeStrings(n) + Strings(rest)
  {
    assert ([n] + rest)[0] == n && ([n] + rest)[1..] == rest;
  }

  lemma {:induction false} StringsConcat(a: seq<Node>, b: seq<Node>)
    ensures Strings(a + b) == Strings(a) + Strings(b)
  {
    if a == [] {
      assert a + b == b;
    } else {
      assert (a + b)[0] == a[0] && (a + b)[1..] == a[1..] + b;
      StringsConcat(a[1..], b);
    }
  }

  /** `not tag.get_text(strip=True)`: every piece of text under the element is whitespace. */
  predicate Blank(e: Element) {
    AllSpace(TextOf(e.children))
  }

  /** The markup of a forest. */
  function Serialize(f: seq<Node>): string
    decreases f
  {
    if f == [] then [] else SerializeNode(f[0]) + Serialize(f[1..])
  }

  function SerializeNode(n: Node): string
    decreases n, 0
  {
    match n
    case Elem(e) => OpenTag(e.tag, e.attrs) + Serialize(e.children) + CloseTag(e.tag)
    case Text(s) => s
    case Comment(s) => "<!--" + s + "-->"
  }

  function OpenTag(tag: string, attrs: seq<Attr>): string {
    "<" + tag + SerializeAttrs(attrs) + ">"
  }

  function CloseTag(tag: string): string {
    "</" + tag + ">"
  }

  /** ` name="value"` for each attribute, in order. */
  function SerializeAttrs(attrs: seq<Attr>): string {
    if attrs == [] then []
    else " " + attrs[0].name + "=\"" + attrs[0].value + "\"" + SerializeAttrs(attrs[1..])
  }

  lemma TextCons(n: Node, rest: seq<Node>)
    ensures TextOf([n] + rest) == NodeText(n) + TextOf(rest)
  {
    assert ([n] + rest)[0] == n && ([n] + rest)[1..] == rest;
  }

  lemma {:induction false} TextConcat(a: seq<Node>, b: seq<Node>)
    ensures TextOf(a + b) == TextOf(a) + TextOf(b)
  {
    if a == [] {
      assert a + b == b;
    } else {
      assert (a + b)[0] == a[0] && (a + b)[1..] == a[1..] + b;
      TextConcat(a[1..], b);
    }
  }

  lemma TextOne(n: Node)
    ensures TextOf([n]) == NodeText(n)
  {
    assert [n][1..] == [];
  }

  lemma SerializeOne(n: Node)
    ensures Serialize([n]) == SerializeNode(n)
  {
    assert [n][1..] == [];
  }

  lemma SerializeCons(n: Node, rest: seq<Node>)
    ensures Serialize([n] + rest) == SerializeNode(n) + Serialize(rest)
  {
    assert ([n] + rest)[0] == n && ([n] + rest)[1..] == rest;
  }

  lemma {:induction false} SerializeConcat(a: seq<Node>, b: seq<Node>)
    ensures Serialize(a + b) == Serialize(a) + Serialize(b)
  {
    if a == [] {
      assert a + b == b;
    } else {
      assert (a + b)[0] == a[0] && (a + b)[1..] == a[1..] + b;
      SerializeConcat(a[1..], b);
    }
  }

  // ---- Deleting markup ----

  /** An element whose attributes and children print as deletions of another's, under the
      same tag, prints as a deletion of it. */
  lemma SubElement(e: Element, d: Element)
    requires e.tag == d.tag
    requires Sub(SerializeAttrs(e.attrs), SerializeAttrs(d.attrs))
    requires Sub(Serialize(e.children), Serialize(d.children))
    ensures Sub(SerializeNode(Elem(e)), SerializeNode(Elem(d)))
  {
    var a, b := "<" + e.tag, "<" + d.tag;
    SubRefl(a);
    SubConcat(a, b, SerializeAttrs(e.attrs), SerializeAttrs(d.attrs));
    SubRefl(">");
    SubConcat(a + SerializeAttrs(e.attrs), b + SerializeAttrs(d.attrs), ">", ">");
    SubConcat(OpenTag(e.tag, e.attrs), OpenTag(d.tag, d.attrs), Serialize(e.children), Serialize(d.children));
    SubRefl(CloseTag(e.tag));
    SubConcat(OpenTag(e.tag, e.attrs) + Serialize(e.children), OpenTag(d.tag, d.attrs) + Serialize(d.children),
              CloseTag(e.tag), CloseTag(d.tag));
  }

  /** The children of an element print as a deletion of the element. */
  lemma SubChildren(e: Element)
    ensures Sub(Serialize(e.children), SerializeNode(Elem(e)))
  {
    SubRefl(Serialize(e.children));
    SubWrap(Serialize(e.children), OpenTag(e.tag, e.attrs), Serialize(e.children), CloseTag(e.tag));
  }

  /** Keeping a node at the front of a forest keeps its markup. */
  lemma SubKeepNode(n: Node, t: string, s: string)
    requires Sub(t, s)
    ensures Sub(SerializeNode(n) + t, SerializeNode(n) + s)
  {
    SubRefl(SerializeNode(n));
    SubConcat(SerializeNode(n), SerializeNode(n), t, s);
  }

  // ---- `decompose` ----

  /** Decomposing an element deletes markup. */
  lemma {:induction false} DecomposeSub(f: seq<Node>, j: nat)
    requires j < |Elements(f)|
    ensures Sub(Serialize(EditAt(f, j, Decompose)), Serialize(f))
    decreases f, 1
  {
    var n, rest := f[0], f[1..];
    assert f == [n] + rest;
    SerializeCons(n, rest);
    if j >= |Own(n)| {
      var r := EditAt(rest, j - |Own(n)|, Decompose);
      assert EditAt(f, j, Decompose) == [n] + r;
      SerializeCons(n, r);
      DecomposeSub(rest, j - |Own(n)|);
      SubKeepNode(n, Serialize(r), Serialize(rest));
    } else {
      var r := EditIn(n, j, Decompose);
      assert EditAt(f, j, Decompose) == r + rest;
      SerializeConcat(r, rest);
      DecomposeInSub(n, j);
      SubRefl(Serialize(rest));
      SubConcat(Serialize(r), SerializeNode(n), Serialize(rest), Serialize(rest));
    }
  }

  lemma {:induction false} DecomposeInSub(n: Node, j: nat)
    requires j < |Own(n)|
    ensures Sub(Serialize(EditIn(n, j, Decompose)), SerializeNode(n))
    decreases n, 0
  {
    var e := n.element;
    if j == 0 {
      SubEmpty(SerializeNode(n));
    } else {
      OwnUnfold(n);
      assert n == Elem(e);
      var c := EditAt(e.children, j - 1, Decompose);
      var m := Element(e.tag, e.attrs, c);
      assert EditIn(n, j, Decompose) == [Elem(m)];
      SerializeOne(Elem(m));
      DecomposeSub(e.children, j - 1);
      SubRefl(SerializeAttrs(e.attrs));
      SubElement(m, e);
    }
  }

  /** Decomposing a blank element leaves every non-whitespace character of the text in place. */
  lemma {:induction false} DecomposeBlankText(f: seq<Node>, j: nat)
    requires j < |Elements(f)| && Blank(Elements(f)[j])
    ensures NonSpace(TextOf(EditAt(f, j, Decompose))) == NonSpace(TextOf(f))
    decreases f, 1
  {
    var n, rest := f[0], f[1..];
    ElementsUnfold(f);
    assert f == [n] + rest;
    TextCons(n, rest);
    NonSpaceConcat(NodeText(n), TextOf(rest));
    if j >= |Own(n)| {
      var r := EditAt(rest, j - |Own(n)|, Decompose);
      assert EditAt(f, j, Decompose) == [n] + r;
      TextCons(n, r);
      NonSpaceConcat(NodeText(n), TextOf(r));
      assert Elements(f)[j] == Elements(rest)[j - |Own(n)|];
      DecomposeBlankText(rest, j - |Own(n)|);
    } else {
      var r := EditIn(n, j, Decompose);
      assert EditAt(f, j, Decompose) == r + rest;
      TextConcat(r, rest);
      NonSpaceConcat(TextOf(r), TextOf(rest));
      assert Elements(f)[j] == Own(n)[j];
      DecomposeInBlankText(n, j);
    }
  }

  lemma {:induction false} DecomposeInBlankText(n: Node, j: nat)
    requires j < |Own(n)| && Blank(Own(n)[j])
    ensures NonSpace(TextOf(EditIn(n, j, Decompose))) == NonSpace(NodeText(n))
    decreases n, 0
  {
    var e := n.element;
    OwnUnfold(n);
    if j == 0 {
      AllSpaceNonSpace(TextOf(e.children));
    } else {
      assert n == Elem(e);
      var c := EditAt(e.children, j - 1, Decompose);
      var m := Element(e.tag, e.attrs, c);
      assert EditIn(n, j, Decompose) == [Elem(m)];
      TextOne(Elem(m));
      assert Own(n)[j] == Elements(e.children)[j - 1];
      DecomposeBlankText(e.children, j - 1);
    }
  }

  /** Decomposing a blank element changes no element's blankness. */
  lemma DecomposeKeepsBlank(d: Element, k: nat)
    requires 0 < k && (k < Size(d) ==> Blank(Elements(d.children)[k - 1]))
    ensures Blank(Above(d, k, Decompose)) <==> Blank(d)
  {
    if k < Size(d) {
      DecomposeBlankText(d.children, k - 1);
      AllSpaceNonSpace(TextOf(d.children));
      AllSpaceNonSpace(TextOf(EditAt(d.children, k - 1, Decompose)));
    }
  }
}
