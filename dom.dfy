/** The parsed email: a forest of element, text and comment nodes, the
    document-order element list that `soup.find_all()` returns, the in-place
    edits the reducer performs (`decompose`, `unwrap`, attribute assignment)
    addressed by an element's position in that list, and the serialiser. */
module Dom {
  import opened Words

  datatype Attr = Attr(name: string, value: string)

  datatype Element = Element(tag: string, attrs: seq<Attr>, children: seq<Node>)

  datatype Node =
    | Elem(element: Element)
    | Text(text: string)
    | Comment(text: string)

  /** The elements of `f` in document order, each with its subtree: `find_all()`. */
  function Elements(f: seq<Node>): seq<Element>
    decreases f
  {
    if f == [] then []
    else Own(f[0]) + Elements(f[1..])
  }

  /** The elements of the subtree rooted at `n`. */
  function Own(n: Node): seq<Element>
    decreases n, 0
  {
    match n
    case Elem(e) => [e] + Elements(e.children)
    case _ => []
  }

  /** Number of elements in the subtree of `e`, `e` included. */
  function Size(e: Element): nat {
    1 + |Elements(e.children)|
  }

  /** An in-place edit of one element. */
  datatype Edit =
    | Decompose                      // delete the element and its subtree
    | Unwrap                         // replace the element by its children
    | SetAttrs(attrs: seq<Attr>)     // replace the element's attributes

  /** Number of positions the edit removes from the element list. */
  function Removed(e: Element, op: Edit): nat {
    match op
    case Decompose => Size(e)
    case Unwrap => 1
    case SetAttrs(_) => 0
  }

  /** Applies `op` to the element at position `j` of `Elements(f)`. */
  function EditAt(f: seq<Node>, j: nat, op: Edit): seq<Node>
    requires j < |Elements(f)|
    decreases f
  {
    var n, rest := f[0], f[1..];
    var k := |Own(n)|;
    if j >= k then [n] + EditAt(rest, j - k, op)
    else EditIn(n, j, op) + rest
  }

  /** Applies `op` to the element at position `j` of `Own(n)`. */
  function EditIn(n: Node, j: nat, op: Edit): seq<Node>
    requires j < |Own(n)|
    decreases n, 0
  {
    var e := n.element;
    if j == 0 then
      match op
      case Decompose => []
      case Unwrap => e.children
      case SetAttrs(a) => [Elem(Element(e.tag, a, e.children))]
    else
      [Elem(Element(e.tag, e.attrs, EditAt(e.children, j - 1, op)))]
  }

  lemma ElementsCons(n: Node, rest: seq<Node>)
    ensures Elements([n] + rest) == Own(n) + Elements(rest)
  {
    assert ([n] + rest)[0] == n && ([n] + rest)[1..] == rest;
  }

  lemma {:induction false} ElementsConcat(a: seq<Node>, b: seq<Node>)
    ensures Elements(a + b) == Elements(a) + Elements(b)
  {
    if a == [] {
      assert a + b == b;
    } else {
      assert (a + b)[0] == a[0] && (a + b)[1..] == a[1..] + b;
      ElementsConcat(a[1..], b);
    }
  }

  /** The elements that take the place of `e`'s subtree in the element list after `op`. */
  function Replacement(e: Element, op: Edit): seq<Element> {
    match op
    case Decompose => []
    case Unwrap => Elements(e.children)
    case SetAttrs(a) => [Element(e.tag, a, e.children)] + Elements(e.children)
  }

  // ---- The element list is a preorder: each element is followed by its subtree ----

  lemma {:induction false} ForestSubtree(f: seq<Node>, i: nat)
    requires i < |Elements(f)|
    ensures i + Size(Elements(f)[i]) <= |Elements(f)|
    ensures Elements(f)[i + 1..i + Size(Elements(f)[i])] == Elements(Elements(f)[i].children)
    decreases f
  {
    var own, tail := Own(f[0]), Elements(f[1..]);
    assert Elements(f) == own + tail;
    if i < |own| {
      NodeSubtree(f[0], i);
      LeftPart(own, tail, i, Size(own[i]));
    } else {
      ForestSubtree(f[1..], i - |own|);
      RightPart(own, tail, i, Size(tail[i - |own|]));
    }
  }

  lemma LeftPart<T>(a: seq<T>, b: seq<T>, i: nat, s: nat)
    requires i < |a| && i + s <= |a| && 0 < s
    ensures (a + b)[i] == a[i] && (a + b)[i + 1..i + s] == a[i + 1..i + s]
  {
  }

  lemma RightPart<T>(a: seq<T>, b: seq<T>, i: nat, s: nat)
    requires |a| <= i && i - |a| + s <= |b| && 0 < s
    ensures (a + b)[i] == b[i - |a|] && (a + b)[i + 1..i + s] == b[i - |a| + 1..i - |a| + s]
  {
  }

  lemma {:induction false} NodeSubtree(n: Node, i: nat)
    requires i < |Own(n)|
    ensures i + Size(Own(n)[i]) <= |Own(n)|
    ensures Own(n)[i + 1..i + Size(Own(n)[i])] == Elements(Own(n)[i].children)
    decreases n, 0
  {
    var e := n.element;
    var own, inner := Own(n), Elements(e.children);
    assert own == [e] + inner;
    if i == 0 {
      assert own[1..] == inner;
    } else {
      ForestSubtree(e.children, i - 1);
      var s := Size(inner[i - 1]);
      assert own[i] == inner[i - 1];
      assert own[i + 1..i + s] == inner[i..i - 1 + s];
    }
  }

  // ---- The element list after an edit ----

  lemma ElementsUnfold(f: seq<Node>)
    requires f != []
    ensures Elements(f) == Own(f[0]) + Elements(f[1..])
  {
  }

  lemma OwnUnfold(n: Node)
    requires n.Elem?
    ensures Own(n) == [n.element] + Elements(n.element.children)
  {
  }

  lemma EditAfterElements(f: seq<Node>, j: nat, op: Edit)
    requires j < |Elements(f)| && j >= |Own(f[0])|
    ensures Elements(EditAt(f, j, op)) == Own(f[0]) + Elements(EditAt(f[1..], j - |Own(f[0])|, op))
  {
    var r := EditAt(f[1..], j - |Own(f[0])|, op);
    assert EditAt(f, j, op) == [f[0]] + r;
    ElementsCons(f[0], r);
  }

  lemma EditHereElements(f: seq<Node>, j: nat, op: Edit)
    requires j < |Elements(f)| && j < |Own(f[0])|
    ensures Elements(EditAt(f, j, op)) == Elements(EditIn(f[0], j, op)) + Elements(f[1..])
  {
    assert EditAt(f, j, op) == EditIn(f[0], j, op) + f[1..];
    ElementsConcat(EditIn(f[0], j, op), f[1..]);
  }

  lemma EditBelowElements(n: Node, j: nat, op: Edit)
    requires 0 < j < |Own(n)|
    ensures var e := n.element;
      var c := EditAt(e.children, j - 1, op);
      Elements(EditIn(n, j, op)) == [Element(e.tag, e.attrs, c)] + Elements(c)
  {
    var e := n.element;
    var m := Elem(Element(e.tag, e.attrs, EditAt(e.children, j - 1, op)));
    assert EditIn(n, j, op) == [m];
    ElementsCons(m, []);
  }

  /** `s` without its first `k` elements. */
  function Drop<T>(s: seq<T>, k: nat): (r: seq<T>)
    requires k <= |s|
    ensures |r| == |s| - k
  {
    if k == 0 then s else Drop(s[1..], k - 1)
  }

  lemma {:induction false} DropIndex<T>(s: seq<T>, k: nat, i: nat)
    requires k + i < |s|
    ensures Drop(s, k)[i] == s[k + i]
  {
    if k > 0 {
      DropIndex(s[1..], k - 1, i);
    }
  }

  lemma {:induction false} DropSlice<T>(s: seq<T>, k: nat)
    requires k <= |s|
    ensures Drop(s, k) == s[k..]
    decreases k
  {
    if k > 0 {
      DropSlice(s[1..], k - 1);
      assert s[1..][k - 1..] == s[k..];
    }
  }

  /** Dropping `a` elements keeps the slice up to `b` in front of what dropping `b` leaves. */
  lemma DropSplit<T>(s: seq<T>, a: nat, b: nat)
    requires a <= b <= |s|
    ensures Drop(s, a) == s[a..b] + Drop(s, b)
  {
    DropSlice(s, a);
    DropSlice(s, b);
    assert s[a..] == s[a..b] + s[b..];
  }

  /** When the live list from `j` on is the snapshot from `k` on, moving both on by `s`
      keeps them in step, and the entries at `j` and at `k` are the same element. */
  lemma {:induction false} DropAdvance<T>(live: seq<T>, snap: seq<T>, j: nat, k: nat, s: nat)
    requires j <= |live| && k <= |snap| && Drop(live, j) == Drop(snap, k) && j + s <= |live|
    ensures k + s <= |snap| && Drop(live, j + s) == Drop(snap, k + s)
    ensures j < |live| ==> live[j] == snap[k]
    decreases s
  {
    if j < |live| {
      DropIndex(live, j, 0);
      DropIndex(snap, k, 0);
    }
    if s > 0 {
      DropSlice(live, j);
      DropSlice(live, j + 1);
      DropSlice(snap, k);
      DropSlice(snap, k + 1);
      assert live[j + 1..] == live[j..][1..];
      assert snap[k + 1..] == snap[k..][1..];
      DropAdvance(live, snap, j + 1, k + 1, s - 1);
    }
  }

  lemma {:induction false} DropLeft<T>(a: seq<T>, b: seq<T>, j: nat)
    requires j <= |a|
    ensures Drop(a + b, j) == Drop(a, j) + b
  {
    if j > 0 {
      assert (a + b)[1..] == a[1..] + b;
      DropLeft(a[1..], b, j - 1);
    }
  }

  lemma {:induction false} DropRight<T>(a: seq<T>, b: seq<T>, j: nat)
    requires |a| <= j <= |a| + |b|
    ensures Drop(a + b, j) == Drop(b, j - |a|)
  {
    if a == [] {
      assert a + b == b;
    } else {
      assert (a + b)[1..] == a[1..] + b;
      DropRight(a[1..], b, j - 1);
    }
  }

  /** From position `j` on, the edited list holds the replacement, then what followed the subtree. */
  lemma {:induction false} EditSuffix(f: seq<Node>, j: nat, op: Edit)
    requires j < |Elements(f)|
    ensures j + Size(Elements(f)[j]) <= |Elements(f)|
    ensures j <= |Elements(EditAt(f, j, op))|
    ensures Drop(Elements(EditAt(f, j, op)), j)
         == Replacement(Elements(f)[j], op) + Drop(Elements(f), j + Size(Elements(f)[j]))
    decreases f, 2
  {
    if j >= |Own(f[0])| {
      EditSuffixAfter(f, j, op);
    } else {
      EditSuffixHere(f, j, op);
    }
  }

  lemma {:induction false} EditSuffixAfter(f: seq<Node>, j: nat, op: Edit)
    requires j < |Elements(f)| && j >= |Own(f[0])|
    ensures j + Size(Elements(f)[j]) <= |Elements(f)|
    ensures j <= |Elements(EditAt(f, j, op))|
    ensures Drop(Elements(EditAt(f, j, op)), j)
         == Replacement(Elements(f)[j], op) + Drop(Elements(f), j + Size(Elements(f)[j]))
    decreases f, 1
  {
    var own, tail := Own(f[0]), Elements(f[1..]);
    var j' := j - |own|;
    ElementsUnfold(f);
    EditAfterElements(f, j, op);
    EditSuffix(f[1..], j', op);
    var d := tail[j'];
    AfterSlices(own, tail, Elements(EditAt(f[1..], j', op)), j, Size(d), Replacement(d, op));
  }

  lemma AfterSlices<T>(a: seq<T>, b: seq<T>, c: seq<T>, j: nat, s: nat, rep: seq<T>)
    requires |a| <= j && 0 < s && j - |a| + s <= |b| && j - |a| <= |c|
    requires Drop(c, j - |a|) == rep + Drop(b, j - |a| + s)
    ensures (a + b)[j] == b[j - |a|] && j + s <= |a + b|
    ensures j <= |a + c| && Drop(a + c, j) == rep + Drop(a + b, j + s)
  {
    DropRight(a, c, j);
    DropRight(a, b, j + s);
  }

  lemma {:induction false} EditSuffixHere(f: seq<Node>, j: nat, op: Edit)
    requires j < |Elements(f)| && j < |Own(f[0])|
    ensures j + Size(Elements(f)[j]) <= |Elements(f)|
    ensures j <= |Elements(EditAt(f, j, op))|
    ensures Drop(Elements(EditAt(f, j, op)), j)
         == Replacement(Elements(f)[j], op) + Drop(Elements(f), j + Size(Elements(f)[j]))
    decreases f, 1
  {
    var own, tail := Own(f[0]), Elements(f[1..]);
    ElementsUnfold(f);
    EditHereElements(f, j, op);
    EditInSuffix(f[0], j, op);
    var d := own[j];
    InSlices(own, tail, Elements(EditIn(f[0], j, op)), j, Size(d), Replacement(d, op));
  }

  lemma InSlices<T>(a: seq<T>, b: seq<T>, c: seq<T>, j: nat, s: nat, rep: seq<T>)
    requires j < |a| && j + s <= |a| && j <= |c|
    requires Drop(c, j) == rep + Drop(a, j + s)
    ensures (a + b)[j] == a[j] && j + s <= |a + b|
    ensures j <= |c + b| && Drop(c + b, j) == rep + Drop(a + b, j + s)
  {
    DropLeft(c, b, j);
    DropLeft(a, b, j + s);
  }

  lemma {:induction false} EditInSuffix(n: Node, j: nat, op: Edit)
    requires j < |Own(n)|
    ensures j + Size(Own(n)[j]) <= |Own(n)|
    ensures j <= |Elements(EditIn(n, j, op))|
    ensures Drop(Elements(EditIn(n, j, op)), j)
         == Replacement(Own(n)[j], op) + Drop(Own(n), j + Size(Own(n)[j]))
    decreases n, 2
  {
    NodeSubtree(n, j);
    if j == 0 {
      EditInSuffixHere(n, op);
    } else {
      EditInSuffixBelow(n, j, op);
    }
  }

  lemma {:induction false} EditInSuffixBelow(n: Node, j: nat, op: Edit)
    requires 0 < j < |Own(n)| && j + Size(Own(n)[j]) <= |Own(n)|
    ensures j <= |Elements(EditIn(n, j, op))|
    ensures Drop(Elements(EditIn(n, j, op)), j)
         == Replacement(Own(n)[j], op) + Drop(Own(n), j + Size(Own(n)[j]))
    decreases n, 1
  {
    BelowDrop(n, j, op);
    OwnShift(n, j);
    EditSuffix(n.element.children, j - 1, op);
  }

  lemma BelowDrop(n: Node, j: nat, op: Edit)
    requires 0 < j < |Own(n)|
    ensures var c := EditAt(n.element.children, j - 1, op);
      && j - 1 <= |Elements(c)|
      && j <= |Elements(EditIn(n, j, op))|
      && Drop(Elements(EditIn(n, j, op)), j) == Drop(Elements(c), j - 1)
    decreases n, 0
  {
    var e := n.element;
    var c := EditAt(e.children, j - 1, op);
    EditBelowElements(n, j, op);
    EditLength(e.children, j - 1, op);
    DropRight([Element(e.tag, e.attrs, c)], Elements(c), j);
  }

  /** Position `j > 0` of `Own(n)` is position `j - 1` of the children's list. */
  lemma OwnShift(n: Node, j: nat)
    requires 0 < j < |Own(n)| && j + Size(Own(n)[j]) <= |Own(n)|
    ensures var inner := Elements(n.element.children);
      && Own(n)[j] == inner[j - 1]
      && Drop(Own(n), j + Size(Own(n)[j])) == Drop(inner, j - 1 + Size(inner[j - 1]))
  {
    var inner := Elements(n.element.children);
    OwnUnfold(n);
    DropRight([n.element], inner, j + Size(inner[j - 1]));
  }

  lemma EditInSuffixHere(n: Node, op: Edit)
    requires n.Elem?
    ensures Elements(EditIn(n, 0, op)) == Replacement(n.element, op)
  {
    var e := n.element;
    match op
    case Decompose =>
    case Unwrap =>
    case SetAttrs(a) =>
      ElementsCons(Elem(Element(e.tag, a, e.children)), []);
  }

  /** An edit removes `Removed` elements from the list: the subtree, the element alone, or none. */
  lemma EditLength(f: seq<Node>, j: nat, op: Edit)
    requires j < |Elements(f)|
    ensures j + Size(Elements(f)[j]) <= |Elements(f)|
    ensures |Elements(EditAt(f, j, op))| == |Elements(f)| - Removed(Elements(f)[j], op)
    decreases f, 3
  {
    EditSuffix(f, j, op);
  }

  /** What the edit of the element `k > 0` positions after `d` makes of `d`: if that element
      lies in `d`'s subtree, `d` keeps its tag and attributes and gets its children edited;
      otherwise `d` is unchanged. */
  function Above(d: Element, k: nat, op: Edit): Element
    requires 0 < k
  {
    if k < Size(d) then Element(d.tag, d.attrs, EditAt(d.children, k - 1, op)) else d
  }

  /** Before position `j`, an edit at `j` changes only the ancestors of `j`, and only below them. */
  lemma {:induction false} EditPrefix(f: seq<Node>, j: nat, op: Edit, i: nat)
    requires i < j < |Elements(f)|
    ensures i < |Elements(EditAt(f, j, op))|
    ensures Elements(EditAt(f, j, op))[i] == Above(Elements(f)[i], j - i, op)
    decreases f, 2
  {
    if j >= |Own(f[0])| {
      EditPrefixAfter(f, j, op, i);
    } else {
      EditPrefixHere(f, j, op, i);
    }
  }

  lemma {:induction false} EditPrefixAfter(f: seq<Node>, j: nat, op: Edit, i: nat)
    requires i < j < |Elements(f)| && j >= |Own(f[0])|
    ensures i < |Elements(EditAt(f, j, op))|
    ensures Elements(EditAt(f, j, op))[i] == Above(Elements(f)[i], j - i, op)
    decreases f, 1
  {
    var own, tail := Own(f[0]), Elements(f[1..]);
    var j' := j - |own|;
    ElementsUnfold(f);
    EditAfterElements(f, j, op);
    var r := Elements(EditAt(f[1..], j', op));
    EditLength(f[1..], j', op);
    if i < |own| {
      NodeSubtree(f[0], i);
      PickLeft(own, tail, r, i);
    } else {
      EditPrefix(f[1..], j', op, i - |own|);
      PickRight(own, tail, r, i);
    }
  }

  lemma PickLeft<T>(a: seq<T>, b: seq<T>, c: seq<T>, i: nat)
    requires i < |a|
    ensures (a + b)[i] == a[i] && (a + c)[i] == a[i] && i < |a + c|
  {
  }

  lemma PickRight<T>(a: seq<T>, b: seq<T>, c: seq<T>, i: nat)
    requires |a| <= i < |a| + |b| && i - |a| < |c|
    ensures (a + b)[i] == b[i - |a|] && i < |a + c| && (a + c)[i] == c[i - |a|]
  {
  }

  lemma {:induction false} EditPrefixHere(f: seq<Node>, j: nat, op: Edit, i: nat)
    requires i < j < |Elements(f)| && j < |Own(f[0])|
    ensures i < |Elements(EditAt(f, j, op))|
    ensures Elements(EditAt(f, j, op))[i] == Above(Elements(f)[i], j - i, op)
    decreases f, 1
  {
    var own, tail := Own(f[0]), Elements(f[1..]);
    ElementsUnfold(f);
    EditHereElements(f, j, op);
    EditInPrefix(f[0], j, op, i);
    PickLeft(own, tail, tail, i);
    PickLeft(Elements(EditIn(f[0], j, op)), tail, tail, i);
  }

  lemma {:induction false} EditInPrefix(n: Node, j: nat, op: Edit, i: nat)
    requires i < j < |Own(n)|
    ensures i < |Elements(EditIn(n, j, op))|
    ensures Elements(EditIn(n, j, op))[i] == Above(Own(n)[i], j - i, op)
    decreases n, 0
  {
    var e := n.element;
    var c := EditAt(e.children, j - 1, op);
    EditBelowElements(n, j, op);
    OwnUnfold(n);
    var inner := Elements(e.children);
    if i == 0 {
      assert Own(n)[0] == e;
    } else {
      EditPrefix(e.children, j - 1, op, i - 1);
      assert Own(n)[i] == inner[i - 1];
      assert ([Element(e.tag, e.attrs, c)] + Elements(c))[i] == Elements(c)[i - 1];
    }
  }

  // ---- Tag names ----

  /** The tag names of an element list, in order. */
  function Tags(es: seq<Element>): (ts: seq<string>)
    ensures |ts| == |es|
    ensures forall i :: 0 <= i < |es| ==> ts[i] == es[i].tag
  {
    if es == [] then [] else [es[0].tag] + Tags(es[1..])
  }

  lemma TagsConcat(a: seq<Element>, b: seq<Element>)
    ensures Tags(a + b) == Tags(a) + Tags(b)
  {
  }
}
