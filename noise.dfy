/** Stage 0 of the reducer (backend/app.py:43-46): `style` and `script` elements are
    decomposed and comments are extracted. */
module Noise {
  import opened Words
  import opened Dom
  import opened Markup
  import opened Removal

  /** `soup(["style", "script"])` selects these elements. */
  predicate IsNoise(e: Element) {
    e.tag == "style" || e.tag == "script"
  }

  /** The forest with every `style` and `script` subtree deleted. */
  function StripNoise(f: seq<Node>): seq<Node> {
    Purge(f, IsNoise)
  }

  /** Decomposing one `style` or `script` element does not change the reference: the ancestors
      keep their tag, so none of them changes its verdict. */
  lemma NoiseStep(f: seq<Node>, j: nat)
    requires j < |Elements(f)| && IsNoise(Elements(f)[j])
    ensures StripNoise(EditAt(f, j, Decompose)) == StripNoise(f)
  {
    var es := Elements(f);
    forall i | 0 <= i < j && i < |es|
      ensures IsNoise(Above(es[i], j - i, Decompose)) == IsNoise(es[i])
    {
      assert Above(es[i], j - i, Decompose).tag == es[i].tag;
    }
    PurgeStep(f, j, IsNoise);
  }

  /** No `style` or `script` element is left. */
  lemma {:induction false} NoNoiseLeft(f: seq<Node>)
    ensures NoneSelected(Elements(StripNoise(f)), IsNoise)
    decreases f, 1
  {
    if f != [] {
      var a, b := PurgeNode(f[0], IsNoise), Purge(f[1..], IsNoise);
      ElementsConcat(a, b);
      NoNoiseLeftNode(f[0]);
      NoNoiseLeft(f[1..]);
      NoneSelectedJoin(Elements(a), Elements(b), IsNoise);
    }
  }

  lemma {:induction false} NoNoiseLeftNode(n: Node)
    ensures NoneSelected(Elements(PurgeNode(n, IsNoise)), IsNoise)
    decreases n, 0
  {
    if n.Elem? && !IsNoise(n.element) {
      var e := n.element;
      var m := Element(e.tag, e.attrs, Purge(e.children, IsNoise));
      ElementsCons(Elem(m), []);
      assert [Elem(m)] + [] == [Elem(m)];
      OwnUnfold(Elem(m));
      NoNoiseLeft(e.children);
      NoneSelectedJoin([m], Elements(m.children), IsNoise);
      assert Elements([]) == [];
      assert Elements(PurgeNode(n, IsNoise)) == [m] + Elements(m.children) + [];
    } else if !n.Elem? {
      ElementsCons(n, []);
      assert [n] + [] == [n];
    }
  }

  // ---- Comments ----

  /** The forest with every comment node removed. */
  function StripComments(f: seq<Node>): seq<Node>
    decreases f
  {
    if f == [] then [] else StripCommentsNode(f[0]) + StripComments(f[1..])
  }

  function StripCommentsNode(n: Node): seq<Node>
    decreases n, 0
  {
    match n
    case Elem(e) => [Elem(Element(e.tag, e.attrs, StripComments(e.children)))]
    case Text(_) => [n]
    case Comment(_) => []
  }

  /** Number of comment nodes in the forest: the length of the comment snapshot. */
  function CommentCount(f: seq<Node>): nat
    decreases f
  {
    if f == [] then 0 else NodeComments(f[0]) + CommentCount(f[1..])
  }

  function NodeComments(n: Node): nat
    decreases n, 0
  {
    match n
    case Elem(e) => CommentCount(e.children)
    case Text(_) => 0
    case Comment(_) => 1
  }

  /** `comment.extract()` on the first comment in document order. */
  function DropFirstComment(f: seq<Node>): seq<Node>
    decreases f
  {
    if f == [] then []
    else if NodeComments(f[0]) > 0 then DropFirstCommentNode(f[0]) + f[1..]
    else [f[0]] + DropFirstComment(f[1..])
  }

  function DropFirstCommentNode(n: Node): seq<Node>
    decreases n, 0
  {
    match n
    case Elem(e) => [Elem(Element(e.tag, e.attrs, DropFirstComment(e.children)))]
    case Text(_) => [n]
    case Comment(_) => []
  }

  lemma CommentCountConcat(a: seq<Node>, b: seq<Node>)
    ensures CommentCount(a + b) == CommentCount(a) + CommentCount(b)
  {
    if a == [] {
      assert a + b == b;
    } else {
      assert (a + b)[0] == a[0] && (a + b)[1..] == a[1..] + b;
      CommentCountConcat(a[1..], b);
    }
  }

  lemma StripCommentsConcat(a: seq<Node>, b: seq<Node>)
    ensures StripComments(a + b) == StripComments(a) + StripComments(b)
  {
    if a == [] {
      assert a + b == b;
    } else {
      assert (a + b)[0] == a[0] && (a + b)[1..] == a[1..] + b;
      StripCommentsConcat(a[1..], b);
    }
  }

  lemma StripCommentsCons(n: Node, rest: seq<Node>)
    ensures StripComments([n] + rest) == StripCommentsNode(n) + StripComments(rest)
  {
    assert ([n] + rest)[0] == n && ([n] + rest)[1..] == rest;
  }

  lemma CommentCountCons(n: Node, rest: seq<Node>)
    ensures CommentCount([n] + rest) == NodeComments(n) + CommentCount(rest)
  {
    assert ([n] + rest)[0] == n && ([n] + rest)[1..] == rest;
  }

  /** Extracting the first comment removes exactly one comment. */
  lemma {:induction false} DropFirstCommentCount(f: seq<Node>)
    requires CommentCount(f) > 0
    ensures CommentCount(DropFirstComment(f)) == CommentCount(f) - 1
    decreases f, 1
  {
    var n, rest := f[0], f[1..];
    if NodeComments(n) > 0 {
      CommentCountConcat(DropFirstCommentNode(n), rest);
      DropFirstCommentNodeCount(n);
    } else {
      CommentCountCons(n, DropFirstComment(rest));
      DropFirstCommentCount(rest);
    }
  }

  lemma {:induction false} DropFirstCommentNodeCount(n: Node)
    requires NodeComments(n) > 0
    ensures CommentCount(DropFirstCommentNode(n)) == NodeComments(n) - 1
    decreases n, 0
  {
    if n.Elem? {
      var e := n.element;
      var m := Element(e.tag, e.attrs, DropFirstComment(e.children));
      CommentCountCons(Elem(m), []);
      assert [Elem(m)] + [] == [Elem(m)];
      DropFirstCommentCount(e.children);
    }
  }

  /** Extracting the first comment does not change the comment-free forest. */
  lemma {:induction false} DropFirstCommentStrip(f: seq<Node>)
    ensures StripComments(DropFirstComment(f)) == StripComments(f)
    decreases f, 1
  {
    if f != [] {
      var n, rest := f[0], f[1..];
      if NodeComments(n) > 0 {
        StripCommentsConcat(DropFirstCommentNode(n), rest);
        DropFirstCommentNodeStrip(n);
      } else {
        StripCommentsCons(n, DropFirstComment(rest));
        DropFirstCommentStrip(rest);
      }
    }
  }

  lemma {:induction false} DropFirstCommentNodeStrip(n: Node)
    ensures StripComments(DropFirstCommentNode(n)) == StripCommentsNode(n)
    decreases n, 0
  {
    match n
    case Elem(e) =>
      var m := Element(e.tag, e.attrs, DropFirstComment(e.children));
      StripCommentsCons(Elem(m), []);
      assert [Elem(m)] + [] == [Elem(m)];
      DropFirstCommentStrip(e.children);
    case Text(_) =>
      StripCommentsCons(n, []);
      assert [n] + [] == [n];
    case Comment(_) =>
  }

  /** A forest without comments is its own comment-free form. */
  lemma {:induction false} StripCommentsNone(f: seq<Node>)
    requires CommentCount(f) == 0
    ensures StripComments(f) == f
    decreases f, 1
  {
    if f != [] {
      StripCommentsNodeNone(f[0]);
      StripCommentsNone(f[1..]);
      assert f == [f[0]] + f[1..];
    }
  }

  lemma {:induction false} StripCommentsNodeNone(n: Node)
    requires NodeComments(n) == 0
    ensures StripCommentsNode(n) == [n]
    decreases n, 0
  {
    if n.Elem? {
      StripCommentsNone(n.element.children);
    }
  }

  /** No comment is left. */
  lemma {:induction false} NoCommentLeft(f: seq<Node>)
    ensures CommentCount(StripComments(f)) == 0
    decreases f, 1
  {
    if f != [] {
      CommentCountConcat(StripCommentsNode(f[0]), StripComments(f[1..]));
      NoCommentLeftNode(f[0]);
      NoCommentLeft(f[1..]);
    }
  }

  lemma {:induction false} NoCommentLeftNode(n: Node)
    ensures CommentCount(StripCommentsNode(n)) == 0
    decreases n, 0
  {
    match n
    case Elem(e) =>
      var m := Element(e.tag, e.attrs, StripComments(e.children));
      CommentCountCons(Elem(m), []);
      NoCommentLeft(e.children);
    case Text(_) =>
      CommentCountCons(n, []);
    case Comment(_) =>
  }

  /** Removing comments keeps every element's tag, in order. */
  lemma {:induction false} StripCommentsTags(f: seq<Node>)
    ensures Tags(Elements(StripComments(f))) == Tags(Elements(f))
    decreases f, 1
  {
    if f != [] {
      var a, b := StripCommentsNode(f[0]), StripComments(f[1..]);
      ElementsConcat(a, b);
      ElementsUnfold(f);
      TagsConcat(Elements(a), Elements(b));
      TagsConcat(Own(f[0]), Elements(f[1..]));
      StripCommentsNodeTags(f[0]);
      StripCommentsTags(f[1..]);
    }
  }

  lemma {:induction false} StripCommentsNodeTags(n: Node)
    ensures Tags(Elements(StripCommentsNode(n))) == Tags(Own(n))
    decreases n, 0
  {
    match n
    case Elem(e) =>
      var m := Element(e.tag, e.attrs, StripComments(e.children));
      ElementsCons(Elem(m), []);
      assert [Elem(m)] + [] == [Elem(m)];
      assert Elements([]) == [];
      OwnUnfold(Elem(m));
      OwnUnfold(n);
      TagsConcat([m], Elements(m.children));
      TagsConcat([e], Elements(e.children));
      StripCommentsTags(e.children);
    case Text(_) =>
      ElementsCons(n, []);
      assert [n] + [] == [n];
    case Comment(_) =>
  }

  /** Removing comments deletes markup. */
  lemma {:induction false} StripCommentsSub(f: seq<Node>)
    ensures Sub(Serialize(StripComments(f)), Serialize(f))
    decreases f, 1
  {
    if f == [] {
      SubRefl([]);
    } else {
      var n, rest := f[0], f[1..];
      assert f == [n] + rest;
      SerializeCons(n, rest);
      SerializeConcat(StripCommentsNode(n), StripComments(rest));
      StripCommentsNodeSub(n);
      StripCommentsSub(rest);
      SubConcat(Serialize(StripCommentsNode(n)), SerializeNode(n), Serialize(StripComments(rest)), Serialize(rest));
    }
  }

  lemma {:induction false} StripCommentsNodeSub(n: Node)
    ensures Sub(Serialize(StripCommentsNode(n)), SerializeNode(n))
    decreases n, 0
  {
    match n
    case Elem(e) =>
      var m := Element(e.tag, e.attrs, StripComments(e.children));
      SerializeOne(Elem(m));
      StripCommentsSub(e.children);
      SubRefl(SerializeAttrs(e.attrs));
      SubElement(m, e);
    case Text(_) =>
      SerializeOne(n);
      SubRefl(SerializeNode(n));
    case Comment(_) =>
      SubEmpty(SerializeNode(n));
  }

  // ---- The stage as a whole ----

  /** The tree after stage 0. */
  function Clean(f: seq<Node>): seq<Node> {
    StripComments(StripNoise(f))
  }

  /** After stage 0 no `style` or `script` element and no comment is left. */
  lemma CleanLeavesNoNoise(f: seq<Node>)
    ensures forall t :: t in Tags(Elements(Clean(f))) ==> t != "style" && t != "script"
    ensures CommentCount(Clean(f)) == 0
  {
    NoNoiseLeft(f);
    StripCommentsTags(StripNoise(f));
    NoCommentLeft(StripNoise(f));
    var es := Elements(StripNoise(f));
    forall t | t in Tags(Elements(Clean(f))) ensures t != "style" && t != "script" {
      var i :| 0 <= i < |es| && Tags(es)[i] == t;
      assert es[i] in es;
    }
  }

  /** Stage 0 only deletes markup. */
  lemma CleanSub(f: seq<Node>)
    ensures Sub(Serialize(Clean(f)), Serialize(f))
  {
    PurgeSub(f, IsNoise);
    StripCommentsSub(StripNoise(f));
    SubTrans(Serialize(Clean(f)), Serialize(StripNoise(f)), Serialize(f));
  }
}
