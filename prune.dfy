/** Stage 2 of the reducer (backend/app.py:62-64): every element whose text is empty once
    stripped of whitespace is decomposed. */
module Prune {
  import opened Words
  import opened Dom
  import opened Markup
  import opened Removal

  /** The forest with every blank element deleted with its subtree, judged top-down. */
  function Pruned(f: seq<Node>): seq<Node> {
    Purge(f, Blank)
  }

  /** The element `j` positions after an ancestor `i` is element `j - i - 1` of the ancestor's subtree. */
  lemma AboveTarget(f: seq<Node>, i: nat, j: nat)
    requires i < j < |Elements(f)| && j - i < Size(Elements(f)[i])
    ensures Elements(Elements(f)[i].children)[j - i - 1] == Elements(f)[j]
  {
    var es := Elements(f);
    ForestSubtree(f, i);
    assert es[i + 1..i + Size(es[i])][j - i - 1] == es[j];
  }

  /** Decomposing one blank element does not change the reference: no ancestor changes its
      blankness, since only whitespace goes. */
  lemma PruneStep(f: seq<Node>, j: nat)
    requires j < |Elements(f)| && Blank(Elements(f)[j])
    ensures Pruned(EditAt(f, j, Decompose)) == Pruned(f)
  {
    var es := Elements(f);
    forall i | 0 <= i < j && i < |es|
      ensures Blank(Above(es[i], j - i, Decompose)) == Blank(es[i])
    {
      if j - i < Size(es[i]) {
        AboveTarget(f, i, j);
      }
      DecomposeKeepsBlank(es[i], j - i);
    }
    PurgeStep(f, j, Blank);
  }

  /** No non-whitespace character of the text is lost: only blank elements are removed. */
  lemma {:induction false} PruneText(f: seq<Node>)
    ensures NonSpace(TextOf(Pruned(f))) == NonSpace(TextOf(f))
    decreases f, 1
  {
    if f != [] {
      var n, rest := f[0], f[1..];
      var a, b := PurgeNode(n, Blank), Purge(rest, Blank);
      TextConcat(a, b);
      NonSpaceConcat(TextOf(a), TextOf(b));
      NonSpaceConcat(NodeText(n), TextOf(rest));
      PruneNodeText(n);
      PruneText(rest);
    }
  }

  lemma {:induction false} PruneNodeText(n: Node)
    ensures NonSpace(TextOf(PurgeNode(n, Blank))) == NonSpace(NodeText(n))
    decreases n, 0
  {
    match n
    case Elem(e) =>
      if Blank(e) {
        AllSpaceNonSpace(TextOf(e.children));
      } else {
        TextOne(Elem(Element(e.tag, e.attrs, Purge(e.children, Blank))));
        PruneText(e.children);
      }
    case _ =>
      TextOne(n);
  }

  /** After stage 2 every element left holds some non-whitespace text. */
  lemma {:induction false} PruneLeavesText(f: seq<Node>)
    ensures NoneSelected(Elements(Pruned(f)), Blank)
    decreases f, 1
  {
    if f != [] {
      var a, b := PurgeNode(f[0], Blank), Purge(f[1..], Blank);
      ElementsConcat(a, b);
      PruneNodeLeavesText(f[0]);
      PruneLeavesText(f[1..]);
      NoneSelectedJoin(Elements(a), Elements(b), Blank);
    }
  }

  lemma {:induction false} PruneNodeLeavesText(n: Node)
    ensures NoneSelected(Elements(PurgeNode(n, Blank)), Blank)
    decreases n, 0
  {
    if n.Elem? && !Blank(n.element) {
      var e := n.element;
      var m := Element(e.tag, e.attrs, Purge(e.children, Blank));
      ElementsCons(Elem(m), []);
      assert [Elem(m)] + [] == [Elem(m)];
      assert Elements([]) == [];
      OwnUnfold(Elem(m));
      PruneText(e.children);
      AllSpaceNonSpace(TextOf(e.children));
      AllSpaceNonSpace(TextOf(m.children));
      PruneLeavesText(e.children);
      NoneSelectedJoin([m], Elements(m.children), Blank);
    } else if !n.Elem? {
      ElementsCons(n, []);
      assert [n] + [] == [n];
    }
  }

  /** In particular no element without children, such as `img`, survives stage 2. */
  lemma PruneDropsChildless(f: seq<Node>)
    ensures forall e :: e in Elements(Pruned(f)) ==> e.children != []
  {
    PruneLeavesText(f);
    forall e | e in Elements(Pruned(f)) ensures e.children != [] {
      assert !Blank(e);
    }
  }

  /** Pruning deletes markup. */
  lemma PruneSub(f: seq<Node>)
    ensures Sub(Serialize(Pruned(f)), Serialize(f))
  {
    PurgeSub(f, Blank);
  }
}
