/** Deleting every element a test selects, with its subtree: the shared reference for
    the `style`/`script` pass and the empty-element pass, which both `decompose` the
    elements of a `find_all()` snapshot that pass a test. */
module Removal {
  import opened Words
  import opened Dom
  import opened Markup

  /** `f` with every element that `drop` selects removed together with its subtree. The test
      is made top-down on each element as it stands, before anything below it is removed. */
  function Purge(f: seq<Node>, drop: Element -> bool): seq<Node>
    decreases f
  {
    if f == [] then [] else PurgeNode(f[0], drop) + Purge(f[1..], drop)
  }

  function PurgeNode(n: Node, drop: Element -> bool): seq<Node>
    decreases n, 0
  {
    match n
    case Elem(e) => if drop(e) then [] else [Elem(Element(e.tag, e.attrs, Purge(e.children, drop)))]
    case _ => [n]
  }

  /** Decomposing the element `j` leaves the test's verdict on every element before `j` as it was
      (only its ancestors change, and only below them). */
  predicate Keeps(es: seq<Element>, j: nat, drop: Element -> bool) {
    forall i :: 0 <= i < j && i < |es| ==> drop(Above(es[i], j - i, Decompose)) == drop(es[i])
  }

  /** No element of the list is selected. */
  predicate NoneSelected(es: seq<Element>, drop: Element -> bool) {
    forall e :: e in es ==> !drop(e)
  }

  lemma PurgeCons(n: Node, rest: seq<Node>, drop: Element -> bool)
    ensures Purge([n] + rest, drop) == PurgeNode(n, drop) + Purge(rest, drop)
  {
    assert ([n] + rest)[0] == n && ([n] + rest)[1..] == rest;
  }

  lemma {:induction false} PurgeConcat(a: seq<Node>, b: seq<Node>, drop: Element -> bool)
    ensures Purge(a + b, drop) == Purge(a, drop) + Purge(b, drop)
  {
    if a == [] {
      assert a + b == b;
    } else {
      assert (a + b)[0] == a[0] && (a + b)[1..] == a[1..] + b;
      PurgeConcat(a[1..], b, drop);
    }
  }

  lemma PurgeOne(n: Node, drop: Element -> bool)
    ensures Purge([n], drop) == PurgeNode(n, drop)
  {
    assert [n][1..] == [];
  }

  lemma KeepsShift(a: seq<Element>, b: seq<Element>, j: nat, drop: Element -> bool)
    requires |a| <= j && Keeps(a + b, j, drop)
    ensures Keeps(b, j - |a|, drop)
  {
    forall i | 0 <= i < j - |a| && i < |b|
      ensures drop(Above(b[i], j - |a| - i, Decompose)) == drop(b[i])
    {
      assert (a + b)[i + |a|] == b[i];
    }
  }

  lemma KeepsHead(a: seq<Element>, b: seq<Element>, j: nat, drop: Element -> bool)
    requires Keeps(a + b, j, drop)
    ensures Keeps(a, j, drop)
  {
    forall i | 0 <= i < j && i < |a|
      ensures drop(Above(a[i], j - i, Decompose)) == drop(a[i])
    {
      assert (a + b)[i] == a[i];
    }
  }

  // ---- Decomposing one selected element does not change the reference ----

  /** Decomposing a selected element whose ancestors keep their verdict leaves `Purge` as it was. */
  lemma {:induction false} PurgeStep(f: seq<Node>, j: nat, drop: Element -> bool)
    requires j < |Elements(f)| && drop(Elements(f)[j]) && Keeps(Elements(f), j, drop)
    ensures Purge(EditAt(f, j, Decompose), drop) == Purge(f, drop)
    decreases f, 1
  {
    var n, rest := f[0], f[1..];
    var own := Own(n);
    ElementsUnfold(f);
    if j >= |own| {
      var j' := j - |own|;
      var r := EditAt(rest, j', Decompose);
      assert EditAt(f, j, Decompose) == [n] + r;
      PurgeCons(n, r, drop);
      assert Elements(f)[j] == Elements(rest)[j'];
      KeepsShift(own, Elements(rest), j, drop);
      PurgeStep(rest, j', drop);
    } else {
      var r := EditIn(n, j, Decompose);
      assert EditAt(f, j, Decompose) == r + rest;
      PurgeConcat(r, rest, drop);
      assert Elements(f)[j] == own[j];
      KeepsHead(own, Elements(rest), j, drop);
      PurgeInStep(n, j, drop);
    }
  }

  lemma {:induction false} PurgeInStep(n: Node, j: nat, drop: Element -> bool)
    requires j < |Own(n)| && drop(Own(n)[j]) && Keeps(Own(n), j, drop)
    ensures Purge(EditIn(n, j, Decompose), drop) == PurgeNode(n, drop)
    decreases n, 0
  {
    var e := n.element;
    OwnUnfold(n);
    assert n == Elem(e);
    if j > 0 {
      var c := EditAt(e.children, j - 1, Decompose);
      var m := Element(e.tag, e.attrs, c);
      assert EditIn(n, j, Decompose) == [Elem(m)];
      PurgeOne(Elem(m), drop);
      assert Own(n)[0] == e && Above(e, j, Decompose) == m;
      if !drop(e) {
        assert Own(n)[j] == Elements(e.children)[j - 1];
        KeepsShift([e], Elements(e.children), j, drop);
        PurgeStep(e.children, j - 1, drop);
      }
    }
  }

  // ---- When nothing is selected, nothing is removed ----

  lemma NoneSelectedSplit(a: seq<Element>, b: seq<Element>, drop: Element -> bool)
    requires NoneSelected(a + b, drop)
    ensures NoneSelected(a, drop) && NoneSelected(b, drop)
  {
    forall e | e in a ensures !drop(e) { assert e in a + b; }
    forall e | e in b ensures !drop(e) { assert e in a + b; }
  }

  lemma NoneSelectedJoin(a: seq<Element>, b: seq<Element>, drop: Element -> bool)
    requires NoneSelected(a, drop) && NoneSelected(b, drop)
    ensures NoneSelected(a + b, drop)
  {
  }

  /** A forest in which no element is selected is its own reference. */
  lemma {:induction false} PurgeNone(f: seq<Node>, drop: Element -> bool)
    requires NoneSelected(Elements(f), drop)
    ensures Purge(f, drop) == f
    decreases f, 1
  {
    if f != [] {
      ElementsUnfold(f);
      NoneSelectedSplit(Own(f[0]), Elements(f[1..]), drop);
      PurgeNodeNone(f[0], drop);
      PurgeNone(f[1..], drop);
      assert f == [f[0]] + f[1..];
    }
  }

  lemma {:induction false} PurgeNodeNone(n: Node, drop: Element -> bool)
    requires NoneSelected(Own(n), drop)
    ensures PurgeNode(n, drop) == [n]
    decreases n, 0
  {
    if n.Elem? {
      var e := n.element;
      OwnUnfold(n);
      assert e in Own(n);
      NoneSelectedSplit([e], Elements(e.children), drop);
      PurgeNone(e.children, drop);
    }
  }

  // ---- Removal deletes markup ----

  /** The reference prints as a deletion of characters of the original markup. */
  lemma {:induction false} PurgeSub(f: seq<Node>, drop: Element -> bool)
    ensures Sub(Serialize(Purge(f, drop)), Serialize(f))
    decreases f, 1
  {
    if f == [] {
      SubRefl([]);
    } else {
      var n, rest := f[0], f[1..];
      assert f == [n] + rest;
      SerializeCons(n, rest);
      SerializeConcat(PurgeNode(n, drop), Purge(rest, drop));
      PurgeNodeSub(n, drop);
      PurgeSub(rest, drop);
      SubConcat(Serialize(PurgeNode(n, drop)), SerializeNode(n), Serialize(Purge(rest, drop)), Serialize(rest));
    }
  }

  lemma {:induction false} PurgeNodeSub(n: Node, drop: Element -> bool)
    ensures Sub(Serialize(PurgeNode(n, drop)), SerializeNode(n))
    decreases n, 0
  {
    if n.Elem? && !drop(n.element) {
      var e := n.element;
      var m := Element(e.tag, e.attrs, Purge(e.children, drop));
      SerializeOne(Elem(m));
      PurgeSub(e.children, drop);
      SubRefl(SerializeAttrs(e.attrs));
      SubElement(m, e);
    } else if n.Elem? {
      SubEmpty(SerializeNode(n));
    } else {
      SerializeOne(n);
      SubRefl(SerializeNode(n));
    }
  }
}
