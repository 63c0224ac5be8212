/** Stage 4 of the reducer (backend/app.py:75-81): while the markup has more than 3000 words,
    the element in the middle of the live element list is decomposed. */
module Trim {
  import opened Words
  import opened Dom
  import opened Markup

  /** The word budget of both the early return and the trim loop. */
  const Budget: nat := 3000

  /** What one round of the loop decomposes: the element at `len(tags) // 2`. */
  function Midpoint(f: seq<Node>): nat {
    |Elements(f)| / 2
  }

  /** The forest the loop ends with. */
  function Trimmed(f: seq<Node>): seq<Node>
    decreases |Elements(f)|
  {
    if LengthToken(Serialize(f)) > Budget && |Elements(f)| > 0 then
      EditLength(f, Midpoint(f), Decompose);
      Trimmed(EditAt(f, Midpoint(f), Decompose))
    else f
  }

  /** The number of rounds the loop makes. */
  function Rounds(f: seq<Node>): nat
    decreases |Elements(f)|
  {
    if LengthToken(Serialize(f)) > Budget && |Elements(f)| > 0 then
      EditLength(f, Midpoint(f), Decompose);
      1 + Rounds(EditAt(f, Midpoint(f), Decompose))
    else 0
  }

  /** Each round decomposes the middle element with its whole subtree: the elements before it
      stay (its ancestors lose that subtree), the elements after the subtree follow in order,
      and the element count falls by the subtree's size, at least one. */
  lemma TrimRound(f: seq<Node>)
    requires |Elements(f)| > 0
    ensures var es, m := Elements(f), Midpoint(f);
      m < |es| && m + Size(es[m]) <= |es| &&
      |Elements(EditAt(f, m, Decompose))| == |es| - Size(es[m]) < |es| &&
      (forall i :: 0 <= i < m ==> Elements(EditAt(f, m, Decompose))[i] == Above(es[i], m - i, Decompose)) &&
      Drop(Elements(EditAt(f, m, Decompose)), m) == Drop(es, m + Size(es[m]))
  {
    var es, m := Elements(f), Midpoint(f);
    EditLength(f, m, Decompose);
    EditSuffix(f, m, Decompose);
    assert [] + Drop(es, m + Size(es[m])) == Drop(es, m + Size(es[m]));
    forall i | 0 <= i < m ensures Elements(EditAt(f, m, Decompose))[i] == Above(es[i], m - i, Decompose) {
      EditPrefix(f, m, Decompose, i);
    }
  }

  /** The loop ends within budget or with no element left (loose top-level text may remain). */
  lemma {:induction false} TrimmedBudget(f: seq<Node>)
    ensures LengthToken(Serialize(Trimmed(f))) <= Budget || Elements(Trimmed(f)) == []
    decreases |Elements(f)|
  {
    if LengthToken(Serialize(f)) > Budget && |Elements(f)| > 0 {
      TrimRound(f);
      TrimmedBudget(EditAt(f, Midpoint(f), Decompose));
    }
  }

  /** The loop makes at most as many rounds as there were elements. */
  lemma {:induction false} RoundsBound(f: seq<Node>)
    ensures Rounds(f) <= |Elements(f)|
    decreases |Elements(f)|
  {
    if LengthToken(Serialize(f)) > Budget && |Elements(f)| > 0 {
      TrimRound(f);
      RoundsBound(EditAt(f, Midpoint(f), Decompose));
    }
  }

  /** Trimming deletes markup. */
  lemma {:induction false} TrimmedSub(f: seq<Node>)
    ensures Sub(Serialize(Trimmed(f)), Serialize(f))
    decreases |Elements(f)|
  {
    if LengthToken(Serialize(f)) > Budget && |Elements(f)| > 0 {
      var g := EditAt(f, Midpoint(f), Decompose);
      TrimRound(f);
      TrimmedSub(g);
      DecomposeSub(f, Midpoint(f));
      SubTrans(Serialize(Trimmed(g)), Serialize(g), Serialize(f));
    } else {
      SubRefl(Serialize(f));
    }
  }
}
