/** `simplify_html` (backend/app.py:38-83): the parsed email is held by a `Soup` whose
    methods edit it in place, stage by stage, as the function does. */
module Reducer {
  import opened Words
  import opened Dom
  import opened Markup
  import opened Removal
  import opened Noise
  import opened Unwrap
  import opened Prune
  import opened Links
  import opened Trim

  /** The parsed document: the top-level nodes under `BeautifulSoup`'s root. */
  class Soup {
    var roots: seq<Node>

    constructor (doc: seq<Node>)
      ensures roots == doc
    {
      roots := doc;
    }

    /** `str(soup)`. */
    function ToString(): string
      reads this
    {
      Serialize(roots)
    }

    /** `for tag in soup(["style", "script"]): tag.decompose()`. The snapshot is walked in
        document order; an entry inside a subtree decomposed earlier is no longer in the tree,
        and decomposing it again changes nothing, so it is passed over. */
    method RemoveNoise()
      modifies this
      ensures roots == StripNoise(old(roots))
    {
      var tags := Elements(roots);
      var j, next := 0, 0;  // live position and snapshot index of the next entry still in the tree
      for k := 0 to |tags|
        invariant k <= next <= |tags| && j <= |Elements(roots)|
        invariant Drop(Elements(roots), j) == Drop(tags, next)
        invariant forall i :: 0 <= i < j ==> !IsNoise(Elements(roots)[i])
        invariant StripNoise(roots) == StripNoise(old(roots))
      {
        if k == next {
          var es := Elements(roots);
          DropAdvance(es, tags, j, k, 0);
          if IsNoise(tags[k]) {
            EditSuffix(roots, j, Decompose);
            DropAdvance(es, tags, j, k, Size(es[j]));
            forall i | 0 <= i < j ensures !IsNoise(Elements(EditAt(roots, j, Decompose))[i]) {
              EditPrefix(roots, j, Decompose, i);
            }
            NoiseStep(roots, j);
            roots := EditAt(roots, j, Decompose);
            next := k + Size(tags[k]);
          } else {
            DropAdvance(es, tags, j, k, 1);
            j, next := j + 1, k + 1;
          }
        }
      }
      DropAdvance(Elements(roots), tags, j, next, 0);
      PurgeNone(roots, IsNoise);
    }

    /** `for comment in soup.find_all(string=…Comment): comment.extract()`: one comment
        taken out per entry of the snapshot, the first one left in document order each time. */
    method RemoveComments()
      modifies this
      ensures roots == StripComments(old(roots))
    {
      var n := CommentCount(roots);
      for k := 0 to n
        invariant CommentCount(roots) == n - k
        invariant StripComments(roots) == StripComments(old(roots))
      {
        DropFirstCommentCount(roots);
        DropFirstCommentStrip(roots);
        roots := DropFirstComment(roots);
      }
      StripCommentsNone(roots);
    }

    /** `for tag in soup.find_all(): if tag.name not in important_tags: tag.unwrap()`.
        An unwrapped element's subtree stays in the tree, so no entry of the snapshot goes stale. */
    method UnwrapUnimportant()
      modifies this
      ensures roots == UnwrapAll(old(roots))
    {
      var tags := Elements(roots);
      var j := 0;
      for k := 0 to |tags|
        invariant j <= |Elements(roots)|
        invariant Drop(Elements(roots), j) == Drop(tags, k)
        invariant forall i :: 0 <= i < j ==> !Unimportant(Elements(roots)[i])
        invariant UnwrapAll(roots) == UnwrapAll(old(roots))
      {
        var es := Elements(roots);
        DropAdvance(es, tags, j, k, 1);
        if tags[k].tag !in ImportantTags {
          UnwrapSuffix(roots, j);
          forall i | 0 <= i < j ensures !Unimportant(Elements(EditAt(roots, j, Unwrap))[i]) {
            UnwrapPrefixTag(roots, j, i);
          }
          UnwrapStep(roots, j);
          roots := EditAt(roots, j, Unwrap);
        } else {
          j := j + 1;
        }
      }
      DropAdvance(Elements(roots), tags, j, |tags|, 0);
      UnwrapNone(roots);
    }

    /** `for tag in soup.find_all(): if not tag.get_text(strip=True): tag.decompose()`, with the
        entries under an element decomposed earlier passed over as in `RemoveNoise`. */
    method RemoveEmpty()
      modifies this
      ensures roots == Pruned(old(roots))
    {
      var tags := Elements(roots);
      var j, next := 0, 0;
      for k := 0 to |tags|
        invariant k <= next <= |tags| && j <= |Elements(roots)|
        invariant Drop(Elements(roots), j) == Drop(tags, next)
        invariant forall i :: 0 <= i < j ==> !Blank(Elements(roots)[i])
        invariant Pruned(roots) == Pruned(old(roots))
      {
        if k == next {
          var es := Elements(roots);
          DropAdvance(es, tags, j, k, 0);
          if Blank(tags[k]) {
            EditSuffix(roots, j, Decompose);
            DropAdvance(es, tags, j, k, Size(es[j]));
            forall i | 0 <= i < j ensures !Blank(Elements(EditAt(roots, j, Decompose))[i]) {
              EditPrefix(roots, j, Decompose, i);
              if j - i < Size(es[i]) {
                AboveTarget(roots, i, j);
              }
              DecomposeKeepsBlank(es[i], j - i);
            }
            PruneStep(roots, j);
            roots := EditAt(roots, j, Decompose);
            next := k + Size(tags[k]);
          } else {
            DropAdvance(es, tags, j, k, 1);
            j, next := j + 1, k + 1;
          }
        }
      }
      DropAdvance(Elements(roots), tags, j, next, 0);
      PurgeNone(roots, Blank);
    }

    /** `for a in soup.find_all(tag, name=True): a[name] = <shortened a[name]>`. */
    method ShortenLinks(tag: string, name: string)
      modifies this
      ensures roots == RewriteAll(old(roots), tag, name)
    {
      var tags := Elements(roots);
      RewriteFirstNone(roots, tag, name);
      ghost var orig := roots;
      for k := 0 to |tags|
        invariant roots == RewriteFirst(orig, k, tag, name)
      {
        RewriteStep(orig, k, tag, name);
        var e := tags[k];
        if e.tag == tag && HasAttr(e.attrs, name) {
          roots := EditAt(roots, k, SetAttrs(ShortenAttrs(e.attrs, name)));
        }
      }
      RewriteFirstAll(orig, |tags|, tag, name);
    }

    /** `while length_token(processed_html) > 3000:` decompose the middle element of a fresh
        `find_all()`, or stop when there is none; `rounds` counts the decompositions. */
    method TrimToBudget() returns (ghost rounds: nat)
      modifies this
      ensures roots == Trimmed(old(roots))
      ensures rounds == Rounds(old(roots))
    {
      var processed := ToString();
      rounds := 0;
      while LengthToken(processed) > Budget
        invariant processed == Serialize(roots)
        invariant Trimmed(roots) == Trimmed(old(roots))
        invariant rounds + Rounds(roots) == Rounds(old(roots))
        decreases |Elements(roots)|
      {
        var tags := Elements(roots);
        if |tags| == 0 {
          break;
        }
        var midpoint := |tags| / 2;
        EditLength(roots, midpoint, Decompose);
        roots := EditAt(roots, midpoint, Decompose);
        rounds := rounds + 1;
        processed := ToString();
      }
    }
  }

  /** The tree `simplify_html` prints: the tree after stage 0 when that has fewer than 3000
      words, and otherwise the tree after all five stages. */
  function Reduce(doc: seq<Node>): seq<Node> {
    var c := Clean(doc);
    if LengthToken(Serialize(c)) < Budget then c
    else Trimmed(RewriteAll(RewriteAll(Pruned(UnwrapAll(c)), "a", "href"), "img", "src"))
  }

  /** `simplify_html` on an already parsed document. */
  method SimplifyHtml(doc: seq<Node>) returns (out: string)
    ensures out == Serialize(Reduce(doc))
    ensures LengthToken(out) <= Budget || Elements(Reduce(doc)) == []
    ensures LengthToken(Serialize(Clean(doc))) < Budget ==> out == Serialize(Clean(doc))
  {
    var soup := new Soup(doc);
    soup.RemoveNoise();
    soup.RemoveComments();
    var processed := soup.ToString();
    if LengthToken(processed) < Budget {
      ReduceBudget(doc);
      return processed;
    }
    soup.UnwrapUnimportant();
    soup.RemoveEmpty();
    soup.ShortenLinks("a", "href");
    soup.ShortenLinks("img", "src");
    ghost var rounds := soup.TrimToBudget();
    out := soup.ToString();
    ReduceBudget(doc);
  }

  /** The result is within budget, or has no element left. */
  lemma ReduceBudget(doc: seq<Node>)
    ensures LengthToken(Serialize(Reduce(doc))) <= Budget || Elements(Reduce(doc)) == []
  {
    var c := Clean(doc);
    if LengthToken(Serialize(c)) >= Budget {
      TrimmedBudget(RewriteAll(RewriteAll(Pruned(UnwrapAll(c)), "a", "href"), "img", "src"));
    }
  }

  /** The result is the input's markup with characters deleted, so it never has more words. */
  lemma ReduceNeverGrows(doc: seq<Node>)
    ensures Sub(Serialize(Reduce(doc)), Serialize(doc))
    ensures LengthToken(Serialize(Reduce(doc))) <= LengthToken(Serialize(doc))
  {
    var c := Clean(doc);
    CleanSub(doc);
    if LengthToken(Serialize(c)) >= Budget {
      var u := UnwrapAll(c);
      var p := Pruned(u);
      var a := RewriteAll(p, "a", "href");
      var i := RewriteAll(a, "img", "src");
      UnwrapSub(c);
      PruneSub(u);
      RewriteSub(p, "a", "href");
      RewriteSub(a, "img", "src");
      TrimmedSub(i);
      SubTrans(Serialize(i), Serialize(a), Serialize(p));
      SubTrans(Serialize(i), Serialize(p), Serialize(u));
      SubTrans(Serialize(i), Serialize(u), Serialize(c));
      SubTrans(Serialize(Trimmed(i)), Serialize(i), Serialize(c));
      SubTrans(Serialize(Trimmed(i)), Serialize(c), Serialize(doc));
    }
    SubLengthToken(Serialize(Reduce(doc)), Serialize(doc));
  }
}
