/** The word-count proxy for the language model's token budget: `len(text.split())`. */
module Words {

  /** The characters Python's `str.split()` and `str.strip()` treat as whitespace. */
  predicate IsSpace(c: char) {
    ('\U{9}' <= c <= '\U{D}') || ('\U{1C}' <= c <= '\U{20}') || c == '\U{85}' || c == '\U{A0}'
    || c == '\U{1680}' || ('\U{2000}' <= c <= '\U{200A}') || c == '\U{2028}' || c == '\U{2029}'
    || c == '\U{202F}' || c == '\U{205F}' || c == '\U{3000}'
  }

  predicate AllSpace(s: string) {
    forall i :: 0 <= i < |s| ==> IsSpace(s[i])
  }

  predicate NoSpace(s: string) {
    forall i :: 0 <= i < |s| ==> !IsSpace(s[i])
  }

  /** The longest prefix of `s` that holds no whitespace. */
  function LeadingWord(s: string): (w: string)
    ensures w <= s && NoSpace(w)
    ensures |w| == |s| || IsSpace(s[|w|])
  {
    if s == [] || IsSpace(s[0]) then [] else [s[0]] + LeadingWord(s[1..])
  }

  /** The list `s.split()` returns: the maximal runs of non-whitespace, in order. */
  function Split(s: string): (ws: seq<string>)
    ensures forall w :: w in ws ==> w != [] && NoSpace(w)
    decreases |s|
  {
    if s == [] then []
    else if IsSpace(s[0]) then Split(s[1..])
    else
      var w := LeadingWord(s);
      [w] + Split(s[|w|..])
  }

  /** `length_token`: the number of whitespace-separated words of `s`. */
  function LengthToken(s: string): nat {
    |Split(s)|
  }

  /** Reference count: the positions where a run of non-whitespace starts;
      `afterSpace` tells whether the character before `s` is whitespace (or absent). */
  function RunStarts(s: string, afterSpace: bool): nat {
    if s == [] then 0
    else (if afterSpace && !IsSpace(s[0]) then 1 else 0) + RunStarts(s[1..], IsSpace(s[0]))
  }

  /** The characters of `s` that are not whitespace, in order. */
  function NonSpace(s: string): string {
    if s == [] then [] else (if IsSpace(s[0]) then [] else [s[0]]) + NonSpace(s[1..])
  }

  function Concat(ws: seq<string>): string {
    if ws == [] then [] else ws[0] + Concat(ws[1..])
  }

  /** Splitting the first element off a concatenation. */
  lemma HeadTail<T>(h: seq<T>, t: seq<T>)
    requires h != []
    ensures (h + t)[0] == h[0] && (h + t)[1..] == h[1..] + t
    ensures [h[0]] + (h[1..] + t) == h + t
  {
    assert h == [h[0]] + h[1..];
  }

  lemma {:induction false} ConcatAppend(a: seq<string>, b: seq<string>)
    ensures Concat(a + b) == Concat(a) + Concat(b)
  {
    if a == [] {
      assert a + b == b;
    } else {
      assert (a + b)[0] == a[0] && (a + b)[1..] == a[1..] + b;
      ConcatAppend(a[1..], b);
    }
  }

  lemma {:induction false} RunStartsInWord(s: string)
    requires NoSpace(s)
    ensures RunStarts(s, false) == 0
  {
    if s != [] {
      RunStartsInWord(s[1..]);
    }
  }

  lemma {:induction false} RunStartsAfterWord(s: string, w: string)
    requires NoSpace(w) && w != [] && w <= s
    requires |w| == |s| || IsSpace(s[|w|])
    ensures RunStarts(s, true) == 1 + RunStarts(s[|w|..], true)
  {
    assert RunStarts(s, true) == 1 + RunStarts(s[1..], false);
    WordTail(s[1..], w[1..]);
  }

  lemma {:induction false} WordTail(s: string, w: string)
    requires NoSpace(w) && w <= s
    requires |w| == |s| || IsSpace(s[|w|])
    ensures RunStarts(s, false) == RunStarts(s[|w|..], true)
  {
    if w == [] {
      if s != [] {
        assert IsSpace(s[0]);
      }
    } else {
      assert !IsSpace(s[0]);
      assert s[1..][|w| - 1..] == s[|w|..];
      WordTail(s[1..], w[1..]);
    }
  }

  /** `length_token` counts exactly the maximal runs of non-whitespace characters. */
  lemma {:induction false} LengthTokenCountsRuns(s: string)
    ensures LengthToken(s) == RunStarts(s, true)
    decreases |s|
  {
    if s != [] {
      if IsSpace(s[0]) {
        LengthTokenCountsRuns(s[1..]);
      } else {
        var w := LeadingWord(s);
        RunStartsAfterWord(s, w);
        LengthTokenCountsRuns(s[|w|..]);
      }
    }
  }

  /** An empty or whitespace-only string counts zero words, and only such a string does. */
  lemma {:induction false} LengthTokenZero(s: string)
    ensures LengthToken(s) == 0 <==> AllSpace(s)
    decreases |s|
  {
    if s != [] {
      if IsSpace(s[0]) {
        LengthTokenZero(s[1..]);
        assert AllSpace(s) <==> AllSpace(s[1..]) by {
          if AllSpace(s[1..]) {
            forall i | 0 <= i < |s| ensures IsSpace(s[i]) {
              if i > 0 { assert s[i] == s[1..][i - 1]; }
            }
          }
        }
      } else {
        assert !AllSpace(s);
      }
    }
  }

  lemma {:induction false} NonSpaceOfWord(s: string, w: string)
    requires NoSpace(w) && w <= s
    requires |w| == |s| || IsSpace(s[|w|])
    ensures NonSpace(s) == w + NonSpace(s[|w|..])
  {
    if w != [] {
      assert s[1..][|w| - 1..] == s[|w|..];
      NonSpaceOfWord(s[1..], w[1..]);
      assert w == [s[0]] + w[1..];
    }
  }

  /** Joining the words gives back every non-whitespace character of `s`, in order. */
  lemma {:induction false} SplitKeepsCharacters(s: string)
    ensures Concat(Split(s)) == NonSpace(s)
    decreases |s|
  {
    if s != [] {
      if IsSpace(s[0]) {
        SplitKeepsCharacters(s[1..]);
      } else {
        var w := LeadingWord(s);
        NonSpaceOfWord(s, w);
        SplitKeepsCharacters(s[|w|..]);
      }
    }
  }

  // ---- Deleting characters never adds a word ----

  /** `t` is obtained from `s` by deleting characters. */
  predicate Sub(t: string, s: string)
    decreases |s|
  {
    if s == [] then t == []
    else Sub(t, s[1..]) || (t != [] && t[0] == s[0] && Sub(t[1..], s[1..]))
  }

  lemma {:induction false} SubRefl(s: string)
    ensures Sub(s, s)
  {
    if s != [] {
      SubRefl(s[1..]);
    }
  }

  lemma {:induction false} SubEmpty(s: string)
    ensures Sub([], s)
  {
    if s != [] {
      SubEmpty(s[1..]);
    }
  }

  lemma {:induction false} SubConcat(a: string, b: string, c: string, d: string)
    requires Sub(a, b) && Sub(c, d)
    ensures Sub(a + c, b + d)
    decreases |b|
  {
    if b == [] {
      assert a + c == c && b + d == d;
    } else {
      assert (b + d)[1..] == b[1..] + d;
      if Sub(a, b[1..]) {
        SubConcat(a, b[1..], c, d);
      } else {
        assert (a + c)[1..] == a[1..] + c;
        SubConcat(a[1..], b[1..], c, d);
      }
    }
  }

  /** Dropping a prefix and a suffix of `s` around a subsequence of its middle. */
  lemma SubWrap(t: string, open: string, s: string, close: string)
    requires Sub(t, s)
    ensures Sub(t, open + s + close)
  {
    SubEmpty(open);
    SubEmpty(close);
    SubConcat([], open, t, s);
    assert [] + t == t && t + [] == t;
    SubConcat(t, open + s, [], close);
  }

  /** Deletions compose. */
  lemma {:induction false} SubTrans(a: string, b: string, c: string)
    requires Sub(a, b) && Sub(b, c)
    ensures Sub(a, c)
    decreases |c|
  {
    if c != [] {
      if Sub(b, c[1..]) {
        SubTrans(a, b, c[1..]);
      } else {
        assert b != [] && b[0] == c[0];
        if Sub(a, b[1..]) {
          SubTrans(a, b[1..], c[1..]);
        } else {
          SubTrans(a[1..], b[1..], c[1..]);
        }
      }
    } else {
      assert b == [];
    }
  }

  lemma {:induction false} RunStartsFlag(s: string)
    ensures RunStarts(s, false) <= RunStarts(s, true) <= RunStarts(s, false) + 1
  {
  }

  lemma {:induction false} SubRunStarts(t: string, s: string, afterSpace: bool)
    requires Sub(t, s)
    ensures RunStarts(t, afterSpace) <= RunStarts(s, afterSpace)
    decreases |s|
  {
    if s != [] {
      if Sub(t, s[1..]) {
        SubRunStarts(t, s[1..], true);
        SubRunStarts(t, s[1..], false);
        RunStartsFlag(t);
      } else {
        SubRunStarts(t[1..], s[1..], IsSpace(s[0]));
      }
    }
  }

  /** Deleting characters from a string never increases its word count. */
  lemma SubLengthToken(t: string, s: string)
    requires Sub(t, s)
    ensures LengthToken(t) <= LengthToken(s)
  {
    LengthTokenCountsRuns(t);
    LengthTokenCountsRuns(s);
    SubRunStarts(t, s, true);
  }

  // ---- Whitespace-only text ----

  lemma {:induction false} NonSpaceConcat(a: string, b: string)
    ensures NonSpace(a + b) == NonSpace(a) + NonSpace(b)
  {
    if a == [] {
      assert a + b == b;
    } else {
      assert (a + b)[0] == a[0] && (a + b)[1..] == a[1..] + b;
      NonSpaceConcat(a[1..], b);
    }
  }

  /** A string is whitespace-only exactly when it has no non-whitespace character. */
  lemma {:induction false} AllSpaceNonSpace(s: string)
    ensures AllSpace(s) <==> NonSpace(s) == []
  {
    if s != [] {
      AllSpaceNonSpace(s[1..]);
      if IsSpace(s[0]) {
        assert AllSpace(s) <==> AllSpace(s[1..]) by {
          if AllSpace(s[1..]) {
            forall i | 0 <= i < |s| ensures IsSpace(s[i]) {
              if i > 0 { assert s[i] == s[1..][i - 1]; }
            }
          }
        }
      } else {
        assert !AllSpace(s);
      }
    }
  }
}
