/** Python's argument-less `str.split()`: the maximal runs of non-whitespace
    characters of a string, in order. Leading, trailing and repeated
    whitespace produce no empty words. */
module Tokens {
  import opened Strings

  /** `s[i..j]` is a maximal run of non-whitespace characters of `s`: it is
      non-empty, holds no whitespace, and has whitespace (or the end of `s`)
      on both sides. This is the reference definition the scanner below is
      proved against. */
  ghost predicate IsTokenAt(s: string, i: int, j: int) {
    && 0 <= i < j <= |s|
    && (forall k :: i <= k < j ==> !IsSpace(s[k]))
    && (i == 0 || IsSpace(s[i - 1]))
    && (j == |s| || IsSpace(s[j]))
  }

  ghost predicate IsToken(s: string, w: string) {
    exists i, j :: IsTokenAt(s, i, j) && s[i..j] == w
  }

  /** A position where no word is cut in two: the scanner only ever resumes
      at such a position. */
  predicate AtBoundary(s: string, p: nat)
    requires p <= |s|
  {
    p == 0 || p == |s| || IsSpace(s[p - 1]) || IsSpace(s[p])
  }

  /** End of the run of non-whitespace characters that starts at `p`. */
  function RunEnd(s: string, p: nat): (q: nat)
    requires p <= |s|
    ensures p <= q <= |s|
    ensures forall k :: p <= k < q ==> !IsSpace(s[k])
    ensures q < |s| ==> IsSpace(s[q])
    decreases |s| - p
  {
    if p == |s| || IsSpace(s[p]) then p else RunEnd(s, p + 1)
  }

  /** The words of `s` that start at or after position `p`. */
  function WordsFrom(s: string, p: nat): seq<string>
    requires p <= |s|
    decreases |s| - p
  {
    if p == |s| then []
    else if IsSpace(s[p]) then WordsFrom(s, p + 1)
    else
      var q := RunEnd(s, p);
      [s[p..q]] + WordsFrom(s, q)
  }

  /** `s.split()` */
  function Words(s: string): seq<string> {
    WordsFrom(s, 0)
  }

  /** Every word the scanner produces from `p` on is a token of `s` starting
      at or after `p`. */
  lemma {:induction false} WordsFromSound(s: string, p: nat, w: string)
    requires p <= |s| && AtBoundary(s, p)
    requires w in WordsFrom(s, p)
    ensures exists i, j :: p <= i && IsTokenAt(s, i, j) && s[i..j] == w
    decreases |s| - p
  {
    if IsSpace(s[p]) {
      WordsFromSound(s, p + 1, w);
    } else {
      var q := RunEnd(s, p);
      if w == s[p..q] {
        assert IsTokenAt(s, p, q);
      } else {
        assert w in WordsFrom(s, q);
        WordsFromSound(s, q, w);
      }
    }
  }

  /** Every token of `s` starting at or after `p` is produced by the scanner
      from `p` on. */
  lemma {:induction false} WordsFromComplete(s: string, p: nat, i: int, j: int)
    requires p <= |s| && AtBoundary(s, p)
    requires p <= i && IsTokenAt(s, i, j)
    ensures s[i..j] in WordsFrom(s, p)
    decreases |s| - p
  {
    if IsSpace(s[p]) {
      assert p < i;
      WordsFromComplete(s, p + 1, i, j);
    } else {
      var q := RunEnd(s, p);
      if i == p {
        assert j <= q;
        assert q <= j;
      } else {
        assert q <= i - 1;
        WordsFromComplete(s, q, i, j);
      }
    }
  }

  /** The words of `s.split()` are exactly the tokens of `s`. */
  lemma WordsAreTokens(s: string)
    ensures forall w :: w in Words(s) <==> IsToken(s, w)
  {
    forall w | w in Words(s) ensures IsToken(s, w) {
      WordsFromSound(s, 0, w);
    }
    forall w | IsToken(s, w) ensures w in Words(s) {
      var i, j :| IsTokenAt(s, i, j) && s[i..j] == w;
      WordsFromComplete(s, 0, i, j);
    }
  }

  /** No word of `s.split()` is empty or contains whitespace. */
  lemma WordShape(s: string, w: string)
    requires w in Words(s)
    ensures w != [] && forall k :: 0 <= k < |w| ==> !IsSpace(w[k])
  {
    WordsAreTokens(s);
    var i, j :| IsTokenAt(s, i, j) && s[i..j] == w;
    assert forall k :: 0 <= k < |w| ==> w[k] == s[i + k];
  }

  /** Runs of spaces collapse: `"hello  world".split()` is `["hello", "world"]`. */
  lemma SplitCollapsesRuns()
    ensures Words("hello  world") == ["hello", "world"]
  {
    var s := "hello  world";
    assert RunEnd(s, 0) == 5;
    assert RunEnd(s, 7) == 12;
    assert WordsFrom(s, 12) == [];
    assert s[7..12] == "world" && s[0..5] == "hello";
    assert WordsFrom(s, 7) == ["world"];
    assert WordsFrom(s, 6) == WordsFrom(s, 7);
    assert WordsFrom(s, 5) == WordsFrom(s, 6);
    assert WordsFrom(s, 0) == ["hello"] + WordsFrom(s, 5);
  }
}
