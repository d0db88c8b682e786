/**
 * Ranking of the answer entries: the stable sort by confidence, highest
 * first, the cut to the best three, and the fallback entry when nothing is
 * left.
 */
module Ranking {

  /**
   * One entry of the answer list: the display text (the sentence with the
   * answer marked), the rounded confidence as a fixed-point integer, and
   * the source label.
   */
  datatype Answer = Answer(text: string, confidence: int, source: string)

  /** How many entries the page shows at most. */
  const TopN := 3

  /** The entry shown when no sentence passed the threshold. */
  const NoAnswerFound := Answer("No relevant answer found.", 0, "-")

  /** Python's slice `xs[:n]`. */
  function Take<T>(xs: seq<T>, n: nat): (r: seq<T>)
    ensures |r| == if |xs| <= n then |xs| else n
    ensures r <= xs
  {
    if |xs| <= n then xs else xs[..n]
  }

  /** No entry has a higher confidence than an entry before it. */
  ghost predicate NonIncreasing(xs: seq<Answer>)
  {
    forall i, j :: 0 <= i < j < |xs| ==> xs[i].confidence >= xs[j].confidence
  }

  /** The entries with confidence `c`, in their order in `xs`. */
  function WithConfidence(xs: seq<Answer>, c: int): seq<Answer>
  {
    if xs == [] then []
    else (if xs[0].confidence == c then [xs[0]] else []) + WithConfidence(xs[1..], c)
  }

  /** Puts `x` after every entry of higher confidence and before the
      others. */
  function Insert(x: Answer, ys: seq<Answer>): (r: seq<Answer>)
    ensures multiset(r) == multiset(ys) + multiset{x}
  {
    if ys == [] || ys[0].confidence <= x.confidence then [x] + ys
    else
      assert ys == [ys[0]] + ys[1..];
      [ys[0]] + Insert(x, ys[1..])
  }

  lemma NonIncreasingCons(h: Answer, t: seq<Answer>)
    requires NonIncreasing(t)
    requires forall e :: e in multiset(t) ==> e.confidence <= h.confidence
    ensures NonIncreasing([h] + t)
  {
    var r := [h] + t;
    forall i, j | 0 <= i < j < |r| ensures r[i].confidence >= r[j].confidence {
      assert r[j] == t[j - 1];
      if i > 0 {
        assert r[i] == t[i - 1];
      } else {
        assert t[j - 1] in multiset(t);
      }
    }
  }

  /** Inserting into a list in non-increasing order keeps it so. */
  lemma {:induction false} InsertKeepsOrder(x: Answer, ys: seq<Answer>)
    requires NonIncreasing(ys)
    ensures NonIncreasing(Insert(x, ys))
  {
    if ys == [] || ys[0].confidence <= x.confidence {
      forall e: Answer | e in multiset(ys) ensures e.confidence <= x.confidence {
        var j :| 0 <= j < |ys| && ys[j] == e;
      }
      NonIncreasingCons(x, ys);
    } else {
      var rest := Insert(x, ys[1..]);
      InsertKeepsOrder(x, ys[1..]);
      forall e: Answer | e in multiset(rest) ensures e.confidence <= ys[0].confidence {
        if e != x {
          assert e in multiset(ys[1..]);
          var j :| 0 <= j < |ys[1..]| && ys[1..][j] == e;
          assert ys[j + 1] == e;
        }
      }
      NonIncreasingCons(ys[0], rest);
    }
  }

  /** `sorted(xs, key=lambda x: x["confidence"], reverse=True)`: a
      permutation of `xs` with the confidences non-increasing. */
  function SortByConfidence(xs: seq<Answer>): (r: seq<Answer>)
    ensures multiset(r) == multiset(xs)
    ensures NonIncreasing(r)
  {
    if xs == [] then []
    else
      var rest := SortByConfidence(xs[1..]);
      assert xs == [xs[0]] + xs[1..];
      InsertKeepsOrder(xs[0], rest);
      Insert(xs[0], rest)
  }

  lemma WithConfidenceCons(h: Answer, t: seq<Answer>, c: int)
    ensures WithConfidence([h] + t, c) == (if h.confidence == c then [h] else []) + WithConfidence(t, c)
  {
    var ht := [h] + t;
    assert ht[0] == h && ht[1..] == t;
  }

  /** Two adjacent entries of different confidence can trade places without
      changing the entries of any one confidence. */
  lemma WithConfidenceSwap(x: Answer, y: Answer, t: seq<Answer>, c: int)
    requires x.confidence != y.confidence
    ensures WithConfidence([x] + ([y] + t), c) == WithConfidence([y] + ([x] + t), c)
  {
    WithConfidenceCons(x, [y] + t, c);
    WithConfidenceCons(y, t, c);
    WithConfidenceCons(y, [x] + t, c);
    WithConfidenceCons(x, t, c);
  }

  /** Inserting keeps the relative order of the entries of any one
      confidence: `x` only passes entries of strictly higher confidence. */
  lemma {:induction false} InsertStable(x: Answer, ys: seq<Answer>, c: int)
    ensures WithConfidence(Insert(x, ys), c) == WithConfidence([x] + ys, c)
  {
    if ys != [] && ys[0].confidence > x.confidence {
      var y, t := ys[0], ys[1..];
      calc {
        WithConfidence(Insert(x, ys), c);
        WithConfidence([y] + Insert(x, t), c);
        { WithConfidenceCons(y, Insert(x, t), c); InsertStable(x, t, c); WithConfidenceCons(y, [x] + t, c); }
        WithConfidence([y] + ([x] + t), c);
        { WithConfidenceSwap(x, y, t, c); }
        WithConfidence([x] + ([y] + t), c);
        { assert [y] + t == ys; }
        WithConfidence([x] + ys, c);
      }
    }
  }

  /** The sort is stable: the entries of any one confidence come out in the
      order they went in. */
  lemma {:induction false} SortByConfidenceStable(xs: seq<Answer>, c: int)
    ensures WithConfidence(SortByConfidence(xs), c) == WithConfidence(xs, c)
  {
    if xs != [] {
      SortByConfidenceStable(xs[1..], c);
      InsertStable(xs[0], SortByConfidence(xs[1..]), c);
      var ys := [xs[0]] + SortByConfidence(xs[1..]);
      assert ys[0] == xs[0] && ys[1..] == SortByConfidence(xs[1..]);
    }
  }

  lemma {:induction false} WithConfidenceOfPrefix(xs: seq<Answer>, n: nat, c: int)
    requires n <= |xs|
    ensures WithConfidence(xs[..n], c) <= WithConfidence(xs, c)
  {
    if n > 0 {
      assert xs[..n][0] == xs[0] && xs[..n][1..] == xs[1..][..n - 1];
      WithConfidenceOfPrefix(xs[1..], n - 1, c);
    }
  }

  /**
   * The ranked list: the best three candidates by confidence, ties kept in
   * encounter order, or the single fallback entry when there is no
   * candidate. It always has one to three entries, in non-increasing
   * confidence.
   */
  function Rank(candidates: seq<Answer>): (r: seq<Answer>)
    ensures 1 <= |r| <= TopN
    ensures NonIncreasing(r)
  {
    var top := Take(SortByConfidence(candidates), TopN);
    if top == [] then [NoAnswerFound] else top
  }

  /** The fallback entry appears exactly when there is no candidate (no
      candidate carries the fallback's source label "-"). */
  lemma RankFallbackIff(candidates: seq<Answer>)
    requires forall i :: 0 <= i < |candidates| ==> candidates[i].source != NoAnswerFound.source
    ensures Rank(candidates) == [NoAnswerFound] <==> candidates == []
  {
    var sorted := SortByConfidence(candidates);
    if candidates != [] {
      assert sorted[0] in multiset(candidates);
      assert sorted[0] != NoAnswerFound;
    }
  }

  /** With candidates, the ranked list is the first min(3, n) entries of
      the sorted candidates. */
  lemma RankIsTopOfSorted(candidates: seq<Answer>)
    requires candidates != []
    ensures var r := Rank(candidates);
      var n := if |candidates| <= TopN then |candidates| else TopN;
      |r| == n && r == SortByConfidence(candidates)[..n]
  {
    var sorted := SortByConfidence(candidates);
    assert |sorted| == |multiset(sorted)| == |multiset(candidates)| == |candidates|;
  }

  /** With candidates, every ranked entry is one of them, and no candidate
      left out has a higher confidence than the last entry kept. */
  lemma RankKeepsBest(candidates: seq<Answer>)
    requires candidates != []
    ensures var r := Rank(candidates);
      && multiset(r) <= multiset(candidates)
      && forall e :: e in multiset(candidates) - multiset(r) ==> e.confidence <= r[|r| - 1].confidence
  {
    var sorted := SortByConfidence(candidates);
    var r := Rank(candidates);
    RankIsTopOfSorted(candidates);
    var n := |r|;
    var rest := sorted[n..];
    assert sorted == r + rest;
    assert multiset(candidates) == multiset(r) + multiset(rest);
    var last := r[n - 1];
    assert last == sorted[n - 1];
    forall e: Answer | e in multiset(rest) ensures e.confidence <= last.confidence {
      var j :| 0 <= j < |rest| && rest[j] == e;
      assert sorted[n + j] == e;
    }
  }

  /** Ties keep their encounter order: the ranked entries of any one
      confidence are the first entries of that confidence among the
      candidates, in order. */
  lemma RankKeepsEncounterOrder(candidates: seq<Answer>, c: int)
    requires candidates != []
    ensures WithConfidence(Rank(candidates), c) <= WithConfidence(candidates, c)
  {
    RankIsTopOfSorted(candidates);
    var n := |Rank(candidates)|;
    WithConfidenceOfPrefix(SortByConfidence(candidates), n, c);
    SortByConfidenceStable(candidates, c);
  }
}
