/**
 * The two search variants agree on scores: for the same well-formed
 * collection and k = 5, the deployed bounded scan and the production full
 * sort return the same descending sequence of scores. They may differ in
 * which text is returned among entries of equal score.
 */
module Agreement {
  import opened Scoring
  import opened DeploySearch
  import opened ProdSearch

  lemma SortDescAppend(ms: seq<Scored>, m: Scored)
    ensures SortDesc(ms + [m]) == InsertDesc(SortDesc(ms), m)
  {
    assert (ms + [m])[..|ms|] == ms;
  }

  /** Candidates holding the scores of a sorted `t` have the last of `t` as their minimum. */
  lemma MinOfSameScores(c: seq<Scored>, t: seq<Scored>)
    requires |c| > 0 && SortedDesc(t)
    requires multiset(Scores(c)) == multiset(Scores(t))
    ensures |t| > 0 && c[FirstMinIndex(c)].score == t[|t| - 1].score
  {
    var p := FirstMinIndex(c);
    assert |t| > 0 by {
      assert c[p].score == Scores(c)[p];
      assert c[p].score in multiset(Scores(t));
    }
    assert c[p].score in multiset(Scores(t)) by {
      assert Scores(c)[p] == c[p].score;
    }
    var a :| 0 <= a < |t| && Scores(t)[a] == c[p].score;
    assert Scores(t)[a] >= Scores(t)[|t| - 1] by {
      if a < |t| - 1 {
        assert Scores(t)[a] >= Scores(t)[|t| - 1];
      }
    }
    assert t[|t| - 1].score in multiset(Scores(c)) by {
      assert Scores(t)[|t| - 1] == t[|t| - 1].score;
    }
    var b :| 0 <= b < |c| && Scores(c)[b] == t[|t| - 1].score;
    assert c[p].score <= c[b].score;
  }

  /** The scores after an eviction: one score swapped for the new one. */
  lemma ScoresEvict(c: seq<Scored>, p: nat, m: Scored)
    requires p < |c|
    ensures multiset(Scores(c[..p] + c[p + 1..] + [m])) ==
              multiset(Scores(c)) - multiset{c[p].score} + multiset{m.score}
  {
    var s := Scores(c);
    assert Scores(c[..p] + c[p + 1..] + [m]) == s[..p] + s[p + 1..] + [m.score];
    EvictAt(s, p, m.score);
  }

  lemma ScoresSnoc(t: seq<Scored>, x: Scored)
    ensures multiset(Scores(t + [x])) == multiset(Scores(t)) + multiset{x.score}
  {
    ScoresConcat(t, [x]);
  }

  lemma ScoresInsert(t: seq<Scored>, m: Scored)
    ensures multiset(Scores(InsertDesc(t, m))) == multiset(Scores(t)) + multiset{m.score}
  {
    ScoresMultiset(InsertDesc(t, m), t + [m]);
    ScoresSnoc(t, m);
  }

  /** The scores of the sorted prefix after an insertion that lands within it. */
  lemma InsertScores(s: seq<Scored>, m: Scored, n: nat)
    requires 0 < n <= |s|
    ensures multiset(Scores(InsertDesc(s[..n - 1], m))) ==
              multiset(Scores(s[..n])) - multiset{s[n - 1].score} + multiset{m.score}
  {
    var init, x := s[..n - 1], s[n - 1];
    var a := multiset(Scores(init));
    ScoresInsert(init, m);
    assert s[..n] == init + [x];
    ScoresSnoc(init, x);
    var b := multiset(Scores(s[..n]));
    assert b == a + multiset{x.score};
    MultisetSwap(a, x.score, m.score);
    assert a + multiset{m.score} == b - multiset{x.score} + multiset{m.score};
  }

  lemma MultisetSwap<T>(a: multiset<T>, x: T, y: T)
    ensures a + multiset{y} == a + multiset{x} - multiset{x} + multiset{y}
  {
  }

  /**
   * One step of the scan over a full candidate list matches one insertion
   * into the sorted scan, as far as the first K scores go.
   */
  lemma OfferScores(c: seq<Scored>, s: seq<Scored>, m: Scored)
    requires |c| == K && K <= |s| && SortedDesc(s)
    requires multiset(Scores(c)) == multiset(Scores(s[..K]))
    ensures multiset(Scores(Offer(c, m))) == multiset(Scores(InsertDesc(s, m)[..K]))
  {
    var p := FirstMinIndex(c);
    MinOfSameScores(c, s[..K]);
    if m.score <= c[p].score {
      forall i | 0 <= i < K ensures s[i].score >= m.score {
        if i < K - 1 {
          assert Scores(s)[i] >= Scores(s)[K - 1];
        }
      }
      InsertDescKeepsPrefix(s, m, K);
    } else {
      InsertDescRaisesPrefix(s, m, K - 1);
      ScoresEvict(c, p, m);
      InsertScores(s, m, K);
    }
  }

  /**
   * The scan keeps the same scores as the first K entries of the full
   * stable sort of the scan.
   */
  lemma {:induction false} CandidateScores(ms: seq<Scored>)
    ensures multiset(Scores(Candidates(ms))) == multiset(Scores(SortDesc(ms)[..Min(|ms|, K)]))
    decreases |ms|
  {
    if |ms| <= K {
      assert SortDesc(ms)[..Min(|ms|, K)] == SortDesc(ms);
      ScoresMultiset(ms, SortDesc(ms));
    } else {
      var init, m := ms[..|ms| - 1], ms[|ms| - 1];
      assert ms == init + [m];
      CandidatesAppend(init, m);
      SortDescAppend(init, m);
      CandidateScores(init);
      OfferScores(Candidates(init), SortDesc(init), m);
    }
  }

  /** The deployed result's scores are those of the first K entries of the full sort. */
  lemma DeployScores(ms: seq<Scored>)
    ensures Scores(SortDesc(Candidates(ms))) == Scores(SortDesc(ms)[..Min(|ms|, K)])
  {
    var n := Min(|ms|, K);
    CandidateScores(ms);
    ScoresMultiset(SortDesc(Candidates(ms)), Candidates(ms));
    SortedPrefixIsTopK(SortDesc(ms), ms, n);
    NonIncreasingUnique(Scores(SortDesc(Candidates(ms))), Scores(SortDesc(ms)[..n]));
  }

  /** On a collection of searchable documents the production filter keeps every document. */
  lemma {:induction false} ValidScoredAll(query: Vector, docs: seq<Doc>, score: ScoreFn)
    requires forall i :: 0 <= i < |docs| ==> IsSearchable(docs[i])
    ensures forall i :: 0 <= i < |docs| ==> HasKeys(docs[i])
    ensures ValidScored(query, docs, score) == ScoreAll(query, docs, score)
    decreases |docs|
  {
    if docs != [] {
      var n := |docs| - 1;
      ValidScoredAll(query, docs[..n], score);
      ScoreAllAppend(query, docs, score, n);
      ValidScoredAppend(query, docs, score, n);
      assert docs[..n + 1] == docs;
    }
  }

  /**
   * For the same collection of searchable documents and k = 5, both searches
   * return the same sequence of scores.
   */
  lemma SameScores(query: Vector, docs: seq<Doc>, score: ScoreFn)
    requires forall i :: 0 <= i < |docs| ==> IsSearchable(docs[i])
    ensures forall i :: 0 <= i < |docs| ==> HasKeys(docs[i])
    ensures Scores(SortDesc(Candidates(ScoreAll(query, docs, score)))) == Scores(Rank(query, docs, DefaultK, score))
  {
    ValidScoredAll(query, docs, score);
    DeployScores(ScoreAll(query, docs, score));
  }
}
