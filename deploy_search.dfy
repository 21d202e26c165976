/**
 * `search_for_documents` of the deployed application: a single scan of the
 * collection that keeps at most K = 5 candidates, replacing the first
 * minimal candidate when a strictly better document arrives, followed by a
 * stable descending sort of the candidates.
 */
module DeploySearch {
  import opened Scoring
  import Context

  /** The number of documents the deployed search keeps. */
  const K: nat := 5

  /** The search either returns its ranked entries or stops on a missing key. */
  datatype Outcome = Found(matches: seq<Scored>) | KeyError(key: string)

  /** The key whose lookup fails first: `embedding` is read before `text`. */
  function MissingKey(d: Doc): string
  {
    if d.embedding.None? then "embedding" else "text"
  }

  /** Document `i` is the first lacking a key, and `key` is the lookup that fails on it. */
  predicate FirstMissingAt(docs: seq<Doc>, i: int, key: string)
  {
    && 0 <= i < |docs|
    && !HasKeys(docs[i])
    && key == MissingKey(docs[i])
    && forall j :: 0 <= j < i ==> HasKeys(docs[j])
  }

  /** `p` is the position of the first entry of minimal score in `c`. */
  predicate IsFirstMin(c: seq<Scored>, p: int)
  {
    && 0 <= p < |c|
    && (forall j :: 0 <= j < |c| ==> c[p].score <= c[j].score)
    && (forall j :: 0 <= j < p ==> c[j].score > c[p].score)
  }

  /**
   * Position of the item Python's `min(c, key=...)` returns: the scan only
   * moves on to an entry that is strictly smaller.
   */
  function FirstMinIndex(c: seq<Scored>): (p: nat)
    requires |c| > 0
    ensures IsFirstMin(c, p)
  {
    if |c| == 1 then 0
    else
      var q := FirstMinIndex(c[..|c| - 1]);
      if c[|c| - 1].score < c[q].score then |c| - 1 else q
  }

  /** Python's `c.index(x)`: the first position holding a value equal to `x`. */
  function IndexOf(c: seq<Scored>, x: Scored): (p: nat)
    requires x in c
    ensures p < |c| && c[p] == x
    ensures forall j :: 0 <= j < p ==> c[j] != x
  {
    if c[0] == x then 0 else 1 + IndexOf(c[1..], x)
  }

  /** On the first minimal item, `index` finds that same position. */
  lemma IndexOfFirstMin(c: seq<Scored>)
    requires |c| > 0
    ensures IndexOf(c, c[FirstMinIndex(c)]) == FirstMinIndex(c)
  {
  }

  /**
   * One step of the scan: append while fewer than K candidates are held;
   * otherwise replace the first minimal candidate, but only by a strictly
   * higher score.
   */
  function Offer(c: seq<Scored>, m: Scored): (r: seq<Scored>)
    ensures |c| < K ==> r == c + [m]
    ensures |c| >= K ==> |r| == |c|
    ensures |c| >= K && m.score <= c[FirstMinIndex(c)].score ==> r == c
    ensures |c| >= K && m.score > c[FirstMinIndex(c)].score ==>
              r == c[..FirstMinIndex(c)] + c[FirstMinIndex(c) + 1..] + [m]
  {
    if |c| < K then c + [m]
    else
      var minItem := c[FirstMinIndex(c)];
      if m.score > minItem.score then
        var p := IndexOf(c, minItem);
        IndexOfFirstMin(c);
        c[..p] + c[p + 1..] + [m]
      else c
  }

  /** The candidate list after scanning `ms` in order. */
  function Candidates(ms: seq<Scored>): (c: seq<Scored>)
    ensures |c| == Min(|ms|, K)
    ensures |ms| <= K ==> c == ms
    ensures multiset(c) <= multiset(ms)
  {
    if ms == [] then []
    else
      var init, m := ms[..|ms| - 1], ms[|ms| - 1];
      assert ms == init + [m];
      var c := Candidates(init);
      OfferMultiset(c, m);
      Offer(c, m)
  }

  /** A step keeps the old candidates and the new entry, less at most the evicted one. */
  lemma OfferMultiset(c: seq<Scored>, m: Scored)
    ensures multiset(Offer(c, m)) <= multiset(c) + multiset{m}
    ensures |c| >= K && m.score > c[FirstMinIndex(c)].score ==>
              multiset(Offer(c, m)) == multiset(c) - multiset{c[FirstMinIndex(c)]} + multiset{m}
  {
    if |c| >= K && m.score > c[FirstMinIndex(c)].score {
      var p := FirstMinIndex(c);
      IndexOfFirstMin(c);
      assert Offer(c, m) == c[..p] + c[p + 1..] + [m];
      EvictAt(c, p, m);
    } else {
      assert multiset(Offer(c, m)) <= multiset(c) + multiset{m} by {
        if |c| < K {
          assert Offer(c, m) == c + [m];
        } else {
          assert Offer(c, m) == c;
        }
      }
    }
  }

  /** Removing the entry at `p` and appending `m` swaps one element of the multiset. */
  lemma EvictAt<T>(c: seq<T>, p: nat, m: T)
    requires p < |c|
    ensures multiset(c[..p] + c[p + 1..] + [m]) == multiset(c) - multiset{c[p]} + multiset{m}
  {
    var front, back := c[..p], c[p + 1..];
    assert c == front + [c[p]] + back;
    assert multiset(c) == multiset(front) + multiset{c[p]} + multiset(back);
  }

  /**
   * The scanned entries `Candidates` dropped all score no higher than any
   * entry it kept.
   */
  lemma {:induction false} CandidatesKeepBest(ms: seq<Scored>)
    ensures NoneDroppedHigher(multiset(ms), Candidates(ms))
    decreases |ms|
  {
    if ms != [] {
      var init, m := ms[..|ms| - 1], ms[|ms| - 1];
      assert ms == init + [m];
      assert multiset(ms) == multiset(init) + multiset{m};
      CandidatesKeepBest(init);
      OfferKeepsBest(multiset(init), Candidates(init), m);
    }
  }

  lemma CandidatesAppend(ms: seq<Scored>, m: Scored)
    ensures Candidates(ms + [m]) == Offer(Candidates(ms), m)
  {
    assert (ms + [m])[..|ms|] == ms;
  }

  /** One step of the scan preserves "everything dropped scores no higher than everything kept". */
  lemma OfferKeepsBest(scanned: multiset<Scored>, c: seq<Scored>, m: Scored)
    requires multiset(c) <= scanned
    requires |c| < K ==> multiset(c) == scanned
    requires NoneDroppedHigher(scanned, c)
    ensures NoneDroppedHigher(scanned + multiset{m}, Offer(c, m))
  {
    if |c| < K {
      AppendKeepsBest(scanned, c, m);
    } else if m.score > c[FirstMinIndex(c)].score {
      var p := FirstMinIndex(c);
      assert Offer(c, m) == c[..p] + c[p + 1..] + [m];
      EvictKeepsBest(scanned, c, p, m);
    } else {
      IgnoreKeepsBest(scanned, c, m);
    }
  }

  /** A list holding the whole scan takes the new entry too, so nothing is dropped. */
  lemma AppendKeepsBest(scanned: multiset<Scored>, c: seq<Scored>, m: Scored)
    requires |c| < K && multiset(c) == scanned
    ensures NoneDroppedHigher(scanned + multiset{m}, Offer(c, m))
  {
    var r := Offer(c, m);
    assert multiset(r) == multiset(c) + multiset{m};
    assert (scanned + multiset{m}) - multiset(r) == multiset{};
  }

  /** Evicting a minimal entry for a strictly better one. */
  lemma EvictKeepsBest(scanned: multiset<Scored>, c: seq<Scored>, p: nat, m: Scored)
    requires p < |c| && forall j :: 0 <= j < |c| ==> c[p].score <= c[j].score
    requires m.score > c[p].score
    requires NoneDroppedHigher(scanned, c)
    ensures NoneDroppedHigher(scanned + multiset{m}, c[..p] + c[p + 1..] + [m])
  {
    var r := c[..p] + c[p + 1..] + [m];
    EvictAt(c, p, m);
    forall x, y | x in (scanned + multiset{m}) - multiset(r) && y in r ensures x.score <= y.score {
      DropEvicted(scanned, multiset(c), c[p], m, x);
      InEvicted(c, p, m, y);
      if x != c[p] && y == m {
        assert x.score <= c[p].score;
      }
    }
  }

  /** A full list that ignores an entry no better than its minimum. */
  lemma IgnoreKeepsBest(scanned: multiset<Scored>, c: seq<Scored>, m: Scored)
    requires |c| >= K && m.score <= c[FirstMinIndex(c)].score
    requires NoneDroppedHigher(scanned, c)
    ensures NoneDroppedHigher(scanned + multiset{m}, Offer(c, m))
  {
    forall x, y | x in (scanned + multiset{m}) - multiset(c) && y in c ensures x.score <= y.score {
      DropAppended(scanned, multiset(c), m, x);
    }
  }

  lemma InEvicted<T>(c: seq<T>, p: nat, m: T, y: T)
    requires p < |c| && y in c[..p] + c[p + 1..] + [m]
    ensures y in c || y == m
  {
    var i :| 0 <= i < |c[..p] + c[p + 1..] + [m]| && (c[..p] + c[p + 1..] + [m])[i] == y;
    if i < p {
      assert c[i] == y;
    } else if i < |c| - 1 {
      assert c[i + 1] == y;
    }
  }

  lemma DropAppended<T>(scanned: multiset<T>, kept: multiset<T>, m: T, x: T)
    requires x in (scanned + multiset{m}) - kept
    ensures x in scanned - kept || x == m
  {
  }

  lemma DropEvicted<T>(scanned: multiset<T>, kept: multiset<T>, e: T, m: T, x: T)
    requires e in kept
    requires x in (scanned + multiset{m}) - (kept - multiset{e} + multiset{m})
    ensures x in scanned - kept || x == e
  {
  }

  /**
   * The sorted candidates: at most K entries of the scan, in descending order,
   * each drawn from the scan, and none of the dropped entries scoring higher.
   */
  lemma RankedCandidates(ms: seq<Scored>)
    ensures IsTopK(ms, SortDesc(Candidates(ms)), K)
  {
    var c := Candidates(ms);
    CandidatesKeepBest(ms);
    assert multiset(SortDesc(c)) == multiset(c);
    forall y | y in SortDesc(c) ensures y in c {
      assert y in multiset(SortDesc(c));
    }
  }

  /** The scan of a collection whose documents all have both keys, in scan order. */
  function ScoreAll(query: Vector, docs: seq<Doc>, score: ScoreFn): (ms: seq<Scored>)
    requires forall i :: 0 <= i < |docs| ==> HasKeys(docs[i])
    ensures |ms| == |docs|
  {
    if docs == [] then []
    else ScoreAll(query, docs[..|docs| - 1], score) + [ScoreDoc(query, docs[|docs| - 1], score)]
  }

  /** The scan pairs every document, in order, with its own score. */
  lemma {:induction false} ScoreAllAt(query: Vector, docs: seq<Doc>, score: ScoreFn)
    requires forall i :: 0 <= i < |docs| ==> HasKeys(docs[i])
    ensures forall i :: 0 <= i < |docs| ==> ScoreAll(query, docs, score)[i] == ScoreDoc(query, docs[i], score)
    decreases |docs|
  {
    if docs != [] {
      var init := docs[..|docs| - 1];
      ScoreAllAt(query, init, score);
      assert forall i :: 0 <= i < |init| ==> init[i] == docs[i];
    }
  }

  /** One more document with both keys extends the scan by its entry. */
  lemma ScoreAllAppend(query: Vector, docs: seq<Doc>, score: ScoreFn, i: nat)
    requires i < |docs| && HasKeys(docs[i])
    requires forall j :: 0 <= j < i ==> HasKeys(docs[j])
    ensures forall j :: 0 <= j < i + 1 ==> HasKeys(docs[j])
    ensures ScoreAll(query, docs[..i + 1], score) == ScoreAll(query, docs[..i], score) + [ScoreDoc(query, docs[i], score)]
  {
    assert docs[..i + 1][..i] == docs[..i];
  }

  /** Every returned entry is some scanned document's text paired with that document's own score. */
  lemma MatchesFromScan(query: Vector, docs: seq<Doc>, score: ScoreFn)
    requires forall i :: 0 <= i < |docs| ==> HasKeys(docs[i])
    ensures forall y :: y in SortDesc(Candidates(ScoreAll(query, docs, score))) ==>
              exists i :: 0 <= i < |docs| && y == ScoreDoc(query, docs[i], score)
  {
    var ms := ScoreAll(query, docs, score);
    var r := SortDesc(Candidates(ms));
    ScoreAllAt(query, docs, score);
    forall y | y in r
      ensures exists i :: 0 <= i < |docs| && y == ScoreDoc(query, docs[i], score)
    {
      assert y in multiset(r);
      assert multiset(r) <= multiset(ms);
      assert y in ms;
      var i :| 0 <= i < |ms| && ms[i] == y;
      assert y == ScoreDoc(query, docs[i], score);
    }
  }

  /**
   * The body of the scan loop, updating the candidate list in place: the
   * candidates of the scan so far become those of the scan extended by `entry`.
   */
  method Consider(ghost scanned: seq<Scored>, candidates: seq<Scored>, entry: Scored) returns (next: seq<Scored>)
    requires candidates == Candidates(scanned)
    ensures next == Candidates(scanned + [entry])
  {
    CandidatesAppend(scanned, entry);
    next := candidates;
    if |next| < K {
      next := next + [entry];
    } else {
      var minItem := next[FirstMinIndex(next)];
      if entry.score > minItem.score {
        var p := IndexOf(next, minItem);
        IndexOfFirstMin(next);
        next := next[..p] + next[p + 1..] + [entry];
      }
    }
  }

  /**
   * The deployed `search_for_documents`: the top K entries of the scan in
   * descending order of score, or the key error of the first document that
   * lacks `embedding` or `text`.
   */
  method SearchForDocuments(query: Vector, docs: seq<Doc>, score: ScoreFn) returns (r: Outcome)
    ensures r.Found? <==> forall i :: 0 <= i < |docs| ==> HasKeys(docs[i])
    ensures r.KeyError? ==> exists i :: FirstMissingAt(docs, i, r.key)
    ensures r.Found? ==> r.matches == SortDesc(Candidates(ScoreAll(query, docs, score)))
    ensures r.Found? ==> IsTopK(ScoreAll(query, docs, score), r.matches, K)
  {
    var candidates: seq<Scored> := [];
    ghost var scanned: seq<Scored> := [];
    var i := 0;
    while i < |docs|
      invariant 0 <= i <= |docs|
      invariant forall j :: 0 <= j < i ==> HasKeys(docs[j])
      invariant scanned == ScoreAll(query, docs[..i], score)
      invariant candidates == Candidates(scanned)
    {
      var doc := docs[i];
      if doc.embedding.None? {
        assert FirstMissingAt(docs, i, "embedding");
        return KeyError("embedding");
      }
      if doc.text.None? {
        assert FirstMissingAt(docs, i, "text");
        return KeyError("text");
      }
      var similarity := score(query, doc.embedding.value);
      var entry := Scored(doc.text.value, similarity);
      assert entry == ScoreDoc(query, docs[i], score);
      ScoreAllAppend(query, docs, score, i);
      candidates := Consider(scanned, candidates, entry);
      scanned := scanned + [entry];
      i := i + 1;
    }
    assert docs[..i] == docs;
    RankedCandidates(scanned);
    r := Found(SortDesc(candidates));
  }

  /**
   * The context of the deployed answer: the texts of the returned entries,
   * in result order, joined by the separator.
   */
  function MatchContext(matches: seq<Scored>): (ctx: string)
    ensures Context.Layout(Texts(matches), Context.Separator, ctx)
  {
    Context.BuildContext(Texts(matches))
  }
}
