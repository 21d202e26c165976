/**
 * Shared vocabulary of both search variants: the documents a collection scan
 * yields, a text paired with its similarity score, and the stable descending
 * sort both variants apply (Python's `list.sort(key=..., reverse=True)`).
 *
 * The similarity itself (`1 - cosine(query, embedding)`, computed in floating
 * point by scipy) is an oracle `score` into the totally ordered reals.
 */
module Scoring {

  datatype Option<T> = None | Some(value: T)

  /** An embedding vector as stored in the collection. */
  type Vector = seq<real>

  /** The similarity oracle: query embedding, document embedding, score. */
  type ScoreFn = (Vector, Vector) -> real

  /** A document as the scan projects it: either key may be missing. */
  datatype Doc = Doc(text: Option<string>, embedding: Option<Vector>)

  /** A text paired with its similarity to the query. */
  datatype Scored = Scored(text: string, score: real)

  function Min(a: int, b: int): int { if a <= b then a else b }

  predicate HasKeys(d: Doc) { d.text.Some? && d.embedding.Some? }

  /** The entry the scan builds for one document. */
  function ScoreDoc(query: Vector, d: Doc, score: ScoreFn): Scored
    requires HasKeys(d)
  {
    Scored(d.text.value, score(query, d.embedding.value))
  }

  function Scores(s: seq<Scored>): (r: seq<real>)
    ensures |r| == |s| && forall i :: 0 <= i < |s| ==> r[i] == s[i].score
  {
    seq(|s|, i requires 0 <= i < |s| => s[i].score)
  }

  function Texts(s: seq<Scored>): (r: seq<string>)
    ensures |r| == |s| && forall i :: 0 <= i < |s| ==> r[i] == s[i].text
  {
    seq(|s|, i requires 0 <= i < |s| => s[i].text)
  }

  predicate NonIncreasing(xs: seq<real>)
  {
    forall i, j :: 0 <= i < j < |xs| ==> xs[i] >= xs[j]
  }

  /** Entries in non-increasing order of score. */
  predicate SortedDesc(s: seq<Scored>)
  {
    NonIncreasing(Scores(s))
  }

  /**
   * `r` is a best-`k` selection from `ms` in descending order: as many
   * entries as `k` allows, each taken from `ms`, and no entry left out
   * scoring higher than one kept.
   */
  predicate IsTopK(ms: seq<Scored>, r: seq<Scored>, k: nat)
  {
    && |r| == Min(|ms|, k)
    && SortedDesc(r)
    && multiset(r) <= multiset(ms)
    && NoneDroppedHigher(multiset(ms), r)
  }

  /** No entry of `pool` left out of `kept` scores higher than an entry of `kept`. */
  predicate NoneDroppedHigher(pool: multiset<Scored>, kept: seq<Scored>)
  {
    forall x, y :: x in pool - multiset(kept) && y in kept ==> x.score <= y.score
  }

  /** The entries of `s` whose score is `v`, in the order of `s`. */
  function WithScore(s: seq<Scored>, v: real): seq<Scored>
  {
    if s == [] then []
    else WithScore(s[..|s| - 1], v) + (if s[|s| - 1].score == v then [s[|s| - 1]] else [])
  }

  /**
   * Places `m` after every entry of `t` that scores at least as high: where a
   * stable descending sort puts the element that came last.
   */
  function InsertDesc(t: seq<Scored>, m: Scored): (r: seq<Scored>)
    ensures |r| == |t| + 1
    ensures multiset(r) == multiset(t) + multiset{m}
  {
    if t == [] then [m]
    else if t[0].score >= m.score then
      assert t == [t[0]] + t[1..];
      [t[0]] + InsertDesc(t[1..], m)
    else [m] + t
  }

  /** Stable sort by descending score (Python's `sort(key=..., reverse=True)`). */
  function SortDesc(s: seq<Scored>): (r: seq<Scored>)
    ensures |r| == |s|
    ensures multiset(r) == multiset(s)
    ensures SortedDesc(r)
  {
    if s == [] then []
    else
      assert s == s[..|s| - 1] + [s[|s| - 1]];
      var t := SortDesc(s[..|s| - 1]);
      InsertDescSorted(t, s[|s| - 1]);
      InsertDesc(t, s[|s| - 1])
  }

  lemma ScoresConcat(a: seq<Scored>, b: seq<Scored>)
    ensures Scores(a + b) == Scores(a) + Scores(b)
  {
  }

  lemma {:induction false} InsertDescSorted(t: seq<Scored>, m: Scored)
    requires SortedDesc(t)
    ensures SortedDesc(InsertDesc(t, m))
    decreases |t|
  {
    if t != [] && t[0].score >= m.score {
      SortedTail(t);
      InsertDescSorted(t[1..], m);
      InsertDescBounded(t[1..], m, t[0].score);
      ConsSorted(t[0], InsertDesc(t[1..], m));
    } else if t != [] {
      SortedTail(t);
      ConsSorted(m, t);
    }
  }

  /** A sequence headed by an entry scoring at least as high as all the rest is sorted when the rest is. */
  lemma ConsSorted(h: Scored, r: seq<Scored>)
    requires SortedDesc(r)
    requires forall i :: 0 <= i < |r| ==> r[i].score <= h.score
    ensures SortedDesc([h] + r)
  {
    var s := [h] + r;
    forall i, j | 0 <= i < j < |s| ensures Scores(s)[i] >= Scores(s)[j] {
      if i > 0 {
        assert Scores(r)[i - 1] >= Scores(r)[j - 1];
      }
    }
  }

  /** An insertion adds no score above a bound that `t` and `m` respect. */
  lemma InsertDescBounded(t: seq<Scored>, m: Scored, b: real)
    requires forall i :: 0 <= i < |t| ==> t[i].score <= b
    requires m.score <= b
    ensures forall i :: 0 <= i < |InsertDesc(t, m)| ==> InsertDesc(t, m)[i].score <= b
  {
    var r := InsertDesc(t, m);
    forall i | 0 <= i < |r| ensures r[i].score <= b {
      assert r[i] in multiset(r);
      if r[i] != m {
        assert r[i] in multiset(t);
      }
    }
  }

  lemma {:induction false} WithScoreConcat(a: seq<Scored>, b: seq<Scored>, v: real)
    ensures WithScore(a + b, v) == WithScore(a, v) + WithScore(b, v)
    decreases |b|
  {
    if b != [] {
      var b' := b[..|b| - 1];
      assert (a + b)[..|a + b| - 1] == a + b';
      WithScoreConcat(a, b', v);
    } else {
      assert a + b == a;
    }
  }

  lemma {:induction false} WithScoreNone(s: seq<Scored>, v: real)
    requires forall i :: 0 <= i < |s| ==> s[i].score != v
    ensures WithScore(s, v) == []
    decreases |s|
  {
    if s != [] {
      WithScoreNone(s[..|s| - 1], v);
    }
  }

  lemma SortedTail(t: seq<Scored>)
    requires t != [] && SortedDesc(t)
    ensures SortedDesc(t[1..])
    ensures forall i :: 0 <= i < |t| ==> t[0].score >= t[i].score
  {
    forall i, j | 0 <= i < j < |t| - 1 ensures Scores(t[1..])[i] >= Scores(t[1..])[j] {
      assert Scores(t)[i + 1] >= Scores(t)[j + 1];
    }
    forall i | 0 < i < |t| ensures t[0].score >= t[i].score {
      assert Scores(t)[0] >= Scores(t)[i];
    }
  }

  /** Inserting into a sorted sequence puts `m` after every entry with its score. */
  lemma {:induction false} InsertDescStable(t: seq<Scored>, m: Scored, v: real)
    requires SortedDesc(t)
    ensures WithScore(InsertDesc(t, m), v) == WithScore(t, v) + (if m.score == v then [m] else [])
    decreases |t|
  {
    if t == [] {
      assert InsertDesc(t, m) == [] + [m];
    } else if t[0].score >= m.score {
      var r := InsertDesc(t[1..], m);
      assert InsertDesc(t, m) == [t[0]] + r;
      SortedTail(t);
      InsertDescStable(t[1..], m, v);
      InsertDescSkipStable(t, r, m, v);
    } else {
      InsertDescFrontStable(t, m, v);
    }
  }

  lemma InsertDescSkipStable(t: seq<Scored>, r: seq<Scored>, m: Scored, v: real)
    requires t != []
    requires WithScore(r, v) == WithScore(t[1..], v) + (if m.score == v then [m] else [])
    ensures WithScore([t[0]] + r, v) == WithScore(t, v) + (if m.score == v then [m] else [])
  {
    WithScoreConcat([t[0]], r, v);
    assert t == [t[0]] + t[1..];
    WithScoreConcat([t[0]], t[1..], v);
  }

  lemma InsertDescFrontStable(t: seq<Scored>, m: Scored, v: real)
    requires SortedDesc(t) && t != [] && t[0].score < m.score
    ensures WithScore(InsertDesc(t, m), v) == WithScore(t, v) + (if m.score == v then [m] else [])
  {
    assert InsertDesc(t, m) == [m] + t;
    SortedTail(t);
    WithScoreConcat([m], t, v);
    assert WithScore([m], v) == WithScore([], v) + (if m.score == v then [m] else []);
    if m.score == v {
      WithScoreNone(t, v);
    }
  }

  /** The sort is stable: entries of equal score keep their relative order. */
  lemma {:induction false} SortDescStable(s: seq<Scored>, v: real)
    ensures WithScore(SortDesc(s), v) == WithScore(s, v)
    decreases |s|
  {
    if s != [] {
      var init, last := s[..|s| - 1], s[|s| - 1];
      SortDescStable(init, v);
      InsertDescStable(SortDesc(init), last, v);
    }
  }

  lemma SeqRemove<T>(b: seq<T>, i: nat)
    requires i < |b|
    ensures multiset(b[..i] + b[i + 1..]) == multiset(b) - multiset{b[i]}
  {
    assert b == b[..i] + [b[i]] + b[i + 1..];
  }

  /** Removing one entry removes its score from the multiset of scores. */
  lemma ScoresRemove(b: seq<Scored>, i: nat)
    requires i < |b|
    ensures b[i].score in multiset(Scores(b))
    ensures multiset(Scores(b[..i] + b[i + 1..])) == multiset(Scores(b)) - multiset{b[i].score}
  {
    var s := Scores(b);
    assert s[i] == b[i].score;
    assert Scores(b[..i] + b[i + 1..]) == s[..i] + s[i + 1..];
    SeqRemove(s, i);
  }

  lemma ScoresCons(a: seq<Scored>)
    requires a != []
    ensures multiset(Scores(a)) == multiset{a[0].score} + multiset(Scores(a[1..]))
  {
    assert Scores(a) == [a[0].score] + Scores(a[1..]);
  }

  /** Matching the first entry of `a` with entry `i` of `b` leaves equal remainders. */
  lemma PermTail<T>(a: seq<T>, b: seq<T>, i: nat)
    requires multiset(a) == multiset(b) && a != [] && i < |b| && b[i] == a[0]
    ensures multiset(a[1..]) == multiset(b[..i] + b[i + 1..])
  {
    SeqRemove(b, i);
    assert a == [a[0]] + a[1..];
  }

  lemma MultisetCancel<T>(sa: multiset<T>, sb: multiset<T>, r: multiset<T>, x: T)
    requires sa == multiset{x} + r && r == sb - multiset{x} && x in sb
    ensures sa == sb
  {
  }

  /** Equal multisets of entries have equal multisets of scores. */
  lemma {:induction false} ScoresMultiset(a: seq<Scored>, b: seq<Scored>)
    requires multiset(a) == multiset(b)
    ensures multiset(Scores(a)) == multiset(Scores(b))
    decreases |a|
  {
    if a == [] {
      assert |b| == |multiset(b)| == 0;
    } else {
      assert a[0] in multiset(b) by { assert a[0] in multiset(a); }
      var i :| 0 <= i < |b| && b[i] == a[0];
      PermTail(a, b, i);
      ScoresMultiset(a[1..], b[..i] + b[i + 1..]);
      ScoresCons(a);
      ScoresRemove(b, i);
      MultisetCancel(multiset(Scores(a)), multiset(Scores(b)), multiset(Scores(a[1..])), a[0].score);
    }
  }

  lemma NonIncreasingTail(a: seq<real>)
    requires a != [] && NonIncreasing(a)
    ensures NonIncreasing(a[1..])
  {
    forall i, j | 0 <= i < j < |a| - 1 ensures a[1..][i] >= a[1..][j] {
      assert a[i + 1] >= a[j + 1];
    }
  }

  /** Two non-increasing sequences holding the same values are equal. */
  lemma {:induction false} NonIncreasingUnique(a: seq<real>, b: seq<real>)
    requires NonIncreasing(a) && NonIncreasing(b)
    requires multiset(a) == multiset(b)
    ensures a == b
    decreases |a|
  {
    assert |a| == |multiset(a)| == |multiset(b)| == |b|;
    if a != [] {
      assert b[0] in multiset(a);
      assert a[0] in multiset(b);
      assert a[0] == b[0];
      assert a == [a[0]] + a[1..];
      assert b == [b[0]] + b[1..];
      assert multiset(a) == multiset{a[0]} + multiset(a[1..]);
      assert multiset(b) == multiset{b[0]} + multiset(b[1..]);
      assert multiset(a[1..]) == multiset(a) - multiset{a[0]};
      assert multiset(b[1..]) == multiset(b) - multiset{b[0]};
      NonIncreasingTail(a);
      NonIncreasingTail(b);
      NonIncreasingUnique(a[1..], b[1..]);
    }
  }

  /** An insertion leaves alone a prefix that scores at least as high as `m`. */
  lemma {:induction false} InsertDescKeepsPrefix(t: seq<Scored>, m: Scored, j: nat)
    requires j <= |t|
    requires forall i :: 0 <= i < j ==> t[i].score >= m.score
    ensures InsertDesc(t, m)[..j] == t[..j]
    decreases j
  {
    if j > 0 {
      InsertDescKeepsPrefix(t[1..], m, j - 1);
    }
  }

  /** An insertion that lands within the first `j + 1` places. */
  lemma {:induction false} InsertDescRaisesPrefix(t: seq<Scored>, m: Scored, j: nat)
    requires j < |t|
    requires m.score > t[j].score
    ensures InsertDesc(t, m)[..j + 1] == InsertDesc(t[..j], m)
    decreases j
  {
    if j > 0 && t[0].score >= m.score {
      InsertDescRaisesPrefix(t[1..], m, j - 1);
      assert t[..j][1..] == t[1..][..j - 1];
    }
  }
}
