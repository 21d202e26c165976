/**
 * `search_for_documents` of the production application: score every
 * well-formed document, sort all of them by descending score (stable) and
 * return the texts of the first `k`; and the user-question count of the
 * sidebar statistics.
 */
module ProdSearch {
  import opened Scoring

  /** The default number of texts returned. */
  const DefaultK: int := 5

  /**
   * The filter of the scan: a `text` key and an `embedding` that is present
   * and truthy (a non-empty list).
   */
  predicate IsSearchable(d: Doc)
  {
    d.embedding.Some? && |d.embedding.value| > 0 && d.text.Some?
  }

  /** `(score, text)` for every searchable document, in scan order. */
  function ValidScored(query: Vector, docs: seq<Doc>, score: ScoreFn): (r: seq<Scored>)
    ensures |r| <= |docs|
  {
    if docs == [] then []
    else
      var d := docs[|docs| - 1];
      var r := ValidScored(query, docs[..|docs| - 1], score);
      if IsSearchable(d) then r + [ScoreDoc(query, d, score)] else r
  }

  /**
   * The scan keeps exactly the searchable documents: each one's entry is
   * collected, every collected entry comes from one, and nothing is
   * collected when none is searchable.
   */
  lemma {:induction false} ValidScoredContents(query: Vector, docs: seq<Doc>, score: ScoreFn)
    ensures ValidScored(query, docs, score) == [] <==> forall i :: 0 <= i < |docs| ==> !IsSearchable(docs[i])
    ensures forall i :: 0 <= i < |docs| && IsSearchable(docs[i]) ==> ScoreDoc(query, docs[i], score) in ValidScored(query, docs, score)
    ensures forall y :: y in ValidScored(query, docs, score) ==>
              exists i :: 0 <= i < |docs| && IsSearchable(docs[i]) && y == ScoreDoc(query, docs[i], score)
    decreases |docs|
  {
    if docs != [] {
      var init := docs[..|docs| - 1];
      ValidScoredContents(query, init, score);
      assert forall i :: 0 <= i < |init| ==> init[i] == docs[i];
    }
  }

  lemma ValidScoredAppend(query: Vector, docs: seq<Doc>, score: ScoreFn, i: nat)
    requires i < |docs|
    ensures ValidScored(query, docs[..i + 1], score) ==
              ValidScored(query, docs[..i], score) +
              (if IsSearchable(docs[i]) then [ScoreDoc(query, docs[i], score)] else [])
  {
    assert docs[..i + 1][..i] == docs[..i];
  }

  /** The slice taken by the model: the first `k` entries, none when `k <= 0`. */
  function TakeTop(s: seq<Scored>, k: int): (r: seq<Scored>)
    ensures r <= s
    ensures |r| == if k <= 0 then 0 else Min(|s|, k)
  {
    if k <= 0 then [] else s[..Min(|s|, k)]
  }

  /**
   * Python's `s[:k]` as written: a negative `k` counts from the end, so
   * `s[:-1]` is all entries but the last.
   */
  function PySlice(s: seq<Scored>, k: int): (r: seq<Scored>)
    ensures r <= s
    ensures |r| == if k >= 0 then Min(|s|, k) else if |s| + k >= 0 then |s| + k else 0
  {
    if k >= 0 then s[..Min(|s|, k)]
    else if |s| + k >= 0 then s[..|s| + k]
    else []
  }

  /** For every `k >= 0` the two slices agree. */
  lemma PySliceAgrees(s: seq<Scored>, k: int)
    requires k >= 0
    ensures PySlice(s, k) == TakeTop(s, k)
  {
  }

  /** The ranked entries the search returns the texts of. */
  function Rank(query: Vector, docs: seq<Doc>, k: int, score: ScoreFn): seq<Scored>
  {
    TakeTop(SortDesc(ValidScored(query, docs, score)), k)
  }

  /** The ranked entries with the slice as written. */
  function RankAsWritten(query: Vector, docs: seq<Doc>, k: int, score: ScoreFn): seq<Scored>
  {
    PySlice(SortDesc(ValidScored(query, docs, score)), k)
  }

  /** A negative `k` returns texts as written, none with the intended slice. */
  lemma NegativeKReturnsTexts(query: Vector, e: Vector, score: ScoreFn)
    requires |e| > 0
    ensures |RankAsWritten(query, [Doc(Some("a"), Some(e)), Doc(Some("b"), Some(e))], -1, score)| == 1
    ensures Rank(query, [Doc(Some("a"), Some(e)), Doc(Some("b"), Some(e))], -1, score) == []
  {
    var docs := [Doc(Some("a"), Some(e)), Doc(Some("b"), Some(e))];
    assert IsSearchable(docs[0]) && IsSearchable(docs[1]);
    assert |ValidScored(query, docs, score)| == 2 by {
      assert docs[..1][..0] == [];
      assert docs[..|docs| - 1] == docs[..1];
    }
  }

  /** The result has `min(V, k)` entries, `V` the number of searchable documents. */
  lemma RankLength(query: Vector, docs: seq<Doc>, k: int, score: ScoreFn)
    ensures |Rank(query, docs, k, score)| == if k <= 0 then 0 else Min(|ValidScored(query, docs, score)|, k)
    ensures (k <= 0 || forall i :: 0 <= i < |docs| ==> !IsSearchable(docs[i])) ==> Rank(query, docs, k, score) == []
  {
    ValidScoredContents(query, docs, score);
  }

  /**
   * For `k >= 0` the result is a best-`k` selection of the searchable
   * documents in descending order of score.
   */
  lemma RankIsTopK(query: Vector, docs: seq<Doc>, k: int, score: ScoreFn)
    requires k >= 0
    ensures IsTopK(ValidScored(query, docs, score), Rank(query, docs, k, score), k)
  {
    var v := ValidScored(query, docs, score);
    SortedPrefixIsTopK(SortDesc(v), v, Min(|v|, k));
  }

  /** A prefix of a sorted arrangement of `ms` is a best selection of `ms`. */
  lemma SortedPrefixIsTopK(s: seq<Scored>, ms: seq<Scored>, n: nat)
    requires SortedDesc(s) && multiset(s) == multiset(ms)
    requires n <= |s|
    ensures IsTopK(ms, s[..n], n)
  {
    assert |s| == |ms| by {
      assert |multiset(s)| == |multiset(ms)|;
    }
    assert s == s[..n] + s[n..];
    assert multiset(s) == multiset(s[..n]) + multiset(s[n..]);
    forall i, j | 0 <= i < j < n ensures Scores(s[..n])[i] >= Scores(s[..n])[j] {
      assert Scores(s)[i] >= Scores(s)[j];
    }
    forall x, y | x in multiset(ms) - multiset(s[..n]) && y in s[..n] ensures x.score <= y.score {
      assert x in multiset(s[n..]);
      var a :| 0 <= a < |s[n..]| && s[n..][a] == x;
      var b :| 0 <= b < n && s[..n][b] == y;
      assert Scores(s)[b] >= Scores(s)[n + a];
    }
  }

  /**
   * Equal scores keep their scan order: the entries of any one score that
   * the search returns are the first ones of that score in the scan.
   */
  lemma RankStable(query: Vector, docs: seq<Doc>, k: int, score: ScoreFn, v: real)
    ensures WithScore(Rank(query, docs, k, score), v) <= WithScore(ValidScored(query, docs, score), v)
  {
    var s := SortDesc(ValidScored(query, docs, score));
    var r := Rank(query, docs, k, score);
    assert s == r + s[|r|..];
    WithScoreConcat(r, s[|r|..], v);
    SortDescStable(ValidScored(query, docs, score), v);
  }

  /**
   * The production `search_for_documents`: the loop collects the scored
   * searchable documents, `list.sort` orders them, and the texts of
   * `similarities[:k]` are returned. For `k >= 0` that is the intended
   * best-`k` ranking `Rank`; a negative `k` keeps all but the last `|k|`.
   */
  method SearchForDocuments(query: Vector, docs: seq<Doc>, k: int, score: ScoreFn) returns (texts: seq<string>)
    ensures texts == Texts(RankAsWritten(query, docs, k, score))
    ensures k >= 0 ==> texts == Texts(Rank(query, docs, k, score))
    ensures |texts| == if k >= 0 then Min(|ValidScored(query, docs, score)|, k)
                       else if |ValidScored(query, docs, score)| + k >= 0 then |ValidScored(query, docs, score)| + k
                       else 0
  {
    var similarities: seq<Scored> := [];
    for i := 0 to |docs|
      invariant similarities == ValidScored(query, docs[..i], score)
    {
      var doc := docs[i];
      if doc.embedding.Some? && |doc.embedding.value| > 0 && doc.text.Some? {
        var cosSim := score(query, doc.embedding.value);
        similarities := similarities + [Scored(doc.text.value, cosSim)];
      }
      ValidScoredAppend(query, docs, score, i);
    }
    assert docs[..|docs|] == docs;
    // `list.sort(key=..., reverse=True)` is a stable sort by descending score.
    similarities := SortDesc(similarities);
    texts := Texts(PySlice(similarities, k));
    if k >= 0 {
      PySliceAgrees(similarities, k);
    }
  }

  /** A chat-history entry. */
  datatype Message = Message(role: string, content: string)

  /** `len([msg for msg in chat_history if msg['role'] == 'user'])`. */
  function TotalQuestions(history: seq<Message>): (n: nat)
    ensures n <= |history|
    ensures n == 0 <==> forall i :: 0 <= i < |history| ==> history[i].role != "user"
    ensures n == |history| <==> forall i :: 0 <= i < |history| ==> history[i].role == "user"
  {
    if history == [] then 0
    else
      var init := history[..|history| - 1];
      assert forall i :: 0 <= i < |init| ==> init[i] == history[i];
      TotalQuestions(init) + (if history[|history| - 1].role == "user" then 1 else 0)
  }

  /** The count of a concatenated history is the sum of the counts. */
  lemma {:induction false} TotalQuestionsAppend(a: seq<Message>, b: seq<Message>)
    ensures TotalQuestions(a + b) == TotalQuestions(a) + TotalQuestions(b)
    decreases |b|
  {
    if b != [] {
      var b' := b[..|b| - 1];
      assert (a + b)[..|a + b| - 1] == a + b';
      TotalQuestionsAppend(a, b');
    } else {
      assert a + b == a;
    }
  }
}
