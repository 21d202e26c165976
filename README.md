# Top-k retrieval and store rebuild of the PingPoli assistant, in Dafny

This project models the retrieval core of a retrieval-augmented chat
assistant, plus the script that fills its document store.

- **Deployed search** (`app_claude_4_deploy.py`, `search_for_documents`).
  - One scan of the collection keeps at most K = 5 `{text, similarity}` entries.
  - While the list has room, every entry is appended.
  - Once it is full, the first minimal entry (`min`, then `index`) is popped, and the new entry appended, only when the new similarity is strictly greater.
  - The list is then sorted by descending similarity.
  - A document without `embedding` or `text` raises `KeyError`. The key is looked up in that order.
- **Production search** (`app_claude_4_prod.py`, `search_for_documents`).
  - Documents without a `text` key, or without a non-empty `embedding`, are skipped.
  - The other documents are paired with their similarity and stable-sorted in descending order.
  - The texts of the first `k` (default 5) are returned.
- **Context string.** Both applications join the retrieved texts with `"\n\n---\n\n"`.
- **Question count.** The production sidebar counts the user messages of the chat history.
- **Store rebuild** (`important_script.py`).
  - The collection is emptied.
  - One `{file_name, text, embedding}` record is inserted per regular file of the data directory, in listing order.

Modules:

- `Scoring` (`scoring.dfy`):
  - a document is a pair of optional fields, and an entry is a text with its score;
  - the similarity is an oracle `score(query, embedding)` into the reals;
  - Python's stable `sort(key=..., reverse=True)` is the specification function `SortDesc`;
  - `IsTopK` says what "the best k of a scan, in descending order" means.
- `Context` (`context.dfy`): `str.join`, with a proof of where each text and each separator ends up.
- `DeploySearch` (`deploy_search.dfy`):
  - the scan is a method with a loop over a bounded candidate list;
  - it is proved against the specification function `Candidates`.
- `ProdSearch` (`prod_search.dfy`):
  - the collecting loop is a method;
  - the slice, the join and the user count are functions.
- `Agreement` (`agreement.dfy`): for k = 5 and a well-formed collection, both searches return the same sequence of scores.
- `Ingestion` (`ingestion.dfy`):
  - the store is a class whose `records` field the rebuild mutates;
  - the directory is a given listing;
  - the encoder is a parameter.

Behaviour of the code that the model keeps:

- `insert_one` does no check of the embedding: an empty or mismatched vector is stored as given.
- Results are in non-increasing order of score: equal scores stay side by side.
- In the production search, `similarities[:k]` with a negative `k` keeps all but the last abs(k) entries (see Findings).
- The deployed search raises `KeyError` on a document that lacks a key; it does not skip that document.

## Model

| member | source | states |
|---|---|---|
| Scoring.SortDesc | app_claude_4_prod.py:166 | `list.sort(key, reverse=True)`: the result is a permutation of its input (same length, same multiset) in non-increasing order of score |
| Scoring.SortDescStable | app_claude_4_prod.py:166 | the sort is stable: for every score value, the entries with that score appear in the result in their input order |
| Scoring.InsertDescSorted | app_claude_4_deploy.py:243 | inserting an entry into a sorted list, after every entry scoring at least as high, keeps it sorted |
| Scoring.InsertDescStable | app_claude_4_prod.py:166 | the insertion puts the new entry after all entries of equal score |
| Context.JoinText | app_claude_4_prod.py:188 | in `sep.join(xs)` each text `xs[i]` occupies the slice starting at its offset, and the last text ends the string |
| Context.JoinSeparator | app_claude_4_prod.py:188 | in `sep.join(xs)` the separator sits right before every text but the first |
| Context.JoinLayout | app_claude_4_deploy.py:273 | `sep.join(xs)` is empty for no texts, holds every text at its offset with a separator before each one but the first, and nothing after the last |
| Context.BuildContext | app_claude_4_prod.py:188 | the context is the retrieved texts, in order, joined by `"\n\n---\n\n"` |
| DeploySearch.MatchContext | app_claude_4_deploy.py:273 | the deployed context is the `text` of every returned entry, in result order, joined by the separator |
| DeploySearch.FirstMinIndex | app_claude_4_deploy.py:236 | `min(list, key=similarity)` picks the first entry of minimal similarity: no entry is smaller, and every entry before it is strictly larger |
| DeploySearch.IndexOf | app_claude_4_deploy.py:239 | `list.index(item)` is the first position holding an equal entry |
| DeploySearch.Offer | app_claude_4_deploy.py:233-241 | with fewer than 5 candidates the entry is appended. A full list is unchanged unless the new score is strictly greater than its minimum. Then exactly the first minimal entry is removed, the new one is appended, and the others keep their order |
| DeploySearch.Candidates | app_claude_4_deploy.py:225-241 | after scanning N entries the list holds exactly min(N, 5) of them, so never more than 5. These are all of them when N ≤ 5, and always a sub-multiset of the scan |
| DeploySearch.OfferMultiset | app_claude_4_deploy.py:239-241 | a replacement swaps the evicted minimum for the new entry in the multiset of candidates |
| DeploySearch.CandidatesKeepBest | app_claude_4_deploy.py:233-241 | every scanned entry that is not a candidate scores no higher than every candidate |
| DeploySearch.OfferKeepsBest | app_claude_4_deploy.py:233-241 | one scan step preserves "nothing dropped scores higher than anything kept" |
| DeploySearch.AppendKeepsBest | app_claude_4_deploy.py:233-234 | while the list has room it holds the whole scan, so appending the new entry drops nothing |
| DeploySearch.EvictKeepsBest | app_claude_4_deploy.py:238-241 | evicting a minimal candidate for a strictly better entry preserves that invariant |
| DeploySearch.IgnoreKeepsBest | app_claude_4_deploy.py:236-238 | skipping an entry no better than the minimum preserves that invariant |
| DeploySearch.RankedCandidates | app_claude_4_deploy.py:233-243 | the sorted candidates are a best-5 selection of the scan: min(N, 5) entries from the scan in non-increasing order, none dropped scoring higher |
| DeploySearch.MatchesFromScan | app_claude_4_deploy.py:228-243 | every returned entry is some scanned document's text paired with that document's own score |
| DeploySearch.ScoreAllAt | app_claude_4_deploy.py:227-231 | the i-th scanned entry is the i-th document's text with its similarity to the query |
| DeploySearch.Consider | app_claude_4_deploy.py:233-241 | the loop body turns the candidates of the scan so far into those of the scan extended by one entry |
| DeploySearch.SearchForDocuments | app_claude_4_deploy.py:221-245 | Found exactly when every document has both keys. Otherwise it is the KeyError of the first document lacking one, naming `embedding` if that is missing and `text` otherwise. A Found result is the sorted candidate list and a best-5 selection of the scan; an empty collection gives an empty list |
| ProdSearch.ValidScoredContents | app_claude_4_prod.py:161 | a document is scored exactly when it has `text` and a present, non-empty `embedding`. Every such document's entry is collected, every collected entry comes from one, and nothing is collected when none qualifies |
| ProdSearch.TakeTop | app_claude_4_prod.py:168 | the intended slice: a prefix of the sorted list of length min(V, k), empty for k ≤ 0 |
| ProdSearch.PySlice | app_claude_4_prod.py:168 | Python's `s[:k]` as written: a prefix of length min(V, k) for k ≥ 0, and of length V + k (at least 0) for k < 0 |
| ProdSearch.PySliceAgrees | app_claude_4_prod.py:168 | for k ≥ 0 the slice as written and the intended slice coincide |
| ProdSearch.NegativeKReturnsTexts | app_claude_4_prod.py:168 | with two valid documents and k = -1 the code as written returns one text, where the intended slice returns none |
| ProdSearch.RankLength | app_claude_4_prod.py:157-168 | the result has min(V, k) entries, V being the number of valid documents; k ≤ 0 or V = 0 gives an empty list |
| ProdSearch.RankIsTopK | app_claude_4_prod.py:166-168 | for k ≥ 0 the returned entries are in non-increasing order, come from the valid documents, and every valid document left out scores no higher than every returned one, in particular the last |
| ProdSearch.SortedPrefixIsTopK | app_claude_4_prod.py:166-168 | a prefix of a sorted arrangement of a scan is a best selection of that scan |
| ProdSearch.RankStable | app_claude_4_prod.py:166-168 | documents of equal score keep their scan order: for each score, the returned entries are the first ones of that score in the scan |
| ProdSearch.SearchForDocuments | app_claude_4_prod.py:157-168 | the loop collects the valid documents and the sort orders them. The texts of `similarities[:k]` are returned, with scores dropped. For k ≥ 0 that is the best-k ranking, with min(V, k) texts; a negative k keeps all but the last abs(k) texts (none when abs(k) ≥ V) |
| ProdSearch.TotalQuestions | app_claude_4_prod.py:225 | the count of `role == 'user'` messages is at most the history length. It is zero exactly when no message is a user message, and equals the length exactly when all are |
| ProdSearch.TotalQuestionsAppend | app_claude_4_prod.py:225 | the count over a concatenated history is the sum of the counts |
| Agreement.OfferScores | app_claude_4_deploy.py:233-241 | one step over a full candidate list keeps the scores of the first 5 entries of the full stable sort |
| Agreement.CandidateScores | app_claude_4_deploy.py:227-241 | after the scan, the candidates hold the same scores, with multiplicity, as the first min(N, 5) entries of the full sort of the scan |
| Agreement.DeployScores | app_claude_4_deploy.py:227-243 | the deployed result's score sequence equals that of the first min(N, 5) entries of the full stable sort |
| Agreement.ValidScoredAll | app_claude_4_prod.py:161 | when every document is valid, the production filter keeps all of them, in scan order, exactly as the deployed scan scores them |
| Agreement.SameScores | app_claude_4_prod.py:160-168 | for k = 5 and a collection of valid documents, the production search and the deployed search return the same sequence of scores |
| Ingestion.Collection.DeleteMany | important_script.py:37 | `delete_many({})` leaves the store empty |
| Ingestion.Collection.InsertOne | important_script.py:27 | an insert appends exactly one record and leaves the existing records unchanged |
| Ingestion.InsertDocument | important_script.py:20-27 | the record inserted has `file_name`, `text` and `embedding` as given, appended after the existing records |
| Ingestion.RegularMembers | important_script.py:42 | the regular files of the listing: nothing else, and every one of them |
| Ingestion.RegularMultiplicity | important_script.py:39-42 | each regular file occurs among the kept entries as often as in the listing; any other entry occurs not at all |
| Ingestion.RegularAppend | important_script.py:39-42 | the filter keeps listing order: over a concatenated listing it gives the files of the first part, then those of the second; a single entry is kept exactly when it is a regular file |
| Ingestion.IngestedAppend | important_script.py:39-48 | over a readable prefix of the listing the loop goes on with the rest: its records are those of the prefix followed by those of the rest |
| Ingestion.IngestStep | important_script.py:42-48 | one turn of the loop appends a record for a regular file and nothing for another entry |
| Ingestion.IngestedStops | important_script.py:43-45 | an unreadable regular file ends the rebuild: no later entry is inserted, and the earlier records stay |
| Ingestion.IngestedRecords | important_script.py:39-48 | with every regular file readable there is exactly one record per regular file, in listing order. Its `file_name` is the entry name, its `text` is the file content, and its `embedding` is the encoder's output for that content |
| Ingestion.Rebuild | important_script.py:35-48 | after the rebuild the store holds exactly the records of this listing, whatever it held before. The result reports whether every regular file could be read |
| Ingestion.RebuildTwice | important_script.py:37-48 | rebuilding twice from the same listing gives the same records as rebuilding once |

## Left out

- Cosine similarity and floating point are not modelled: the score is an oracle into the totally ordered reals. So NaN from a zero vector, which makes every comparison false, is not represented.
- The dimension errors scipy raises for vectors of different lengths are not modelled. In the deployed search this includes an empty embedding.
- A key whose value is `null` is modelled like a missing key: `None` stands for both. In the deployed search a `null` embedding would pass the lookup and fail in `cosine`.
- The SentenceTransformer encoder is not modelled. It is the function parameter `embed` of the rebuild; the query embedding is a plain parameter of both searches.
- `connection_mongodb` and MongoDB itself are not modelled. The collection is a sequence of documents for the searches and a `Collection` object for the rebuild. `find` projections and the `_id` MongoDB adds are not modelled.
- `os.listdir`, `isfile` and file reading are not modelled. They are one given listing of entries, each with its name, whether it is a regular file, and its content, or `None` when opening or decoding fails. The listing order is whatever the operating system returns.
- Exceptions are modelled where they decide the outcome: the deployed `KeyError`, and an unreadable file ending the rebuild. Other exceptions (network, decoding inside the encoder) are not.
- The Groq completion call, YAML prompt loading, prompt formatting, Streamlit UI, session state, timing and animations are not modelled (UI, configuration and network I/O).
- DeploySearch.SearchForDocuments, ProdSearch.SearchForDocuments: the in-place `list.sort` is modelled by the function `SortDesc`. Its stability and ordering are proved, but not the sorting algorithm CPython uses.

## Findings

| source | as written | input that shows it | evidently intended | confidence | as-written member | corrected member |
|---|---|---|---|---|---|---|
| app_claude_4_prod.py:168 | `similarities[:k]` with a negative `k` keeps all but the last `abs(k)` entries | two valid documents and `k = -1`: one text is returned | `k ≤ 0` returns no texts | low: the only caller passes the default `k = 5`; not executed | ProdSearch.SearchForDocuments, which returns the texts of ProdSearch.RankAsWritten (shown by ProdSearch.NegativeKReturnsTexts) | ProdSearch.TakeTop (used by ProdSearch.Rank, which the ranking lemmas and the cross-variant agreement use; properties in ProdSearch.RankLength and ProdSearch.RankIsTopK) |
