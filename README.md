# Near Total Recall: retrieval core

A model of the memory-retrieval core of the `NearTotalRecall` voice skill.
At construction the skill loads three artifacts and an embedding model. Each one
that fails to load is kept as absent. The artifacts are:
- a cleaned memory table;
- a matrix of precomputed memory embeddings, one row per cleaned row;
- the original memory table, which holds the full `Memory_Description` texts.

When the user asks "do you recall ...", the skill encodes the query,
scores every memory embedding by dot product with the query embedding, ranks the
rows by descending score and keeps the first `top_n`. It then looks up the
first result's `Timestamp` in the original table and speaks that memory. It
speaks `no_memory_found` when nothing was ranked.

The project has three modules:

- `Argsort` (`argsort.dfy`) holds the contract of numpy's `argsort` that the
  ranking relies on. The result is a permutation of the row indices along which
  the scores never decrease. The default sort kind is not stable, so the order
  among equal scores is left open. `Argsort.Argsort` is one verified argsort,
  which shows the contract can always be met. Lemmas prove that any two argsorts
  read the same score sequence, and that they coincide when no scores tie.
- `Retrieval` (`retrieval.dfy`) holds the retrieval logic as functions over
  values:
  - `FindClosest` is `find_closest_memory`, with the query embedding and
    numpy's argsort taken as inputs.
  - `RecallFull` is `recall_full_memory`.
  - `Reply` is the choice of dialog made by the recall intent.
  - The lemmas relate these three.
- `NearTotalRecallSkill` (`skill.dfy`) holds the `NearTotalRecall` class. It has
  the fields the source's `__init__` assigns, a constructor that receives each
  load's outcome, and the three members that serve the intent. Each member is
  tied to the functions above.

The order among tied scores is never fixed. Every ranking property is stated
for an arbitrary `order` that satisfies `Argsort.IsArgsort`, so it holds for
whatever tie order numpy produces. Scores are exact `real`s.

Three points of the code's behaviour are easy to miss:
- `np.argsort` is called with its default kind, which is not stable, and its
  result is then reversed (src/__init__.py:117). The order among tied scores is
  therefore not fixed, and no tie order is promised.
- A lookup that finds no row still speaks `recite_memory`, with `None` as the
  memory (src/__init__.py:151-152). `Reply` then gives `ReciteMemory(None)`.
- `similarity_threshold` is stored by the constructor (src/__init__.py:43) and
  never read. Only the constructor's contract mentions it, to say it is stored.
  No other contract reads it, so no result depends on it: `FindClosestMemory`'s
  ensures gives its result without it.

## Model

| member | source | states |
|---|---|---|
| `Argsort.Argsort` | src/__init__.py:117 | for every score vector there is a result `np.argsort` may return: an ascending permutation of the row indices |
| `Argsort.ArgsortScoresAgree` | src/__init__.py:117 | any two argsorts of the same scores read the same score at every position, whatever order they give ties |
| `Argsort.ArgsortUniqueWithoutTies` | src/__init__.py:117 | when no two scores are equal the argsort is unique |
| `Retrieval.TopIndicesAreTopSelection` | src/__init__.py:117 | `argsort[::-1][:top_n]` contains `min(top_n, rows)` distinct valid row indices with non-increasing scores, and no row left out scores above a row taken |
| `Retrieval.TopIndicesOptimal` | src/__init__.py:117 | a row left out of `argsort[::-1][:top_n]` scores no higher than any row in it |
| `Retrieval.ArgsortEndsWithBest` | src/__init__.py:117 | the last index of the argsort, the first one reported, has the highest score of all rows |
| `Retrieval.FindClosest` | src/__init__.py:102-121 | if the cleaned table or the embeddings are absent, the result is `[]` for every query; otherwise its length is `min(top_n, rows)` and its scores are non-increasing; some top selection of rows yields exactly its `(score, cleaned row, Timestamp)` triples |
| `Retrieval.FindClosestTriples` | src/__init__.py:114-119 | each triple is `(dot(embeddings[i], q), cleaned[i], cleaned[i].Timestamp)` for a row `i` present in both the cleaned table and the embeddings |
| `Retrieval.TopScoresIgnoreTies` | src/__init__.py:117 | two argsorts of the same scores pick rows whose scores agree position by position |
| `Retrieval.FindClosestScoresIgnoreTies` | src/__init__.py:117-121 | the tie order numpy picks can change which tied rows are reported, never the list of reported scores |
| `Retrieval.FindClosestDeterminedWithoutTies` | src/__init__.py:117-121 | with pairwise distinct scores the whole result is determined |
| `Retrieval.MatchingRows` | src/__init__.py:132 | the boolean filter keeps only rows whose `Timestamp` is the key, and keeps every such row |
| `Retrieval.MatchingRowsPreserveOrder` | src/__init__.py:132 | the filter keeps table order: filtering `a + b` gives the filtered `a` followed by the filtered `b`, and a single row is kept exactly when its `Timestamp` is the key |
| `Retrieval.MatchingRowsStartWithFirstMatch` | src/__init__.py:132-136 | the filtered table is empty exactly when no row matches, and otherwise starts with the first matching row |
| `Retrieval.RecallFull` | src/__init__.py:123-139 | absent when the original table is absent; otherwise absent exactly when no row has the key, and otherwise the `Memory_Description` of the first row with that key |
| `Retrieval.RecallUniqueRow` | src/__init__.py:131-137 | with a unique `Timestamp` the lookup returns that row's description |
| `Retrieval.Reply` | src/__init__.py:149-154 | `no_memory_found` exactly when the results are empty; otherwise `recite_memory` with the lookup of the first result's `Timestamp`, even when that lookup is absent |
| `Retrieval.NoMemoryFoundExactly` | src/__init__.py:102-154 | the intent speaks `no_memory_found` exactly when the cleaned table or the embeddings are missing, `top_n` is 0 or there are no memory rows; no score threshold is applied |
| `Retrieval.RecitesBestMatch` | src/__init__.py:146-152 | when the intent recites, it recites the lookup of a row whose score is the highest of all rows |
| `Retrieval.ExampleRanking` | src/__init__.py:114-119 | rows `[1,0]`, `[0,1]`, `[0.7,0.7]`, query `[1,0]`, `top_n` 2 give row 0 (score 1) then row 2 (score 0.7), for every valid argsort |
| `Retrieval.ExampleRecall` | src/__init__.py:127-139 | with one row `T1`/"birthday party", key `T1` gives the text and key `T2` gives absent |
| `NearTotalRecallSkill.NearTotalRecall.constructor` | src/__init__.py:38-69 | every setting is stored; each artifact and the model are kept when loaded and are absent when their load failed |
| `NearTotalRecallSkill.NearTotalRecall.FindClosestMemory` | src/__init__.py:102-121 | `[]` when the cleaned table or the embeddings are absent, whatever the query; otherwise `FindClosest` of the model's encoding of the query; the similarity threshold is not read |
| `NearTotalRecallSkill.NearTotalRecall.RecallFullMemory` | src/__init__.py:123-139 | the result equals `RecallFull` over the loaded original table |
| `NearTotalRecallSkill.NearTotalRecall.HandleDoYouRecallIntent` | src/__init__.py:141-154 | the query slot defaults to `""`; speaks `no_memory_found` exactly when the cleaned table or the embeddings are missing, `top_n` is 0 or there are no rows; otherwise recites the lookup of a highest-scoring row's `Timestamp` |

## Left out

- Artifact loading (`pd.read_csv`, `np.load`, `SentenceTransformer`) is file and library I/O. The constructor receives each load's outcome instead, and the error logging on failure is not modelled.
- The model's `encode` is a neural network. The loaded model is represented by the function it computes, and the model does not describe what that function returns.
- `np.argsort` is a foreign call. Its result is a parameter constrained by `Argsort.IsArgsort`, and no particular tie order is assumed.
- Floating-point arithmetic in `np.dot` is not modelled. Scores are exact reals, so rounding and NaN are not covered.
- The start-up check `None in [...]` that speaks `error_initialization` (src/__init__.py:72-73) is not modelled. `in` compares each list item with `None` by `==`. For a loaded DataFrame, or an array of more than one element, that comparison is elementwise, and taking its truth value raises `ValueError`. So as written, the constructor cannot finish once `cleaned_data` has loaded. The model's constructor always finishes, as if the check were absent.
- `initialize` and the merge of default settings are host settings plumbing. `top_n` is a natural number, so the case of an unset `top_n` (which would make the slice return every row) is not modelled.
- Logging and `speak_dialog` are host side effects. The model returns which dialog would be spoken and its argument.
- `runtime_requirements`, `my_setting`, `handle_robotic_laws_intent` and `stop` are constant declarations or trivial host hooks, and are not modelled.
- `learning` is set in the constructor but never read by the core, so it is not a field of the class.
- An exception the source would raise is excluded by a precondition rather than modelled as an outcome. These cases are:
  - a missing model while both the cleaned table and the embeddings are loaded;
  - embedding rows whose length differs from the query embedding's;
  - a selected row index past the end of the cleaned table.
- `Timestamp` values are compared as strings. The column types pandas infers from the CSV files are not modelled.
