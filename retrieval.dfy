/** The retrieval core of the NearTotalRecall voice skill, on values: score
    every stored memory embedding against the query embedding, keep the
    `top_n` best, resolve a `Timestamp` to the full memory text, and choose
    the dialog the recall intent speaks. The loaded state that these read
    lives in the `NearTotalRecall` class of module `NearTotalRecallSkill`. */
module Retrieval {
  import opened Argsort

  datatype Option<T> = None | Some(value: T)

  type Vector = seq<real>

  /** The embedding matrix: one row per memory of the cleaned table. */
  type Matrix = seq<Vector>

  /** A row of the cleaned memory table: its `Timestamp` (the join key) and
      its other columns. */
  datatype CleanedRow = CleanedRow(timestamp: string, columns: map<string, string>)

  /** A row of the original memory table. */
  datatype OriginalRow = OriginalRow(timestamp: string, memoryDescription: string)

  /** One `(similarity, cleaned row, Timestamp)` triple of the ranking. */
  datatype Match = Match(score: real, row: CleanedRow, timestamp: string)

  /** The dialog the recall intent speaks: `no_memory_found`, or
      `recite_memory` with its `memory` substitution (which may be absent). */
  datatype Utterance = NoMemoryFound | ReciteMemory(memory: Option<string>)

  function Min(a: nat, b: nat): nat {
    if a <= b then a else b
  }

  /** The inner product `np.dot` computes, exactly. */
  function Dot(u: Vector, v: Vector): real
    requires |u| == |v|
    decreases |u|
  {
    if u == [] then 0.0 else u[0] * v[0] + Dot(u[1..], v[1..])
  }

  /** Every row of the matrix has `d` components, as `np.dot` demands. */
  predicate HasDimension(embeddings: Matrix, d: nat) {
    forall i :: 0 <= i < |embeddings| ==> |embeddings[i]| == d
  }

  /** `np.dot(embeddings, q.T).flatten()`: one score per row. */
  function Similarities(embeddings: Matrix, q: Vector): (s: seq<real>)
    requires HasDimension(embeddings, |q|)
    ensures |s| == |embeddings|
    ensures forall i :: 0 <= i < |s| ==> s[i] == Dot(embeddings[i], q)
  {
    seq(|embeddings|, i requires 0 <= i < |embeddings| => Dot(embeddings[i], q))
  }

  /** Python's `order[::-1]`. */
  function Reversed(order: seq<nat>): (r: seq<nat>)
    ensures |r| == |order|
    ensures forall k :: 0 <= k < |r| ==> r[k] == order[|order| - 1 - k]
  {
    seq(|order|, k requires 0 <= k < |order| => order[|order| - 1 - k])
  }

  /** Python's slice `s[:n]` for `n >= 0`: a longer bound keeps everything. */
  function Prefix<T>(s: seq<T>, n: nat): (r: seq<T>)
    ensures |r| == Min(n, |s|)
    ensures r == s[..|r|]
  {
    if n <= |s| then s[..n] else s
  }

  /** `np.argsort(similarities)[::-1][:top_n]`, given the argsort numpy chose. */
  function TopIndices(order: seq<nat>, topN: nat): seq<nat> {
    Prefix(Reversed(order), topN)
  }

  /** `sel` is a correct answer to "the `topN` highest scores": as many
      distinct valid row indices as `topN` and the row count allow, read in
      non-increasing score order, and no row left out scores higher than a
      row taken. Ties are left open. */
  predicate IsTopSelection(scores: seq<real>, topN: nat, sel: seq<nat>) {
    && |sel| == Min(topN, |scores|)
    && InRange(sel, |scores|)
    && Distinct(sel)
    && (forall a, b :: 0 <= a < b < |sel| ==> scores[sel[b]] <= scores[sel[a]])
    && (forall j, k :: 0 <= j < |scores| && j !in sel && 0 <= k < |sel| ==> scores[j] <= scores[sel[k]])
  }

  /** Position `k` of the selection is position `n - 1 - k` of the argsort. */
  lemma TopIndicesAt(order: seq<nat>, topN: nat)
    ensures |TopIndices(order, topN)| == Min(topN, |order|)
    ensures forall k :: 0 <= k < |TopIndices(order, topN)| ==>
      TopIndices(order, topN)[k] == order[|order| - 1 - k]
  {
  }

  /** No row left out of the selection scores above a row taken. */
  lemma TopIndicesOptimal(scores: seq<real>, order: seq<nat>, topN: nat, j: nat, k: nat)
    requires IsArgsort(scores, order)
    requires j < |scores| && j !in TopIndices(order, topN) && k < |TopIndices(order, topN)|
    ensures TopIndices(order, topN)[k] < |scores|
    ensures scores[j] <= scores[TopIndices(order, topN)[k]]
  {
    var n := |order|;
    var sel := TopIndices(order, topN);
    TopIndicesAt(order, topN);
    assert j in order;
    var p :| 0 <= p < n && order[p] == j;
    var rev := Reversed(order);
    assert rev[n - 1 - p] == j;
    assert sel == rev[..|sel|];
    assert |sel| <= n - 1 - p;
    assert scores[order[p]] <= scores[order[n - 1 - k]];
  }

  /** Whatever order numpy gives equal scores, the reversed and truncated
      argsort is a top selection. */
  lemma TopIndicesAreTopSelection(scores: seq<real>, order: seq<nat>, topN: nat)
    requires IsArgsort(scores, order)
    ensures IsTopSelection(scores, topN, TopIndices(order, topN))
  {
    var n := |order|;
    var sel := TopIndices(order, topN);
    TopIndicesAt(order, topN);
    forall a, b | 0 <= a < b < |sel| ensures sel[a] != sel[b] && scores[sel[b]] <= scores[sel[a]] {
      assert order[n - 1 - b] != order[n - 1 - a];
    }
    forall j, k | 0 <= j < |scores| && j !in sel && 0 <= k < |sel|
      ensures scores[j] <= scores[sel[k]]
    {
      TopIndicesOptimal(scores, order, topN, j, k);
    }
  }

  /** The rows `find_closest_memory` reads with `iloc` exist. */
  predicate RowsAvailable(cleaned: seq<CleanedRow>, sel: seq<nat>) {
    InRange(sel, |cleaned|)
  }

  /** What the ranking path needs of the loaded data not to raise: matching
      dimensions for `np.dot`, the argsort numpy returned, and the selected
      rows present in the cleaned table. */
  predicate RankingDefined(cleaned: seq<CleanedRow>, embeddings: Matrix, q: Vector, topN: nat, order: seq<nat>) {
    && HasDimension(embeddings, |q|)
    && IsArgsort(Similarities(embeddings, q), order)
    && RowsAvailable(cleaned, TopIndices(order, topN))
  }

  /** `results` are the triples for the row indices `sel`. */
  predicate Tabulates(results: seq<Match>, sel: seq<nat>, scores: seq<real>, cleaned: seq<CleanedRow>) {
    && |results| == |sel|
    && InRange(sel, |scores|)
    && InRange(sel, |cleaned|)
    && forall k :: 0 <= k < |sel| ==>
         results[k] == Match(scores[sel[k]], cleaned[sel[k]], cleaned[sel[k]].timestamp)
  }

  /** The `(similarity, cleaned row, Timestamp)` triples for the rows `sel`. */
  function Triples(sel: seq<nat>, scores: seq<real>, cleaned: seq<CleanedRow>): (r: seq<Match>)
    requires InRange(sel, |scores|) && InRange(sel, |cleaned|)
    ensures Tabulates(r, sel, scores, cleaned)
  {
    seq(|sel|, k requires 0 <= k < |sel| => Match(scores[sel[k]], cleaned[sel[k]], cleaned[sel[k]].timestamp))
  }

  /** Triples of a top selection come in non-increasing score order. */
  lemma TriplesOfTopSelection(results: seq<Match>, sel: seq<nat>, scores: seq<real>, cleaned: seq<CleanedRow>, topN: nat)
    requires IsTopSelection(scores, topN, sel) && Tabulates(results, sel, scores, cleaned)
    ensures |results| == Min(topN, |scores|)
    ensures forall a, b :: 0 <= a < b < |results| ==> results[b].score <= results[a].score
  {
    forall a, b | 0 <= a < b < |results| ensures results[b].score <= results[a].score {
      assert results[a].score == scores[sel[a]] && results[b].score == scores[sel[b]];
    }
  }

  /** `find_closest_memory`, for the query embedding `q` and the argsort
      `order` numpy returned for the similarities. */
  function FindClosest(cleaned: Option<seq<CleanedRow>>, embeddings: Option<Matrix>, q: Vector, topN: nat, order: seq<nat>): (r: seq<Match>)
    requires cleaned.Some? && embeddings.Some? ==> RankingDefined(cleaned.value, embeddings.value, q, topN, order)
    ensures cleaned.None? || embeddings.None? ==> r == []
    ensures cleaned.Some? && embeddings.Some? ==> |r| == Min(topN, |embeddings.value|)
    ensures forall a, b :: 0 <= a < b < |r| ==> r[b].score <= r[a].score
    ensures cleaned.Some? && embeddings.Some? ==>
      exists sel :: IsTopSelection(Similarities(embeddings.value, q), topN, sel)
                 && Tabulates(r, sel, Similarities(embeddings.value, q), cleaned.value)
  {
    if cleaned.None? || embeddings.None? then []
    else
      var scores := Similarities(embeddings.value, q);
      var sel := TopIndices(order, topN);
      TopIndicesAreTopSelection(scores, order, topN);
      var r := Triples(sel, scores, cleaned.value);
      TriplesOfTopSelection(r, sel, scores, cleaned.value, topN);
      r
  }

  /** The triples are those of the reversed, truncated argsort itself. */
  lemma FindClosestFollowsOrder(cleaned: seq<CleanedRow>, embeddings: Matrix, q: Vector, topN: nat, order: seq<nat>)
    requires RankingDefined(cleaned, embeddings, q, topN, order)
    ensures Tabulates(FindClosest(Some(cleaned), Some(embeddings), q, topN, order),
                      TopIndices(order, topN), Similarities(embeddings, q), cleaned)
  {
  }

  /** Each triple carries the dot product of its own embedding row with the
      query, that row of the cleaned table, and that row's `Timestamp`. */
  lemma FindClosestTriples(cleaned: seq<CleanedRow>, embeddings: Matrix, q: Vector, topN: nat, order: seq<nat>, k: nat)
    requires RankingDefined(cleaned, embeddings, q, topN, order)
    requires k < |FindClosest(Some(cleaned), Some(embeddings), q, topN, order)|
    ensures exists i ::
      && 0 <= i < |embeddings| && i < |cleaned|
      && FindClosest(Some(cleaned), Some(embeddings), q, topN, order)[k]
         == Match(Dot(embeddings[i], q), cleaned[i], cleaned[i].timestamp)
  {
    FindClosestFollowsOrder(cleaned, embeddings, q, topN, order);
    var i := TopIndices(order, topN)[k];
    assert FindClosest(Some(cleaned), Some(embeddings), q, topN, order)[k]
      == Match(Dot(embeddings[i], q), cleaned[i], cleaned[i].timestamp);
  }

  /** Two argsorts of the same scores select rows with the same scores, in
      the same positions. */
  lemma TopScoresIgnoreTies(scores: seq<real>, topN: nat, o1: seq<nat>, o2: seq<nat>)
    requires IsArgsort(scores, o1) && IsArgsort(scores, o2)
    ensures var s1, s2 := TopIndices(o1, topN), TopIndices(o2, topN);
      |s1| == |s2| && InRange(s1, |scores|) && InRange(s2, |scores|)
      && forall k :: 0 <= k < |s1| ==> scores[s1[k]] == scores[s2[k]]
  {
    ArgsortScoresAgree(scores, o1, o2);
    var n := |scores|;
    var s1, s2 := TopIndices(o1, topN), TopIndices(o2, topN);
    assert forall k :: 0 <= k < |s1| ==> s1[k] == o1[n - 1 - k];
    assert forall k :: 0 <= k < |s2| ==> s2[k] == o2[n - 1 - k];
  }

  /** The order numpy gives equal scores changes which of the tied rows are
      reported, never the scores reported. */
  lemma FindClosestScoresIgnoreTies(cleaned: seq<CleanedRow>, embeddings: Matrix, q: Vector, topN: nat, o1: seq<nat>, o2: seq<nat>)
    requires RankingDefined(cleaned, embeddings, q, topN, o1)
    requires RankingDefined(cleaned, embeddings, q, topN, o2)
    ensures var r1 := FindClosest(Some(cleaned), Some(embeddings), q, topN, o1);
            var r2 := FindClosest(Some(cleaned), Some(embeddings), q, topN, o2);
            |r1| == |r2| && forall k :: 0 <= k < |r1| ==> r1[k].score == r2[k].score
  {
    var scores := Similarities(embeddings, q);
    TopScoresIgnoreTies(scores, topN, o1, o2);
    FindClosestFollowsOrder(cleaned, embeddings, q, topN, o1);
    FindClosestFollowsOrder(cleaned, embeddings, q, topN, o2);
  }

  /** When no two rows score the same, the result is fully determined. */
  lemma FindClosestDeterminedWithoutTies(cleaned: seq<CleanedRow>, embeddings: Matrix, q: Vector, topN: nat, o1: seq<nat>, o2: seq<nat>)
    requires RankingDefined(cleaned, embeddings, q, topN, o1)
    requires RankingDefined(cleaned, embeddings, q, topN, o2)
    requires forall i, j :: 0 <= i < |embeddings| && 0 <= j < |embeddings| && i != j ==> Dot(embeddings[i], q) != Dot(embeddings[j], q)
    ensures FindClosest(Some(cleaned), Some(embeddings), q, topN, o1) == FindClosest(Some(cleaned), Some(embeddings), q, topN, o2)
  {
    ArgsortUniqueWithoutTies(Similarities(embeddings, q), o1, o2);
  }

  /** `original_data[original_data['Timestamp'] == key]`: the rows whose
      `Timestamp` is `key`, in table order. */
  function MatchingRows(rows: seq<OriginalRow>, key: string): (r: seq<OriginalRow>)
    ensures forall k :: 0 <= k < |r| ==> r[k].timestamp == key && r[k] in rows
    ensures forall i :: 0 <= i < |rows| && rows[i].timestamp == key ==> rows[i] in r
    decreases |rows|
  {
    if rows == [] then []
    else
      var rest := MatchingRows(rows[1..], key);
      assert forall i :: 1 <= i < |rows| ==> rows[i] == rows[1..][i - 1];
      if rows[0].timestamp == key then [rows[0]] + rest else rest
  }

  /** The filter keeps table order: filtering a table cut in two gives the
      filtered first part followed by the filtered second part, and a single
      row is kept exactly when its `Timestamp` is the key. Together these fix
      the filtered table as the matching rows in their original order. */
  lemma {:induction false} MatchingRowsPreserveOrder(a: seq<OriginalRow>, b: seq<OriginalRow>, key: string)
    ensures MatchingRows(a + b, key) == MatchingRows(a, key) + MatchingRows(b, key)
    ensures |a| == 1 ==> MatchingRows(a, key) == (if a[0].timestamp == key then a else [])
    decreases |a|
  {
    if a == [] {
      assert a + b == b;
    } else {
      var ab := a + b;
      assert ab[0] == a[0] && ab[1..] == a[1..] + b;
      MatchingRowsPreserveOrder(a[1..], b, key);
      if a[0].timestamp == key {
        assert MatchingRows(ab, key) == [a[0]] + MatchingRows(a[1..] + b, key);
        assert MatchingRows(a, key) == [a[0]] + MatchingRows(a[1..], key);
      } else {
        assert MatchingRows(ab, key) == MatchingRows(a[1..] + b, key);
        assert MatchingRows(a, key) == MatchingRows(a[1..], key);
      }
    }
  }

  /** Row `i` is the first row whose `Timestamp` is `key`. */
  predicate IsFirstMatch(rows: seq<OriginalRow>, key: string, i: int) {
    && 0 <= i < |rows|
    && rows[i].timestamp == key
    && forall j :: 0 <= j < i ==> rows[j].timestamp != key
  }

  /** The filtered table is empty exactly when no row matches, and
      otherwise starts with the first matching row. */
  lemma {:induction false} MatchingRowsStartWithFirstMatch(rows: seq<OriginalRow>, key: string)
    ensures MatchingRows(rows, key) == [] <==> forall i :: 0 <= i < |rows| ==> rows[i].timestamp != key
    ensures MatchingRows(rows, key) != [] ==>
      exists i :: IsFirstMatch(rows, key, i) && MatchingRows(rows, key)[0] == rows[i]
  {
    if rows != [] {
      if rows[0].timestamp == key {
        assert IsFirstMatch(rows, key, 0);
      } else {
        MatchingRowsStartWithFirstMatch(rows[1..], key);
        assert forall i :: 1 <= i < |rows| ==> rows[i] == rows[1..][i - 1];
        if MatchingRows(rows[1..], key) != [] {
          var i :| IsFirstMatch(rows[1..], key, i) && MatchingRows(rows[1..], key)[0] == rows[1..][i];
          assert IsFirstMatch(rows, key, i + 1);
        }
      }
    }
  }

  /** `recall_full_memory`: the `Memory_Description` of the first row of the
      original table whose `Timestamp` is `key`; absent when the table was
      not loaded or no row matches. */
  function RecallFull(original: Option<seq<OriginalRow>>, key: string): (r: Option<string>)
    ensures original.None? ==> r == None
    ensures original.Some? ==>
      (r == None <==> forall i :: 0 <= i < |original.value| ==> original.value[i].timestamp != key)
    ensures r.Some? ==>
      && original.Some?
      && exists i :: IsFirstMatch(original.value, key, i) && r.value == original.value[i].memoryDescription
  {
    match original
    case None => None
    case Some(rows) =>
      var matching := MatchingRows(rows, key);
      MatchingRowsStartWithFirstMatch(rows, key);
      if matching != [] then Some(matching[0].memoryDescription) else None
  }

  /** With `Timestamp` unique, as the original table is meant to be, the
      lookup returns the one row's description. */
  lemma RecallUniqueRow(rows: seq<OriginalRow>, key: string, i: nat)
    requires i < |rows| && rows[i].timestamp == key
    requires forall j :: 0 <= j < |rows| && j != i ==> rows[j].timestamp != key
    ensures RecallFull(Some(rows), key) == Some(rows[i].memoryDescription)
  {
    var r := RecallFull(Some(rows), key);
    var i' :| IsFirstMatch(rows, key, i') && r.value == rows[i'].memoryDescription;
    assert i' == i;
  }

  /** The decision rule of the recall intent: `no_memory_found` when the
      ranking is empty, otherwise `recite_memory` with whatever the lookup
      of the first triple's `Timestamp` gives, absent included. */
  function Reply(results: seq<Match>, original: Option<seq<OriginalRow>>): (u: Utterance)
    ensures u.NoMemoryFound? <==> results == []
    ensures u.ReciteMemory? ==> u.memory == RecallFull(original, results[0].timestamp)
  {
    if results != [] then ReciteMemory(RecallFull(original, results[0].timestamp)) else NoMemoryFound
  }

  /** The intent speaks `no_memory_found` exactly when the cleaned table
      or the embeddings are missing, `top_n` is zero or there are no memories;
      it never filters by score. */
  lemma NoMemoryFoundExactly(cleaned: Option<seq<CleanedRow>>, embeddings: Option<Matrix>, original: Option<seq<OriginalRow>>, q: Vector, topN: nat, order: seq<nat>)
    requires cleaned.Some? && embeddings.Some? ==> RankingDefined(cleaned.value, embeddings.value, q, topN, order)
    ensures Reply(FindClosest(cleaned, embeddings, q, topN, order), original).NoMemoryFound?
        <==> (cleaned.None? || embeddings.None? || topN == 0 || |embeddings.value| == 0)
  {
  }

  /** The last index of an argsort scores highest of all. */
  lemma ArgsortEndsWithBest(scores: seq<real>, order: seq<nat>)
    requires IsArgsort(scores, order) && 0 < |scores|
    ensures forall j :: 0 <= j < |scores| ==> scores[j] <= scores[order[|order| - 1]]
  {
    forall j | 0 <= j < |scores| ensures scores[j] <= scores[order[|order| - 1]] {
      assert j in order;
      var p :| 0 <= p < |order| && order[p] == j;
      assert scores[order[p]] <= scores[order[|order| - 1]];
    }
  }

  /** When it recites, the intent recites the lookup of a row whose score is
      the highest of all rows. */
  lemma RecitesBestMatch(cleaned: seq<CleanedRow>, embeddings: Matrix, original: Option<seq<OriginalRow>>, q: Vector, topN: nat, order: seq<nat>)
    requires RankingDefined(cleaned, embeddings, q, topN, order)
    requires 0 < topN && 0 < |embeddings|
    ensures exists i ::
      && 0 <= i < |embeddings| && i < |cleaned|
      && (forall j :: 0 <= j < |embeddings| ==> Dot(embeddings[j], q) <= Dot(embeddings[i], q))
      && Reply(FindClosest(Some(cleaned), Some(embeddings), q, topN, order), original)
         == ReciteMemory(RecallFull(original, cleaned[i].timestamp))
  {
    var scores := Similarities(embeddings, q);
    ArgsortEndsWithBest(scores, order);
    TopIndicesAt(order, topN);
    FindClosestFollowsOrder(cleaned, embeddings, q, topN, order);
    var i := order[|order| - 1];
    assert TopIndices(order, topN)[0] == i;
    var r := FindClosest(Some(cleaned), Some(embeddings), q, topN, order);
    assert r[0].timestamp == cleaned[i].timestamp;
    assert forall j :: 0 <= j < |embeddings| ==> Dot(embeddings[j], q) <= Dot(embeddings[i], q);
  }

  /** The scores of the worked example below. */
  lemma ExampleScores()
    ensures Similarities([[1.0, 0.0], [0.0, 1.0], [0.7, 0.7]], [1.0, 0.0]) == [1.0, 0.0, 0.7]
  {
    var s := Similarities([[1.0, 0.0], [0.0, 1.0], [0.7, 0.7]], [1.0, 0.0]);
    assert s[0] == Dot([1.0, 0.0], [1.0, 0.0]) == 1.0;
    assert s[1] == Dot([0.0, 1.0], [1.0, 0.0]) == 0.0;
    assert s[2] == Dot([0.7, 0.7], [1.0, 0.0]) == 0.7;
  }

  /** The scores of the worked example below have a single argsort. */
  lemma ExampleArgsort(order: seq<nat>)
    requires IsArgsort([1.0, 0.0, 0.7], order)
    ensures order == [1, 2, 0]
  {
    assert IsArgsort([1.0, 0.0, 0.7], [1, 2, 0]) by {
      assert forall i :: 0 <= i < 3 ==> i in [1, 2, 0];
    }
    ArgsortUniqueWithoutTies([1.0, 0.0, 0.7], order, [1, 2, 0]);
  }

  /** Worked example: rows `[1, 0]`, `[0, 1]`, `[0.7, 0.7]`, query `[1, 0]`
      and `top_n` 2 give row 0 (score 1) then row 2 (score 0.7). */
  lemma ExampleRanking(c0: CleanedRow, c1: CleanedRow, c2: CleanedRow, order: seq<nat>)
    requires IsArgsort(Similarities([[1.0, 0.0], [0.0, 1.0], [0.7, 0.7]], [1.0, 0.0]), order)
    ensures FindClosest(Some([c0, c1, c2]), Some([[1.0, 0.0], [0.0, 1.0], [0.7, 0.7]]), [1.0, 0.0], 2, order)
         == [Match(1.0, c0, c0.timestamp), Match(0.7, c2, c2.timestamp)]
  {
    var embeddings := [[1.0, 0.0], [0.0, 1.0], [0.7, 0.7]];
    ExampleScores();
    ExampleArgsort(order);
    TopIndicesAt(order, 2);
    assert TopIndices(order, 2) == [0, 2];
    FindClosestFollowsOrder([c0, c1, c2], embeddings, [1.0, 0.0], 2, order);
  }

  /** Worked example: one original row `T1` / "birthday party". */
  lemma ExampleRecall()
    ensures RecallFull(Some([OriginalRow("T1", "birthday party")]), "T1") == Some("birthday party")
    ensures RecallFull(Some([OriginalRow("T1", "birthday party")]), "T2") == None
  {
  }
}
