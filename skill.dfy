/** The NearTotalRecall skill object: the state its constructor loads, each
    artifact falling back to absent when its load fails, and the three
    members that serve the recall intent over that state. */
module NearTotalRecallSkill {
  import opened Retrieval

  /** The loaded sentence-transformer model, as the function its `encode`
      computes for one query. */
  type Encoder = string -> Vector

  /** The outcome of one artifact load (`pd.read_csv`, `np.load`, or the
      model constructor): the value, or the exception's message. */
  datatype LoadOutcome<T> = Loaded(value: T) | LoadFailed(error: string) {
    /** The field value the constructor keeps: the loaded value, or absent
        after a failure. */
    function ToOption(): (r: Option<T>)
      ensures r.Some? <==> Loaded?
      ensures Loaded? ==> r == Some(value)
    {
      match this
      case Loaded(v) => Some(v)
      case LoadFailed(_) => None
    }
  }

  /** The skill settings the constructor reads. */
  datatype Settings = Settings(
    cleanedDataPath: string,
    embeddingsPath: string,
    originalDataPath: string,
    topN: nat,
    similarityThreshold: real,
    modelName: string)

  /** The `query` slot of the intent message, `""` when absent. */
  function QueryText(data: map<string, string>): string {
    if "query" in data then data["query"] else ""
  }

  class NearTotalRecall {
    var cleanedDataPath: string
    var embeddingsPath: string
    var originalDataPath: string
    var topN: nat
    var similarityThreshold: real
    var modelName: string

    var cleanedData: Option<seq<CleanedRow>>
    var embeddings: Option<Matrix>
    var originalData: Option<seq<OriginalRow>>
    var model: Option<Encoder>

    /** Reads the settings, then keeps each load's value, or absent where
        that load raised. The loads themselves happen outside the model:
        their outcomes are the parameters. */
    constructor (
      settings: Settings,
      cleanedLoad: LoadOutcome<seq<CleanedRow>>,
      embeddingsLoad: LoadOutcome<Matrix>,
      originalLoad: LoadOutcome<seq<OriginalRow>>,
      modelLoad: LoadOutcome<Encoder>)
      ensures cleanedDataPath == settings.cleanedDataPath
      ensures embeddingsPath == settings.embeddingsPath
      ensures originalDataPath == settings.originalDataPath
      ensures topN == settings.topN
      ensures similarityThreshold == settings.similarityThreshold
      ensures modelName == settings.modelName
      ensures cleanedData == cleanedLoad.ToOption()
      ensures embeddings == embeddingsLoad.ToOption()
      ensures originalData == originalLoad.ToOption()
      ensures model == modelLoad.ToOption()
    {
      cleanedDataPath := settings.cleanedDataPath;
      embeddingsPath := settings.embeddingsPath;
      originalDataPath := settings.originalDataPath;
      topN := settings.topN;
      similarityThreshold := settings.similarityThreshold;
      modelName := settings.modelName;
      cleanedData := cleanedLoad.ToOption();
      embeddings := embeddingsLoad.ToOption();
      originalData := originalLoad.ToOption();
      model := modelLoad.ToOption();
    }

    /** Both the cleaned table and the embeddings, which the ranking reads,
        were loaded. */
    predicate DataLoaded()
      reads this
    {
      cleanedData.Some? && embeddings.Some?
    }

    /** What `find_closest_memory(query)` needs not to raise once the data is
        loaded: a model to encode with, matching dimensions, `order` being
        the argsort numpy returns for the similarities, and the selected rows
        present in the cleaned table. */
    predicate CanRank(query: string, order: seq<nat>)
      reads this
    {
      DataLoaded() ==>
        && model.Some?
        && RankingDefined(cleanedData.value, embeddings.value, model.value(query), topN, order)
    }

    /** `find_closest_memory`. The similarity threshold plays no part. The
        body takes the source's steps one by one (similarities, reversed
        argsort prefix, triples); its ensures ties it to `FindClosest`, so the
        two cannot drift apart unnoticed. */
    method FindClosestMemory(query: string, order: seq<nat>) returns (results: seq<Match>)
      requires CanRank(query, order)
      ensures !DataLoaded() ==> results == []
      ensures DataLoaded() ==> results == FindClosest(cleanedData, embeddings, model.value(query), topN, order)
    {
      if cleanedData.None? || embeddings.None? {
        return [];
      }
      var rows := cleanedData.value;
      var queryEmbedding := model.value(query);
      var similarities := Similarities(embeddings.value, queryEmbedding);
      var topNIndices := TopIndices(order, topN);
      results := seq(|topNIndices|, k requires 0 <= k < |topNIndices| =>
        var i := topNIndices[k];
        Match(similarities[i], rows[i], rows[i].timestamp));
      FindClosestFollowsOrder(rows, embeddings.value, queryEmbedding, topN, order);
    }

    /** `recall_full_memory`. */
    method RecallFullMemory(memoryId: string) returns (fullMemory: Option<string>)
      ensures fullMemory == RecallFull(originalData, memoryId)
    {
      fullMemory := RecallFull(originalData, memoryId);
    }

    /** `handle_do_you_recall_intent`: the dialog it speaks for an intent
        message whose data is `data`. */
    method HandleDoYouRecallIntent(data: map<string, string>, order: seq<nat>) returns (u: Utterance)
      requires CanRank(QueryText(data), order)
      ensures !DataLoaded() ==> u == NoMemoryFound
      ensures DataLoaded() ==>
        u == Reply(FindClosest(cleanedData, embeddings, model.value(QueryText(data)), topN, order), originalData)
      ensures u.NoMemoryFound? <==> (!DataLoaded() || topN == 0 || |embeddings.value| == 0)
      ensures u.ReciteMemory? ==>
        exists i ::
          && 0 <= i < |embeddings.value| && i < |cleanedData.value|
          && (forall j :: 0 <= j < |embeddings.value| ==>
                Dot(embeddings.value[j], model.value(QueryText(data))) <= Dot(embeddings.value[i], model.value(QueryText(data))))
          && u.memory == RecallFull(originalData, cleanedData.value[i].timestamp)
    {
      var query := QueryText(data);
      var results := FindClosestMemory(query, order);
      if results != [] {
        var memory := results[0];
        var fullMemory := RecallFullMemory(memory.timestamp);
        u := ReciteMemory(fullMemory);
        RecitesBestMatch(cleanedData.value, embeddings.value, originalData, model.value(query), topN, order);
      } else {
        u := NoMemoryFound;
      }
    }
  }
}
