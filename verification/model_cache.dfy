/**
  The lazily loaded, process-wide embedding model of `ml_insert.py`.

  The module-level variable `_model_cache` becomes an explicit `Cache` value
  that every call takes and returns. Constructing a `SentenceTransformer`
  (which may download weights and may fail) is an input to the call: the
  `attempt` says what the constructor would produce if it were called now.
 */
module ModelCache {
  import opened Common

  /** A loaded sentence-embedding model, identified by its configured name. */
  datatype EmbeddingModel = EmbeddingModel(name: string)

  /** `_model_cache`: empty until a load succeeds. */
  type Cache = Option<EmbeddingModel>

  /** The default of the `EMBEDDING_MODEL` environment variable. */
  const DefaultModelName: string := "paraphrase-multilingual-MiniLM-L12-v2"

  /** The text of the `RuntimeError` raised when loading fails. */
  function LoadErrorMessage(modelName: string, reason: string): (msg: string)
    ensures |msg| > |reason|
    ensures msg[|msg| - |reason|..] == reason
  {
    "Failed to load embedding model '" + modelName + "': " + reason
  }

  /** One call of `get_embedding_model`: the new cache and either the model
      or the `RuntimeError` message. `attempt` is consulted only when the
      cache is empty. */
  function GetEmbeddingModel(cache: Cache, modelName: string, attempt: Result<EmbeddingModel, string>)
    : (out: (Cache, Result<EmbeddingModel, string>))
    ensures cache.Some? ==> out.0 == cache && out.1 == Ok(cache.value)
    ensures cache.None? && attempt.Ok? ==> out.0 == Some(attempt.value) && out.1 == attempt
    ensures cache.None? && attempt.Err? ==>
      out.0.None? && out.1 == Err(LoadErrorMessage(modelName, attempt.error))
    ensures out.1.Ok? <==> out.0.Some?
    ensures out.1.Ok? ==> out.0 == Some(out.1.value)
  {
    if cache.Some? then (cache, Ok(cache.value))
    else
      match attempt
      case Ok(m) => (Some(m), Ok(m))
      case Err(e) => (None, Err(LoadErrorMessage(modelName, e)))
  }

  /** `preload_model`: loads at start-up and reports whether it worked,
      swallowing the error. */
  function PreloadModel(cache: Cache, modelName: string, attempt: Result<EmbeddingModel, string>)
    : (out: (Cache, bool))
    ensures out.1 <==> out.0.Some?
    ensures cache.Some? ==> out.0 == cache
    ensures !out.1 ==> cache.None? && attempt.Err?
  {
    var (c, r) := GetEmbeddingModel(cache, modelName, attempt);
    (c, r.Ok?)
  }

  /** A run of successive `get_embedding_model` calls, the i-th seeing the
      i-th constructor outcome: the final cache and every call's result. */
  function Calls(cache: Cache, modelName: string, attempts: seq<Result<EmbeddingModel, string>>)
    : (out: (Cache, seq<Result<EmbeddingModel, string>>))
    ensures |out.1| == |attempts|
    ensures cache.Some? ==> out.0 == cache
    decreases |attempts|
  {
    if |attempts| == 0 then (cache, [])
    else
      var (c1, r1) := GetEmbeddingModel(cache, modelName, attempts[0]);
      var (c2, rs) := Calls(c1, modelName, attempts[1..]);
      (c2, [r1] + rs)
  }

  /** Once a call has returned a model, every later call returns that same
      model, whatever the constructor would do by then. */
  lemma {:induction false} LoadedModelIsSticky(
    cache: Cache, modelName: string, attempts: seq<Result<EmbeddingModel, string>>, i: nat, j: nat)
    requires i < j < |attempts|
    requires Calls(cache, modelName, attempts).1[i].Ok?
    ensures Calls(cache, modelName, attempts).1[j] == Calls(cache, modelName, attempts).1[i]
    decreases i
  {
    var (c1, r1) := GetEmbeddingModel(cache, modelName, attempts[0]);
    if i == 0 {
      CachedAnswersAll(c1, modelName, attempts[1..], j - 1);
    } else {
      LoadedModelIsSticky(c1, modelName, attempts[1..], i - 1, j - 1);
    }
  }

  /** With a model in the cache, every call in a run answers with it. */
  lemma {:induction false} CachedAnswersAll(
    cache: Cache, modelName: string, attempts: seq<Result<EmbeddingModel, string>>, k: nat)
    requires cache.Some? && k < |attempts|
    ensures Calls(cache, modelName, attempts).1[k] == Ok(cache.value)
    decreases k
  {
    if k > 0 {
      CachedAnswersAll(cache, modelName, attempts[1..], k - 1);
    }
  }

  /** A failed load leaves nothing behind: the next call tries again and
      succeeds as soon as the constructor does. */
  lemma FailureDoesNotPoison(
    cache: Cache, modelName: string, failure: string, m: EmbeddingModel)
    requires cache.None?
    ensures Calls(cache, modelName, [Err(failure), Ok(m)]).1 ==
            [Err(LoadErrorMessage(modelName, failure)), Ok(m)]
    ensures Calls(cache, modelName, [Err(failure), Ok(m)]).0 == Some(m)
  {
    var attempts: seq<Result<EmbeddingModel, string>> := [Err(failure), Ok(m)];
    assert attempts[1..] == [Ok(m)];
    assert attempts[1..][1..] == [];
  }
}
