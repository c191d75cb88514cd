/**
 * What the model-selection strategies share: the `(provider, model)` pair,
 * Python's list indexing and prefix slicing, and the clamped selection (the model at the
 * iteration, or the last one past the end) that three of them use.
 */
module Strategy {
  import opened Wrappers

  /** A `(provider_name, model_name)` tuple. */
  datatype ProviderModel = ProviderModel(provider: string, model: string)

  /** The message of the ValueError raised on an empty model list. */
  const NoModels := "No models available in strategy."

  function Min(a: int, b: int): int { if a <= b then a else b }
  function Max(a: int, b: int): int { if a >= b then a else b }

  /** Python's `s[i]`: a negative index counts from the end; out of range raises IndexError. */
  function PyIndex<T>(s: seq<T>, i: int): (r: Result<T, PyError>)
    ensures r.Ok? <==> -|s| <= i < |s|
    ensures r.Ok? ==> r.value == s[i % |s|]
    ensures r.Err? ==> r.error == IndexError
  {
    if 0 <= i < |s| then Ok(s[i])
    else if -|s| <= i < 0 then Ok(s[|s| + i])
    else Err(IndexError)
  }

  /** Python's `s[:n]`: a negative `n` drops that many elements from the end. */
  function PySliceTo<T>(s: seq<T>, n: int): (r: seq<T>)
    ensures n >= 0 ==> r == s[..Min(n, |s|)]
    ensures n < 0 ==> r == s[..Max(0, |s| + n)]
  {
    if n >= |s| then s
    else if n >= 0 then s[..n]
    else if |s| + n >= 0 then s[..|s| + n]
    else []
  }

  /**
   * `select_model` of the fallback-chain, cost- and performance-optimised strategies:
   * ValueError on an empty list. For a non-negative iteration the selection walks the list
   * and then stays on its last model; a negative one indexes from the end, and below
   * `-len` it raises IndexError.
   */
  function SelectClamped(modelList: seq<ProviderModel>, iteration: int): (r: Result<ProviderModel, PyError>)
    ensures modelList == [] ==> r == Err(ValueError(NoModels))
    ensures modelList != [] && 0 <= iteration < |modelList| ==> r == Ok(modelList[iteration])
    ensures modelList != [] && iteration >= |modelList| - 1 ==> r == Ok(modelList[|modelList| - 1])
    ensures modelList != [] && -|modelList| <= iteration < 0 ==> r == Ok(modelList[|modelList| + iteration])
    ensures modelList != [] && iteration < -|modelList| ==> r == Err(IndexError)
  {
    if |modelList| == 0 then Err(ValueError(NoModels))
    else PyIndex(modelList, Min(iteration, |modelList| - 1))
  }
}
