/** `CostOptimizedStrategy`: cheapest models first, escalating to pricier ones. */
module CostOptimized {
  import opened Wrappers
  import opened Strategy
  import opened StableSort

  /** `cost_map.get(model_name, float("inf"))`: a model without a known cost sorts last. */
  function CostOf(costMap: map<string, real>, pm: ProviderModel): Rank {
    if pm.model in costMap then Fin(costMap[pm.model]) else PosInf
  }

  /** The sort key of the constructor, as a function value. */
  function CostKey(costMap: map<string, real>): ProviderModel -> Rank {
    pm => CostOf(costMap, pm)
  }

  /** The strategy's state; `costMap` is what the provider manager's `get_model_costs()` returned. */
  datatype CostOptimizedStrategy = CostOptimizedStrategy(
    providerModels: seq<ProviderModel>,
    costMap: map<string, real>,
    modelList: seq<ProviderModel>)

  /** The constructor's invariant: `model_list` is `sorted(provider_models, key=cost)`. */
  predicate Valid(s: CostOptimizedStrategy) {
    s.modelList == SortBy(s.providerModels, CostKey(s.costMap))
  }

  /**
   * The constructor: `model_list` is a permutation of `provider_models`, ascending by cost,
   * with unknown-cost models after all known ones, and stable: models of equal cost keep
   * their input order.
   */
  function NewCostOptimized(providerModels: seq<ProviderModel>, costMap: map<string, real>)
    : (s: CostOptimizedStrategy)
    ensures Valid(s) && s.providerModels == providerModels && s.costMap == costMap
    ensures multiset(s.modelList) == multiset(providerModels)
    ensures forall i, j :: 0 <= i < j < |s.modelList| ==>
      RankLe(CostOf(costMap, s.modelList[i]), CostOf(costMap, s.modelList[j]))
    ensures forall i, j :: 0 <= i < j < |s.modelList| && s.modelList[j].model in costMap ==>
      s.modelList[i].model in costMap
    ensures forall k :: WithRank(s.modelList, CostKey(costMap), k) == WithRank(providerModels, CostKey(costMap), k)
  {
    var ml := SortBy(providerModels, CostKey(costMap));
    assert forall i, j :: 0 <= i < j < |ml| ==> RankLe(CostKey(costMap)(ml[i]), CostKey(costMap)(ml[j]));
    CostOptimizedStrategy(providerModels, costMap, ml)
  }

  /**
   * `select_models(n)`: `model_list[:n]`; for `n >= 0` the first `min(n, len)` models, and
   * none of them costs more than any model left out.
   */
  function SelectModels(s: CostOptimizedStrategy, n: int): (r: seq<ProviderModel>)
    requires Valid(s)
    ensures n >= 0 ==> r == s.modelList[..Min(n, |s.modelList|)]
    ensures n < 0 ==> r == s.modelList[..Max(0, |s.modelList| + n)]
    ensures forall i, j :: 0 <= i < |r| <= j < |s.modelList| ==>
      RankLe(CostOf(s.costMap, r[i]), CostOf(s.costMap, s.modelList[j]))
  {
    var r := PySliceTo(s.modelList, n);
    assert forall i, j :: 0 <= i < j < |s.modelList| ==>
      RankLe(CostKey(s.costMap)(s.modelList[i]), CostKey(s.costMap)(s.modelList[j]));
    r
  }

  /** `select_model(iteration, current_explanation)`: the clamped selection over `model_list`. */
  function SelectModel(s: CostOptimizedStrategy, iteration: int, currentExplanation: Option<string>)
    : (r: Result<ProviderModel, PyError>)
    ensures s.modelList == [] <==> r == Err(ValueError(NoModels))
    ensures s.modelList != [] && iteration >= 0 ==> r == Ok(s.modelList[Min(iteration, |s.modelList| - 1)])
  {
    SelectClamped(s.modelList, iteration)
  }

  /** Escalation: a later iteration never selects a cheaper model than an earlier one. */
  lemma SelectModelEscalates(s: CostOptimizedStrategy, i: int, j: int)
    requires Valid(s) && s.modelList != [] && 0 <= i <= j
    ensures SelectModel(s, i, None).Ok? && SelectModel(s, j, None).Ok?
    ensures RankLe(CostOf(s.costMap, SelectModel(s, i, None).value), CostOf(s.costMap, SelectModel(s, j, None).value))
  {
    var n := |s.modelList|;
    var a, b := Min(i, n - 1), Min(j, n - 1);
    assert a <= b;
    if a < b {
      assert RankLe(CostKey(s.costMap)(s.modelList[a]), CostKey(s.costMap)(s.modelList[b]));
    }
  }
}
