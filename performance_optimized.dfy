/** `PerformanceOptimizedStrategy`: best-scoring models first, falling back to weaker ones. */
module PerformanceOptimized {
  import opened Wrappers
  import opened Strategy
  import opened StableSort

  /** `performance_map.get(model_name, 0)`. */
  function ScoreOf(performanceMap: map<string, real>, pm: ProviderModel): real {
    if pm.model in performanceMap then performanceMap[pm.model] else 0.0
  }

  /**
   * `sorted(..., key=score, reverse=True)` is a stable sort descending by score, which is the
   * stable sort ascending by the negated score.
   */
  function ScoreKey(performanceMap: map<string, real>): ProviderModel -> Rank {
    pm => Fin(-ScoreOf(performanceMap, pm))
  }

  /** The models of `s` whose score is `v`, in their order in `s`. */
  function WithScore(s: seq<ProviderModel>, performanceMap: map<string, real>, v: real): seq<ProviderModel> {
    if s == [] then []
    else (if ScoreOf(performanceMap, s[0]) == v then [s[0]] else []) + WithScore(s[1..], performanceMap, v)
  }

  lemma {:induction false} WithScoreIsWithRank(s: seq<ProviderModel>, performanceMap: map<string, real>, v: real)
    ensures WithScore(s, performanceMap, v) == WithRank(s, ScoreKey(performanceMap), Fin(-v))
  {
    if s != [] {
      WithScoreIsWithRank(s[1..], performanceMap, v);
    }
  }

  /** The strategy's state; `performanceMap` is what `get_model_performance()` returned. */
  datatype PerformanceOptimizedStrategy = PerformanceOptimizedStrategy(
    providerModels: seq<ProviderModel>,
    performanceMap: map<string, real>,
    modelList: seq<ProviderModel>)

  predicate Valid(s: PerformanceOptimizedStrategy) {
    s.modelList == SortBy(s.providerModels, ScoreKey(s.performanceMap))
  }

  /**
   * The constructor: `model_list` is a permutation of `provider_models`, descending by score
   * (unknown models score 0), and stable: models of equal score keep their input order.
   */
  function NewPerformanceOptimized(providerModels: seq<ProviderModel>, performanceMap: map<string, real>)
    : (s: PerformanceOptimizedStrategy)
    ensures Valid(s) && s.providerModels == providerModels && s.performanceMap == performanceMap
    ensures multiset(s.modelList) == multiset(providerModels)
    ensures forall i, j :: 0 <= i < j < |s.modelList| ==>
      ScoreOf(performanceMap, s.modelList[i]) >= ScoreOf(performanceMap, s.modelList[j])
    ensures forall v :: WithScore(s.modelList, performanceMap, v) == WithScore(providerModels, performanceMap, v)
  {
    var ml := SortBy(providerModels, ScoreKey(performanceMap));
    assert forall i, j :: 0 <= i < j < |ml| ==> RankLe(ScoreKey(performanceMap)(ml[i]), ScoreKey(performanceMap)(ml[j]));
    forall v ensures WithScore(ml, performanceMap, v) == WithScore(providerModels, performanceMap, v) {
      WithScoreIsWithRank(ml, performanceMap, v);
      WithScoreIsWithRank(providerModels, performanceMap, v);
    }
    PerformanceOptimizedStrategy(providerModels, performanceMap, ml)
  }

  /**
   * `select_models(n)`: `model_list[:n]`; for `n >= 0` the first `min(n, len)` models, and
   * each of them scores at least as high as every model left out.
   */
  function SelectModels(s: PerformanceOptimizedStrategy, n: int): (r: seq<ProviderModel>)
    requires Valid(s)
    ensures n >= 0 ==> r == s.modelList[..Min(n, |s.modelList|)]
    ensures n < 0 ==> r == s.modelList[..Max(0, |s.modelList| + n)]
    ensures forall i, j :: 0 <= i < |r| <= j < |s.modelList| ==>
      ScoreOf(s.performanceMap, r[i]) >= ScoreOf(s.performanceMap, s.modelList[j])
  {
    var r := PySliceTo(s.modelList, n);
    assert forall i, j :: 0 <= i < j < |s.modelList| ==>
      RankLe(ScoreKey(s.performanceMap)(s.modelList[i]), ScoreKey(s.performanceMap)(s.modelList[j]));
    r
  }

  /** `select_model(iteration, current_explanation)`: the clamped selection over `model_list`. */
  function SelectModel(s: PerformanceOptimizedStrategy, iteration: int, currentExplanation: Option<string>)
    : (r: Result<ProviderModel, PyError>)
    ensures s.modelList == [] <==> r == Err(ValueError(NoModels))
    ensures s.modelList != [] && iteration >= 0 ==> r == Ok(s.modelList[Min(iteration, |s.modelList| - 1)])
  {
    SelectClamped(s.modelList, iteration)
  }

  /** Fallback: a later iteration never selects a better-scoring model than an earlier one. */
  lemma SelectModelFallsBack(s: PerformanceOptimizedStrategy, i: int, j: int)
    requires Valid(s) && s.modelList != [] && 0 <= i <= j
    ensures SelectModel(s, i, None).Ok? && SelectModel(s, j, None).Ok?
    ensures ScoreOf(s.performanceMap, SelectModel(s, i, None).value) >= ScoreOf(s.performanceMap, SelectModel(s, j, None).value)
  {
    var n := |s.modelList|;
    var a, b := Min(i, n - 1), Min(j, n - 1);
    if a < b {
      assert RankLe(ScoreKey(s.performanceMap)(s.modelList[a]), ScoreKey(s.performanceMap)(s.modelList[b]));
    }
  }
}
