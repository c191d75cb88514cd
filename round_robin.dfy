/** `RoundRobinStrategy`: cycles through the model list by iteration number. */
module RoundRobin {
  import opened Wrappers
  import opened Strategy

  /**
   * The strategy's state. `modelList` is the constructor's list itself and
   * `lastIndex` is set to -1 and never read or updated again.
   */
  datatype RoundRobinStrategy = RoundRobinStrategy(
    providerModels: seq<ProviderModel>,
    modelList: seq<ProviderModel>,
    lastIndex: int)

  function NewRoundRobin(providerModels: seq<ProviderModel>): (s: RoundRobinStrategy)
    ensures s.modelList == s.providerModels == providerModels
  {
    RoundRobinStrategy(providerModels, providerModels, -1)
  }

  /**
   * `select_model(iteration, current_explanation)`: ValueError on an empty list, else the
   * model at `iteration % len(model_list)` (Python's `%`, which is Dafny's for a positive
   * divisor). `currentExplanation` is accepted and ignored.
   */
  function SelectModel(s: RoundRobinStrategy, iteration: int, currentExplanation: Option<string>)
    : (r: Result<ProviderModel, PyError>)
    ensures s.modelList == [] <==> r == Err(ValueError(NoModels))
    ensures r.Ok? ==> r.value in s.modelList
  {
    if |s.modelList| == 0 then Err(ValueError(NoModels))
    else Ok(s.modelList[iteration % |s.modelList|])
  }

  /** Selection is periodic with period `len(model_list)` and ignores the explanation. */
  lemma SelectModelPeriodic(s: RoundRobinStrategy, iteration: int, e1: Option<string>, e2: Option<string>)
    requires s.modelList != []
    ensures SelectModel(s, iteration, e1) == SelectModel(s, iteration + |s.modelList|, e2)
  {
    ModShift(iteration, 1, |s.modelList|);
  }

  /**
   * Fairness: within any `len(model_list)` consecutive iterations, starting anywhere,
   * the strategy hands out every position of the list.
   */
  lemma SelectModelCoversAll(s: RoundRobinStrategy, start: int, j: nat)
    requires j < |s.modelList|
    ensures exists i :: start <= i < start + |s.modelList| && SelectModel(s, i, None) == Ok(s.modelList[j])
  {
    var n := |s.modelList|;
    var q, off := (j - start) / n, (j - start) % n;
    assert j - start == q * n + off;
    assert start + off == j + (-q) * n;
    ModShift(j, -q, n);
    ModUnique(j, n, 0, j);
    assert SelectModel(s, start + off, None) == Ok(s.modelList[j]);
  }

  lemma {:induction false} MulAtLeast(a: int, n: int)
    requires a >= 1 && n > 0
    ensures a * n >= n
  {
    if a > 1 {
      MulAtLeast(a - 1, n);
      assert a * n == (a - 1) * n + n;
    }
  }

  /** Euclidean division is unique. */
  lemma ModUnique(x: int, n: int, q: int, r: int)
    requires n > 0 && 0 <= r < n && x == q * n + r
    ensures x % n == r && x / n == q
  {
    var d, m := x / n, x % n;
    assert x == d * n + m;
    assert (q - d) * n == m - r;
    if q > d { MulAtLeast(q - d, n); }
    else if q < d { MulAtLeast(d - q, n); }
  }

  lemma ModShift(a: int, k: int, n: int)
    requires n > 0
    ensures (a + k * n) % n == a % n
  {
    var q, r := a / n, a % n;
    assert a == q * n + r;
    assert a + k * n == (q + k) * n + r;
    ModUnique(a + k * n, n, q + k, r);
  }
}
