/** `FallbackChainStrategy`: tries the models in their given order. */
module FallbackChain {
  import opened Wrappers
  import opened Strategy

  class FallbackChainStrategy {
    const providerModels: seq<ProviderModel>
    /** The constructor's list itself; it is never reordered. */
    const modelList: seq<ProviderModel>
    /** Written by `report_success` only; nothing reads it. */
    var lastSuccessIndex: int

    constructor (providerModels: seq<ProviderModel>)
      ensures this.providerModels == providerModels && modelList == providerModels
      ensures lastSuccessIndex == 0
    {
      this.providerModels := providerModels;
      modelList := providerModels;
      lastSuccessIndex := 0;
    }

    /**
     * `select_model`: the clamped selection over the unchanged list. It reads no
     * mutable field, so `ReportSuccess` cannot influence it.
     */
    function SelectModel(iteration: int, currentExplanation: Option<string>)
      : (r: Result<ProviderModel, PyError>)
      ensures modelList == [] <==> r == Err(ValueError(NoModels))
      ensures modelList != [] && iteration >= 0 ==>
        r == Ok(modelList[Min(iteration, |modelList| - 1)])
      ensures modelList != [] && iteration >= |modelList| - 1 ==> r == Ok(modelList[|modelList| - 1])
    {
      SelectClamped(modelList, iteration)
    }

    /** `report_success(index)`: records the index and changes nothing else. */
    method ReportSuccess(index: int)
      modifies this`lastSuccessIndex
      ensures lastSuccessIndex == index
    {
      lastSuccessIndex := index;
    }
  }
}
