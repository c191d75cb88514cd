/** `PlotTypeRegistry`: plot types by case-insensitive name, with their requirements. */
module PlotRegistry {
  import opened Wrappers
  import opened Text
  import opened Frames

  /** `PlotRequirements`, a dataclass of constraints on a plot's variables. */
  datatype PlotRequirements = PlotRequirements(minVariables: int, maxVariables: int, numericOnly: bool)

  /** `PlotRequirements()`: the dataclass defaults. */
  function DefaultRequirements(): (r: PlotRequirements)
    ensures r.minVariables == 1 && r.maxVariables == 2 && r.numericOnly
  {
    PlotRequirements(1, 2, true)
  }

  /** The `{"requirements": ..., "generator": ...}` dictionary stored per plot type. */
  datatype RegistryEntry<G> = RegistryEntry(requirements: PlotRequirements, generator: G)

  /**
   * The numeric-dtype check of `validate`, variable by variable: `df[var]` raises KeyError
   * for a missing column, and the first non-numeric column makes the answer False.
   */
  function CheckNumeric(variables: seq<string>, df: Frame): (r: Result<bool, PyError>)
    ensures r == Ok(true) <==> forall k :: 0 <= k < |variables| ==> HasColumn(df, variables[k]) && IsNumeric(df, variables[k])
    ensures r.Err? ==> exists k :: 0 <= k < |variables| && !HasColumn(df, variables[k]) && r.error == KeyError(variables[k])
    ensures r == Ok(false) ==> exists k :: 0 <= k < |variables| && HasColumn(df, variables[k]) && !IsNumeric(df, variables[k])
    ensures forall k :: 0 <= k < |variables| && NumericUpTo(variables, df, k) && !NumericColumn(df, variables[k]) ==>
      r == if HasColumn(df, variables[k]) then Ok(false) else Err(KeyError(variables[k]))
  {
    if variables == [] then Ok(true)
    else if !HasColumn(df, variables[0]) then Err(KeyError(variables[0]))
    else if !IsNumeric(df, variables[0]) then Ok(false)
    else
      var r := CheckNumeric(variables[1..], df);
      assert forall k :: 1 <= k < |variables| ==> variables[k] == variables[1..][k - 1];
      assert r.Err? ==> exists k :: 1 <= k < |variables| && !HasColumn(df, variables[k]) && r.error == KeyError(variables[k]) by {
        if r.Err? {
          var k :| 0 <= k < |variables[1..]| && !HasColumn(df, variables[1..][k]) && r.error == KeyError(variables[1..][k]);
          assert variables[k + 1] == variables[1..][k];
        }
      }
      assert forall k :: 1 <= k < |variables| && NumericUpTo(variables, df, k) ==> NumericUpTo(variables[1..], df, k - 1) by {
        forall k | 1 <= k < |variables| && NumericUpTo(variables, df, k) ensures NumericUpTo(variables[1..], df, k - 1) {
          forall j | 0 <= j < k - 1 ensures NumericColumn(df, variables[1..][j]) {
            assert variables[1..][j] == variables[j + 1];
          }
        }
      }
      assert r == Ok(false) ==> exists k :: 1 <= k < |variables| && HasColumn(df, variables[k]) && !IsNumeric(df, variables[k]) by {
        if r == Ok(false) {
          var k :| 0 <= k < |variables[1..]| && HasColumn(df, variables[1..][k]) && !IsNumeric(df, variables[1..][k]);
          assert variables[k + 1] == variables[1..][k];
        }
      }
      r
  }

  /** `df[v]` exists and has a numeric dtype. */
  predicate NumericColumn(df: Frame, v: string) {
    HasColumn(df, v) && IsNumeric(df, v)
  }

  /** The variables before position `k` all pass the numeric check. */
  predicate NumericUpTo(variables: seq<string>, df: Frame, k: nat)
    requires k <= |variables|
  {
    forall j :: 0 <= j < k ==> NumericColumn(df, variables[j])
  }

  /** What `validate(name, variables, df)` returns, or the KeyError it raises. */
  function ValidateSpec<G>(registry: map<string, RegistryEntry<G>>, name: string, variables: seq<string>, df: Frame)
    : Result<bool, PyError>
  {
    var key := Lower(name);
    if key !in registry then Ok(false)
    else
      var req := registry[key].requirements;
      if !(req.minVariables <= |variables| <= req.maxVariables) then Ok(false)
      else if req.numericOnly then CheckNumeric(variables, df)
      else Ok(true)
  }

  /**
   * `validate` answers False for an unknown name and for a variable count outside
   * `[min_variables, max_variables]`; otherwise, without `numeric_only`, True, and with it,
   * True exactly when every variable is a numeric column (a missing column raises).
   */
  lemma ValidateCases<G>(registry: map<string, RegistryEntry<G>>, name: string, variables: seq<string>, df: Frame)
    ensures Lower(name) !in registry ==> ValidateSpec(registry, name, variables, df) == Ok(false)
    ensures Lower(name) in registry ==>
      var req := registry[Lower(name)].requirements;
      && (!(req.minVariables <= |variables| <= req.maxVariables) ==> ValidateSpec(registry, name, variables, df) == Ok(false))
      && (req.minVariables <= |variables| <= req.maxVariables && !req.numericOnly ==>
            ValidateSpec(registry, name, variables, df) == Ok(true))
      && (req.numericOnly ==>
            (ValidateSpec(registry, name, variables, df) == Ok(true) <==>
              req.minVariables <= |variables| <= req.maxVariables
              && forall k :: 0 <= k < |variables| ==> HasColumn(df, variables[k]) && IsNumeric(df, variables[k])))
  {
  }

  /** Keys in a sequence without repetitions. */
  predicate NoDuplicates(s: seq<string>) {
    forall i, j :: 0 <= i < j < |s| ==> s[i] != s[j]
  }

  class PlotTypeRegistry<G> {
    /** `_registry`, keyed by lower-cased plot type name. */
    var registry: map<string, RegistryEntry<G>>
    /** The keys of `_registry` in insertion order, which is the order a Python dict keeps. */
    var names: seq<string>

    ghost predicate Valid()
      reads this
    {
      NoDuplicates(names) && forall k :: k in registry <==> k in names
    }

    constructor ()
      ensures Valid() && registry == map[] && names == []
    {
      registry := map[];
      names := [];
    }

    /**
     * `register(name, requirements, generator)`: stores the entry under `name.lower()`,
     * replacing an earlier one in place; a new name goes to the end of the listing.
     */
    method Register(name: string, requirements: PlotRequirements, generator: G)
      requires Valid()
      modifies this
      ensures Valid()
      ensures registry == old(registry)[Lower(name) := RegistryEntry(requirements, generator)]
      ensures names == if Lower(name) in old(registry) then old(names) else old(names) + [Lower(name)]
      ensures forall n :: Lower(n) == Lower(name) ==> GetGenerator(n) == Some(generator)
    {
      var key := Lower(name);
      if key !in registry {
        names := names + [key];
      }
      registry := registry[key := RegistryEntry(requirements, generator)];
      forall n | Lower(n) == Lower(name) ensures GetGenerator(n) == Some(generator) {
        LowerIdempotent(n);
      }
    }

    /** `get_generator(name)`: looks the name up case-insensitively; None if never registered. */
    function GetGenerator(name: string): (r: Option<G>)
      reads this
      ensures r.Some? <==> Lower(name) in registry
      ensures r.Some? ==> r.value == registry[Lower(name)].generator
    {
      if Lower(name) in registry then Some(registry[Lower(name)].generator) else None
    }

    /** `validate(name, variables, df)`. */
    method Validate(name: string, variables: seq<string>, df: Frame) returns (r: Result<bool, PyError>)
      ensures r == ValidateSpec(registry, name, variables, df)
    {
      var key := Lower(name);
      if key !in registry {
        return Ok(false);
      }
      var req := registry[key].requirements;
      if !(req.minVariables <= |variables| <= req.maxVariables) {
        return Ok(false);
      }
      if req.numericOnly {
        var i := 0;
        while i < |variables|
          invariant 0 <= i <= |variables|
          invariant CheckNumeric(variables[i..], df) == CheckNumeric(variables, df)
        {
          assert variables[i..][1..] == variables[i + 1..];
          if !HasColumn(df, variables[i]) {
            return Err(KeyError(variables[i]));
          }
          if !IsNumeric(df, variables[i]) {
            return Ok(false);
          }
          i := i + 1;
        }
      }
      return Ok(true);
    }

    /** `list_plot_types()`: every registered name once, in first-registration order. */
    function ListPlotTypes(): (r: seq<string>)
      requires Valid()
      reads this
      ensures NoDuplicates(r)
      ensures forall k :: k in r <==> k in registry
    {
      names
    }
  }
}
