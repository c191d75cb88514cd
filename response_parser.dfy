/**
 * `ResponseParser`: turns an LLM's free-text answer into recommendation records, and
 * reorders a recommendation's variables (datetime, then numeric, then the rest).
 */
module ResponseParser {
  import opened Wrappers
  import opened Text
  import opened Frames

  /** One parsed recommendation: the `{'source_model', 'plot_type', 'variables'}` dictionary. */
  datatype Recommendation = Recommendation(sourceModel: string, plotType: string, variables: string)

  /** The keys a block has set so far in its `rec` dictionary (besides `source_model`). */
  datatype Draft = Draft(plotType: Option<string>, variables: Option<string>)

  const PlotTypePrefix := "plot type:"
  const VariablesPrefix := "variables:"

  /** The text after the first colon of a line that has one (what the source takes with a split at most once on ':'). */
  function AfterColon(line: string): (r: string)
    requires ':' in line
    ensures |r| < |line|
    ensures line[|line| - |r| - 1] == ':' && ':' !in line[..|line| - |r| - 1]
    ensures r == line[|line| - |r|..]
  {
    var i := IndexOf(line, ":");
    assert i.Some? by {
      var j :| 0 <= j < |line| && line[j] == ':';
      assert OccursAt(line, ":", j) by { assert line[j..j + 1] == [line[j]]; }
    }
    var n := i.value;
    assert line[n..n + 1] == ":";
    assert line[n] == ':';
    forall j | 0 <= j < n ensures line[j] != ':' {
      assert !OccursAt(line, ":", j);
      assert line[j..j + 1] == [line[j]];
    }
    line[n + 1..]
  }

  /** A line that lower-cases to something starting with a prefix ending in ':' has a colon. */
  lemma ColonInLine(line: string, prefix: string)
    requires StartsWith(Lower(line), prefix) && prefix != [] && prefix[|prefix| - 1] == ':'
    ensures ':' in line
  {
    var j := |prefix| - 1;
    assert Lower(line)[j] == ':' == LowerChar(line[j]);
  }

  predicate IsPlotTypeLine(line: string) { StartsWith(Lower(line), PlotTypePrefix) }
  predicate IsVariablesLine(line: string) { StartsWith(Lower(line), VariablesPrefix) }

  /** The stripped names among `parts` that are columns of `df`, in order. */
  function KnownColumns(parts: seq<string>, df: Frame): (r: seq<string>)
    ensures |r| <= |parts|
    ensures forall k :: 0 <= k < |r| ==> HasColumn(df, r[k])
  {
    if parts == [] then []
    else (if HasColumn(df, Strip(parts[0])) then [Strip(parts[0])] else []) + KnownColumns(parts[1..], df)
  }

  /** A single name is kept, stripped, exactly when it is a column ... */
  lemma KnownColumnsOne(p: string, df: Frame)
    ensures KnownColumns([p], df) == if HasColumn(df, Strip(p)) then [Strip(p)] else []
  {
    assert [p][1..] == [];
  }

  /** ... and the kept names of a concatenation are concatenated, so their order is kept. */
  lemma {:induction false} KnownColumnsAppend(a: seq<string>, b: seq<string>, df: Frame)
    ensures KnownColumns(a + b, df) == KnownColumns(a, df) + KnownColumns(b, df)
  {
    if a == [] {
      assert a + b == b;
    } else {
      assert (a + b)[0] == a[0] && (a + b)[1..] == a[1..] + b;
      var head := if HasColumn(df, Strip(a[0])) then [Strip(a[0])] else [];
      assert KnownColumns(a + b, df) == head + KnownColumns(a[1..] + b, df);
      KnownColumnsAppend(a[1..], b, df);
      assert KnownColumns(a, df) == head + KnownColumns(a[1..], df);
    }
  }

  /** The `plot_type` a plot-type line sets: the text after the first ':', stripped and lower-cased. */
  function PlotTypeOf(line: string): string
    requires IsPlotTypeLine(line)
  {
    ColonInLine(line, PlotTypePrefix);
    Lower(Strip(AfterColon(line)))
  }

  /**
   * The `variables` a variables line sets: the comma-separated names after the first ':',
   * stripped, that are columns of `df`, joined by ", ". (The source filters the names by
   * `in df.columns` a second time before joining; that second filter keeps every name.)
   */
  function VariablesOf(line: string, df: Frame): string
    requires IsVariablesLine(line)
  {
    ColonInLine(line, VariablesPrefix);
    Join(KnownColumns(Split(Strip(AfterColon(line)), ","), df), ", ")
  }

  /** How one line of a block updates `rec`; a later line overrides an earlier one. */
  function LineStep(d: Draft, line: string, df: Frame): Draft {
    if IsPlotTypeLine(line) then d.(plotType := Some(PlotTypeOf(line)))
    else if IsVariablesLine(line) then d.(variables := Some(VariablesOf(line, df)))
    else d
  }

  /** `rec` after the block's lines, in order. */
  function DraftAfter(lines: seq<string>, df: Frame): Draft {
    if lines == [] then Draft(None, None)
    else LineStep(DraftAfter(lines[..|lines| - 1], df), lines[|lines| - 1], df)
  }

  /** The stripped, non-blank lines of a block. */
  function BlockLines(block: string): (r: seq<string>)
    ensures forall m :: 0 <= m < |r| ==> r[m] != [] && Stripped(r[m]) && '\n' !in r[m]
  {
    var parts := Split(block, "\n");
    forall k | 0 <= k < |parts| ensures '\n' !in parts[k] {
      forall j | 0 <= j < |parts[k]| ensures parts[k][j] != '\n' {
        assert !OccursAt(parts[k], "\n", j);
        assert parts[k][j..j + 1] == [parts[k][j]];
      }
    }
    StrippedNonBlankChars(parts, '\n');
    StrippedNonBlank(parts)
  }

  /**
   * The record a block with these stripped, non-blank lines yields: only one whose lines set a
   * plot type and a non-empty variables string.
   */
  function LinesRecommendation(lines: seq<string>, model: string, df: Frame): Option<Recommendation> {
    if lines == [] then None
    else
      var d := DraftAfter(lines, df);
      if d.plotType.Some? && d.variables.Some? && d.variables.value != "" then
        Some(Recommendation(model, d.plotType.value, d.variables.value))
      else None
  }

  /** The stripped, non-blank pieces of the response between "---" separators. */
  function Blocks(response: string): seq<string> {
    StrippedNonBlank(Split(response, "---"))
  }

  /** The lines of every block, block by block. */
  function LinesOfBlocks(blocks: seq<string>): (r: seq<seq<string>>)
    ensures |r| == |blocks| && forall k :: 0 <= k < |r| ==> r[k] == BlockLines(blocks[k])
    ensures forall k, m :: 0 <= k < |r| && 0 <= m < |r[k]| ==> r[k][m] != [] && Stripped(r[k][m]) && '\n' !in r[k][m]
  {
    seq(|blocks|, k requires 0 <= k < |blocks| => BlockLines(blocks[k]))
  }

  function OptionToSeq<T>(o: Option<T>): seq<T> {
    if o.Some? then [o.value] else []
  }

  /** The records of the blocks, given by their lines, in block order. */
  function RecommendationsOf(blocks: seq<seq<string>>, model: string, df: Frame): seq<Recommendation> {
    if blocks == [] then []
    else
      RecommendationsOf(blocks[..|blocks| - 1], model, df)
        + OptionToSeq(LinesRecommendation(blocks[|blocks| - 1], model, df))
  }

  /** What `parse_recommendations(response, model)` returns. */
  function ParseSpec(response: string, model: string, df: Frame): seq<Recommendation> {
    RecommendationsOf(LinesOfBlocks(Blocks(response)), model, df)
  }

  /**
   * A later plot-type line overrides an earlier one: the block's `plot_type` comes from its
   * last plot-type line.
   */
  lemma {:induction false} LastPlotTypeLineWins(a: seq<string>, line: string, b: seq<string>, df: Frame)
    requires IsPlotTypeLine(line)
    requires forall k :: 0 <= k < |b| ==> !IsPlotTypeLine(b[k])
    ensures DraftAfter(a + [line] + b, df).plotType == Some(PlotTypeOf(line))
  {
    assert (a + [line])[..|a + [line]| - 1] == a;
    PlotTypeKept(a + [line], b, df);
  }

  /** Lines that are not plot-type lines keep the block's `plot_type` as it was. */
  lemma {:induction false} PlotTypeKept(a: seq<string>, b: seq<string>, df: Frame)
    requires forall k :: 0 <= k < |b| ==> !IsPlotTypeLine(b[k])
    ensures DraftAfter(a + b, df).plotType == DraftAfter(a, df).plotType
  {
    if b != [] {
      var p, x := a + b[..|b| - 1], b[|b| - 1];
      assert a + b == p + [x];
      DraftAfterSnoc(p, x, df);
      PlotTypeKept(a, b[..|b| - 1], df);
      OtherLineKeepsPlotType(DraftAfter(p, df), x, df);
    } else {
      assert a + b == a;
    }
  }

  /** Likewise the block's `variables` come from its last variables line. */
  lemma {:induction false} LastVariablesLineWins(a: seq<string>, line: string, b: seq<string>, df: Frame)
    requires IsVariablesLine(line) && !IsPlotTypeLine(line)
    requires forall k :: 0 <= k < |b| ==> !IsVariablesLine(b[k]) || IsPlotTypeLine(b[k])
    ensures DraftAfter(a + [line] + b, df).variables == Some(VariablesOf(line, df))
  {
    VariablesLineSets(DraftAfter(a, df), line, df);
    assert (a + [line])[..|a + [line]| - 1] == a;
    VariablesKept(a + [line], b, df);
  }

  /** Lines that set no `variables` keep the block's `variables` as they were. */
  lemma {:induction false} VariablesKept(a: seq<string>, b: seq<string>, df: Frame)
    requires forall k :: 0 <= k < |b| ==> !IsVariablesLine(b[k]) || IsPlotTypeLine(b[k])
    ensures DraftAfter(a + b, df).variables == DraftAfter(a, df).variables
  {
    if b != [] {
      var p, x := a + b[..|b| - 1], b[|b| - 1];
      assert a + b == p + [x];
      DraftAfterSnoc(p, x, df);
      VariablesKept(a, b[..|b| - 1], df);
      OtherLineKeepsVariables(DraftAfter(p, df), x, df);
    } else {
      assert a + b == a;
    }
  }

  lemma VariablesLineSets(d: Draft, line: string, df: Frame)
    requires IsVariablesLine(line) && !IsPlotTypeLine(line)
    ensures LineStep(d, line, df).variables == Some(VariablesOf(line, df))
  {
  }

  /** `rec` after one more line is that line's step from `rec` before it. */
  lemma DraftAfterSnoc(p: seq<string>, x: string, df: Frame)
    ensures DraftAfter(p + [x], df) == LineStep(DraftAfter(p, df), x, df)
  {
    assert (p + [x])[..|p + [x]| - 1] == p;
  }

  lemma OtherLineKeepsPlotType(d: Draft, line: string, df: Frame)
    requires !IsPlotTypeLine(line)
    ensures LineStep(d, line, df).plotType == d.plotType
  {
  }

  lemma OtherLineKeepsVariables(d: Draft, line: string, df: Frame)
    requires !IsVariablesLine(line) || IsPlotTypeLine(line)
    ensures LineStep(d, line, df).variables == d.variables
  {
  }

  /** A `plot_type` is set only by a plot-type line, and `variables` only by a variables line. */
  lemma {:induction false} DraftSources(lines: seq<string>, df: Frame)
    ensures DraftAfter(lines, df).plotType.Some? ==>
      exists k :: 0 <= k < |lines| && IsPlotTypeLine(lines[k])
        && DraftAfter(lines, df).plotType.value == PlotTypeOf(lines[k])
    ensures DraftAfter(lines, df).variables.Some? ==>
      exists k :: 0 <= k < |lines| && IsVariablesLine(lines[k])
        && DraftAfter(lines, df).variables.value == VariablesOf(lines[k], df)
  {
    if lines != [] {
      var p := lines[..|lines| - 1];
      DraftSources(p, df);
      forall k | 0 <= k < |p| ensures lines[k] == p[k] { }
    }
  }

  /** The records are in block order with at most one per block, and each is well formed. */
  lemma {:induction false} RecommendationsShape(blocks: seq<seq<string>>, model: string, df: Frame)
    ensures |RecommendationsOf(blocks, model, df)| <= |blocks|
    ensures forall k :: 0 <= k < |RecommendationsOf(blocks, model, df)| ==>
      var r := RecommendationsOf(blocks, model, df)[k];
      r.sourceModel == model && r.variables != "" && Lower(r.plotType) == r.plotType
  {
    if blocks != [] {
      var p := blocks[..|blocks| - 1];
      RecommendationsShape(p, model, df);
      var lines := blocks[|blocks| - 1];
      var o := LinesRecommendation(lines, model, df);
      if o.Some? {
        DraftSources(lines, df);
        var k :| 0 <= k < |lines| && IsPlotTypeLine(lines[k]) && o.value.plotType == PlotTypeOf(lines[k]);
        ColonInLine(lines[k], PlotTypePrefix);
        LowerIdempotent(Strip(AfterColon(lines[k])));
      }
    }
  }

  /** Appending a block appends its record, if any: records come out in block order. */
  lemma {:induction false} RecommendationsAppend(a: seq<seq<string>>, b: seq<seq<string>>, model: string, df: Frame)
    ensures RecommendationsOf(a + b, model, df) == RecommendationsOf(a, model, df) + RecommendationsOf(b, model, df)
  {
    if b == [] {
      assert a + b == a;
    } else {
      assert (a + b)[..|a + b| - 1] == a + b[..|b| - 1];
      RecommendationsAppend(a, b[..|b| - 1], model, df);
    }
  }

  /** A row of the recommendations DataFrame: its `variables` cell and everything else. */
  datatype Row<X> = Row(variables: string, rest: X)

  /** The first name that is not a column (`df[var]` raises KeyError for it). */
  function FirstMissing(names: seq<string>, df: Frame): (r: Option<string>)
    ensures r.None? <==> forall k :: 0 <= k < |names| ==> HasColumn(df, names[k])
    ensures r.Some? ==> r.value in names && !HasColumn(df, r.value)
  {
    if names == [] then None
    else if !HasColumn(df, names[0]) then Some(names[0])
    else
      var r := FirstMissing(names[1..], df);
      assert forall k :: 1 <= k < |names| ==> names[k] == names[1..][k - 1];
      r
  }

  /** The names whose column is numeric, in order. */
  function NumericVars(names: seq<string>, df: Frame): seq<string> {
    if names == [] then []
    else (if IsNumeric(df, names[0]) then [names[0]] else []) + NumericVars(names[1..], df)
  }

  /** The names whose column holds datetimes, in order. */
  function DateVars(names: seq<string>, df: Frame): seq<string> {
    if names == [] then []
    else (if IsDatetime(df, names[0]) then [names[0]] else []) + DateVars(names[1..], df)
  }

  /** The names in neither of the two lists, in order. */
  function OtherVars(names: seq<string>, numerical: seq<string>, dates: seq<string>): seq<string> {
    if names == [] then []
    else (if names[0] !in numerical && names[0] !in dates then [names[0]] else []) + OtherVars(names[1..], numerical, dates)
  }

  /** `date_vars + numerical_vars + non_numerical_vars` for the given names. */
  function Regrouped(names: seq<string>, df: Frame): seq<string> {
    DateVars(names, df) + NumericVars(names, df) + OtherVars(names, NumericVars(names, df), DateVars(names, df))
  }

  /**
   * `_reorder_variables` on one `variables` cell: the comma-separated names, stripped,
   * regrouped and joined by ", "; KeyError for a name that is not a column.
   */
  function ReorderVariables(variables: string, df: Frame): Result<string, PyError> {
    var names := seq(|Split(variables, ",")|, k requires 0 <= k < |Split(variables, ",")| => Strip(Split(variables, ",")[k]));
    match FirstMissing(names, df)
    case Some(v) => Err(KeyError(v))
    case None => Ok(Join(Regrouped(names, df), ", "))
  }

  lemma {:induction false} NumericVarsMember(names: seq<string>, df: Frame, v: string)
    ensures v in NumericVars(names, df) <==> v in names && IsNumeric(df, v)
  {
    if names != [] {
      NumericVarsMember(names[1..], df, v);
      assert names == [names[0]] + names[1..];
    }
  }

  lemma {:induction false} DateVarsMember(names: seq<string>, df: Frame, v: string)
    ensures v in DateVars(names, df) <==> v in names && IsDatetime(df, v)
  {
    if names != [] {
      DateVarsMember(names[1..], df, v);
      assert names == [names[0]] + names[1..];
    }
  }

  /** On names drawn from `all`, the three groups split the multiset of names exactly. */
  lemma {:induction false} RegroupedMultiset(names: seq<string>, all: seq<string>, df: Frame)
    requires WellFormed(df)
    requires forall k :: 0 <= k < |names| ==> names[k] in all
    ensures multiset(DateVars(names, df)) + multiset(NumericVars(names, df))
      + multiset(OtherVars(names, NumericVars(all, df), DateVars(all, df))) == multiset(names)
  {
    if names != [] {
      var v := names[0];
      RegroupedMultiset(names[1..], all, df);
      NumericVarsMember(all, df, v);
      DateVarsMember(all, df, v);
      assert names == [v] + names[1..];
      assert !(IsNumeric(df, v) && IsDatetime(df, v));
    }
  }

  /**
   * `_reorder_variables` only reorders: for a well-formed frame the regrouped list is a
   * permutation of the names, datetime names first, then numeric ones, then the rest.
   */
  lemma RegroupedIsPermutation(names: seq<string>, df: Frame)
    requires WellFormed(df)
    ensures multiset(Regrouped(names, df)) == multiset(names)
    ensures forall k :: 0 <= k < |DateVars(names, df)| ==> IsDatetime(df, Regrouped(names, df)[k])
  {
    RegroupedMultiset(names, names, df);
    forall k | 0 <= k < |DateVars(names, df)| ensures IsDatetime(df, Regrouped(names, df)[k]) {
      DateVarsAre(names, df, k);
    }
  }

  lemma {:induction false} DateVarsAre(names: seq<string>, df: Frame, k: nat)
    requires k < |DateVars(names, df)|
    ensures IsDatetime(df, DateVars(names, df)[k])
  {
    var d := DateVars(names, df)[k];
    DateVarsMember(names, df, d);
  }

  /** `validate_variable_order`: every row's `variables` reordered; the first failing row raises. */
  function ValidateVariableOrderSpec<X>(rows: seq<Row<X>>, df: Frame): Result<seq<Row<X>>, PyError> {
    if rows == [] then Ok([])
    else
      match ReorderVariables(rows[0].variables, df)
      case Err(e) => Err(e)
      case Ok(v) =>
        match ValidateVariableOrderSpec(rows[1..], df)
        case Err(e) => Err(e)
        case Ok(rest) => Ok([rows[0].(variables := v)] + rest)
  }

  /**
   * On success the result has as many rows as the input, in the same order, and each row
   * differs from its input row in its `variables` cell only, which is the reordered one.
   */
  lemma {:induction false} ValidateVariableOrderRows<X>(rows: seq<Row<X>>, df: Frame)
    ensures var r := ValidateVariableOrderSpec(rows, df);
      r.Ok? ==>
        && |r.value| == |rows|
        && (forall k :: 0 <= k < |rows| ==>
              r.value[k].rest == rows[k].rest && ReorderVariables(rows[k].variables, df) == Ok(r.value[k].variables))
    ensures ValidateVariableOrderSpec(rows, df).Err? <==>
      exists k :: 0 <= k < |rows| && ReorderVariables(rows[k].variables, df).Err?
  {
    if rows != [] {
      ValidateVariableOrderRows(rows[1..], df);
      assert forall k :: 1 <= k < |rows| ==> rows[k] == rows[1..][k - 1];
      if ReorderVariables(rows[0].variables, df).Ok? && ValidateVariableOrderSpec(rows[1..], df).Err? {
        var k :| 0 <= k < |rows[1..]| && ReorderVariables(rows[1..][k].variables, df).Err?;
        assert rows[k + 1] == rows[1..][k];
      }
    }
  }

  class ResponseParser {
    const df: Frame
    const debug: bool

    constructor (df: Frame, debug: bool)
      ensures this.df == df && this.debug == debug
    {
      this.df := df;
      this.debug := debug;
    }

    /** `parse_recommendations(response, model)`: block by block. */
    method ParseRecommendations(response: string, model: string) returns (recommendations: seq<Recommendation>)
      ensures recommendations == ParseSpec(response, model, df)
    {
      recommendations := [];
      var blocks := Blocks(response);
      ghost var all := LinesOfBlocks(blocks);
      var b := 0;
      while b < |blocks|
        invariant 0 <= b <= |blocks|
        invariant recommendations == RecommendationsOf(all[..b], model, df)
      {
        assert all[..b + 1][..b] == all[..b];
        var lines := BlockLines(blocks[b]);
        var o := ParseBlock(lines, model);
        if o.Some? {
          recommendations := recommendations + [o.value];
        }
        b := b + 1;
      }
      assert all[..b] == all;
    }

    /** One block of `parse_recommendations`: line by line, a later line overriding an earlier one. */
    method ParseBlock(lines: seq<string>, model: string) returns (o: Option<Recommendation>)
      ensures o == LinesRecommendation(lines, model, df)
    {
      if lines == [] {
        return None;
      }
      var plotType: Option<string> := None;
      var variables: Option<string> := None;
      var i := 0;
      while i < |lines|
        invariant 0 <= i <= |lines|
        invariant Draft(plotType, variables) == DraftAfter(lines[..i], df)
      {
        assert lines[..i + 1][..i] == lines[..i];
        var line := lines[i];
        if IsPlotTypeLine(line) {
          plotType := Some(PlotTypeOf(line));
        } else if IsVariablesLine(line) {
          variables := Some(VariablesOf(line, df));
        }
        i := i + 1;
      }
      assert lines[..i] == lines;
      if plotType.Some? && variables.Some? && variables.value != "" {
        o := Some(Recommendation(model, plotType.value, variables.value));
      } else {
        o := None;
      }
    }

    /** `validate_variable_order(recommendations)`. */
    function ValidateVariableOrder<X>(rows: seq<Row<X>>): (r: Result<seq<Row<X>>, PyError>)
      ensures r.Ok? ==> |r.value| == |rows| && forall k :: 0 <= k < |rows| ==> r.value[k].rest == rows[k].rest
    {
      ValidateVariableOrderRows(rows, df);
      ValidateVariableOrderSpec(rows, df)
    }
  }
}
