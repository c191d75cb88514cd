/**
 * What the modelled code asks of a pandas DataFrame: whether a name is one of its
 * columns (`name in df.columns`, or `df[name]` not raising KeyError) and whether a
 * column's dtype passes `is_numeric_dtype` / `is_datetime64_any_dtype`.
 */
module Frames {

  datatype Frame = Frame(columns: set<string>, numeric: set<string>, datetime: set<string>)

  predicate HasColumn(df: Frame, name: string) {
    name in df.columns
  }

  /** `pd.api.types.is_numeric_dtype(df[name])` for an existing column. */
  predicate IsNumeric(df: Frame, name: string) {
    name in df.numeric
  }

  /** `pd.api.types.is_datetime64_any_dtype(df[name])` for an existing column. */
  predicate IsDatetime(df: Frame, name: string) {
    name in df.datetime
  }

  /** Dtype facts describe columns only, and pandas never calls a datetime dtype numeric. */
  predicate WellFormed(df: Frame) {
    df.numeric <= df.columns && df.datetime <= df.columns && df.numeric !! df.datetime
  }
}
