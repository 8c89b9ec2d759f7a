/**
  The record table of the dashboard: an ordered sequence of rows, each a mapping
  from column name to a cell value, together with each column's declared dtype.
  Filtering never changes a column's dtype, only which rows are present.
*/
module Frames {
  import opened Seqs

  /**
    A cell: a string, a number, the missing marker (NaN), or a value that cannot be
    put in a set (a list or dict cell; building a set of such a column raises TypeError).
  */
  datatype Value = Str(text: string) | Num(x: real) | Missing | Unhashable

  type Row = map<string, Value>

  /** The dtypes the filter engine distinguishes: `category`, a numeric dtype, and `object`. */
  datatype DType = CategoryDType | NumericDType | ObjectDType

  datatype Frame = Frame(dtypes: map<string, DType>, rows: seq<Row>)

  /** The value of column `c` in `row`; a column a row does not carry reads as missing. */
  function Cell(row: Row, c: string): Value
  {
    if c in row then row[c] else Missing
  }

  function DTypeOf(df: Frame, c: string): DType
  {
    if c in df.dtypes then df.dtypes[c] else ObjectDType
  }

  /** `unique()`: the distinct values of column `c`, the missing marker included. */
  function Unique(rows: seq<Row>, c: string): set<Value>
  {
    if rows == [] then {} else {Cell(rows[0], c)} + Unique(rows[1..], c)
  }

  /** `nunique()`: the number of distinct non-missing values of column `c`, each counted at its last occurrence. */
  function NUnique(rows: seq<Row>, c: string): nat
  {
    if rows == [] then 0
    else (if Cell(rows[0], c) == Missing || Cell(rows[0], c) in Unique(rows[1..], c) then 0 else 1)
         + NUnique(rows[1..], c)
  }

  /** Some row holds a string in column `c`. */
  function AnyText(rows: seq<Row>, c: string): bool
  {
    rows != [] && (Cell(rows[0], c).Str? || AnyText(rows[1..], c))
  }

  lemma {:induction false} AnyTextMembers(rows: seq<Row>, c: string)
    ensures AnyText(rows, c) <==> exists r :: r in rows && Cell(r, c).Str?
  {
    if rows != [] {
      AnyTextMembers(rows[1..], c);
      assert rows == [rows[0]] + rows[1..];
      if !Cell(rows[0], c).Str? && exists r :: r in rows && Cell(r, c).Str? {
        var r :| r in rows && Cell(r, c).Str?;
        assert r in rows[1..];
      }
    }
  }

  /** Building a set of the column's values succeeds: no cell is unhashable. */
  predicate Hashable(rows: seq<Row>, c: string)
  {
    Unhashable !in Unique(rows, c)
  }

  /** A numeric-dtype column holds only numbers and missing markers, as pandas guarantees. */
  predicate WellTyped(df: Frame)
  {
    forall r, c :: r in df.rows && c in df.dtypes && df.dtypes[c] == NumericDType ==>
      Cell(r, c).Num? || Cell(r, c).Missing?
  }

  /** The distinct values of a column are exactly the values its rows hold. */
  lemma {:induction false} UniqueMembers(rows: seq<Row>, c: string)
    ensures forall r :: r in rows ==> Cell(r, c) in Unique(rows, c)
    ensures forall v :: v in Unique(rows, c) ==> exists r :: r in rows && Cell(r, c) == v
  {
    if rows != [] {
      UniqueMembers(rows[1..], c);
      assert rows == [rows[0]] + rows[1..];
    }
  }

  /** The count is the number of distinct values other than the missing marker. */
  lemma {:induction false} NUniqueCounts(rows: seq<Row>, c: string)
    ensures NUnique(rows, c) == |Unique(rows, c) - {Missing}|
  {
    if rows != [] {
      NUniqueCounts(rows[1..], c);
      assert Unique(rows, c) == {Cell(rows[0], c)} + Unique(rows[1..], c);
      InsertCount(Cell(rows[0], c), Unique(rows[1..], c), Missing);
    }
  }

  /** Adding `v` to a set adds one element outside `{m}` exactly when `v` is new and not `m`. */
  lemma InsertCount<T>(v: T, rest: set<T>, m: T)
    ensures |({v} + rest) - {m}| == |rest - {m}| + (if v == m || v in rest then 0 else 1)
  {
    if v == m || v in rest {
      assert ({v} + rest) - {m} == rest - {m};
    } else {
      assert ({v} + rest) - {m} == {v} + (rest - {m});
    }
  }

  /** Deleting rows can only remove distinct values of a column. */
  lemma UniqueShrinks(a: seq<Row>, b: seq<Row>, c: string)
    requires IsSubsequence(a, b)
    ensures Unique(a, c) <= Unique(b, c)
    ensures NUnique(a, c) <= NUnique(b, c)
  {
    SubsequenceMembers(a, b);
    UniqueMembers(a, c);
    UniqueMembers(b, c);
    NUniqueCounts(a, c);
    NUniqueCounts(b, c);
    SubsetCardinality(Unique(a, c) - {Missing}, Unique(b, c) - {Missing});
  }

  /** If the whole table is hashable in `c`, so is every table made by deleting rows from it. */
  lemma HashableInherited(a: seq<Row>, b: seq<Row>, c: string)
    requires IsSubsequence(a, b) && Hashable(b, c)
    ensures Hashable(a, c)
  {
    UniqueShrinks(a, b, c);
  }

  lemma SubsetCardinality<T>(x: set<T>, y: set<T>)
    requires x <= y
    ensures |x| <= |y|
  {
    assert y == x + (y - x);
  }

  /** A set with at least two elements holds two different ones. */
  lemma TwoMembers<T>(s: set<T>) returns (a: T, b: T)
    requires |s| >= 2
    ensures a in s && b in s && a != b
  {
    a :| a in s;
    assert |s - {a}| == |s| - 1;
    b :| b in s - {a};
  }

  /** Deleting rows from a well-typed table, keeping the dtypes, leaves it well-typed. */
  lemma WellTypedInherited(a: Frame, b: Frame)
    requires a.dtypes == b.dtypes && WellTyped(b)
    requires forall r :: r in a.rows ==> r in b.rows
    ensures WellTyped(a)
  {
  }

  /** A column of numeric dtype holds no unhashable value, so building its set succeeds. */
  lemma NumericColumnHashable(df: Frame, c: string)
    requires WellTyped(df) && c in df.dtypes && df.dtypes[c] == NumericDType
    ensures Hashable(df.rows, c)
  {
    UniqueMembers(df.rows, c);
    assert forall r :: r in df.rows ==> Cell(r, c) != Unhashable;
  }

  /** The non-missing numbers of column `c`, in row order. */
  function NumbersIn(rows: seq<Row>, c: string): seq<real>
  {
    if rows == [] then []
    else (if Cell(rows[0], c).Num? then [Cell(rows[0], c).x] else []) + NumbersIn(rows[1..], c)
  }

  /** The numbers of a column are exactly the numeric cells of its rows. */
  lemma {:induction false} NumbersInMembers(rows: seq<Row>, c: string)
    ensures forall r :: r in rows && Cell(r, c).Num? ==> Cell(r, c).x in NumbersIn(rows, c)
    ensures forall x :: x in NumbersIn(rows, c) ==> Num(x) in Unique(rows, c)
  {
    if rows != [] {
      NumbersInMembers(rows[1..], c);
      assert rows == [rows[0]] + rows[1..];
    }
  }

  /** `min()` over the non-missing numbers of a column. */
  function MinOf(xs: seq<real>): (m: real)
    requires xs != []
    ensures m in xs
    ensures forall x :: x in xs ==> m <= x
  {
    if |xs| == 1 then xs[0]
    else
      assert xs == [xs[0]] + xs[1..];
      var rest := MinOf(xs[1..]);
      if xs[0] <= rest then xs[0] else rest
  }

  /** `max()` over the non-missing numbers of a column. */
  function MaxOf(xs: seq<real>): (m: real)
    requires xs != []
    ensures m in xs
    ensures forall x :: x in xs ==> x <= m
  {
    if |xs| == 1 then xs[0]
    else
      assert xs == [xs[0]] + xs[1..];
      var rest := MaxOf(xs[1..]);
      if xs[0] >= rest then xs[0] else rest
  }
}
