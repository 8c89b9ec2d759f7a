/**
  The dynamic filter engine. The selected columns are visited in order and the
  working table is narrowed one column at a time. Each column's kind is decided
  afresh on the current working table, except that the hashability test looks at
  the original table. The widget answers (chosen values, slider range, pattern,
  case flag) are parameters; an answer left at its default is `None` or empty.
*/
module Filter {
  import opened Wrappers
  import opened Seqs
  import opened Frames
  import opened Text

  /** A column with fewer distinct non-missing values than this is treated as categorical. */
  const CategoricalCutoff := 10

  /** How a column is filtered; `Unfiltered` when its values cannot be put in a set. */
  datatype Kind = Unfiltered | Categorical | Numeric | FreeText

  datatype Range = Range(lo: real, hi: real)

  /**
    The user's answers to the widgets of one column: the values picked in the
    multiselect, the slider's range, the text box and the case checkbox.
  */
  datatype Input = Input(values: Option<set<Value>>, range: Option<Range>, pattern: string, caseSensitive: bool)

  /** Every widget left as first shown: all values, the full range, an empty pattern, case-insensitive. */
  const DefaultInput := Input(None, None, "", false)

  function InputFor(inputs: map<string, Input>, c: string): Input
  {
    if c in inputs then inputs[c] else DefaultInput
  }

  /** The kind of column `c`: hashability is judged on the original table, the rest on the current one. */
  function Classify(df: Frame, cur: Frame, c: string): Kind
  {
    if !Hashable(df.rows, c) then Unfiltered
    else if DTypeOf(cur, c) == CategoryDType || NUnique(cur.rows, c) < CategoricalCutoff then Categorical
    else if DTypeOf(cur, c) == NumericDType then Numeric
    else FreeText
  }

  /** The values the multiselect returns; by default every distinct value of the current column. */
  function ChosenValues(inp: Input, rows: seq<Row>, c: string): set<Value>
  {
    match inp.values
    case Some(vs) => vs
    case None => Unique(rows, c)
  }

  /** The smallest and largest number of the current column, if it holds any. */
  function Bounds(rows: seq<Row>, c: string): Option<Range>
  {
    var xs := NumbersIn(rows, c);
    if xs == [] then None else Some(Range(MinOf(xs), MaxOf(xs)))
  }

  /** The slider's range; by default the column's own minimum and maximum. */
  function RangeOf(inp: Input, rows: seq<Row>, c: string): Option<Range>
  {
    match inp.range
    case Some(rg) => Some(rg)
    case None => Bounds(rows, c)
  }

  /** `between(lo, hi)`: inclusive at both ends; a missing or non-numeric value is never between. */
  predicate Between(v: Value, rg: Option<Range>)
  {
    rg.Some? && v.Num? && rg.value.lo <= v.x <= rg.value.hi
  }

  /** `str.contains(pattern, case=caseSensitive, na=False)`: only strings can match. */
  predicate TextMatches(v: Value, pattern: string, caseSensitive: bool)
  {
    v.Str? && Contains(v.text, pattern, caseSensitive)
  }

  /** The row test a column of kind `k` applies, given the current table `rows`. */
  predicate Admits(k: Kind, c: string, inp: Input, rows: seq<Row>, r: Row)
  {
    match k
    case Unfiltered => true
    case Categorical => Cell(r, c) in ChosenValues(inp, rows, c)
    case Numeric => Between(Cell(r, c), RangeOf(inp, rows, c))
    case FreeText => inp.pattern == [] || TextMatches(Cell(r, c), inp.pattern, inp.caseSensitive)
  }

  /** The mask one pass of the loop applies: `c` is classified on the current table `cur`. */
  function Test(df: Frame, c: string, inp: Input, cur: Frame): Row -> bool
  {
    r => Admits(Classify(df, cur, c), c, inp, cur.rows, r)
  }

  /** One pass of the loop: keep the rows of the current table that its mask admits. */
  function Step(df: Frame, c: string, inp: Input, cur: Frame): Frame
  {
    Frame(cur.dtypes, Keep(cur.rows, Test(df, c, inp, cur)))
  }

  /** The working table after the first `n` selected columns. */
  function FilterUpTo(df: Frame, selected: seq<string>, inputs: map<string, Input>, n: nat): Frame
    requires n <= |selected|
  {
    if n == 0 then df
    else Step(df, selected[n - 1], InputFor(inputs, selected[n - 1]), FilterUpTo(df, selected, inputs, n - 1))
  }

  /**
    pandas' `.str` accessor refuses a column whose non-missing values include no string:
    `str.contains` then raises `AttributeError` before any row is tested.
  */
  predicate StrAccessorRejects(rows: seq<Row>, c: string)
  {
    NUnique(rows, c) > 0 && !AnyText(rows, c)
  }

  /** The pass for `c` raises: a free-text column, a non-empty pattern, and a column the accessor refuses. */
  predicate StepRaises(df: Frame, c: string, inp: Input, cur: Frame)
  {
    Classify(df, cur, c) == FreeText && inp.pattern != [] && StrAccessorRejects(cur.rows, c)
  }

  /** For each selected column, whether its pass raises on the table it is given. */
  function Failures(df: Frame, selected: seq<string>, inputs: map<string, Input>): seq<bool>
  {
    seq(|selected|, k requires 0 <= k < |selected| =>
      StepRaises(df, selected[k], InputFor(inputs, selected[k]), FilterUpTo(df, selected, inputs, k)))
  }

  /** One of the first `n` passes raises. */
  predicate RaisesUpTo(df: Frame, selected: seq<string>, inputs: map<string, Input>, n: nat)
    requires n <= |selected|
  {
    AnyUpTo(Failures(df, selected, inputs), n)
  }

  lemma FailureAt(df: Frame, selected: seq<string>, inputs: map<string, Input>, i: nat)
    requires i < |selected|
    ensures |Failures(df, selected, inputs)| == |selected|
    ensures Failures(df, selected, inputs)[i] ==
      StepRaises(df, selected[i], InputFor(inputs, selected[i]), FilterUpTo(df, selected, inputs, i))
  {
  }

  /** What `filter_dataframe` yields: the filtered table, or `None` when a pass raises. */
  function FilterResult(df: Frame, selected: seq<string>, inputs: map<string, Input>): Option<Frame>
  {
    if RaisesUpTo(df, selected, inputs, |selected|) then None else Some(FilterUpTo(df, selected, inputs, |selected|))
  }

  /**
    `filter_dataframe`: the loop over the selected columns. `None` stands for the
    `AttributeError` that `str.contains` raises out of the function.
  */
  method FilterDataframe(df: Frame, selected: seq<string>, inputs: map<string, Input>) returns (result: Option<Frame>)
    requires forall i :: 0 <= i < |selected| ==> selected[i] in df.dtypes
    ensures result == FilterResult(df, selected, inputs)
    ensures result.Some? ==> result.value.dtypes == df.dtypes && IsSubsequence(result.value.rows, df.rows)
  {
    var filtered := df;
    for i := 0 to |selected|
      invariant filtered == FilterUpTo(df, selected, inputs, i)
      invariant !RaisesUpTo(df, selected, inputs, i)
    {
      var next := FilterColumn(df, selected[i], InputFor(inputs, selected[i]), filtered);
      if next.None? {
        RaisedResult(df, selected, inputs, i);
        return None;
      }
      FailureAt(df, selected, inputs, i);
      filtered := Frame(filtered.dtypes, next.value);
    }
    FilterChain(df, selected, inputs, 0, |selected|);
    result := Some(filtered);
  }

  /** A pass that raises makes the whole call raise. */
  lemma RaisedResult(df: Frame, selected: seq<string>, inputs: map<string, Input>, i: nat)
    requires i < |selected|
    requires StepRaises(df, selected[i], InputFor(inputs, selected[i]), FilterUpTo(df, selected, inputs, i))
    ensures FilterResult(df, selected, inputs) == None
  {
    RaisesNow(df, selected, inputs, i);
    RaisesMonotone(df, selected, inputs, i + 1, |selected|);
  }

  /**
    The body of the loop for one column, with the branches of the source: `continue` for
    an unhashable column, then the categorical, numeric and free-text filters. `None`
    stands for the `AttributeError` of `str.contains`.
  */
  method FilterColumn(df: Frame, column: string, inp: Input, filtered: Frame) returns (next: Option<seq<Row>>)
    ensures next.None? <==> StepRaises(df, column, inp, filtered)
    ensures next.Some? ==> next.value == Step(df, column, inp, filtered).rows
  {
    if !Hashable(df.rows, column) {
      KeepAll(filtered.rows, Test(df, column, inp, filtered));
      return Some(filtered.rows);
    }
    if DTypeOf(filtered, column) == CategoryDType || NUnique(filtered.rows, column) < CategoricalCutoff {
      var chosen := ChosenValues(inp, filtered.rows, column);
      next := Some(Keep(filtered.rows, r => Cell(r, column) in chosen));
      KeepCongruent(filtered.rows, r => Cell(r, column) in chosen, Test(df, column, inp, filtered));
    } else if DTypeOf(filtered, column) == NumericDType {
      var range := RangeOf(inp, filtered.rows, column);
      next := Some(Keep(filtered.rows, r => Between(Cell(r, column), range)));
      KeepCongruent(filtered.rows, r => Between(Cell(r, column), range), Test(df, column, inp, filtered));
    } else if inp.pattern != [] {
      if StrAccessorRejects(filtered.rows, column) {
        return None;
      }
      next := Some(Keep(filtered.rows, r => TextMatches(Cell(r, column), inp.pattern, inp.caseSensitive)));
      KeepCongruent(filtered.rows, r => TextMatches(Cell(r, column), inp.pattern, inp.caseSensitive),
                    Test(df, column, inp, filtered));
    } else {
      next := Some(filtered.rows);
      KeepAll(filtered.rows, Test(df, column, inp, filtered));
    }
  }

  /** A pass that raises makes the first `i + 1` passes raise. */
  lemma RaisesNow(df: Frame, selected: seq<string>, inputs: map<string, Input>, i: nat)
    requires i < |selected|
    requires StepRaises(df, selected[i], InputFor(inputs, selected[i]), FilterUpTo(df, selected, inputs, i))
    ensures RaisesUpTo(df, selected, inputs, i + 1)
  {
    FailureAt(df, selected, inputs, i);
  }

  /** Once a pass has raised, the function has raised, whatever columns follow. */
  lemma RaisesMonotone(df: Frame, selected: seq<string>, inputs: map<string, Input>, i: nat, j: nat)
    requires i <= j <= |selected| && RaisesUpTo(df, selected, inputs, i)
    ensures RaisesUpTo(df, selected, inputs, j)
  {
    AnyUpToMonotone(Failures(df, selected, inputs), i, j);
  }

  /** The function raises exactly when some selected column's pass raises on the table it is given. */
  lemma RaisesAt(df: Frame, selected: seq<string>, inputs: map<string, Input>, n: nat)
    requires n <= |selected|
    ensures RaisesUpTo(df, selected, inputs, n) <==>
      exists i :: 0 <= i < n && StepRaises(df, selected[i], InputFor(inputs, selected[i]), FilterUpTo(df, selected, inputs, i))
  {
    AnyUpToIff(Failures(df, selected, inputs), n);
    forall i | 0 <= i < n
      ensures Failures(df, selected, inputs)[i] ==
        StepRaises(df, selected[i], InputFor(inputs, selected[i]), FilterUpTo(df, selected, inputs, i))
    {
      FailureAt(df, selected, inputs, i);
    }
  }

  /**
    A pass raises exactly on a free-text column with a non-empty pattern whose working
    column holds some value but no string; a column with a string cell never raises.
  */
  lemma StepRaisesIff(df: Frame, c: string, inp: Input, cur: Frame)
    ensures StepRaises(df, c, inp, cur) <==>
      Classify(df, cur, c) == FreeText && inp.pattern != [] &&
      (exists r :: r in cur.rows && Cell(r, c) != Missing) &&
      forall r :: r in cur.rows ==> !Cell(r, c).Str?
  {
    AnyTextMembers(cur.rows, c);
    NUniqueCounts(cur.rows, c);
    UniqueMembers(cur.rows, c);
    var present := Unique(cur.rows, c) - {Missing};
    if exists r :: r in cur.rows && Cell(r, c) != Missing {
      var r :| r in cur.rows && Cell(r, c) != Missing;
      assert Cell(r, c) in present;
    }
    if present != {} {
      var v :| v in present;
    }
  }

  /** With every text box left empty, no pass raises and the result is the filtered table. */
  lemma DefaultsNeverRaise(df: Frame, selected: seq<string>, inputs: map<string, Input>, n: nat)
    requires n <= |selected|
    requires forall i :: 0 <= i < |selected| ==> InputFor(inputs, selected[i]).pattern == []
    ensures !RaisesUpTo(df, selected, inputs, n)
    ensures FilterResult(df, selected, inputs) == Some(FilterUpTo(df, selected, inputs, |selected|))
  {
    RaisesAt(df, selected, inputs, n);
    RaisesAt(df, selected, inputs, |selected|);
  }

  /** Each step keeps the dtypes and only deletes rows, so the table can only shrink. */
  lemma StepShrinks(df: Frame, c: string, inp: Input, cur: Frame)
    ensures Step(df, c, inp, cur).dtypes == cur.dtypes
    ensures IsSubsequence(Step(df, c, inp, cur).rows, cur.rows)
    ensures |Step(df, c, inp, cur).rows| <= |cur.rows|
  {
    KeepIsSubsequence(cur.rows, Test(df, c, inp, cur));
  }

  /** What one step keeps, kind by kind. */
  lemma StepKeeps(df: Frame, c: string, inp: Input, cur: Frame)
    ensures Classify(df, cur, c) == Unfiltered ==> Step(df, c, inp, cur) == cur
    ensures Classify(df, cur, c) == Categorical ==> forall r :: r in Step(df, c, inp, cur).rows <==>
      r in cur.rows && Cell(r, c) in ChosenValues(inp, cur.rows, c)
    ensures Classify(df, cur, c) == Numeric ==> forall r :: r in Step(df, c, inp, cur).rows <==>
      r in cur.rows && Between(Cell(r, c), RangeOf(inp, cur.rows, c))
    ensures Classify(df, cur, c) == FreeText && inp.pattern == [] ==> Step(df, c, inp, cur) == cur
    ensures Classify(df, cur, c) == FreeText && inp.pattern != [] ==> forall r :: r in Step(df, c, inp, cur).rows <==>
      r in cur.rows && Cell(r, c).Str? && Contains(Cell(r, c).text, inp.pattern, inp.caseSensitive)
  {
    var k := Classify(df, cur, c);
    KeepMembers(cur.rows, Test(df, c, inp, cur));
    if k == Unfiltered || (k == FreeText && inp.pattern == []) {
      KeepAll(cur.rows, Test(df, c, inp, cur));
    }
  }

  /** The row test that the `i`-th selected column applied, on the table it was applied to. */
  predicate AdmittedAt(df: Frame, selected: seq<string>, inputs: map<string, Input>, i: nat, r: Row)
    requires i < |selected|
  {
    var cur := FilterUpTo(df, selected, inputs, i);
    Admits(Classify(df, cur, selected[i]), selected[i], InputFor(inputs, selected[i]), cur.rows, r)
  }

  /** The working tables of the loop, before the first column up to after the last. */
  function Stages(df: Frame, selected: seq<string>, inputs: map<string, Input>): seq<seq<Row>>
  {
    seq(|selected| + 1, k requires 0 <= k <= |selected| => FilterUpTo(df, selected, inputs, k).rows)
  }

  /** The masks the loop applies, one per selected column, each built on the table it is applied to. */
  function Masks(df: Frame, selected: seq<string>, inputs: map<string, Input>): seq<Row -> bool>
  {
    seq(|selected|, k requires 0 <= k < |selected| =>
      Test(df, selected[k], InputFor(inputs, selected[k]), FilterUpTo(df, selected, inputs, k)))
  }

  /** Each working table is the previous one under the next column's mask. */
  lemma StageStep(df: Frame, selected: seq<string>, inputs: map<string, Input>, k: nat)
    requires k < |selected|
    ensures |Stages(df, selected, inputs)| == |Masks(df, selected, inputs)| + 1
    ensures Stages(df, selected, inputs)[k + 1] ==
      Keep(Stages(df, selected, inputs)[k], Masks(df, selected, inputs)[k])
  {
    FilterStepRows(df, selected, inputs, k);
    StageAt(df, selected, inputs, k);
    StageAt(df, selected, inputs, k + 1);
    assert Masks(df, selected, inputs)[k] ==
      Test(df, selected[k], InputFor(inputs, selected[k]), FilterUpTo(df, selected, inputs, k));
  }

  lemma StageAt(df: Frame, selected: seq<string>, inputs: map<string, Input>, k: nat)
    requires k <= |selected|
    ensures Stages(df, selected, inputs)[k] == FilterUpTo(df, selected, inputs, k).rows
  {
  }

  lemma FilterStepRows(df: Frame, selected: seq<string>, inputs: map<string, Input>, n: nat)
    requires n < |selected|
    ensures FilterUpTo(df, selected, inputs, n + 1).rows ==
      Keep(FilterUpTo(df, selected, inputs, n).rows, Test(df, selected[n], InputFor(inputs, selected[n]), FilterUpTo(df, selected, inputs, n)))
  {
  }

  lemma MaskAt(df: Frame, selected: seq<string>, inputs: map<string, Input>, i: nat, r: Row)
    requires i < |selected|
    ensures Masks(df, selected, inputs)[i](r) == AdmittedAt(df, selected, inputs, i, r)
  {
    assert Masks(df, selected, inputs)[i] ==
      Test(df, selected[i], InputFor(inputs, selected[i]), FilterUpTo(df, selected, inputs, i));
  }

  /** The tables of the loop form a chain of subsequences: a later table is a subsequence of an earlier one. */
  lemma FilterChain(df: Frame, selected: seq<string>, inputs: map<string, Input>, i: nat, j: nat)
    requires i <= j <= |selected|
    ensures FilterUpTo(df, selected, inputs, j).dtypes == df.dtypes
    ensures IsSubsequence(FilterUpTo(df, selected, inputs, j).rows, FilterUpTo(df, selected, inputs, i).rows)
    ensures |FilterUpTo(df, selected, inputs, j).rows| <= |FilterUpTo(df, selected, inputs, i).rows|
  {
    var stages := Stages(df, selected, inputs);
    forall k | 0 <= k < |selected| ensures IsSubsequence(stages[k + 1], stages[k]) {
      StageStep(df, selected, inputs, k);
      KeepIsSubsequence(stages[k], Masks(df, selected, inputs)[k]);
    }
    SubsequenceChain(stages, i, j);
    FilterDTypes(df, selected, inputs, j);
    SubsequenceMembers(stages[j], stages[i]);
  }

  lemma {:induction false} FilterDTypes(df: Frame, selected: seq<string>, inputs: map<string, Input>, n: nat)
    requires n <= |selected|
    ensures FilterUpTo(df, selected, inputs, n).dtypes == df.dtypes
  {
    if n > 0 {
      FilterDTypes(df, selected, inputs, n - 1);
    }
  }

  /**
    Filters compose by conjunction: a row survives exactly when it is a row of the
    input and passes the test of every selected column.
  */
  lemma FilterMembership(df: Frame, selected: seq<string>, inputs: map<string, Input>, n: nat)
    requires n <= |selected|
    ensures forall r :: r in FilterUpTo(df, selected, inputs, n).rows <==>
      r in df.rows && forall i :: 0 <= i < n ==> AdmittedAt(df, selected, inputs, i, r)
  {
    var stages, masks := Stages(df, selected, inputs), Masks(df, selected, inputs);
    forall k | 0 <= k < |masks| ensures stages[k + 1] == Keep(stages[k], masks[k]) {
      StageStep(df, selected, inputs, k);
    }
    KeepChainMembers(stages, masks, n);
    assert stages[n] == FilterUpTo(df, selected, inputs, n).rows && stages[0] == df.rows;
    forall r ensures r in stages[n] <==> r in stages[0] && forall i :: 0 <= i < n ==> AdmittedAt(df, selected, inputs, i, r)
    {
      forall i | 0 <= i < n ensures masks[i](r) == AdmittedAt(df, selected, inputs, i, r) {
        MaskAt(df, selected, inputs, i, r);
      }
    }
  }

  /**
    The result is the input under one mask: the conjunction of the tests of all selected
    columns, each taken on the table it was applied to. Duplicate input rows are kept or
    dropped together, and the surviving rows keep their order.
  */
  lemma FilterIsOneMask(df: Frame, selected: seq<string>, inputs: map<string, Input>, n: nat)
    requires n <= |selected|
    ensures FilterUpTo(df, selected, inputs, n).rows ==
      Keep(df.rows, r => forall i :: 0 <= i < n ==> AdmittedAt(df, selected, inputs, i, r))
  {
    var stages, masks := Stages(df, selected, inputs), Masks(df, selected, inputs);
    forall k | 0 <= k < |masks| ensures stages[k + 1] == Keep(stages[k], masks[k]) {
      StageStep(df, selected, inputs, k);
    }
    KeepChainAll(stages, masks, n);
    StageAt(df, selected, inputs, n);
    StageAt(df, selected, inputs, 0);
    forall r | r in df.rows ensures PassesAll(masks, n, r) == forall i :: 0 <= i < n ==> AdmittedAt(df, selected, inputs, i, r) {
      forall i | 0 <= i < n ensures masks[i](r) == AdmittedAt(df, selected, inputs, i, r) {
        MaskAt(df, selected, inputs, i, r);
      }
    }
    KeepCongruent(df.rows, x => PassesAll(masks, n, x),
                  r => forall i :: 0 <= i < n ==> AdmittedAt(df, selected, inputs, i, r));
  }

  /** Every working table of a well-typed input is well-typed. */
  lemma FilterWellTyped(df: Frame, selected: seq<string>, inputs: map<string, Input>, n: nat)
    requires n <= |selected| && WellTyped(df)
    ensures WellTyped(FilterUpTo(df, selected, inputs, n))
  {
    FilterChain(df, selected, inputs, 0, n);
    SubsequenceMembers(FilterUpTo(df, selected, inputs, n).rows, df.rows);
    WellTypedInherited(FilterUpTo(df, selected, inputs, n), df);
  }

  /**
    A column that is filtered at all builds its widget from a hashable column of the
    working table: the test on the original table covers every table filtered from it.
  */
  lemma ClassifiedColumnsAreHashable(df: Frame, selected: seq<string>, inputs: map<string, Input>, i: nat)
    requires i < |selected|
    requires Classify(df, FilterUpTo(df, selected, inputs, i), selected[i]) != Unfiltered
    ensures Hashable(FilterUpTo(df, selected, inputs, i).rows, selected[i])
  {
    FilterChain(df, selected, inputs, 0, i);
    HashableInherited(FilterUpTo(df, selected, inputs, i).rows, df.rows, selected[i]);
  }

  /**
    Only the cells of the selected columns decide whether a row survives: columns that
    are not selected add no constraint.
  */
  lemma OnlySelectedColumnsMatter(df: Frame, selected: seq<string>, inputs: map<string, Input>, r1: Row, r2: Row)
    requires r1 in df.rows && r2 in df.rows
    requires forall i :: 0 <= i < |selected| ==> Cell(r1, selected[i]) == Cell(r2, selected[i])
    ensures r1 in FilterUpTo(df, selected, inputs, |selected|).rows <==> r2 in FilterUpTo(df, selected, inputs, |selected|).rows
  {
    FilterMembership(df, selected, inputs, |selected|);
    forall i | 0 <= i < |selected|
      ensures AdmittedAt(df, selected, inputs, i, r1) == AdmittedAt(df, selected, inputs, i, r2)
    {
      var cur := FilterUpTo(df, selected, inputs, i);
      AdmitsReadsOneCell(Classify(df, cur, selected[i]), selected[i], InputFor(inputs, selected[i]), cur.rows, r1, r2);
    }
  }

  /** A column's row test reads only that column's cell. */
  lemma AdmitsReadsOneCell(k: Kind, c: string, inp: Input, rows: seq<Row>, r1: Row, r2: Row)
    requires Cell(r1, c) == Cell(r2, c)
    ensures Admits(k, c, inp, rows, r1) == Admits(k, c, inp, rows, r2)
  {
  }

  /**
    Widgets left at their defaults: a categorical or free-text column keeps every row,
    and a numeric column keeps exactly the rows whose value is a number.
  */
  lemma StepDefaults(df: Frame, c: string, cur: Frame)
    ensures Classify(df, cur, c) != Numeric ==> Step(df, c, DefaultInput, cur) == cur
    ensures Classify(df, cur, c) == Numeric ==> forall r :: r in Step(df, c, DefaultInput, cur).rows <==>
      r in cur.rows && Cell(r, c).Num?
    ensures Classify(df, cur, c) == Numeric && WellTyped(cur) ==>
      forall r :: r in Step(df, c, DefaultInput, cur).rows <==> r in cur.rows && Cell(r, c) != Missing
    ensures Classify(df, cur, c) == Numeric && (forall r :: r in cur.rows ==> Cell(r, c).Num?) ==>
      Step(df, c, DefaultInput, cur) == cur
  {
    var k := Classify(df, cur, c);
    var admits := Test(df, c, DefaultInput, cur);
    KeepMembers(cur.rows, admits);
    if k == Categorical {
      UniqueMembers(cur.rows, c);
      KeepAll(cur.rows, admits);
    } else if k == Numeric {
      NumbersInMembers(cur.rows, c);
      forall r | r in cur.rows && Cell(r, c).Num? ensures admits(r) {
        assert Cell(r, c).x in NumbersIn(cur.rows, c);
      }
      if forall r :: r in cur.rows ==> Cell(r, c).Num? {
        KeepAll(cur.rows, admits);
      }
      if WellTyped(cur) {
        assert c in cur.dtypes && cur.dtypes[c] == NumericDType;
      }
    } else {
      KeepAll(cur.rows, admits);
    }
  }

  /**
    With every widget at its default, a table whose selected cells are all present
    comes back unchanged.
  */
  lemma {:induction false} DefaultsKeepCompleteRows(df: Frame, selected: seq<string>, inputs: map<string, Input>, n: nat)
    requires n <= |selected|
    requires WellTyped(df)
    requires forall i :: 0 <= i < |selected| ==> InputFor(inputs, selected[i]) == DefaultInput
    requires forall i, r :: 0 <= i < |selected| && r in df.rows ==> Cell(r, selected[i]) != Missing
    ensures FilterUpTo(df, selected, inputs, n) == df
  {
    if n > 0 {
      DefaultsKeepCompleteRows(df, selected, inputs, n - 1);
      var c := selected[n - 1];
      StepDefaults(df, c, df);
      if Classify(df, df, c) == Numeric {
        assert c in df.dtypes && df.dtypes[c] == NumericDType;
        forall r | r in df.rows ensures Cell(r, c).Num? {
          assert Cell(r, c) != Missing;
        }
      }
    }
  }

  /**
    How further filtering can change a column's kind: the unhashable verdict never
    changes, a categorical column stays categorical, and a numeric or free-text column
    either keeps its kind or becomes categorical once fewer than ten distinct values remain.
  */
  lemma ClassifyUnderFiltering(df: Frame, cur: Frame, later: Frame, c: string)
    requires IsSubsequence(later.rows, cur.rows) && later.dtypes == cur.dtypes
    ensures Classify(df, later, c) == Unfiltered <==> Classify(df, cur, c) == Unfiltered
    ensures Classify(df, cur, c) == Categorical ==> Classify(df, later, c) == Categorical
    ensures Classify(df, later, c) == Classify(df, cur, c) || Classify(df, later, c) == Categorical
  {
    UniqueShrinks(later.rows, cur.rows, c);
  }

  /**
    A column only reaches the numeric branch with at least ten distinct numbers, so its
    default slider range is a proper interval: the single-point range cannot arise.
  */
  lemma NumericRangeIsProper(df: Frame, cur: Frame, c: string)
    requires WellTyped(cur)
    requires Classify(df, cur, c) == Numeric
    ensures Bounds(cur.rows, c).Some?
    ensures Bounds(cur.rows, c).value.lo < Bounds(cur.rows, c).value.hi
  {
    NUniqueCounts(cur.rows, c);
    var v1, v2 := TwoMembers(Unique(cur.rows, c) - {Missing});
    PresentAreNumbers(cur, c);
    var xs := NumbersIn(cur.rows, c);
    assert v1.x in xs && v2.x in xs && v1.x != v2.x;
  }

  /** In a well-typed numeric column, every value other than the missing marker is one of its numbers. */
  lemma PresentAreNumbers(cur: Frame, c: string)
    requires WellTyped(cur) && c in cur.dtypes && cur.dtypes[c] == NumericDType
    ensures forall v :: v in Unique(cur.rows, c) && v != Missing ==> v.Num? && v.x in NumbersIn(cur.rows, c)
  {
    UniqueMembers(cur.rows, c);
    NumbersInMembers(cur.rows, c);
    forall v | v in Unique(cur.rows, c) && v != Missing ensures v.Num? && v.x in NumbersIn(cur.rows, c) {
      var r :| r in cur.rows && Cell(r, c) == v;
    }
  }

  /**
    With every widget at its default, filtering a well-typed table a second time changes
    nothing: the first pass already dropped what the second one would.
  */
  lemma {:induction false} IdempotentDefaults(df: Frame, selected: seq<string>, inputs: map<string, Input>, n: nat)
    requires WellTyped(df)
    requires forall i :: 0 <= i < |selected| ==> InputFor(inputs, selected[i]) == DefaultInput
    requires n <= |selected|
    ensures FilterUpTo(FilterUpTo(df, selected, inputs, |selected|), selected, inputs, n) ==
      FilterUpTo(df, selected, inputs, |selected|)
  {
    if n > 0 {
      IdempotentDefaults(df, selected, inputs, n - 1);
      DefaultStepFixes(df, selected, inputs, n - 1);
    }
  }

  /** One default pass over the already-filtered table leaves it as it is. */
  lemma DefaultStepFixes(df: Frame, selected: seq<string>, inputs: map<string, Input>, j: nat)
    requires WellTyped(df)
    requires forall i :: 0 <= i < |selected| ==> InputFor(inputs, selected[i]) == DefaultInput
    requires j < |selected|
    ensures var t := FilterUpTo(df, selected, inputs, |selected|);
      Step(t, selected[j], DefaultInput, t) == t
  {
    var t := FilterUpTo(df, selected, inputs, |selected|);
    var c := selected[j];
    FilterWellTyped(df, selected, inputs, |selected|);
    StepDefaults(t, c, t);
    if Classify(t, t, c) == Numeric {
      NumericStaysNumeric(df, selected, inputs, j);
      var cur := FilterUpTo(df, selected, inputs, j);
      var next := FilterUpTo(df, selected, inputs, j + 1);
      FilterWellTyped(df, selected, inputs, j);
      StepDefaults(df, c, cur);
      assert next == Step(df, c, DefaultInput, cur);
      FilterChain(df, selected, inputs, j + 1, |selected|);
      SubsequenceMembers(t.rows, next.rows);
      forall r | r in t.rows ensures Cell(r, c).Num? {
        assert Cell(r, c) != Missing;
      }
    }
  }

  /** A column numeric on the filtered table was numeric when the first pass reached it. */
  lemma NumericStaysNumeric(df: Frame, selected: seq<string>, inputs: map<string, Input>, j: nat)
    requires WellTyped(df)
    requires j < |selected|
    requires var t := FilterUpTo(df, selected, inputs, |selected|);
      Classify(t, t, selected[j]) == Numeric
    ensures Classify(df, FilterUpTo(df, selected, inputs, j), selected[j]) == Numeric
    ensures NUnique(FilterUpTo(df, selected, inputs, |selected|).rows, selected[j]) <=
      NUnique(FilterUpTo(df, selected, inputs, j).rows, selected[j])
  {
    var t := FilterUpTo(df, selected, inputs, |selected|);
    var cur := FilterUpTo(df, selected, inputs, j);
    var c := selected[j];
    FilterChain(df, selected, inputs, j, |selected|);
    FilterDTypes(df, selected, inputs, j);
    UniqueShrinks(t.rows, cur.rows, c);
    NumericColumnHashable(df, c);
  }
}
