/**
  The loader: every selected (course, year) pair names a CSV file under `./Data`;
  the files that exist are read and concatenated row-wise in load order, and
  "no data" is reported when none exists. The filesystem is given as two
  parameters: `pathExists` (whether a path names a file) and `readCsv` (the
  table a file holds).
*/
module Loader {
  import opened Wrappers
  import opened Seqs
  import opened Frames

  /** The path of one course's data for one year. */
  function DataPath(course: string, year: string): string
  {
    "./Data/" + course + "/" + year + "/data.csv"
  }

  /** The line the loader logs for each pair it tries. */
  datatype Event = Loading(path: string) | NotFound(path: string)

  /** The paths tried for one course: its years, in order. */
  function CoursePaths(course: string, years: seq<string>): seq<string>
  {
    seq(|years|, j requires 0 <= j < |years| => DataPath(course, years[j]))
  }

  /** The paths tried for all pairs: courses in the outer loop, years in the inner one. */
  function Attempts(courses: seq<string>, years: seq<string>): seq<string>
    decreases |courses|
  {
    if courses == [] then []
    else Attempts(courses[..|courses| - 1], years) + CoursePaths(courses[|courses| - 1], years)
  }

  /** One log line per tried path, saying whether it was loaded or skipped. */
  function Trace(paths: seq<string>, pathExists: string -> bool): seq<Event>
  {
    seq(|paths|, k requires 0 <= k < |paths| =>
      if pathExists(paths[k]) then Loading(paths[k]) else NotFound(paths[k]))
  }

  /** The tables read from `paths`, in order. */
  function Tables(paths: seq<string>, readCsv: string -> seq<Row>): seq<seq<Row>>
  {
    seq(|paths|, k requires 0 <= k < |paths| => readCsv(paths[k]))
  }

  /** The paths of the selection that name existing files, in load order. */
  function Found(courses: seq<string>, years: seq<string>, pathExists: string -> bool): seq<string>
  {
    Keep(Attempts(courses, years), pathExists)
  }

  /** What loading the selection yields: the concatenated tables, or None when no file existed. */
  function Loaded(courses: seq<string>, years: seq<string>,
                  pathExists: string -> bool, readCsv: string -> seq<Row>): Option<seq<Row>>
  {
    var tables := Tables(Found(courses, years, pathExists), readCsv);
    if tables == [] then None else Some(Flatten(tables))
  }

  /** `load_data`: two nested loops over the selection, appending every table that exists. */
  method LoadData(courses: seq<string>, years: seq<string>,
                  pathExists: string -> bool, readCsv: string -> seq<Row>)
    returns (data: Option<seq<Row>>, log: seq<Event>)
    ensures log == Trace(Attempts(courses, years), pathExists)
    ensures data == Loaded(courses, years, pathExists, readCsv)
  {
    var dfs: seq<seq<Row>> := [];
    log := [];
    var i := 0;
    while i < |courses|
      invariant 0 <= i <= |courses|
      invariant log == Trace(Attempts(courses[..i], years), pathExists)
      invariant dfs == Tables(Keep(Attempts(courses[..i], years), pathExists), readCsv)
    {
      var course := courses[i];
      ghost var before := Attempts(courses[..i], years);
      var j := 0;
      assert before + CoursePaths(course, years[..0]) == before;
      while j < |years|
        invariant 0 <= j <= |years|
        invariant log == Trace(before + CoursePaths(course, years[..j]), pathExists)
        invariant dfs == Tables(Keep(before + CoursePaths(course, years[..j]), pathExists), readCsv)
      {
        var year := years[j];
        var path := DataPath(course, year);
        ghost var tried := before + CoursePaths(course, years[..j]);
        assert before + CoursePaths(course, years[..j + 1]) == tried + [path];
        TryOne(tried, path, pathExists, readCsv);
        if pathExists(path) {
          log := log + [Loading(path)];
          dfs := dfs + [readCsv(path)];
        } else {
          log := log + [NotFound(path)];
        }
        j := j + 1;
      }
      assert years[..j] == years;
      AttemptsSnoc(courses, i, years);
      i := i + 1;
    }
    assert courses[..i] == courses;
    data := if dfs != [] then Some(Flatten(dfs)) else None;
  }

  /** Trying one more path adds one log line, and one table exactly when the file exists. */
  lemma TryOne(tried: seq<string>, path: string, pathExists: string -> bool, readCsv: string -> seq<Row>)
    ensures Trace(tried + [path], pathExists) ==
      Trace(tried, pathExists) + [if pathExists(path) then Loading(path) else NotFound(path)]
    ensures Tables(Keep(tried + [path], pathExists), readCsv) ==
      Tables(Keep(tried, pathExists), readCsv) + (if pathExists(path) then [readCsv(path)] else [])
  {
    KeepAppend(tried, [path], pathExists);
    assert Keep([path], pathExists) == if pathExists(path) then [path] else [];
  }

  lemma AttemptsSnoc(courses: seq<string>, i: nat, years: seq<string>)
    requires i < |courses|
    ensures Attempts(courses[..i + 1], years) == Attempts(courses[..i], years) + CoursePaths(courses[i], years)
  {
    assert courses[..i + 1][..i] == courses[..i];
  }

  lemma {:induction false} AttemptsLength(courses: seq<string>, years: seq<string>)
    ensures |Attempts(courses, years)| == |courses| * |years|
    decreases |courses|
  {
    if courses != [] {
      var n := |courses| - 1;
      AttemptsLength(courses[..n], years);
      MulSucc(n, |years|);
    }
  }

  lemma MulSucc(n: nat, m: nat)
    ensures (n + 1) * m == n * m + m
  {
  }

  /** Row-major indexing stays inside an `m` by `n` grid. */
  lemma IndexBound(i: nat, j: nat, m: nat, n: nat)
    requires i < m && j < n
    ensures 0 <= i * n + j < m * n
  {
    MulMonotone(0, i, n);
    MulSucc(i, n);
    assert (i + 1) * n <= m * n by {
      MulMonotone(i + 1, m, n);
    }
  }

  lemma MulMonotone(a: nat, b: nat, c: nat)
    requires a <= b
    ensures a * c <= b * c
  {
  }

  /** The pair (courses[i], years[j]) is the (i * |years| + j)-th path tried: courses outer, years inner. */
  lemma {:induction false} AttemptAt(courses: seq<string>, years: seq<string>, i: nat, j: nat)
    requires i < |courses| && j < |years|
    ensures 0 <= i * |years| + j < |Attempts(courses, years)|
    ensures Attempts(courses, years)[i * |years| + j] == DataPath(courses[i], years[j])
    decreases |courses|
  {
    var n := |courses| - 1;
    var init := courses[..n];
    var width := |years|;
    AttemptsLength(init, years);
    AttemptsLength(courses, years);
    IndexBound(i, j, |courses|, width);
    if i < n {
      AttemptAt(init, years, i, j);
      assert init[i] == courses[i];
    } else {
      assert i * width + j == n * width + j;
    }
  }

  /** A tried path is always a selected pair's path. */
  lemma {:induction false} AttemptsOnlySelected(courses: seq<string>, years: seq<string>, k: int)
    requires 0 <= k < |Attempts(courses, years)|
    ensures exists i, j ::
      0 <= i < |courses| && 0 <= j < |years| && Attempts(courses, years)[k] == DataPath(courses[i], years[j])
    decreases |courses|
  {
    var n := |courses| - 1;
    var init := courses[..n];
    if k < |Attempts(init, years)| {
      AttemptsOnlySelected(init, years, k);
      var i, j :| 0 <= i < |init| && 0 <= j < |years| && Attempts(init, years)[k] == DataPath(init[i], years[j]);
      assert init[i] == courses[i];
    } else {
      var j := k - |Attempts(init, years)|;
      assert Attempts(courses, years)[k] == DataPath(courses[n], years[j]);
    }
  }

  /**
    Every pair leaves one log line at its place in the order: a missing file is
    logged as skipped and the pairs after it are still tried.
  */
  lemma LogAt(courses: seq<string>, years: seq<string>, pathExists: string -> bool, i: nat, j: nat)
    requires i < |courses| && j < |years|
    ensures i * |years| + j < |Trace(Attempts(courses, years), pathExists)|
    ensures Trace(Attempts(courses, years), pathExists)[i * |years| + j] ==
      if pathExists(DataPath(courses[i], years[j])) then Loading(DataPath(courses[i], years[j]))
      else NotFound(DataPath(courses[i], years[j]))
  {
    AttemptAt(courses, years, i, j);
    TraceAt(Attempts(courses, years), pathExists, i * |years| + j, DataPath(courses[i], years[j]));
  }

  lemma TraceAt(paths: seq<string>, pathExists: string -> bool, k: nat, p: string)
    requires k < |paths| && paths[k] == p
    ensures |Trace(paths, pathExists)| == |paths|
    ensures Trace(paths, pathExists)[k] == if pathExists(p) then Loading(p) else NotFound(p)
  {
  }

  /** The loader reports "no data" exactly when no selected pair names an existing file. */
  lemma LoadedNoneIff(courses: seq<string>, years: seq<string>,
                      pathExists: string -> bool, readCsv: string -> seq<Row>)
    ensures Loaded(courses, years, pathExists, readCsv) == None <==>
      forall i, j :: 0 <= i < |courses| && 0 <= j < |years| ==> !pathExists(DataPath(courses[i], years[j]))
  {
    var attempts := Attempts(courses, years);
    KeepMembers(attempts, pathExists);
    if Loaded(courses, years, pathExists, readCsv) == None {
      assert Found(courses, years, pathExists) == [];
      forall i, j | 0 <= i < |courses| && 0 <= j < |years|
        ensures !pathExists(DataPath(courses[i], years[j]))
      {
        AttemptAt(courses, years, i, j);
        assert attempts[i * |years| + j] in attempts;
      }
    } else {
      var found := Found(courses, years, pathExists);
      assert found[0] in attempts && pathExists(found[0]);
      var k :| 0 <= k < |attempts| && attempts[k] == found[0];
      AttemptsOnlySelected(courses, years, k);
    }
  }

  /** The loaded table has as many rows as the existing files together. */
  lemma LoadedRowCount(courses: seq<string>, years: seq<string>,
                       pathExists: string -> bool, readCsv: string -> seq<Row>)
    ensures Loaded(courses, years, pathExists, readCsv).Some? ==>
      |Loaded(courses, years, pathExists, readCsv).value| ==
        TotalLength(Tables(Found(courses, years, pathExists), readCsv))
  {
    FlattenLength(Tables(Found(courses, years, pathExists), readCsv));
  }
}
