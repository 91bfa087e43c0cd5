/** The table as a value, and the column-cleaning operations as functions on
    it: the specification that the in-place Table of module Tables is proved
    against, and the place where the properties of cleaning are stated. */
module Frames {
  import opened InvisibleChars

  /** A table: its column names in order, one sequence of cells per column,
      and the number of rows (the length of its row index). */
  datatype Frame = Frame(names: seq<string>, columns: seq<seq<Cell>>, rows: nat)

  /** No column name occurs twice. */
  predicate Distinct(names: seq<string>) {
    forall i, j :: 0 <= i < j < |names| ==> names[i] != names[j]
  }

  /** One column per name, names unique, every column as long as the index. */
  predicate WellFormed(f: Frame) {
    && |f.names| == |f.columns|
    && Distinct(f.names)
    && forall i :: 0 <= i < |f.columns| ==> |f.columns[i]| == f.rows
  }

  /** The position of a column name that is present. */
  function IndexOf(names: seq<string>, name: string): (i: nat)
    requires name in names
    ensures i < |names| && names[i] == name
    ensures forall j :: 0 <= j < i ==> names[j] != name
  {
    if names[0] == name then 0 else 1 + IndexOf(names[1..], name)
  }

  /** The per-cell filter applied to every cell of a column. */
  function CleanCells(col: seq<Cell>): (r: seq<Cell>)
    ensures |r| == |col|
    ensures forall k :: 0 <= k < |r| ==> (r[k].Str? <==> col[k].Str?)
    ensures forall k :: 0 <= k < |r| && r[k].Str? ==> IsClean(r[k].text)
  {
    seq(|col|, k requires 0 <= k < |col| => RemoveInvisibleChars(col[k]))
  }

  /** Cleaning a column twice is the same as cleaning it once. */
  lemma CleanCellsIdempotent(col: seq<Cell>)
    ensures CleanCells(CleanCells(col)) == CleanCells(col)
  {
    forall k | 0 <= k < |col| ensures CleanCells(CleanCells(col))[k] == CleanCells(col)[k] {
      CellIdempotent(col[k]);
    }
  }

  /** The outcome of a cleaning step: the new table and the number of
      warnings emitted for names that are not columns of the table. */
  datatype Cleaned = Cleaned(frame: Frame, warnings: nat)

  /** Cleaning one named column: a present column is replaced by its cleaned
      version; an absent name changes nothing and costs one warning. */
  function CleanColumnF(f: Frame, name: string): (r: Cleaned)
    requires WellFormed(f)
    ensures WellFormed(r.frame)
    ensures r.frame.names == f.names && r.frame.rows == f.rows
    ensures |r.frame.columns| == |f.columns|
    ensures forall i :: 0 <= i < |f.columns| ==>
      r.frame.columns[i] == if f.names[i] == name then CleanCells(f.columns[i]) else f.columns[i]
    ensures r.warnings == if name in f.names then 0 else 1
    ensures name !in f.names ==> r.frame == f
  {
    if name in f.names then
      var i := IndexOf(f.names, name);
      Cleaned(f.(columns := f.columns[i := CleanCells(f.columns[i])]), 0)
    else
      Cleaned(f, 1)
  }

  /** Cleaning a list of names: one cleaning step per name, in list order,
      with the warnings added up. */
  function CleanColumnsF(f: Frame, ns: seq<string>): (r: Cleaned)
    requires WellFormed(f)
    ensures WellFormed(r.frame)
    ensures r.frame.names == f.names && r.frame.rows == f.rows
    decreases |ns|
  {
    if ns == [] then Cleaned(f, 0)
    else
      var done := CleanColumnsF(f, ns[..|ns| - 1]);
      var last := CleanColumnF(done.frame, ns[|ns| - 1]);
      Cleaned(last.frame, done.warnings + last.warnings)
  }

  /** How many entries of ns, counted with repetition, are not in names. */
  function CountMissing(names: seq<string>, ns: seq<string>): (n: nat)
    ensures n <= |ns|
  {
    if ns == [] then 0
    else (if ns[0] in names then 0 else 1) + CountMissing(names, ns[1..])
  }

  /** Counting the missing names of a list extended by one name. */
  lemma {:induction false} CountMissingSnoc(names: seq<string>, ns: seq<string>, n: string)
    ensures CountMissing(names, ns + [n]) == CountMissing(names, ns) + if n in names then 0 else 1
  {
    if ns != [] {
      assert (ns + [n])[1..] == ns[1..] + [n];
      CountMissingSnoc(names, ns[1..], n);
    } else {
      assert [n][1..] == [];
    }
  }

  /** Cleaning a list of names emits exactly one warning per absent entry. */
  lemma {:induction false} WarningsCountMissing(f: Frame, ns: seq<string>)
    requires WellFormed(f)
    ensures CleanColumnsF(f, ns).warnings == CountMissing(f.names, ns)
  {
    if ns != [] {
      var init := ns[..|ns| - 1];
      WarningsCountMissing(f, init);
      CountMissingSnoc(f.names, init, ns[|ns| - 1]);
      assert init + [ns[|ns| - 1]] == ns;
    }
  }

  /** The independent reference: every column whose name is in s is cleaned,
      every other column is left as it is. */
  function CleanSet(f: Frame, s: set<string>): (r: Frame)
    requires WellFormed(f)
    ensures WellFormed(r)
    ensures r.names == f.names && r.rows == f.rows
  {
    f.(columns := seq(|f.columns|, i requires 0 <= i < |f.columns| =>
                    if f.names[i] in s then CleanCells(f.columns[i]) else f.columns[i]))
  }

  /** One more cleaning step after cleaning a set of columns is cleaning the
      set with that name added. */
  lemma CleanColumnAfterCleanSet(f: Frame, s: set<string>, name: string)
    requires WellFormed(f)
    ensures CleanColumnF(CleanSet(f, s), name).frame == CleanSet(f, s + {name})
  {
    var r := CleanColumnF(CleanSet(f, s), name).frame;
    var want := CleanSet(f, s + {name});
    forall i | 0 <= i < |f.columns| ensures r.columns[i] == want.columns[i] {
      if f.names[i] == name && f.names[i] in s {
        CleanCellsIdempotent(f.columns[i]);
      }
    }
  }

  /** Cleaning a list of names, in whatever order and with whatever
      repetition, is cleaning each column named in it exactly once. */
  lemma {:induction false} CleanColumnsIsCleanSet(f: Frame, ns: seq<string>)
    requires WellFormed(f)
    ensures CleanColumnsF(f, ns).frame == CleanSet(f, set n | n in ns)
  {
    if ns == [] {
      assert CleanSet(f, {}).columns == f.columns;
    } else {
      var init, last := ns[..|ns| - 1], ns[|ns| - 1];
      CleanColumnsIsCleanSet(f, init);
      var s0 := set n | n in init;
      assert (set n | n in ns) == s0 + {last} by {
        assert ns == init + [last];
      }
      CleanColumnAfterCleanSet(f, s0, last);
    }
  }

  /** Only which present column names are listed matters: order, repetition
      and absent names have no effect on the resulting table. */
  lemma CleanColumnsDependsOnPresentNames(f: Frame, ns: seq<string>, ms: seq<string>)
    requires WellFormed(f)
    requires forall n :: n in f.names ==> (n in ns <==> n in ms)
    ensures CleanColumnsF(f, ns).frame == CleanColumnsF(f, ms).frame
  {
    CleanColumnsIsCleanSet(f, ns);
    CleanColumnsIsCleanSet(f, ms);
    var a, b := CleanSet(f, set n | n in ns), CleanSet(f, set n | n in ms);
    forall i | 0 <= i < |f.columns| ensures a.columns[i] == b.columns[i] {
      assert f.names[i] in f.names;
    }
  }

  /** Cleaning the same list of names a second time changes nothing. */
  lemma CleanColumnsIdempotent(f: Frame, ns: seq<string>)
    requires WellFormed(f)
    ensures CleanColumnsF(CleanColumnsF(f, ns).frame, ns).frame == CleanColumnsF(f, ns).frame
  {
    var once := CleanColumnsF(f, ns).frame;
    CleanColumnsIsCleanSet(f, ns);
    CleanColumnsIsCleanSet(once, ns);
    var twice := CleanSet(once, set n | n in ns);
    forall i | 0 <= i < |f.columns| ensures twice.columns[i] == once.columns[i] {
      if f.names[i] in ns {
        CleanCellsIdempotent(f.columns[i]);
      }
    }
  }
}
