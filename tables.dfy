/** The in-memory table that the cleaner updates in place, with the two
    cleaning operations as methods proved against the functions of Frames. */
module Tables {
  import opened InvisibleChars
  import opened Frames

  class Table {
    var names: seq<string>
    var columns: seq<seq<Cell>>
    var rows: nat

    /** The table's current contents as a value. */
    function Value(): Frame
      reads this
    {
      Frame(names, columns, rows)
    }

    ghost predicate Valid()
      reads this
    {
      WellFormed(Value())
    }

    constructor (names: seq<string>, columns: seq<seq<Cell>>, rows: nat)
      requires WellFormed(Frame(names, columns, rows))
      ensures Valid() && Value() == Frame(names, columns, rows)
    {
      this.names := names;
      this.columns := columns;
      this.rows := rows;
    }

    /** Cleans the column called name in place, or reports a warning when the
        table has no such column. */
    method CleanColumn(name: string) returns (warned: bool)
      requires Valid()
      modifies this
      ensures Valid()
      ensures Value() == CleanColumnF(old(Value()), name).frame
      ensures warned <==> name !in old(names)
      ensures warned ==> Value() == old(Value())
    {
      if name in names {
        var i := IndexOf(names, name);
        columns := columns[i := CleanCells(columns[i])];
        warned := false;
      } else {
        warned := true;
      }
    }

    /** Cleans each listed column in list order and returns how many warnings
        were reported along the way. */
    method CleanColumns(ns: seq<string>) returns (warnings: nat)
      requires Valid()
      modifies this
      ensures Valid()
      ensures Value() == CleanColumnsF(old(Value()), ns).frame
      ensures warnings == CleanColumnsF(old(Value()), ns).warnings
    {
      warnings := 0;
      for k := 0 to |ns|
        invariant Valid()
        invariant Value() == CleanColumnsF(old(Value()), ns[..k]).frame
        invariant warnings == CleanColumnsF(old(Value()), ns[..k]).warnings
      {
        assert ns[..k + 1][..k] == ns[..k];
        var warned := CleanColumn(ns[k]);
        if warned {
          warnings := warnings + 1;
        }
      }
      assert ns[..|ns|] == ns;
    }
  }
}
