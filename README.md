# removeInvisibleCharacters in Dafny

This project models the cleaning core of `removeInvisibleCharacters.py`. The
utility loads a spreadsheet into a table. It strips the invisible Unicode
characters from a list of named columns. Then it writes the table back out.
The invisible characters are U+200B zero-width space, U+200C zero-width
non-joiner, U+200D zero-width joiner and U+FEFF byte-order mark.

- `invisible_chars.dfy` (module `InvisibleChars`) holds the per-cell policy.
  `IsInvisible` is the regular-expression class `[U+200B-U+200D U+FEFF]`
  written as a range test plus one equality. `Strip` replaces every match
  with the empty string. `RemoveInvisibleChars` applies `Strip` to a text
  cell and passes every other cell through unchanged. A cell is
  `Str(text) | Num(value) | Empty`.
- `frames.dfy` (module `Frames`) describes the table as a value (`Frame`):
  its column names in order, one sequence of cells per column, and the row
  count. `CleanColumnF` and `CleanColumnsF` are the two cleaning operations
  as functions on that value. `CleanColumnsF` is the left-to-right fold of
  `CleanColumnF` over the list of names. A missing column does not stop the
  operation. It adds one warning and leaves the table as it was.
  `CleanSet` is an independent reference: every column whose name is in a
  set is cleaned once. The lemmas relate the fold to it.
- `tables.dfy` (module `Tables`) holds the class `Table`, whose fields the
  two methods update in place, as `df[column_name] = ...` does. Each method
  is proved to leave exactly the value that the matching `Frames` function
  computes. The warning that the source prints is returned instead: a flag
  from `CleanColumn`, and a count from `CleanColumns`.

## Model

| member | source | states |
|---|---|---|
| `InvisibleChars.Strip` | removeInvisibleCharacters.py:62-63 | the result holds none of U+200B, U+200C, U+200D, U+FEFF and is never longer than the input |
| `InvisibleChars.StripSelectsVisible` | removeInvisibleCharacters.py:62-63 | the result is exactly the input's visible characters, each taken once, in their original order |
| `InvisibleChars.VisibleIndices` | removeInvisibleCharacters.py:62-63 | the positions it lists increase strictly, each holds a visible character, and every visible position is listed |
| `InvisibleChars.StripCounts` | removeInvisibleCharacters.py:62-63 | every invisible character occurs zero times in the result; every other character occurs as often as in the input |
| `InvisibleChars.StripConcat` | removeInvisibleCharacters.py:62-63 | cleaning a concatenation is the concatenation of the cleaned parts, so characters are removed one at a time and independently |
| `InvisibleChars.StripFixesExactlyClean` | removeInvisibleCharacters.py:63 | a string comes back unchanged if and only if it holds no invisible character; otherwise it comes back strictly shorter |
| `InvisibleChars.StripIdempotent` | removeInvisibleCharacters.py:63 | cleaning a string twice gives the same result as cleaning it once |
| `InvisibleChars.RemoveInvisibleChars` | removeInvisibleCharacters.py:52-63 | a text cell stays a text cell and comes back clean and no longer; a number or empty cell comes back unchanged; clean text comes back unchanged |
| `InvisibleChars.CellFixesExactlyClean` | removeInvisibleCharacters.py:63 | a cell comes back unchanged if and only if it is not text or its text is already clean |
| `InvisibleChars.CellIdempotent` | removeInvisibleCharacters.py:63 | applying the per-cell filter twice gives the same result as applying it once |
| `InvisibleChars.TrailingInvisibleExample` | removeInvisibleCharacters.py:62-63 | "Ana" followed by U+200B becomes "Ana"; "Bob" followed by U+FEFF becomes "Bob" |
| `Frames.IndexOf` | removeInvisibleCharacters.py:29-30 | a name that is present is found at a position holding that name, and no earlier position holds it |
| `Frames.CleanCells` | removeInvisibleCharacters.py:30 | the column keeps its length and the kind of each cell, and every text cell in it comes back clean |
| `Frames.CleanCellsIdempotent` | removeInvisibleCharacters.py:30 | cleaning a column twice gives the same result as cleaning it once |
| `Frames.CleanColumnF` | removeInvisibleCharacters.py:18-33 | column names, their order and the row count are kept; the named column becomes its cell-wise cleaning and every other column is untouched; an absent name leaves the table unchanged with exactly one warning, and a present name gives none |
| `Frames.CleanColumnsF` | removeInvisibleCharacters.py:36-49 | folding the single-column step over the names in list order keeps the table well formed, its column names and its row count |
| `Frames.WarningsCountMissing` | removeInvisibleCharacters.py:47-49 | cleaning a list of names emits exactly one warning for each entry, counting repeats, that is not a column |
| `Frames.CleanSet` | removeInvisibleCharacters.py:29-30 | cleaning a set of columns independently keeps the table well formed, its column names and its row count |
| `Frames.CleanColumnAfterCleanSet` | removeInvisibleCharacters.py:29-30 | cleaning one more named column after a set of columns was cleaned gives the table with that name added to the set, including when it was already in the set |
| `Frames.CleanColumnsIsCleanSet` | removeInvisibleCharacters.py:47-49 | cleaning a list of names in order equals cleaning, once and independently, each column named in the list |
| `Frames.CleanColumnsDependsOnPresentNames` | removeInvisibleCharacters.py:47-49 | two name lists that contain the same present column names give the same table, whatever their order, repeats or absent names |
| `Frames.CleanColumnsIdempotent` | removeInvisibleCharacters.py:47-49 | cleaning the same list of names a second time changes nothing |
| `Tables.Table.CleanColumn` | removeInvisibleCharacters.py:18-33 | updates the table in place to exactly what `CleanColumnF` gives and keeps it well formed; warns exactly when the name is not a column, and then changes nothing |
| `Tables.Table.CleanColumns` | removeInvisibleCharacters.py:36-49 | calls `CleanColumn` for each name in list order, leaving exactly the table that `CleanColumnsF` gives, and returns its warning count |

## Left out

- `read_excel`, `save_excel` and `process_excel_file` are left out, with the `__main__` block. They only read and write spreadsheet files through pandas, around `clean_columns`, with hard-coded paths. The write-then-reload round trip belongs to that file format, so it is left out too.
- The warning line and the confirmation line are console text. Only the fact that a warning is emitted is modelled, as the flag or count that the methods return.
- Cell types are reduced to text, number and empty. pandas' type inference, NaN for empty cells, and dates or booleans are left out. The filter passes every non-text cell through unchanged, so they behave like `Num` or `Empty`. Numbers are `real`, not floating point.
- `WellFormed` requires the column names to be distinct. pandas allows repeated column labels. There, `df[name]` selects several columns at once, and the model does not describe what the filter then does.
- `clean_column` and `clean_columns` return the same table object that they were given. The methods update the `Table` in place and return only the warnings. That aliasing of the return value is not modelled.
- Strings are sequences of Unicode scalar values. A Python string can also hold lone surrogate code points. These are never invisible characters, so none of them would be removed, but the model cannot represent them.
- The regular-expression engine is not modelled. Its effect on this one character class is written out as `IsInvisible` and `Strip`.
- The table's row index labels are not modelled. Only the row count is kept.
