# Bitmap index — a Dafny model

This project models the `BitmapIndex` engine of `main.py`. The engine is an
in-memory index over a table of rows (`Item`: a key and a list of categorical
values, one per column). For each column it keeps a *vocabulary*, which lists
the distinct values of that column in first-occurrence order. For each
vocabulary entry it keeps a *bit vector* with one bit per row. The engine
answers conjunctive equality queries by ANDing vectors. It supports appending
a row and deleting a row by position.

The model is functional. The state is an immutable
`State(table, length, names, bits)`: `names[c]` is column `c`'s vocabulary and
`bits[c][v]` is the vector of `names[c][v]`. Build, query, append and delete
are pure functions on this state. Bit vectors are `seq<bool>` and values
belong to any equality type `V`.

The invariant `BitmapIndex.Valid` requires:

- the row count equals the table length;
- each vocabulary is non-empty and has no duplicates;
- every row's value is in its column's vocabulary;
- every vector is as long as the table;
- bit `i` of the vector of `names[c][v]` is set exactly when row `i` holds
  `names[c][v]` in column `c`.

The one-hot property (exactly one set bit per row and column) is derived from
`Valid`. Every operation either establishes `Valid` or preserves it. `Get` is
proved equal to a scan of the table. `NaiveSearch`, the program's own linear
scan, serves as the reference.

Modules:

- `Outcomes`: `Option` and `Result`.
- `Sequences`: the Python list behaviour the engine relies on. This covers
  `list.index`, indexing with negative indices, and `list.pop`. It also holds
  ascending position lists.
- `BitVectors`: all-zero and all-one vectors, AND, and the positions of the
  set bits.
- `Vocabulary`: the vocabulary in first-occurrence order (the keys of
  `Counter(col)`) and its uniqueness.
- `BitmapIndex`: the engine.
- `IndexProperties`: how the operations relate to one another and to a scan.
- `Scenario`: the demonstration run of `functionality_test`.

Behaviour of the code that a caller might not expect, modelled as written:

- A row with *fewer* values than the first row fails the build
  (`SchemaMismatch`). The code raises `IndexError` in the column
  comprehension. A row with *more* values is accepted, and its extra values
  are not indexed. A caller might expect both to be rejected; the code
  rejects only the shorter row.
- Condition columns and delete positions use Python indexing. A negative
  index counts from the end, so `get([[-1, v]])` queries the last column and
  `delete(-1)` removes the last row.
- Looking up a value that is not in the vocabulary is `UnknownValue`. The code
  raises `ValueError` from `list.index`. An unknown column is
  `ColumnOutOfRange`, from an `IndexError`. When several conditions fail, the
  error comes from the first failing condition in query order.

## Model

| member | source | states |
|---|---|---|
| `Sequences.IndexOf` | main.py:197 | `list.index`: the position of the first occurrence of the value. It is absent exactly when the value is not in the list (where Python raises `ValueError`). |
| `Sequences.ResolveIndex` | main.py:197 | Python indexing of a length-`n` list: defined exactly for `-n <= i < n`. Non-negative indices count from the front and negative ones from the back. |
| `Sequences.Remove` | main.py:146 | `list.pop(p)`: the result is one shorter. Elements before `p` stay in place and later ones move down by one. |
| `BitVectors.Positions` | main.py:136-139 | The positions collected by `enumerate` are ascending and are exactly the positions whose bit is set. |
| `Vocabulary.Distinct` | main.py:118 | `list(Counter(col).keys())` has no duplicates and holds exactly the values of the column. Its entries are ordered by the row where each value first occurs. |
| `Vocabulary.FirstOccurrenceOrderUnique` | main.py:118 | Only one sequence is a first-occurrence vocabulary of a column, so the vocabulary is fully determined. |
| `Vocabulary.FirstOccurrenceOrderSnocSeen` | main.py:118 | If a column's vocabulary is in first-occurrence order and a row is added whose value is already listed, the same vocabulary is in first-occurrence order for the extended column. |
| `Vocabulary.FirstOccurrenceOrderSnocNew` | main.py:118 | If a column's vocabulary is in first-occurrence order and a row is added whose value is new, appending that value gives the first-occurrence vocabulary of the extended column. |
| `BitmapIndex.Encode` | main.py:119-123 | Filling the vectors row by row (one appended bit per vector, set only at the value's vocabulary index) gives one vector per entry. Each vector has one bit per row, and the bit is set exactly when the row holds that entry. |
| `BitmapIndex.ColToBitArray` | main.py:111-124 | Converting a column gives a vocabulary in first-occurrence order and one vector per entry. Each vector is as long as the column and marks exactly the rows holding its value. |
| `BitmapIndex.ColToBitArrayIsColumnIndex` | main.py:101-106 | The vectors and vocabulary made from column `c` of a non-empty table index that column consistently. |
| `BitmapIndex.BuildIndex` | main.py:96-109 | A table where no row is shorter than the first gets an index that satisfies the invariant. It has one column per value of the first row, and each vocabulary is in first-occurrence order. |
| `BitmapIndex.Build` | main.py:91-97 | An empty table fails with `EmptyTable`. A row shorter than the first fails. Build succeeds exactly otherwise, giving a valid index of the given table with first-occurrence vocabularies. |
| `BitmapIndex.GetBitarr` | main.py:193-197 | The lookup succeeds exactly when the column exists and the value is in its vocabulary. The returned vector marks exactly the rows meeting the condition. On failure it reports an unknown column or an unknown value. |
| `BitmapIndex.Accumulate` | main.py:132-135 | The all-ones vector ANDed with each condition's vector marks exactly the rows meeting all conditions. It fails exactly when some condition is not indexed, and the error is that of the first such condition. |
| `BitmapIndex.Get` | main.py:126-139 | The query answer is strictly ascending and contains exactly the positions of rows meeting every condition. It fails exactly when a condition names an unknown column or value, with the error of the first such condition. |
| `BitmapIndex.NaiveSearch` | main.py:212-217 | The scan returns, in ascending order, exactly the positions of rows whose values equal the item's. |
| `BitmapIndex.AddNewColumnValueKeepsColumn` | main.py:186-191 | A value absent from the column is appended as exactly one new vocabulary entry, and exactly one vector is added. The new vector is as long as the pre-append table and all zero. Existing vectors are unchanged, and the column stays consistent. |
| `BitmapIndex.AppendToColumnKeepsColumn` | main.py:155-164 | Adding a row's value to a column keeps the column consistent with the extended table. The vocabulary grows only by the value, and only if it was new. Existing bits are kept. |
| `BitmapIndex.Append` | main.py:151-164 | Append adds the row at the end and increases the row count by one. Each new value goes to the end of its vocabulary, and existing entries and bits are unchanged. The invariant holds again. |
| `BitmapIndex.Delete` | main.py:141-149 | Delete lowers the row count by one. The table and every vector lose element `p` (Python indexing), and later elements move down. Vocabularies are unchanged and the invariant holds again. |
| `IndexProperties.ValidIsOneHot` | main.py:119-123 | In a valid index, each column has exactly one vector with a set bit at each row. |
| `IndexProperties.GetWithoutConditions` | main.py:132-139 | `get([])` returns `[0, 1, ..., length - 1]`. |
| `IndexProperties.GetFullRowIsNaiveSearch` | main.py:212-217 | Querying every column for an indexed item's values gives exactly `naive_search`'s answer, provided all rows have one value per column. |
| `IndexProperties.AppendVisible` | main.py:151-164 | After an append, querying the new row's own values succeeds and finds its position. |
| `IndexProperties.AppendExtendsAnswers` | main.py:151-164 | After an append, a query that succeeded before still succeeds. It returns the old answer, plus the new position exactly when the new row meets the query. |
| `IndexProperties.DeleteShiftsAnswers` | main.py:141-149 | After deleting position `p`, a query succeeds exactly when it did before. Row `i` matches exactly when the row previously at `i` (or at `i + 1` from `p` on) matched. |
| `IndexProperties.DeleteUndoesAppend` | main.py:141-164 | Deleting the last row restores the index as it was before an append that added no new values. |
| `IndexProperties.BitsDeterminedByNames` | main.py:119-123 | Two valid indexes with the same table and vocabularies have the same vectors. |
| `IndexProperties.AppendAgreesWithBuild` | main.py:151-164 | Appending a row to a built index gives exactly the index built from the extended table. |
| `Scenario.DemoRun` | main.py:12-38 | For rows a/A, b/A, a/B, querying column 0 for "a" gives [0, 2], and "z" is `UnknownValue`. After appending a/A, b/B and C/D the query gives [0, 2, 3]. After deleting position 3 it gives [0, 2] again. |

## Left out

- `main`, `functionality_test`, `speed_test` and `get_long_list_of_items` are drivers. They use timing, randomness and float ratios. The run in `functionality_test` is restated as `Scenario.DemoRun`.
- `__str__`, `__repr__` and `Item.__str__` only build display text.
- `bitarray` is modelled as `seq<bool>`. `bitarray(n)` (main.py:191) is taken to be zero-filled. Some library versions leave it uninitialised, but the invariant requires zeros.
- `BitmapIndex.Append` requires the row to have one value per column. With more values the source raises part-way through the update. With fewer values it leaves some columns a bit short. Both are half-applied mutations, which the model does not represent.
- `BitmapIndex.Delete` requires a position Python can index. For any other position the source lowers `length` and then raises from `pop`, which leaves a half-applied mutation.
- `delete`'s parameter is named `id`, but the code uses it as a row position. Only deletion by position is modelled. Mapping keys to positions is the caller's job.
- The engine keeps the caller's list as its own table. Aliasing is not modelled, and the model owns its table.
- Values are compared with Dafny equality on one value type. Python's cross-type equalities (such as `1 == True`) and hashing are not modelled.
- Vocabulary lookup is linear in the source, as in `list.index`. The model states what a lookup returns, not how long it takes.
