/** The bitmap index engine: a table of rows, per column a vocabulary of the
    distinct values seen, and per vocabulary entry a bit vector with one bit
    per row. Build, conjunctive equality query, append and delete by row
    position, each a pure transformation of an immutable state. */
module BitmapIndex {
  import opened Outcomes
  import opened Sequences
  import opened BitVectors
  import opened Vocabulary

  /** A table row: a caller-assigned key and its values, one per column. */
  datatype Item<V> = Item(key: int, data: seq<V>)

  /** One equality condition of a query, `[column_index, value]`. The column
      index follows Python's indexing, so a negative one counts from the last
      column. */
  datatype Condition<V> = Condition(column: int, value: V)

  /** The ways an operation can fail. */
  datatype Error =
    | EmptyTable        // `table[0]` on an empty table
    | SchemaMismatch    // a row with fewer values than the first row
    | ColumnOutOfRange  // `bit_columns[column]` outside the columns
    | UnknownValue      // `names[column].index(value)` for a value never indexed

  /** The engine's state: `length` is the row count kept beside the table,
      `names[c]` the vocabulary of column `c`, and `bits[c][v]` the vector
      of rows whose value in column `c` is `names[c][v]`. */
  datatype State<V> = State(
    table: seq<Item<V>>,
    length: nat,
    names: seq<seq<V>>,
    bits: seq<seq<BitVector>>)

  /** Column `c` of the table, one value per row. */
  function ColumnOf<V>(table: seq<Item<V>>, c: nat): seq<V>
    requires forall i :: 0 <= i < |table| ==> c < |table[i].data|
  {
    seq(|table|, i requires 0 <= i < |table| => table[i].data[c])
  }

  /** The index of column `c` is consistent with the table: a duplicate-free,
      non-empty vocabulary holding every value of the column, one vector per
      vocabulary entry, every vector as long as the table, and bit `i` of
      the vector of `names_c[v]` set exactly when row `i` holds that value. */
  predicate ColumnValid<V(==)>(table: seq<Item<V>>, c: nat, names_c: seq<V>, bits_c: seq<BitVector>) {
    && NoDup(names_c)
    && |names_c| > 0
    && |bits_c| == |names_c|
    && (forall i :: 0 <= i < |table| ==> c < |table[i].data| && table[i].data[c] in names_c)
    && (forall v :: 0 <= v < |bits_c| ==> |bits_c[v]| == |table|)
    && (forall v, i :: 0 <= v < |bits_c| && 0 <= i < |table| ==>
          bits_c[v][i] == (table[i].data[c] == names_c[v]))
  }

  /** The engine's invariant: the row count matches the table, there is one
      set of vectors per vocabulary, and every column is consistent. */
  predicate Valid<V(==)>(s: State<V>) {
    && s.length == |s.table|
    && |s.bits| == |s.names|
    && forall c :: 0 <= c < |s.names| ==> ColumnValid(s.table, c, s.names[c], s.bits[c])
  }

  /** Exactly one vector of a column has its bit `i` set. */
  ghost predicate OneHotAt(bits_c: seq<BitVector>, i: nat) {
    exists v :: 0 <= v < |bits_c| && i < |bits_c[v]| && bits_c[v][i] &&
      forall w :: 0 <= w < |bits_c| && i < |bits_c[w]| && bits_c[w][i] ==> w == v
  }

  // ---------------------------------------------------------------- build

  /** The vectors of a column over a given vocabulary, filled row by row:
      for each value, one bit is appended to every vector, set only in the
      vector at the value's vocabulary position. */
  function Encode<V(==)>(col: seq<V>, names: seq<V>): (bits: seq<BitVector>)
    requires NoDup(names)
    requires forall i :: 0 <= i < |col| ==> col[i] in names
    ensures |bits| == |names|
    ensures forall v :: 0 <= v < |bits| ==> |bits[v]| == |col|
    ensures forall v, i :: 0 <= v < |bits| && 0 <= i < |col| ==> bits[v][i] == (col[i] == names[v])
  {
    if |col| == 0 then seq(|names|, _ => [])
    else
      var front := Encode(col[..|col| - 1], names);
      var ind := IndexOf(names, col[|col| - 1]).value;
      seq(|names|, v requires 0 <= v < |names| => front[v] + [v == ind])
  }

  /** Converts one column into its vectors and vocabulary: the vocabulary
      lists the column's values in first-occurrence order, and each vector
      marks exactly the rows holding its value. */
  function ColToBitArray<V(==)>(col: seq<V>): (r: (seq<BitVector>, seq<V>))
    ensures FirstOccurrenceOrder(col, r.1)
    ensures |r.0| == |r.1|
    ensures forall v :: 0 <= v < |r.0| ==> |r.0[v]| == |col|
    ensures forall v, i :: 0 <= v < |r.0| && 0 <= i < |col| ==> r.0[v][i] == (col[i] == r.1[v])
  {
    var names := Distinct(col);
    (Encode(col, names), names)
  }

  /** The vocabulary and vectors `ColToBitArray` makes of a column of a
      non-empty table index that column consistently. */
  lemma ColToBitArrayIsColumnIndex<V>(table: seq<Item<V>>, c: nat)
    requires table != []
    requires forall i :: 0 <= i < |table| ==> c < |table[i].data|
    ensures var r := ColToBitArray(ColumnOf(table, c)); ColumnValid(table, c, r.1, r.0)
  {
    var col := ColumnOf(table, c);
    var r := ColToBitArray(col);
    var names, bits := r.1, r.0;
    assert NoDup(names);
    assert |names| > 0 by { assert col[0] in names; }
    assert |bits| == |names|;
    assert forall i :: 0 <= i < |table| ==> c < |table[i].data| && table[i].data[c] in names by {
      forall i | 0 <= i < |table|
        ensures table[i].data[c] in names
      {
        assert col[i] == table[i].data[c];
        assert col[i] in names;
      }
    }
    assert forall v :: 0 <= v < |bits| ==> |bits[v]| == |table|;
    assert forall v, i :: 0 <= v < |bits| && 0 <= i < |table| ==> bits[v][i] == (table[i].data[c] == names[v]) by {
      forall v, i | 0 <= v < |bits| && 0 <= i < |table|
        ensures bits[v][i] == (table[i].data[c] == names[v])
      {
        assert col[i] == table[i].data[c];
      }
    }
  }

  /** Every row has at least as many values as the first one. */
  predicate WellShaped<V>(table: seq<Item<V>>) {
    table != [] && forall i :: 0 <= i < |table| ==> |table[0].data| <= |table[i].data|
  }

  /** The index of a well-shaped table: per column of the first row, the
      vocabulary and vectors `ColToBitArray` makes of that column. */
  function BuildIndex<V(==)>(table: seq<Item<V>>): (s: State<V>)
    requires WellShaped(table)
    ensures Valid(s)
    ensures s.table == table
    ensures |s.names| == |table[0].data|
    ensures forall c :: 0 <= c < |s.names| ==> FirstOccurrenceOrder(ColumnOf(table, c), s.names[c])
  {
    var n := |table[0].data|;
    var cols := seq(n, c requires 0 <= c < n => ColToBitArray(ColumnOf(table, c)));
    var s := State(table, |table|,
                   seq(n, c requires 0 <= c < n => cols[c].1),
                   seq(n, c requires 0 <= c < n => cols[c].0));
    assert forall c :: 0 <= c < n ==> ColumnValid(table, c, s.names[c], s.bits[c]) by {
      forall c | 0 <= c < n
        ensures ColumnValid(table, c, s.names[c], s.bits[c])
      {
        ColToBitArrayIsColumnIndex(table, c);
      }
    }
    s
  }

  /** Builds the index of a table. The column count is that of the first
      row; an empty table, or a row with fewer values than the first, is an
      error, while values beyond the first row's count are not indexed. */
  function Build<V(==)>(table: seq<Item<V>>): (r: Result<State<V>, Error>)
    ensures r == Failure(EmptyTable) <==> table == []
    ensures r.Success? <==> WellShaped(table)
    ensures r.Success? ==> (
              && Valid(r.value)
              && r.value.table == table
              && |r.value.names| == |table[0].data|
              && forall c :: 0 <= c < |r.value.names| ==>
                   FirstOccurrenceOrder(ColumnOf(table, c), r.value.names[c]))
  {
    if |table| == 0 then Failure(EmptyTable)
    else if exists i :: 0 <= i < |table| && |table[i].data| < |table[0].data| then Failure(SchemaMismatch)
    else Success(BuildIndex(table))
  }

  // ---------------------------------------------------------------- query

  /** The condition names an existing column and a value of its vocabulary. */
  predicate Indexed<V(==)>(names: seq<seq<V>>, cond: Condition<V>) {
    var c := ResolveIndex(cond.column, |names|);
    c.Some? && cond.value in names[c.value]
  }

  /** The error a condition that is not `Indexed` raises. */
  function ConditionError<V(==)>(names: seq<seq<V>>, cond: Condition<V>): Error {
    if ResolveIndex(cond.column, |names|).None? then ColumnOutOfRange else UnknownValue
  }

  /** `e` is the error of the first condition that is not indexed. */
  predicate FirstFailure<V(==)>(names: seq<seq<V>>, conds: seq<Condition<V>>, e: Error) {
    exists k :: 0 <= k < |conds| && !Indexed(names, conds[k]) && e == ConditionError(names, conds[k]) &&
      forall j :: 0 <= j < k ==> Indexed(names, conds[j])
  }

  /** A row, in a table of `ncols` columns, meets an equality condition. */
  predicate RowSatisfies<V(==)>(ncols: nat, row: Item<V>, cond: Condition<V>) {
    var c := ResolveIndex(cond.column, ncols);
    c.Some? && c.value < |row.data| && row.data[c.value] == cond.value
  }

  /** A row meets every condition of a conjunction. */
  predicate RowSatisfiesAll<V(==)>(ncols: nat, row: Item<V>, conds: seq<Condition<V>>) {
    forall k :: 0 <= k < |conds| ==> RowSatisfies(ncols, row, conds[k])
  }

  /** The vector for `key` in column `column`: it marks exactly the rows
      meeting the condition, and fails on an unknown column or value. */
  function GetBitarr<V(==)>(s: State<V>, column: int, key: V): (r: Result<BitVector, Error>)
    requires Valid(s)
    ensures r.Success? <==> Indexed(s.names, Condition(column, key))
    ensures r.Failure? ==> r.error == ConditionError(s.names, Condition(column, key))
    ensures r.Success? ==> (
              && |r.value| == s.length
              && forall i :: 0 <= i < s.length ==>
                   (r.value[i] <==> RowSatisfies(|s.names|, s.table[i], Condition(column, key))))
  {
    match ResolveIndex(column, |s.bits|)
    case None => Failure(ColumnOutOfRange)
    case Some(c) =>
      match IndexOf(s.names[c], key)
      case None => Failure(UnknownValue)
      case Some(v) => Success(s.bits[c][v])
  }

  /** The all-ones vector ANDed with the vector of each condition in turn;
      the first condition that cannot be looked up stops the query. */
  function Accumulate<V(==)>(s: State<V>, conds: seq<Condition<V>>): (r: Result<BitVector, Error>)
    requires Valid(s)
    ensures r.Success? <==> forall k :: 0 <= k < |conds| ==> Indexed(s.names, conds[k])
    ensures r.Failure? ==> FirstFailure(s.names, conds, r.error)
    ensures r.Success? ==> (
              && |r.value| == s.length
              && forall i :: 0 <= i < s.length ==>
                   (r.value[i] <==> RowSatisfiesAll(|s.names|, s.table[i], conds)))
    decreases |conds|
  {
    if |conds| == 0 then Success(Ones(s.length))
    else
      var front := conds[..|conds| - 1];
      var last := conds[|conds| - 1];
      assert forall k :: 0 <= k < |front| ==> front[k] == conds[k];
      match Accumulate(s, front)
      case Failure(e) => Failure(e)
      case Success(a) =>
        match GetBitarr(s, last.column, last.value)
        case Failure(e) => Failure(e)
        case Success(b) => Success(And(a, b))
  }

  /** Conjunctive equality query: the ascending row positions meeting every
      condition, or the error of the first condition whose column or value
      is not indexed. The state is left as it was. */
  function Get<V(==)>(s: State<V>, conds: seq<Condition<V>>): (r: Result<seq<nat>, Error>)
    requires Valid(s)
    ensures r.Success? <==> forall k :: 0 <= k < |conds| ==> Indexed(s.names, conds[k])
    ensures r.Failure? ==> FirstFailure(s.names, conds, r.error)
    ensures r.Success? ==> StrictlyIncreasing(r.value)
    ensures r.Success? ==> forall i: int :: i in r.value <==>
              0 <= i < s.length && RowSatisfiesAll(|s.names|, s.table[i], conds)
  {
    match Accumulate(s, conds)
    case Failure(e) => Failure(e)
    case Success(a) => Success(Positions(a))
  }

  /** The positions of the rows whose values equal `item`'s, by a scan of
      the table: the reference the index is measured against. */
  function NaiveSearch<V(==)>(l: seq<Item<V>>, item: Item<V>): (r: seq<nat>)
    ensures StrictlyIncreasing(r)
    ensures forall i: int :: i in r <==> 0 <= i < |l| && l[i].data == item.data
  {
    if |l| == 0 then []
    else
      var front := NaiveSearch(l[..|l| - 1], item);
      assert forall i :: 0 <= i < |front| ==> front[i] in front;
      front + (if l[|l| - 1].data == item.data then [|l| - 1] else [])
  }

  // ---------------------------------------------------------------- append

  /** Extends a column's vocabulary with a value it lacks, with a new vector
      as long as the column's first vector, every bit cleared. */
  function AddNewColumnValue<V>(names_c: seq<V>, bits_c: seq<BitVector>, value: V): (r: (seq<V>, seq<BitVector>))
    requires |bits_c| > 0
  {
    (names_c + [value], bits_c + [Zeros(|bits_c[0]|)])
  }

  /** Adding a value new to a column appends exactly that value to the
      vocabulary and exactly one vector to the column. The vector is made
      before the new row's bits are added and is correct for every existing
      row: it is as long as the table, holds no set bit, and leaves the
      column consistent. */
  lemma AddNewColumnValueKeepsColumn<V>(table: seq<Item<V>>, c: nat, names_c: seq<V>, bits_c: seq<BitVector>, value: V)
    requires ColumnValid(table, c, names_c, bits_c)
    requires value !in names_c
    ensures var r := AddNewColumnValue(names_c, bits_c, value);
      && r.0 == names_c + [value]
      && |r.1| == |bits_c| + 1
      && r.1[..|bits_c|] == bits_c
      && |r.1[|bits_c|]| == |table|
      && (forall i :: 0 <= i < |table| ==> !r.1[|bits_c|][i])
      && ColumnValid(table, c, r.0, r.1)
  {
    var r := AddNewColumnValue(names_c, bits_c, value);
    assert r.1[..|bits_c|] == bits_c;
  }

  /** Adds one value to a column: first the value joins the vocabulary if
      it is new, then every vector of the column gets one bit, set only for
      the value's own entry. */
  function AppendToColumn<V(==)>(names_c: seq<V>, bits_c: seq<BitVector>, value: V): (r: (seq<V>, seq<BitVector>))
    requires |bits_c| > 0 && |names_c| == |bits_c|
  {
    var (names', bits') :=
      if value !in names_c then AddNewColumnValue(names_c, bits_c, value) else (names_c, bits_c);
    (names', seq(|bits'|, v requires 0 <= v < |bits'| => bits'[v] + [names'[v] == value]))
  }

  /** Adding a row's value to a column keeps the column consistent with the
      extended table, keeps existing entries and bits, and grows the
      vocabulary only by the value itself when it is new. */
  lemma AppendToColumnKeepsColumn<V>(table: seq<Item<V>>, c: nat, names_c: seq<V>, bits_c: seq<BitVector>, e: Item<V>)
    requires ColumnValid(table, c, names_c, bits_c)
    requires c < |e.data|
    ensures var r := AppendToColumn(names_c, bits_c, e.data[c]);
      && ColumnValid(table + [e], c, r.0, r.1)
      && r.0 == (if e.data[c] in names_c then names_c else names_c + [e.data[c]])
      && forall v :: 0 <= v < |bits_c| ==> r.1[v][..|table|] == bits_c[v]
  {
    var value := e.data[c];
    var (names', bits') :=
      if value !in names_c then AddNewColumnValue(names_c, bits_c, value) else (names_c, bits_c);
    if value !in names_c {
      AddNewColumnValueKeepsColumn(table, c, names_c, bits_c, value);
    }
    assert ColumnValid(table, c, names', bits');
    var r := AppendToColumn(names_c, bits_c, value);
    var t' := table + [e];
    forall v | 0 <= v < |bits_c|
      ensures r.1[v][..|table|] == bits_c[v]
    {
      assert r.1[v][..|table|] == bits'[v];
    }
    forall v, i | 0 <= v < |r.1| && 0 <= i < |t'|
      ensures r.1[v][i] == (t'[i].data[c] == r.0[v])
    {
      if i < |table| {
        assert t'[i] == table[i];
        assert r.1[v][i] == bits'[v][i];
      }
    }
  }

  /** Appends a row at the end. Each value new to its column extends that
      column's vocabulary at the end; existing vocabulary entries and all
      existing bits are kept, and the invariant holds again. */
  function Append<V(==)>(s: State<V>, e: Item<V>): (r: State<V>)
    requires Valid(s)
    requires |e.data| == |s.names|
    ensures Valid(r)
    ensures r.length == s.length + 1
    ensures r.table == s.table + [e]
    ensures |r.names| == |s.names|
    ensures forall c :: 0 <= c < |s.names| ==>
              r.names[c] == (if e.data[c] in s.names[c] then s.names[c] else s.names[c] + [e.data[c]])
    ensures forall c, v :: 0 <= c < |s.bits| && 0 <= v < |s.bits[c]| ==>
              r.bits[c][v][..s.length] == s.bits[c][v]
  {
    var n := |s.names|;
    var cols := seq(n, c requires 0 <= c < n => AppendToColumn(s.names[c], s.bits[c], e.data[c]));
    var r := State(s.table + [e], s.length + 1,
                   seq(n, c requires 0 <= c < n => cols[c].0),
                   seq(n, c requires 0 <= c < n => cols[c].1));
    assert forall c :: 0 <= c < n ==>
      ColumnValid(r.table, c, r.names[c], r.bits[c]) &&
      r.names[c] == (if e.data[c] in s.names[c] then s.names[c] else s.names[c] + [e.data[c]]) &&
      forall v :: 0 <= v < |s.bits[c]| ==> r.bits[c][v][..s.length] == s.bits[c][v]
    by {
      forall c | 0 <= c < n
        ensures ColumnValid(r.table, c, r.names[c], r.bits[c])
        ensures r.names[c] == (if e.data[c] in s.names[c] then s.names[c] else s.names[c] + [e.data[c]])
        ensures forall v :: 0 <= v < |s.bits[c]| ==> r.bits[c][v][..s.length] == s.bits[c][v]
      {
        AppendToColumnKeepsColumn(s.table, c, s.names[c], s.bits[c], e);
      }
    }
    r
  }

  // ---------------------------------------------------------------- delete

  /** Deletes the row at position `p` (Python indexing, so a negative `p`
      counts from the end): the table and every vector lose that element,
      later rows move down by one, the vocabularies stay, and the invariant
      holds again. */
  function Delete<V(==)>(s: State<V>, p: int): (r: State<V>)
    requires Valid(s)
    requires -(s.length as int) <= p < s.length
    ensures Valid(r)
    ensures r.length == s.length - 1
    ensures var q := if p < 0 then p + s.length else p;
      && r.table == Remove(s.table, q)
      && r.names == s.names
      && |r.bits| == |s.bits|
      && forall c :: 0 <= c < |s.bits| ==> (
           && |r.bits[c]| == |s.bits[c]|
           && forall v :: 0 <= v < |s.bits[c]| ==> r.bits[c][v] == Remove(s.bits[c][v], q))
  {
    var q := ResolveIndex(p, s.length).value;
    var r := State(Remove(s.table, q), s.length - 1, s.names,
                   seq(|s.bits|, c requires 0 <= c < |s.bits| =>
                     seq(|s.bits[c]|, v requires 0 <= v < |s.bits[c]| => Remove(s.bits[c][v], q))));
    assert forall c :: 0 <= c < |r.names| ==> ColumnValid(r.table, c, r.names[c], r.bits[c]) by {
      forall c | 0 <= c < |r.names|
        ensures ColumnValid(r.table, c, r.names[c], r.bits[c])
      {
        forall v, i | 0 <= v < |r.bits[c]| && 0 <= i < |r.table|
          ensures r.bits[c][v][i] == (r.table[i].data[c] == r.names[c][v])
        {
          if i >= q {
            assert r.bits[c][v][i] == s.bits[c][v][i + 1];
          }
        }
      }
    }
    r
  }
}
