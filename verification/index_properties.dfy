/** Properties relating the bitmap index operations to one another and to
    a scan of the table. */
module IndexProperties {
  import opened Outcomes
  import opened Sequences
  import opened BitVectors
  import opened Vocabulary
  import opened BitmapIndex

  /** One condition per column, each asking for the item's own value, as
      the speed comparison builds them. */
  function FullConditions<V>(item: Item<V>): (conds: seq<Condition<V>>)
    ensures |conds| == |item.data|
    ensures forall c :: 0 <= c < |conds| ==> conds[c] == Condition(c, item.data[c])
  {
    seq(|item.data|, c requires 0 <= c < |item.data| => Condition(c, item.data[c]))
  }

  /** In a valid index, each column has exactly one set bit per row. */
  lemma ValidIsOneHot<V>(s: State<V>)
    requires Valid(s)
    ensures forall c, i :: 0 <= c < |s.bits| && 0 <= i < s.length ==> OneHotAt(s.bits[c], i)
  {
    forall c, i | 0 <= c < |s.bits| && 0 <= i < s.length
      ensures OneHotAt(s.bits[c], i)
    {
      assert ColumnValid(s.table, c, s.names[c], s.bits[c]);
      ColumnIsOneHot(s.table, c, s.names[c], s.bits[c], i);
    }
  }

  /** The one-hot property of a single consistent column at row `i`: the
      vector of the row's own value is the one set. */
  lemma ColumnIsOneHot<V>(table: seq<Item<V>>, c: nat, names_c: seq<V>, bits_c: seq<BitVector>, i: nat)
    requires ColumnValid(table, c, names_c, bits_c)
    requires i < |table|
    ensures OneHotAt(bits_c, i)
  {
    var v := IndexOf(names_c, table[i].data[c]).value;
    assert bits_c[v][i];
    forall w | 0 <= w < |bits_c| && i < |bits_c[w]| && bits_c[w][i]
      ensures w == v
    {
      assert names_c[w] == names_c[v];
    }
  }

  /** A query without conditions returns every row position. */
  lemma GetWithoutConditions<V>(s: State<V>)
    requires Valid(s)
    ensures Get(s, []) == Success(Range(s.length))
  {
    IncreasingUnique(Get(s, []).value, Range(s.length));
  }

  /** Querying every column for an indexed item's values finds exactly the
      rows a scan comparing whole rows finds, provided every row has as
      many values as there are columns. */
  lemma GetFullRowIsNaiveSearch<V>(s: State<V>, item: Item<V>)
    requires Valid(s)
    requires forall i :: 0 <= i < |s.table| ==> |s.table[i].data| == |s.names|
    requires |item.data| == |s.names|
    requires forall c :: 0 <= c < |s.names| ==> item.data[c] in s.names[c]
    ensures Get(s, FullConditions(item)) == Success(NaiveSearch(s.table, item))
  {
    var conds := FullConditions(item);
    var n := |s.names|;
    assert forall k :: 0 <= k < |conds| ==> Indexed(s.names, conds[k]);
    var r := Get(s, conds).value;
    forall i | 0 <= i < |s.table|
      ensures RowSatisfiesAll(n, s.table[i], conds) <==> s.table[i].data == item.data
    {
      if RowSatisfiesAll(n, s.table[i], conds) {
        forall c | 0 <= c < n
          ensures s.table[i].data[c] == item.data[c]
        {
          assert RowSatisfies(n, s.table[i], conds[c]);
        }
      }
    }
    IncreasingUnique(r, NaiveSearch(s.table, item));
  }

  /** An appended row is found by a query on all of its own values. */
  lemma AppendVisible<V>(s: State<V>, e: Item<V>)
    requires Valid(s)
    requires |e.data| == |s.names|
    ensures var r := Append(s, e);
      Get(r, FullConditions(e)).Success? && s.length in Get(r, FullConditions(e)).value
  {
    var r := Append(s, e);
    var conds := FullConditions(e);
    forall k | 0 <= k < |conds|
      ensures Indexed(r.names, conds[k]) && RowSatisfies(|r.names|, e, conds[k])
    {
      assert e.data[k] in r.names[k];
    }
    assert r.table[s.length] == e;
  }

  /** Appending a row leaves the answer for earlier rows unchanged and adds
      the new row's position at the end exactly when it meets the query. */
  lemma AppendExtendsAnswers<V>(s: State<V>, e: Item<V>, conds: seq<Condition<V>>)
    requires Valid(s)
    requires |e.data| == |s.names|
    requires Get(s, conds).Success?
    ensures var r := Append(s, e);
      Get(r, conds) == Success(Get(s, conds).value +
        (if RowSatisfiesAll(|s.names|, e, conds) then [s.length] else []))
  {
    var r := Append(s, e);
    var before := Get(s, conds).value;
    forall k | 0 <= k < |conds|
      ensures Indexed(r.names, conds[k])
    {
      assert Indexed(s.names, conds[k]);
      var c := ResolveIndex(conds[k].column, |s.names|).value;
      assert s.names[c] <= r.names[c];
    }
    var after := Get(r, conds).value;
    var expected := before + (if RowSatisfiesAll(|s.names|, e, conds) then [s.length] else []);
    assert forall j :: 0 <= j < |before| ==> before[j] in before;
    forall i: int
      ensures i in after <==> i in expected
    {
      if 0 <= i < s.length {
        assert r.table[i] == s.table[i];
      }
      if i == s.length {
        assert r.table[i] == e;
      }
    }
    IncreasingUnique(after, expected);
  }

  /** After deleting position `p`, a query matches row `i` exactly when it
      matched the row that used to sit at `i` (or at `i + 1` from `p` on). */
  lemma DeleteShiftsAnswers<V>(s: State<V>, p: nat, conds: seq<Condition<V>>)
    requires Valid(s)
    requires p < s.length
    ensures var r := Delete(s, p);
      && Get(r, conds).Success? == Get(s, conds).Success?
      && (Get(s, conds).Success? ==>
            forall i :: 0 <= i < r.length ==>
              (i in Get(r, conds).value <==> (if i < p then i else i + 1) in Get(s, conds).value))
  {
  }

  /** Deleting the last row undoes an append that brought no new value to
      any vocabulary. */
  lemma DeleteUndoesAppend<V>(s: State<V>, e: Item<V>)
    requires Valid(s)
    requires |e.data| == |s.names|
    requires forall c :: 0 <= c < |s.names| ==> e.data[c] in s.names[c]
    ensures Delete(Append(s, e), s.length) == s
  {
    var a := Append(s, e);
    var d := Delete(a, s.length);
    assert d.table == s.table by {
      assert Remove(a.table, s.length) == s.table;
    }
    assert d.names == s.names;
    forall c | 0 <= c < |s.bits|
      ensures d.bits[c] == s.bits[c]
    {
      forall v | 0 <= v < |s.bits[c]|
        ensures d.bits[c][v] == s.bits[c][v]
      {
        assert d.bits[c][v] == Remove(a.bits[c][v], s.length) == a.bits[c][v][..s.length];
      }
    }
  }

  /** A consistent column's vectors are fixed by the table and the
      vocabulary. */
  lemma ColumnDetermined<V>(table: seq<Item<V>>, c: nat, names_c: seq<V>, x: seq<BitVector>, y: seq<BitVector>)
    requires ColumnValid(table, c, names_c, x) && ColumnValid(table, c, names_c, y)
    ensures x == y
  {
    forall v | 0 <= v < |x|
      ensures x[v] == y[v]
    {
      forall i | 0 <= i < |table|
        ensures x[v][i] == y[v][i]
      {
        assert x[v][i] == (table[i].data[c] == names_c[v]);
      }
    }
  }

  /** A valid index's vectors are fixed by its table and vocabularies. */
  lemma BitsDeterminedByNames<V>(a: State<V>, b: State<V>)
    requires Valid(a) && Valid(b)
    requires a.table == b.table && a.names == b.names
    ensures a.bits == b.bits
  {
    forall c | 0 <= c < |a.bits|
      ensures a.bits[c] == b.bits[c]
    {
      assert ColumnValid(a.table, c, a.names[c], a.bits[c]);
      assert ColumnValid(b.table, c, b.names[c], b.bits[c]);
      ColumnDetermined(a.table, c, a.names[c], a.bits[c], b.bits[c]);
    }
  }

  /** The vocabulary `Build` gives a column is its distinct values in
      first-occurrence order. */
  lemma BuildVocabularyIsDistinct<V>(table: seq<Item<V>>, c: nat)
    requires Build(table).Success?
    requires c < |table[0].data|
    ensures forall i :: 0 <= i < |table| ==> c < |table[i].data|
    ensures Build(table).value.names[c] == Distinct(ColumnOf(table, c))
  {
    var s := Build(table).value;
    assert ColumnValid(table, c, s.names[c], s.bits[c]);
    FirstOccurrenceOrderUnique(ColumnOf(table, c), s.names[c], Distinct(ColumnOf(table, c)));
  }

  /** A table extended by a row as long as its first row is still
      well-shaped, and its columns are extended by the row's values. */
  lemma ExtendedTableShape<V>(table: seq<Item<V>>, e: Item<V>)
    requires WellShaped(table)
    requires |e.data| == |table[0].data|
    ensures WellShaped(table + [e])
    ensures forall c :: 0 <= c < |e.data| ==>
              ColumnOf(table + [e], c) == ColumnOf(table, c) + [e.data[c]]
  {
    var t' := table + [e];
    assert t'[0] == table[0];
    assert forall i :: 0 <= i < |table| ==> t'[i] == table[i];
    forall c | 0 <= c < |e.data|
      ensures ColumnOf(t', c) == ColumnOf(table, c) + [e.data[c]]
    {
    }
  }

  /** Column `c`'s vocabulary after appending `e` to the index of `table`
      is the vocabulary built from the extended table. */
  lemma AppendVocabularyAgreesWithBuild<V>(table: seq<Item<V>>, e: Item<V>, c: nat)
    requires Build(table).Success?
    requires |e.data| == |table[0].data|
    requires c < |table[0].data|
    ensures Build(table + [e]).Success?
    ensures Build(table + [e]).value.names[c] == Append(Build(table).value, e).names[c]
  {
    ExtendedTableShape(table, e);
    BuildVocabularyIsDistinct(table, c);
    BuildVocabularyIsDistinct(table + [e], c);
    DistinctSnoc(ColumnOf(table, c), e.data[c]);
  }

  /** Appending a row to the index of a table gives the index built from
      the extended table: incremental maintenance agrees with rebuilding. */
  lemma AppendAgreesWithBuild<V>(table: seq<Item<V>>, e: Item<V>)
    requires Build(table).Success?
    requires |e.data| == |table[0].data|
    ensures Build(table + [e]) == Success(Append(Build(table).value, e))
  {
    var s := Build(table).value;
    var t' := table + [e];
    assert t'[0] == table[0];
    var b := Build(t').value;
    var r := Append(s, e);
    forall c | 0 <= c < |s.names|
      ensures b.names[c] == r.names[c]
    {
      AppendVocabularyAgreesWithBuild(table, e, c);
    }
    assert b.names == r.names;
    BitsDeterminedByNames(b, r);
  }
}
