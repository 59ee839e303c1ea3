/** A column's vocabulary: its distinct values in first-occurrence order,
    as `list(Counter(col).keys())` produces them. */
module Vocabulary {
  import opened Outcomes
  import opened Sequences

  /** Position of the first row of `col` holding `v`, or `|col|` when no
      row does. */
  function FirstIndex<V(==)>(col: seq<V>, v: V): (r: nat)
    ensures r <= |col|
    ensures r < |col| <==> v in col
    ensures r < |col| ==> col[r] == v && v !in col[..r]
  {
    match IndexOf(col, v)
    case Some(i) => i
    case None => |col|
  }

  /** Vocabulary entry `j` occurs in the column. (Kept as a predicate of
      the position, so that the solver meets it only where it is asked.) */
  predicate EntryOccurs<V(==)>(col: seq<V>, names: seq<V>, j: nat)
    requires j < |names|
  {
    names[j] in col
  }

  /** `names` lists every value of `col` exactly once, each where it first
      appears: no repeats, the same values as `col`, and ordered by the row
      of first appearance. */
  predicate FirstOccurrenceOrder<V(==)>(col: seq<V>, names: seq<V>) {
    && NoDup(names)
    && (forall j :: 0 <= j < |names| ==> EntryOccurs(col, names, j))
    && (forall i :: 0 <= i < |col| ==> col[i] in names)
    && forall j, k :: 0 <= j < k < |names| ==>
         FirstIndex(col, names[j]) < FirstIndex(col, names[k])
  }

  /** Adding a row to a column does not move the first occurrence of a value
      already present. */
  lemma FirstIndexSnoc<V>(col: seq<V>, x: V, v: V)
    requires v in col
    ensures FirstIndex(col + [x], v) == FirstIndex(col, v)
  {
    var k := FirstIndex(col, v);
    assert (col + [x])[..k] == col[..k];
    IndexOfIsFirst(col + [x], v, k);
  }

  /** A row whose value is already in the vocabulary leaves the
      first-occurrence vocabulary unchanged. */
  lemma FirstOccurrenceOrderSnocSeen<V>(front: seq<V>, x: V, seen: seq<V>)
    requires FirstOccurrenceOrder(front, seen)
    requires x in seen
    ensures FirstOccurrenceOrder(front + [x], seen)
  {
    var col := front + [x];
    forall j | 0 <= j < |seen|
      ensures EntryOccurs(col, seen, j) && FirstIndex(col, seen[j]) == FirstIndex(front, seen[j])
    {
      assert EntryOccurs(front, seen, j);
      FirstIndexSnoc(front, x, seen[j]);
    }
    forall i | 0 <= i < |col|
      ensures col[i] in seen
    {
      if i < |front| {
        assert col[i] == front[i];
      }
    }
  }

  /** A row whose value is new to the vocabulary appends that value to the
      first-occurrence vocabulary. */
  lemma FirstOccurrenceOrderSnocNew<V>(front: seq<V>, x: V, seen: seq<V>)
    requires FirstOccurrenceOrder(front, seen)
    requires x !in seen
    ensures FirstOccurrenceOrder(front + [x], seen + [x])
  {
    var col := front + [x];
    var r := seen + [x];
    assert x !in front;
    forall j | 0 <= j < |seen|
      ensures seen[j] in front && FirstIndex(col, seen[j]) == FirstIndex(front, seen[j])
    {
      assert EntryOccurs(front, seen, j);
      FirstIndexSnoc(front, x, seen[j]);
    }
    assert FirstIndex(col, x) == |front| by {
      IndexOfIsFirst(col, x, |front|);
    }
    forall j | 0 <= j < |r|
      ensures EntryOccurs(col, r, j)
    {
      if j < |seen| {
        assert r[j] == seen[j];
      }
    }
    forall i | 0 <= i < |col|
      ensures col[i] in r
    {
      if i < |front| {
        assert col[i] == front[i];
      }
    }
    forall j, k | 0 <= j < k < |r|
      ensures FirstIndex(col, r[j]) < FirstIndex(col, r[k])
    {
      assert r[j] == seen[j];
      if k < |seen| {
        assert r[k] == seen[k];
      }
    }
  }

  /** The distinct values of `col` in first-occurrence order (the keys of a
      `Counter` built from `col`, which keep insertion order). */
  function Distinct<V(==)>(col: seq<V>): (r: seq<V>)
    ensures FirstOccurrenceOrder(col, r)
  {
    if |col| == 0 then []
    else
      var front := col[..|col| - 1];
      var x := col[|col| - 1];
      var seen := Distinct(front);
      assert col == front + [x];
      if x in seen then
        FirstOccurrenceOrderSnocSeen(front, x, seen);
        seen
      else
        FirstOccurrenceOrderSnocNew(front, x, seen);
        seen + [x]
  }

  /** A column has only one vocabulary in first-occurrence order. */
  lemma FirstOccurrenceOrderUnique<V>(col: seq<V>, a: seq<V>, b: seq<V>)
    requires FirstOccurrenceOrder(col, a) && FirstOccurrenceOrder(col, b)
    ensures a == b
  {
    var ka := seq(|a|, j requires 0 <= j < |a| => FirstIndex(col, a[j]) as int);
    var kb := seq(|b|, j requires 0 <= j < |b| => FirstIndex(col, b[j]) as int);
    forall x: int
      ensures x in ka <==> x in kb
    {
      if x in ka {
        var j :| 0 <= j < |a| && ka[j] == x;
        assert EntryOccurs(col, a, j);
        var i := FirstIndex(col, a[j]);
        assert col[i] in b;
        var k :| 0 <= k < |b| && b[k] == col[i];
        assert kb[k] == x;
      }
      if x in kb {
        var j :| 0 <= j < |b| && kb[j] == x;
        assert EntryOccurs(col, b, j);
        var i := FirstIndex(col, b[j]);
        assert col[i] in a;
        var k :| 0 <= k < |a| && a[k] == col[i];
        assert ka[k] == x;
      }
    }
    IncreasingUnique(ka, kb);
    assert |a| == |b| by { assert |ka| == |kb|; }
    forall j | 0 <= j < |a|
      ensures a[j] == b[j]
    {
      assert ka[j] == kb[j];
      assert EntryOccurs(col, a, j) && EntryOccurs(col, b, j);
    }
  }

  /** A row appended to a column adds its value to the end of the
      vocabulary when it is new, and leaves the vocabulary as it is
      otherwise. */
  lemma DistinctSnoc<V>(col: seq<V>, x: V)
    ensures Distinct(col + [x]) ==
              (if x in Distinct(col) then Distinct(col) else Distinct(col) + [x])
  {
    assert (col + [x])[..|col|] == col;
  }
}
