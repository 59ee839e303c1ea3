/** The demonstration run of the index on a three-row table of two columns:
    build, query column 0 for "a", append three rows, query again, delete
    the row at position 3, query again. */
module Scenario {
  import opened Outcomes
  import opened Sequences
  import opened Vocabulary
  import opened BitmapIndex

  function DemoTable(): seq<Item<string>> {
    [Item(1, ["a", "A"]), Item(2, ["b", "A"]), Item(3, ["a", "B"])]
  }

  function QueryA(): seq<Condition<string>> {
    [Condition(0, "a")]
  }

  /** A query for "a" in column 0 of a two-column index whose rows holding
      "a" there are exactly `expected`. */
  lemma QueryAFinds(s: State<string>, expected: seq<nat>)
    requires Valid(s) && |s.names| == 2 && "a" in s.names[0]
    requires StrictlyIncreasing(expected)
    requires forall i: int :: i in expected <==> 0 <= i < |s.table| && s.table[i].data[0] == "a"
    ensures Get(s, QueryA()) == Success(expected)
  {
    var g := Get(s, QueryA()).value;
    assert QueryA()[0] == Condition(0, "a");
    IncreasingUnique(g, expected);
  }

  /** Building a two-column table whose column 0 reads a, b, a succeeds,
      and column 0's vocabulary holds "a" and not "z". */
  lemma BuildAba(t: seq<Item<string>>)
    requires |t| == 3 && |t[0].data| == 2 && |t[1].data| == 2 && |t[2].data| == 2
    requires t[0].data[0] == "a" && t[1].data[0] == "b" && t[2].data[0] == "a"
    ensures Build(t).Success?
    ensures var s0 := Build(t).value;
      && Valid(s0) && s0.table == t && |s0.names| == 2
      && "a" in s0.names[0] && "z" !in s0.names[0]
  {
    assert WellShaped(t);
    var s0 := Build(t).value;
    assert ColumnValid(t, 0, s0.names[0], s0.bits[0]);
    var col := ColumnOf(t, 0);
    assert col == ["a", "b", "a"];
    forall j | 0 <= j < |s0.names[0]|
      ensures s0.names[0][j] != "z"
    {
      assert EntryOccurs(col, s0.names[0], j);
      assert "z" != "a" && "z" != "b" by { assert "z"[0] != "a"[0] && "z"[0] != "b"[0]; }
    }
  }

  /** The build of the demonstration table. */
  lemma DemoBuild()
    ensures Build(DemoTable()).Success?
    ensures var s0 := Build(DemoTable()).value;
      && Valid(s0) && s0.table == DemoTable() && |s0.names| == 2
      && "a" in s0.names[0] && "z" !in s0.names[0]
  {
    BuildAba(DemoTable());
  }

  /** The three appends of the run, on any index of the demonstration
      table: the table grows by the three rows and "a" stays indexed. */
  lemma DemoAppends(s0: State<string>)
    requires Valid(s0) && |s0.names| == 2 && s0.table == DemoTable() && "a" in s0.names[0]
    ensures var s1 := Append(Append(Append(s0, Item(4, ["a", "A"])), Item(5, ["b", "B"])), Item(6, ["C", "D"]));
      && Valid(s1) && |s1.names| == 2 && "a" in s1.names[0]
      && s1.table == DemoTable() + [Item(4, ["a", "A"]), Item(5, ["b", "B"]), Item(6, ["C", "D"])]
  {
    var sa := Append(s0, Item(4, ["a", "A"]));
    var sb := Append(sa, Item(5, ["b", "B"]));
    var s1 := Append(sb, Item(6, ["C", "D"]));
    assert s0.names[0] <= sa.names[0] <= sb.names[0] <= s1.names[0];
  }

  /** Querying column 0 for "z", a value it never held, fails. */
  lemma DemoUnknownValue(s0: State<string>)
    requires Valid(s0) && |s0.names| == 2 && "z" !in s0.names[0]
    ensures Get(s0, [Condition(0, "z")]) == Failure(UnknownValue)
  {
    assert !Indexed(s0.names, [Condition(0, "z")][0]);
  }

  /** Rows 0 and 2 of the demonstration table hold "a" in column 0. */
  lemma DemoFirstQuery(s0: State<string>)
    requires Valid(s0) && |s0.names| == 2 && s0.table == DemoTable() && "a" in s0.names[0]
    ensures Get(s0, QueryA()) == Success([0, 2])
  {
    assert "b" != "a" by { assert "b"[0] != "a"[0]; }
    QueryAFinds(s0, [0, 2]);
  }

  /** After appending a/A, b/B and C/D, rows 0, 2 and 3 hold "a". */
  lemma DemoQueryAfterAppends(s1: State<string>)
    requires Valid(s1) && |s1.names| == 2 && "a" in s1.names[0]
    requires s1.table == DemoTable() + [Item(4, ["a", "A"]), Item(5, ["b", "B"]), Item(6, ["C", "D"])]
    ensures Get(s1, QueryA()) == Success([0, 2, 3])
  {
    assert "b" != "a" by { assert "b"[0] != "a"[0]; }
    assert "C" != "a" by { assert "C"[0] != "a"[0]; }
    QueryAFinds(s1, [0, 2, 3]);
  }

  /** Deleting position 3 after the appends moves the later rows down, so
      rows 0 and 2 hold "a" again. */
  lemma DemoQueryAfterDelete(s1: State<string>)
    requires Valid(s1) && |s1.names| == 2 && "a" in s1.names[0]
    requires s1.table == DemoTable() + [Item(4, ["a", "A"]), Item(5, ["b", "B"]), Item(6, ["C", "D"])]
    ensures Get(Delete(s1, 3), QueryA()) == Success([0, 2])
  {
    assert "b" != "a" by { assert "b"[0] != "a"[0]; }
    assert "C" != "a" by { assert "C"[0] != "a"[0]; }
    var s2 := Delete(s1, 3);
    assert s2.table == Remove(s1.table, 3);
    assert s2.table[3] == s1.table[4];
    QueryAFinds(s2, [0, 2]);
  }

  /** The answers of the whole demonstration run, from the build on. */
  lemma DemoRun()
    ensures Build(DemoTable()).Success?
    ensures var s0 := Build(DemoTable()).value;
      && Get(s0, QueryA()) == Success([0, 2])
      && Get(s0, [Condition(0, "z")]) == Failure(UnknownValue)
      && var s1 := Append(Append(Append(s0, Item(4, ["a", "A"])), Item(5, ["b", "B"])), Item(6, ["C", "D"]));
         && Get(s1, QueryA()) == Success([0, 2, 3])
         && Get(Delete(s1, 3), QueryA()) == Success([0, 2])
  {
    DemoBuild();
    var s0 := Build(DemoTable()).value;
    DemoFirstQuery(s0);
    DemoUnknownValue(s0);
    DemoAppends(s0);
    var s1 := Append(Append(Append(s0, Item(4, ["a", "A"])), Item(5, ["b", "B"])), Item(6, ["C", "D"]));
    DemoQueryAfterAppends(s1);
    DemoQueryAfterDelete(s1);
  }
}
