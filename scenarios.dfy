/**
 * Small concrete buffers and the only outcomes the contracts allow for
 * them.
 */
module Scenarios {
  import opened Lex
  import opened Content
  import opened RowOrder
  import opened SearchTree
  import opened SortedUnique

  const B1: Row := ["b", "1"]
  const A2: Row := ["a", "2"]
  const C3: Row := ["c", "3"]

  /** Field 0, ascending: whatever sort.Slice does with ties, this buffer has one sorted order. */
  lemma AscendingScenario(out: seq<Row>)
    requires ComparisonSorted(out, [B1, A2, C3], 0, 0, false)
    ensures out == [A2, B1, C3]
  {
  }

  /** Field 0, reverse: the same buffer, descending. */
  lemma DescendingScenario(out: seq<Row>)
    requires ComparisonSorted(out, [B1, A2, C3], 0, 0, true)
    ensures out == [C3, B1, A2]
  {
  }

  /** With the header flag the first row stays at index 0 and the rest is sorted. */
  lemma HeaderScenario(out: seq<Row>)
    requires ComparisonSorted(out, [["id", "val"], B1, A2], 1, 0, false)
    ensures out == [["id", "val"], A2, B1]
  {
  }

  /** The tree sort of the same buffer; the reverse flag plays no part in it. */
  lemma TreeScenario()
    ensures TreeSort([B1, A2, C3], 0) == [A2, B1, C3]
  {
    var rows := [B1, A2, C3];
    assert rows[..2][..1] == [B1] && rows[..2] == [B1, A2];
    assert KeyOf(A2, 0) == "a" && KeyOf(B1, 0) == "b" && KeyOf(C3, 0) == "c";
    assert LexLe("a", "b") && !LexLe("c", "b");
    var t1 := Branch(Empty, B1, Empty);
    assert Build([B1], 0) == t1;
    var t2 := Branch(Branch(Empty, A2, Empty), B1, Empty);
    assert Insert(t1, A2, 0) == t2;
    var t3 := Branch(Branch(Empty, A2, Empty), B1, Branch(Empty, C3, Empty));
    assert Insert(t2, C3, 0) == t3;
    assert Build(rows, 0) == t3;
  }

  /**
   * Ties go left, so the tree sort lists rows with equal keys in the
   * reverse of their buffer order: a buffer that is already sorted comes
   * back changed.
   */
  lemma TreeSortReversesTies()
    ensures Ascending([["a", "1"], ["a", "2"]], 0)
    ensures TreeSort([["a", "1"], ["a", "2"]], 0) == [["a", "2"], ["a", "1"]]
  {
    var rows := [["a", "1"], ["a", "2"]];
    assert rows[..1] == [["a", "1"]];
    assert KeyOf(rows[0], 0) == "a" && KeyOf(rows[1], 0) == "a";
    LexLeReflexive("a");
    var t1 := Branch(Empty, rows[0], Empty);
    assert Build(rows[..1], 0) == t1;
    assert Build(rows, 0) == Branch(Branch(Empty, rows[1], Empty), rows[0], Empty);
  }
}
