/**
 * sortContent: the buffer of rows, the header offset, and the choice
 * between the comparison sort (algorithm 1) and the tree sort
 * (algorithm 2). The value it leaves in the global `sorted` is the
 * method's result; the runtime panics the source can hit are failures.
 */
module Sorting {
  import opened Content
  import opened RowOrder
  import opened ComparisonSort
  import opened SearchTree
  import opened TreeNodes
  import opened SortedUnique

  /** `h`: 1 when the header flag is set, 0 otherwise. */
  function HeaderOffset(header: bool): nat
  {
    if header then 1 else 0
  }

  /**
   * The rows the tree sort inserts: `buff[h..]`, in buffer order, or none
   * when the buffer is shorter than `h` (the insertion loop then does not run).
   */
  function TreeRows(buff: seq<Row>, h: nat): seq<Row>
  {
    if h <= |buff| then buff[h..] else []
  }

  /**
   * Whether sorting `rows` gets past `row[field]`. Both algorithms index
   * the field of every row once there are two rows to compare (sort.Slice
   * must compare each row at least once; each Node.insert after the first
   * compares the new row with the root); with fewer rows nothing is
   * indexed.
   */
  predicate Comparable(rows: seq<Row>, field: int)
  {
    |rows| < 2 || FieldInRange(rows, field)
  }

  /** Case 1 of sortContent: `sort.Slice(buff[h:], less)`; `sorted = buff`. */
  method ComparisonSortBuffer(buff: seq<Row>, h: nat, field: int, reverse: bool)
    returns (sorted: seq<Row>)
    requires h <= |buff|
    ensures ComparisonSorted(sorted, buff, h, field, reverse)
  {
    var a := new Row[|buff|](i => if 0 <= i < |buff| then buff[i] else []);
    assert a[..] == buff;
    SortSuffix(a, h, field, reverse);
    sorted := a[..];
  }

  /**
   * Case 2 of sortContent: insert the rows one by one into an empty tree,
   * then `t.root.rewriteTree()`, which fails on the nil root of an empty tree.
   */
  method TreeSortRows(rows: seq<Row>, field: int) returns (r: Result<seq<Row>>)
    ensures rows == [] ==> r == Failure(NilRoot)
    ensures rows != [] ==> r == Success(TreeSort(rows, field))
  {
    var t := new Tree();
    var i := 0;
    while i < |rows|
      invariant 0 <= i <= |rows|
      invariant t.Valid() && fresh(t.Repr)
      invariant t.Shape() == Build(rows[..i], field)
      invariant i > 0 ==> t.root != null
    {
      assert rows[..i + 1][..i] == rows[..i];
      t.Insert(rows[i], field);
      i := i + 1;
    }
    assert rows[..i] == rows;
    if t.root == null {
      assert rows == [];
      return Failure(NilRoot);
    }
    var sorted := t.root.RewriteTree([]);
    assert sorted == InOrder(Build(rows, field));
    r := Success(sorted);
  }

  /**
   * sortContent over the drained buffer. Algorithm 1 sorts `buff[h..]` in
   * place and keeps the header row; algorithm 2 inserts `buff[h..]` into a
   * search tree and lists it in order, dropping the header and ignoring
   * `reverse`; any other algorithm leaves `sorted` nil.
   */
  method SortContent(buff: seq<Row>, header: bool, field: int, reverse: bool, algorithm: int)
    returns (r: Result<seq<Row>>)
    ensures algorithm == 1 ==>
      var h := HeaderOffset(header);
      if |buff| < h then r == Failure(SliceOutOfRange)
      else if !Comparable(buff[h..], field) then r == Failure(FieldOutOfRange)
      else r.Success? && ComparisonSorted(r.value, buff, h, field, reverse)
    ensures algorithm == 2 ==>
      var rows := TreeRows(buff, HeaderOffset(header));
      if !Comparable(rows, field) then r == Failure(FieldOutOfRange)
      else if rows == [] then r == Failure(NilRoot)
      else && r == Success(TreeSort(rows, field))
           && |r.value| == |rows|
           && multiset(r.value) == multiset(rows)
           && Ascending(r.value, field)
    ensures algorithm != 1 && algorithm != 2 ==> r == Success([])
  {
    var h := HeaderOffset(header);
    if algorithm == 1 {
      if |buff| < h {
        return Failure(SliceOutOfRange);
      }
      if !Comparable(buff[h..], field) {
        return Failure(FieldOutOfRange);
      }
      var sorted := ComparisonSortBuffer(buff, h, field, reverse);
      r := Success(sorted);
    } else if algorithm == 2 {
      var rows := TreeRows(buff, h);
      if !Comparable(rows, field) {
        return Failure(FieldOutOfRange);
      }
      r := TreeSortRows(rows, field);
      TreeSortCorrect(rows, field);
    } else {
      r := Success([]);
    }
  }
}
