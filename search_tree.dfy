/**
 * The binary search tree of algorithm 2 as a value: the abstraction that
 * the heap nodes of module TreeNodes keep up to date. A row goes to the
 * left of a node when its key is `<=` the node's key, to the right
 * otherwise; the in-order traversal lists the rows.
 */
module SearchTree {
  import opened Lex
  import opened Content
  import opened RowOrder

  datatype Bst = Empty | Branch(left: Bst, row: Row, right: Bst)

  /** The rows held in the tree, with their multiplicity. */
  function Elems(t: Bst): multiset<Row>
  {
    match t
    case Empty => multiset{}
    case Branch(l, x, r) => Elems(l) + multiset{x} + Elems(r)
  }

  /** The number of nodes. */
  function Size(t: Bst): nat
  {
    match t
    case Empty => 0
    case Branch(l, _, r) => Size(l) + 1 + Size(r)
  }

  /**
   * The search-tree invariant: every row in a left subtree has a key `<=`
   * its node's key, every row in a right subtree a key `>` it.
   */
  predicate IsBst(t: Bst, field: int)
  {
    match t
    case Empty => true
    case Branch(l, x, r) =>
      && IsBst(l, field) && IsBst(r, field)
      && (forall y | y in Elems(l) :: LexLe(KeyOf(y, field), KeyOf(x, field)))
      && (forall y | y in Elems(r) :: LexLt(KeyOf(x, field), KeyOf(y, field)))
  }

  /** Node.insert on the tree's value: descend left on `<=`, right otherwise; add a leaf. */
  function Insert(t: Bst, row: Row, field: int): Bst
  {
    match t
    case Empty => Branch(Empty, row, Empty)
    case Branch(l, x, r) =>
      if LexLe(KeyOf(row, field), KeyOf(x, field)) then Branch(Insert(l, row, field), x, r)
      else Branch(l, x, Insert(r, row, field))
  }

  /** rewriteTree on the tree's value: left subtree, node, right subtree. */
  function InOrder(t: Bst): seq<Row>
  {
    match t
    case Empty => []
    case Branch(l, x, r) => InOrder(l) + [x] + InOrder(r)
  }

  /** The tree of algorithm 2: the rows inserted one at a time, in buffer order. */
  function Build(rows: seq<Row>, field: int): Bst
    decreases |rows|
  {
    if |rows| == 0 then Empty
    else Insert(Build(rows[..|rows| - 1], field), rows[|rows| - 1], field)
  }

  /** Tree sort: build the tree, then list it in order. */
  function TreeSort(rows: seq<Row>, field: int): seq<Row>
  {
    InOrder(Build(rows, field))
  }

  /** The node count is the number of rows held (with multiplicity). */
  lemma {:induction false} SizeIsElemsCount(t: Bst)
    ensures Size(t) == |Elems(t)|
  {
    match t
    case Empty =>
    case Branch(l, _, r) =>
      SizeIsElemsCount(l);
      SizeIsElemsCount(r);
  }

  /** Insertion adds exactly one node, holding the inserted row. */
  lemma {:induction false} InsertElems(t: Bst, row: Row, field: int)
    ensures Elems(Insert(t, row, field)) == Elems(t) + multiset{row}
    ensures Size(Insert(t, row, field)) == Size(t) + 1
  {
    match t
    case Empty =>
    case Branch(l, x, r) =>
      InsertElems(l, row, field);
      InsertElems(r, row, field);
  }

  /** Insertion keeps the search-tree invariant. */
  lemma {:induction false} InsertKeepsBst(t: Bst, row: Row, field: int)
    requires IsBst(t, field)
    ensures IsBst(Insert(t, row, field), field)
  {
    match t
    case Empty =>
    case Branch(l, x, r) =>
      InsertElems(l, row, field);
      InsertElems(r, row, field);
      if LexLe(KeyOf(row, field), KeyOf(x, field)) {
        InsertKeepsBst(l, row, field);
      } else {
        InsertKeepsBst(r, row, field);
        LexLtIffNotLe(KeyOf(x, field), KeyOf(row, field));
      }
  }

  /** The traversal lists every row of the tree exactly as often as it occurs. */
  lemma {:induction false} InOrderElems(t: Bst)
    ensures multiset(InOrder(t)) == Elems(t)
    ensures |InOrder(t)| == Size(t)
  {
    match t
    case Empty =>
    case Branch(l, x, r) =>
      InOrderElems(l);
      InOrderElems(r);
  }

  /**
   * Gluing two non-decreasing lists around a row that is `>=` everything on
   * its left and `<` everything on its right gives a non-decreasing list.
   */
  lemma AscendingAround(ls: seq<Row>, x: Row, rs: seq<Row>, field: int)
    requires Ascending(ls, field) && Ascending(rs, field)
    requires forall y | y in multiset(ls) :: LexLe(KeyOf(y, field), KeyOf(x, field))
    requires forall y | y in multiset(rs) :: LexLt(KeyOf(x, field), KeyOf(y, field))
    ensures Ascending(ls + [x] + rs, field)
  {
    var s := ls + [x] + rs;
    var k := KeyOf(x, field);
    forall i, j | 0 <= i < j < |s|
      ensures LexLe(KeyOf(s[i], field), KeyOf(s[j], field))
    {
      if i < |ls| {
        assert s[i] == ls[i] && s[i] in multiset(ls);
        if j > |ls| {
          assert s[j] == rs[j - |ls| - 1] && s[j] in multiset(rs);
          LexLtIsStrictLe(k, KeyOf(s[j], field));
          LexLeTransitive(KeyOf(s[i], field), k, KeyOf(s[j], field));
        } else if j < |ls| {
          assert s[j] == ls[j];
        }
      } else if i == |ls| {
        assert s[j] == rs[j - |ls| - 1] && s[j] in multiset(rs);
        LexLtIsStrictLe(k, KeyOf(s[j], field));
      } else {
        assert s[i] == rs[i - |ls| - 1] && s[j] == rs[j - |ls| - 1];
      }
    }
  }

  /** The traversal of a search tree is non-decreasing by the field. */
  lemma {:induction false} InOrderAscending(t: Bst, field: int)
    requires IsBst(t, field)
    ensures Ascending(InOrder(t), field)
  {
    match t
    case Empty =>
    case Branch(l, x, r) =>
      InOrderAscending(l, field);
      InOrderAscending(r, field);
      InOrderElems(l);
      InOrderElems(r);
      AscendingAround(InOrder(l), x, InOrder(r), field);
  }

  /** The tree built from the rows holds exactly those rows. */
  lemma {:induction false} BuildElems(rows: seq<Row>, field: int)
    ensures Elems(Build(rows, field)) == multiset(rows)
    decreases |rows|
  {
    if |rows| > 0 {
      var init, last := rows[..|rows| - 1], rows[|rows| - 1];
      BuildElems(init, field);
      InsertElems(Build(init, field), last, field);
      assert rows == init + [last];
    }
  }

  /** The tree built from the rows is a search tree. */
  lemma {:induction false} BuildIsBst(rows: seq<Row>, field: int)
    ensures IsBst(Build(rows, field), field)
    decreases |rows|
  {
    if |rows| > 0 {
      var init, last := rows[..|rows| - 1], rows[|rows| - 1];
      BuildIsBst(init, field);
      InsertKeepsBst(Build(init, field), last, field);
    }
  }

  /**
   * Tree sort returns a permutation of the rows it was given, in
   * non-decreasing order of the field.
   */
  lemma TreeSortCorrect(rows: seq<Row>, field: int)
    ensures multiset(TreeSort(rows, field)) == multiset(rows)
    ensures |TreeSort(rows, field)| == |rows|
    ensures Ascending(TreeSort(rows, field), field)
  {
    BuildElems(rows, field);
    BuildIsBst(rows, field);
    InOrderElems(Build(rows, field));
    InOrderAscending(Build(rows, field), field);
    SizeIsElemsCount(Build(rows, field));
  }
}
