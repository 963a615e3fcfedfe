/**
 * The `Node` and `Tree` types of algorithm 2: heap nodes whose `left` and
 * `right` pointers `insert` updates in place. Each node carries, as ghost
 * state, the set of nodes below it (`Repr`) and the value of its subtree
 * (`Shape`, a SearchTree.Bst); `Valid()` ties both to the pointers.
 */
module TreeNodes {
  import opened Lex
  import opened Content
  import opened RowOrder
  import SearchTree

  class Node {
    var data: Row
    var left: Node?
    var right: Node?

    ghost var Repr: set<object>
    ghost var Shape: SearchTree.Bst

    ghost predicate Valid()
      reads this, Repr
      decreases Repr
    {
      && this in Repr
      && (left != null ==>
            left in Repr && left.Repr <= Repr && this !in left.Repr && left.Valid())
      && (right != null ==>
            right in Repr && right.Repr <= Repr && this !in right.Repr && right.Valid())
      && (left != null && right != null ==> left.Repr !! right.Repr)
      && Shape == SearchTree.Branch(SubShape(left), data, SubShape(right))
    }

    /** `&Node{data: data, left: nil, right: nil}`. */
    constructor (data: Row)
      ensures Valid() && fresh(Repr)
      ensures this.data == data && left == null && right == null
      ensures Shape == SearchTree.Branch(SearchTree.Empty, data, SearchTree.Empty)
    {
      this.data := data;
      left := null;
      right := null;
      Repr := {this};
      Shape := SearchTree.Branch(SearchTree.Empty, data, SearchTree.Empty);
    }

    /**
     * Node.insert: go left when the row's key is `<=` this node's key,
     * right otherwise, and hang a new node where the pointer is nil.
     */
    method Insert(row: Row, field: int)
      requires Valid()
      modifies Repr
      ensures Valid() && fresh(Repr - old(Repr))
      ensures Shape == SearchTree.Insert(old(Shape), row, field)
      decreases Repr
    {
      if LexLe(KeyOf(row, field), KeyOf(data, field)) {
        if left == null {
          left := new Node(row);
        } else {
          left.Insert(row, field);
        }
        Repr := Repr + left.Repr;
      } else {
        if right == null {
          right := new Node(row);
        } else {
          right.Insert(row, field);
        }
        Repr := Repr + right.Repr;
      }
      Shape := SearchTree.Branch(SubShape(left), data, SubShape(right));
    }

    /**
     * rewriteTree: visit the left subtree, append this node's row to the
     * result, visit the right subtree. The global `sorted` the source
     * appends to is passed in as `sorted` and handed back as `result`.
     */
    method RewriteTree(sorted: seq<Row>) returns (result: seq<Row>)
      requires Valid()
      ensures result == sorted + SearchTree.InOrder(Shape)
      decreases Repr
    {
      result := sorted;
      if left != null {
        result := left.RewriteTree(result);
      }
      result := result + [data];
      if right != null {
        result := right.RewriteTree(result);
      }
    }
  }

  /** The value of a possibly nil subtree. */
  ghost function SubShape(n: Node?): SearchTree.Bst
    reads n
  {
    if n == null then SearchTree.Empty else n.Shape
  }

  class Tree {
    var root: Node?

    ghost var Repr: set<object>

    ghost predicate Valid()
      reads this, Repr
    {
      && this in Repr
      && (root != null ==>
            root in Repr && root.Repr <= Repr && this !in root.Repr && root.Valid())
    }

    /** The value of the whole tree. */
    ghost function Shape(): SearchTree.Bst
      reads this, Repr
      requires Valid()
    {
      SubShape(root)
    }

    /** `&Tree{}`: the empty tree. */
    constructor ()
      ensures Valid() && fresh(Repr)
      ensures root == null && Shape() == SearchTree.Empty
    {
      root := null;
      Repr := {this};
    }

    /** Tree.insert: the first row becomes the root, later rows go to Node.insert. */
    method Insert(row: Row, field: int)
      requires Valid()
      modifies Repr
      ensures Valid() && fresh(Repr - old(Repr))
      ensures Shape() == SearchTree.Insert(old(Shape()), row, field)
      ensures root != null
    {
      if root == null {
        root := new Node(row);
      } else {
        root.Insert(row, field);
      }
      Repr := Repr + root.Repr;
    }
  }
}
