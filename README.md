# A verified model of the row sorter's data logic

The program reads comma-separated text, parses it into rows with the same
number of fields, and sorts the rows by one field. It has two algorithms:
algorithm 1 is Go's `sort.Slice` and algorithm 2 is a binary-search-tree sort.
This project models the single-threaded part of `main.go` in Dafny and proves
what that part promises:

- **Row parsing** (`readContent`). Each scanned line is split on `,`.
  Parsing stops at the first empty line. A row whose field count differs
  from the first row's is fatal.
- **Comparison sort** (`sortContent`, algorithm 1). `buff[h:]` is sorted in
  place by one field, compared as raw strings. The order is ascending, or
  descending with `reverse`. The header row stays at index 0.
- **Tree sort** (`Tree.insert`, `Node.insert`, `Node.rewriteTree`,
  algorithm 2). The rows after the header are inserted in buffer order
  into an unbalanced search tree. A row goes left when its key is `<=` the
  node's key. An in-order traversal then lists the rows.

Modules, one per component:

- `Lex` (lex.dfy): Go's byte-wise string order `<=`/`<` as `LexLe`/`LexLt`,
  with proofs that it is a total order.
- `Fields` (fields.dfy): `strings.Split(line, ",")` and its inverse `Join`.
- `Content` (content.dfy): rows, the fatal conditions, and `ReadContent`.
- `RowOrder` (row_order.dfy): the `less` closure given to `sort.Slice`, and
  what "sorted" means for it.
- `ComparisonSort` (comparison_sort.dfy): an in-place insertion sort over
  `array<Row>`, the stand-in for `sort.Slice` on `buff[h:]`.
- `SearchTree` (search_tree.dfy): the tree as a value (`Bst`), insertion,
  traversal, and the search-tree invariant.
- `TreeNodes` (tree.dfy): the heap `Node` and `Tree` classes, whose
  pointers `Insert` updates in place. Ghost `Repr` (the nodes below) and
  ghost `Shape` (the subtree's `Bst` value) tie each node to the
  abstraction above.
- `SortedUnique` (sorted_unique.dfy): how far the comparison sort's
  contract fixes its result. This gives idempotence and uniqueness.
- `Sorting` (sort_content.dfy): `sortContent`, choosing by algorithm.
- `Scenarios` (scenarios.dfy): small concrete buffers.

Modelling choices:

- Fatal conditions become `Failure(...)` of a `Result`. They are `log.Fatal`
  and the three runtime panics the sort engine can hit: `buff[1:]` of an
  empty buffer, `row[field]` outside the row, and `rewriteTree` on a nil root.
- The scanner's output is a given `seq<string>` of lines.
- The drained channel is a given `seq<Row>` in input order.
- The global `sorted` is nil when `sortContent` starts. It is the result of
  `SortContent`. In `RewriteTree` it is the accumulator passed in and
  handed back.
- When `field` is outside a row, Go's `row[field]` panics at the first
  comparison that reads that row's field. Both algorithms read the field of
  every row when there are at least two rows. With fewer rows nothing is
  read. `Sorting.Comparable` states this, and `SortContent` reports the
  panic up front as `FieldOutOfRange` exactly then. So `RowOrder.KeyOf`,
  which is total, only supplies raw fields in a run that succeeds.

Behaviour of the code that the model keeps:

- Tree sort on an empty suffix dereferences the nil root at main.go:268.
  `SortContent` gives `Failure(NilRoot)`.
- An algorithm value other than 1 or 2 never assigns `sorted`, so the
  result is empty (nil).
- Tree sort drops the header row and ignores `reverse`, as the code does.
- Sorting an already sorted buffer again is not the identity under tree
  sort. Ties go left, so equal keys come out in reverse buffer order
  (`Scenarios.TreeSortReversesTies`). Algorithm 1 is idempotent only up to
  rows with equal keys (`SortedUnique.ComparisonSortIdempotent`), because
  `sort.Slice` is not stable.

## Model

| member | source | states |
|---|---|---|
| `Lex.LexLeReflexive` | main.go:252 | Go's string `<=` is reflexive |
| `Lex.LexLeAntisymmetric` | main.go:252 | two strings each `<=` the other are equal |
| `Lex.LexLeTransitive` | main.go:252 | Go's string `<=` is transitive |
| `Lex.LexLeTotal` | main.go:252 | any two strings are related by `<=` one way or the other |
| `Lex.LexLtIsStrictLe` | main.go:225-227 | Go's string `<` is `<=` without equality |
| `Lex.LexLtIffNotLe` | main.go:225-227 | `a < b` holds exactly when `b <= a` fails |
| `Fields.Split` | main.go:195 | splitting on `,` always yields at least one field |
| `Fields.SplitCount` | main.go:195 | a line with k commas splits into k + 1 fields |
| `Fields.SplitFieldsHaveNoComma` | main.go:195 | no field holds a comma |
| `Fields.JoinSplit` | main.go:195 | joining the fields of a line with `,` gives the line back |
| `Fields.SplitPrefix` | main.go:195 | the text before the first comma is the first field |
| `Fields.SplitJoin` | main.go:195 | splitting comma-free fields joined with `,` gives the fields back |
| `Content.FirstEmpty` | main.go:193-198 | the index where scanning stops: every line before it is non-empty, and the line at it, if present, is empty |
| `Content.ReadContent` | main.go:185-208 | success exactly when every line before the first empty line has as many fields as the first line; failure is `ColumnMismatch`; on success, one row per line before the first empty line, in order, each the split of its line |
| `Content.ParsedRowsRebuildLines` | main.go:193-205 | the parsed rows all have the first row's field count, each row has one more field than its line has commas, and joining a row gives back its line |
| `RowOrder.LessAsymmetric` | main.go:223-228 | the `less` closure is asymmetric, ascending and descending |
| `RowOrder.NotLessTransitive` | main.go:223-228 | "not less" is transitive, ascending and descending |
| `RowOrder.SortedByMeaning` | main.go:223-228 | sorted by `less` means non-decreasing by the field, or non-increasing when `reverse` is set |
| `ComparisonSort.InsertRow` | main.go:223-228 | one insertion pass: `a[h..i+1]` becomes sorted by `less`; the array is a permutation of before; positions outside `h..i` are unchanged |
| `ComparisonSort.SortSuffix` | main.go:223-228 | in place: `a[..h]` is unchanged, `a[h..]` is a permutation of its old contents and sorted by `less` |
| `SearchTree.SizeIsElemsCount` | main.go:16-20 | a tree's node count is the number of rows it holds; `TreeSortCorrect` uses it for the length of the result |
| `SearchTree.InsertElems` | main.go:249-265 | insertion adds exactly one node, holding the inserted row |
| `SearchTree.InsertKeepsBst` | main.go:249-265 | insertion keeps the search-tree invariant: left keys `<=` the node's key, right keys `>` it |
| `SearchTree.InOrderElems` | main.go:267-275 | the in-order traversal lists each row of the tree as often as it occurs |
| `SearchTree.AscendingAround` | main.go:267-275 | left traversal, node, right traversal is non-decreasing when the sides are and the node separates them |
| `SearchTree.InOrderAscending` | main.go:267-275 | the traversal of a search tree is non-decreasing by the field |
| `SearchTree.BuildElems` | main.go:232-235 | the tree built by inserting the rows in buffer order holds exactly those rows |
| `SearchTree.BuildIsBst` | main.go:232-235 | the tree built by inserting the rows is a search tree |
| `SearchTree.TreeSortCorrect` | main.go:232-236 | tree sort returns a permutation of its rows, of the same length, non-decreasing by the field |
| `TreeNodes.Node.constructor` | main.go:254 | a new leaf node holding the row, with nil children |
| `TreeNodes.Node.Insert` | main.go:249-265 | after `Node.insert` the node is valid and the new nodes are fresh. The subtree's value is `SearchTree.Insert` of the row, so `InsertKeepsBst` and `InsertElems` carry over to the heap tree |
| `TreeNodes.Node.RewriteTree` | main.go:267-275 | appends the in-order traversal of the node's subtree to `sorted` |
| `TreeNodes.Tree.constructor` | main.go:232 | `&Tree{}` is the empty tree |
| `TreeNodes.Tree.Insert` | main.go:240-247 | after `Tree.insert` the root is set and the tree's value is the abstract insertion of the row |
| `SortedUnique.KeysMultiset` | main.go:223 | permuting rows permutes their keys |
| `SortedUnique.SortedStringsUnique` | main.go:223-228 | two sorted arrangements of the same strings are equal, ascending or descending |
| `SortedUnique.SortedPermutationKeys` | main.go:223-228 | any two sorted permutations of the same rows have the same key at every position |
| `SortedUnique.SortedPermutationUnique` | main.go:223-228 | with distinct keys, the sorted permutation is unique |
| `SortedUnique.ComparisonSortDetermined` | main.go:222-229 | two results of algorithm 1 on one buffer agree on every key, and are equal when the keys are distinct |
| `SortedUnique.ComparisonSortIdempotent` | main.go:222-229 | re-sorting a sorted buffer changes no key at any position, and changes nothing when the keys are distinct |
| `Sorting.ComparisonSortBuffer` | main.go:222-229 | case 1: the result keeps `buff[..h]`, is as long as `buff`, and its suffix is a sorted permutation of `buff[h..]` |
| `Sorting.TreeSortRows` | main.go:230-236 | case 2: an empty row list fails on the nil root; otherwise the result is the in-order traversal of the tree built in buffer order |
| `Sorting.SortContent` | main.go:210-238 | algorithm 1 fails on a header with an empty buffer, or on an out-of-range field once two rows are compared; otherwise the header is kept and the suffix is a sorted permutation, by `reverse`. Algorithm 2 fails on an out-of-range field or an empty suffix; otherwise it returns a permutation of `buff[h..]` (header dropped) in ascending order, whatever `reverse` is. Any other algorithm gives an empty result |
| `Scenarios.AscendingScenario` | main.go:222-229 | `[b,1],[a,2],[c,3]` by field 0 ascending can only come out as `[a,2],[b,1],[c,3]` |
| `Scenarios.DescendingScenario` | main.go:222-229 | the same buffer with `reverse` can only come out as `[c,3],[b,1],[a,2]` |
| `Scenarios.HeaderScenario` | main.go:217-229 | with the header flag, `[id,val],[b,1],[a,2]` can only come out as `[id,val],[a,2],[b,1]` |
| `Scenarios.TreeScenario` | main.go:230-236 | tree sort of `[b,1],[a,2],[c,3]` by field 0 is `[a,2],[b,1],[c,3]` |
| `Scenarios.TreeSortReversesTies` | main.go:252 | tree sort turns the already ascending `[a,1],[a,2]` into `[a,2],[a,1]` |

## Left out

- Signal handling (`handler` and the goroutine in `main`): process control through `os.Exit`, outside the data logic.
- Flag parsing and `isFlagPassed`: wrappers over the `flag` library. Their values are `SortContent`'s parameters.
- The concurrent pipeline (`readDir`, `fileReadinStage`, `readFiles`): goroutines, channels and a wait group. Its point is concurrency, which is not modelled.
- The channel drain at the start of `sortContent`: the buffer is given as a sequence of rows in input order.
- I/O (`input`, `output`, `os.Open`, `os.Create`): the scanned lines are a parameter, and the sorted rows are the result.
- `bufio.Scanner` itself, and its error check at main.go:189-191: the scanner's lines are given. A scanner that stops early on an over-long line is not modelled.
- `sort.Slice` internals: an insertion sort stands in for it and keeps only its contract, a sorted permutation. Which of several rows with equal keys comes first is not modelled, since `sort.Slice` does not promise it.
- The nil-receiver branch of `Node.insert` (main.go:250-251): `Tree.insert` never calls it on nil, and a Dafny receiver is never null.
- The `*Tree` that `Tree.insert` returns: no caller uses it.
- Where a panic happens: `SortContent` checks the panic conditions before sorting, while Go panics part-way through. No partial result is visible either way, so the outcome is the same.
- Byte encoding: strings are sequences of Unicode scalar values. Go compares UTF-8 bytes, which orders strings of valid text the same way. Invalid UTF-8 is not modelled.
