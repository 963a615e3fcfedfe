/**
 * How rows are compared: by one field, as raw strings, in Go's string
 * order; the comparator of the comparison sort, and what "sorted" means
 * for it.
 */
module RowOrder {
  import opened Lex
  import opened Content

  /**
   * The field a row is compared by. A field index outside the row makes the
   * first comparison that reads that row's field panic; SortContent reports
   * this up front as FieldOutOfRange (see Sorting.Comparable), so the empty
   * string here is never compared in a run that succeeds.
   */
  function KeyOf(row: Row, field: int): string
  {
    if 0 <= field < |row| then row[field] else ""
  }

  /** Every row holds the field (Go panics on `row[field]` otherwise). */
  predicate FieldInRange(rows: seq<Row>, field: int)
  {
    forall i :: 0 <= i < |rows| ==> 0 <= field < |rows[i]|
  }

  /**
   * The `less` closure handed to sort.Slice: `x[field] > y[field]` when
   * `reverse` is set, `x[field] < y[field]` otherwise.
   */
  predicate Less(x: Row, y: Row, field: int, reverse: bool)
  {
    if reverse then LexLt(KeyOf(y, field), KeyOf(x, field))
    else LexLt(KeyOf(x, field), KeyOf(y, field))
  }

  /** Sorted in sort.Slice's sense: no row is `less` than a row before it. */
  predicate SortedBy(s: seq<Row>, field: int, reverse: bool)
  {
    forall i, j :: 0 <= i < j < |s| ==> !Less(s[j], s[i], field, reverse)
  }

  /** Non-decreasing by the field. */
  predicate Ascending(s: seq<Row>, field: int)
  {
    forall i, j :: 0 <= i < j < |s| ==> LexLe(KeyOf(s[i], field), KeyOf(s[j], field))
  }

  /** Non-increasing by the field. */
  predicate Descending(s: seq<Row>, field: int)
  {
    forall i, j :: 0 <= i < j < |s| ==> LexLe(KeyOf(s[j], field), KeyOf(s[i], field))
  }

  /** `less` is a strict order: never both ways. */
  lemma LessAsymmetric(x: Row, y: Row, field: int, reverse: bool)
    requires Less(x, y, field, reverse)
    ensures !Less(y, x, field, reverse)
  {
    LexLtIffNotLe(KeyOf(x, field), KeyOf(y, field));
    LexLtIffNotLe(KeyOf(y, field), KeyOf(x, field));
    LexLeTotal(KeyOf(x, field), KeyOf(y, field));
  }

  /** "Not less" is transitive, so sortedness needs only neighbouring comparisons. */
  lemma NotLessTransitive(x: Row, y: Row, z: Row, field: int, reverse: bool)
    requires !Less(y, x, field, reverse) && !Less(z, y, field, reverse)
    ensures !Less(z, x, field, reverse)
  {
    var a, b, c := KeyOf(x, field), KeyOf(y, field), KeyOf(z, field);
    LexLtIffNotLe(a, b);
    LexLtIffNotLe(b, a);
    LexLtIffNotLe(b, c);
    LexLtIffNotLe(c, b);
    LexLtIffNotLe(a, c);
    LexLtIffNotLe(c, a);
    if reverse {
      LexLeTransitive(c, b, a);
    } else {
      LexLeTransitive(a, b, c);
    }
  }

  /** Sorted by the comparator means ascending by the field, or descending when `reverse` is set. */
  lemma SortedByMeaning(s: seq<Row>, field: int, reverse: bool)
    ensures SortedBy(s, field, reverse) <==> (if reverse then Descending(s, field) else Ascending(s, field))
  {
    forall i, j | 0 <= i < j < |s|
      ensures !Less(s[j], s[i], field, reverse) <==>
              (if reverse then LexLe(KeyOf(s[j], field), KeyOf(s[i], field))
               else LexLe(KeyOf(s[i], field), KeyOf(s[j], field)))
    {
      LexLtIffNotLe(KeyOf(s[j], field), KeyOf(s[i], field));
      LexLtIffNotLe(KeyOf(s[i], field), KeyOf(s[j], field));
    }
  }
}
