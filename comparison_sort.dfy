/**
 * Algorithm 1 of sortContent: `sort.Slice(buff[h:], less)`, sorting the
 * rows after the header offset in place. sort.Slice promises a sorted
 * permutation and nothing about ties; an insertion sort by adjacent swaps
 * stands in for it here and keeps the same promise.
 */
module ComparisonSort {
  import opened Content
  import opened RowOrder

  /** Exchanges two neighbouring rows of the array. */
  method SwapAdjacent(a: array<Row>, k: nat)
    requires 0 < k < a.Length
    modifies a
    ensures a[k - 1] == old(a[k]) && a[k] == old(a[k - 1])
    ensures forall m :: 0 <= m < a.Length && m != k - 1 && m != k ==> a[m] == old(a[m])
    ensures multiset(a[..]) == old(multiset(a[..]))
  {
    a[k - 1], a[k] := a[k], a[k - 1];
  }

  /** Two arrangements with equal prefixes and equal contents have equal suffix contents. */
  lemma SameSuffixMultiset(s: seq<Row>, t: seq<Row>, h: nat)
    requires h <= |s| && h <= |t|
    requires s[..h] == t[..h] && multiset(s) == multiset(t)
    ensures multiset(s[h..]) == multiset(t[h..])
  {
    assert s == s[..h] + s[h..];
    assert t == t[..h] + t[h..];
    forall x
      ensures multiset(s[h..])[x] == multiset(t[h..])[x]
    {
      assert multiset(s)[x] == multiset(s[..h])[x] + multiset(s[h..])[x];
      assert multiset(t)[x] == multiset(t[..h])[x] + multiset(t[h..])[x];
    }
  }

  /**
   * One pass of the insertion sort: the row at `i` moves left past every
   * row it is `less` than, so that `a[h..i + 1]` becomes sorted.
   */
  method InsertRow(a: array<Row>, h: nat, i: nat, field: int, reverse: bool)
    requires h <= i < a.Length
    requires forall k, l :: h <= k < l < i ==> !Less(a[l], a[k], field, reverse)
    modifies a
    ensures forall m :: 0 <= m < a.Length && !(h <= m <= i) ==> a[m] == old(a[m])
    ensures multiset(a[..]) == old(multiset(a[..]))
    ensures forall k, l :: h <= k < l <= i ==> !Less(a[l], a[k], field, reverse)
  {
    var j := i;
    while j > h && Less(a[j], a[j - 1], field, reverse)
      invariant h <= j <= i
      invariant forall m :: 0 <= m < a.Length && !(h <= m <= i) ==> a[m] == old(a[m])
      invariant multiset(a[..]) == old(multiset(a[..]))
      invariant forall k, l :: h <= k < l <= i && k != j && l != j ==> !Less(a[l], a[k], field, reverse)
      invariant forall l :: j < l <= i ==> !Less(a[l], a[j], field, reverse)
    {
      LessAsymmetric(a[j], a[j - 1], field, reverse);
      SwapAdjacent(a, j);
      j := j - 1;
    }
    forall k | h <= k < j
      ensures !Less(a[j], a[k], field, reverse)
    {
      if k < j - 1 {
        NotLessTransitive(a[k], a[j - 1], a[j], field, reverse);
      }
    }
  }

  /**
   * Sorts `a[h..]` by `less`, leaving `a[..h]` (the header row, if any) as
   * it was.
   */
  method SortSuffix(a: array<Row>, h: nat, field: int, reverse: bool)
    requires h <= a.Length
    modifies a
    ensures a[..h] == old(a[..h])
    ensures multiset(a[h..]) == old(multiset(a[h..]))
    ensures SortedBy(a[h..], field, reverse)
  {
    ghost var before := a[..];
    var i := h;
    while i < a.Length
      invariant h <= i <= a.Length
      invariant forall m :: 0 <= m < h ==> a[m] == old(a[m])
      invariant multiset(a[..]) == old(multiset(a[..]))
      invariant forall k, l :: h <= k < l < i ==> !Less(a[l], a[k], field, reverse)
    {
      InsertRow(a, h, i, field, reverse);
      i := i + 1;
    }
    assert a[..h] == before[..h];
    SameSuffixMultiset(before, a[..], h);
    forall k, l | 0 <= k < l < |a[h..]|
      ensures !Less(a[h..][l], a[h..][k], field, reverse)
    {
      assert a[h..][l] == a[h + l] && a[h..][k] == a[h + k];
    }
  }
}
