/**
 * What the comparison sort's contract determines. sort.Slice is not
 * stable, so its result is fixed only up to the order of rows with equal
 * keys: any two sorted permutations of the same rows have the same key at
 * every position, and when the keys are distinct they are the same rows.
 */
module SortedUnique {
  import opened Lex
  import opened Content
  import opened RowOrder

  /** The keys of the rows, position by position. */
  function Keys(s: seq<Row>, field: int): (ks: seq<string>)
    ensures |ks| == |s|
    ensures forall i :: 0 <= i < |s| ==> ks[i] == KeyOf(s[i], field)
  {
    seq(|s|, i requires 0 <= i < |s| => KeyOf(s[i], field))
  }

  /** No two rows share a key. */
  predicate DistinctKeys(s: seq<Row>, field: int)
  {
    forall i, j :: 0 <= i < j < |s| ==> KeyOf(s[i], field) != KeyOf(s[j], field)
  }

  /** The contract of algorithm 1: header kept, the rest a sorted permutation. */
  predicate ComparisonSorted(out: seq<Row>, buff: seq<Row>, h: nat, field: int, reverse: bool)
  {
    && h <= |buff|
    && |out| == |buff|
    && out[..h] == buff[..h]
    && multiset(out[h..]) == multiset(buff[h..])
    && SortedBy(out[h..], field, reverse)
  }

  /** `x` may come before `y`: `<=`, or `>=` when `reverse` is set. */
  predicate MayPrecede(x: string, y: string, reverse: bool)
  {
    if reverse then LexLe(y, x) else LexLe(x, y)
  }

  predicate KeysSorted(ks: seq<string>, reverse: bool)
  {
    forall i, j :: 0 <= i < j < |ks| ==> MayPrecede(ks[i], ks[j], reverse)
  }

  /** Removing one occurrence of the same element from equal multisets leaves equal multisets. */
  lemma CancelOne<T>(a: multiset<T>, b: multiset<T>, x: T)
    requires a + multiset{x} == b + multiset{x}
    ensures a == b
  {
    forall y
      ensures a[y] == b[y]
    {
      assert (a + multiset{x})[y] == (b + multiset{x})[y];
    }
  }

  lemma KeysConcat(u: seq<Row>, v: seq<Row>, field: int)
    ensures Keys(u + v, field) == Keys(u, field) + Keys(v, field)
  {
  }

  /** Rearranging the rows rearranges their keys. */
  lemma {:induction false} KeysMultiset(s: seq<Row>, t: seq<Row>, field: int)
    requires multiset(s) == multiset(t)
    ensures multiset(Keys(s, field)) == multiset(Keys(t, field))
    decreases |s|
  {
    if |s| > 0 {
      var x := s[0];
      assert x in multiset(t);
      var m :| 0 <= m < |t| && t[m] == x;
      var u, v := t[..m], t[m + 1..];
      assert t == u + [x] + v;
      assert s == [x] + s[1..];
      assert multiset(t) == multiset(u + v) + multiset{x};
      assert multiset(s) == multiset(s[1..]) + multiset{x};
      CancelOne(multiset(s[1..]), multiset(u + v), x);
      KeysMultiset(s[1..], u + v, field);
      KeysConcat([x], s[1..], field);
      KeysConcat(u + [x], v, field);
      KeysConcat(u, [x], field);
      KeysConcat(u, v, field);
      var k := Keys([x], field);
      assert multiset(Keys(s, field)) == multiset(k) + multiset(Keys(s[1..], field));
      assert multiset(Keys(t, field)) == multiset(Keys(u, field)) + multiset(k) + multiset(Keys(v, field));
      assert multiset(Keys(u + v, field)) == multiset(Keys(u, field)) + multiset(Keys(v, field));
    } else {
      assert |t| == |multiset(t)| == 0;
    }
  }

  /** Two sorted arrangements of the same strings are equal. */
  lemma {:induction false} SortedStringsUnique(a: seq<string>, b: seq<string>, reverse: bool)
    requires KeysSorted(a, reverse) && KeysSorted(b, reverse)
    requires multiset(a) == multiset(b)
    ensures a == b
    decreases |a|
  {
    if |a| == 0 {
      assert |b| == |multiset(b)| == 0;
    } else {
      assert |b| == |multiset(b)| == |a|;
      assert a[0] in multiset(b) && b[0] in multiset(a);
      var m :| 0 <= m < |b| && b[m] == a[0];
      var n :| 0 <= n < |a| && a[n] == b[0];
      // b[0] may come before a[0] = b[m], and a[0] before a[n] = b[0].
      if m > 0 {
        assert MayPrecede(b[0], b[m], reverse);
      } else {
        LexLeReflexive(b[0]);
      }
      if n > 0 {
        assert MayPrecede(a[0], a[n], reverse);
      } else {
        LexLeReflexive(a[0]);
      }
      LexLeAntisymmetric(a[0], b[0]);
      assert a == [a[0]] + a[1..] && b == [b[0]] + b[1..];
      assert multiset(a) == multiset(a[1..]) + multiset{a[0]};
      assert multiset(b) == multiset(b[1..]) + multiset{a[0]};
      CancelOne(multiset(a[1..]), multiset(b[1..]), a[0]);
      SortedStringsUnique(a[1..], b[1..], reverse);
    }
  }

  /** Sorted permutations of the same rows agree on the key at every position. */
  lemma SortedPermutationKeys(s: seq<Row>, t: seq<Row>, field: int, reverse: bool)
    requires SortedBy(s, field, reverse) && SortedBy(t, field, reverse)
    requires multiset(s) == multiset(t)
    ensures Keys(s, field) == Keys(t, field)
  {
    SortedByMeaning(s, field, reverse);
    SortedByMeaning(t, field, reverse);
    KeysMultiset(s, t, field);
    SortedStringsUnique(Keys(s, field), Keys(t, field), reverse);
  }

  /** With distinct keys there is only one sorted permutation. */
  lemma SortedPermutationUnique(s: seq<Row>, t: seq<Row>, field: int, reverse: bool)
    requires SortedBy(s, field, reverse) && SortedBy(t, field, reverse)
    requires multiset(s) == multiset(t)
    requires DistinctKeys(s, field)
    ensures s == t
  {
    SortedPermutationKeys(s, t, field, reverse);
    assert |t| == |multiset(t)| == |s|;
    forall i | 0 <= i < |s|
      ensures s[i] == t[i]
    {
      assert t[i] in multiset(s);
      var m :| 0 <= m < |s| && s[m] == t[i];
      assert KeyOf(s[m], field) == KeyOf(s[i], field);
    }
  }

  /**
   * Algorithm 1 is determined up to ties: two results meeting its contract
   * agree on every key, and are equal when the rows after the header have
   * distinct keys (stated of one of the two results, which hold the same keys).
   */
  lemma ComparisonSortDetermined(buff: seq<Row>, out1: seq<Row>, out2: seq<Row>, h: nat, field: int, reverse: bool)
    requires ComparisonSorted(out1, buff, h, field, reverse)
    requires ComparisonSorted(out2, buff, h, field, reverse)
    ensures Keys(out1, field) == Keys(out2, field)
    ensures DistinctKeys(out1[h..], field) ==> out1 == out2
  {
    SortedPermutationKeys(out1[h..], out2[h..], field, reverse);
    assert out1 == out1[..h] + out1[h..] && out2 == out2[..h] + out2[h..];
    forall i | 0 <= i < |out1|
      ensures KeyOf(out1[i], field) == KeyOf(out2[i], field)
    {
      if i >= h {
        assert out1[i] == out1[h..][i - h] && out2[i] == out2[h..][i - h];
      } else {
        assert out1[i] == out1[..h][i] && out2[i] == out2[..h][i];
      }
    }
    if DistinctKeys(out1[h..], field) {
      SortedPermutationUnique(out1[h..], out2[h..], field, reverse);
    }
  }

  /**
   * Sorting an already sorted buffer again changes no key at any position,
   * and changes nothing when the rows after the header have distinct keys.
   */
  lemma ComparisonSortIdempotent(buff: seq<Row>, out: seq<Row>, h: nat, field: int, reverse: bool)
    requires h <= |buff| && SortedBy(buff[h..], field, reverse)
    requires ComparisonSorted(out, buff, h, field, reverse)
    ensures Keys(out, field) == Keys(buff, field)
    ensures DistinctKeys(buff[h..], field) ==> out == buff
  {
    assert ComparisonSorted(buff, buff, h, field, reverse);
    ComparisonSortDetermined(buff, buff, out, h, field, reverse);
  }
}
