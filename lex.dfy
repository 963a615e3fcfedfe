/**
 * Go's ordering of strings. Go's `<` and `<=` on strings compare the bytes
 * of the two strings lexicographically; a proper prefix is smaller. Over
 * Unicode scalar values this order coincides with the byte order of their
 * UTF-8 encodings, so it is stated here over `char`.
 *
 * Dafny's own `<` on sequences means "proper prefix", so the order is
 * defined here, and shown to be a total order before anything is sorted
 * by it.
 */
module Lex {

  /** `a <= b` in Go's string order. */
  predicate LexLe(a: string, b: string)
    decreases |a|
  {
    |a| == 0 || (|b| > 0 && (a[0] < b[0] || (a[0] == b[0] && LexLe(a[1..], b[1..]))))
  }

  /** `a < b` in Go's string order. */
  predicate LexLt(a: string, b: string)
    decreases |a|
  {
    |b| > 0 && (|a| == 0 || a[0] < b[0] || (a[0] == b[0] && LexLt(a[1..], b[1..])))
  }

  lemma {:induction false} LexLeReflexive(a: string)
    ensures LexLe(a, a)
  {
    if |a| > 0 {
      LexLeReflexive(a[1..]);
    }
  }

  lemma {:induction false} LexLeAntisymmetric(a: string, b: string)
    requires LexLe(a, b) && LexLe(b, a)
    ensures a == b
  {
    if |a| > 0 {
      assert a[0] == b[0];
      LexLeAntisymmetric(a[1..], b[1..]);
      assert a == [a[0]] + a[1..];
      assert b == [b[0]] + b[1..];
    }
  }

  lemma {:induction false} LexLeTransitive(a: string, b: string, c: string)
    requires LexLe(a, b) && LexLe(b, c)
    ensures LexLe(a, c)
  {
    if |a| > 0 && a[0] == b[0] && b[0] == c[0] {
      LexLeTransitive(a[1..], b[1..], c[1..]);
    }
  }

  lemma {:induction false} LexLeTotal(a: string, b: string)
    ensures LexLe(a, b) || LexLe(b, a)
  {
    if |a| > 0 && |b| > 0 && a[0] == b[0] {
      LexLeTotal(a[1..], b[1..]);
    }
  }

  /** `<` is `<=` without equality, as in Go. */
  lemma {:induction false} LexLtIsStrictLe(a: string, b: string)
    ensures LexLt(a, b) <==> LexLe(a, b) && a != b
  {
    if |a| > 0 && |b| > 0 && a[0] == b[0] {
      LexLtIsStrictLe(a[1..], b[1..]);
      assert a == [a[0]] + a[1..];
      assert b == [b[0]] + b[1..];
      assert a[1..] != b[1..] <==> a != b;
    } else if |a| > 0 && |b| > 0 {
      assert a != b;
    }
  }

  /** `a < b` holds exactly when `b <= a` fails: the order is total. */
  lemma LexLtIffNotLe(a: string, b: string)
    ensures LexLt(a, b) <==> !LexLe(b, a)
  {
    LexLtIsStrictLe(a, b);
    LexLeTotal(a, b);
    if LexLe(b, a) && LexLe(a, b) {
      LexLeAntisymmetric(a, b);
    }
  }
}
