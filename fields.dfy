/**
 * Splitting a text line into the fields of a row, as `strings.Split(line, ",")`
 * does: the fields are the pieces between the commas, so a line with k commas
 * gives k + 1 fields (the empty line gives one empty field), and joining the
 * fields with commas gives the line back.
 */
module Fields {

  const Comma: char := ','

  /** The number of commas in `s`. */
  function Commas(s: string): nat
  {
    multiset(s)[Comma]
  }

  /** `strings.Split(s, ",")`. */
  function Split(s: string): (fields: seq<string>)
    ensures |fields| >= 1
    decreases |s|
  {
    if |s| == 0 then [""]
    else
      var rest := Split(s[1..]);
      if s[0] == Comma then [""] + rest
      else [[s[0]] + rest[0]] + rest[1..]
  }

  /** `strings.Join(fields, ",")`. */
  function Join(fields: seq<string>): string
    requires |fields| >= 1
    decreases |fields|
  {
    if |fields| == 1 then fields[0]
    else fields[0] + [Comma] + Join(fields[1..])
  }

  /** A line with k commas splits into k + 1 fields. */
  lemma {:induction false} SplitCount(s: string)
    ensures |Split(s)| == Commas(s) + 1
    decreases |s|
  {
    if |s| > 0 {
      SplitCount(s[1..]);
      assert s == [s[0]] + s[1..];
      assert multiset(s) == multiset([s[0]]) + multiset(s[1..]);
    }
  }

  /** No field holds a comma. */
  lemma {:induction false} SplitFieldsHaveNoComma(s: string)
    ensures forall i :: 0 <= i < |Split(s)| ==> Comma !in Split(s)[i]
    decreases |s|
  {
    if |s| > 0 {
      SplitFieldsHaveNoComma(s[1..]);
      var rest := Split(s[1..]);
      if s[0] != Comma {
        assert Comma !in rest[0];
        assert Comma !in [s[0]] + rest[0];
      }
    }
  }

  /** Joining the fields of a line with commas gives the line back. */
  lemma {:induction false} JoinSplit(s: string)
    ensures Join(Split(s)) == s
    decreases |s|
  {
    if |s| > 0 {
      JoinSplit(s[1..]);
      var rest := Split(s[1..]);
      if s[0] == Comma {
        assert Split(s)[1..] == rest;
        assert s == [s[0]] + s[1..];
      } else {
        var first := [s[0]] + rest[0];
        if |rest| == 1 {
          assert s == [s[0]] + s[1..];
        } else {
          assert Split(s)[1..] == rest[1..];
          assert Join(rest) == rest[0] + [Comma] + Join(rest[1..]);
          assert s == [s[0]] + s[1..];
        }
      }
    }
  }

  /** Splitting a text whose first comma comes after `a` starts with `a`. */
  lemma {:induction false} SplitPrefix(a: string, t: string)
    requires Comma !in a
    ensures Split(a + t) == [a + Split(t)[0]] + Split(t)[1..]
    decreases |a|
  {
    if |a| > 0 {
      assert Comma !in a[1..] by {
        forall k | 0 <= k < |a[1..]| ensures a[1..][k] != Comma {
          assert a[1..][k] == a[k + 1];
        }
      }
      SplitPrefix(a[1..], t);
      assert (a + t)[0] == a[0];
      assert (a + t)[1..] == a[1..] + t;
      assert [a[0]] + (a[1..] + Split(t)[0]) == a + Split(t)[0];
    } else {
      assert a + t == t;
      assert a + Split(t)[0] == Split(t)[0];
      assert Split(t) == [Split(t)[0]] + Split(t)[1..];
    }
  }

  /** Splitting fields joined with commas gives them back, when no field holds a comma. */
  lemma {:induction false} SplitJoin(fields: seq<string>)
    requires |fields| >= 1
    requires forall i :: 0 <= i < |fields| ==> Comma !in fields[i]
    ensures Split(Join(fields)) == fields
    decreases |fields|
  {
    if |fields| == 1 {
      SplitPrefix(fields[0], "");
      assert fields[0] + "" == fields[0];
    } else {
      var tail := [Comma] + Join(fields[1..]);
      SplitJoin(fields[1..]);
      assert tail[1..] == Join(fields[1..]);
      assert Split(tail) == [""] + fields[1..];
      assert Join(fields) == fields[0] + tail;
      SplitPrefix(fields[0], tail);
      assert fields[0] + "" == fields[0];
      assert fields == [fields[0]] + fields[1..];
    }
  }
}
