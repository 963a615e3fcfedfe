/**
 * Rows, the fatal conditions of the program, and `readContent`: turning
 * the scanned lines of one input into rows of equal field count.
 */
module Content {
  import opened Fields

  /** One parsed line: its fields in order. */
  type Row = seq<string>

  /**
   * The conditions under which the program stops: `log.Fatal` on a
   * column-count mismatch, and the three runtime panics of the sort engine.
   */
  datatype Fatal =
    | ColumnMismatch      // log.Fatal in readContent
    | SliceOutOfRange     // buff[1:] of an empty buffer
    | FieldOutOfRange     // row[field] with field outside the row
    | NilRoot             // rewriteTree called on the root of an empty tree

  datatype Result<+T> = Success(value: T) | Failure(error: Fatal)

  /** The index of the first empty line, or the number of lines when there is none. */
  function FirstEmpty(lines: seq<string>): (k: nat)
    ensures k <= |lines|
    ensures forall i :: 0 <= i < k ==> lines[i] != ""
    ensures k < |lines| ==> lines[k] == ""
  {
    if |lines| == 0 || lines[0] == "" then 0 else 1 + FirstEmpty(lines[1..])
  }

  /** The lines that readContent looks at: those before the first empty line. */
  function Scanned(lines: seq<string>): (r: seq<string>)
  {
    lines[..FirstEmpty(lines)]
  }

  /** Every one of the scanned lines has as many fields as the first. */
  predicate SameFieldCount(lines: seq<string>)
  {
    forall i :: 0 <= i < |lines| ==> |Split(lines[i])| == |Split(lines[0])|
  }

  /**
   * readContent over the lines the scanner produced. Parsing stops at the
   * first empty line; a line whose field count differs from the first
   * line's is fatal.
   */
  method ReadContent(lines: seq<string>) returns (r: Result<seq<Row>>)
    ensures r.Success? <==> SameFieldCount(Scanned(lines))
    ensures r.Failure? ==> r.error == ColumnMismatch
    ensures r.Success? ==> |r.value| == |Scanned(lines)|
    ensures r.Success? ==> forall i :: 0 <= i < |r.value| ==> r.value[i] == Split(lines[i])
  {
    var n := 0;
    var content: seq<Row> := [];
    var i := 0;
    while i < |lines|
      invariant 0 <= i <= FirstEmpty(lines)
      invariant n == if i == 0 then 0 else |Split(lines[0])|
      invariant forall j :: 0 <= j < i ==> |Split(lines[j])| == n
      invariant |content| == i
      invariant forall j :: 0 <= j < i ==> content[j] == Split(lines[j])
    {
      var line := lines[i];
      var row := Split(line);
      if line == "" {
        break;
      }
      if n == 0 {
        n := |row|;
      }
      if n != |row| {
        assert !SameFieldCount(Scanned(lines)) by {
          assert Scanned(lines)[i] == lines[i];
        }
        return Failure(ColumnMismatch);
      }
      content := content + [row];
      i := i + 1;
    }
    assert i == FirstEmpty(lines);
    assert SameFieldCount(Scanned(lines)) by {
      forall j | 0 <= j < |Scanned(lines)|
        ensures |Split(Scanned(lines)[j])| == |Split(Scanned(lines)[0])|
      {
        assert Scanned(lines)[j] == lines[j];
      }
    }
    r := Success(content);
  }

  /**
   * What a successful parse produces: the fields of each line before the
   * first empty line, in order, all of one field count; joining a row's
   * fields with commas gives back its line.
   */
  lemma ParsedRowsRebuildLines(lines: seq<string>, rows: seq<Row>)
    requires |rows| == |Scanned(lines)|
    requires forall i :: 0 <= i < |rows| ==> rows[i] == Split(lines[i])
    requires SameFieldCount(Scanned(lines))
    ensures forall i :: 0 <= i < |rows| ==> |rows[i]| >= 1 && Join(rows[i]) == Scanned(lines)[i]
    ensures forall i :: 0 <= i < |rows| ==> |rows[i]| == |rows[0]|
    ensures forall i :: 0 <= i < |rows| ==> |rows[i]| == Commas(Scanned(lines)[i]) + 1
  {
    forall i | 0 <= i < |rows|
      ensures Join(rows[i]) == Scanned(lines)[i]
      ensures |rows[i]| == |rows[0]|
      ensures |rows[i]| == Commas(Scanned(lines)[i]) + 1
    {
      JoinSplit(lines[i]);
      SplitCount(lines[i]);
      assert Scanned(lines)[i] == lines[i];
      assert Scanned(lines)[0] == lines[0];
    }
  }
}
