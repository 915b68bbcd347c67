/** `RankedProteinAlignmentFormat` of the QIIME 2 plugin: the line-by-line
    acceptance check of a ranked-alignment CSV file. The file arrives as
    the rows `csv.reader` yields, each a list of cells; CSV quoting and
    reading the file are not modelled. */
module RankedFormat {
  import opened Results
  import opened Text

  datatype Level = Min | Max

  /** The reasons `_check_n_records` rejects a file; `line` is 1-based. */
  datatype FormatError =
    | EmptyHeader                    // `line[0]` of a blank first line: IndexError
    | FirstHeader(found: string)     // the first header cell is not "Sequence ID"
    | NoPositionHeaders              // no header cell after the first: IndexError while reporting
    | PositionHeader                 // a later header cell does not start with "pos"
    | WrongLength(line: nat)         // a row with more or fewer cells than the header
    | NotNumbers(line: nat)          // a rank cell that is not all digits
    | OutOfRange(line: nat)          // a rank above 23
    | NoRecords                      // no data row among the lines examined

  const IdHeader: string := "Sequence ID"
  const PosPrefix: string := "pos"
  /** Largest rank the format accepts. */
  const MaxRank: nat := 23

  /** The lines examined at each level: the first 5 at 'min', all at 'max'. */
  function LineLimit(level: Level): Option<nat> {
    match level
    case Min => Some(5)
    case Max => None
  }

  /** `{x[:3] for x in line[1:]}`. */
  function HeaderRest(line: seq<string>): (prefixes: set<string>)
    requires |line| > 0
  {
    set x | x in line[1..] :: Head(x, 3)
  }

  /** The header checks; on success, the header length every row must match. */
  function CheckHeader(line: seq<string>): (r: Result<nat, FormatError>)
    ensures r.Ok? ==> r.value == |line|
  {
    if |line| == 0 then Err(EmptyHeader)
    else if line[0] != IdHeader then Err(FirstHeader(line[0]))
    else if HeaderRest(line) == {} then Err(NoPositionHeaders)
    else if HeaderRest(line) != {PosPrefix} then Err(PositionHeader)
    else Ok(|line|)
  }

  /** Python's `line[1:]`: the cells after the first (none for an empty line). */
  function Rest(line: seq<string>): (r: seq<string>)
    ensures |line| > 0 ==> r == line[1..]
    ensures |line| == 0 ==> r == []
  {
    if |line| == 0 then [] else line[1..]
  }

  /** The checks of one data row at 1-based line number `i`. */
  function CheckRow(line: seq<string>, headerLen: nat, i: nat): Outcome<FormatError> {
    if |line| != headerLen then Fail(WrongLength(i))
    else if !(forall x :: x in Rest(line) ==> IsDigits(x)) then Fail(NotNumbers(i))
    else if !(forall x :: x in Rest(line) ==> ParseNat(x) <= MaxRank) then Fail(OutOfRange(i))
    else Pass
  }

  /** The data rows in order, the first of them on line `i`; the first failure wins. */
  function CheckRows(rows: seq<seq<string>>, headerLen: nat, i: nat): Outcome<FormatError>
    decreases |rows|
  {
    if |rows| == 0 then Pass
    else match CheckRow(rows[0], headerLen, i)
      case Fail(e) => Fail(e)
      case Pass => CheckRows(rows[1..], headerLen, i + 1)
  }

  /** `_check_n_records(n)`: the header, then every data row, then at least
      one data row, over the first `n` lines (all lines when `n` is None). */
  function CheckNRecords(lines: seq<seq<string>>, n: Option<nat>): Outcome<FormatError> {
    var examined := if n.Some? && n.value < |lines| then lines[..n.value] else lines;
    if |examined| == 0 then Fail(NoRecords)
    else match CheckHeader(examined[0])
      case Err(e) => Fail(e)
      case Ok(headerLen) =>
        match CheckRows(examined[1..], headerLen, 2)
        case Fail(e) => Fail(e)
        case Pass => if |examined| == 1 then Fail(NoRecords) else Pass
  }

  /** `_validate_(level)`. */
  function Validate(lines: seq<seq<string>>, level: Level): Outcome<FormatError> {
    CheckNRecords(lines, LineLimit(level))
  }

  // An independent statement of what the format accepts.

  /** "Sequence ID", then at least one column name, each starting with "pos". */
  predicate ValidHeader(line: seq<string>) {
    |line| >= 2 && line[0] == IdHeader &&
    forall k :: 1 <= k < |line| ==> Head(line[k], 3) == PosPrefix
  }

  /** As many cells as the header; every cell after the first a decimal
      number of at most 23. */
  predicate ValidRow(line: seq<string>, headerLen: nat) {
    |line| == headerLen &&
    forall k :: 1 <= k < |line| ==> IsDigits(line[k]) && ParseNat(line[k]) <= MaxRank
  }

  /** A valid header followed by at least one valid row. */
  predicate Accepts(lines: seq<seq<string>>) {
    |lines| >= 2 && ValidHeader(lines[0]) &&
    forall j :: 1 <= j < |lines| ==> ValidRow(lines[j], |lines[0]|)
  }

  /** The header check passes exactly on a valid header. */
  lemma CheckHeaderValid(line: seq<string>)
    ensures CheckHeader(line).Ok? <==> ValidHeader(line)
  {
    if |line| > 0 && line[0] == IdHeader {
      var rest := HeaderRest(line);
      if |line| >= 2 {
        assert Head(line[1], 3) in rest by {
          assert line[1] in line[1..];
        }
      }
      if ValidHeader(line) {
        forall p | p in rest ensures p == PosPrefix {
          var x :| x in line[1..] && Head(x, 3) == p;
          var k :| 0 <= k < |line[1..]| && line[1..][k] == x;
          assert line[k + 1] == x;
        }
      }
      if CheckHeader(line).Ok? {
        forall k | 1 <= k < |line| ensures Head(line[k], 3) == PosPrefix {
          assert line[1..][k - 1] == line[k];
          assert Head(line[k], 3) in rest;
        }
      }
    }
  }

  /** A row check passes exactly on a valid row. */
  lemma CheckRowValid(line: seq<string>, headerLen: nat, i: nat)
    ensures CheckRow(line, headerLen, i) == Pass <==> ValidRow(line, headerLen)
  {
    if |line| == headerLen && |line| > 0 {
      assert forall k :: 1 <= k < |line| ==> line[k] == line[1..][k - 1];
      assert forall x :: x in Rest(line) ==> exists k :: 1 <= k < |line| && line[k] == x;
    }
  }

  /** The rows pass exactly when each of them is valid. */
  lemma {:induction false} CheckRowsValid(rows: seq<seq<string>>, headerLen: nat, i: nat)
    ensures CheckRows(rows, headerLen, i) == Pass <==> forall j :: 0 <= j < |rows| ==> ValidRow(rows[j], headerLen)
    decreases |rows|
  {
    if |rows| > 0 {
      CheckRowValid(rows[0], headerLen, i);
      CheckRowsValid(rows[1..], headerLen, i + 1);
      assert forall j :: 1 <= j < |rows| ==> rows[1..][j - 1] == rows[j];
    }
  }

  /** Validation at level 'max' accepts exactly the files of `Accepts`. */
  lemma ValidateMaxAccepts(lines: seq<seq<string>>)
    ensures Validate(lines, Max) == Pass <==> Accepts(lines)
  {
    if |lines| > 0 {
      CheckHeaderValid(lines[0]);
      CheckRowsValid(lines[1..], |lines[0]|, 2);
      assert forall j :: 1 <= j < |lines| ==> lines[1..][j - 1] == lines[j];
    }
  }

  /** Validation at level 'min' judges the first 5 lines as 'max' would. */
  lemma ValidateMinPrefix(lines: seq<seq<string>>)
    ensures Validate(lines, Min) == Validate(if |lines| > 5 then lines[..5] else lines, Max)
  {
  }

  /** Validation at level 'min' looks at the first 5 lines only. */
  lemma ValidateMinLocal(a: seq<seq<string>>, b: seq<seq<string>>)
    requires |a| >= 5 && |b| >= 5 && a[..5] == b[..5]
    ensures Validate(a, Min) == Validate(b, Min)
  {
    assert (if |a| > 5 then a[..5] else a) == a[..5];
    assert (if |b| > 5 then b[..5] else b) == b[..5];
  }

  /** Whatever 'max' accepts, 'min' accepts too. */
  lemma MaxImpliesMin(lines: seq<seq<string>>)
    requires Validate(lines, Max) == Pass
    ensures Validate(lines, Min) == Pass
  {
    ValidateMaxAccepts(lines);
    var examined := if |lines| > 5 then lines[..5] else lines;
    ValidateMinPrefix(lines);
    ValidateMaxAccepts(examined);
    assert forall j :: 1 <= j < |examined| ==> examined[j] == lines[j];
  }

  /** The first cell of a data row, the sequence id, never affects the verdict. */
  lemma FirstCellIrrelevant(lines: seq<seq<string>>, j: nat, id: string, level: Level)
    requires 1 <= j < |lines| && |lines[j]| > 0
    ensures Validate(lines[j := [id] + lines[j][1..]], level) == Validate(lines, level)
  {
    var other := lines[j := [id] + lines[j][1..]];
    var n := LineLimit(level);
    var ex1 := if n.Some? && n.value < |lines| then lines[..n.value] else lines;
    var ex2 := if n.Some? && n.value < |other| then other[..n.value] else other;
    if |ex1| > 0 {
      assert ex2[0] == ex1[0];
      var h := CheckHeader(ex1[0]);
      if h.Ok? {
        RowsFirstCell(ex1[1..], ex2[1..], h.value, 2);
      }
    }
  }

  lemma {:induction false} RowsFirstCell(a: seq<seq<string>>, b: seq<seq<string>>, headerLen: nat, i: nat)
    requires |a| == |b|
    requires forall k :: 0 <= k < |a| ==> |a[k]| == |b[k]| && (|a[k]| > 0 ==> a[k][1..] == b[k][1..])
    ensures CheckRows(a, headerLen, i) == CheckRows(b, headerLen, i)
    decreases |a|
  {
    if |a| > 0 {
      RowsFirstCell(a[1..], b[1..], headerLen, i + 1);
    }
  }

  /** Line numbers in errors: the first row that fails is reported, with
      its own 1-based line number. */
  lemma {:induction false} FailingRow(rows: seq<seq<string>>, headerLen: nat, i: nat) returns (k: nat)
    requires CheckRows(rows, headerLen, i).Fail?
    ensures k < |rows| && CheckRow(rows[k], headerLen, i + k) == CheckRows(rows, headerLen, i)
    ensures forall m :: 0 <= m < k ==> CheckRow(rows[m], headerLen, i + m) == Pass
    decreases |rows|
  {
    if CheckRow(rows[0], headerLen, i).Fail? {
      k := 0;
    } else {
      var k' := FailingRow(rows[1..], headerLen, i + 1);
      k := k' + 1;
      assert rows[k] == rows[1..][k'];
      forall m | 0 <= m < k ensures CheckRow(rows[m], headerLen, i + m) == Pass {
        if m > 0 {
          assert rows[m] == rows[1..][m - 1];
        }
      }
    }
  }
}
