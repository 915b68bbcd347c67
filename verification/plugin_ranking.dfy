/** The ranking step of the QIIME 2 plugin (`q2_protein_pca/_ranking.py`):
    aligned protein sequences become a frame of symbols, the symbols are
    encoded by `AA_MAP` and every column is ranked by the native engine. */
module PluginRanking {
  import opened Results
  import opened Text
  import opened Tables
  import opened Frames
  import opened AaMap
  import opened Engine
  import opened RankLaws

  /** An aligned sequence: its id and its symbols. */
  datatype Record = Record(id: string, residues: string)

  datatype RankError =
    | NoSequences      // `master_list[0]` of an empty input
    | RaggedAlignment  // a sequence whose length differs from the first one's
    | UnknownSymbol    // a symbol `AA_MAP` does not hold survives `replace` and fails `astype`

  /** The column name of 0-based position `x`: "pos" and the 1-based number. */
  function PosLabel(x: nat): (name: string)
    ensures |name| > 3 && name[..3] == "pos"
    ensures IsDigits(name[3..]) && ParseNat(name[3..]) == x + 1
  {
    var digits := NatToString(x + 1);
    ParseNatToString(x + 1);
    assert ("pos" + digits)[3..] == digits;
    "pos" + digits
  }

  /** The column names pos1..posN. */
  function PosLabels(n: nat): (labels: seq<string>)
    ensures |labels| == n
    ensures forall x :: 0 <= x < n ==> labels[x] == PosLabel(x)
    ensures forall x, y :: 0 <= x < y < n ==> labels[x] != labels[y]
  {
    seq(n, x requires 0 <= x < n => PosLabel(x))
  }

  /** All sequences have `width` symbols. */
  predicate SameLength(records: seq<Record>, width: nat) {
    forall j :: 0 <= j < |records| ==> |records[j].residues| == width
  }

  /** `_df_from_sequences`: one row per sequence, in input order and labelled
      by its id, one column per position of the first sequence. */
  function DfFromSequences(records: seq<Record>): (r: Result<Frame<string, char>, RankError>)
    ensures r.Ok? <==> |records| > 0 && SameLength(records, |records[0].residues|)
    ensures r.Err? ==> r.error == (if |records| == 0 then NoSequences else RaggedAlignment)
    ensures r.Ok? ==>
              var f := r.value;
              f.WellFormed() && f.indexName == None &&
              f.columns == PosLabels(|records[0].residues|) &&
              |f.index| == |records| &&
              forall j :: 0 <= j < |records| ==> f.index[j] == records[j].id && f.cells[j] == records[j].residues
  {
    if |records| == 0 then Err(NoSequences)
    else
      var width := |records[0].residues|;
      if !SameLength(records, width) then Err(RaggedAlignment)
      else
        Ok(Frame(seq(|records|, j requires 0 <= j < |records| => records[j].id), None,
                 PosLabels(width),
                 seq(|records|, j requires 0 <= j < |records| => records[j].residues)))
  }

  /** Every symbol of the frame is one `AA_MAP` holds. */
  predicate AllMapped(rows: seq<seq<char>>) {
    forall j, i :: 0 <= j < |rows| && 0 <= i < |rows[j]| ==> Code(rows[j][i]).Some?
  }

  /** `alignment_df.replace(AA_MAP).astype(np.uint32)`: every symbol replaced
      by its code; a symbol outside the map makes the conversion fail. */
  function Encode(rows: seq<seq<char>>): (r: Option<seq<seq<nat>>>)
    ensures r.Some? <==> AllMapped(rows)
    ensures r.Some? ==>
              |r.value| == |rows| &&
              forall j :: 0 <= j < |rows| ==>
                |r.value[j]| == |rows[j]| &&
                forall i :: 0 <= i < |rows[j]| ==> Code(rows[j][i]) == Some(r.value[j][i])
  {
    if AllMapped(rows) then
      Some(seq(|rows|, j requires 0 <= j < |rows| =>
        seq(|rows[j]|, i requires 0 <= i < |rows[j]| => Code(rows[j][i]).value)))
    else None
  }

  /** `_rank_columns`: encode, rank every column, and keep the row ids and
      column names, with the index named "Sequence ID". */
  function RankColumns(f: Frame<string, char>): (r: Result<Frame<string, nat>, RankError>)
    requires f.WellFormed()
    ensures r.Ok? <==> AllMapped(f.cells)
    ensures r.Err? ==> r.error == UnknownSymbol
    ensures r.Ok? ==>
              var g := r.value;
              g.WellFormed() && g.index == f.index && g.columns == f.columns &&
              g.indexName == Some("Sequence ID")
  {
    match Encode(f.cells)
    case None => Err(UnknownSymbol)
    case Some(codes) =>
      assert Rectangular(codes, |f.columns|);
      Ok(Frame(f.index, Some("Sequence ID"), f.columns, RankTable(codes, |f.columns|)))
  }

  /** `_rank`: the frame of the sequences, ranked. */
  function Rank(records: seq<Record>): (r: Result<Frame<string, nat>, RankError>)
    ensures r.Ok? <==> DfFromSequences(records).Ok? && AllMapped(DfFromSequences(records).value.cells)
    ensures r.Ok? ==>
              r.value.index == DfFromSequences(records).value.index &&
              r.value.columns == PosLabels(|records[0].residues|) &&
              r.value.indexName == Some("Sequence ID")
  {
    var f :- DfFromSequences(records);
    RankColumns(f)
  }

  /** Every cell of a ranked frame is its symbol's rank within its own column:
      the reference rank of its code, 0 exactly for the gap, and never above
      23, the largest value the ranked-table format accepts. */
  lemma RankedCell(f: Frame<string, char>, j: nat, i: nat)
    requires f.WellFormed() && AllMapped(f.cells) && j < |f.cells| && i < |f.columns|
    ensures Code(f.cells[j][i]) == Some(Encode(f.cells).value[j][i])
    ensures var codes := Encode(f.cells).value;
            RankColumns(f).value.cells[j][i] == RankColumn(Column(codes, i))[codes[j][i]] &&
            RankColumns(f).value.cells[j][i] == RefRank(Column(codes, i), codes[j][i])
    ensures RankColumns(f).value.cells[j][i] == 0 <==> f.cells[j][i] == Gap
    ensures RankColumns(f).value.cells[j][i] <= MaxCode
  {
    var codes := Encode(f.cells).value;
    var width := |f.columns|;
    var col := Column(codes, i);
    EncodedColumnBound(f, codes, i);
    assert RankColumns(f).value.cells == RankTable(codes, width);
    RankTableCells(codes, width, j, i);
    assert col[j] == codes[j][i];
    RankMatchesReference(col, codes[j][i]);
    GapOnlyZero(f.cells[j][i]);
    PresentCountBound(col, MaxCode);
  }

  /** Encoded columns hold codes 0..23 only. */
  lemma EncodedColumnBound(f: Frame<string, char>, codes: seq<seq<nat>>, i: nat)
    requires f.WellFormed() && AllMapped(f.cells) && i < |f.columns|
    requires codes == Encode(f.cells).value
    ensures Rectangular(codes, |f.columns|)
    ensures forall c :: c in Column(codes, i) ==> c <= MaxCode
  {
    var col := Column(codes, i);
    forall c | c in col ensures c <= MaxCode {
      var k :| 0 <= k < |col| && col[k] == c;
      assert Code(f.cells[k][i]) == Some(c);
    }
  }

  /** The rank of code `x` in a column, read off its reference rank. */
  lemma RankOf(col: seq<nat>, x: nat, outranked: set<nat>)
    requires x in col && x != 0
    requires outranked == set y: nat | y in col && y != 0 && Outranks(col, x, y)
    ensures RankColumn(col)[x] == 1 + |outranked|
  {
    RankMatchesReference(col, x);
  }

  /** The ranking of the four-sequence example: the columns A A A A,
      - B B D, A C A - and - D B - rank to 1 1 1 1, 0 2 2 1, 2 1 2 0 and
      0 1 2 0. */
  lemma WorkedExample()
    ensures var f := Frame(["seq0", "seq1", "seq2", "seq3"], None,
                           ["pos1", "pos2", "pos3", "pos4"],
                           ["A-A-", "ABCD", "ABAB", "AD--"]);
            RankColumns(f) ==
              Ok(Frame(["seq0", "seq1", "seq2", "seq3"], Some("Sequence ID"),
                       ["pos1", "pos2", "pos3", "pos4"], ExampleRanks))
  {
    ExampleCodes();
    ExampleTable();
  }

  const ExampleRows: seq<string> := ["A-A-", "ABCD", "ABAB", "AD--"]
  const ExampleCodeRows: seq<seq<nat>> := [[1, 0, 1, 0], [1, 2, 3, 4], [1, 2, 1, 2], [1, 4, 0, 0]]

  lemma ExampleCodes()
    ensures Encode(ExampleRows) == Some(ExampleCodeRows)
  {
    var rows, codes := ExampleRows, ExampleCodeRows;
    forall j, i | 0 <= j < 4 && 0 <= i < 4 ensures Code(rows[j][i]) == Some(codes[j][i]) {
      FirstCodes(rows[j][i]);
    }
    EncodeCells(rows, codes);
  }

  /** The codes of the gap and of A to D. */
  lemma FirstCodes(c: char)
    ensures c == '-' ==> Code(c) == Some(0)
    ensures c == 'A' ==> Code(c) == Some(1)
    ensures c == 'B' ==> Code(c) == Some(2)
    ensures c == 'C' ==> Code(c) == Some(3)
    ensures c == 'D' ==> Code(c) == Some(4)
  {
    assert Alphabet[..5] == "-ABCD";
    if c in "-ABCD" {
      var k :| 0 <= k < 5 && Alphabet[k] == c;
      CodeAt(c, k);
    }
  }

  /** Rows whose every symbol has the code at the same place in `codes`
      encode to `codes`. */
  lemma EncodeCells(rows: seq<seq<char>>, codes: seq<seq<nat>>)
    requires |codes| == |rows|
    requires forall j :: 0 <= j < |rows| ==> |codes[j]| == |rows[j]|
    requires forall j, i :: 0 <= j < |rows| && 0 <= i < |rows[j]| ==> Code(rows[j][i]) == Some(codes[j][i])
    ensures Encode(rows) == Some(codes)
  {
    assert AllMapped(rows);
    var e := Encode(rows).value;
    forall j | 0 <= j < |rows| ensures e[j] == codes[j] {
      assert |e[j]| == |codes[j]|;
      forall i | 0 <= i < |rows[j]| ensures e[j][i] == codes[j][i] {
        assert Code(rows[j][i]) == Some(e[j][i]);
      }
    }
    assert |e| == |codes|;
    assert e == codes;
  }

  /** A table whose every cell is the reference rank of its code is the
      ranked table. */
  lemma TableFromReference(m: seq<seq<nat>>, width: nat, expected: seq<seq<nat>>)
    requires Rectangular(m, width) && |expected| == |m| && Rectangular(expected, width)
    requires forall j, i :: 0 <= j < |m| && 0 <= i < width ==>
               expected[j][i] == RefRank(Column(m, i), m[j][i])
    ensures RankTable(m, width) == expected
  {
    var t := RankTable(m, width);
    forall j | 0 <= j < |m| ensures t[j] == expected[j] {
      forall i | 0 <= i < width ensures t[j][i] == expected[j][i] {
        RankTableCells(m, width, j, i);
        RankMatchesReference(Column(m, i), m[j][i]);
      }
    }
  }

  const ExampleRanks: seq<seq<nat>> := [[1, 0, 2, 0], [1, 2, 1, 1], [1, 2, 2, 2], [1, 1, 0, 0]]

  lemma ExampleTable()
    ensures RankTable(ExampleCodeRows, 4) == ExampleRanks
  {
    var m := ExampleCodeRows;
    assert Rectangular(m, 4);
    ExamplePosition1(m);
    ExamplePosition2(m);
    ExamplePosition3(m);
    ExamplePosition4(m);
    TableFromReference(m, 4, ExampleRanks);
  }

  lemma ExamplePosition1(m: seq<seq<nat>>)
    requires m == ExampleCodeRows
    ensures forall j :: 0 <= j < 4 ==> ExampleRanks[j][0] == RefRank(Column(m, 0), m[j][0])
  {
    var col := Column(m, 0);
    assert col == [1, 1, 1, 1];
    ExampleColumn1(col);
  }

  lemma ExamplePosition2(m: seq<seq<nat>>)
    requires m == ExampleCodeRows
    ensures forall j :: 0 <= j < 4 ==> ExampleRanks[j][1] == RefRank(Column(m, 1), m[j][1])
  {
    var col := Column(m, 1);
    assert col == [0, 2, 2, 4];
    ExampleColumn2(col);
  }

  lemma ExamplePosition3(m: seq<seq<nat>>)
    requires m == ExampleCodeRows
    ensures forall j :: 0 <= j < 4 ==> ExampleRanks[j][2] == RefRank(Column(m, 2), m[j][2])
  {
    var col := Column(m, 2);
    assert col == [1, 3, 1, 0];
    ExampleColumn3(col);
  }

  lemma ExamplePosition4(m: seq<seq<nat>>)
    requires m == ExampleCodeRows
    ensures forall j :: 0 <= j < 4 ==> ExampleRanks[j][3] == RefRank(Column(m, 3), m[j][3])
  {
    var col := Column(m, 3);
    assert col == [0, 4, 2, 0];
    ExampleColumn4(col);
  }

  lemma ExampleColumn1(col: seq<nat>)
    requires col == [1, 1, 1, 1]
    ensures RefRank(col, 0) == 0 && RefRank(col, 1) == 1
  {
    assert (set y: nat | y in col && y != 0 && Outranks(col, 1, y)) == {};
  }

  lemma ExampleColumn2(col: seq<nat>)
    requires col == [0, 2, 2, 4]
    ensures RefRank(col, 0) == 0 && RefRank(col, 2) == 2 && RefRank(col, 4) == 1
  {
    assert Occ(col, 2) == 2 && Occ(col, 4) == 1;
    assert (set y: nat | y in col && y != 0 && Outranks(col, 2, y)) == {4};
    assert (set y: nat | y in col && y != 0 && Outranks(col, 4, y)) == {};
  }

  lemma ExampleColumn3(col: seq<nat>)
    requires col == [1, 3, 1, 0]
    ensures RefRank(col, 0) == 0 && RefRank(col, 1) == 2 && RefRank(col, 3) == 1
  {
    assert Occ(col, 1) == 2 && Occ(col, 3) == 1;
    assert (set y: nat | y in col && y != 0 && Outranks(col, 1, y)) == {3};
    assert (set y: nat | y in col && y != 0 && Outranks(col, 3, y)) == {};
  }

  lemma ExampleColumn4(col: seq<nat>)
    requires col == [0, 4, 2, 0]
    ensures RefRank(col, 0) == 0 && RefRank(col, 2) == 2 && RefRank(col, 4) == 1
  {
    assert Occ(col, 2) == 1 && Occ(col, 4) == 1;
    assert (set y: nat | y in col && y != 0 && Outranks(col, 2, y)) == {4};
    assert (set y: nat | y in col && y != 0 && Outranks(col, 4, y)) == {};
  }
}
