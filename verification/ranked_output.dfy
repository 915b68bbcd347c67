/** The ranked frame the plugin produces, written out as the rows of a CSV
    file, always passes the ranked-alignment format check: its header is the
    index name "Sequence ID" followed by the pos1..posN column names, and
    every rank is a decimal number of at most 23. */
module RankedOutput {
  import opened Results
  import opened Text
  import opened Frames
  import opened AaMap
  import opened PluginRanking
  import opened RankedFormat

  /** The CSV rows of a ranked frame, as `DataFrame.to_csv` lays them out:
      the index name and the column names, then one row per sequence with
      its id and its ranks in decimal. Quoting is not modelled. */
  function CsvLines(g: Frame<string, nat>): (lines: seq<seq<string>>)
    requires g.WellFormed()
    ensures |lines| == |g.index| + 1
    ensures lines[0] == [if g.indexName.Some? then g.indexName.value else ""] + g.columns
    ensures forall j :: 1 <= j < |lines| ==> |lines[j]| == |g.columns| + 1 && lines[j][0] == g.index[j - 1]
    ensures forall j, k :: 1 <= j < |lines| && 1 <= k < |lines[j]| ==>
              IsDigits(lines[j][k]) && ParseNat(lines[j][k]) == g.cells[j - 1][k - 1]
  {
    var header := [if g.indexName.Some? then g.indexName.value else ""] + g.columns;
    var rows := seq(|g.index|, j requires 0 <= j < |g.index| =>
                  [g.index[j]] + seq(|g.columns|, i requires 0 <= i < |g.columns| => NatToString(g.cells[j][i])));
    forall j, i | 0 <= j < |g.index| && 0 <= i < |g.columns| ensures ParseNat(NatToString(g.cells[j][i])) == g.cells[j][i] {
      ParseNatToString(g.cells[j][i]);
    }
    [header] + rows
  }

  /** A frame written as CSV passes the format check at both levels when
      its index is named "Sequence ID", it has at least one row and one
      column, every column name starts with "pos" and no cell exceeds 23. */
  lemma CsvLinesValid(g: Frame<string, nat>)
    requires g.WellFormed() && g.indexName == Some(IdHeader)
    requires |g.index| > 0 && |g.columns| > 0
    requires forall i :: 0 <= i < |g.columns| ==> Head(g.columns[i], 3) == PosPrefix
    requires forall j, i :: 0 <= j < |g.cells| && 0 <= i < |g.columns| ==> g.cells[j][i] <= MaxRank
    ensures Validate(CsvLines(g), Max) == Pass
    ensures Validate(CsvLines(g), Min) == Pass
  {
    var lines := CsvLines(g);
    assert ValidHeader(lines[0]) by {
      forall k | 1 <= k < |lines[0]| ensures Head(lines[0][k], 3) == PosPrefix {
        assert lines[0][k] == g.columns[k - 1];
      }
    }
    forall j | 1 <= j < |lines| ensures ValidRow(lines[j], |lines[0]|) {
      forall k | 1 <= k < |lines[j]| ensures IsDigits(lines[j][k]) && ParseNat(lines[j][k]) <= MaxRank {
        assert g.cells[j - 1][k - 1] <= MaxRank;
      }
    }
    ValidateMaxAccepts(lines);
    MaxImpliesMin(lines);
  }

  /** Every frame `_rank` produces from at least one position, written as
      CSV, is accepted by the format check at both levels. */
  lemma RankOutputValid(records: seq<Record>)
    requires Rank(records).Ok? && |records[0].residues| > 0
    ensures Validate(CsvLines(Rank(records).value), Max) == Pass
    ensures Validate(CsvLines(Rank(records).value), Min) == Pass
  {
    var f := DfFromSequences(records).value;
    var g := Rank(records).value;
    assert g == RankColumns(f).value;
    forall i | 0 <= i < |g.columns| ensures Head(g.columns[i], 3) == PosPrefix {
      assert g.columns[i] == PosLabel(i);
    }
    forall j, i | 0 <= j < |g.cells| && 0 <= i < |g.columns| ensures g.cells[j][i] <= MaxRank {
      RankedCell(f, j, i);
    }
    CsvLinesValid(g);
  }
}
