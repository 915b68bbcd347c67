/** `rank_all_columns` of the older ProtPCA code: the occurrence table of the
    alignment, `rank_alphabet` of each of its columns, and
    `aln_df.replace(aa_ranks)`, which swaps every symbol for its rank within
    its own column. */
module LegacyTable {
  import opened Counting
  import opened Tables
  import opened Frames
  import opened Occurrences
  import opened AaMap
  import opened LegacyRanking
  import opened LegacyLaws

  /** A cell after `DataFrame.replace`: a rank, or the symbol it held when
      its column's dictionary does not list it. */
  datatype Cell = Symbol(c: char) | Ranked(rank: int)

  /** Column `i` of the occurrence table as a series of (symbol, count) items. */
  function SeriesOf(occ: Frame<char, nat>, i: nat): (s: Series)
    requires occ.WellFormed() && i < |occ.columns|
    ensures |s| == |occ.index|
    ensures forall k :: 0 <= k < |s| ==> s[k].0 == occ.index[k] && s[k].1 == occ.cells[k][i]
  {
    seq(|occ.index|, k requires 0 <= k < |occ.index| => (occ.index[k], occ.cells[k][i]))
  }

  /** `replace` of one cell with its column's dictionary. */
  function Replace(c: char, d: map<char, int>): Cell {
    if c in d then Ranked(d[c]) else Symbol(c)
  }

  /** The rank dictionaries of all columns (`occur_freq.apply(rank_alphabet)`). */
  function ColumnRanks<L>(aln: Frame<L, char>, order: seq<char>): (ranks: seq<map<char, int>>)
    requires aln.WellFormed() && SymbolOrder(order, aln.cells)
    ensures |ranks| == |aln.columns|
    ensures forall i :: 0 <= i < |ranks| ==> Gap in ranks[i] && ranks[i][Gap] == 0
  {
    var occ := GetOccurrences(aln, order);
    seq(|aln.columns|, i requires 0 <= i < |aln.columns| => RankAlphabet(SeriesOf(occ, i)))
  }

  /** `rank_all_columns`: the alignment with every cell replaced through its
      column's rank dictionary. */
  function RankAllColumns<L>(aln: Frame<L, char>, order: seq<char>): (r: Frame<L, Cell>)
    requires aln.WellFormed() && SymbolOrder(order, aln.cells)
    ensures r.WellFormed()
    ensures r.index == aln.index && r.indexName == aln.indexName && r.columns == aln.columns
  {
    var ranks := ColumnRanks(aln, order);
    Frame(aln.index, aln.indexName, aln.columns,
          seq(|aln.cells|, j requires 0 <= j < |aln.cells| =>
            seq(|aln.columns|, i requires 0 <= i < |aln.columns| => Replace(aln.cells[j][i], ranks[i]))))
  }

  /** Symbol `x` ranks above `y` in a column: `x` occurs more often, or
      equally often and comes first in character order. */
  predicate Beats(col: seq<char>, x: char, y: char) {
    Count(col, x) > Count(col, y) || (Count(col, x) == Count(col, y) && x < y)
  }

  /** Reference rank of a symbol in a column of symbols: 0 for the gap,
      otherwise one more than the number of distinct non-gap symbols of the
      column it beats. */
  function SymbolRank(col: seq<char>, x: char): nat {
    if x == Gap then 0 else 1 + |set y | y in col && y != Gap && Beats(col, x, y)|
  }

  /** Every cell of `rank_all_columns` is replaced, and by the reference rank
      of its symbol within its own column: nothing is left unranked, gaps
      become 0, and the other symbols rank by count and then character. */
  lemma RankAllColumnsSpec<L>(aln: Frame<L, char>, order: seq<char>, j: nat, i: nat)
    requires aln.WellFormed() && SymbolOrder(order, aln.cells) && j < |aln.cells| && i < |aln.columns|
    ensures RankAllColumns(aln, order).cells[j][i] == Ranked(SymbolRank(Column(aln.cells, i), aln.cells[j][i]))
  {
    var occ := GetOccurrences(aln, order);
    var series := SeriesOf(occ, i);
    var col := Column(aln.cells, i);
    var x := aln.cells[j][i];
    assert col[j] == x;
    SeriesFacts(aln, order, i);
    RankAlphabetSpec(series);
    assert RankAllColumns(aln, order).cells[j][i] == Replace(x, RankAlphabet(series));
    if x != Gap {
      SymbolRankIsLegacy(aln, order, i, x);
    }
  }

  /** The order pandas gives the occurrence table's index does not show in
      `rank_all_columns`: any two admissible orders give the same frame. */
  lemma RankAllColumnsOrderFree<L>(aln: Frame<L, char>, o1: seq<char>, o2: seq<char>)
    requires aln.WellFormed() && SymbolOrder(o1, aln.cells) && SymbolOrder(o2, aln.cells)
    ensures RankAllColumns(aln, o1) == RankAllColumns(aln, o2)
  {
    var r1 := RankAllColumns(aln, o1);
    var r2 := RankAllColumns(aln, o2);
    forall j | 0 <= j < |aln.cells| ensures r1.cells[j] == r2.cells[j] {
      forall i | 0 <= i < |aln.columns| ensures r1.cells[j][i] == r2.cells[j][i] {
        RankAllColumnsSpec(aln, o1, j, i);
        RankAllColumnsSpec(aln, o2, j, i);
      }
    }
  }

  /** The series of column `i` lists every symbol of the alignment once, each
      with its number of occurrences in column `i`. */
  lemma SeriesFacts<L>(aln: Frame<L, char>, order: seq<char>, i: nat)
    requires aln.WellFormed() && SymbolOrder(order, aln.cells) && i < |aln.columns|
    ensures var series := SeriesOf(GetOccurrences(aln, order), i);
            LabelsDistinct(series) &&
            forall x :: x in Column(aln.cells, i) ==> CountOf(series, x) == Count(Column(aln.cells, i), x) > 0
  {
    var occ := GetOccurrences(aln, order);
    var series := SeriesOf(occ, i);
    var col := Column(aln.cells, i);
    forall k, l | 0 <= k < l < |series| ensures series[k].0 != series[l].0 {
      assert occ.index[k] != occ.index[l];
    }
    forall x | x in col ensures CountOf(series, x) == Count(col, x) > 0 {
      var k := SymbolRow(aln, order, i, x);
      assert series[k] in series;
    }
  }

  /** The row of the occurrence table that counts symbol `x` of column `i`. */
  lemma SymbolRow<L>(aln: Frame<L, char>, order: seq<char>, i: nat, x: char) returns (k: nat)
    requires aln.WellFormed() && SymbolOrder(order, aln.cells) && i < |aln.columns| && x in Column(aln.cells, i)
    ensures k < |GetOccurrences(aln, order).index| && GetOccurrences(aln, order).index[k] == x
    ensures SeriesOf(GetOccurrences(aln, order), i)[k] == (x, Count(Column(aln.cells, i), x))
    ensures Count(Column(aln.cells, i), x) > 0
  {
    var col := Column(aln.cells, i);
    var occ := GetOccurrences(aln, order);
    var j :| 0 <= j < |col| && col[j] == x;
    assert x in aln.cells[j];
    assert x in occ.index;
    k :| 0 <= k < |occ.index| && occ.index[k] == x;
  }

  /** The reference rank of the series equals the reference rank of the
      column: an outranked item is exactly a beaten symbol with its count. */
  lemma SymbolRankIsLegacy<L>(aln: Frame<L, char>, order: seq<char>, i: nat, x: char)
    requires aln.WellFormed() && SymbolOrder(order, aln.cells) && i < |aln.columns|
    requires x in Column(aln.cells, i) && x != Gap
    ensures LegacyRefRank(SeriesOf(GetOccurrences(aln, order), i), x) == SymbolRank(Column(aln.cells, i), x)
  {
    var occ := GetOccurrences(aln, order);
    var series := SeriesOf(occ, i);
    var col := Column(aln.cells, i);
    SeriesFacts(aln, order, i);
    forall y | y in col ensures exists k :: 0 <= k < |series| && series[k].0 == y {
      var k := SymbolRow(aln, order, i, y);
    }
    SeriesRank(series, col, x);
  }

  /** A series that counts, once per symbol, the symbols of a column and
      lists every one of them ranks each symbol as the column does. */
  lemma SeriesRank(series: Series, col: seq<char>, x: char)
    requires LabelsDistinct(series)
    requires forall k :: 0 <= k < |series| ==> series[k].1 == Count(col, series[k].0)
    requires forall y :: y in col ==> exists k :: 0 <= k < |series| && series[k].0 == y
    requires x in col && x != Gap
    ensures LegacyRefRank(series, x) == SymbolRank(col, x)
  {
    SeriesCount(series, col, x);
    var n := CountOf(series, x);
    var items := set e | e in series && Outranked((x, n))(e);
    var symbols := set y | y in col && y != Gap && Beats(col, x, y);
    OutrankedBeaten(series, col, x);
    BeatenOutranked(series, col, x);
    LabelsDetermine(series);
    forall y | y in symbols ensures exists e :: e in items && e.0 == y {
      var e :| e in series && Outranked((x, n))(e) && e.0 == y;
      assert e in items;
    }
    InjectiveImage(items, (e: Item) => e.0, symbols);
  }

  /** The series gives each symbol of the column its count there. */
  lemma SeriesCount(series: Series, col: seq<char>, x: char)
    requires LabelsDistinct(series)
    requires forall k :: 0 <= k < |series| ==> series[k].1 == Count(col, series[k].0)
    requires exists k :: 0 <= k < |series| && series[k].0 == x
    ensures CountOf(series, x) == Count(col, x)
  {
    var k :| 0 <= k < |series| && series[k].0 == x;
    assert series[k] in series;
  }

  /** An item the symbol outranks is a non-gap symbol of the column it beats. */
  lemma OutrankedBeaten(series: Series, col: seq<char>, x: char)
    requires forall k :: 0 <= k < |series| ==> series[k].1 == Count(col, series[k].0)
    ensures forall e :: e in series && Outranked((x, Count(col, x)))(e) ==>
              e.0 in col && e.0 != Gap && Beats(col, x, e.0)
  {
    forall e | e in series && Outranked((x, Count(col, x)))(e)
      ensures e.0 in col && e.0 != Gap && Beats(col, x, e.0)
    {
      var k :| 0 <= k < |series| && series[k] == e;
      assert Count(col, e.0) > 0;
    }
  }

  /** A non-gap symbol of the column the symbol beats is an item it outranks. */
  lemma BeatenOutranked(series: Series, col: seq<char>, x: char)
    requires forall k :: 0 <= k < |series| ==> series[k].1 == Count(col, series[k].0)
    requires forall y :: y in col ==> exists k :: 0 <= k < |series| && series[k].0 == y
    ensures forall y :: y in col && y != Gap && Beats(col, x, y) ==>
              exists e :: e in series && Outranked((x, Count(col, x)))(e) && e.0 == y
  {
    forall y | y in col && y != Gap && Beats(col, x, y)
      ensures exists e :: e in series && Outranked((x, Count(col, x)))(e) && e.0 == y
    {
      var k :| 0 <= k < |series| && series[k].0 == y;
      assert series[k] in series && Outranked((x, Count(col, x)))(series[k]);
    }
  }

  /** With distinct labels, an item is determined by its label. */
  lemma LabelsDetermine(series: Series)
    requires LabelsDistinct(series)
    ensures forall e, e' :: e in series && e' in series && e.0 == e'.0 ==> e == e'
  {
    forall e, e' | e in series && e' in series && e.0 == e'.0 ensures e == e' {
      var k :| 0 <= k < |series| && series[k] == e;
      var k' :| 0 <= k' < |series| && series[k'] == e';
    }
  }
}
