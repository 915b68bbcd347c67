/** `df.apply(pd.value_counts).fillna(0)`, shared by `_get_occurrences` of the
    QIIME 2 plugin and `get_occurrences` of the older ProtPCA code: per column,
    how often every symbol of the whole frame occurs, 0 where it is absent.
    The order of the result's index is pandas' choice: the sorted union of
    the columns' `value_counts` indexes when these differ, and the
    `value_counts` order itself when they coincide. It is therefore a
    parameter here, any order listing every symbol of the frame once. */
module Occurrences {
  import opened Results
  import opened Counting
  import opened Tables
  import opened Frames

  /** Strictly increasing, hence without repetitions. */
  predicate Ascending(s: seq<char>) {
    forall i, j :: 0 <= i < j < |s| ==> s[i] < s[j]
  }

  /** `c` put into its place in an ascending sequence, unless already there. */
  function InsertSymbol(s: seq<char>, c: char): (r: seq<char>)
    requires Ascending(s)
    ensures Ascending(r)
    ensures forall x :: x in r <==> x in s || x == c
  {
    if |s| == 0 then [c]
    else if c < s[0] then [c] + s
    else if c == s[0] then s
    else
      var rest := InsertSymbol(s[1..], c);
      assert forall x :: x in s <==> x == s[0] || x in s[1..] by {
        assert s == [s[0]] + s[1..];
      }
      assert forall k :: 0 <= k < |rest| ==> s[0] < rest[k] by {
        forall k | 0 <= k < |rest| ensures s[0] < rest[k] {
          assert rest[k] in rest;
        }
      }
      [s[0]] + rest
  }

  /** The ascending union of `acc` and all the symbols of `rows`. */
  function SymbolsFrom(acc: seq<char>, rows: seq<seq<char>>): (r: seq<char>)
    requires Ascending(acc)
    ensures Ascending(r)
    ensures forall x :: x in r <==> x in acc || exists j :: 0 <= j < |rows| && x in rows[j]
    decreases |rows|
  {
    if |rows| == 0 then acc
    else SymbolsFrom(RowSymbols(acc, rows[0]), rows[1..])
  }

  /** `acc` with the symbols of one row added. */
  function RowSymbols(acc: seq<char>, row: seq<char>): (r: seq<char>)
    requires Ascending(acc)
    ensures Ascending(r)
    ensures forall x :: x in r <==> x in acc || x in row
    decreases |row|
  {
    if |row| == 0 then acc
    else
      assert forall x :: x in row <==> x == row[0] || x in row[1..] by {
        assert row == [row[0]] + row[1..];
      }
      RowSymbols(InsertSymbol(acc, row[0]), row[1..])
  }

  /** `order` can be the index of the occurrence table of `rows`: it lists
      every symbol of `rows` exactly once. */
  predicate SymbolOrder(order: seq<char>, rows: seq<seq<char>>) {
    Distinct(order) && forall x :: x in order <==> exists j :: 0 <= j < |rows| && x in rows[j]
  }

  /** The sorted union of the symbols of the frame, the index pandas builds
      when the columns' `value_counts` indexes differ; it shows that an
      index order always exists. */
  function Symbols(rows: seq<seq<char>>): (r: seq<char>)
    ensures Ascending(r)
    ensures SymbolOrder(r, rows)
  {
    SymbolsFrom([], rows)
  }

  /** Number of times `x` occurs in `col`. */
  function Count(col: seq<char>, x: char): nat {
    multiset(col)[x]
  }

  /** The counts of `symbols`, in order, within one column. */
  function Tally(symbols: seq<char>, col: seq<char>): (r: seq<nat>)
    ensures |r| == |symbols|
    ensures forall k :: 0 <= k < |r| ==> r[k] == Count(col, symbols[k])
  {
    seq(|symbols|, k requires 0 <= k < |symbols| => Count(col, symbols[k]))
  }

  /** The occurrence table of a frame of symbols, its rows in the index
      order `order`: one row per symbol of the frame, one column per column
      of the frame. */
  function GetOccurrences<L>(f: Frame<L, char>, order: seq<char>): (occ: Frame<char, nat>)
    requires f.WellFormed() && SymbolOrder(order, f.cells)
    ensures occ.WellFormed()
    ensures occ.columns == f.columns && occ.indexName == None
    ensures Distinct(occ.index) && occ.index == order
    ensures forall x :: x in occ.index <==> exists j :: 0 <= j < |f.cells| && x in f.cells[j]
    ensures forall s, i :: 0 <= s < |occ.index| && 0 <= i < |f.columns| ==>
              occ.cells[s][i] == Count(Column(f.cells, i), occ.index[s])
  {
    var symbols := order;
    var cols := seq(|f.columns|, i requires 0 <= i < |f.columns| => Tally(symbols, Column(f.cells, i)));
    Frame(symbols, None, f.columns,
          seq(|symbols|, s requires 0 <= s < |symbols| =>
            seq(|f.columns|, i requires 0 <= i < |f.columns| => cols[i][s])))
  }

  /** Adding one to entry `p` of a sequence adds one to its sum. */
  lemma {:induction false} SumBump(a: seq<nat>, b: seq<nat>, p: nat)
    requires |a| == |b| && p < |a|
    requires b[p] == a[p] + 1
    requires forall k :: 0 <= k < |a| && k != p ==> b[k] == a[k]
    ensures Sum(b) == Sum(a) + 1
  {
    if p > 0 {
      SumBump(a[1..], b[1..], p - 1);
    } else {
      SumSame(a[1..], b[1..]);
    }
  }

  lemma {:induction false} SumSame(a: seq<nat>, b: seq<nat>)
    requires |a| == |b|
    requires forall k :: 0 <= k < |a| ==> b[k] == a[k]
    ensures Sum(b) == Sum(a)
  {
    assert a == b;
  }

  /** When the symbols are distinct and cover a column, the column's counts
      add up to its length: every cell is counted exactly once. */
  lemma {:induction false} TallySum(symbols: seq<char>, col: seq<char>)
    requires forall i, j :: 0 <= i < j < |symbols| ==> symbols[i] != symbols[j]
    requires forall x :: x in col ==> x in symbols
    ensures Sum(Tally(symbols, col)) == |col|
  {
    if |col| == 0 {
      ZeroSum(Tally(symbols, col));
    } else {
      var init := col[..|col| - 1];
      var c := col[|col| - 1];
      assert col == init + [c];
      assert forall x :: x in init ==> x in col;
      TallySum(symbols, init);
      assert c in col;
      var p :| 0 <= p < |symbols| && symbols[p] == c;
      SumBump(Tally(symbols, init), Tally(symbols, col), p);
    }
  }

  lemma {:induction false} ZeroSum(s: seq<nat>)
    requires forall k :: 0 <= k < |s| ==> s[k] == 0
    ensures Sum(s) == 0
  {
    if |s| > 0 {
      ZeroSum(s[1..]);
    }
  }

  /** Every column of the occurrence table adds up to the number of rows of
      the frame, and the gap row included: all symbols are counted. */
  lemma ColumnSums<L>(f: Frame<L, char>, order: seq<char>, i: nat)
    requires f.WellFormed() && SymbolOrder(order, f.cells) && i < |f.columns|
    ensures var occ := GetOccurrences(f, order);
            Sum(Column(occ.cells, i)) == |f.cells|
  {
    var occ := GetOccurrences(f, order);
    var col := Column(f.cells, i);
    forall x | x in col ensures x in occ.index {
      var j :| 0 <= j < |col| && col[j] == x;
      assert x in f.cells[j];
    }
    assert Column(occ.cells, i) == Tally(occ.index, col);
    TallySum(occ.index, col);
  }
}
