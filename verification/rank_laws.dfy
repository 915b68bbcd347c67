/** What the rank maps of the native engine (`ranking/src/lib.rs`) mean:
    the result does not depend on the map's iteration order, the gap and
    exactly the codes present are ranked, the non-gap ranks are exactly
    1..K, a rank compares like count-then-code, and each rank equals an
    independent reference rank that counts the codes it outranks. */
module RankLaws {
  import opened Counting
  import opened Engine
  import opened Tables

  /** `x` ranks above `y` in a column: `x` is more frequent, or equally
      frequent and the smaller code. */
  predicate Outranks(col: seq<nat>, x: nat, y: nat) {
    Occ(col, x) > Occ(col, y) || (Occ(col, x) == Occ(col, y) && x < y)
  }

  /** Reference rank: 0 for the gap; otherwise one more than the number of
      distinct non-gap codes of the column that `x` outranks. */
  function RefRank(col: seq<nat>, x: nat): nat {
    if x == 0 then 0 else 1 + |set y: nat | y in col && y != 0 && Outranks(col, x, y)|
  }

  /** In a sequence ordered by `Before`, position order and `Before` agree. */
  lemma SortedIndexOrder(s: seq<Entry>, i: nat, q: nat)
    requires SortedBy(s) && i < |s| && q < |s|
    ensures Before(s[i], s[q]) <==> i < q
  {
    if q < i {
      assert Before(s[q], s[i]);
    }
  }

  /** The first entry of an ordered sequence precedes every other entry. */
  lemma HeadFirst(s: seq<Entry>, e: Entry)
    requires SortedBy(s) && e in s
    ensures e == s[0] || Before(s[0], e)
  {
    var k :| 0 <= k < |s| && s[k] == e;
    if k > 0 {
      assert Before(s[0], s[k]);
    }
  }

  lemma SortedTail(s: seq<Entry>)
    requires SortedBy(s) && |s| > 0
    ensures SortedBy(s[1..])
    ensures forall e :: e in s[1..] <==> e in s && e != s[0]
  {
    var t := s[1..];
    forall i, j | 0 <= i < j < |t| ensures Before(t[i], t[j]) {
      assert t[i] == s[i + 1] && t[j] == s[j + 1];
    }
    forall e ensures e in t <==> e in s && e != s[0] {
      if e in t {
        var i :| 0 <= i < |t| && t[i] == e;
        assert s[i + 1] == e;
        assert Before(s[0], s[i + 1]);
      }
      if e in s && e != s[0] {
        var i :| 0 <= i < |s| && s[i] == e;
        assert t[i - 1] == e;
      }
    }
  }

  /** Two `Before`-ordered sequences holding the same entries are equal. */
  lemma {:induction false} SortedUnique(a: seq<Entry>, b: seq<Entry>)
    requires SortedBy(a) && SortedBy(b)
    requires forall e :: e in a <==> e in b
    ensures a == b
  {
    if |a| > 0 {
      assert a[0] in a;
    }
    if |b| > 0 {
      assert b[0] in b;
    }
    if |a| > 0 && |b| > 0 {
      assert a[0] == b[0] by {
        HeadFirst(a, b[0]);
        HeadFirst(b, a[0]);
      }
      SortedTail(a);
      SortedTail(b);
      SortedUnique(a[1..], b[1..]);
      assert a == [a[0]] + a[1..] && b == [b[0]] + b[1..];
    }
  }

  /** `_sort_occurrences` gives the same sequence whatever order the map's
      entries are visited in, so the unspecified `HashMap` iteration order
      cannot change any rank. */
  lemma SortIndependentOfOrder(counts: map<nat, nat>, keys1: seq<nat>, keys2: seq<nat>)
    requires Enumerates(keys1, counts) && Enumerates(keys2, counts)
    ensures SortOccurrences(counts, keys1) == SortOccurrences(counts, keys2)
  {
    SortedUnique(SortOccurrences(counts, keys1), SortOccurrences(counts, keys2));
  }

  /** The entry of code `c` in the sorted column, and its position. */
  lemma EntryPosition(col: seq<nat>, c: nat) returns (i: nat)
    requires c in col && c != 0
    ensures i < |SortedColumn(col)| && SortedColumn(col)[i] == (c, Occ(col, c))
    ensures RankColumn(col)[c] == |SortedColumn(col)| - i
  {
    var sorted := SortedColumn(col);
    assert (c, Occ(col, c)) in sorted;
    i :| 0 <= i < |sorted| && sorted[i] == (c, Occ(col, c));
  }

  /** Ranks compare exactly as the sort key does: of two different non-gap
      codes present, the one with the higher count, or with the equal count
      and the smaller code, has the higher rank. */
  lemma RankOrder(col: seq<nat>, a: nat, b: nat)
    requires a in col && b in col && a != 0 && b != 0 && a != b
    ensures RankColumn(col)[a] > RankColumn(col)[b] <==> Outranks(col, a, b)
    ensures RankColumn(col)[a] != RankColumn(col)[b]
  {
    var ia := EntryPosition(col, a);
    var ib := EntryPosition(col, b);
    SortedIndexOrder(SortedColumn(col), ia, ib);
    SortedIndexOrder(SortedColumn(col), ib, ia);
  }

  /** A strictly higher count gives a strictly higher rank. */
  lemma HigherCountHigherRank(col: seq<nat>, a: nat, b: nat)
    requires a in col && b in col && a != 0 && b != 0
    requires Occ(col, a) > Occ(col, b)
    ensures RankColumn(col)[a] > RankColumn(col)[b]
  {
    RankOrder(col, a, b);
  }

  /** Tie-break: of two codes with equal counts, the smaller code has the
      higher rank. */
  lemma TieBreak(col: seq<nat>, a: nat, b: nat)
    requires a in col && b in col && a != 0 && b != 0
    requires Occ(col, a) == Occ(col, b) && a < b
    ensures RankColumn(col)[a] > RankColumn(col)[b]
  {
    RankOrder(col, a, b);
  }

  /** The non-gap codes present receive exactly the ranks 1..K, each once. */
  lemma RankDense(col: seq<nat>, k: nat) returns (c: nat)
    requires 1 <= k <= PresentCount(col)
    ensures c in col && c != 0 && RankColumn(col)[c] == k
  {
    var sorted := SortedColumn(col);
    SortedKeysCount(col, sorted);
    var i := |sorted| - k;
    assert sorted[i] in sorted;
    c := sorted[i].0;
  }

  /** The most frequent code (ties: the smallest) gets rank K and the least
      frequent (ties: the largest) gets rank 1. */
  lemma RankExtremes(col: seq<nat>, c: nat)
    requires c in col && c != 0
    ensures RankColumn(col)[c] == PresentCount(col) <==>
              forall d :: d in col && d != 0 && d != c ==> Outranks(col, c, d)
    ensures RankColumn(col)[c] == 1 <==>
              forall d :: d in col && d != 0 && d != c ==> Outranks(col, d, c)
  {
    var r := RankColumn(col);
    var k := PresentCount(col);
    if r[c] == k {
      forall d | d in col && d != 0 && d != c ensures Outranks(col, c, d) {
        RankOrder(col, c, d);
      }
    } else {
      var top := RankDense(col, k);
      RankOrder(col, c, top);
    }
    if r[c] == 1 {
      forall d | d in col && d != 0 && d != c ensures Outranks(col, d, c) {
        RankOrder(col, d, c);
      }
    } else {
      var bottom := RankDense(col, 1);
      RankOrder(col, bottom, c);
    }
  }

  /** Every rank of the engine equals the reference rank. */
  lemma RankMatchesReference(col: seq<nat>, x: nat)
    requires x in col
    ensures RankColumn(col)[x] == RefRank(col, x)
  {
    if x != 0 {
      var i := EntryPosition(col, x);
      var n := OutrankedCount(col, x, i);
      assert RankColumn(col)[x] == |SortedColumn(col)| - i;
      assert RefRank(col, x) == 1 + n;
    }
  }

  /** The codes `x` outranks are those after its own entry in the sorted column. */
  lemma OutrankedCount(col: seq<nat>, x: nat, i: nat) returns (n: nat)
    requires x in col && x != 0
    requires i < |SortedColumn(col)| && SortedColumn(col)[i] == (x, Occ(col, x))
    ensures n == |set y: nat | y in col && y != 0 && Outranks(col, x, y)|
    ensures n == |SortedColumn(col)| - i - 1
  {
    var sorted := SortedColumn(col);
    var keys := SortedKeys(col);
    var below := (y: nat) => Outranks(col, x, y);
    forall q | 0 <= q < |keys| ensures below(keys[q]) <==> i + 1 <= q < |keys| {
      assert sorted[q] in sorted;
      SortedIndexOrder(sorted, i, q);
    }
    CountRange(keys, below, i + 1, |keys|);
    var counted := set y: nat | y in col && y != 0 && Outranks(col, x, y);
    DistinctCount(keys, below, counted);
    n := |counted|;
  }

  /** A column whose only non-gap code is `c` ranks `c` as 1; in particular a
      single-sequence alignment ranks every residue 1. */
  lemma SoleSymbolRanksOne(col: seq<nat>, c: nat)
    requires c in col && c != 0
    requires forall d :: d in col ==> d == 0 || d == c
    ensures RankColumn(col)[c] == 1
  {
    assert (set d: nat | d in col && d != 0) == {c};
  }

  /** Every cell of the ranked table is its code's rank in its own column:
      0 exactly for gap cells, and between 1 and K for the others. */
  lemma RankTableCells(aln: seq<seq<nat>>, width: nat, j: nat, i: nat)
    requires Rectangular(aln, width) && j < |aln| && i < width
    ensures var col := Column(aln, i);
            aln[j][i] in RankColumn(col) &&
            RankTable(aln, width)[j][i] == RankColumn(col)[aln[j][i]] &&
            (RankTable(aln, width)[j][i] == 0 <==> aln[j][i] == 0) &&
            RankTable(aln, width)[j][i] <= PresentCount(col)
  {
    assert Column(aln, i)[j] == aln[j][i];
  }

  /** A column of the ranked table depends on the same input column only. */
  lemma ColumnLocal(a: seq<seq<nat>>, b: seq<seq<nat>>, width: nat, i: nat)
    requires Rectangular(a, width) && Rectangular(b, width) && i < width
    requires Column(a, i) == Column(b, i)
    ensures Column(RankTable(a, width), i) == Column(RankTable(b, width), i)
  {
    var ra, rb := RankTable(a, width), RankTable(b, width);
    assert |a| == |Column(a, i)| == |Column(b, i)| == |b|;
    forall j | 0 <= j < |a| ensures ra[j][i] == rb[j][i] {
      assert a[j][i] == Column(a, i)[j] == Column(b, i)[j] == b[j][i];
    }
  }

  /** With codes at most `m`, at most `m` distinct non-gap codes are present,
      so no rank exceeds `m`. */
  lemma PresentCountBound(col: seq<nat>, m: nat)
    requires forall c :: c in col ==> c <= m
    ensures PresentCount(col) <= m
  {
    var upto: seq<nat> := seq(m, k requires 0 <= k < m => k + 1);
    assert Distinct(upto);
    DistinctSetSize(upto);
    forall c | c in col && c != 0 ensures c in upto {
      assert upto[c - 1] == c;
    }
    assert (set c: nat | c in col && c != 0) <= (set y: nat | y in upto);
    SubsetSize(set c: nat | c in col && c != 0, set y: nat | y in upto);
  }
}
