/** The native ranking engine of the QIIME 2 plugin (`ranking/src/lib.rs`).

    An alignment is a rectangular matrix of symbol codes (rows are sequences,
    columns are alignment positions); code 0 is the gap. Each column is ranked
    on its own: the non-gap codes present are counted, sorted by count
    descending and then code ascending, and the i-th code of that order gets
    rank K - i, where K is the number of distinct non-gap codes present. The
    gap always gets rank 0. Every cell is then replaced by the rank of its code
    in its column's map.

    Codes and counts are `u32` in the source; they are unbounded here, which
    only matters beyond 2^32 rows. */
module Engine {
  import opened Counting
  import opened Tables

  /** A (code, count) entry of a column's occurrence map. */
  type Entry = (nat, nat)

  /** Number of times code `c` appears in `col`. */
  function Occ(col: seq<nat>, c: nat): nat {
    multiset(col)[c]
  }

  /** `_count_occurrences`: the occurrence map of one column. Gaps are
      skipped; every other code present maps to its number of occurrences. */
  function CountOccurrences(col: seq<nat>): (counts: map<nat, nat>)
    ensures forall c :: c in counts <==> c != 0 && c in col
    ensures forall c :: c in counts ==> counts[c] == Occ(col, c) && counts[c] > 0
  {
    if |col| == 0 then map[]
    else
      var init := col[..|col| - 1];
      var c := col[|col| - 1];
      var prev := CountOccurrences(init);
      assert col == init + [c];
      if c == 0 then prev
      else prev[c := (if c in prev then prev[c] else 0) + 1]
  }

  /** The sort key of `_sort_occurrences`: higher count first, and on equal
      counts the smaller code first. */
  predicate Before(a: Entry, b: Entry) {
    a.1 > b.1 || (a.1 == b.1 && a.0 < b.0)
  }

  /** Every entry precedes every later one in the `Before` order. */
  predicate SortedBy(s: seq<Entry>) {
    forall i, j :: 0 <= i < j < |s| ==> Before(s[i], s[j])
  }

  /** No code appears twice among the entries. */
  predicate KeysDistinct(s: seq<Entry>) {
    forall i, j :: 0 <= i < j < |s| ==> s[i].0 != s[j].0
  }

  /** `keys` is one possible iteration order of the map `m`: every key of `m`
      exactly once. */
  ghost predicate Enumerates(keys: seq<nat>, m: map<nat, nat>) {
    Distinct(keys) && forall k :: k in keys <==> k in m
  }

  /** The non-gap codes of `col`, each once, in order of first appearance.
      It stands for the iteration order of the occurrence map, which Rust's
      `HashMap` leaves unspecified; `RankLaws.SortIndependentOfOrder` shows the
      choice does not matter. */
  function NonGapCodes(col: seq<nat>): (keys: seq<nat>)
    ensures Distinct(keys)
    ensures forall c :: c in keys <==> c != 0 && c in col
  {
    if |col| == 0 then []
    else
      var init := col[..|col| - 1];
      var c := col[|col| - 1];
      var prev := NonGapCodes(init);
      assert col == init + [c];
      if c == 0 || c in prev then prev else prev + [c]
  }

  /** Inserting `x` into an ordered sequence keeps it ordered. */
  function Insert(x: Entry, s: seq<Entry>): (r: seq<Entry>)
    requires SortedBy(s) && x !in s
    ensures SortedBy(r)
    ensures multiset(r) == multiset(s) + multiset{x}
  {
    if |s| == 0 then [x]
    else if Before(x, s[0]) then
      assert forall e :: e in s ==> Before(x, e) by {
        forall e | e in s ensures Before(x, e) {
          var k :| 0 <= k < |s| && s[k] == e;
          if k > 0 {
            assert Before(s[0], s[k]);
          }
        }
      }
      ConsSorted(x, s);
      [x] + s
    else
      var tail := s[1..];
      assert s == [s[0]] + tail;
      assert SortedBy(tail) by {
        forall i, j | 0 <= i < j < |tail| ensures Before(tail[i], tail[j]) {
          assert tail[i] == s[i + 1] && tail[j] == s[j + 1];
        }
      }
      assert x !in tail;
      var rest := Insert(x, tail);
      assert Before(s[0], x) by {
        BeforeTotal(x, s[0]);
      }
      assert forall e :: e in rest ==> Before(s[0], e) by {
        forall e | e in rest ensures Before(s[0], e) {
          assert e in multiset(rest);
          if e != x {
            assert e in multiset(tail);
            var k :| 0 <= k < |tail| && tail[k] == e;
            assert tail[k] == s[k + 1];
          }
        }
      }
      ConsSorted(s[0], rest);
      [s[0]] + rest
  }

  /** Two different entries are always ordered one way or the other. */
  lemma BeforeTotal(a: Entry, b: Entry)
    requires a != b
    ensures Before(a, b) || Before(b, a)
  {
  }

  lemma ConsSorted(h: Entry, t: seq<Entry>)
    requires SortedBy(t)
    requires forall e :: e in t ==> Before(h, e)
    ensures SortedBy([h] + t)
  {
    var r := [h] + t;
    forall i, j | 0 <= i < j < |r| ensures Before(r[i], r[j]) {
      assert r[j] == t[j - 1];
      if i > 0 {
        assert r[i] == t[i - 1];
      } else {
        assert t[j - 1] in t;
      }
    }
  }

  /** Insertion sort by `Before`. */
  function Sort(s: seq<Entry>): (r: seq<Entry>)
    requires Distinct(s)
    ensures SortedBy(r)
    ensures multiset(r) == multiset(s)
  {
    if |s| == 0 then []
    else
      var rest := s[1..];
      assert Distinct(rest) by {
        forall i, j | 0 <= i < j < |rest| ensures rest[i] != rest[j] {
          assert rest[i] == s[i + 1] && rest[j] == s[j + 1];
        }
      }
      var sortedRest := Sort(rest);
      assert s[0] !in sortedRest by {
        assert s == [s[0]] + rest;
        assert s[0] !in rest by {
          forall k | 0 <= k < |rest| ensures rest[k] != s[0] {
            assert rest[k] == s[k + 1];
          }
        }
        assert s[0] !in multiset(rest);
      }
      assert s == [s[0]] + rest;
      Insert(s[0], sortedRest)
  }

  /** `_sort_occurrences`: the entries of `counts`, visited in the iteration
      order `keys`, sorted by count descending and then code ascending. */
  function SortOccurrences(counts: map<nat, nat>, keys: seq<nat>): (sorted: seq<Entry>)
    requires Enumerates(keys, counts)
    ensures SortedBy(sorted)
    ensures KeysDistinct(sorted)
    ensures |sorted| == |keys|
    ensures forall e :: e in sorted <==> e.0 in counts && e.1 == counts[e.0]
  {
    var items := Entries(counts, keys);
    var sorted := Sort(items);
    SortedEntries(items, sorted);
    sorted
  }

  /** The entries of `counts` in the iteration order `keys`. */
  function Entries(counts: map<nat, nat>, keys: seq<nat>): (items: seq<Entry>)
    requires Enumerates(keys, counts)
    ensures |items| == |keys| && Distinct(items)
    ensures forall e :: e in items <==> e.0 in counts && e.1 == counts[e.0]
  {
    var items := seq(|keys|, i requires 0 <= i < |keys| => (keys[i], counts[keys[i]]));
    assert Distinct(items) by {
      forall i, j | 0 <= i < j < |items| ensures items[i] != items[j] {
        assert items[i].0 == keys[i] && items[j].0 == keys[j];
      }
    }
    forall e: Entry | e.0 in counts && e.1 == counts[e.0] ensures e in items {
      var k :| 0 <= k < |keys| && keys[k] == e.0;
      assert items[k] == e;
    }
    items
  }

  /** A sorted permutation of entries, no two of them with the same code,
      keeps their number, their members and their distinct codes. */
  lemma SortedEntries(items: seq<Entry>, sorted: seq<Entry>)
    requires SortedBy(sorted) && multiset(sorted) == multiset(items)
    requires forall a, b :: a in items && b in items && a.0 == b.0 ==> a == b
    ensures |sorted| == |items|
    ensures forall e :: e in sorted <==> e in items
    ensures KeysDistinct(sorted)
  {
    assert |multiset(sorted)| == |multiset(items)|;
    forall e ensures e in sorted <==> e in items {
      assert e in sorted <==> e in multiset(sorted);
      assert e in items <==> e in multiset(items);
    }
    forall i, j | 0 <= i < j < |sorted| ensures sorted[i].0 != sorted[j].0 {
      assert sorted[i] in sorted && sorted[j] in sorted;
      assert Before(sorted[i], sorted[j]);
    }
  }

  /** The first `n` steps of the `_convert_to_ranks` loop: the i-th entry of
      the sorted sequence is given rank |sorted| - i. */
  function InsertRanks(sorted: seq<Entry>, n: nat): (ranks: map<nat, nat>)
    requires n <= |sorted|
    ensures forall k :: k in ranks <==> exists i :: 0 <= i < n && sorted[i].0 == k
    ensures KeysDistinct(sorted) ==>
              forall i :: 0 <= i < n ==> ranks[sorted[i].0] == |sorted| - i
  {
    if n == 0 then map[]
    else InsertRanks(sorted, n - 1)[sorted[n - 1].0 := |sorted| - (n - 1)]
  }

  /** `_convert_to_ranks`: rank K - i for the i-th sorted entry, then the gap
      code 0 is set to rank 0. */
  function ConvertToRanks(sorted: seq<Entry>): (ranks: map<nat, nat>)
    ensures 0 in ranks && ranks[0] == 0
    ensures forall k :: k in ranks <==> k == 0 || exists i :: 0 <= i < |sorted| && sorted[i].0 == k
    ensures KeysDistinct(sorted) ==>
              forall i :: 0 <= i < |sorted| && sorted[i].0 != 0 ==> ranks[sorted[i].0] == |sorted| - i
  {
    InsertRanks(sorted, |sorted|)[0 := 0]
  }

  /** The sorted occurrence entries of one column. */
  function SortedColumn(col: seq<nat>): (sorted: seq<Entry>)
    ensures SortedBy(sorted) && KeysDistinct(sorted)
    ensures forall e :: e in sorted <==> e.0 != 0 && e.0 in col && e.1 == Occ(col, e.0)
  {
    var counts := CountOccurrences(col);
    SortOccurrences(counts, NonGapCodes(col))
  }

  /** Number of distinct non-gap codes present in `col`. */
  function PresentCount(col: seq<nat>): nat {
    |set c: nat | c in col && c != 0|
  }

  /** The rank map of one column (`_convert_to_ranks(_sort_occurrences(
      _count_occurrences(col)))`): the gap and exactly the codes present are
      ranked, the gap with 0 and every other code with a rank in 1..K. */
  function RankColumn(col: seq<nat>): (ranks: map<nat, nat>)
    ensures forall c :: c in ranks <==> c == 0 || c in col
    ensures ranks[0] == 0
    ensures forall c :: c in col && c != 0 ==> 1 <= ranks[c] <= PresentCount(col)
  {
    var sorted := SortedColumn(col);
    var ranks := ConvertToRanks(sorted);
    RankColumnDomain(col, sorted, ranks);
    ranks
  }

  lemma RankColumnDomain(col: seq<nat>, sorted: seq<Entry>, ranks: map<nat, nat>)
    requires sorted == SortedColumn(col) && ranks == ConvertToRanks(sorted)
    ensures forall c :: c in ranks <==> c == 0 || c in col
    ensures forall c :: c in col && c != 0 ==> 1 <= ranks[c] <= PresentCount(col)
  {
    SortedKeysCount(col, sorted);
    forall c | c in col && c != 0 ensures c in ranks && 1 <= ranks[c] <= |sorted| {
      assert (c, Occ(col, c)) in sorted;
      var i :| 0 <= i < |sorted| && sorted[i] == (c, Occ(col, c));
    }
    forall c | c in ranks && c != 0 ensures c in col {
      var i :| 0 <= i < |sorted| && sorted[i].0 == c;
      assert sorted[i] in sorted;
    }
  }

  /** The codes of a sequence of entries, in the same order. */
  function KeysOf(sorted: seq<Entry>): (keys: seq<nat>)
    ensures |keys| == |sorted|
    ensures forall q :: 0 <= q < |keys| ==> keys[q] == sorted[q].0
    ensures KeysDistinct(sorted) ==> Distinct(keys)
  {
    seq(|sorted|, q requires 0 <= q < |sorted| => sorted[q].0)
  }

  /** The codes of the sorted column, in sorted order. */
  function SortedKeys(col: seq<nat>): (keys: seq<nat>)
    ensures |keys| == |SortedColumn(col)|
    ensures forall q :: 0 <= q < |keys| ==> keys[q] == SortedColumn(col)[q].0
    ensures Distinct(keys)
    ensures forall y :: y in keys <==> y in col && y != 0
  {
    var sorted := SortedColumn(col);
    KeysOfColumn(col, sorted);
    KeysOf(sorted)
  }

  /** The codes of a column's sorted entries are exactly its non-gap codes. */
  lemma KeysOfColumn(col: seq<nat>, sorted: seq<Entry>)
    requires forall e :: e in sorted <==> e.0 != 0 && e.0 in col && e.1 == Occ(col, e.0)
    ensures forall y :: y in KeysOf(sorted) <==> y in col && y != 0
  {
    var keys := KeysOf(sorted);
    forall y ensures y in keys <==> y in col && y != 0 {
      if y in col && y != 0 {
        assert (y, Occ(col, y)) in sorted;
        var q :| 0 <= q < |sorted| && sorted[q] == (y, Occ(col, y));
        assert keys[q] == y;
      }
      if y in keys {
        var q :| 0 <= q < |keys| && keys[q] == y;
        assert sorted[q] in sorted;
      }
    }
  }

  /** The sorted entries are as many as the distinct non-gap codes present. */
  lemma SortedKeysCount(col: seq<nat>, sorted: seq<Entry>)
    requires KeysDistinct(sorted)
    requires forall e :: e in sorted <==> e.0 != 0 && e.0 in col && e.1 == Occ(col, e.0)
    ensures |sorted| == PresentCount(col)
  {
    var keys := KeysOf(sorted);
    DistinctSetSize(keys);
    KeysOfColumn(col, sorted);
    assert (set y: nat | y in keys) == (set c: nat | c in col && c != 0);
  }

  /** The rank of a cell's code in its own column's rank map. */
  function CellRank(aln: seq<seq<nat>>, width: nat, j: nat, i: nat): nat
    requires Rectangular(aln, width) && j < |aln| && i < width
  {
    var col := Column(aln, i);
    assert col[j] in col;
    RankColumn(col)[aln[j][i]]
  }

  /** `rank_sequences`: each cell replaced by its column's rank of its code. */
  function RankTable(aln: seq<seq<nat>>, width: nat): (ranked: seq<seq<nat>>)
    requires Rectangular(aln, width)
    ensures |ranked| == |aln| && Rectangular(ranked, width)
  {
    seq(|aln|, j requires 0 <= j < |aln| =>
      seq(width, i requires 0 <= i < width => CellRank(aln, width, j, i)))
  }

  /** `m` with the cell at row `j`, column `i` set to `v`; nothing else changes. */
  function SetCell(m: seq<seq<nat>>, width: nat, j: nat, i: nat, v: nat): (r: seq<seq<nat>>)
    requires Rectangular(m, width) && j < |m| && i < width
    ensures |r| == |m| && Rectangular(r, width)
    ensures r[j][i] == v
    ensures forall j', i' :: 0 <= j' < |m| && 0 <= i' < width && (j' != j || i' != i) ==>
              r[j'][i'] == m[j'][i']
  {
    var row: seq<nat> := m[j][i := v];
    m[j := row]
  }

  /** The loop of `rank_sequences`: the rank maps of all columns are built
      first, then the output matrix, initially all zero, is filled column by
      column. */
  method RankSequences(aln: seq<seq<nat>>, width: nat) returns (ranked: seq<seq<nat>>)
    requires Rectangular(aln, width)
    ensures |ranked| == |aln| && Rectangular(ranked, width)
    ensures forall j, i :: 0 <= j < |aln| && 0 <= i < width ==>
              aln[j][i] in RankColumn(Column(aln, i)) &&
              ranked[j][i] == RankColumn(Column(aln, i))[aln[j][i]]
  {
    var z := seq(width, i requires 0 <= i < width => RankColumn(Column(aln, i)));
    ranked := seq(|aln|, j => seq(width, i => 0));
    var i := 0;
    while i < width
      invariant 0 <= i <= width
      invariant |ranked| == |aln| && Rectangular(ranked, width)
      invariant forall j, i' :: 0 <= j < |aln| && 0 <= i' < i ==> ranked[j][i'] == CellRank(aln, width, j, i')
    {
      assert z[i] == RankColumn(Column(aln, i));
      var prev := ranked;
      ranked := FillColumn(aln, width, i, z[i], prev);
      FilledUpTo(aln, width, i, prev, ranked);
      i := i + 1;
    }
    forall j, i | 0 <= j < |aln| && 0 <= i < width
      ensures aln[j][i] in RankColumn(Column(aln, i))
      ensures ranked[j][i] == RankColumn(Column(aln, i))[aln[j][i]]
    {
      CellRankAt(aln, width, j, i);
    }
  }

  /** Filling column `i` after columns 0..i-1 leaves columns 0..i filled. */
  lemma FilledUpTo(aln: seq<seq<nat>>, width: nat, i: nat, prev: seq<seq<nat>>, next: seq<seq<nat>>)
    requires Rectangular(aln, width) && i < width
    requires |prev| == |aln| && Rectangular(prev, width) && |next| == |aln| && Rectangular(next, width)
    requires forall j, i' :: 0 <= j < |aln| && 0 <= i' < i ==> prev[j][i'] == CellRank(aln, width, j, i')
    requires forall j :: 0 <= j < |aln| ==> next[j][i] == CellRank(aln, width, j, i)
    requires forall j, i' :: 0 <= j < |aln| && 0 <= i' < width && i' != i ==> next[j][i'] == prev[j][i']
    ensures forall j, i' :: 0 <= j < |aln| && 0 <= i' < i + 1 ==> next[j][i'] == CellRank(aln, width, j, i')
  {
  }

  /** A cell's code is ranked in its own column's map, and `CellRank` reads
      that rank. */
  lemma CellRankAt(aln: seq<seq<nat>>, width: nat, j: nat, i: nat)
    requires Rectangular(aln, width) && j < |aln| && i < width
    ensures aln[j][i] in RankColumn(Column(aln, i))
    ensures CellRank(aln, width, j, i) == RankColumn(Column(aln, i))[aln[j][i]]
  {
    assert Column(aln, i)[j] == aln[j][i];
  }

  /** The inner loop of `rank_sequences`: column `i` of the output is filled
      row by row from that column's rank map; other columns are untouched. */
  method FillColumn(aln: seq<seq<nat>>, width: nat, i: nat, ranks: map<nat, nat>,
                    m: seq<seq<nat>>) returns (ranked: seq<seq<nat>>)
    requires Rectangular(aln, width) && i < width && ranks == RankColumn(Column(aln, i))
    requires |m| == |aln| && Rectangular(m, width)
    ensures |ranked| == |aln| && Rectangular(ranked, width)
    ensures forall j :: 0 <= j < |aln| ==> ranked[j][i] == CellRank(aln, width, j, i)
    ensures forall j, i' :: 0 <= j < |aln| && 0 <= i' < width && i' != i ==> ranked[j][i'] == m[j][i']
  {
    ranked := m;
    var j := 0;
    while j < |aln|
      invariant 0 <= j <= |aln|
      invariant |ranked| == |aln| && Rectangular(ranked, width)
      invariant forall j' :: 0 <= j' < j ==> ranked[j'][i] == CellRank(aln, width, j', i)
      invariant forall j', i' :: 0 <= j' < |aln| && 0 <= i' < width && i' != i ==> ranked[j'][i'] == m[j'][i']
    {
      assert Column(aln, i)[j] == aln[j][i];
      ranked := SetCell(ranked, width, j, i, ranks[aln[j][i]]);
      j := j + 1;
    }
  }
}
