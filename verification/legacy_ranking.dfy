/** The older pandas ranking of the ProtPCA code (`ProtPCA/ranking.py`).

    A column of the occurrence table is a series of (symbol, count) items.
    `rank_alphabet` drops the gap, sorts the items by count and then symbol,
    both descending, groups equal counts, and walks the groups from the
    highest count down: a group of `num` symbols receives the ranks
    tot - num + 1 .. tot in sorted order, after which `tot` drops by `num`.
    Symbols that do not occur get no rank; the gap is finally ranked 0. */
module LegacyRanking {
  import opened Counting
  import opened AaMap

  /** A (symbol, count) item of an occurrence-table column. */
  type Item = (char, nat)

  /** The items of one occurrence-table column, in index order. */
  type Series = seq<Item>

  /** No symbol labels two items. */
  predicate LabelsDistinct(s: Series) {
    forall i, j :: 0 <= i < j < |s| ==> s[i].0 != s[j].0
  }

  /** The count of symbol `x` in the series, 0 when it is not listed. */
  function CountOf(s: Series, x: char): (n: nat)
    ensures LabelsDistinct(s) ==> forall e :: e in s && e.0 == x ==> e.1 == n
    ensures n > 0 ==> (x, n) in s
  {
    if |s| == 0 then 0
    else if s[0].0 == x then s[0].1
    else
      LabelsTail(s);
      assert forall e :: e in s && e.0 == x ==> e in s[1..] by {
        assert s == [s[0]] + s[1..];
      }
      CountOf(s[1..], x)
  }

  /** `pd_series.loc[[x for x in pd_series.index if x is not '-']]`. */
  function DropGap(s: Series): (r: Series)
    ensures forall e :: e in r <==> e in s && e.0 != Gap
    ensures LabelsDistinct(s) ==> LabelsDistinct(r)
  {
    if |s| == 0 then []
    else
      var rest := DropGap(s[1..]);
      assert forall e :: e in s <==> e == s[0] || e in s[1..] by {
        assert s == [s[0]] + s[1..];
      }
      LabelsTail(s);
      if s[0].0 != Gap then [s[0]] + rest else rest
  }

  /** Dropping the first item keeps the labels distinct, and the first
      label is not among the rest. */
  lemma LabelsTail(s: Series)
    requires |s| > 0
    ensures LabelsDistinct(s) ==> LabelsDistinct(s[1..]) && forall e :: e in s[1..] ==> e.0 != s[0].0
  {
    if LabelsDistinct(s) {
      forall i, j | 0 <= i < j < |s[1..]| ensures s[1..][i].0 != s[1..][j].0 {
        assert s[1..][i] == s[i + 1] && s[1..][j] == s[j + 1];
      }
      forall e | e in s[1..] ensures e.0 != s[0].0 {
        var k :| 0 <= k < |s[1..]| && s[1..][k] == e;
        assert s[k + 1] == e;
      }
    }
  }

  /** The order of `sort_values(by=[count, symbol], ascending=[False, False])`:
      `a` comes before `b`. */
  predicate Precedes(a: Item, b: Item) {
    a.1 > b.1 || (a.1 == b.1 && a.0 > b.0)
  }

  /** No item is preceded by an item after it. */
  predicate SortedDesc(s: Series) {
    forall i, j :: 0 <= i < j < |s| ==> !Precedes(s[j], s[i])
  }

  /** The first item of a sorted series stays first once `x`, which it
      precedes, is inserted into the rest. */
  lemma InsertDescHead(s: Series, x: Item, rest: Series)
    requires SortedDesc(s) && |s| > 0 && Precedes(s[0], x) && SortedDesc(rest)
    requires forall e :: e in rest <==> e in s[1..] || e == x
    ensures SortedDesc([s[0]] + rest)
  {
    forall e | e in rest ensures !Precedes(e, s[0]) {
      if e in s[1..] {
        var k :| 0 <= k < |s[1..]| && s[1..][k] == e;
        assert s[k + 1] == e;
      }
    }
    forall i, j | 0 <= i < j < |rest| + 1 ensures !Precedes(([s[0]] + rest)[j], ([s[0]] + rest)[i]) {
      if i == 0 {
        assert ([s[0]] + rest)[j] in rest;
      } else {
        assert ([s[0]] + rest)[j] == rest[j - 1] && ([s[0]] + rest)[i] == rest[i - 1];
      }
    }
  }

  /** The labels stay distinct when `x`, with a new label, is inserted
      after the first item. */
  lemma InsertDescLabels(s: Series, x: Item, rest: Series)
    requires |s| > 0 && forall e :: e in rest <==> e in s[1..] || e == x
    ensures LabelsDistinct(s) && (forall e :: e in s ==> e.0 != x.0) && LabelsDistinct(rest) ==>
              LabelsDistinct([s[0]] + rest)
  {
    if LabelsDistinct(s) && (forall e :: e in s ==> e.0 != x.0) && LabelsDistinct(rest) {
      LabelsTail(s);
      forall j | 0 <= j < |rest| ensures rest[j].0 != s[0].0 {
        assert rest[j] in rest;
      }
      forall i, j | 0 <= i < j < |rest| + 1 ensures ([s[0]] + rest)[i].0 != ([s[0]] + rest)[j].0 {
        if i > 0 {
          assert ([s[0]] + rest)[j] == rest[j - 1] && ([s[0]] + rest)[i] == rest[i - 1];
        }
      }
    }
  }

  /** `x` put before the first item it precedes. */
  function InsertDesc(s: Series, x: Item): (r: Series)
    requires SortedDesc(s)
    ensures SortedDesc(r)
    ensures |r| == |s| + 1 && multiset(r) == multiset(s) + multiset{x}
    ensures forall e :: e in r <==> e in s || e == x
    ensures LabelsDistinct(s) && (forall e :: e in s ==> e.0 != x.0) ==> LabelsDistinct(r)
  {
    if |s| == 0 || !Precedes(s[0], x) then
      [x] + s
    else
      var rest := InsertDesc(s[1..], x);
      assert s == [s[0]] + s[1..];
      InsertDescHead(s, x, rest);
      LabelsTail(s);
      InsertDescLabels(s, x, rest);
      [s[0]] + rest
  }

  /** The sorted items: a permutation of `s` in `Precedes` order. */
  function SortDesc(s: Series): (r: Series)
    ensures SortedDesc(r)
    ensures |r| == |s| && multiset(r) == multiset(s)
    ensures forall e :: e in r <==> e in s
    ensures LabelsDistinct(s) ==> LabelsDistinct(r)
  {
    if |s| == 0 then []
    else
      var init := s[..|s| - 1];
      var last := s[|s| - 1];
      assert s == init + [last];
      assert forall e :: e in s <==> e in init || e == last;
      assert LabelsDistinct(s) ==> LabelsDistinct(init) && forall e :: e in init ==> e.0 != last.0 by {
        if LabelsDistinct(s) {
          forall e | e in init ensures e.0 != last.0 {
            var k :| 0 <= k < |init| && init[k] == e;
            assert s[k] == e;
          }
        }
      }
      InsertDesc(SortDesc(init), last)
  }

  /** Number of leading items of `t` with count `c`. */
  function Lead(t: Series, c: nat): (n: nat)
    ensures n <= |t|
    ensures forall k :: 0 <= k < n ==> t[k].1 == c
    ensures n < |t| ==> t[n].1 != c
  {
    LeadFrom(t, c, 0)
  }

  /** The end of the run of count `c` that starts at position `i`. */
  function LeadFrom(t: Series, c: nat, i: nat): (n: nat)
    requires i <= |t|
    ensures i <= n <= |t|
    ensures forall k :: i <= k < n ==> t[k].1 == c
    ensures n < |t| ==> t[n].1 != c
    decreases |t| - i
  {
    if i == |t| || t[i].1 != c then i else LeadFrom(t, c, i + 1)
  }

  /** `test_rank.groupby(test_rank).agg('count')`, listed by count descending:
      on items sorted by count, the runs of equal counts as (count, number of
      symbols) pairs. */
  function RunLengths(t: Series): (groups: seq<(nat, nat)>)
    ensures Sizes(groups) == |t|
    decreases |t|
  {
    if |t| == 0 then []
    else
      var n := Lead(t, t[0].1);
      [(t[0].1, n)] + RunLengths(t[n..])
  }

  /** Total number of symbols over all groups. */
  function Sizes(groups: seq<(nat, nat)>): nat {
    if |groups| == 0 then 0 else groups[0].1 + Sizes(groups[1..])
  }

  /** `all_ranks_by_sum`: the number of symbols over the groups with a
      non-zero count. */
  function NonzeroTotal(groups: seq<(nat, nat)>): nat {
    if |groups| == 0 then 0
    else (if groups[0].0 != 0 then groups[0].1 else 0) + NonzeroTotal(groups[1..])
  }

  /** The loop over the groups, with `items` the sorted items not yet handed
      a rank (`all_items[cnt1:]`): a group with a non-zero count and `num`
      symbols hands the ranks tot - num + 1 .. tot, in order, to the next
      `num` items and lowers `tot` by `num`; a zero-count group is skipped
      without moving past any item. */
  function Assign(items: Series, groups: seq<(nat, nat)>, tot: int): (pairs: seq<(char, int)>)
    requires Sizes(groups) <= |items|
    decreases |groups|
  {
    if |groups| == 0 then []
    else
      var count, num := groups[0].0, groups[0].1;
      if count != 0 then
        GroupRanks(items, num, tot) + Assign(items[num..], groups[1..], tot - num)
      else
        Assign(items, groups[1..], tot)
  }

  /** The ranks handed to the first `num` items, in order: `tot - num + 1`
      up to `tot`. */
  function GroupRanks(items: Series, num: nat, tot: int): (pairs: seq<(char, int)>)
    requires num <= |items|
    ensures |pairs| == num
    ensures forall k :: 0 <= k < num ==> pairs[k].0 == items[k].0 && pairs[k].1 == tot - num + k + 1
  {
    seq(num, k requires 0 <= k < num => (items[k].0, tot - num + k + 1))
  }

  /** `dict(pairs)`: later pairs override earlier ones with the same key. */
  function ToDict(pairs: seq<(char, int)>): (d: map<char, int>)
    ensures forall x :: x in d <==> exists k :: 0 <= k < |pairs| && pairs[k].0 == x
  {
    if |pairs| == 0 then map[]
    else
      var init := pairs[..|pairs| - 1];
      var last := pairs[|pairs| - 1];
      var d := ToDict(init);
      assert forall k :: 0 <= k < |init| ==> init[k] == pairs[k];
      d[last.0 := last.1]
  }

  /** `rank_alphabet`. */
  function RankAlphabet(series: Series): (ranks: map<char, int>)
    ensures Gap in ranks && ranks[Gap] == 0
  {
    var sorted := SortDesc(DropGap(series));
    var groups := RunLengths(sorted);
    ToDict(Assign(sorted, groups, NonzeroTotal(groups)))[Gap := 0]
  }
}
