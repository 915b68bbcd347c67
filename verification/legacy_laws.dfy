/** What `rank_alphabet` computes: the gap is ranked 0, exactly the symbols
    that occur are ranked, and each of them gets one more than the number of
    occurring symbols it outranks, where a symbol outranks those with a lower
    count and, on equal counts, those later in the alphabet. */
module LegacyLaws {
  import opened Counting
  import opened AaMap
  import opened LegacyRanking

  /** The symbol occurs in the column. */
  function Present(e: Item): bool {
    e.1 > 0
  }

  /** The items `x` outranks: occurring non-gap symbols with a lower count,
      or with the same count and a later symbol. */
  function Outranked(x: Item): Item -> bool {
    (e: Item) => e.0 != Gap && e.1 > 0 && (e.1 < x.1 || (e.1 == x.1 && e.0 > x.0))
  }

  /** Reference rank of a symbol in a series: one more than the number of
      occurring non-gap symbols it outranks. */
  function LegacyRefRank(series: Series, x: char): nat {
    1 + |set e | e in series && Outranked((x, CountOf(series, x)))(e)|
  }

  /** The non-zero-count groups hold exactly the occurring items. */
  lemma {:induction false} NonzeroTotalCounts(t: Series)
    ensures NonzeroTotal(RunLengths(t)) == CountIf(t, Present)
    decreases |t|
  {
    if |t| > 0 {
      var c := t[0].1;
      var n := Lead(t, c);
      assert t == t[..n] + t[n..];
      CountIfConcat(t[..n], t[n..], Present);
      if c != 0 {
        CountRange(t[..n], Present, 0, n);
      } else {
        CountRange(t[..n], Present, 0, 0);
      }
      NonzeroTotalCounts(t[n..]);
    }
  }

  /** After the leading run of count `t[0].1`, a sorted series only holds
      smaller counts. */
  lemma LaterLower(t: Series)
    requires SortedDesc(t) && |t| > 0
    ensures forall q :: Lead(t, t[0].1) <= q < |t| ==> t[q].1 < t[0].1
  {
    var n := Lead(t, t[0].1);
    forall q | n <= q < |t| ensures t[q].1 < t[0].1 {
      assert !Precedes(t[q], t[0]);
      assert n > 0;
      if n < q {
        assert !Precedes(t[q], t[n]) && !Precedes(t[n], t[0]);
      }
    }
  }

  /** Within the leading run, the items before `t[k]` are exactly those it
      outranks; none after the run is outranked by fewer than the present
      ones, i.e. it outranks all the occurring items after the run. */
  lemma {:induction false} HeadRank(t: Series, k: nat)
    requires SortedDesc(t) && LabelsDistinct(t) && |t| > 0 && t[0].1 > 0
    requires forall e :: e in t ==> e.0 != Gap
    requires k < Lead(t, t[0].1)
    ensures var n := Lead(t, t[0].1);
            CountIf(t, Outranked(t[k])) == k + CountIf(t[n..], Present)
  {
    var n := Lead(t, t[0].1);
    var x := t[k];
    var p := Outranked(x);
    LaterLower(t);
    assert t == t[..n] + t[n..];
    CountIfConcat(t[..n], t[n..], p);
    forall q | 0 <= q < |t[..n]| ensures p(t[..n][q]) <==> 0 <= q < k {
      assert t[..n][q] == t[q] && t[q] in t;
      if q < k {
        assert !Precedes(t[k], t[q]);
      } else if q > k {
        assert !Precedes(t[q], t[k]);
      }
    }
    CountRange(t[..n], p, 0, k);
    forall e | e in t[n..] ensures p(e) <==> Present(e) {
      var q :| 0 <= q < |t[n..]| && t[n..][q] == e;
      assert t[n + q] == e && e in t;
    }
    CountIfCongruent(t[n..], p, Present);
  }

  /** An item after the leading run outranks nothing inside it. */
  lemma TailRank(t: Series, x: Item)
    requires SortedDesc(t) && |t| > 0
    requires x.1 < t[0].1
    ensures var n := Lead(t, t[0].1);
            CountIf(t, Outranked(x)) == CountIf(t[n..], Outranked(x))
  {
    var n := Lead(t, t[0].1);
    assert t == t[..n] + t[n..];
    CountIfConcat(t[..n], t[n..], Outranked(x));
    CountRange(t[..n], Outranked(x), 0, 0);
  }

  /** A suffix of a sorted, gap-free series with distinct symbols is one too. */
  lemma SuffixFacts(items: Series, offset: nat)
    requires SortedDesc(items) && LabelsDistinct(items)
    requires forall e :: e in items ==> e.0 != Gap
    requires offset <= |items|
    ensures var t := items[offset..];
            SortedDesc(t) && LabelsDistinct(t) && forall e :: e in t ==> e.0 != Gap
  {
    var t := items[offset..];
    forall i, j | 0 <= i < j < |t| ensures !Precedes(t[j], t[i]) && t[i].0 != t[j].0 {
      assert t[i] == items[offset + i] && t[j] == items[offset + j];
    }
    forall e | e in t ensures e.0 != Gap {
      var q :| 0 <= q < |t| && t[q] == e;
      assert items[offset + q] == e;
    }
  }

  /** The rank the group loop hands to the `k`-th item of the leading run is
      one more than the number of items it outranks. */
  lemma HeadEntry(t: Series, tot: nat, k: nat)
    requires SortedDesc(t) && LabelsDistinct(t) && |t| > 0 && t[0].1 > 0
    requires forall e :: e in t ==> e.0 != Gap
    requires k < Lead(t, t[0].1)
    requires tot == Lead(t, t[0].1) + CountIf(t[Lead(t, t[0].1)..], Present)
    ensures GroupRanks(t, Lead(t, t[0].1), tot)[k].0 == t[k].0
    ensures GroupRanks(t, Lead(t, t[0].1), tot)[k].1 == 1 + CountIf(t, Outranked(t[k]))
  {
    HeadRank(t, k);
  }

  /** An item after the leading run outranks as many items in the whole
      series as in the rest. */
  lemma TailEntry(t: Series, k: nat)
    requires SortedDesc(t) && |t| > 0
    requires Lead(t, t[0].1) <= k < |t|
    ensures var n := Lead(t, t[0].1);
            t[n..][k - n] == t[k] &&
            CountIf(t, Outranked(t[k])) == CountIf(t[n..], Outranked(t[n..][k - n]))
  {
    LaterLower(t);
    TailRank(t, t[k]);
  }

  /** The items of the leading run are all present or all absent. */
  lemma PresentSplit(t: Series)
    requires |t| > 0
    ensures var n := Lead(t, t[0].1);
            CountIf(t, Present) == (if t[0].1 != 0 then n else 0) + CountIf(t[n..], Present)
  {
    CountIfSplit(t, Present, Lead(t, t[0].1));
    LeadRunPresent(t);
  }

  /** The leading run counts as occurring items exactly when its count is
      non-zero. */
  lemma LeadRunPresent(t: Series)
    requires |t| > 0
    ensures var n := Lead(t, t[0].1);
            CountIf(t[..n], Present) == if t[0].1 != 0 then n else 0
  {
    var n := Lead(t, t[0].1);
    var hi := if t[0].1 != 0 then n else 0;
    CountRange(t[..n], Present, 0, hi);
  }

  /** The group loop, unrolled once on a series: the leading run's ranks,
      then the loop over the rest; a leading zero-count run ends the loop. */
  lemma AssignFirstGroup(t: Series, tot: int)
    requires |t| > 0
    ensures var n := Lead(t, t[0].1);
            var out := Assign(t, RunLengths(t), tot);
            (t[0].1 != 0 ==> out == GroupRanks(t, n, tot) + Assign(t[n..], RunLengths(t[n..]), tot - n)) &&
            (t[0].1 == 0 ==> out == Assign(t, RunLengths(t[n..]), tot))
  {
    var c := t[0].1;
    var n := Lead(t, c);
    var groups := RunLengths(t);
    assert groups == [(c, n)] + RunLengths(t[n..]);
    assert groups[0] == (c, n) && groups[1..] == RunLengths(t[n..]);
  }

  /** The group loop gives the i-th sorted item one more than the number of
      items it outranks. */
  lemma {:induction false} AssignSpec(t: Series, tot: nat)
    requires SortedDesc(t) && LabelsDistinct(t)
    requires forall e :: e in t ==> e.0 != Gap
    requires tot == CountIf(t, Present)
    ensures var out := Assign(t, RunLengths(t), tot);
            |out| == tot &&
            forall k {:trigger out[k]} :: 0 <= k < tot ==>
              out[k].0 == t[k].0 && out[k].1 == 1 + CountIf(t, Outranked(t[k]))
    decreases |t|, 2
  {
    if |t| == 0 {
      CountRange(t, Present, 0, 0);
    } else if t[0].1 == 0 {
      AssignZeroRun(t, tot);
    } else {
      AssignNonzeroRun(t, tot);
    }
  }

  /** A series that starts with a zero count has no occurring item, and the
      group loop hands out nothing. */
  lemma AssignZeroRun(t: Series, tot: nat)
    requires SortedDesc(t) && |t| > 0 && t[0].1 == 0
    requires tot == CountIf(t, Present)
    ensures tot == 0 && Assign(t, RunLengths(t), tot) == []
  {
    var n := Lead(t, 0);
    PresentSplit(t);
    AssignFirstGroup(t, tot);
    LaterLower(t);
    assert n == |t|;
  }

  /** The group loop on a series whose leading run occurs: that run's ranks,
      then the ranks of the rest. */
  lemma {:induction false} AssignNonzeroRun(t: Series, tot: nat)
    requires SortedDesc(t) && LabelsDistinct(t) && |t| > 0 && t[0].1 != 0
    requires forall e :: e in t ==> e.0 != Gap
    requires tot == CountIf(t, Present)
    ensures var out := Assign(t, RunLengths(t), tot);
            |out| == tot &&
            forall k {:trigger out[k]} :: 0 <= k < tot ==>
              out[k].0 == t[k].0 && out[k].1 == 1 + CountIf(t, Outranked(t[k]))
    decreases |t|, 1
  {
    var n := Lead(t, t[0].1);
    var out := Assign(t, RunLengths(t), tot);
    PresentSplit(t);
    AssignFirstGroup(t, tot);
    RestSpec(t, tot);
    var rest := Assign(t[n..], RunLengths(t[n..]), tot - n);
    assert out == GroupRanks(t, n, tot) + rest;
    forall k | 0 <= k < tot ensures out[k].0 == t[k].0 && out[k].1 == 1 + CountIf(t, Outranked(t[k])) {
      if k < n {
        HeadEntry(t, tot, k);
      } else {
        assert out[k] == rest[k - n];
      }
    }
  }

  /** The group loop over the groups after the leading run ranks the items
      after it as they rank in the whole series. */
  lemma {:induction false} RestSpec(t: Series, tot: nat)
    requires SortedDesc(t) && LabelsDistinct(t) && |t| > 0 && t[0].1 > 0
    requires forall e :: e in t ==> e.0 != Gap
    requires tot == Lead(t, t[0].1) + CountIf(t[Lead(t, t[0].1)..], Present)
    ensures var n := Lead(t, t[0].1);
            var rest := Assign(t[n..], RunLengths(t[n..]), tot - n);
            |rest| == tot - n &&
            forall q {:trigger rest[q]} :: 0 <= q < tot - n ==>
              rest[q].0 == t[n + q].0 && rest[q].1 == 1 + CountIf(t, Outranked(t[n + q]))
    decreases |t|, 0
  {
    var n := Lead(t, t[0].1);
    SuffixFacts(t, n);
    AssignSpec(t[n..], tot - n);
    var rest := Assign(t[n..], RunLengths(t[n..]), tot - n);
    forall q | 0 <= q < tot - n ensures rest[q].0 == t[n + q].0 && rest[q].1 == 1 + CountIf(t, Outranked(t[n + q])) {
      TailEntry(t, n + q);
    }
  }

  /** In a sorted series the occurring items come first: the i-th item
      occurs exactly when i is below the number of occurring items. */
  lemma {:induction false} PresentPrefix(t: Series)
    requires SortedDesc(t)
    ensures forall q :: 0 <= q < |t| ==> (Present(t[q]) <==> q < CountIf(t, Present))
  {
    if |t| > 0 {
      if t[0].1 == 0 {
        forall q | 0 <= q < |t| ensures t[q].1 == 0 {
          assert !Precedes(t[q], t[0]);
        }
        CountRange(t, Present, 0, 0);
      } else {
        var u := t[1..];
        assert SortedDesc(u) by {
          forall i, j | 0 <= i < j < |u| ensures !Precedes(u[j], u[i]) {
            assert u[i] == t[i + 1] && u[j] == t[j + 1];
          }
        }
        PresentPrefix(u);
        assert forall q :: 1 <= q < |t| ==> t[q] == u[q - 1];
      }
    }
  }

  /** With distinct keys, `dict(pairs)` maps every key to its own value. */
  lemma {:induction false} ToDictValues(pairs: seq<(char, int)>)
    requires forall i, j :: 0 <= i < j < |pairs| ==> pairs[i].0 != pairs[j].0
    ensures forall k :: 0 <= k < |pairs| ==> ToDict(pairs)[pairs[k].0] == pairs[k].1
  {
    if |pairs| > 0 {
      var init := pairs[..|pairs| - 1];
      assert forall k :: 0 <= k < |init| ==> init[k] == pairs[k];
      ToDictValues(init);
    }
  }

  /** The pairs `rank_alphabet` turns into its dictionary: one per occurring
      symbol, in sorted order, each with one more than the number of items
      it outranks. */
  lemma RankedPairs(series: Series) returns (sorted: Series, out: seq<(char, int)>)
    requires LabelsDistinct(series)
    ensures sorted == SortDesc(DropGap(series))
    ensures RankAlphabet(series) == ToDict(out)[Gap := 0]
    ensures LabelsDistinct(sorted)
    ensures forall e :: e in sorted <==> e in series && e.0 != Gap
    ensures |out| <= |sorted|
    ensures forall q :: 0 <= q < |sorted| ==> (Present(sorted[q]) <==> q < |out|)
    ensures forall k :: 0 <= k < |out| ==>
              out[k].0 == sorted[k].0 && out[k].1 == 1 + CountIf(sorted, Outranked(sorted[k]))
  {
    sorted := SortDesc(DropGap(series));
    var groups := RunLengths(sorted);
    var tot := NonzeroTotal(groups);
    out := Assign(sorted, groups, tot);
    NonzeroTotalCounts(sorted);
    AssignSpec(sorted, tot);
    PresentPrefix(sorted);
  }

  /** `rank_alphabet` on a column with distinct symbols: the gap is ranked 0;
      a non-gap symbol is ranked exactly when it occurs; and its rank is one
      more than the number of occurring non-gap symbols it outranks. */
  lemma RankAlphabetSpec(series: Series)
    requires LabelsDistinct(series)
    ensures var ranks := RankAlphabet(series);
            Gap in ranks && ranks[Gap] == 0 &&
            (forall x :: x != Gap ==> (x in ranks <==> CountOf(series, x) > 0)) &&
            (forall x :: x in ranks && x != Gap ==> ranks[x] == LegacyRefRank(series, x))
  {
    var sorted, out := RankedPairs(series);
    forall x | x != Gap ensures x in RankAlphabet(series) <==> CountOf(series, x) > 0 {
      RankedDomain(series, sorted, out, x);
    }
    forall x | x in RankAlphabet(series) && x != Gap ensures RankAlphabet(series)[x] == LegacyRefRank(series, x) {
      RankedValue(series, sorted, out, x);
    }
  }

  /** A non-gap symbol gets a dictionary entry exactly when it occurs. */
  lemma RankedDomain(series: Series, sorted: Series, out: seq<(char, int)>, x: char)
    requires LabelsDistinct(series) && LabelsDistinct(sorted)
    requires forall e :: e in sorted <==> e in series && e.0 != Gap
    requires |out| <= |sorted|
    requires forall q :: 0 <= q < |sorted| ==> (Present(sorted[q]) <==> q < |out|)
    requires forall k :: 0 <= k < |out| ==> out[k].0 == sorted[k].0
    requires x != Gap
    ensures x in ToDict(out) <==> CountOf(series, x) > 0
  {
    if x in ToDict(out) {
      var k :| 0 <= k < |out| && out[k].0 == x;
      assert sorted[k] in sorted;
    }
    if CountOf(series, x) > 0 {
      var e := (x, CountOf(series, x));
      assert e in sorted;
      var k :| 0 <= k < |sorted| && sorted[k] == e;
      assert out[k].0 == x;
    }
  }

  /** The dictionary value of a ranked non-gap symbol is its reference rank. */
  lemma RankedValue(series: Series, sorted: Series, out: seq<(char, int)>, x: char)
    requires LabelsDistinct(series) && LabelsDistinct(sorted)
    requires forall e :: e in sorted <==> e in series && e.0 != Gap
    requires |out| <= |sorted|
    requires forall k :: 0 <= k < |out| ==>
               out[k].0 == sorted[k].0 && out[k].1 == 1 + CountIf(sorted, Outranked(sorted[k]))
    requires x in ToDict(out)
    ensures ToDict(out)[x] == LegacyRefRank(series, x)
  {
    KeysDistinct(sorted, out);
    ToDictValues(out);
    var k :| 0 <= k < |out| && out[k].0 == x;
    RankOfSorted(series, sorted, k);
  }

  /** Pairs keyed by a prefix of a series with distinct symbols have
      distinct keys. */
  lemma KeysDistinct(sorted: Series, out: seq<(char, int)>)
    requires LabelsDistinct(sorted) && |out| <= |sorted|
    requires forall k :: 0 <= k < |out| ==> out[k].0 == sorted[k].0
    ensures forall i, j :: 0 <= i < j < |out| ==> out[i].0 != out[j].0
  {
  }

  /** The rank computed for the k-th sorted item is its reference rank. */
  lemma RankOfSorted(series: Series, sorted: Series, k: nat)
    requires LabelsDistinct(series) && LabelsDistinct(sorted)
    requires forall e :: e in sorted <==> e in series && e.0 != Gap
    requires k < |sorted|
    ensures 1 + CountIf(sorted, Outranked(sorted[k])) == LegacyRefRank(series, sorted[k].0)
  {
    var x := sorted[k].0;
    assert sorted[k] in series;
    assert sorted[k] == (x, CountOf(series, x));
    var p := Outranked(sorted[k]);
    var chosen := set e | e in series && Outranked((x, CountOf(series, x)))(e);
    assert Distinct(sorted);
    DistinctCount(sorted, p, chosen);
  }
}
