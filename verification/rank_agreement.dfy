/** The older pandas ranking of ProtPCA and the native engine used by the
    QIIME 2 plugin rank every alignment over the `AA_MAP` symbols alike:
    sorting symbols by count and then descending character, and ranking
    from the bottom, is the same as sorting codes by count and then
    ascending code, and ranking from the top, because the codes follow
    character order. */
module RankAgreement {
  import opened Results
  import opened Counting
  import opened Tables
  import opened Frames
  import opened Occurrences
  import opened AaMap
  import opened Engine
  import opened RankLaws
  import opened PluginRanking
  import opened LegacyTable

  /** Counting through a map that is one-to-one at `y` on the column. */
  lemma {:induction false} MappedCounts(s: seq<char>, t: seq<nat>, f: char -> nat, y: char)
    requires |t| == |s|
    requires forall k :: 0 <= k < |s| ==> t[k] == f(s[k]) && (f(s[k]) == f(y) ==> s[k] == y)
    ensures Occ(t, f(y)) == Count(s, y)
  {
    if |s| > 0 {
      var m := |s| - 1;
      MappedCounts(s[..m], t[..m], f, y);
      assert s == s[..m] + [s[m]] && t == t[..m] + [t[m]];
      CountSnoc(s[..m], s[m], y);
      OccSnoc(t[..m], t[m], f(y));
    }
  }

  lemma CountSnoc(s: seq<char>, v: char, y: char)
    ensures Count(s + [v], y) == Count(s, y) + if v == y then 1 else 0
  {
    assert multiset(s + [v]) == multiset(s) + multiset{v};
  }

  lemma OccSnoc(t: seq<nat>, v: nat, c: nat)
    ensures Occ(t + [v], c) == Occ(t, c) + if v == c then 1 else 0
  {
    assert multiset(t + [v]) == multiset(t) + multiset{v};
  }

  /** A symbol of the column is present in the encoded column, and a code of
      the encoded column is the code of one of its symbols. */
  lemma CodesOfColumn(s: seq<char>, t: seq<nat>)
    requires |t| == |s|
    requires forall k :: 0 <= k < |s| ==> Code(s[k]) == Some(t[k])
    ensures forall y :: y in s ==> y in Alphabet && Code(y).value in t
    ensures forall c :: c in t ==> exists y :: y in s && Code(y) == Some(c)
  {
    forall y | y in s ensures y in Alphabet && Code(y).value in t {
      var k :| 0 <= k < |s| && s[k] == y;
      assert t[k] == Code(y).value;
    }
    forall c | c in t ensures exists y :: y in s && Code(y) == Some(c) {
      var k :| 0 <= k < |t| && t[k] == c;
      assert s[k] in s;
    }
  }

  /** The symbol-level reference rank equals the code-level reference rank
      of the symbol's code. */
  lemma SymbolRankIsRefRank(s: seq<char>, t: seq<nat>, x: char)
    requires |t| == |s| && x in s
    requires forall k :: 0 <= k < |s| ==> Code(s[k]) == Some(t[k])
    ensures SymbolRank(s, x) == RefRank(t, Code(x).value)
  {
    CodesOfColumn(s, t);
    CodeValueOrder(s);
    CodeValueGap(s);
    MappedRank(s, t, CodeValue, x);
  }

  /** The code of a symbol, 0 outside the alphabet. */
  function CodeValue(c: char): nat {
    if c in Alphabet then Code(c).value else 0
  }

  /** On symbols of the alphabet, codes are one-to-one and keep the order. */
  lemma CodeValueOrder(s: seq<char>)
    requires forall y :: y in s ==> y in Alphabet
    ensures forall a, b :: a in s && b in s ==>
              (CodeValue(a) == CodeValue(b) <==> a == b) && (CodeValue(a) < CodeValue(b) <==> a < b)
  {
    forall a, b | a in s && b in s
      ensures (CodeValue(a) == CodeValue(b) <==> a == b) && (CodeValue(a) < CodeValue(b) <==> a < b)
    {
      CodeMonotone(a, b);
    }
  }

  /** On symbols of the alphabet, only the gap has code 0. */
  lemma CodeValueGap(s: seq<char>)
    requires forall y :: y in s ==> y in Alphabet
    ensures forall a :: a in s ==> (CodeValue(a) == 0 <==> a == Gap)
  {
    forall a | a in s ensures CodeValue(a) == 0 <==> a == Gap {
      GapOnlyZero(a);
    }
  }

  /** Reference ranks carry over through any map that is one-to-one and
      order-preserving on the column and sends exactly the gap to 0. */
  lemma MappedRank(s: seq<char>, t: seq<nat>, f: char -> nat, x: char)
    requires |t| == |s| && x in s
    requires forall k :: 0 <= k < |s| ==> t[k] == f(s[k])
    requires forall a, b :: a in s && b in s ==> (f(a) == f(b) <==> a == b) && (f(a) < f(b) <==> a < b)
    requires forall a :: a in s ==> (f(a) == 0 <==> a == Gap)
    ensures SymbolRank(s, x) == RefRank(t, f(x))
  {
    if x != Gap {
      var symbols := set y | y in s && y != Gap && Beats(s, x, y);
      var codes := set c: nat | c in t && c != 0 && Outranks(t, f(x), c);
      MappedCountsAll(s, t, f);
      MappedImage(s, t, f, x, symbols, codes);
      InjectiveImage(symbols, f, codes);
    }
  }

  /** Every symbol of the column occurs as often as its image in the mapped column. */
  lemma MappedCountsAll(s: seq<char>, t: seq<nat>, f: char -> nat)
    requires |t| == |s|
    requires forall k :: 0 <= k < |s| ==> t[k] == f(s[k])
    requires forall a, b :: a in s && b in s ==> (f(a) == f(b) <==> a == b)
    ensures forall y :: y in s ==> Occ(t, f(y)) == Count(s, y)
  {
    forall y | y in s ensures Occ(t, f(y)) == Count(s, y) {
      forall k | 0 <= k < |s| ensures f(s[k]) == f(y) ==> s[k] == y {
        assert s[k] in s;
      }
      MappedCounts(s, t, f, y);
    }
  }

  /** The codes `f(x)` outranks are exactly the images of the symbols `x` beats. */
  lemma MappedImage(s: seq<char>, t: seq<nat>, f: char -> nat, x: char, symbols: set<char>, codes: set<nat>)
    requires |t| == |s| && x in s && x != Gap
    requires forall k :: 0 <= k < |s| ==> t[k] == f(s[k])
    requires forall a, b :: a in s && b in s ==> (f(a) == f(b) <==> a == b) && (f(a) < f(b) <==> a < b)
    requires forall a :: a in s ==> (f(a) == 0 <==> a == Gap)
    requires forall y :: y in s ==> Occ(t, f(y)) == Count(s, y)
    requires symbols == set y | y in s && y != Gap && Beats(s, x, y)
    requires codes == set c: nat | c in t && c != 0 && Outranks(t, f(x), c)
    ensures forall y :: y in symbols ==> f(y) in codes
    ensures forall c :: c in codes ==> exists y :: y in symbols && f(y) == c
  {
    forall y | y in symbols ensures f(y) in codes {
      var k :| 0 <= k < |s| && s[k] == y;
      assert t[k] == f(y);
    }
    forall c | c in codes ensures exists y :: y in symbols && f(y) == c {
      var k :| 0 <= k < |t| && t[k] == c;
      assert s[k] in s && s[k] in symbols;
    }
  }

  /** Both rankings agree cell by cell: on an alignment of `AA_MAP` symbols,
      `rank_all_columns` replaces each cell by the very rank the plugin's
      `_rank_columns` computes for it. */
  lemma LegacyAgreesWithEngine(aln: Frame<string, char>, order: seq<char>, j: nat, i: nat)
    requires aln.WellFormed() && SymbolOrder(order, aln.cells) && AllMapped(aln.cells) && j < |aln.cells| && i < |aln.columns|
    ensures RankColumns(aln).Ok?
    ensures RankAllColumns(aln, order).cells[j][i] == Ranked(RankColumns(aln).value.cells[j][i])
  {
    var codes := Encode(aln.cells).value;
    var s := Column(aln.cells, i);
    var t := Column(codes, i);
    EncodedColumnBound(aln, codes, i);
    assert forall k :: 0 <= k < |s| ==> Code(s[k]) == Some(t[k]);
    assert s[j] == aln.cells[j][i];
    RankAllColumnsSpec(aln, order, j, i);
    RankedCell(aln, j, i);
    SymbolRankIsRefRank(s, t, aln.cells[j][i]);
  }
}
