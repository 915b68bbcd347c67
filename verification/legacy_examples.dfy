/** The two `rank_alphabet` examples of the unit tests, derived from the
    reference rank rather than by running the loop. */
module LegacyExamples {
  import opened AaMap
  import opened LegacyRanking
  import opened LegacyLaws

  /** A map that ranks the gap 0 and exactly the listed symbols by their
      reference rank is the result of `rank_alphabet`. */
  lemma RankAlphabetIs(series: Series, expected: map<char, int>)
    requires LabelsDistinct(series)
    requires Gap in expected && expected[Gap] == 0
    requires forall x :: x != Gap ==> (x in expected <==> CountOf(series, x) > 0)
    requires forall x :: x in expected && x != Gap ==> expected[x] == LegacyRefRank(series, x)
    ensures RankAlphabet(series) == expected
  {
    RankAlphabetSpec(series);
  }

  /** A symbol listed only with count 0, or not at all, has count 0. */
  lemma Absent(series: Series, x: char)
    requires forall e :: e in series && e.0 == x ==> e.1 == 0
    ensures CountOf(series, x) == 0
  {
    var n := CountOf(series, x);
    if n > 0 {
      assert (x, n) in series;
    }
  }

  /** The reference rank of `x` from the set of entries it outranks. */
  lemma RefRankFrom(series: Series, x: char, n: nat, below: set<Item>)
    requires CountOf(series, x) == n
    requires forall e :: e in below ==> e in series
    requires forall e :: e in series ==> (e in below <==> Beneath(x, n, e))
    ensures LegacyRefRank(series, x) == 1 + |below|
  {
    assert forall e :: Outranked((x, n))(e) == Beneath(x, n, e);
    assert below == set e | e in series && Outranked((x, n))(e);
  }

  /** `Outranked((x, n))(e)` as a plain predicate. */
  predicate Beneath(x: char, n: nat, e: Item) {
    e.0 != Gap && e.1 > 0 && (e.1 < n || (e.1 == n && e.0 > x))
  }

  const Pos5Ranks: map<char, int> := map['A' := 1, 'E' := 2, '-' := 0]
  const Pos4Ranks: map<char, int> := map['C' := 3, 'D' := 2, 'E' := 1, '-' := 0]

  /** Occurrence column `pos5` of the test table: gap 2, A 1, E 3, the rest 0;
      `rank_alphabet` gives {A: 1, E: 2, -: 0}. */
  lemma RankAlphabetPos5(series: Series)
    requires series == [('-', 2), ('A', 1), ('B', 0), ('C', 0), ('D', 0), ('E', 3)]
    ensures RankAlphabet(series) == map['A' := 1, 'E' := 2, '-' := 0]
  {
    Pos5Counts(series);
    Pos5ReferenceA(series);
    Pos5ReferenceE(series);
    Pos5References(series);
    RankAlphabetIs(series, Pos5Ranks);
  }

  lemma Pos5Counts(series: Series)
    requires series == [('-', 2), ('A', 1), ('B', 0), ('C', 0), ('D', 0), ('E', 3)]
    ensures LabelsDistinct(series)
    ensures CountOf(series, 'A') == 1 && CountOf(series, 'E') == 3
    ensures forall x :: x != Gap ==> (x in Pos5Ranks <==> CountOf(series, x) > 0)
  {
    assert ('A', 1) in series && ('E', 3) in series;
    forall x | x != Gap && x != 'A' && x != 'E' ensures CountOf(series, x) == 0 {
      Absent(series, x);
    }
  }

  /** The listed ranks of `pos5` are the reference ranks. */
  lemma Pos5References(series: Series)
    requires LegacyRefRank(series, 'A') == 1 && LegacyRefRank(series, 'E') == 2
    ensures forall x :: x in Pos5Ranks && x != Gap ==> Pos5Ranks[x] == LegacyRefRank(series, x)
  {
  }

  lemma Pos5ReferenceA(series: Series)
    requires series == [('-', 2), ('A', 1), ('B', 0), ('C', 0), ('D', 0), ('E', 3)]
    requires CountOf(series, 'A') == 1
    ensures LegacyRefRank(series, 'A') == 1
  {
    RefRankFrom(series, 'A', 1, {});
  }

  lemma Pos5ReferenceE(series: Series)
    requires series == [('-', 2), ('A', 1), ('B', 0), ('C', 0), ('D', 0), ('E', 3)]
    requires CountOf(series, 'E') == 3
    ensures LegacyRefRank(series, 'E') == 2
  {
    RefRankFrom(series, 'E', 3, {('A', 1)});
  }

  /** Occurrence column `pos4` of the test table: C 3, D 2, E 1, the rest 0;
      `rank_alphabet` gives {C: 3, D: 2, E: 1, -: 0}. */
  lemma RankAlphabetPos4(series: Series)
    requires series == [('-', 0), ('A', 0), ('B', 0), ('C', 3), ('D', 2), ('E', 1)]
    ensures RankAlphabet(series) == map['C' := 3, 'D' := 2, 'E' := 1, '-' := 0]
  {
    Pos4Counts(series);
    Pos4ReferenceC(series);
    Pos4ReferenceD(series);
    Pos4ReferenceE(series);
    Pos4References(series);
    RankAlphabetIs(series, Pos4Ranks);
  }

  lemma Pos4Counts(series: Series)
    requires series == [('-', 0), ('A', 0), ('B', 0), ('C', 3), ('D', 2), ('E', 1)]
    ensures LabelsDistinct(series)
    ensures CountOf(series, 'C') == 3 && CountOf(series, 'D') == 2 && CountOf(series, 'E') == 1
    ensures forall x :: x != Gap ==> (x in Pos4Ranks <==> CountOf(series, x) > 0)
  {
    assert ('C', 3) in series && ('D', 2) in series && ('E', 1) in series;
    forall x | x != Gap && x != 'C' && x != 'D' && x != 'E' ensures CountOf(series, x) == 0 {
      Absent(series, x);
    }
  }

  /** The listed ranks of `pos4` are the reference ranks. */
  lemma Pos4References(series: Series)
    requires LegacyRefRank(series, 'C') == 3 && LegacyRefRank(series, 'D') == 2 && LegacyRefRank(series, 'E') == 1
    ensures forall x :: x in Pos4Ranks && x != Gap ==> Pos4Ranks[x] == LegacyRefRank(series, x)
  {
  }

  lemma Pos4ReferenceC(series: Series)
    requires series == [('-', 0), ('A', 0), ('B', 0), ('C', 3), ('D', 2), ('E', 1)]
    requires CountOf(series, 'C') == 3
    ensures LegacyRefRank(series, 'C') == 3
  {
    RefRankFrom(series, 'C', 3, {('D', 2), ('E', 1)});
  }

  lemma Pos4ReferenceD(series: Series)
    requires series == [('-', 0), ('A', 0), ('B', 0), ('C', 3), ('D', 2), ('E', 1)]
    requires CountOf(series, 'D') == 2
    ensures LegacyRefRank(series, 'D') == 2
  {
    RefRankFrom(series, 'D', 2, {('E', 1)});
  }

  lemma Pos4ReferenceE(series: Series)
    requires series == [('-', 0), ('A', 0), ('B', 0), ('C', 3), ('D', 2), ('E', 1)]
    requires CountOf(series, 'E') == 1
    ensures LegacyRefRank(series, 'E') == 1
  {
    RefRankFrom(series, 'E', 1, {});
  }
}
