/** `_map_positions` of the QIIME 2 plugin: for every aligned sequence, each
    alignment column is mapped to the 0-based position of its residue in the
    sequence without gaps, or to null where the sequence has a gap. */
module PositionMap {
  import opened Results
  import opened Counting
  import opened Frames
  import opened AaMap

  /** An aligned sequence with its id. */
  datatype AlignedRecord = AlignedRecord(id: string, residues: string)

  /** Only '-' is a gap; every other character is a residue. */
  function IsResidue(c: char): bool {
    c != Gap
  }

  function IsMapped(o: Option<nat>): bool {
    o.Some?
  }

  /** The sequence with its gaps removed. */
  function Degap(s: string): (r: string)
    ensures |r| == CountIf(s, IsResidue)
    ensures forall c :: c in r ==> c != Gap
  {
    if |s| == 0 then ""
    else if s[0] != Gap then [s[0]] + Degap(s[1..])
    else Degap(s[1..])
  }

  /** The mapped column of `s` when its first residue is numbered `next`:
      residues are numbered consecutively from left to right, gaps are null. */
  function MapFrom(s: string, next: nat): (col: seq<Option<nat>>)
    ensures |col| == |s|
    ensures forall p :: 0 <= p < |s| ==> (col[p].None? <==> s[p] == Gap)
  {
    if |s| == 0 then []
    else if s[0] == Gap then [None] + MapFrom(s[1..], next)
    else [Some(next)] + MapFrom(s[1..], next + 1)
  }

  /** The mapping of one aligned sequence. */
  function MapSequence(s: string): (col: seq<Option<nat>>)
    ensures |col| == |s|
    ensures forall p :: 0 <= p < |s| ==> (col[p].None? <==> s[p] == Gap)
  {
    MapFrom(s, 0)
  }

  /** A residue is numbered by the residues before it. */
  lemma {:induction false} MapFromValue(s: string, next: nat, p: nat)
    requires p < |s| && s[p] != Gap
    ensures MapFrom(s, next)[p] == Some(next + CountIf(s[..p], IsResidue))
  {
    if p > 0 {
      var step := if s[0] == Gap then 0 else 1;
      MapFromValue(s[1..], next + step, p - 1);
      CountIfPrefix(s, IsResidue, p);
    }
  }

  /** The value at alignment position `p` is the number of residues before
      `p`: the 0-based position of the residue in the ungapped sequence. */
  lemma MapSequenceValue(s: string, p: nat)
    requires p < |s| && s[p] != Gap
    ensures MapSequence(s)[p] == Some(CountIf(s[..p], IsResidue))
  {
    MapFromValue(s, 0, p);
  }

  /** Round trip: the position a residue is mapped to holds that same
      residue in the ungapped sequence. */
  lemma {:induction false} DegapAt(s: string, p: nat)
    requires p < |s| && s[p] != Gap
    ensures MapSequence(s)[p].value < |Degap(s)|
    ensures Degap(s)[MapSequence(s)[p].value] == s[p]
  {
    MapSequenceValue(s, p);
    DegapIndex(s, p);
  }

  lemma {:induction false} DegapIndex(s: string, p: nat)
    requires p < |s| && s[p] != Gap
    ensures CountIf(s[..p], IsResidue) < |Degap(s)|
    ensures Degap(s)[CountIf(s[..p], IsResidue)] == s[p]
  {
    if p > 0 {
      DegapIndex(s[1..], p - 1);
      CountIfPrefix(s, IsResidue, p);
    }
  }

  /** Consecutive numbering: the next residue after `p` (with only gaps in
      between) is numbered one higher. */
  lemma Consecutive(s: string, p: nat, q: nat)
    requires p < q < |s| && s[p] != Gap && s[q] != Gap
    requires forall k :: p < k < q ==> s[k] == Gap
    ensures MapSequence(s)[q].value == MapSequence(s)[p].value + 1
  {
    MapSequenceValue(s, p);
    MapSequenceValue(s, q);
    var pre := s[..q];
    CountIfSplit(pre, IsResidue, p);
    assert pre[..p] == s[..p];
    var mid := pre[p..];
    CountIfSplit(mid, IsResidue, 1);
    assert mid[..1] == [s[p]];
    CountRange(mid[1..], IsResidue, 0, 0);
  }

  /** The mapping numbers exactly as many positions as the sequence has
      residues. */
  lemma {:induction false} MappedCount(s: string, next: nat)
    ensures CountIf(MapFrom(s, next), IsMapped) == CountIf(s, IsResidue)
  {
    if |s| > 0 {
      var step := if s[0] == Gap then 0 else 1;
      MappedCount(s[1..], next + step);
      assert MapFrom(s, next)[1..] == MapFrom(s[1..], next + step);
    }
  }

  /** The length of the longest sequence: the number of rows of the
      concatenated frame. */
  function MaxLength(records: seq<AlignedRecord>): (n: nat)
    ensures forall c :: 0 <= c < |records| ==> |records[c].residues| <= n
    ensures |records| > 0 ==> exists c :: 0 <= c < |records| && |records[c].residues| == n
    ensures |records| == 0 ==> n == 0
  {
    if |records| == 0 then 0
    else
      var rest := MaxLength(records[1..]);
      assert forall c :: 1 <= c < |records| ==> records[c] == records[1..][c - 1];
      if |records[0].residues| >= rest then |records[0].residues| else rest
  }

  /** Cell `p` of a sequence's column; a shorter sequence is null-padded by
      the outer join of `pd.concat`. */
  function MappedCell(r: AlignedRecord, p: nat): Option<nat> {
    if p < |r.residues| then MapSequence(r.residues)[p] else None
  }

  /** `_map_positions`: one column per sequence id in input order, one row
      per alignment position 0, 1, ..., with the index named
      'Alignment position'. */
  function MapPositions(records: seq<AlignedRecord>): (f: Frame<nat, Option<nat>>)
    ensures f.WellFormed()
    ensures |f.columns| == |records| && forall c :: 0 <= c < |records| ==> f.columns[c] == records[c].id
    ensures |f.index| == MaxLength(records) && forall p :: 0 <= p < |f.index| ==> f.index[p] == p
    ensures f.indexName == Some("Alignment position")
  {
    var n := MaxLength(records);
    Frame(seq(n, p requires 0 <= p < n => p), Some("Alignment position"),
          seq(|records|, c requires 0 <= c < |records| => records[c].id),
          seq(n, p requires 0 <= p < n => seq(|records|, c requires 0 <= c < |records| => MappedCell(records[c], p))))
  }

  /** A cell of the position map is null exactly at a gap (or past the end
      of a shorter sequence), and otherwise the number of residues before
      that alignment position. */
  lemma MapPositionsCell(records: seq<AlignedRecord>, p: nat, c: nat)
    requires p < MaxLength(records) && c < |records|
    ensures var s := records[c].residues;
            var cell := MapPositions(records).cells[p][c];
            (cell.None? <==> p >= |s| || s[p] == Gap) &&
            (cell.Some? ==> cell.value == CountIf(s[..p], IsResidue))
  {
    var s := records[c].residues;
    if p < |s| && s[p] != Gap {
      MapSequenceValue(s, p);
    }
  }
}
