/** The list logic of the older ProtPCA alignment step
    (`ProtPCA/alignment.py`): the end of the slice window taken from the
    longest sequence, the per-sequence slice bounds read from the positions
    file (or defaulted), and the cutting of each sequence to its window.
    Reading the configuration and the FASTA file, and running the aligner,
    are not modelled: the ids, sequences and file lines arrive as
    parameters. */
module ProtAlign {
  import opened Results
  import opened Text

  /** A slice bound: a number from the configuration, or a field of a
      line of the positions file, which stays text. */
  datatype Bound = Number(n: int) | Field(text: string)

  datatype AlignError =
    | NoSequences          // `max()` of the lengths of no sequences
    | NotANumber(text: string)  // `int()` of text that is not an integer
    | SequenceMismatch     // ids, sequences and positions differ in number
    | MissingEnd           // `x[1]` of a positions line without a comma: IndexError
    | TextArithmetic       // `Slice_end - Slice_start` on text bounds: TypeError

  // ---------------------------------------------------------------------
  // sequence_end

  /** The largest of the lengths. */
  function MaxOf(lens: seq<nat>): (m: nat)
    requires |lens| > 0
    ensures forall k :: 0 <= k < |lens| ==> lens[k] <= m
    ensures m in lens
  {
    if |lens| == 1 then lens[0]
    else
      var rest := MaxOf(lens[1..]);
      assert forall k :: 1 <= k < |lens| ==> lens[k] == lens[1..][k - 1];
      if lens[0] >= rest then lens[0] else rest
  }

  /** The configured end of the slice window: the longest sequence's length
      when configured as -1. The maximum (and the minimum) of the lengths is
      taken in any case, so no sequences at all is an error. */
  function SequenceEnd(configured: int, lens: seq<nat>): (r: Result<int, AlignError>)
    ensures r.Ok? <==> |lens| > 0
    ensures r.Err? ==> r.error == NoSequences
    ensures r.Ok? && configured != -1 ==> r.value == configured
    ensures r.Ok? && configured == -1 ==>
              r.value in lens && forall k :: 0 <= k < |lens| ==> lens[k] <= r.value
  {
    if |lens| == 0 then Err(NoSequences)
    else
      var longest := MaxOf(lens);
      Ok(if configured == -1 then longest else configured)
  }

  // ---------------------------------------------------------------------
  // slice_sequence

  /** The integer a bound stands for: `int(b.strip())` for text, `int(b)`
      for a number. The `AttributeError` fallback gives the same values,
      since `int` ignores surrounding whitespace itself. */
  function BoundValue(b: Bound): (r: Result<int, AlignError>)
    ensures b.Number? ==> r == Ok(b.n)
    ensures b.Field? ==> (r.Ok? <==> ParseInt(b.text).Some?)
    ensures b.Field? && r.Ok? ==> Some(r.value) == ParseInt(b.text)
    ensures b.Field? && r.Err? ==> r.error == NotANumber(b.text)
  {
    match b
    case Number(n) => Ok(n)
    case Field(t) =>
      match ParseInt(t)
      case Some(v) => Ok(v)
      case None => Err(NotANumber(t))
  }

  /** Python's normalisation of a slice index for a sequence of length `n`:
      a negative index counts from the end, and the result is clamped to
      0..n. */
  function SliceIndex(i: int, n: nat): (k: nat)
    ensures k <= n
  {
    if i < 0 then (if i + n < 0 then 0 else i + n) else if i > n then n else i
  }

  /** Python's `s[i:j]`. */
  function PySlice(s: string, i: int, j: int): (r: string)
    ensures exists a, b :: 0 <= a <= b <= |s| && r == s[a..b]
  {
    var a, b := SliceIndex(i, |s|), SliceIndex(j, |s|);
    assert s[a..a] == "";
    if a < b then s[a..b] else ""
  }

  /** `slice_sequence`: the 1-based, inclusive window `start..end` of the
      sequence as the Python slice `[start - 1:end]`, or the whole sequence
      when `end` lies past its end. */
  function SliceSequence(sequence: string, start: Bound, end: Bound): (r: Result<string, AlignError>)
    ensures r.Ok? <==> BoundValue(start).Ok? && BoundValue(end).Ok?
    ensures r.Ok? ==> exists a, b :: 0 <= a <= b <= |sequence| && r.value == sequence[a..b]
  {
    var first :- BoundValue(start);
    var last :- BoundValue(end);
    var pos0, pos1 := first - 1, last;
    assert sequence[0..|sequence|] == sequence;
    Ok(if pos1 <= |sequence| then PySlice(sequence, pos0, pos1) else sequence)
  }

  /** A window inside the sequence is cut out exactly: positions `start`
      through `end`, counted from 1. */
  lemma SliceInside(s: string, start: int, end: int)
    requires 1 <= start && start - 1 <= end <= |s|
    ensures SliceSequence(s, Number(start), Number(end)) == Ok(s[start - 1..end])
    ensures |s[start - 1..end]| == end - start + 1
  {
  }

  /** An end past the sequence leaves it whole, whatever the start. */
  lemma SliceBeyond(s: string, start: int, end: int)
    requires end > |s|
    ensures SliceSequence(s, Number(start), Number(end)) == Ok(s)
  {
  }

  /** A start of 0 becomes the index -1, the last residue: the window is
      that residue alone when it ends at the last residue, and empty when it
      ends earlier. */
  lemma SliceStartZero(s: string, end: int)
    requires |s| > 0 && 0 <= end <= |s|
    ensures SliceSequence(s, Number(0), Number(end)) == Ok(if end == |s| then [s[|s| - 1]] else "")
  {
    if end == |s| {
      assert s[|s| - 1..|s|] == [s[|s| - 1]];
    }
  }

  /** Text bounds slice as the numbers they spell, surrounding whitespace
      included. */
  lemma SliceText(s: string, start: string, end: string)
    requires ParseInt(start).Some? && ParseInt(end).Some?
    ensures SliceSequence(s, Field(start), Field(end)) ==
              SliceSequence(s, Number(ParseInt(start).value), Number(ParseInt(end).value))
  {
  }

  /** With the window 1..longest, every sequence is kept whole. */
  lemma DefaultWindowWhole(s: string, longest: nat)
    requires |s| <= longest
    ensures SliceSequence(s, Number(1), Number(longest)) == Ok(s)
  {
    if longest == |s| {
      assert s[0..|s|] == s;
    }
  }

  // ---------------------------------------------------------------------
  // read_aln_positions

  /** The texts of a list of fields read from a file. */
  function Texts(fields: seq<Bound>): (ts: seq<string>)
    requires forall k :: 0 <= k < |fields| ==> fields[k].Field?
    ensures |ts| == |fields| && forall k :: 0 <= k < |ts| ==> ts[k] == fields[k].text
  {
    seq(|fields|, k requires 0 <= k < |fields| => fields[k].text)
  }

  /** One line of the positions file: `tuple(x.strip().split(','))`. The
      fields are comma-free and, joined with commas, give back the stripped
      line, so they are exactly its comma-separated pieces. */
  function ParseLine(line: string): (fields: seq<Bound>)
    ensures |fields| >= 1
    ensures forall k :: 0 <= k < |fields| ==> fields[k].Field? && ',' !in fields[k].text
    ensures Join(Texts(fields), ',') == Strip(line)
  {
    var parts := Split(Strip(line), ',');
    assert forall k :: 0 <= k < |parts| ==> parts[k] in parts;
    var fields := seq(|parts|, k requires 0 <= k < |parts| => Field(parts[k]));
    assert Texts(fields) == parts;
    fields
  }

  /** The positions list: one entry per line of the file; with no lines, or
      no file at all, the pair (sequence_start, sequence_end) for every id. */
  function Positions(file: Option<seq<string>>, ids: seq<string>, start: int, end: int): (ps: seq<seq<Bound>>)
    ensures file.Some? && |file.value| > 0 ==>
              |ps| == |file.value| && forall k :: 0 <= k < |ps| ==> ps[k] == ParseLine(file.value[k])
    ensures file.None? || |file.value| == 0 ==>
              |ps| == |ids| && forall k :: 0 <= k < |ps| ==> ps[k] == [Number(start), Number(end)]
  {
    var lines := if file.Some? then file.value else [];
    if |lines| > 0 then seq(|lines|, k requires 0 <= k < |lines| => ParseLine(lines[k]))
    else seq(|ids|, k requires 0 <= k < |ids| => [Number(start), Number(end)])
  }

  /** A row of the sequence table after `read_aln_positions`: the slice
      bounds and `Slice_length`. */
  datatype Slice = Slice(start: Bound, end: Bound, length: int)

  /** Every entry has a second field. */
  predicate HasEnds(ps: seq<seq<Bound>>) {
    forall k :: 0 <= k < |ps| ==> |ps[k]| >= 2
  }

  /** `Slice_end - Slice_start` as written: numbers subtract, text does not. */
  function LengthsAsWritten(ps: seq<seq<Bound>>): (r: Result<seq<int>, AlignError>)
    requires HasEnds(ps)
    ensures r.Ok? <==> forall k :: 0 <= k < |ps| ==> ps[k][0].Number? && ps[k][1].Number?
    ensures r.Ok? ==> (|r.value| == |ps| && forall k :: 0 <= k < |ps| ==> r.value[k] == ps[k][1].n - ps[k][0].n)
    ensures r.Err? ==> r.error == TextArithmetic
  {
    if forall k :: 0 <= k < |ps| ==> ps[k][0].Number? && ps[k][1].Number? then
      Ok(seq(|ps|, k requires 0 <= k < |ps| => ps[k][1].n - ps[k][0].n))
    else Err(TextArithmetic)
  }

  /** `read_aln_positions` as written: the positions list, the count check,
      the two bound columns, and their difference. */
  function ReadAlnPositionsAsWritten(ids: seq<string>, seqs: seq<string>, file: Option<seq<string>>,
                                     start: int, end: int): (r: Result<seq<Slice>, AlignError>)
    ensures var ps := Positions(file, ids, start, end);
            (r == Err(SequenceMismatch) <==> !(|ids| == |seqs| == |ps|)) &&
            (r == Err(MissingEnd) <==> |ids| == |seqs| == |ps| && !HasEnds(ps)) &&
            (r.Ok? <==> |ids| == |seqs| == |ps| && HasEnds(ps) &&
                        forall k :: 0 <= k < |ps| ==> ps[k][0].Number? && ps[k][1].Number?)
    ensures r.Ok? ==> |r.value| == |ids| == |seqs|
  {
    var ps := Positions(file, ids, start, end);
    if !(|ids| == |seqs| == |ps|) then Err(SequenceMismatch)
    else if !HasEnds(ps) then Err(MissingEnd)
    else
      var lengths :- LengthsAsWritten(ps);
      Ok(seq(|ps|, k requires 0 <= k < |ps| => Slice(ps[k][0], ps[k][1], lengths[k])))
  }

  /** The defect: whenever the positions file has lines, their fields are
      text, and reading the positions fails, even for well-formed lines. */
  lemma FileNeverAccepted(ids: seq<string>, seqs: seq<string>, lines: seq<string>, start: int, end: int)
    requires |lines| > 0
    ensures ReadAlnPositionsAsWritten(ids, seqs, Some(lines), start, end).Err?
  {
    var ps := Positions(Some(lines), ids, start, end);
    if |ids| == |seqs| == |ps| && HasEnds(ps) {
      assert ps[0] == ParseLine(lines[0]);
      assert ps[0][0].Field?;
    }
  }

  /** `Slice_end - Slice_start` on the integers the bounds stand for. */
  function Lengths(ps: seq<seq<Bound>>): (r: Result<seq<int>, AlignError>)
    requires HasEnds(ps)
    ensures r.Ok? <==> forall k :: 0 <= k < |ps| ==> BoundValue(ps[k][0]).Ok? && BoundValue(ps[k][1]).Ok?
    ensures r.Ok? ==> (|r.value| == |ps| &&
              forall k :: 0 <= k < |ps| ==> r.value[k] == BoundValue(ps[k][1]).value - BoundValue(ps[k][0]).value)
    ensures r.Err? ==> r.error.NotANumber?
    decreases |ps|
  {
    if |ps| == 0 then Ok([])
    else
      var first :- BoundValue(ps[0][0]);
      var last :- BoundValue(ps[0][1]);
      assert forall k :: 1 <= k < |ps| ==> ps[k] == ps[1..][k - 1];
      var rest :- Lengths(ps[1..]);
      Ok([last - first] + rest)
  }

  /** `read_aln_positions` with the slice length taken between the integer
      values of the bounds, as `slice_sequence` reads them. */
  function ReadAlnPositions(ids: seq<string>, seqs: seq<string>, file: Option<seq<string>>,
                            start: int, end: int): (r: Result<seq<Slice>, AlignError>)
    ensures var ps := Positions(file, ids, start, end);
            (r == Err(SequenceMismatch) <==> !(|ids| == |seqs| == |ps|)) &&
            (r == Err(MissingEnd) <==> |ids| == |seqs| == |ps| && !HasEnds(ps)) &&
            (r.Ok? <==> |ids| == |seqs| == |ps| && HasEnds(ps) &&
                        forall k :: 0 <= k < |ps| ==> BoundValue(ps[k][0]).Ok? && BoundValue(ps[k][1]).Ok?)
    ensures r.Ok? ==> |r.value| == |ids| == |seqs|
    ensures r.Ok? ==> var ps := Positions(file, ids, start, end);
              forall k :: 0 <= k < |r.value| ==>
                r.value[k].start == ps[k][0] && r.value[k].end == ps[k][1] &&
                r.value[k].length == BoundValue(ps[k][1]).value - BoundValue(ps[k][0]).value
  {
    var ps := Positions(file, ids, start, end);
    if !(|ids| == |seqs| == |ps|) then Err(SequenceMismatch)
    else if !HasEnds(ps) then Err(MissingEnd)
    else
      var lengths :- Lengths(ps);
      Ok(seq(|ps|, k requires 0 <= k < |ps| => Slice(ps[k][0], ps[k][1], lengths[k])))
  }

  /** Without positions lines, every sequence gets the configured window,
      and reading succeeds exactly when there are as many ids as sequences. */
  lemma DefaultPositions(ids: seq<string>, seqs: seq<string>, file: Option<seq<string>>, start: int, end: int)
    requires file.None? || |file.value| == 0
    ensures ReadAlnPositions(ids, seqs, file, start, end).Ok? <==> |ids| == |seqs|
    ensures ReadAlnPositions(ids, seqs, file, start, end).Ok? ==>
              forall k :: 0 <= k < |ids| ==>
                ReadAlnPositions(ids, seqs, file, start, end).value[k] == Slice(Number(start), Number(end), end - start)
  {
  }

  /** The positions line "1,3" (with its line end) holds the text bounds
      "1" and "3". */
  lemma ExampleLine(line: string)
    requires line == "1,3\n"
    ensures ParseLine(line) == [Field("1"), Field("3")]
  {
    ExampleStrip(line);
    ExampleSplit("1,3");
    var parts := Split("1,3", ',');
    assert ParseLine(line) == seq(|parts|, k requires 0 <= k < |parts| => Field(parts[k]));
  }

  lemma ExampleStrip(line: string)
    requires line == "1,3\n"
    ensures Strip(line) == "1,3"
  {
    assert LeadingSpace(line) == 0;
    assert line[0..] == line;
    assert line[..|line| - 1] == "1,3";
    assert TrailingSpace("1,3") == 0;
    assert TrailingSpace(line) == 1;
  }

  lemma ExampleSplit(t: string)
    requires t == "1,3"
    ensures Split(t, ',') == ["1", "3"]
  {
    var parts := ["1", "3"];
    assert parts[1..] == ["3"];
    assert Join(parts[1..], ',') == "3";
    assert Join(parts, ',') == "1" + [','] + "3";
    assert "1" + [','] + "3" == t;
    assert forall p :: p in parts ==> ',' !in p;
    SplitJoin(parts, ',');
  }

  /** The positions list of the one-line file "1,3". */
  lemma ExamplePositions(file: Option<seq<string>>, ids: seq<string>)
    requires file == Some(["1,3\n"]) && ids == ["s1"]
    ensures Positions(file, ids, 1, -1) == [[Field("1"), Field("3")]]
  {
    ExampleLine("1,3\n");
  }

  /** A one-sequence run with the positions line "1,3" fails with a
      TypeError instead of slicing positions 1 to 3. */
  lemma FileCounterexample(ids: seq<string>, seqs: seq<string>, file: Option<seq<string>>)
    requires ids == ["s1"] && seqs == ["MKVL"] && file == Some(["1,3\n"])
    ensures ReadAlnPositionsAsWritten(ids, seqs, file, 1, -1) == Err(TextArithmetic)
  {
    ExamplePositions(file, ids);
    var ps := Positions(file, ids, 1, -1);
    assert HasEnds(ps) && ps[0][0].Field?;
    assert LengthsAsWritten(ps) == Err(TextArithmetic);
  }

  /** The positions line "1,3" reads as the window 1..3, of length 2. */
  lemma FileExample(ids: seq<string>, seqs: seq<string>, file: Option<seq<string>>)
    requires ids == ["s1"] && seqs == ["MKVL"] && file == Some(["1,3\n"])
    ensures ReadAlnPositions(ids, seqs, file, 1, -1) == Ok([Slice(Field("1"), Field("3"), 2)])
  {
    ExamplePositions(file, ids);
    ExampleBounds();
    OneWindow(ids, seqs, file, 1, -1, Field("1"), Field("3"), 1, 3);
  }

  /** One sequence with one positions line of two readable bounds. */
  lemma OneWindow(ids: seq<string>, seqs: seq<string>, file: Option<seq<string>>, start: int, end: int,
                  a: Bound, b: Bound, x: int, y: int)
    requires |ids| == |seqs| == 1 && Positions(file, ids, start, end) == [[a, b]]
    requires BoundValue(a) == Ok(x) && BoundValue(b) == Ok(y)
    ensures ReadAlnPositions(ids, seqs, file, start, end) == Ok([Slice(a, b, y - x)])
  {
    var ps := Positions(file, ids, start, end);
    assert HasEnds(ps);
    var r := ReadAlnPositions(ids, seqs, file, start, end);
    assert r.Ok? && |r.value| == 1;
    var w := r.value[0];
    assert w.start == a && w.end == b && w.length == y - x;
    assert w == Slice(a, b, y - x);
    assert r.value == [w];
  }

  lemma ExampleBounds()
    ensures BoundValue(Field("1")) == Ok(1) && BoundValue(Field("3")) == Ok(3)
  {
    ParseIntToString(1);
    ParseIntToString(3);
    assert NatToString(1) == "1" && NatToString(3) == "3";
  }

  // ---------------------------------------------------------------------
  // generate_sequence_slices

  /** `generate_sequence_slices`: every sequence cut to its own window. */
  function SliceAll(seqs: seq<string>, slices: seq<Slice>): (r: Result<seq<string>, AlignError>)
    requires |slices| == |seqs|
    ensures r.Ok? <==> forall k :: 0 <= k < |seqs| ==> SliceSequence(seqs[k], slices[k].start, slices[k].end).Ok?
    ensures r.Ok? ==> (|r.value| == |seqs| &&
              forall k :: 0 <= k < |seqs| ==> r.value[k] == SliceSequence(seqs[k], slices[k].start, slices[k].end).value)
    decreases |seqs|
  {
    if |seqs| == 0 then Ok([])
    else
      var first :- SliceSequence(seqs[0], slices[0].start, slices[0].end);
      assert forall k :: 1 <= k < |seqs| ==> seqs[k] == seqs[1..][k - 1] && slices[k] == slices[1..][k - 1];
      var rest :- SliceAll(seqs[1..], slices[1..]);
      Ok([first] + rest)
  }

  /** With no positions file and the window 1..longest (sequence_start 1,
      sequence_end -1), every sequence is kept whole. */
  lemma DefaultRunKeepsSequences(ids: seq<string>, seqs: seq<string>)
    requires |ids| == |seqs| > 0
    ensures var lens := seq(|seqs|, k requires 0 <= k < |seqs| => |seqs[k]|);
            var end := SequenceEnd(-1, lens);
            end.Ok? &&
            ReadAlnPositions(ids, seqs, None, 1, end.value).Ok? &&
            SliceAll(seqs, ReadAlnPositions(ids, seqs, None, 1, end.value).value) == Ok(seqs)
  {
    var lens := seq(|seqs|, k requires 0 <= k < |seqs| => |seqs[k]|);
    var longest := SequenceEnd(-1, lens).value;
    var slices := ReadAlnPositions(ids, seqs, None, 1, longest).value;
    DefaultPositions(ids, seqs, None, 1, longest);
    forall k | 0 <= k < |seqs| ensures SliceSequence(seqs[k], slices[k].start, slices[k].end) == Ok(seqs[k]) {
      assert lens[k] <= longest;
      DefaultWindowWhole(seqs[k], longest);
    }
    var r := SliceAll(seqs, slices);
    assert r.value == seqs;
  }
}
