/** The small helpers of the older ProtPCA code (`ProtPCA/helpers.py`):
    splitting a string into characters, the line-based FASTA reader, the
    distinct values of every column, zero-padded labels, and the
    translation of selected alignment positions into positions of the raw
    sequence. */
module Helpers {
  import opened Results
  import opened Text
  import opened Counting
  import opened Tables
  import opened Frames
  import opened AaMap
  import opened PositionMap

  // ---------------------------------------------------------------------
  // split_string

  /** `split_string`: the one-character strings of `text`, in order. */
  function SplitString(text: string): (chars: seq<string>)
    ensures |chars| == |text|
    ensures forall i :: 0 <= i < |text| ==> |chars[i]| == 1 && chars[i][0] == text[i]
  {
    seq(|text|, i requires 0 <= i < |text| => [text[i]])
  }

  /** `''.join(parts)`. */
  function Concat(parts: seq<string>): string {
    if |parts| == 0 then "" else parts[0] + Concat(parts[1..])
  }

  /** Joining the pieces `split_string` returns gives back the input. */
  lemma {:induction false} ConcatSplitString(text: string)
    ensures Concat(SplitString(text)) == text
  {
    if |text| > 0 {
      ConcatSplitString(text[1..]);
      assert SplitString(text)[1..] == SplitString(text[1..]);
      assert SplitString(text)[0] == [text[0]];
    }
  }

  lemma SplitStringExample()
    ensures SplitString("PROTEIN") == ["P", "R", "O", "T", "E", "I", "N"]
  {
  }

  // ---------------------------------------------------------------------
  // read_fasta

  /** A FASTA record: the header line without its last character (the '>'
      is kept) and the concatenated sequence lines. */
  datatype Fasta = Fasta(name: string, sequence: string)

  datatype FastaError =
    | NoLines               // an empty file: `aninstance` is never bound
    | SequenceBeforeHeader  // a first line that is not a header: `seq` is never bound

  predicate IsHeader(line: string) {
    StartsWith(line, ">")
  }

  /** The loop of `read_fasta` from its current state: the finished
      records, and the record being read. A header closes the current
      record and opens a new one; any other line, minus its last
      character, extends the current sequence. */
  function ReadFrom(lines: seq<string>, items: seq<Fasta>, current: Fasta): (records: seq<Fasta>)
    ensures |records| == |items| + 1 + CountIf(lines, IsHeader)
    ensures records[..|items|] == items && records[|items|].name == current.name
    decreases |lines|
  {
    if |lines| == 0 then items + [current]
    else if IsHeader(lines[0]) then
      var r := ReadFrom(lines[1..], items + [current], Fasta(DropLast(lines[0]), ""));
      assert r[..|items|] == r[..|items| + 1][..|items|];
      assert r[|items|] == r[..|items| + 1][|items|];
      r
    else ReadFrom(lines[1..], items, Fasta(current.name, current.sequence + DropLast(lines[0])))
  }

  /** `read_fasta` over the lines of a file, each with its line end. */
  function ReadFasta(lines: seq<string>): (r: Result<seq<Fasta>, FastaError>)
    ensures r.Err? <==> |lines| == 0 || !IsHeader(lines[0])
    ensures r.Err? ==> r.error == (if |lines| == 0 then NoLines else SequenceBeforeHeader)
    ensures r.Ok? ==> |r.value| == CountIf(lines, IsHeader) && r.value[0].name == DropLast(lines[0])
  {
    if |lines| == 0 then Err(NoLines)
    else if !IsHeader(lines[0]) then Err(SequenceBeforeHeader)
    else
      Ok(ReadFrom(lines[1..], [], Fasta(DropLast(lines[0]), "")))
  }

  /** The names of the records, in order. */
  function Names(records: seq<Fasta>): seq<string> {
    if |records| == 0 then [] else [records[0].name] + Names(records[1..])
  }

  /** The header lines, each without its last character, in order. */
  function HeaderNames(lines: seq<string>): seq<string> {
    if |lines| == 0 then []
    else if IsHeader(lines[0]) then [DropLast(lines[0])] + HeaderNames(lines[1..])
    else HeaderNames(lines[1..])
  }

  lemma {:induction false} NamesConcat(a: seq<Fasta>, b: seq<Fasta>)
    ensures Names(a + b) == Names(a) + Names(b)
  {
    if |a| > 0 {
      NamesConcat(a[1..], b);
      assert (a + b)[1..] == a[1..] + b;
    } else {
      assert a + b == b;
    }
  }

  lemma {:induction false} ReadFromNames(lines: seq<string>, items: seq<Fasta>, current: Fasta)
    ensures Names(ReadFrom(lines, items, current)) == Names(items) + [current.name] + HeaderNames(lines)
    decreases |lines|
  {
    NamesConcat(items, [current]);
    if |lines| > 0 {
      if IsHeader(lines[0]) {
        ReadFromNames(lines[1..], items + [current], Fasta(DropLast(lines[0]), ""));
      } else {
        ReadFromNames(lines[1..], items, Fasta(current.name, current.sequence + DropLast(lines[0])));
      }
    }
  }

  /** One record per header line, in file order, named by that line
      without its last character. */
  lemma ReadFastaNames(lines: seq<string>)
    requires ReadFasta(lines).Ok?
    ensures Names(ReadFasta(lines).value) == HeaderNames(lines)
  {
    ReadFromNames(lines[1..], [], Fasta(DropLast(lines[0]), ""));
  }

  /** A record as it stands in a file: its header line, then the lines of
      its sequence. */
  datatype Block = Block(header: string, body: seq<string>)

  predicate WellFormedBlock(b: Block) {
    IsHeader(b.header) && forall k :: 0 <= k < |b.body| ==> !IsHeader(b.body[k])
  }

  /** The lines of a file made of `blocks`, in order. */
  function Lines(blocks: seq<Block>): seq<string> {
    if |blocks| == 0 then [] else [blocks[0].header] + blocks[0].body + Lines(blocks[1..])
  }

  lemma LinesCons(b: Block, rest: seq<Block>)
    ensures Lines([b] + rest) == [b.header] + b.body + Lines(rest)
  {
    assert ([b] + rest)[1..] == rest;
  }

  lemma LinesTwo(b0: Block, b1: Block)
    ensures Lines([b0, b1]) == [b0.header] + b0.body + [b1.header] + b1.body
  {
    var none: seq<Block> := [];
    LinesCons(b1, none);
    assert [b1] + none == [b1];
    LinesCons(b0, [b1]);
    assert [b0] + [b1] == [b0, b1];
  }

  /** The sequence lines, each without its last character. */
  function Trimmed(body: seq<string>): seq<string> {
    seq(|body|, k requires 0 <= k < |body| => DropLast(body[k]))
  }

  /** The record a block stands for: the header without its last character,
      and the concatenation of its trimmed sequence lines. */
  function RecordOf(b: Block): Fasta {
    Fasta(DropLast(b.header), Concat(Trimmed(b.body)))
  }

  function Records(blocks: seq<Block>): seq<Fasta> {
    seq(|blocks|, k requires 0 <= k < |blocks| => RecordOf(blocks[k]))
  }

  /** The number of lines before the next header. */
  function BodyLength(lines: seq<string>): (n: nat)
    ensures n <= |lines|
    ensures forall k :: 0 <= k < n ==> !IsHeader(lines[k])
    ensures n < |lines| ==> IsHeader(lines[n])
    decreases |lines|
  {
    if |lines| == 0 || IsHeader(lines[0]) then 0 else 1 + BodyLength(lines[1..])
  }

  /** The lines of a file that starts with a header, cut before every
      header: the blocks are well formed and give back exactly the lines. */
  function Blocks(lines: seq<string>): (blocks: seq<Block>)
    requires |lines| > 0 ==> IsHeader(lines[0])
    ensures |blocks| > 0 <==> |lines| > 0
    ensures forall k :: 0 <= k < |blocks| ==> WellFormedBlock(blocks[k])
    ensures Lines(blocks) == lines
    decreases |lines|
  {
    if |lines| == 0 then []
    else
      var n := BodyLength(lines[1..]);
      FirstBlock(lines, n);
      var b := Block(lines[0], lines[1..1 + n]);
      var rest := Blocks(lines[1 + n..]);
      LinesCons(b, rest);
      WellFormedCons(b, rest);
      [b] + rest
  }

  /** Cutting a file before its second header: the first block is well
      formed, and what remains starts with a header. */
  lemma FirstBlock(lines: seq<string>, n: nat)
    requires |lines| > 0 && IsHeader(lines[0]) && n == BodyLength(lines[1..])
    ensures 1 + n <= |lines| && WellFormedBlock(Block(lines[0], lines[1..1 + n]))
    ensures 1 + n < |lines| ==> IsHeader(lines[1 + n..][0])
    ensures lines == [lines[0]] + lines[1..1 + n] + lines[1 + n..]
  {
    assert forall k :: 0 <= k < n ==> lines[1..1 + n][k] == lines[1..][k];
    assert 1 + n < |lines| ==> lines[1 + n..][0] == lines[1..][n];
  }

  lemma WellFormedCons(b: Block, rest: seq<Block>)
    requires WellFormedBlock(b) && forall k :: 0 <= k < |rest| ==> WellFormedBlock(rest[k])
    ensures forall k :: 0 <= k < |[b] + rest| ==> WellFormedBlock(([b] + rest)[k])
  {
    assert forall k :: 0 < k < |[b] + rest| ==> ([b] + rest)[k] == rest[k - 1];
  }

  /** The loop over the sequence lines of a block only extends the current
      sequence, by each line without its last character. */
  lemma {:induction false} ReadBody(body: seq<string>, rest: seq<string>, items: seq<Fasta>, current: Fasta)
    requires forall k :: 0 <= k < |body| ==> !IsHeader(body[k])
    ensures ReadFrom(body + rest, items, current)
            == ReadFrom(rest, items, Fasta(current.name, current.sequence + Concat(Trimmed(body))))
    decreases |body|
  {
    if |body| == 0 {
      assert body + rest == rest;
      assert current.sequence + Concat(Trimmed(body)) == current.sequence;
    } else {
      var next := Fasta(current.name, current.sequence + DropLast(body[0]));
      assert (body + rest)[0] == body[0] && (body + rest)[1..] == body[1..] + rest;
      ReadBody(body[1..], rest, items, next);
      assert Trimmed(body)[1..] == Trimmed(body[1..]);
      assert next.sequence + Concat(Trimmed(body[1..])) == current.sequence + Concat(Trimmed(body));
    }
  }

  /** After its header, a well-formed block's lines make its record. */
  lemma ReadBlockBody(b: Block, tail: seq<string>, items: seq<Fasta>)
    requires WellFormedBlock(b)
    ensures ReadFrom(b.body + tail, items, Fasta(DropLast(b.header), "")) == ReadFrom(tail, items, RecordOf(b))
  {
    var first := Fasta(DropLast(b.header), "");
    ReadBody(b.body, tail, items, first);
    assert first.sequence + Concat(Trimmed(b.body)) == RecordOf(b).sequence;
  }

  /** One well-formed block closes `current` and leaves its own record as
      the record being read. */
  lemma ReadBlock(b: Block, tail: seq<string>, items: seq<Fasta>, current: Fasta)
    requires WellFormedBlock(b)
    ensures ReadFrom([b.header] + b.body + tail, items, current) == ReadFrom(tail, items + [current], RecordOf(b))
  {
    var lines := [b.header] + b.body + tail;
    assert lines[0] == b.header && lines[1..] == b.body + tail;
    ReadBlockBody(b, tail, items + [current]);
  }

  /** The records of a list of blocks: the first block's, then the rest. */
  lemma RecordsCons(blocks: seq<Block>)
    requires |blocks| > 0
    ensures Records(blocks) == [RecordOf(blocks[0])] + Records(blocks[1..])
  {
  }

  /** Reading whole blocks after the first header: `current` is closed, then
      one record per block follows. */
  lemma {:induction false} ReadBlocks(blocks: seq<Block>, items: seq<Fasta>, current: Fasta)
    requires forall k :: 0 <= k < |blocks| ==> WellFormedBlock(blocks[k])
    ensures ReadFrom(Lines(blocks), items, current) == items + [current] + Records(blocks)
    decreases |blocks|
  {
    if |blocks| > 0 {
      var b := blocks[0];
      assert Lines(blocks) == [b.header] + b.body + Lines(blocks[1..]);
      ReadBlock(b, Lines(blocks[1..]), items, current);
      ReadBlocks(blocks[1..], items + [current], RecordOf(b));
      RecordsCons(blocks);
    }
  }

  /** Reading the lines of well-formed blocks gives one record per block:
      named by its header line without the last character, with the
      concatenation of the block's lines, each without its last character,
      as its sequence. */
  lemma ReadFastaBlocks(blocks: seq<Block>)
    requires |blocks| > 0 && forall k :: 0 <= k < |blocks| ==> WellFormedBlock(blocks[k])
    ensures ReadFasta(Lines(blocks)) == Ok(Records(blocks))
  {
    var b := blocks[0];
    var tail := Lines(blocks[1..]);
    ReadFastaFirst(Lines(blocks), b, tail);
    ReadBlockBody(b, tail, []);
    ReadBlocks(blocks[1..], [], RecordOf(b));
    RecordsCons(blocks);
    assert [] + [RecordOf(b)] == [RecordOf(b)];
  }

  /** `read_fasta` on any file that starts with a header: the records of
      the file's blocks, cut before every header line. */
  lemma ReadFastaSpec(lines: seq<string>)
    requires |lines| > 0 && IsHeader(lines[0])
    ensures ReadFasta(lines) == Ok(Records(Blocks(lines)))
  {
    ReadFastaBlocks(Blocks(lines));
  }

  /** `read_fasta` opens the record of the first header line. */
  lemma ReadFastaFirst(lines: seq<string>, b: Block, tail: seq<string>)
    requires IsHeader(b.header) && lines == [b.header] + b.body + tail
    ensures ReadFasta(lines) == Ok(ReadFrom(b.body + tail, [], Fasta(DropLast(b.header), "")))
  {
    assert lines[1..] == b.body + tail;
  }

  /** Two records, the first with its sequence over two lines. */
  lemma ReadFastaExample()
    ensures ReadFasta([">a\n", "MK\n", "VL\n", ">b\n", "Q\n"]) == Ok([Fasta(">a", "MKVL"), Fasta(">b", "Q")])
  {
    var b0 := Block(">a\n", ["MK\n", "VL\n"]);
    var b1 := Block(">b\n", ["Q\n"]);
    ExampleWellFormed(b0, b1);
    LinesTwo(b0, b1);
    ExampleLines(b0.header, b0.body, b1.header, b1.body);
    ReadFastaBlocks([b0, b1]);
    ExampleRecords([b0, b1]);
  }

  lemma ExampleWellFormed(b0: Block, b1: Block)
    requires b0 == Block(">a\n", ["MK\n", "VL\n"]) && b1 == Block(">b\n", ["Q\n"])
    ensures WellFormedBlock(b0) && WellFormedBlock(b1)
  {
    assert ">a\n"[..1] == ">" && ">b\n"[..1] == ">";
    assert "MK\n"[..1][0] == 'M' && "VL\n"[..1][0] == 'V' && "Q\n"[..1][0] == 'Q';
  }

  lemma ExampleLines(h0: string, b0: seq<string>, h1: string, b1: seq<string>)
    requires h0 == ">a\n" && b0 == ["MK\n", "VL\n"] && h1 == ">b\n" && b1 == ["Q\n"]
    ensures [h0] + b0 + [h1] + b1 == [">a\n", "MK\n", "VL\n", ">b\n", "Q\n"]
  {
  }

  lemma ExampleRecords(blocks: seq<Block>)
    requires blocks == [Block(">a\n", ["MK\n", "VL\n"]), Block(">b\n", ["Q\n"])]
    ensures Records(blocks) == [Fasta(">a", "MKVL"), Fasta(">b", "Q")]
  {
    assert DropLast(">a\n") == ">a" && DropLast(">b\n") == ">b";
    assert DropLast("MK\n") == "MK" && DropLast("VL\n") == "VL" && DropLast("Q\n") == "Q";
    assert Trimmed(blocks[0].body) == ["MK", "VL"] && Trimmed(blocks[1].body) == ["Q"];
    assert Concat(["MK", "VL"]) == "MKVL" && Concat(["Q"]) == "Q";
  }

  /** A record written as a header line and one sequence line, each ending
      with a newline. */
  function WriteFasta(records: seq<Fasta>): (lines: seq<string>)
    ensures |lines| == 2 * |records|
  {
    if |records| == 0 then []
    else [records[0].name + "\n", records[0].sequence + "\n"] + WriteFasta(records[1..])
  }

  /** Records `read_fasta` can give back: the name is a header, and the
      sequence line must not look like one. */
  predicate Writable(r: Fasta) {
    IsHeader(r.name) && (|r.sequence| == 0 || r.sequence[0] != '>')
  }

  /** The two lines of a writable record: a header, then a sequence line,
      each giving back its text without the line end. */
  lemma WrittenLines(r: Fasta)
    requires Writable(r)
    ensures IsHeader(r.name + "\n") && DropLast(r.name + "\n") == r.name
    ensures !IsHeader(r.sequence + "\n") && DropLast(r.sequence + "\n") == r.sequence
  {
    assert (r.name + "\n")[..1] == r.name[..1];
    assert (r.sequence + "\n")[0] == if |r.sequence| == 0 then '\n' else r.sequence[0];
  }

  /** Reading the written records after the first header line: the first
      line of `records` closes `current`. */
  lemma {:induction false} ReadFromWritten(records: seq<Fasta>, items: seq<Fasta>, current: Fasta)
    requires forall k :: 0 <= k < |records| ==> Writable(records[k])
    ensures ReadFrom(WriteFasta(records), items, current) == items + [current] + records
    decreases |records|
  {
    if |records| > 0 {
      var r := records[0];
      var lines := WriteFasta(records);
      WrittenLines(r);
      assert lines[0] == r.name + "\n" && lines[1..][0] == r.sequence + "\n";
      assert lines[1..][1..] == WriteFasta(records[1..]);
      calc {
        ReadFrom(lines, items, current);
        ReadFrom(lines[1..], items + [current], Fasta(r.name, ""));
        { assert "" + r.sequence == r.sequence; }
        ReadFrom(WriteFasta(records[1..]), items + [current], r);
        { ReadFromWritten(records[1..], items + [current], r); }
        items + [current] + [r] + records[1..];
        { assert [r] + records[1..] == records; }
        items + [current] + records;
      }
    }
  }

  /** Reading what was written opens with the first record, complete. */
  lemma ReadWrittenFirst(records: seq<Fasta>)
    requires |records| > 0 && Writable(records[0])
    ensures ReadFasta(WriteFasta(records)) == Ok(ReadFrom(WriteFasta(records[1..]), [], records[0]))
  {
    var r := records[0];
    var lines := WriteFasta(records);
    WrittenLines(r);
    assert lines[0] == r.name + "\n" && lines[1..][0] == r.sequence + "\n";
    assert lines[1..][1..] == WriteFasta(records[1..]);
    assert "" + r.sequence == r.sequence;
  }

  /** Round trip: reading back what was written gives the same records. */
  lemma ReadFastaWritten(records: seq<Fasta>)
    requires forall k :: 0 <= k < |records| ==> Writable(records[k])
    ensures records == [] ==> ReadFasta(WriteFasta(records)) == Err(NoLines)
    ensures records != [] ==> ReadFasta(WriteFasta(records)) == Ok(records)
  {
    if records != [] {
      var r := records[0];
      ReadWrittenFirst(records);
      ReadFromWritten(records[1..], [], r);
      assert [] + [r] == [r];
      assert [r] + records[1..] == records;
    }
  }

  // ---------------------------------------------------------------------
  // find_unique_aas

  /** Where `x` first occurs in `s`. */
  function FirstIndex<T(==)>(s: seq<T>, x: T): (k: nat)
    requires x in s
    ensures k < |s| && s[k] == x && x !in s[..k]
  {
    if s[0] == x then 0
    else
      var k := 1 + FirstIndex(s[1..], x);
      assert s[..k] == [s[0]] + s[1..][..k - 1];
      k
  }

  /** `r` lists the distinct values of `s` once each, in the order of their
      first appearance (what `Series.unique` returns). */
  predicate FirstAppearanceOrder<T(==)>(s: seq<T>, r: seq<T>) {
    Distinct(r) &&
    (forall x :: x in r ==> x in s) && (forall x :: x in s ==> x in r) &&
    forall i, j :: 0 <= i < j < |r| ==> r[i] in s && r[j] in s && FirstIndex(s, r[i]) < FirstIndex(s, r[j])
  }

  /** `Series.unique`: one pass, keeping each value the first time it is seen. */
  method Unique<T(==)>(s: seq<T>) returns (r: seq<T>)
    ensures FirstAppearanceOrder(s, r)
  {
    r := [];
    var k := 0;
    while k < |s|
      invariant 0 <= k <= |s|
      invariant Distinct(r)
      invariant forall x :: x in r <==> x in s[..k]
      invariant forall i :: 0 <= i < |r| ==> r[i] in s && FirstIndex(s, r[i]) < k
      invariant forall i, j :: 0 <= i < j < |r| ==> FirstIndex(s, r[i]) < FirstIndex(s, r[j])
    {
      assert s[..k + 1] == s[..k] + [s[k]];
      if s[k] !in r {
        assert FirstIndex(s, s[k]) == k;
        r := r + [s[k]];
      }
      k := k + 1;
    }
    assert s[..k] == s;
  }

  /** `find_unique_aas`: the distinct values of every column, column by
      column in frame order. */
  method FindUniqueAas<L, T(==)>(f: Frame<L, T>) returns (u: seq<seq<T>>)
    requires f.WellFormed()
    ensures |u| == |f.columns|
    ensures forall i :: 0 <= i < |u| ==> FirstAppearanceOrder(Column(f.cells, i), u[i])
  {
    u := [];
    var i := 0;
    while i < |f.columns|
      invariant 0 <= i <= |f.columns| && |u| == i
      invariant forall c :: 0 <= c < i ==> FirstAppearanceOrder(Column(f.cells, c), u[c])
    {
      var values := Unique(Column(f.cells, i));
      u := u + [values];
      i := i + 1;
    }
  }

  // ---------------------------------------------------------------------
  // make_label

  /** The default width of a label. */
  const DefaultTrailDigits: nat := 4

  /** `'{:>0{w}}'.format(number)`: the decimal form of `number`, filled
      with '0' on the left up to width `w`; a negative number is filled
      before its sign. */
  function MakeLabel(number: int, trailDigits: nat): (padded: string)
    ensures |padded| == if |IntToString(number)| < trailDigits then trailDigits else |IntToString(number)|
    ensures padded[|padded| - |IntToString(number)|..] == IntToString(number)
    ensures forall k :: 0 <= k < |padded| - |IntToString(number)| ==> padded[k] == '0'
  {
    var s := IntToString(number);
    if |s| < trailDigits then Zeros(trailDigits - |s|) + s else s
  }

  /** A label of a non-negative number reads back as that number. */
  lemma MakeLabelParse(number: nat, trailDigits: nat)
    ensures IsDigits(MakeLabel(number, trailDigits))
    ensures ParseNat(MakeLabel(number, trailDigits)) == number
  {
    var s := NatToString(number);
    ParseNatToString(number);
    if |s| < trailDigits {
      ParseNatLeadingZeros(trailDigits - |s|, s);
    }
  }

  lemma MakeLabelExamples()
    ensures MakeLabel(1, DefaultTrailDigits) == "0001"
    ensures MakeLabel(100, DefaultTrailDigits) == "0100"
    ensures MakeLabel(10000, DefaultTrailDigits) == "10000"
    ensures MakeLabel(10, 6) == "000010"
  {
    assert NatToString(1) == "1";
    assert NatToString(10) == "10";
    assert NatToString(100) == "100";
    assert NatToString(10000) == "10000";
  }

  // ---------------------------------------------------------------------
  // positions_to_color

  /** One selected alignment position: its number `m` and its score. */
  datatype Selected = Selected(pos: int, score: real)

  /** One output row: PosAln, PosRaw, AA, PC score and Abs PC score. */
  datatype ColorRow = ColorRow(posAln: int, posRaw: nat, aa: char, score: real, absScore: real)

  datatype ColorError = MissingColumn(pos: int)  // `aligned_df[f'pos{m}']` of a column that does not exist

  function Abs(v: real): (a: real)
    ensures a >= 0.0 && (a == v || a == -v)
  {
    if v < 0.0 then -v else v
  }

  /** The labels of the residue columns of an aligned row whose columns
      are labelled pos{o}, pos{o+1}, ...: `[int(x[3:]) for x in raw_df.index]`.
      ProtPCA's own frames start at pos0, the plugin's and the tests' at pos1. */
  function RawPositions(s: string, o: nat): (ps: seq<nat>)
    ensures |ps| == CountIf(s, IsResidue)
    ensures forall k :: 0 <= k < |ps| ==> o <= ps[k] < o + |s| && s[ps[k] - o] != Gap
    ensures forall i, j :: 0 <= i < j < |ps| ==> ps[i] < ps[j]
    decreases |s|
  {
    if |s| == 0 then []
    else
      var n := |s| - 1;
      var rest := RawPositions(s[..n], o);
      assert s == s[..n] + [s[n]];
      CountIfConcat(s[..n], [s[n]], IsResidue);
      if s[n] != Gap then rest + [o + n] else rest
  }

  /** Python's `list.index`: where `m` first occurs. */
  function IndexOf(ps: seq<nat>, m: nat): (k: nat)
    requires m in ps
    ensures k < |ps| && ps[k] == m && m !in ps[..k]
  {
    FirstIndex(ps, m)
  }

  /** The labels of a prefix of the row are a prefix of its labels. */
  lemma {:induction false} RawPositionsPrefix(s: string, o: nat, n: nat)
    requires n <= |s|
    ensures |RawPositions(s[..n], o)| <= |RawPositions(s, o)|
    ensures RawPositions(s, o)[..|RawPositions(s[..n], o)|] == RawPositions(s[..n], o)
    decreases |s| - n
  {
    if n < |s| {
      var m := |s| - 1;
      RawPositionsPrefix(s[..m], o, n);
      assert s[..m][..n] == s[..n];
    } else {
      assert s[..n] == s;
    }
  }

  /** A residue in column pos{m} sits at position `CountIf(s[..m - o])` of
      the labels: PosRaw is the residue's 1-based place in the raw
      sequence, the number `_map_positions` assigns it plus one. */
  lemma RawIndex(s: string, o: nat, m: nat)
    requires o <= m < o + |s| && s[m - o] != Gap
    ensures m in RawPositions(s, o)
    ensures IndexOf(RawPositions(s, o), m) == CountIf(s[..m - o], IsResidue)
    ensures IndexOf(RawPositions(s, o), m) == MapSequence(s)[m - o].value
  {
    ResiduesBefore(s, o, m);
    MapSequenceValue(s, m - o);
  }

  /** `positions.index(m)` counts the residues before column pos{m}. */
  lemma ResiduesBefore(s: string, o: nat, m: nat)
    requires o <= m < o + |s| && s[m - o] != Gap
    ensures m in RawPositions(s, o)
    ensures IndexOf(RawPositions(s, o), m) == CountIf(s[..m - o], IsResidue)
  {
    RawPositionAt(s, o, m);
    IndexOfAscending(RawPositions(s, o), CountIf(s[..m - o], IsResidue));
  }

  /** The residue in column pos{m} comes after as many residues as precede it. */
  lemma RawPositionAt(s: string, o: nat, m: nat)
    requires o <= m < o + |s| && s[m - o] != Gap
    ensures CountIf(s[..m - o], IsResidue) < |RawPositions(s, o)|
    ensures RawPositions(s, o)[CountIf(s[..m - o], IsResidue)] == m
  {
    RawPositionsPrefix(s, o, m - o + 1);
    RawPositionsLast(s, o, m);
  }

  /** Up to a residue in column pos{m}, the labels end with `m`. */
  lemma RawPositionsLast(s: string, o: nat, m: nat)
    requires o <= m < o + |s| && s[m - o] != Gap
    ensures RawPositions(s[..m - o + 1], o) == RawPositions(s[..m - o], o) + [m]
  {
    assert s[..m - o + 1][..m - o] == s[..m - o];
  }

  /** In a strictly increasing sequence, a value is found where it stands. */
  lemma IndexOfAscending(ps: seq<nat>, c: nat)
    requires c < |ps| && forall i, j :: 0 <= i < j < |ps| ==> ps[i] < ps[j]
    ensures IndexOf(ps, ps[c]) == c
  {
  }

  /** The column pos{m} exists in a row labelled from pos{o}. */
  predicate HasColumn(m: int, s: string, o: nat) {
    o <= m < o + |s|
  }

  /** The row reported for a selected position on a residue, stated
      without `list.index`: PosRaw is one more than the number of residues
      before the column. */
  function Expected(sel: Selected, s: string, o: nat): ColorRow
    requires HasColumn(sel.pos, s, o)
  {
    var p := sel.pos - o;
    ColorRow(sel.pos + 1, CountIf(s[..p], IsResidue) + 1, s[p], sel.score, Abs(sel.score))
  }

  /** One pass of the loop of `positions_to_color`: nothing for a gap,
      otherwise `[m + 1, positions.index(m) + 1, residue, score, |score|]`,
      which is the expected row. */
  function ColorOf(sel: Selected, s: string, o: nat): (r: Option<ColorRow>)
    requires HasColumn(sel.pos, s, o)
    ensures r.None? <==> s[sel.pos - o] == Gap
    ensures r.Some? ==> r.value == Expected(sel, s, o)
  {
    var m := sel.pos;
    if s[m - o] == Gap then None
    else
      ResiduesBefore(s, o, m);
      Some(ColorRow(m + 1, IndexOf(RawPositions(s, o), m) + 1, s[m - o], sel.score, Abs(sel.score)))
  }

  /** `positions_to_color` over an aligned row whose columns are labelled
      from pos{o}: a selected position on a gap is skipped, the others
      yield their rows in input order. */
  function PositionsToColor(selected: seq<Selected>, s: string, o: nat): (r: Result<seq<ColorRow>, ColorError>)
    ensures r.Ok? <==> forall k :: 0 <= k < |selected| ==> HasColumn(selected[k].pos, s, o)
    ensures r.Err? ==> exists k :: 0 <= k < |selected| && r.error == MissingColumn(selected[k].pos) &&
                                   !HasColumn(selected[k].pos, s, o)
    decreases |selected|
  {
    if |selected| == 0 then Ok([])
    else
      var m := selected[0].pos;
      assert forall k :: 1 <= k < |selected| ==> selected[k] == selected[1..][k - 1];
      if !HasColumn(m, s, o) then Err(MissingColumn(m))
      else
        var rest :- PositionsToColor(selected[1..], s, o);
        match ColorOf(selected[0], s, o)
        case None => Ok(rest)
        case Some(row) => Ok([row] + rest)
  }

  /** PosRaw is the 1-based place of the residue in the ungapped sequence,
      the number `_map_positions` gives that column plus one. */
  lemma ExpectedMeaning(sel: Selected, s: string, o: nat)
    requires HasColumn(sel.pos, s, o) && s[sel.pos - o] != Gap
    ensures Expected(sel, s, o).posRaw == MapSequence(s)[sel.pos - o].value + 1
    ensures Expected(sel, s, o).posRaw - 1 < |Degap(s)| && Degap(s)[Expected(sel, s, o).posRaw - 1] == s[sel.pos - o]
  {
    MapSequenceValue(s, sel.pos - o);
    DegapIndex(s, sel.pos - o);
  }

  /** All selected positions name existing columns. */
  predicate InRange(selected: seq<Selected>, s: string, o: nat) {
    forall k :: 0 <= k < |selected| ==> HasColumn(selected[k].pos, s, o)
  }

  /** `rows` are the rows reported for `selected`, row `t` coming from
      selected position `src[t]`: sources in input order, exactly the
      positions on residues, each row describing its source. */
  predicate Traced(selected: seq<Selected>, s: string, o: nat, rows: seq<ColorRow>, src: seq<nat>)
    requires InRange(selected, s, o)
  {
    |src| == |rows| &&
    (forall t :: 0 <= t < |src| ==> src[t] < |selected|) &&
    (forall t, u :: 0 <= t < u < |src| ==> src[t] < src[u]) &&
    (forall k :: 0 <= k < |selected| ==> (k in src <==> s[selected[k].pos - o] != Gap)) &&
    forall t :: 0 <= t < |src| ==> rows[t] == Expected(selected[src[t]], s, o)
  }

  function Shift(src: seq<nat>): (r: seq<nat>)
    ensures |r| == |src| && forall t :: 0 <= t < |src| ==> r[t] == src[t] + 1
  {
    seq(|src|, t requires 0 <= t < |src| => src[t] + 1)
  }

  lemma ShiftMembers(src: seq<nat>, k: nat)
    ensures k + 1 in Shift(src) <==> k in src
    ensures 0 !in Shift(src)
  {
    if k in src {
      var t :| 0 <= t < |src| && src[t] == k;
      assert Shift(src)[t] == k + 1;
    }
  }

  /** A gap at the first selected position adds no row. */
  lemma TracedSkip(selected: seq<Selected>, s: string, o: nat, rows: seq<ColorRow>, src: seq<nat>)
    requires |selected| > 0 && InRange(selected, s, o) && s[selected[0].pos - o] == Gap
    requires InRange(selected[1..], s, o) && Traced(selected[1..], s, o, rows, src)
    ensures Traced(selected, s, o, rows, Shift(src))
  {
    var sh := Shift(src);
    ShiftMembers(src, 0);
    forall k | 0 <= k < |selected| ensures k in sh <==> s[selected[k].pos - o] != Gap {
      if k > 0 {
        assert selected[k] == selected[1..][k - 1];
        ShiftMembers(src, k - 1);
      }
    }
    forall t | 0 <= t < |sh| ensures rows[t] == Expected(selected[sh[t]], s, o) {
      assert selected[sh[t]] == selected[1..][src[t]];
    }
  }

  /** A residue at the first selected position adds the first row. */
  lemma TracedKeep(selected: seq<Selected>, s: string, o: nat, row: ColorRow, rows: seq<ColorRow>, src: seq<nat>)
    requires |selected| > 0 && InRange(selected, s, o) && s[selected[0].pos - o] != Gap
    requires row == Expected(selected[0], s, o)
    requires InRange(selected[1..], s, o) && Traced(selected[1..], s, o, rows, src)
    ensures Traced(selected, s, o, [row] + rows, [0] + Shift(src))
  {
    KeepSources(selected, s, o, src);
    KeepRows(selected, s, o, row, rows, src);
  }

  lemma KeepSources(selected: seq<Selected>, s: string, o: nat, src: seq<nat>)
    requires |selected| > 0 && InRange(selected, s, o) && s[selected[0].pos - o] != Gap
    requires InRange(selected[1..], s, o)
    requires forall t :: 0 <= t < |src| ==> src[t] < |selected| - 1
    requires forall t, u :: 0 <= t < u < |src| ==> src[t] < src[u]
    requires forall k :: 0 <= k < |selected| - 1 ==> (k in src <==> s[selected[1..][k].pos - o] != Gap)
    ensures var sh := [0] + Shift(src);
            (forall t :: 0 <= t < |sh| ==> sh[t] < |selected|) &&
            (forall t, u :: 0 <= t < u < |sh| ==> sh[t] < sh[u]) &&
            (forall k :: 0 <= k < |selected| ==> (k in sh <==> s[selected[k].pos - o] != Gap))
  {
    var sh := [0] + Shift(src);
    forall k | 0 <= k < |selected| ensures k in sh <==> s[selected[k].pos - o] != Gap {
      if k > 0 {
        assert selected[k] == selected[1..][k - 1];
        ShiftMembers(src, k - 1);
      }
    }
  }

  lemma KeepRows(selected: seq<Selected>, s: string, o: nat, row: ColorRow, rows: seq<ColorRow>, src: seq<nat>)
    requires |selected| > 0 && InRange(selected, s, o)
    requires row == Expected(selected[0], s, o)
    requires InRange(selected[1..], s, o) && |src| == |rows|
    requires forall t :: 0 <= t < |src| ==> src[t] < |selected| - 1
    requires forall t :: 0 <= t < |src| ==> rows[t] == Expected(selected[1..][src[t]], s, o)
    ensures var sh := [0] + Shift(src);
            forall t :: 0 <= t < |sh| ==> ([row] + rows)[t] == Expected(selected[sh[t]], s, o)
  {
    var sh := [0] + Shift(src);
    forall t | 1 <= t < |sh| ensures ([row] + rows)[t] == Expected(selected[sh[t]], s, o) {
      var k := src[t - 1];
      assert sh[t] == Shift(src)[t - 1] == k + 1;
      assert ([row] + rows)[t] == rows[t - 1];
      assert selected[k + 1] == selected[1..][k];
    }
  }

  /** Each output row comes from one selected position, in input order; the
      selected positions that produce a row are exactly those on residues;
      and each row holds that residue, its place in the ungapped sequence
      and the score. */
  lemma {:induction false} PositionsToColorSpec(selected: seq<Selected>, s: string, o: nat) returns (src: seq<nat>)
    requires PositionsToColor(selected, s, o).Ok?
    ensures InRange(selected, s, o) && Traced(selected, s, o, PositionsToColor(selected, s, o).value, src)
    decreases |selected|
  {
    if |selected| == 0 {
      src := [];
    } else {
      var m := selected[0].pos;
      var rows := PositionsToColor(selected, s, o).value;
      assert forall k :: 1 <= k < |selected| ==> selected[k] == selected[1..][k - 1];
      var tail := PositionsToColorSpec(selected[1..], s, o);
      var rest := PositionsToColor(selected[1..], s, o).value;
      if s[m - o] == Gap {
        assert rows == rest;
        TracedSkip(selected, s, o, rest, tail);
        src := Shift(tail);
      } else {
        FirstRow(selected, s, o);
        TracedKeep(selected, s, o, Expected(selected[0], s, o), rest, tail);
        src := [0] + Shift(tail);
      }
    }
  }

  /** A selected position on a residue reports its expected row first. */
  lemma FirstRow(selected: seq<Selected>, s: string, o: nat)
    requires |selected| > 0 && PositionsToColor(selected, s, o).Ok?
    requires s[selected[0].pos - o] != Gap
    ensures PositionsToColor(selected, s, o).value ==
              [Expected(selected[0], s, o)] + PositionsToColor(selected[1..], s, o).value
  {
    assert HasColumn(selected[0].pos, s, o);
    assert forall k :: 0 <= k < |selected[1..]| ==> selected[1..][k] == selected[k + 1];
    assert PositionsToColor(selected[1..], s, o).Ok?;
  }

  /** The test's row, labelled from pos1. */
  lemma PositionsToColorExample(selected: seq<Selected>, s: string)
    requires selected == [Selected(2, 1.2), Selected(5, -2.0)] && s == "-ABCE"
    ensures PositionsToColor(selected, s, 1) == Ok([ColorRow(3, 1, 'A', 1.2, 1.2), ColorRow(6, 4, 'E', -2.0, 2.0)])
  {
    ExampleIndices(s);
    assert selected[1..] == [Selected(5, -2.0)];
    PositionsToColorLast(selected[1..], s);
    var rest := [ColorRow(6, 4, 'E', -2.0, 2.0)];
    var row := ColorRow(2 + 1, IndexOf(RawPositions(s, 1), 2) + 1, s[1], 1.2, Abs(1.2));
    assert s[1] == 'A' && s[1] != Gap;
    assert PositionsToColor(selected, s, 1) == Ok([row] + rest);
    assert [row] + rest == [ColorRow(3, 1, 'A', 1.2, 1.2), ColorRow(6, 4, 'E', -2.0, 2.0)];
  }

  lemma PositionsToColorLast(selected: seq<Selected>, s: string)
    requires selected == [Selected(5, -2.0)] && s == "-ABCE"
    ensures PositionsToColor(selected, s, 1) == Ok([ColorRow(6, 4, 'E', -2.0, 2.0)])
  {
    ExampleIndices(s);
    assert selected[1..] == [];
    assert s[4] == 'E' && s[4] != Gap;
    var row := ColorRow(5 + 1, IndexOf(RawPositions(s, 1), 5) + 1, s[4], -2.0, Abs(-2.0));
    assert PositionsToColor(selected, s, 1) == Ok([row] + []);
    assert [row] + [] == [row];
  }

  /** In "-ABCE" labelled from pos1, column pos2 holds the first residue and
      column pos5 the fourth. */
  lemma ExampleIndices(s: string)
    requires s == "-ABCE"
    ensures 2 in RawPositions(s, 1) && IndexOf(RawPositions(s, 1), 2) == 0
    ensures 5 in RawPositions(s, 1) && IndexOf(RawPositions(s, 1), 5) == 3
  {
    ExampleIndex2(s);
    ExampleIndex5(s);
  }

  lemma ExampleIndex2(s: string)
    requires s == "-ABCE"
    ensures 2 in RawPositions(s, 1) && IndexOf(RawPositions(s, 1), 2) == 0
  {
    ResiduesBefore(s, 1, 2);
    assert s[..1] == "-";
    CountRange(s[..1], IsResidue, 0, 0);
  }

  lemma ExampleIndex5(s: string)
    requires s == "-ABCE"
    ensures 5 in RawPositions(s, 1) && IndexOf(RawPositions(s, 1), 5) == 3
  {
    ResiduesBefore(s, 1, 5);
    assert s[..4] == "-ABC";
    ExampleCount(s[..4]);
  }

  lemma ExampleCount(t: string)
    requires t == "-ABC"
    ensures CountIf(t, IsResidue) == 3
  {
    CountRange(t, IsResidue, 1, 4);
  }

  /** A row labelled from pos0, as ProtPCA's own frames are: column pos0
      holds the first residue, reported as PosAln 1 and PosRaw 1; column
      pos1 is a gap and is skipped; a column pos2 does not exist. */
  lemma PositionsToColorFromZero(s: string)
    requires s == "A-"
    ensures PositionsToColor([Selected(1, 2.0), Selected(0, -1.5)], s, 0) == Ok([ColorRow(1, 1, 'A', -1.5, 1.5)])
    ensures PositionsToColor([Selected(2, 2.0)], s, 0) == Err(MissingColumn(2))
  {
    var sel := [Selected(1, 2.0), Selected(0, -1.5)];
    assert sel[1..] == [Selected(0, -1.5)];
    FromZeroFirst(sel[1..], s);
    assert s[1] == Gap;
    assert ColorOf(sel[0], s, 0) == None;
  }

  lemma FromZeroFirst(sel: seq<Selected>, s: string)
    requires sel == [Selected(0, -1.5)] && s == "A-"
    ensures PositionsToColor(sel, s, 0) == Ok([ColorRow(1, 1, 'A', -1.5, 1.5)])
  {
    assert sel[1..] == [];
    assert s[0] == 'A' && s[..0] == [];
    assert ColorOf(sel[0], s, 0) == Some(Expected(sel[0], s, 0));
    assert Expected(sel[0], s, 0) == ColorRow(1, 1, 'A', -1.5, 1.5);
    assert [ColorRow(1, 1, 'A', -1.5, 1.5)] + [] == [ColorRow(1, 1, 'A', -1.5, 1.5)];
  }
}
