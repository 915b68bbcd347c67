# q2-protein-pca core in Dafny

This project models the core of q2-protein-pca and proves properties of the model. q2-protein-pca ranks the residues of each column of a protein alignment by how often they occur. It then feeds the ranks to a PCA. The model covers:

- **The plugin's ranking path.**
  - `_df_from_sequences`, and the `AA_MAP` encoding.
  - The Rust engine `rank_sequences`, with `_count_occurrences`, `_sort_occurrences` and `_convert_to_ranks`.
  - `_rank_columns` and `_rank`.
  - `_get_occurrences`.
- **The older ProtPCA ranking.** `get_occurrences`, `rank_alphabet` and `rank_all_columns`. A proof shows it agrees cell by cell with the plugin's ranking.
- **The plugin's alignment actions.**
  - The duplicate-id and size checks of `_mafft`, and the command line it builds.
  - The position map `_map_positions`.
- **The ranked-alignment file format.**
  - `RankedProteinAlignmentFormat._check_n_records` and `_validate_`.
  - The CSV rows that `DataFrame.to_csv` writes for a ranked frame.
- **The ProtPCA helpers.** `read_fasta`, `split_string`, `find_unique_aas`, `make_label` and `positions_to_color`.
- **The list logic of ProtPCA's alignment step.**
  - The defaulting of `sequence_end`.
  - `read_aln_positions` and `slice_sequence`.
  - `generate_sequence_slices`.

Sequences are strings, frames are `Frame` values (row labels, an optional index name, column names and rectangular cells), and every error the code raises is a `Result`/`Outcome` error case. Rank maps are Dafny maps. Rust's `HashMap` iteration order is an explicit parameter, and a lemma shows the result does not depend on it. The order pandas gives the occurrence table's index is a parameter too, with the same kind of lemma. The ranks are checked against an independent reference rank: one more than the number of distinct non-gap symbols of the column that the symbol outranks, where a higher count outranks a lower one and, on equal counts, the earlier symbol wins.

Modules, one per file:

- `Results`, `Text`, `Counting`, `Tables` and `Frames` hold the shared vocabulary: Python's `isdigit`, `int`, `str`, `strip` and `split` on ASCII text, plus counting and tables.
- `AaMap` holds `AA_MAP`.
- `Engine` and `RankLaws` cover the Rust engine.
- `Occurrences` and `PluginRanking` cover `_ranking.py`.
- `LegacyRanking`, `LegacyLaws`, `LegacyTable` and `LegacyExamples` cover `ProtPCA/ranking.py`.
- `RankAgreement` proves the two rankings agree.
- `PositionMap` and `Mafft` cover `_alignment.py`.
- `RankedFormat` and `RankedOutput` cover `_format.py` and the CSV writer.
- `Helpers` covers `ProtPCA/helpers.py`.
- `ProtAlign` covers `ProtPCA/alignment.py`.

## Model

| member | source | states |
|---|---|---|
| AaMap.Code | q2_protein_pca/_ranking.py:14 | `AA_MAP[c]` is defined exactly on the 24 symbols "-ABCDEFGHIKLMNPQRSTVWXYZ"; the code is the symbol's position, at most 23 |
| AaMap.CodeBijection | q2_protein_pca/_ranking.py:14 | `AA_MAP` maps the k-th symbol to k for every k in 0..23, and the gap to 0 |
| AaMap.CodeMonotone | q2_protein_pca/_ranking.py:14 | codes follow character order, so ordering codes is the same as ordering symbols |
| AaMap.GapOnlyZero | q2_protein_pca/_ranking.py:14 | only the gap is coded 0 |
| AaMap.CodeInjective | q2_protein_pca/_ranking.py:14 | distinct symbols get distinct codes |
| Engine.CountOccurrences | ranking/src/lib.rs:42-51 | the occurrence map holds exactly the non-gap codes of the column, each with its positive number of occurrences |
| Engine.NonGapCodes | ranking/src/lib.rs:53-54 | one iteration order of the occurrence map: every non-gap code present, each once |
| Engine.Sort | ranking/src/lib.rs:55-57 | the result is ordered by count descending, then code ascending, and is a permutation of the input |
| Engine.SortOccurrences | ranking/src/lib.rs:53-59 | the sorted entries are exactly the map's (code, count) pairs, without repeated codes, in sort-key order |
| Engine.InsertRanks | ranking/src/lib.rs:62-66 | after the loop, the i-th sorted entry's code maps to (number of entries) - i, and only visited codes are keys |
| Engine.ConvertToRanks | ranking/src/lib.rs:61-69 | the gap maps to 0; the keys are the gap and the sorted codes; the i-th sorted code gets rank K - i |
| Engine.SortedColumn | ranking/src/lib.rs:11-16 | the sorted entries of a column are exactly its non-gap codes with their counts, ordered and without repetition |
| Engine.RankColumn | ranking/src/lib.rs:11-19 | a column's rank map is defined on the gap and on exactly the codes present; the gap ranks 0, every other code ranks 1..K |
| Engine.RankColumnDomain | ranking/src/lib.rs:61-69 | the rank map's keys, and the ranks lying in 1..K, follow from the sorted column |
| Engine.SortedKeys | ranking/src/lib.rs:53-59 | the sorted codes are distinct and are exactly the non-gap codes present |
| Engine.SortedKeysCount | ranking/src/lib.rs:61-63 | K, the length of the sorted list, is the number of distinct non-gap codes present |
| Engine.RankTable | ranking/src/lib.rs:21-28 | the ranked matrix has the input's shape |
| Engine.SetCell | ranking/src/lib.rs:25 | writing one cell of the output changes that cell and nothing else |
| Engine.RankSequences | ranking/src/lib.rs:9-29 | the loop's output holds, in every cell, the rank of that cell's code in its own column's rank map |
| Engine.FillColumn | ranking/src/lib.rs:22-27 | the inner loop fills column i from its rank map and leaves the other columns untouched |
| RankLaws.SortIndependentOfOrder | ranking/src/lib.rs:53-59 | the sorted list is the same for every iteration order of the `HashMap`, so the unspecified order cannot change a rank |
| RankLaws.SortedUnique | ranking/src/lib.rs:55-57 | two lists sorted by the key and holding the same entries are equal, because the sort key is total |
| RankLaws.RankOrder | ranking/src/lib.rs:53-66 | of two different codes present, the one with the higher count, or the equal count and the smaller code, has the higher rank, and only that one |
| RankLaws.HigherCountHigherRank | ranking/src/lib.rs:56 | a strictly more frequent code ranks strictly higher |
| RankLaws.TieBreak | ranking/src/lib.rs:56 | on equal counts, the smaller code ranks higher |
| RankLaws.RankDense | ranking/src/lib.rs:61-66 | every rank 1..K is taken by some code present |
| RankLaws.RankExtremes | ranking/src/lib.rs:61-66 | a code ranks K exactly when it outranks every other code present, and ranks 1 exactly when every other code outranks it |
| RankLaws.RankMatchesReference | ranking/src/lib.rs:9-19 | every rank the engine gives equals the reference rank of the code in its column |
| RankLaws.OutrankedCount | ranking/src/lib.rs:64-65 | the codes a code outranks are exactly the entries after it in the sorted list |
| RankLaws.SoleSymbolRanksOne | ranking/src/lib.rs:61-66 | a column with one distinct non-gap code ranks it 1 |
| RankLaws.RankTableCells | ranking/src/lib.rs:21-28 | each output cell is its code's rank in its own column; it is 0 exactly for gaps and at most K |
| RankLaws.ColumnLocal | ranking/src/lib.rs:11-27 | a column of the output depends only on the same column of the input |
| RankLaws.PresentCountBound | ranking/src/lib.rs:61-66 | with codes at most 23, at most 23 distinct codes are present, so no rank exceeds 23 |
| Occurrences.Symbols | q2_protein_pca/_ranking.py:27-28 | an admissible index always exists: the sorted union of the symbols, which lists every symbol of the frame once |
| Occurrences.Tally | q2_protein_pca/_ranking.py:28 | one count per symbol: its number of occurrences in the column (0 where `fillna(0)` applies) |
| Occurrences.GetOccurrences | q2_protein_pca/_ranking.py:27-28 | for any index order listing every symbol of the frame once: one row per symbol in that order, one column per frame column, each cell that symbol's count in that column |
| Occurrences.ColumnSums | ProtPCA/ranking.py:103-104 | every column of the occurrence table adds up to the number of sequences, gaps included |
| PluginRanking.PosLabel | q2_protein_pca/_ranking.py:22 | the column name of 0-based position x is "pos" followed by the decimal x + 1 |
| PluginRanking.PosLabels | q2_protein_pca/_ranking.py:22 | the names pos1..posN, pairwise distinct |
| PluginRanking.DfFromSequences | q2_protein_pca/_ranking.py:17-24 | one row per sequence in input order, labelled by its id, holding its residues; columns pos1..posN from the first sequence; no sequences, or sequences of different lengths, are errors |
| PluginRanking.Encode | q2_protein_pca/_ranking.py:32 | `replace(AA_MAP).astype(uint32)` succeeds exactly when every symbol is in `AA_MAP`, and then each cell holds its symbol's code |
| PluginRanking.RankColumns | q2_protein_pca/_ranking.py:31-37 | ranking succeeds exactly on frames of mapped symbols; row labels and column names are kept, and the index is named "Sequence ID" |
| PluginRanking.Rank | q2_protein_pca/_ranking.py:40-43 | `_rank` succeeds exactly when the frame can be built and encoded; its labels are the ids, and its columns are pos1..posN |
| PluginRanking.RankedCell | q2_protein_pca/_ranking.py:31-37 | a ranked cell is the engine rank, and the reference rank, of its symbol's code in its own column; it is 0 exactly for gaps and never above 23 |
| PluginRanking.EncodedColumnBound | q2_protein_pca/_ranking.py:32 | encoded columns hold codes 0..23 only |
| PluginRanking.RankOf | ranking/src/lib.rs:61-66 | the rank of a code present is one more than the number of codes it outranks |
| PluginRanking.WorkedExample | q2_protein_pca/tests/test_ranking.py:63-77 | the four-sequence frame of the test ranks to columns 1 1 1 1, 0 2 2 1, 2 1 2 0 and 0 1 2 0, with the index named "Sequence ID" |
| PluginRanking.TableFromReference | ranking/src/lib.rs:21-28 | a table whose every cell is the reference rank of its code is the engine's output |
| LegacyRanking.CountOf | ProtPCA/ranking.py:104 | the count of a symbol in an occurrence series, 0 when it is not listed |
| LegacyRanking.DropGap | ProtPCA/ranking.py:109 | the series without its gap item, and nothing else removed |
| LegacyRanking.SortDesc | ProtPCA/ranking.py:111-113 | a permutation of the series, sorted by count descending, then symbol descending |
| LegacyRanking.RunLengths | ProtPCA/ranking.py:116-119 | the runs of equal counts, with sizes adding up to the number of items |
| LegacyRanking.GroupRanks | ProtPCA/ranking.py:135-145 | a group of `num` items gets the ranks tot - num + 1 .. tot, in order, paired with the next items |
| LegacyRanking.ToDict | ProtPCA/ranking.py:146 | `dict(pairs)` has exactly the keys of the pairs |
| LegacyRanking.RankAlphabet | ProtPCA/ranking.py:107-151 | the result always ranks the gap 0 |
| LegacyLaws.NonzeroTotalCounts | ProtPCA/ranking.py:125-127 | `all_ranks_by_sum` is the number of occurring items |
| LegacyLaws.AssignSpec | ProtPCA/ranking.py:129-145 | the group loop gives the i-th sorted occurring item one more than the number of items it outranks |
| LegacyLaws.PresentPrefix | ProtPCA/ranking.py:112 | in the sorted series, the occurring items come first |
| LegacyLaws.ToDictValues | ProtPCA/ranking.py:146 | with distinct keys, `dict(pairs)` maps every key to its own value |
| LegacyLaws.RankAlphabetSpec | ProtPCA/ranking.py:107-151 | `rank_alphabet` ranks the gap 0; it ranks a non-gap symbol exactly when the symbol occurs, and with one more than the number of occurring non-gap symbols it outranks |
| LegacyTable.SeriesOf | ProtPCA/ranking.py:160 | column i of the occurrence table as the series `rank_alphabet` receives |
| LegacyTable.ColumnRanks | ProtPCA/ranking.py:160 | one rank dictionary per column, each ranking the gap 0 |
| LegacyTable.RankAllColumns | ProtPCA/ranking.py:153-165 | `rank_all_columns` keeps the frame's labels and columns |
| LegacyTable.RankAllColumnsSpec | ProtPCA/ranking.py:153-165 | every cell is replaced, by the reference rank of its symbol within its own column |
| LegacyTable.SymbolRankIsLegacy | ProtPCA/ranking.py:156-160 | the rank read from the occurrence series equals the rank computed on the column itself |
| LegacyTable.RankAllColumnsOrderFree | ProtPCA/ranking.py:153-165 | `rank_all_columns` gives the same frame whatever order pandas chooses for the occurrence table's index |
| LegacyTable.SeriesRank | ProtPCA/ranking.py:156-160 | any series that lists every symbol of a column once, with its count there, gives each symbol the rank the column itself gives it |
| LegacyExamples.RankAlphabetIs | ProtPCA/ranking.py:107-151 | a map that ranks the gap 0 and exactly the occurring symbols by their reference rank is what `rank_alphabet` returns |
| LegacyExamples.RankAlphabetPos5 | test/test_helpers.py:76-81 | column pos5 (gap 2, A 1, E 3) ranks to {A: 1, E: 2, -: 0} |
| LegacyExamples.RankAlphabetPos4 | test/test_helpers.py:83-86 | column pos4 (C 3, D 2, E 1) ranks to {C: 3, D: 2, E: 1, -: 0} |
| RankAgreement.MappedRank | q2_protein_pca/_ranking.py:31-33 | ranks carry over through any encoding that is one-to-one, preserves order and sends exactly the gap to 0 |
| RankAgreement.SymbolRankIsRefRank | q2_protein_pca/_ranking.py:32-33 | a symbol's rank in its column equals its code's rank in the encoded column |
| RankAgreement.LegacyAgreesWithEngine | ProtPCA/ranking.py:153-165 | on every alignment of `AA_MAP` symbols, `rank_all_columns` gives each cell the very rank `_rank_columns` computes for it |
| PositionMap.Degap | q2_protein_pca/_alignment.py:119 | the ungapped sequence: as many characters as residues, none a gap |
| PositionMap.MapSequence | q2_protein_pca/_alignment.py:117-124 | one cell per alignment position, null exactly at gaps |
| PositionMap.MapSequenceValue | q2_protein_pca/_alignment.py:119-122 | a residue's cell is the number of residues before it |
| PositionMap.DegapAt | q2_protein_pca/_alignment.py:119-122 | round trip: the residue's number indexes that same residue in the ungapped sequence |
| PositionMap.Consecutive | q2_protein_pca/_alignment.py:120-122 | successive residues, with only gaps between them, are numbered consecutively |
| PositionMap.MappedCount | q2_protein_pca/_alignment.py:120-122 | exactly as many cells are numbered as there are residues |
| PositionMap.MaxLength | q2_protein_pca/_alignment.py:126 | the number of rows of the concatenated frame: the length of the longest sequence |
| PositionMap.MapPositions | q2_protein_pca/_alignment.py:113-131 | one column per id in input order, rows 0..longest-1, and the index named "Alignment position" |
| PositionMap.MapPositionsCell | q2_protein_pca/_alignment.py:113-131 | a cell is null exactly at a gap or past the end of a shorter sequence; otherwise it is the number of residues before that position |
| Mafft.FindDuplicate | q2_protein_pca/_alignment.py:39-51 | reports no position exactly when the ids are distinct; otherwise the first id that repeats an earlier one |
| Mafft.ThreadArgument | q2_protein_pca/_alignment.py:72-79 | the thread argument reads back as -1 for 'auto', and as the number otherwise |
| Mafft.Command | q2_protein_pca/_alignment.py:78-87 | the fixed options, the thread count, then '--parttree' when asked for, then the input file, or '--add' with both files |
| Mafft.MafftCommand | q2_protein_pca/_alignment.py:39-89 | succeeds exactly when the ids are distinct and there are at most 1,000,000 of them or `parttree` is set; a duplicate error names the first repeated id |
| Mafft.DefaultCommand | q2_protein_pca/_alignment.py:134-138 | the `mafft` action's command, with one thread and neither `parttree` nor an existing alignment |
| RankedFormat.CheckHeader | q2_protein_pca/_format.py:31-46 | on success, the header length that every row must match |
| RankedFormat.Rest | q2_protein_pca/_format.py:55 | `line[1:]`, empty for an empty line |
| RankedFormat.CheckHeaderValid | q2_protein_pca/_format.py:31-46 | the header check passes exactly on "Sequence ID" followed by at least one cell, every later cell starting with "pos" |
| RankedFormat.CheckRowValid | q2_protein_pca/_format.py:47-63 | a row passes exactly when it has the header's length and every cell after the first is a decimal number of at most 23 |
| RankedFormat.CheckRowsValid | q2_protein_pca/_format.py:27-65 | the rows pass exactly when each of them is valid |
| RankedFormat.ValidateMaxAccepts | q2_protein_pca/_format.py:18-72 | at level 'max', a file passes exactly when it has a valid header, at least one row, and only valid rows |
| RankedFormat.ValidateMinPrefix | q2_protein_pca/_format.py:71-72 | level 'min' gives the verdict 'max' gives on the first 5 lines |
| RankedFormat.ValidateMinLocal | q2_protein_pca/_format.py:72 | files that agree on their first 5 lines get the same 'min' verdict |
| RankedFormat.MaxImpliesMin | q2_protein_pca/_format.py:71-72 | whatever passes at 'max' passes at 'min' |
| RankedFormat.FirstCellIrrelevant | q2_protein_pca/_format.py:55-63 | the sequence id in a row's first cell never changes the verdict |
| RankedFormat.FailingRow | q2_protein_pca/_format.py:27-63 | a rejection reports the first failing row, with that row's own 1-based line number; all earlier rows pass |
| RankedOutput.CsvLines | q2_protein_pca/_transformer.py:23-29 | the header is the index name and the column names; each row is its id followed by its values in decimal, which read back as the values |
| RankedOutput.CsvLinesValid | q2_protein_pca/_transformer.py:23-29 | a frame indexed by "Sequence ID", with "pos" columns, at least one row and values at most 23, is written as a file that passes both levels |
| RankedOutput.RankOutputValid | q2_protein_pca/_ranking.py:40-43 | every frame `_rank` produces for sequences of at least one position is written as a file that passes the format check at both levels |
| Helpers.SplitString | ProtPCA/helpers.py:63-64 | one one-character string per character, in order |
| Helpers.ConcatSplitString | ProtPCA/helpers.py:63-64 | joining the pieces gives back the text |
| Helpers.SplitStringExample | test/test_helpers.py:66-70 | "PROTEIN" splits into its seven letters |
| Helpers.ReadFrom | ProtPCA/helpers.py:48-59 | the loop emits one record per header line, after the records it already has |
| Helpers.ReadFasta | ProtPCA/helpers.py:45-60 | fails exactly on no lines, or a first line that is not a header; otherwise one record per header line, the first named by the first line without its last character |
| Helpers.ReadFastaNames | ProtPCA/helpers.py:49-55 | the record names are the header lines, each without its last character, in order |
| Helpers.Blocks | ProtPCA/helpers.py:49-58 | cutting a file that starts with a header before every header line gives well-formed blocks (a header, then non-header lines) that give back exactly the file's lines |
| Helpers.ReadBody | ProtPCA/helpers.py:56-58 | a run of non-header lines only extends the current sequence, by the concatenation of those lines each without its last character |
| Helpers.ReadBlock | ProtPCA/helpers.py:49-58 | a header closes the current record, and the header with its block's lines makes exactly that block's record |
| Helpers.ReadBlocks | ProtPCA/helpers.py:48-59 | reading whole blocks closes the current record, then yields one record per block, in order |
| Helpers.ReadFastaBlocks | ProtPCA/helpers.py:45-60 | the lines of well-formed blocks read as one record per block: its header without the last character, and its lines, each without the last character, concatenated |
| Helpers.ReadFastaSpec | ProtPCA/helpers.py:45-60 | every file that starts with a header reads as the records of its blocks, so each record's sequence is the concatenation of the trimmed lines up to the next header |
| Helpers.ReadFastaExample | ProtPCA/helpers.py:45-60 | a record whose sequence spans two lines reads as their concatenation, followed by a one-line record |
| Helpers.ReadFastaWritten | ProtPCA/helpers.py:45-60 | round trip: reading the lines written for records with header names and non-header sequences gives back the records; no records read as an error |
| Helpers.FirstIndex | ProtPCA/helpers.py:71 | the first position of a value |
| Helpers.Unique | ProtPCA/helpers.py:71 | `unique()`: every value of the column once, in order of first appearance |
| Helpers.FindUniqueAas | ProtPCA/helpers.py:67-72 | one list per column, holding that column's values once each, in order of first appearance |
| Helpers.MakeLabel | ProtPCA/helpers.py:98-99 | the decimal number, zero-filled on the left up to the width; never shortened |
| Helpers.MakeLabelParse | ProtPCA/helpers.py:98-99 | the label of a non-negative number is all digits and reads back as the number |
| Helpers.MakeLabelExamples | test/test_helpers.py:121-132 | 1, 100, 10000 with width 4 and 10 with width 6 give "0001", "0100", "10000", "000010" |
| Helpers.RawPositions | ProtPCA/helpers.py:127-129 | for a row whose columns are labelled from pos{o}: the labels of the residue columns, ascending, one per residue |
| Helpers.RawIndex | ProtPCA/helpers.py:138 | `positions.index(m)` is the number of residues before column pos{m}: the position map's value there |
| Helpers.ColorOf | ProtPCA/helpers.py:133-140 | one pass of the loop: nothing exactly for a gap; otherwise the row built with `positions.index` is the expected row, whose PosRaw counts the residues before the column |
| Helpers.PositionsToColor | ProtPCA/helpers.py:125-141 | succeeds exactly when every selected position names a column of the row, pos{o} to pos{o+N-1}; otherwise it reports a missing column |
| Helpers.ExpectedMeaning | ProtPCA/helpers.py:138-140 | PosRaw is the residue's 1-based place in the ungapped sequence, which holds that residue |
| Helpers.PositionsToColorSpec | ProtPCA/helpers.py:132-140 | one row per selected position on a residue, in input order, none for gaps; each row is (m + 1, residues before + 1, residue, score, its absolute value) |
| Helpers.PositionsToColorFromZero | ProtPCA/helpers.py:125-141 | on a row labelled from pos0, as ProtPCA's own frames are: pos0 on a residue gives PosAln 1 and PosRaw 1, a gap is skipped, and pos2 of a two-column row is a missing column |
| Helpers.PositionsToColorExample | test/test_helpers.py:134-142 | the test's row, labelled from pos1, "-ABCE" with positions 2 and 5 gives rows (3, 1, A, 1.2, 1.2) and (6, 4, E, -2.0, 2.0) |
| ProtAlign.MaxOf | ProtPCA/alignment.py:81 | the largest length, and one of them |
| ProtAlign.SequenceEnd | ProtPCA/alignment.py:79-88 | no sequences is an error; otherwise the configured end, or the longest length when configured as -1 |
| ProtAlign.BoundValue | ProtPCA/alignment.py:122-125 | a number is itself; a text bound is the integer `int()` reads from it, or an error naming the text |
| ProtAlign.PySlice | ProtPCA/alignment.py:126 | Python's `s[i:j]` is a contiguous piece of `s` |
| ProtAlign.SliceSequence | ProtPCA/alignment.py:120-126 | succeeds exactly when both bounds read as integers; the result is a contiguous piece of the sequence |
| ProtAlign.SliceInside | ProtPCA/alignment.py:123-126 | a window inside the sequence is cut out exactly: positions start through end, 1-based |
| ProtAlign.SliceBeyond | ProtPCA/alignment.py:126 | an end past the sequence keeps it whole, whatever the start |
| ProtAlign.SliceStartZero | ProtPCA/alignment.py:123-126 | start 0 becomes index -1: the last residue alone when the window ends there, and nothing otherwise |
| ProtAlign.SliceText | ProtPCA/alignment.py:122-125 | text bounds slice as the integers they spell, surrounding whitespace ignored |
| ProtAlign.DefaultWindowWhole | ProtPCA/alignment.py:86-126 | the window 1..longest keeps every sequence whole |
| ProtAlign.ParseLine | ProtPCA/alignment.py:97 | a positions line becomes at least one text field, none containing a comma, and the fields joined with commas give back the stripped line |
| ProtAlign.Positions | ProtPCA/alignment.py:94-107 | one entry per file line; with no file or an empty file, (sequence_start, sequence_end) once per id |
| ProtAlign.ReadAlnPositionsAsWritten | ProtPCA/alignment.py:92-118 | as written: the count mismatch and the missing second field are errors, and the subtraction fails unless every bound is a number |
| ProtAlign.LengthsAsWritten | ProtPCA/alignment.py:114 | the subtraction succeeds exactly when both bounds of every entry are numbers |
| ProtAlign.FileNeverAccepted | ProtPCA/alignment.py:97-114 | with any non-empty positions file, reading the positions fails |
| ProtAlign.FileCounterexample | ProtPCA/alignment.py:97-114 | the one-line positions file "1,3" fails with a type error |
| ProtAlign.Lengths | ProtPCA/alignment.py:114-123 | the slice lengths, end - start, over the integer values of the bounds; an error when a bound is not a number |
| ProtAlign.ReadAlnPositions | ProtPCA/alignment.py:92-118 | the count mismatch, the missing second field and the non-numeric bound are exactly the errors; otherwise one slice per sequence, with the bounds of its entry and their difference |
| ProtAlign.DefaultPositions | ProtPCA/alignment.py:98-114 | without positions lines, reading succeeds exactly when ids and sequences agree in number, and every slice is the configured window |
| ProtAlign.FileExample | ProtPCA/alignment.py:97-114 | with the correction, the positions line "1,3" reads as the window 1..3 of length 2 |
| ProtAlign.SliceAll | ProtPCA/alignment.py:128-130 | every sequence cut to its own window; fails exactly when some window's bounds are not numbers |
| ProtAlign.DefaultRunKeepsSequences | ProtPCA/alignment.py:79-130 | with no positions file, start 1 and end -1, every sequence is kept whole |

## Left out

- I/O is not modelled:
  - reading the configuration;
  - reading FASTA, alignment and positions files;
  - writing CSV, FASTA and summary files;
  - logging, timestamps and the progress bar.

  File contents arrive as parameters: lines, records, ids.
- Running MAFFT, Clustal Omega and the PCA is not modelled, and neither are the plot, `calculate_covariance_matrix`, `euclidean_distance`, `locate_positions` or `fetch_record_ncbi`. They are numerical (floating point), foreign programs, or network calls.
- `_mafft` after the command is built is not modelled: running it, re-reading the output and restoring the ids. The aligned-ids dictionary is always empty in the code, because its filling loop is commented out, so the "present in both" error can never be raised. The model omits that error.
- Rust's `u32` and the `(occurs_len - i) as u32` cast are modelled as unbounded naturals. Codes and ranks are at most 23, so they cannot wrap.
- The per-code counts of `_count_occurrences` are also `u32`. A count is at most the number of sequences, so the model assumes fewer than 2^32 sequences. Beyond that, `+= 1` would wrap in a release build and panic in a debug build; neither is modelled.
- Occurrences.GetOccurrences: the order of the occurrence table's index is a parameter, constrained only to list every symbol of the frame once. pandas' exact choice is left out: the sorted union when the columns' `value_counts` indexes differ, their common order when they coincide. The ranking results are proved independent of it (LegacyTable.RankAllColumnsOrderFree).
- Occurrences.GetOccurrences: a frame with rows but no columns is modelled with an empty index. pandas returns the frame's own row labels there. No column is ranked either way.
- PluginRanking.DfFromSequences: sequences of unequal length are a single `RaggedAlignment` error. pandas pads shorter rows with nulls, and the later `astype(uint32)` then fails, so the model does not give the exact exception.
- PluginRanking.Encode: a digit character would survive `replace(AA_MAP)` and `astype(uint32)` in pandas. Protein sequences never contain digits, so every symbol outside `AA_MAP` is modelled as a failure.
- Python's `isdigit`, `int()` and `strip()` are modelled on ASCII only: Unicode digits, Unicode whitespace and underscores inside numbers are left out.
- CSV quoting and `csv.reader` itself are not modelled. A file is the list of cell lists the reader yields.
- `PositionMappingFormat._validate_` always accepts, because its checks are commented out. It has no model.
- `protein_pca/helpers.py`, which the ProtPCA helper tests import, is not part of this model. Those tests' examples are stated against the `ProtPCA/helpers.py` functions, which they exercise in the same way.
- Helpers.MakeLabel: a negative width is not modelled (the width is a natural).
- Helpers.MakeLabelParse: only non-negative numbers are stated to read back. For a negative number, Python's `'{:>0{w}}'` puts the zeros before the sign, so the label is not an integer literal.
- Helpers.PositionsToColor: PC scores are Dafny reals, not floats.
- Helpers.PositionsToColor: the test passes a three-element entry, whose third element is ignored. The model takes only the position and the score.
- Helpers.PositionsToColor: PosAln is `m + 1` although the residue is read from column `pos{m}`. The model keeps this as written, and the test expects it.
- Helpers.FindUniqueAas: pandas `unique()` returns an array; the model returns a sequence.
- ProtAlign.SequenceEnd: the `min()` that is also taken is only reflected in its error on no sequences. Its value is only logged.
- The `SequenceMismatch` message and the other error texts are not modelled; only which error occurs is modelled.
- `write_slices_to_fasta`, `align_sequences` and `convert_aln_to_fasta` are file and process I/O. They are not modelled.

## Findings

| source | as written | input that shows it | evidently intended | confidence | as-written member | corrected member |
|---|---|---|---|---|---|---|
| ProtPCA/alignment.py:97-114 | bounds read from the positions file stay strings, so `Slice_end - Slice_start` raises a TypeError on every positions file that passes the earlier checks: as many lines as sequence ids, each with at least two fields (a mismatched count gives `SequenceMismatch`, a short line an IndexError, first) | one sequence `s1` = "MKVL", a positions file with the line "1,3", sequence_start 1, sequence_end -1 | the bounds are read as integers, as `slice_sequence` does at lines 122-125, giving the window 1..3 of length 2 | not executed | ProtAlign.ReadAlnPositionsAsWritten, ProtAlign.FileCounterexample | ProtAlign.ReadAlnPositions, ProtAlign.FileExample |
