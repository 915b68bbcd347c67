/** The argument checks and the command line of `_mafft` in the QIIME 2
    plugin. Reading the sequence ids from the FASTA file, running the
    aligner and rewriting its output are not modelled: the ids arrive as a
    parameter, in file order, and the result is the command to run. */
module Mafft {
  import opened Results
  import opened Counting
  import opened Text

  /** The `n_threads` argument: the word 'auto' or a number. */
  datatype Threads = Auto | Count(n: int)

  datatype MafftError =
    | DuplicateId(id: string)      // "A sequence ID is duplicated in the unaligned sequences"
    | TooManySequences             // more than 1,000,000 ids and no `parttree`

  /** Largest number of sequences the aligner accepts without `parttree`. */
  const MaxSequences: nat := 1_000_000

  /** The first position whose id already occurred before it, if any: the
      loop over the unaligned sequences with its dictionary of seen ids. */
  method FindDuplicate(ids: seq<string>) returns (dup: Option<nat>)
    ensures dup.None? <==> Distinct(ids)
    ensures dup.Some? ==> dup.value < |ids| && ids[dup.value] in ids[..dup.value]
    ensures dup.Some? ==> Distinct(ids[..dup.value])
  {
    var seen: set<string> := {};
    var k := 0;
    while k < |ids|
      invariant 0 <= k <= |ids|
      invariant seen == set j | 0 <= j < k :: ids[j]
      invariant Distinct(ids[..k])
    {
      if ids[k] in seen {
        assert ids[k] in ids[..k];
        NotDistinct(ids, k);
        return Some(k);
      }
      seen := seen + {ids[k]};
      assert ids[..k + 1] == ids[..k] + [ids[k]];
      k := k + 1;
    }
    assert ids[..k] == ids;
    return None;
  }

  /** A sequence with an element repeated at `k` is not free of repetitions. */
  lemma NotDistinct(ids: seq<string>, k: nat)
    requires k < |ids| && ids[k] in ids[..k]
    ensures !Distinct(ids)
  {
    var j :| 0 <= j < k && ids[..k][j] == ids[k];
    assert ids[j] == ids[k];
  }

  /** `str(n_threads)` after 'auto' has been turned into -1, the aligner's
      signal for using every core. */
  function ThreadArgument(threads: Threads): (arg: string)
    ensures ParseInt(arg) == Some(if threads.Auto? then -1 else threads.n)
  {
    var n := if threads.Auto? then -1 else threads.n;
    ParseIntToString(n);
    IntToString(n)
  }

  /** The command list: fixed options, the thread count, '--parttree' when
      asked for, then the input file (or '--add' with both files when an
      existing alignment is extended). */
  function Command(threads: Threads, parttree: bool, sequencesPath: string,
                   alignmentPath: Option<string>): (cmd: seq<string>)
    ensures |cmd| >= 6
    ensures cmd[..4] == ["mafft", "--preservecase", "--inputorder", "--thread"]
    ensures ParseInt(cmd[4]) == Some(if threads.Auto? then -1 else threads.n)
    ensures var rest := cmd[5..];
            (parttree ==> rest[0] == "--parttree") &&
            rest[if parttree then 1 else 0..] ==
              (if alignmentPath.Some? then ["--add", sequencesPath, alignmentPath.value] else [sequencesPath])
  {
    var head := ["mafft", "--preservecase", "--inputorder", "--thread", ThreadArgument(threads)];
    var option: seq<string> := if parttree then ["--parttree"] else [];
    var inputs := if alignmentPath.Some? then ["--add", sequencesPath, alignmentPath.value] else [sequencesPath];
    Pieces(head, option, inputs);
    head + option + inputs
  }

  /** Where the pieces of a five-element head, an option list and the
      inputs end up in their concatenation. */
  lemma Pieces(head: seq<string>, option: seq<string>, inputs: seq<string>)
    requires |head| == 5 && |option| <= 1 && |inputs| >= 1
    ensures var cmd := head + option + inputs;
            |cmd| >= 6 && cmd[..4] == head[..4] && cmd[4] == head[4] &&
            cmd[5..] == option + inputs && (|option| == 1 ==> cmd[5] == option[0]) &&
            cmd[5..][|option|..] == inputs
  {
    var cmd := head + option + inputs;
    assert cmd[5..] == option + inputs;
    assert (option + inputs)[|option|..] == inputs;
  }

  /** `_mafft` up to running the aligner: a duplicated id fails first, then
      more than 1,000,000 sequences without `parttree`; otherwise the
      command to run. */
  method MafftCommand(ids: seq<string>, threads: Threads, parttree: bool,
                      sequencesPath: string, alignmentPath: Option<string>)
    returns (r: Result<seq<string>, MafftError>)
    ensures r.Ok? <==> Distinct(ids) && (parttree || |ids| <= MaxSequences)
    ensures r.Err? && r.error.DuplicateId? ==>
              exists k :: 0 <= k < |ids| && ids[k] == r.error.id && ids[k] in ids[..k] && Distinct(ids[..k])
    ensures r.Err? && r.error.TooManySequences? ==> Distinct(ids) && !parttree && |ids| > MaxSequences
    ensures r.Ok? ==> r.value == Command(threads, parttree, sequencesPath, alignmentPath)
  {
    var dup := FindDuplicate(ids);
    if dup.Some? {
      return Err(DuplicateId(ids[dup.value]));
    }
    DistinctSetSize(ids);
    var count := |set id | id in ids|;
    if !parttree && count > MaxSequences {
      return Err(TooManySequences);
    }
    return Ok(Command(threads, parttree, sequencesPath, alignmentPath));
  }

  /** The default call of the `mafft` action: one thread, no `parttree`,
      no existing alignment. */
  lemma DefaultCommand(path: string)
    ensures Command(Count(1), false, path, None) ==
              ["mafft", "--preservecase", "--inputorder", "--thread", "1", path]
  {
  }
}
