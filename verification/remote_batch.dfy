/**
 * The remote client's batch loop: each file is recognised in turn, and the
 * files whose recognition gave a truthy result are collected with that result.
 * The recognition of one file (an HTTP request) is a parameter, as is Python's
 * truthiness of the decoded response. Recognition may also raise (opening a
 * path that exists but cannot be read happens outside the request's `try`),
 * and nothing in the loop catches it: the whole batch is then lost.
 */
module RemoteBatch {
  import opened Wrappers
  import opened Seqs

  /** What recognising one file does: return a result (possibly none), or raise. */
  datatype Recognition<R> = Returned(result: Option<R>) | Raised

  /** One entry of the batch result: the file and what recognising it returned. */
  datatype FileResult<R> = FileResult(file: string, result: R)

  /** What one file contributes: an entry when it returned a truthy result. */
  function BatchEntry<R>(recognize: string -> Recognition<R>, truthy: R -> bool): string -> Option<FileResult<R>>
  {
    f =>
      var outcome := recognize(f);
      if TruthyReturn(outcome, truthy)
      then Some(FileResult(f, outcome.result.value))
      else None
  }

  /** Recognition returned a truthy result. */
  predicate TruthyReturn<R>(outcome: Recognition<R>, truthy: R -> bool)
  {
    outcome.Returned? && outcome.result.Some? && truthy(outcome.result.value)
  }

  /** Recognising some file of `files` raises. */
  predicate Raises<R>(files: seq<string>, recognize: string -> Recognition<R>)
  {
    exists i :: 0 <= i < |files| && recognize(files[i]).Raised?
  }

  /**
   * The outcome of the batch, file by file: `None` once a file raises (the
   * exception leaves the loop), otherwise the entries of the files with a
   * truthy result, in file order.
   */
  function Batch<R>(files: seq<string>, recognize: string -> Recognition<R>, truthy: R -> bool)
    : (r: Option<seq<FileResult<R>>>)
    ensures r.None? <==> Raises(files, recognize)
    ensures r.Some? ==> r.value == FilterMap(files, BatchEntry(recognize, truthy))
    decreases |files|
  {
    if files == [] then Some([])
    else
      var n := |files| - 1;
      var prior := Batch(files[..n], recognize, truthy);
      assert forall i :: 0 <= i < n ==> files[..n][i] == files[i];
      if prior.None? || recognize(files[n]).Raised? then None
      else Some(prior.value + Kept(BatchEntry(recognize, truthy)(files[n])))
  }

  /**
   * The batch loop: recognise each file and append an entry when the result is
   * truthy; a file that raises ends the loop and the batch with it.
   */
  method RecognizeMultipleFiles<R>(files: seq<string>, recognize: string -> Recognition<R>, truthy: R -> bool)
    returns (r: Option<seq<FileResult<R>>>)
    ensures r == Batch(files, recognize, truthy)
  {
    var results := [];
    for i := 0 to |files|
      invariant Batch(files[..i], recognize, truthy) == Some(results)
    {
      assert files[..i + 1][..i] == files[..i] && files[..i + 1][i] == files[i];
      var outcome := recognize(files[i]);
      if outcome.Raised? {
        return None;
      }
      ghost var entry := BatchEntry(recognize, truthy)(files[i]);
      assert Batch(files[..i + 1], recognize, truthy) == Some(results + Kept(entry));
      if outcome.result.Some? && truthy(outcome.result.value) {
        assert Kept(entry) == [FileResult(files[i], outcome.result.value)];
        results := results + [FileResult(files[i], outcome.result.value)];
      } else {
        assert Kept(entry) == [] && results + [] == results;
      }
    }
    assert files[..|files|] == files;
    r := Some(results);
  }

  /** A file that raises aborts the whole batch, whatever the files around it do. */
  lemma AbortsOnRaise<R>(before: seq<string>, file: string, after: seq<string>,
                         recognize: string -> Recognition<R>, truthy: R -> bool)
    requires recognize(file).Raised?
    ensures Batch(before + [file] + after, recognize, truthy) == None
  {
    assert (before + [file] + after)[|before|] == file;
  }

  /**
   * When the batch completes, the k-th entry is for the file at position idx[k],
   * carries that file's own truthy result, positions increase, and every file
   * with a truthy result has an entry.
   */
  lemma BatchInOrder<R>(files: seq<string>, recognize: string -> Recognition<R>, truthy: R -> bool)
    ensures var r, idx := Batch(files, recognize, truthy), KeptIndices(files, BatchEntry(recognize, truthy));
      r.Some? ==>
        && |idx| == |r.value|
        && (forall k :: 0 <= k < |idx| ==>
              && idx[k] < |files|
              && r.value[k].file == files[idx[k]]
              && recognize(files[idx[k]]) == Returned(Some(r.value[k].result))
              && truthy(r.value[k].result))
        && (forall k, l :: 0 <= k < l < |idx| ==> idx[k] < idx[l])
        && (forall i :: 0 <= i < |files| && TruthyReturn(recognize(files[i]), truthy) ==> i in idx)
  {
    var f := BatchEntry(recognize, truthy);
    FilterMapTrace(files, f);
    var idx := KeptIndices(files, f);
    forall i | 0 <= i < |files| && TruthyReturn(recognize(files[i]), truthy)
      ensures i in idx
    {
      assert f(files[i]).Some?;
    }
  }

  /** Whether a batch raises is decided by its files one by one. */
  lemma RaisesAround<R>(before: seq<string>, file: string, after: seq<string>, recognize: string -> Recognition<R>)
    ensures Raises(before + [file] + after, recognize)
      <==> Raises(before, recognize) || recognize(file).Raised? || Raises(after, recognize)
  {
    var all := before + [file] + after;
    if Raises(all, recognize) {
      var i :| 0 <= i < |all| && recognize(all[i]).Raised?;
      if i < |before| {
        assert all[i] == before[i];
      } else if i > |before| {
        assert all[i] == after[i - |before| - 1];
      }
    }
    if Raises(before, recognize) {
      var i :| 0 <= i < |before| && recognize(before[i]).Raised?;
      assert all[i] == before[i];
    }
    if Raises(after, recognize) {
      var i :| 0 <= i < |after| && recognize(after[i]).Raised?;
      assert all[|before| + 1 + i] == after[i];
    }
    assert all[|before|] == file;
  }

  /**
   * A file that returns no result, or a falsy one, is left out, and the files
   * around it are unaffected: the batch completes exactly when both sides do,
   * with the entries of both sides.
   */
  lemma FailureIsolated<R>(before: seq<string>, file: string, after: seq<string>,
                           recognize: string -> Recognition<R>, truthy: R -> bool)
    requires recognize(file).Returned?
    requires recognize(file).result.None? || !truthy(recognize(file).result.value)
    ensures var whole, b, a := Batch(before + [file] + after, recognize, truthy),
        Batch(before, recognize, truthy), Batch(after, recognize, truthy);
      && (whole.Some? <==> b.Some? && a.Some?)
      && (whole.Some? ==> whole.value == b.value + a.value)
  {
    RaisesAround(before, file, after, recognize);
    FilterMapSkips(before, file, after, BatchEntry(recognize, truthy));
  }

  /**
   * A file with a truthy result gets its entry between those of the files
   * around it, when the batch completes.
   */
  lemma SuccessRecorded<R>(before: seq<string>, file: string, after: seq<string>,
                           recognize: string -> Recognition<R>, truthy: R -> bool)
    requires TruthyReturn(recognize(file), truthy)
    ensures var whole, b, a := Batch(before + [file] + after, recognize, truthy),
        Batch(before, recognize, truthy), Batch(after, recognize, truthy);
      && (whole.Some? <==> b.Some? && a.Some?)
      && (whole.Some? ==> whole.value == b.value + [FileResult(file, recognize(file).result.value)] + a.value)
  {
    RaisesAround(before, file, after, recognize);
    FilterMapKeeps(before, file, after, BatchEntry(recognize, truthy));
  }
}
