/** What the next run sees: the checkpoint left by one run, fed back as the exclusion
    list of the next run over the same universe. The requirements of each lemma are
    the postconditions of the driver that produced the checkpoint. */
module Resume {
  import opened Wrappers
  import opened Checkpoint
  import opened Universe
  import opened Classify
  import opened Export

  /** Crash safety: a run killed after its k-th checkpoint rewrite leaves exactly
      `|pending| - k` references for the next run, none of them already excluded. */
  lemma CrashAfterSave(universe: seq<string>, excluded0: seq<string>, appended: seq<string>,
                       saves: seq<seq<string>>, k: nat)
    requires NoDup(appended)
    requires forall r :: r in appended ==> r in Pending(universe, excluded0)
    requires SavedAfterEachAppend(excluded0, appended, saves)
    requires 0 < k <= |saves|
    ensures Pending(universe, saves[k - 1]) <= Pending(universe, excluded0)
    ensures |Pending(universe, saves[k - 1])| == |Pending(universe, excluded0)| - k
  {
    var done := appended[..k];
    assert saves[k - 1] == excluded0 + done;
    assert NoDup(done);
    forall r | r in done ensures r in Pending(universe, excluded0) {
      assert r in appended;
    }
    ResumeAfter(universe, excluded0, done);
  }

  /** CrashAfterSave at every checkpoint rewrite of a run. */
  lemma CrashAfterEachSave(universe: seq<string>, excluded0: seq<string>, appended: seq<string>,
                           saves: seq<seq<string>>)
    requires NoDup(appended)
    requires forall r :: r in appended ==> r in Pending(universe, excluded0)
    requires SavedAfterEachAppend(excluded0, appended, saves)
    ensures forall k :: 0 <= k < |saves| ==>
              |Pending(universe, saves[k])| == |Pending(universe, excluded0)| - (k + 1)
  {
    forall k | 0 <= k < |saves|
      ensures |Pending(universe, saves[k])| == |Pending(universe, excluded0)| - (k + 1)
    {
      CrashAfterSave(universe, excluded0, appended, saves, k + 1);
    }
  }

  /** Idempotence of `export_kernels`: after a run that was not aborted, a second run
      on the same competitions has nothing left to fetch. */
  lemma KernelsRerunIsEmpty(competitions: seq<string>, excluded0: seq<string>, excluded: seq<string>)
    requires |excluded| >= |excluded0| && excluded[..|excluded0|] == excluded0
    requires forall r :: r in Pending(competitions, excluded0) ==> r in excluded[|excluded0|..]
    ensures Pending(competitions, excluded) == {}
  {
    assert excluded == excluded0 + excluded[|excluded0|..];
    forall r | r in Pending(competitions, excluded0) ensures r in excluded {
      assert r in excluded[|excluded0|..];
    }
  }

  /** Transient-skip retry: after a completed `export_notebooks` run, the next run has
      pending exactly the kernels whose failure was transient; permanently skipped and
      exported kernels never come back. */
  lemma NotebooksRerunRetriesTransient(universe: seq<string>, excluded0: seq<string>, excluded: seq<string>,
                                       fetch: string -> NotebookFetch, convert: string -> Conversion)
    requires |excluded| >= |excluded0| && excluded[..|excluded0|] == excluded0
    requires forall r :: r in excluded[|excluded0|..] <==>
               r in Pending(universe, excluded0) && Retires(ProcessNotebook(r, fetch(r), convert).outcome)
    ensures forall r :: r in Pending(universe, excluded) <==>
              r in Pending(universe, excluded0) && IsTransient(fetch(r), convert)
  {
    forall r
      ensures r in Pending(universe, excluded) <==>
                r in Pending(universe, excluded0) && IsTransient(fetch(r), convert)
    {
      assert excluded == excluded0 + excluded[|excluded0|..];
      assert r in excluded <==> r in excluded0 || r in excluded[|excluded0|..];
    }
  }

  /** One `export_kernels` run followed by the pending set the next run computes from the
      checkpoint it left: empty unless the run was aborted, and `k` smaller than this
      run's pending set at checkpoint rewrite k (counted from 1). A run killed right
      after rewrite k, when `savedAt[k]` listing files had been written, loses no
      listing file: a competition leaves the pending set only once its file exists. */
  method RerunKernels(competitions: seq<string>, checkpoint: Decoded<seq<string>>, fetch: string -> ListingFetch)
    returns (aborted: bool, saves: seq<seq<string>>, next: set<string>, listings: seq<ListingWrite>, ghost savedAt: seq<nat>)
    ensures !aborted ==> next == {}
    ensures forall k :: 0 <= k < |saves| ==>
              |Pending(competitions, saves[k])| == |Pending(competitions, LoadExcluded(checkpoint))| - (k + 1)
    ensures |savedAt| == |saves|
    ensures forall k :: 0 <= k < |saves| ==>
              savedAt[k] <= |listings| &&
              forall r :: r in Pending(competitions, LoadExcluded(checkpoint)) && r !in Pending(competitions, saves[k]) ==>
                ListingIn(r, listings[..savedAt[k]], fetch)
  {
    var excluded, progress;
    excluded, saves, listings, progress, aborted, savedAt := ExportKernels(competitions, checkpoint, fetch);
    next := Pending(competitions, excluded);
    ghost var excluded0 := LoadExcluded(checkpoint);
    if !aborted {
      KernelsRerunIsEmpty(competitions, excluded0, excluded);
    }
    CrashAfterEachSave(competitions, excluded0, excluded[|excluded0|..], saves);
  }

  /** One `export_notebooks` run followed by the pending set the next run computes from
      the checkpoint it left: exactly the kernels whose failure was transient, and `k`
      smaller than this run's pending set at checkpoint rewrite k (counted from 1). A
      run killed right after rewrite k, when `savedAt[k]` files had been written, loses
      no file: a kernel leaves the pending set only once all its files exist. */
  method RerunNotebooks(kernelFiles: seq<ListingFile>, checkpoint: Decoded<seq<string>>,
                        fetch: string -> NotebookFetch, convert: string -> Conversion)
    returns (saves: seq<seq<string>>, next: set<string>, writes: seq<FileWrite>, ghost savedAt: seq<nat>)
    ensures forall r :: r in next <==>
              r in Pending(AllRefs(kernelFiles), LoadExcluded(checkpoint)) && IsTransient(fetch(r), convert)
    ensures forall k :: 0 <= k < |saves| ==>
              |Pending(AllRefs(kernelFiles), saves[k])| == |Pending(AllRefs(kernelFiles), LoadExcluded(checkpoint))| - (k + 1)
    ensures |savedAt| == |saves|
    ensures forall k :: 0 <= k < |saves| ==>
              savedAt[k] <= |writes| &&
              forall r :: r in Pending(AllRefs(kernelFiles), LoadExcluded(checkpoint)) && r !in Pending(AllRefs(kernelFiles), saves[k]) ==>
                ItemFilesIn(r, writes[..savedAt[k]], fetch, convert)
  {
    var excluded, progress, unreadable;
    excluded, saves, writes, progress, unreadable, savedAt := ExportNotebooks(kernelFiles, checkpoint, fetch, convert);
    var universe := AllRefs(kernelFiles);
    next := Pending(universe, excluded);
    ghost var excluded0 := LoadExcluded(checkpoint);
    NotebooksRerunRetriesTransient(universe, excluded0, excluded, fetch, convert);
    CrashAfterEachSave(universe, excluded0, excluded[|excluded0|..], saves);
  }
}
