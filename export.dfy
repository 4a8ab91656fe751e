/** The two resumable driver loops: `export_kernels` (src/main.py:91-120) and
    `export_notebooks` (src/main.py:123-194). Python iterates over a set in an order it
    does not specify; each loop here picks any remaining reference, so every
    postcondition holds whatever the order. The checkpoint rewrites, the files written
    and the progress lines are returned as traces. */
module Export {
  import opened Wrappers
  import opened Naming
  import opened Checkpoint
  import opened Classify
  import opened Universe

  /** `Working on ... <ref> (<ordinal>/<total>)` (src/main.py:110, src/main.py:143-145). */
  datatype Progress = Progress(ref: string, ordinal: nat, total: nat)

  /** A competition's listing file and the kernel references written to it (src/main.py:115-116). */
  datatype ListingWrite = ListingWrite(path: string, kernels: seq<string>)

  /** What `client.fetch_kernel_refs(ref)` does: return the competition's kernel
      references, or raise. Nothing in `export_kernels` catches the exception. */
  datatype ListingFetch = Listed(kernels: seq<string>) | FetchRaised

  /** The k-th checkpoint rewrite holds the loaded list and the first k + 1 appended
      references: the whole list as it stood right after the append. */
  predicate SavedAfterEachAppend(excluded0: seq<string>, appended: seq<string>, saves: seq<seq<string>>)
  {
    |saves| == |appended| &&
    forall k :: 0 <= k < |saves| ==> saves[k] == excluded0 + appended[..k + 1]
  }

  lemma SavedStep(excluded0: seq<string>, appended: seq<string>, saves: seq<seq<string>>, r: string)
    requires SavedAfterEachAppend(excluded0, appended, saves)
    ensures SavedAfterEachAppend(excluded0, appended + [r], saves + [excluded0 + appended + [r]])
  {
    var a, s := appended + [r], saves + [excluded0 + appended + [r]];
    forall k | 0 <= k < |s| ensures s[k] == excluded0 + a[..k + 1] {
      if k < |saves| {
        assert a[..k + 1] == appended[..k + 1];
      } else {
        assert a[..k + 1] == a;
      }
    }
  }

  /** Ordinals run 1, 2, ... against the fixed total. */
  predicate NumberedAgainst(progress: seq<Progress>, total: nat)
  {
    forall i :: 0 <= i < |progress| ==> progress[i].ordinal == i + 1 && progress[i].total == total
  }

  /** The references in the order they were attempted. */
  function ProgressRefs(progress: seq<Progress>): (refs: seq<string>)
    ensures |refs| == |progress|
    ensures forall i :: 0 <= i < |progress| ==> refs[i] == progress[i].ref
  {
    seq(|progress|, i requires 0 <= i < |progress| => progress[i].ref)
  }

  lemma ProgressStep(progress: seq<Progress>, total: nat, r: string)
    requires NumberedAgainst(progress, total)
    ensures NumberedAgainst(progress + [Progress(r, |progress| + 1, total)], total)
    ensures ProgressRefs(progress + [Progress(r, |progress| + 1, total)]) == ProgressRefs(progress) + [r]
  {
  }

  /** The listing file written for one fetched competition: none when it has no kernels. */
  function ListingOf(competition: string, fetched: ListingFetch): (w: seq<ListingWrite>)
  {
    match fetched
    case Listed(kernels) => if |kernels| > 0 then [ListingWrite(ListingPath(competition), kernels)] else []
    case FetchRaised => []
  }

  /** The listing files written for competitions processed in the order `done`. */
  function ListingsOf(done: seq<string>, fetch: string -> ListingFetch): (ws: seq<ListingWrite>)
  {
    if done == [] then [] else ListingsOf(done[..|done| - 1], fetch) + ListingOf(done[|done| - 1], fetch(done[|done| - 1]))
  }

  lemma ListingsStep(done: seq<string>, fetch: string -> ListingFetch, r: string)
    ensures ListingsOf(done + [r], fetch) == ListingsOf(done, fetch) + ListingOf(r, fetch(r))
  {
    assert (done + [r])[..|done|] == done;
  }

  /** A listing file is written exactly for the processed competitions whose fetch
      returned a non-empty kernel list, and it holds that list (src/main.py:114-116). */
  lemma {:induction false} ListingsOfMembers(done: seq<string>, fetch: string -> ListingFetch, w: ListingWrite)
    ensures w in ListingsOf(done, fetch) <==>
              exists r :: r in done && fetch(r) == Listed(w.kernels) && |w.kernels| > 0 && w.path == ListingPath(r)
  {
    if done != [] {
      var init, last := done[..|done| - 1], done[|done| - 1];
      ListingsOfMembers(init, fetch, w);
      assert done == init + [last];
      if w in ListingOf(last, fetch(last)) {
        assert last in done && fetch(last) == Listed(w.kernels);
      }
      if exists r :: r in done && fetch(r) == Listed(w.kernels) && |w.kernels| > 0 && w.path == ListingPath(r) {
        var r :| r in done && fetch(r) == Listed(w.kernels) && |w.kernels| > 0 && w.path == ListingPath(r);
        if r == last {
          assert w == ListingWrite(ListingPath(r), w.kernels);
        } else {
          assert r in init;
        }
      }
    }
  }

  /** The files written by the notebook iterations of the references `done`, in order. */
  function WritesOf(done: seq<string>, fetch: string -> NotebookFetch, convert: string -> Conversion): (ws: seq<FileWrite>)
  {
    if done == [] then []
    else WritesOf(done[..|done| - 1], fetch, convert) + ProcessNotebook(done[|done| - 1], fetch(done[|done| - 1]), convert).writes
  }

  lemma WritesStep(done: seq<string>, fetch: string -> NotebookFetch, convert: string -> Conversion, r: string)
    ensures WritesOf(done + [r], fetch, convert) == WritesOf(done, fetch, convert) + ProcessNotebook(r, fetch(r), convert).writes
  {
    assert (done + [r])[..|done|] == done;
  }

  /** A file is written exactly when the iteration of some processed reference writes it. */
  lemma {:induction false} WritesOfMembers(done: seq<string>, fetch: string -> NotebookFetch, convert: string -> Conversion, w: FileWrite)
    ensures w in WritesOf(done, fetch, convert) <==> exists r :: r in done && w in ProcessNotebook(r, fetch(r), convert).writes
  {
    if done != [] {
      var init, last := done[..|done| - 1], done[|done| - 1];
      WritesOfMembers(init, fetch, convert, w);
      assert done == init + [last];
      if exists r :: r in done && w in ProcessNotebook(r, fetch(r), convert).writes {
        var r :| r in done && w in ProcessNotebook(r, fetch(r), convert).writes;
        if r != last {
          assert r in init;
        }
      }
    }
  }

  /** The references of `done` whose notebook iteration retires them, in the order
      they were processed: the order `excluded_refs.append` sees them (src/main.py:192). */
  function RetiredIn(done: seq<string>, fetch: string -> NotebookFetch, convert: string -> Conversion): (retired: seq<string>)
  {
    if done == [] then []
    else
      var last := done[|done| - 1];
      RetiredIn(done[..|done| - 1], fetch, convert) +
      (if Retires(ProcessNotebook(last, fetch(last), convert).outcome) then [last] else [])
  }

  lemma RetiredStep(done: seq<string>, fetch: string -> NotebookFetch, convert: string -> Conversion, r: string)
    ensures RetiredIn(done + [r], fetch, convert) ==
              RetiredIn(done, fetch, convert) + (if Retires(ProcessNotebook(r, fetch(r), convert).outcome) then [r] else [])
  {
    assert (done + [r])[..|done|] == done;
  }

  /** The retired references are the processed ones whose iteration retires them,
      each once when each was processed once. */
  lemma {:induction false} RetiredInMembers(done: seq<string>, fetch: string -> NotebookFetch, convert: string -> Conversion)
    requires NoDup(done)
    ensures NoDup(RetiredIn(done, fetch, convert))
    ensures forall r :: r in RetiredIn(done, fetch, convert) <==> r in done && Retires(ProcessNotebook(r, fetch(r), convert).outcome)
  {
    if done != [] {
      var init, last := done[..|done| - 1], done[|done| - 1];
      assert done == init + [last];
      assert NoDup(init) by {
        forall i, j | 0 <= i < j < |init| ensures init[i] != init[j] {
          assert init[i] == done[i] && init[j] == done[j];
        }
      }
      assert last !in init by {
        forall i | 0 <= i < |init| ensures init[i] != last {
          assert init[i] == done[i];
        }
      }
      RetiredInMembers(init, fetch, convert);
      if Retires(ProcessNotebook(last, fetch(last), convert).outcome) {
        NoDupSnoc(RetiredIn(init, fetch, convert), last);
      }
    }
  }

  /** Every file the notebook iteration of `r` writes is among `ws`. */
  ghost predicate ItemFilesIn(r: string, ws: seq<FileWrite>, fetch: string -> NotebookFetch, convert: string -> Conversion)
  {
    forall w :: w in ProcessNotebook(r, fetch(r), convert).writes ==> w in ws
  }

  /** Every file the iterations of the references `refs` write is among `ws`. */
  ghost predicate AllFilesIn(refs: seq<string>, ws: seq<FileWrite>, fetch: string -> NotebookFetch, convert: string -> Conversion)
  {
    forall r :: r in refs ==> ItemFilesIn(r, ws, fetch, convert)
  }

  /** How many files had been written at each checkpoint rewrite when the kernels
      `done` were processed in that order: an iteration that retires its kernel
      rewrites the checkpoint after writing its files (src/main.py:192-194). */
  function SavePoints(done: seq<string>, fetch: string -> NotebookFetch, convert: string -> Conversion): (points: seq<nat>)
    ensures |points| == |RetiredIn(done, fetch, convert)|
  {
    if done == [] then []
    else
      var last := done[|done| - 1];
      SavePoints(done[..|done| - 1], fetch, convert) +
      (if Retires(ProcessNotebook(last, fetch(last), convert).outcome) then [|WritesOf(done, fetch, convert)|] else [])
  }

  lemma SavePointsStep(done: seq<string>, fetch: string -> NotebookFetch, convert: string -> Conversion, r: string)
    ensures SavePoints(done + [r], fetch, convert) ==
              SavePoints(done, fetch, convert) +
              (if Retires(ProcessNotebook(r, fetch(r), convert).outcome) then [|WritesOf(done + [r], fetch, convert)|] else [])
  {
    assert (done + [r])[..|done|] == done;
  }

  /** The files of every retired kernel are among the files written. */
  lemma {:induction false} RetiredFilesWritten(done: seq<string>, fetch: string -> NotebookFetch, convert: string -> Conversion)
    ensures AllFilesIn(RetiredIn(done, fetch, convert), WritesOf(done, fetch, convert), fetch, convert)
  {
    if done != [] {
      var init, last := done[..|done| - 1], done[|done| - 1];
      RetiredFilesWritten(init, fetch, convert);
      forall r | r in RetiredIn(done, fetch, convert)
        ensures ItemFilesIn(r, WritesOf(done, fetch, convert), fetch, convert)
      {
        if r in RetiredIn(init, fetch, convert) {
          assert ItemFilesIn(r, WritesOf(init, fetch, convert), fetch, convert);
        } else {
          assert r == last;
        }
      }
    }
  }

  /** Write-before-save order: when the k-th checkpoint rewrite happens, the files of
      the first k + 1 retired kernels, the ones that rewrite lists beyond the loaded
      list, are all among the files written so far. */
  lemma {:induction false} SavePointsCoverRetired(done: seq<string>, fetch: string -> NotebookFetch, convert: string -> Conversion)
    ensures forall k :: 0 <= k < |SavePoints(done, fetch, convert)| ==>
              SavePoints(done, fetch, convert)[k] <= |WritesOf(done, fetch, convert)| &&
              AllFilesIn(RetiredIn(done, fetch, convert)[..k + 1],
                         WritesOf(done, fetch, convert)[..SavePoints(done, fetch, convert)[k]], fetch, convert)
  {
    if done != [] {
      var init := done[..|done| - 1];
      SavePointsCoverRetired(init, fetch, convert);
      RetiredFilesWritten(done, fetch, convert);
      var points, retired, writes := SavePoints(done, fetch, convert), RetiredIn(done, fetch, convert), WritesOf(done, fetch, convert);
      var points0, retired0, writes0 := SavePoints(init, fetch, convert), RetiredIn(init, fetch, convert), WritesOf(init, fetch, convert);
      forall k | 0 <= k < |points|
        ensures points[k] <= |writes| && AllFilesIn(retired[..k + 1], writes[..points[k]], fetch, convert)
      {
        if k < |points0| {
          assert points[k] == points0[k];
          assert retired[..k + 1] == retired0[..k + 1];
          assert writes[..points[k]] == writes0[..points0[k]];
        } else {
          assert points[k] == |writes|;
          assert retired[..k + 1] == retired;
          assert writes[..points[k]] == writes;
        }
      }
    }
  }

  /** Write-before-save order read against the checkpoint content: `savedAt[k]` files
      had been written when checkpoint rewrite k happened, and every file of every kernel
      that rewrite adds to the loaded list `excluded0` is among them. */
  ghost predicate WrittenBeforeEachSave(excluded0: seq<string>, saves: seq<seq<string>>, savedAt: seq<nat>,
                                        writes: seq<FileWrite>, fetch: string -> NotebookFetch, convert: string -> Conversion)
  {
    && |savedAt| == |saves|
    && forall k :: 0 <= k < |saves| ==>
         savedAt[k] <= |writes| &&
         forall r :: r in saves[k] && r !in excluded0 ==> ItemFilesIn(r, writes[..savedAt[k]], fetch, convert)
  }

  /** Read against the checkpoint content: every kernel that checkpoint rewrite k adds to
      the loaded list has all its files among those written before that rewrite. */
  lemma SavedFilesWritten(excluded0: seq<string>, done: seq<string>, saves: seq<seq<string>>,
                          fetch: string -> NotebookFetch, convert: string -> Conversion)
    requires SavedAfterEachAppend(excluded0, RetiredIn(done, fetch, convert), saves)
    ensures WrittenBeforeEachSave(excluded0, saves, SavePoints(done, fetch, convert), WritesOf(done, fetch, convert), fetch, convert)
  {
    SavePointsCoverRetired(done, fetch, convert);
    var retired := RetiredIn(done, fetch, convert);
    forall k, r | 0 <= k < |saves| && r in saves[k] && r !in excluded0
      ensures ItemFilesIn(r, WritesOf(done, fetch, convert)[..SavePoints(done, fetch, convert)[k]], fetch, convert)
    {
      assert saves[k] == excluded0 + retired[..k + 1];
      assert r in retired[..k + 1];
    }
  }

  /** The listing file of competition `r`, if it has one, is among `ls`. */
  ghost predicate ListingIn(r: string, ls: seq<ListingWrite>, fetch: string -> ListingFetch)
  {
    forall w :: w in ListingOf(r, fetch(r)) ==> w in ls
  }

  /** The listing files of the competitions `refs`, where they have one, are among `ls`. */
  ghost predicate AllListingsIn(refs: seq<string>, ls: seq<ListingWrite>, fetch: string -> ListingFetch)
  {
    forall r :: r in refs ==> ListingIn(r, ls, fetch)
  }

  /** How many listing files had been written at each checkpoint rewrite when the
      competitions `done` were excluded in that order: each iteration writes its
      listing file, then rewrites the checkpoint (src/main.py:114-120). */
  function ListingCounts(done: seq<string>, fetch: string -> ListingFetch): (counts: seq<nat>)
    ensures |counts| == |done|
  {
    if done == [] then [] else ListingCounts(done[..|done| - 1], fetch) + [|ListingsOf(done, fetch)|]
  }

  lemma ListingCountsStep(done: seq<string>, fetch: string -> ListingFetch, r: string)
    ensures ListingCounts(done + [r], fetch) == ListingCounts(done, fetch) + [|ListingsOf(done + [r], fetch)|]
  {
    assert (done + [r])[..|done|] == done;
  }

  /** The listing file of every processed competition is among the files written. */
  lemma {:induction false} ListingsWritten(done: seq<string>, fetch: string -> ListingFetch)
    ensures AllListingsIn(done, ListingsOf(done, fetch), fetch)
  {
    if done != [] {
      var init, last := done[..|done| - 1], done[|done| - 1];
      ListingsWritten(init, fetch);
      forall r | r in done ensures ListingIn(r, ListingsOf(done, fetch), fetch) {
        if r in init {
          assert ListingIn(r, ListingsOf(init, fetch), fetch);
        } else {
          assert done == init + [last];
        }
      }
    }
  }

  /** Write-before-save order for `export_kernels`: when the k-th checkpoint rewrite
      happens, the listing files of the first k + 1 competitions are already written. */
  lemma {:induction false} ListingCountsCoverDone(done: seq<string>, fetch: string -> ListingFetch)
    ensures forall k :: 0 <= k < |done| ==>
              ListingCounts(done, fetch)[k] <= |ListingsOf(done, fetch)| &&
              AllListingsIn(done[..k + 1], ListingsOf(done, fetch)[..ListingCounts(done, fetch)[k]], fetch)
  {
    if done != [] {
      var init := done[..|done| - 1];
      ListingCountsCoverDone(init, fetch);
      ListingsWritten(done, fetch);
      var counts, listings := ListingCounts(done, fetch), ListingsOf(done, fetch);
      var counts0, listings0 := ListingCounts(init, fetch), ListingsOf(init, fetch);
      forall k | 0 <= k < |done|
        ensures counts[k] <= |listings| && AllListingsIn(done[..k + 1], listings[..counts[k]], fetch)
      {
        if k < |init| {
          assert counts[k] == counts0[k];
          assert done[..k + 1] == init[..k + 1];
          assert listings[..counts[k]] == listings0[..counts0[k]];
        } else {
          assert counts[k] == |listings|;
          assert done[..k + 1] == done;
          assert listings[..counts[k]] == listings;
        }
      }
    }
  }

  /** Write-before-save order read against the checkpoint content: `savedAt[k]` listing
      files had been written when checkpoint rewrite k happened, and the listing file of
      every competition that rewrite adds to the loaded list `excluded0` is among them. */
  ghost predicate ListedBeforeEachSave(excluded0: seq<string>, saves: seq<seq<string>>, savedAt: seq<nat>,
                                       listings: seq<ListingWrite>, fetch: string -> ListingFetch)
  {
    && |savedAt| == |saves|
    && forall k :: 0 <= k < |saves| ==>
         savedAt[k] <= |listings| &&
         forall r :: r in saves[k] && r !in excluded0 ==> ListingIn(r, listings[..savedAt[k]], fetch)
  }

  /** Read against the checkpoint content: every competition that checkpoint rewrite k
      adds to the loaded list has its listing file, if any, written before that rewrite. */
  lemma SavedListingsWritten(excluded0: seq<string>, appended: seq<string>, saves: seq<seq<string>>,
                             fetch: string -> ListingFetch)
    requires SavedAfterEachAppend(excluded0, appended, saves)
    ensures ListedBeforeEachSave(excluded0, saves, ListingCounts(appended, fetch), ListingsOf(appended, fetch), fetch)
  {
    ListingCountsCoverDone(appended, fetch);
    forall k, r | 0 <= k < |saves| && r in saves[k] && r !in excluded0
      ensures ListingIn(r, ListingsOf(appended, fetch)[..ListingCounts(appended, fetch)[k]], fetch)
    {
      assert saves[k] == excluded0 + appended[..k + 1];
      assert r in appended[..k + 1];
    }
  }

  /** The state of the `export_kernels` loop after the competitions `appended + failed`
      have been attempted. */
  ghost predicate KernelsInv(pending: set<string>, remaining: set<string>, total: nat,
                             excluded0: seq<string>, excluded: seq<string>, appended: seq<string>,
                             failed: seq<string>, aborted: bool, saves: seq<seq<string>>,
                             listings: seq<ListingWrite>, progress: seq<Progress>, savedAt: seq<nat>,
                             fetch: string -> ListingFetch)
  {
    && remaining <= pending
    && total == |pending|
    && excluded == excluded0 + appended
    && NoDup(appended)
    && (forall r :: r in appended ==> fetch(r).Listed?)
    && (aborted <==> failed != [])
    && (failed == [] || (|failed| == 1 && fetch(failed[0]).FetchRaised?))
    && ProgressRefs(progress) == appended + failed
    && (forall r :: r in pending && r !in remaining <==> r in appended + failed)
    && SavedAfterEachAppend(excluded0, appended, saves)
    && listings == ListingsOf(appended, fetch)
    && NumberedAgainst(progress, total)
    && |progress| == total - |remaining|
    && savedAt == ListingCounts(appended, fetch)
  }

  /** One iteration of the `export_kernels` loop keeps KernelsInv. */
  lemma KernelsStep(pending: set<string>, remaining: set<string>, total: nat,
                    excluded0: seq<string>, excluded: seq<string>, appended: seq<string>,
                    failed: seq<string>, aborted: bool,
                    saves: seq<seq<string>>, listings: seq<ListingWrite>, progress: seq<Progress>, savedAt: seq<nat>,
                    fetch: string -> ListingFetch, ref: string)
    requires KernelsInv(pending, remaining, total, excluded0, excluded, appended, failed, aborted, saves, listings, progress,
                        savedAt, fetch)
    requires !aborted && ref in remaining
    ensures var progress' := progress + [Progress(ref, |progress| + 1, total)];
            var listings' := listings + ListingOf(ref, fetch(ref));
            if fetch(ref).FetchRaised? then
              KernelsInv(pending, remaining - {ref}, total, excluded0, excluded, appended, [ref], true,
                         saves, listings, progress', savedAt, fetch)
            else
              KernelsInv(pending, remaining - {ref}, total, excluded0, excluded + [ref], appended + [ref], failed, aborted,
                         saves + [excluded + [ref]], listings', progress', savedAt + [|listings'|], fetch)
  {
    ProgressStep(progress, total, ref);
    if fetch(ref).Listed? {
      ListingCountsStep(appended, fetch, ref);
      ListingsStep(appended, fetch, ref);
      SavedStep(excluded0, appended, saves, ref);
      NoDupSnoc(appended, ref);
      assert excluded + [ref] == excluded0 + (appended + [ref]);
    }
  }

  /** What KernelsInv gives once the `export_kernels` loop has stopped, stated in the
      terms of ExportKernels' postcondition. */
  lemma KernelsExit(competitions: seq<string>, checkpoint: Decoded<seq<string>>,
                    pending: set<string>, remaining: set<string>, total: nat,
                    excluded0: seq<string>, excluded: seq<string>, appended: seq<string>,
                    failed: seq<string>, aborted: bool, saves: seq<seq<string>>,
                    listings: seq<ListingWrite>, progress: seq<Progress>, savedAt: seq<nat>,
                    fetch: string -> ListingFetch)
    requires excluded0 == LoadExcluded(checkpoint) && pending == Pending(competitions, excluded0)
    requires KernelsInv(pending, remaining, total, excluded0, excluded, appended, failed, aborted,
                        saves, listings, progress, savedAt, fetch)
    requires remaining == {} || aborted
    // the loaded list is kept as a prefix: nothing is removed or reordered
    ensures |excluded| >= |LoadExcluded(checkpoint)| && excluded[..|LoadExcluded(checkpoint)|] == LoadExcluded(checkpoint)
    // each appended competition was pending, was fetched successfully, and is appended once
    ensures NoDup(excluded[|LoadExcluded(checkpoint)|..])
    ensures forall r :: r in excluded[|LoadExcluded(checkpoint)|..] ==>
              r in Pending(competitions, LoadExcluded(checkpoint)) && fetch(r).Listed?
    // a run that is not aborted excludes every pending competition
    ensures !aborted ==> forall r :: r in Pending(competitions, LoadExcluded(checkpoint)) ==>
              r in excluded[|LoadExcluded(checkpoint)|..]
    ensures aborted <==> exists r :: r in Pending(competitions, LoadExcluded(checkpoint)) && fetch(r).FetchRaised?
    // the checkpoint is rewritten with the full list after each append
    ensures SavedAfterEachAppend(LoadExcluded(checkpoint), excluded[|LoadExcluded(checkpoint)|..], saves)
    // the listing files are written in exclusion order, one per excluded competition with kernels
    ensures listings == ListingsOf(excluded[|LoadExcluded(checkpoint)|..], fetch)
    // progress: one line per fetched competition, in the order they were excluded,
    // followed by the one whose fetch raised
    ensures NumberedAgainst(progress, |Pending(competitions, LoadExcluded(checkpoint))|)
    ensures |progress| == |excluded| - |LoadExcluded(checkpoint)| + (if aborted then 1 else 0)
    ensures ProgressRefs(progress)[..|excluded| - |LoadExcluded(checkpoint)|] == excluded[|LoadExcluded(checkpoint)|..]
    ensures aborted ==>
              progress[|progress| - 1].ref in Pending(competitions, LoadExcluded(checkpoint)) &&
              fetch(progress[|progress| - 1].ref).FetchRaised?
    ensures ListedBeforeEachSave(LoadExcluded(checkpoint), saves, savedAt, listings, fetch)
  {
    assert excluded[|excluded0|..] == appended;
    assert ProgressRefs(progress)[..|appended|] == appended;
    SavedListingsWritten(excluded0, appended, saves, fetch);
    if aborted {
      assert failed[0] in pending;
    }
  }

  /** `export_kernels`: every competition that is not yet excluded is fetched; a
      non-empty kernel list is written to the competition's listing file; the
      competition is excluded whatever its kernel count and the checkpoint is
      rewritten. A fetch that raises ends the run (`aborted`). */
  method ExportKernels(competitions: seq<string>, checkpoint: Decoded<seq<string>>, fetch: string -> ListingFetch)
    returns (excluded: seq<string>, saves: seq<seq<string>>, listings: seq<ListingWrite>,
             progress: seq<Progress>, aborted: bool, ghost savedAt: seq<nat>)
    // the loaded list is kept as a prefix: nothing is removed or reordered
    ensures |excluded| >= |LoadExcluded(checkpoint)| && excluded[..|LoadExcluded(checkpoint)|] == LoadExcluded(checkpoint)
    // each appended competition was pending, was fetched successfully, and is appended once
    ensures NoDup(excluded[|LoadExcluded(checkpoint)|..])
    ensures forall r :: r in excluded[|LoadExcluded(checkpoint)|..] ==>
              r in Pending(competitions, LoadExcluded(checkpoint)) && fetch(r).Listed?
    // a run that is not aborted excludes every pending competition
    ensures !aborted ==> forall r :: r in Pending(competitions, LoadExcluded(checkpoint)) ==>
              r in excluded[|LoadExcluded(checkpoint)|..]
    ensures aborted <==> exists r :: r in Pending(competitions, LoadExcluded(checkpoint)) && fetch(r).FetchRaised?
    // the checkpoint is rewritten with the full list after each append
    ensures SavedAfterEachAppend(LoadExcluded(checkpoint), excluded[|LoadExcluded(checkpoint)|..], saves)
    // the listing files are written in exclusion order, one per excluded competition with kernels
    ensures listings == ListingsOf(excluded[|LoadExcluded(checkpoint)|..], fetch)
    // progress: one line per fetched competition, in the order they were excluded,
    // followed by the one whose fetch raised
    ensures NumberedAgainst(progress, |Pending(competitions, LoadExcluded(checkpoint))|)
    ensures |progress| == |excluded| - |LoadExcluded(checkpoint)| + (if aborted then 1 else 0)
    ensures ProgressRefs(progress)[..|excluded| - |LoadExcluded(checkpoint)|] == excluded[|LoadExcluded(checkpoint)|..]
    ensures aborted ==>
              progress[|progress| - 1].ref in Pending(competitions, LoadExcluded(checkpoint)) &&
              fetch(progress[|progress| - 1].ref).FetchRaised?
    // a competition's listing file is written before the checkpoint rewrite that first
    // lists it: `savedAt[k]` listing files had been written at rewrite k
    ensures ListedBeforeEachSave(LoadExcluded(checkpoint), saves, savedAt, listings, fetch)
  {
    excluded := LoadExcluded(checkpoint);
    ghost var excluded0 := excluded;
    var pending := Pending(competitions, excluded);
    var total := |pending|;
    var remaining := pending;
    var appended: seq<string> := [];
    ghost var failed: seq<string> := [];
    saves, listings, progress, aborted, savedAt := [], [], [], false, [];
    while remaining != {} && !aborted
      invariant KernelsInv(pending, remaining, total, excluded0, excluded, appended, failed, aborted,
                           saves, listings, progress, savedAt, fetch)
      decreases remaining
    {
      var ref :| ref in remaining;
      KernelsStep(pending, remaining, total, excluded0, excluded, appended, failed, aborted,
                  saves, listings, progress, savedAt, fetch, ref);
      remaining := remaining - {ref};
      progress := progress + [Progress(ref, |progress| + 1, total)];
      match fetch(ref)
      case FetchRaised =>
        aborted := true;
        failed := [ref];
      case Listed(kernels) =>
        if |kernels| > 0 {
          listings := listings + [ListingWrite(ListingPath(ref), kernels)];
        } else {
          assert ListingOf(ref, fetch(ref)) == [];
        }
        appended := appended + [ref];
        excluded := excluded + [ref];
        saves := saves + [excluded];
        savedAt := savedAt + [|listings|];
    }
    KernelsExit(competitions, checkpoint, pending, remaining, total, excluded0, excluded, appended, failed, aborted,
                saves, listings, progress, savedAt, fetch);
  }

  /** The state of the `export_notebooks` loop after the kernels `ProgressRefs(progress)`
      have been attempted. */
  ghost predicate NotebooksInv(pending: set<string>, remaining: set<string>, total: nat,
                               excluded0: seq<string>, excluded: seq<string>, appended: seq<string>,
                               saves: seq<seq<string>>, writes: seq<FileWrite>, progress: seq<Progress>,
                               savedAt: seq<nat>, fetch: string -> NotebookFetch, convert: string -> Conversion)
  {
    && remaining <= pending
    && total == |pending|
    && excluded == excluded0 + appended
    && NoDup(ProgressRefs(progress))
    && (forall r :: r in ProgressRefs(progress) <==> r in pending && r !in remaining)
    && appended == RetiredIn(ProgressRefs(progress), fetch, convert)
    && SavedAfterEachAppend(excluded0, appended, saves)
    && writes == WritesOf(ProgressRefs(progress), fetch, convert)
    && NumberedAgainst(progress, total)
    && |progress| == total - |remaining|
    && savedAt == SavePoints(ProgressRefs(progress), fetch, convert)
  }

  /** One iteration of the `export_notebooks` loop keeps NotebooksInv. */
  lemma NotebooksStep(pending: set<string>, remaining: set<string>, total: nat,
                      excluded0: seq<string>, excluded: seq<string>, appended: seq<string>,
                      saves: seq<seq<string>>, writes: seq<FileWrite>, progress: seq<Progress>, savedAt: seq<nat>,
                      fetch: string -> NotebookFetch, convert: string -> Conversion, ref: string)
    requires NotebooksInv(pending, remaining, total, excluded0, excluded, appended, saves, writes, progress,
                          savedAt, fetch, convert)
    requires ref in remaining
    ensures var item := ProcessNotebook(ref, fetch(ref), convert);
            var progress' := progress + [Progress(ref, |progress| + 1, total)];
            var writes' := writes + item.writes;
            if Retires(item.outcome) then
              NotebooksInv(pending, remaining - {ref}, total, excluded0, excluded + [ref], appended + [ref],
                           saves + [excluded + [ref]], writes', progress', savedAt + [|writes'|], fetch, convert)
            else
              NotebooksInv(pending, remaining - {ref}, total, excluded0, excluded, appended,
                           saves, writes', progress', savedAt, fetch, convert)
  {
    SavePointsStep(ProgressRefs(progress), fetch, convert, ref);
    NoDupSnoc(ProgressRefs(progress), ref);
    WritesStep(ProgressRefs(progress), fetch, convert, ref);
    RetiredStep(ProgressRefs(progress), fetch, convert, ref);
    ProgressStep(progress, total, ref);
    if Retires(ProcessNotebook(ref, fetch(ref), convert).outcome) {
      SavedStep(excluded0, appended, saves, ref);
      assert excluded + [ref] == excluded0 + (appended + [ref]);
    }
  }

  /** What NotebooksInv gives once the `export_notebooks` loop has stopped, stated in
      the terms of ExportNotebooks' postcondition. */
  lemma NotebooksExit(kernelFiles: seq<ListingFile>, checkpoint: Decoded<seq<string>>,
                      pending: set<string>, remaining: set<string>, total: nat,
                      excluded0: seq<string>, excluded: seq<string>, appended: seq<string>,
                      saves: seq<seq<string>>, writes: seq<FileWrite>, progress: seq<Progress>, savedAt: seq<nat>,
                      fetch: string -> NotebookFetch, convert: string -> Conversion)
    requires excluded0 == LoadExcluded(checkpoint) && pending == Pending(AllRefs(kernelFiles), excluded0)
    requires NotebooksInv(pending, remaining, total, excluded0, excluded, appended, saves, writes, progress,
                          savedAt, fetch, convert)
    requires remaining == {}
    // the loaded list is kept as a prefix: nothing is removed or reordered
    ensures |excluded| >= |LoadExcluded(checkpoint)| && excluded[..|LoadExcluded(checkpoint)|] == LoadExcluded(checkpoint)
    // each appended kernel is appended once, and exactly the pending kernels whose
    // outcome is not transient are appended
    ensures NoDup(excluded[|LoadExcluded(checkpoint)|..])
    ensures forall r :: r in excluded[|LoadExcluded(checkpoint)|..] <==>
              r in Pending(AllRefs(kernelFiles), LoadExcluded(checkpoint)) &&
              Retires(ProcessNotebook(r, fetch(r), convert).outcome)
    // kernels are appended in the order they were processed, so every checkpoint
    // rewrite lists only kernels already processed
    ensures excluded[|LoadExcluded(checkpoint)|..] == RetiredIn(ProgressRefs(progress), fetch, convert)
    // the checkpoint is rewritten with the full list after each append, and only then
    ensures SavedAfterEachAppend(LoadExcluded(checkpoint), excluded[|LoadExcluded(checkpoint)|..], saves)
    // every pending kernel is attempted once, skipped ones included, against a fixed total
    ensures NumberedAgainst(progress, |Pending(AllRefs(kernelFiles), LoadExcluded(checkpoint))|)
    ensures |progress| == |Pending(AllRefs(kernelFiles), LoadExcluded(checkpoint))|
    ensures NoDup(ProgressRefs(progress))
    ensures forall r :: r in ProgressRefs(progress) <==> r in Pending(AllRefs(kernelFiles), LoadExcluded(checkpoint))
    // files are written iteration by iteration; as a set they do not depend on the order
    ensures writes == WritesOf(ProgressRefs(progress), fetch, convert)
    ensures forall w :: w in writes <==>
              (exists r :: r in Pending(AllRefs(kernelFiles), LoadExcluded(checkpoint)) &&
                 w in ProcessNotebook(r, fetch(r), convert).writes)
    // a kernel's files are written before the checkpoint rewrite that first lists it:
    // `savedAt[k]` files had been written at rewrite k
    ensures WrittenBeforeEachSave(LoadExcluded(checkpoint), saves, savedAt, writes, fetch, convert)
  {
    assert excluded[|excluded0|..] == appended;
    RetiredInMembers(ProgressRefs(progress), fetch, convert);
    SavedFilesWritten(excluded0, ProgressRefs(progress), saves, fetch, convert);
    forall w ensures w in writes <==> exists r :: r in pending && w in ProcessNotebook(r, fetch(r), convert).writes {
      WritesOfMembers(ProgressRefs(progress), fetch, convert, w);
    }
  }

  /** `export_notebooks`: the universe is read from the kernel directory; every kernel
      that is not yet excluded is fetched and classified; an exported or permanently
      skipped kernel is excluded and the checkpoint rewritten, a transient failure
      `continue`s with neither. */
  method ExportNotebooks(kernelFiles: seq<ListingFile>, checkpoint: Decoded<seq<string>>,
                         fetch: string -> NotebookFetch, convert: string -> Conversion)
    returns (excluded: seq<string>, saves: seq<seq<string>>, writes: seq<FileWrite>,
             progress: seq<Progress>, unreadable: seq<string>, ghost savedAt: seq<nat>)
    ensures unreadable == Unreadable(kernelFiles)
    // the loaded list is kept as a prefix: nothing is removed or reordered
    ensures |excluded| >= |LoadExcluded(checkpoint)| && excluded[..|LoadExcluded(checkpoint)|] == LoadExcluded(checkpoint)
    // each appended kernel is appended once, and exactly the pending kernels whose
    // outcome is not transient are appended
    ensures NoDup(excluded[|LoadExcluded(checkpoint)|..])
    ensures forall r :: r in excluded[|LoadExcluded(checkpoint)|..] <==>
              r in Pending(AllRefs(kernelFiles), LoadExcluded(checkpoint)) &&
              Retires(ProcessNotebook(r, fetch(r), convert).outcome)
    // kernels are appended in the order they were processed, so every checkpoint
    // rewrite lists only kernels already processed
    ensures excluded[|LoadExcluded(checkpoint)|..] == RetiredIn(ProgressRefs(progress), fetch, convert)
    // the checkpoint is rewritten with the full list after each append, and only then
    ensures SavedAfterEachAppend(LoadExcluded(checkpoint), excluded[|LoadExcluded(checkpoint)|..], saves)
    // every pending kernel is attempted once, skipped ones included, against a fixed total
    ensures NumberedAgainst(progress, |Pending(AllRefs(kernelFiles), LoadExcluded(checkpoint))|)
    ensures |progress| == |Pending(AllRefs(kernelFiles), LoadExcluded(checkpoint))|
    ensures NoDup(ProgressRefs(progress))
    ensures forall r :: r in ProgressRefs(progress) <==> r in Pending(AllRefs(kernelFiles), LoadExcluded(checkpoint))
    // files are written iteration by iteration; as a set they do not depend on the order
    ensures writes == WritesOf(ProgressRefs(progress), fetch, convert)
    ensures forall w :: w in writes <==>
              (exists r :: r in Pending(AllRefs(kernelFiles), LoadExcluded(checkpoint)) &&
                 w in ProcessNotebook(r, fetch(r), convert).writes)
    // a kernel's files are written before the checkpoint rewrite that first lists it:
    // `savedAt[k]` files had been written at rewrite k
    ensures WrittenBeforeEachSave(LoadExcluded(checkpoint), saves, savedAt, writes, fetch, convert)
  {
    var universe;
    universe, unreadable := ListAllKernelRefs(kernelFiles);
    excluded := LoadExcluded(checkpoint);
    ghost var excluded0 := excluded;
    var pending := Pending(universe, excluded);
    var total := |pending|;
    var remaining := pending;
    var appended: seq<string> := [];
    saves, writes, progress, savedAt := [], [], [], [];
    while remaining != {}
      invariant NotebooksInv(pending, remaining, total, excluded0, excluded, appended, saves, writes, progress,
                             savedAt, fetch, convert)
      decreases remaining
    {
      var ref :| ref in remaining;
      NotebooksStep(pending, remaining, total, excluded0, excluded, appended, saves, writes, progress, savedAt,
                    fetch, convert, ref);
      remaining := remaining - {ref};
      progress := progress + [Progress(ref, |progress| + 1, total)];
      var item := ProcessNotebook(ref, fetch(ref), convert);
      writes := writes + item.writes;
      if Retires(item.outcome) {
        appended := appended + [ref];
        excluded := excluded + [ref];
        saves := saves + [excluded];
        savedAt := savedAt + [|writes|];
      }
    }
    NotebooksExit(kernelFiles, checkpoint, pending, remaining, total, excluded0, excluded, appended,
                  saves, writes, progress, savedAt, fetch, convert);
  }
}
