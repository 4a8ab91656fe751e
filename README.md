# Resumable checkpointed traversal of kaggle-downloader

This project models the core of `src/main.py` of kaggle-downloader. That core walks a
catalog of references (competitions, then kernels), and a run can be interrupted and
resumed later:

- **Checkpoint** (`checkpoint.dfy`): the exclude file is loaded, and one that does not
  decode as JSON becomes the empty list. The pending set is `set(universe) - set(excluded)`.
- **Universe** (`universe.dfy`): `_list_all_kernel_refs` concatenates, in file order, the
  lists of every listing file that decodes. Files that do not decode are reported and skipped.
- **Classify** (`classify.dfy`): one iteration of the notebook loop. This is the content
  checks in their order (metadata, language, kernel type, source), the exception arms
  (403/404, invalid notebook, other), and the metadata and source files written.
- **Naming** (`naming.dfy`): output file names, with `/` replaced by `$$$`.
- **Export** (`export.dfy`): the two driver loops, `export_kernels` and `export_notebooks`.
  Each appends every retired reference to the in-memory exclusion list and rewrites the
  checkpoint after each append. Python iterates a set in no specified order, so each loop
  picks any remaining reference, and every postcondition holds for every order. For
  `export_notebooks`, and for `export_kernels` runs that are not aborted, the final
  exclusion set and the set of file writes performed are fixed by the inputs alone.
  What a file on disk ends up holding is fixed too, except when two kernels escape to
  the same name (`EscapeCollision`, possible only when a reference contains `$`): then
  the later write wins, and which write is later depends on the order. When a
  competition's fetch raises, which competitions were handled before it depends on the
  order. The checkpoint rewrites, the files written and the progress lines are returned
  as traces, and the references are appended in the order they were processed. A ghost
  trace `savedAt` records how many files had been written at each checkpoint rewrite.
  With it the drivers state that a reference's files are written before the first
  rewrite that lists it, so a run killed between two rewrites loses no exported file.
- **Resume** (`resume.dfy`): what the next run sees when the checkpoint left by a run is
  fed back in. This covers crash safety, idempotence and the retry of transient failures.
  `RerunKernels` and `RerunNotebooks` run a driver and compute the next run's pending set.

The remote client and the notebook converter are parameters: `fetch` maps a reference
to what the client returns or raises, and `convert` maps a notebook source to a script
or to the exception `nbformat`/`nbconvert` raise.

The model follows the code:
- A checkpoint rewrite reopens the file with `"w"`; it is not atomic.
- An accepted notebook whose conversion fails still leaves its `.meta.json` and an
  empty `.py` file. The `.py` file is opened, and so truncated, before `nbformat.reads`
  runs. This happens both for an invalid notebook (the reference is excluded) and for any
  other conversion exception (the reference is left pending).
- In `export_kernels` a failing fetch is not caught: the run stops there. The model
  returns `aborted` and keeps the checkpoint written so far.
- The universe is a concatenation, so it can hold duplicates. The `set(...)` of the
  pending computation removes them.

## Model

| member | source | states |
|---|---|---|
| Naming.Escape | src/main.py:163 | the derived name contains no `/`, and every character of it other than `$` comes from the reference |
| Naming.UnescapeEscape | src/main.py:163 | on references without `$`, reading `$$$` back as `/` recovers the reference (round trip) |
| Naming.EscapeInjective | src/main.py:163-172 | two `$`-free references never get the same escaped name |
| Naming.EscapeCollision | src/main.py:163 | `a/b` and `a$$$b` escape to the same name, so the token is collision-safe only without `$` |
| Naming.MetaPath | src/main.py:163 | the metadata file name contains no `/`, ends in `.meta.json`, and gives back a `$`-free kernel reference when the suffix is dropped and `$$$` read as `/` |
| Naming.SourcePath | src/main.py:169-172 | the source file name contains no `/`, ends in `.py`, and gives back a `$`-free kernel reference when the suffix is dropped and `$$$` read as `/` |
| Naming.ListingPath | src/main.py:115 | a competition's listing file is the unescaped reference followed by `.json` |
| Naming.ArtifactPathsDistinct | src/main.py:163-172 | a metadata file is never another kernel's source file; distinct `$`-free kernels get distinct files |
| Checkpoint.LoadExcluded | src/main.py:99-103 | an exclude file that does not decode (an empty one included) yields the empty list; a decoded list is kept as it is |
| Checkpoint.Pending | src/main.py:108 | a reference is pending exactly when it is in the universe and not in the loaded exclusion list |
| Checkpoint.CorruptCheckpointCoversUniverse | src/main.py:130-139 | with an undecodable exclude file, the whole universe is pending |
| Checkpoint.PendingAntitone | src/main.py:139 | excluded references are never pending, and appending to the list only shrinks the pending set |
| Checkpoint.ResumeAfter | src/main.py:192-194 | appending `k` distinct pending references removes exactly them, and the pending set loses `k` elements |
| Classify.ContentCheck | src/main.py:152-159 | a notebook is accepted exactly when it has metadata, language `python`, kernel type `script` or `notebook`, and a source; a reported reason means its own check failed and every earlier check passed |
| Classify.ProcessNotebook | src/main.py:142-190 | a reference stays pending exactly on a transient failure; 403 and 404 retire it without writing; content failures retire it without writing; the metadata file is written before the source file; an accepted script is exported with its source unchanged; an accepted notebook is exported with the converted text, retired with an empty source file when the notebook is invalid, and left pending with an empty source file when conversion raises anything else |
| Universe.AllRefsAppend | src/main.py:200-208 | the universe of a directory split in two is the concatenation of the two universes |
| Universe.MalformedFileIgnored | src/main.py:205-206 | a file that does not decode contributes nothing and does not stop the scan |
| Universe.AllRefsMembers | src/main.py:200-208 | a reference is in the universe exactly when some decodable file lists it |
| Universe.ListAllKernelRefs | src/main.py:197-208 | the loop returns the concatenation of the decodable files' lists in file order, and the names of the other files |
| Export.ExportKernels | src/main.py:91-120 | the loaded list stays a prefix; each pending competition is appended once, whatever its kernel count, and only after a successful fetch; the checkpoint holds the full list after every append; a listing file is written exactly for competitions with kernels; ordinals run 1..n against a fixed total; the run is aborted exactly when some pending fetch raises, and its last progress line names that pending competition; the listing file of every competition a checkpoint rewrite adds is written before that rewrite |
| Export.ExportNotebooks | src/main.py:123-194 | the loaded list stays a prefix; exactly the pending kernels without a transient failure are appended, each once, in the order they were processed; the checkpoint holds the full list after every append; the files written are those of the pending kernels, in any order; every pending kernel is attempted once, skipped ones included, with ordinals 1..n against a fixed total; every file of every kernel a checkpoint rewrite adds is written before that rewrite |
| Export.ListingsOfMembers | src/main.py:114-116 | a listing file is written exactly for a processed competition whose fetch returned a non-empty list, under its `.json` name and holding that list |
| Export.WritesOfMembers | src/main.py:162-175 | a file is in the write trace exactly when the iteration of some processed kernel writes it |
| Export.RetiredInMembers | src/main.py:140-194 | when each kernel is processed once, the retired ones are exactly the processed kernels without a transient failure, each listed once |
| Export.RetiredFilesWritten | src/main.py:160-194 | every file of every retired kernel is in the write trace |
| Export.SavePointsCoverRetired | src/main.py:160-194 | at the k-th checkpoint rewrite, the files of the first k + 1 retired kernels are among the files written so far |
| Export.SavedFilesWritten | src/main.py:160-194 | every kernel a checkpoint rewrite adds to the loaded list has all its files written before that rewrite |
| Export.ListingsWritten | src/main.py:112-116 | the listing file of every processed competition that has one is in the listing trace |
| Export.ListingCountsCoverDone | src/main.py:114-120 | at the k-th checkpoint rewrite, the listing files of the first k + 1 competitions are already written |
| Export.SavedListingsWritten | src/main.py:114-120 | every competition a checkpoint rewrite adds to the loaded list has its listing file, if any, written before that rewrite |
| Export.KernelsStep | src/main.py:109-120 | one iteration of the competition loop keeps the loop's invariant, both when the fetch returns and when it raises |
| Export.NotebooksStep | src/main.py:140-194 | one iteration of the notebook loop keeps the loop's invariant, whether the kernel is retired or left for a later run |
| Export.KernelsExit | src/main.py:109-120 | once the competition loop stops, its invariant gives every postcondition of `ExportKernels` |
| Export.NotebooksExit | src/main.py:139-194 | once the notebook loop stops, its invariant gives every postcondition of `ExportNotebooks` |
| Resume.CrashAfterSave | src/main.py:118-120 | a run killed after its k-th checkpoint rewrite leaves `n - k` references pending for the next run |
| Resume.CrashAfterEachSave | src/main.py:192-194 | at every checkpoint rewrite k (counted from 1), the next run would have `n - k` references pending |
| Resume.RerunKernels | src/main.py:108-120 | after an `export_kernels` run that was not aborted the next run has nothing pending; after rewrite k it would have `n - k`, and every competition it would no longer fetch already has its listing file written |
| Resume.RerunNotebooks | src/main.py:139-194 | after an `export_notebooks` run the next run has pending exactly the kernels that failed transiently; after rewrite k it would have `n - k`, and every kernel it would no longer attempt already has all its files written |
| Resume.KernelsRerunIsEmpty | src/main.py:108-120 | after a run that was not aborted, a second `export_kernels` run has nothing pending |
| Resume.NotebooksRerunRetriesTransient | src/main.py:139-194 | after an `export_notebooks` run, the next run has pending exactly the kernels that failed transiently |

## Left out

- Argument parsing (`get_args`) and `export_competitions`: plumbing with no logic of its own.
- `KaggleDownloader` and its network calls: the remote client's code is not part of this
  model. Its answers are the `fetch` parameter, which is deterministic within a run.
- `nbformat.reads` and `PythonExporter`: foreign library code, modelled by the `convert` parameter.
- JSON serialisation, indentation, `mkdir`, reading the competitions file, and the
  printed text. Progress lines are kept as (reference, ordinal, total) records, and skip
  diagnostics as `SkipReason` values.
- JSON values of an unexpected shape, such as an exclude or listing file that holds no
  list, or a source that is not a string. Each file is modelled as a decoded list of
  strings or a decode error.
- A competition reference containing `/`: its listing file would name a missing
  sub-directory and the uncaught error would end the run. The model writes the file
  under the unescaped name.
- Read errors other than `JSONDecodeError`: an exclude or listing file that is not valid
  UTF-8 raises `UnicodeDecodeError`, which is not caught, so the run ends. `Decoded` has
  no case for such an error, so the model does not capture that end of the run.
- The order of `os.walk`: the directory is given as a sequence of files in walk order.
- Metadata fields other than `language` and `kernelType`. The metadata file receives the
  modelled record.
- Exceptions raised while writing an output or checkpoint file: file-system failures are
  not modelled. Crash atomicity of the checkpoint rewrite is not modelled either, because
  the source does not provide it.
