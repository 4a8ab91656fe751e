/** What happens to one kernel reference in the notebook loop: the content checks, the
    exception arms and the files written (src/main.py:142-194). */
module Classify {
  import opened Wrappers
  import opened Naming

  /** The fields of a kernel's metadata that the loop inspects; the whole record is
      what the metadata file receives. */
  datatype Metadata = Metadata(language: Option<string>, kernelType: Option<string>)

  /** The `blob` part of a fetched notebook. */
  datatype Blob = Blob(source: Option<string>)

  /** What `client.fetch_notebook(ref)` does: return a result whose `metadata` and
      `blob` may be missing, raise an `ApiException` with an HTTP status, or raise
      anything else. */
  datatype NotebookFetch =
    | Fetched(metadata: Option<Metadata>, blob: Option<Blob>)
    | ApiError(status: int)
    | OtherError

  /** What `nbformat.reads` followed by `PythonExporter` does with a notebook source:
      produce a script, raise `NotebookValidationError` or `NotJSONError`, or raise
      anything else. */
  datatype Conversion = Script(text: string) | InvalidNotebook | ConversionError

  datatype SkipReason =
    | MissingMetadata
    | UnsupportedLanguage(language: Option<string>)
    | UnsupportedKernelType(kernelType: Option<string>)
    | MissingSource
    | Forbidden
    | NotFound
    | InvalidNotebookSource

  /** Exported and Skipped reach the `excluded_refs.append` at the end of the loop body;
      Deferred is a `continue`. */
  datatype Outcome = Exported | Skipped(reason: SkipReason) | Deferred

  datatype FileWrite = MetaFile(path: string, metadata: Metadata) | SourceFile(path: string, text: string)

  datatype ItemResult = ItemResult(outcome: Outcome, writes: seq<FileWrite>)

  /** Does the item leave the pending set for good? */
  predicate Retires(outcome: Outcome)
  {
    !outcome.Deferred?
  }

  predicate IsPython(m: Metadata) { m.language == Some("python") }

  predicate IsSupportedType(m: Metadata) { m.kernelType == Some("script") || m.kernelType == Some("notebook") }

  predicate HasSource(blob: Option<Blob>) { blob.Some? && blob.value.source.Some? }

  /** The if/elif chain of src/main.py:152-159: the first check that fails names the
      reason, and None means the notebook is accepted. */
  function ContentCheck(metadata: Option<Metadata>, blob: Option<Blob>): (r: Option<SkipReason>)
    ensures r.None? <==> metadata.Some? && IsPython(metadata.value) && IsSupportedType(metadata.value) && HasSource(blob)
    ensures r.Some? ==> r.value.MissingMetadata? || r.value.UnsupportedLanguage? || r.value.UnsupportedKernelType? || r.value.MissingSource?
    ensures r == Some(MissingMetadata) <==> metadata.None?
    ensures r.Some? && r.value.UnsupportedLanguage? ==>
              metadata.Some? && !IsPython(metadata.value) && r.value.language == metadata.value.language
    ensures r.Some? && r.value.UnsupportedKernelType? ==>
              metadata.Some? && IsPython(metadata.value) && !IsSupportedType(metadata.value) &&
              r.value.kernelType == metadata.value.kernelType
    ensures r == Some(MissingSource) ==>
              metadata.Some? && IsPython(metadata.value) && IsSupportedType(metadata.value) && !HasSource(blob)
  {
    if metadata.None? then Some(MissingMetadata)
    else if !IsPython(metadata.value) then Some(UnsupportedLanguage(metadata.value.language))
    else if !IsSupportedType(metadata.value) then Some(UnsupportedKernelType(metadata.value.kernelType))
    else if !HasSource(blob) then Some(MissingSource)
    else None
  }

  /** The failures after which the loop `continue`s: an API status other than 403 and
      404, any other exception from the fetch, and any other exception while a notebook
      is converted (src/main.py:181-183, src/main.py:188-190). */
  predicate IsTransient(fetched: NotebookFetch, convert: string -> Conversion)
  {
    match fetched
    case ApiError(status) => status != 403 && status != 404
    case OtherError => true
    case Fetched(metadata, blob) =>
      ContentCheck(metadata, blob).None? && metadata.value.kernelType == Some("notebook")
      && convert(blob.value.source.value).ConversionError?
  }

  /** One iteration of the notebook loop for `ref` (src/main.py:142-190). */
  function ProcessNotebook(ref: string, fetched: NotebookFetch, convert: string -> Conversion): (r: ItemResult)
    // transient failures, and only they, leave the reference pending
    ensures !Retires(r.outcome) <==> IsTransient(fetched, convert)
    // 403 and 404 retire the reference, every other status does not; no file is written
    ensures fetched.ApiError? ==> r.writes == [] && (Retires(r.outcome) <==> fetched.status in {403, 404})
    ensures fetched.ApiError? && fetched.status == 403 ==> r.outcome == Skipped(Forbidden)
    ensures fetched.ApiError? && fetched.status == 404 ==> r.outcome == Skipped(NotFound)
    // a failed content check retires the reference and writes nothing
    ensures fetched.Fetched? && ContentCheck(fetched.metadata, fetched.blob).Some? ==>
              r == ItemResult(Skipped(ContentCheck(fetched.metadata, fetched.blob).value), [])
    // files are written only for accepted notebooks: the metadata file first, then the source file
    ensures r.writes != [] ==>
              fetched.Fetched? && ContentCheck(fetched.metadata, fetched.blob).None? &&
              |r.writes| == 2 &&
              r.writes[0] == MetaFile(MetaPath(ref), fetched.metadata.value) &&
              r.writes[1].SourceFile? && r.writes[1].path == SourcePath(ref)
    // an accepted notebook always leaves its two files, even when conversion fails
    ensures fetched.Fetched? && ContentCheck(fetched.metadata, fetched.blob).None? ==> |r.writes| == 2
    // what an accepted notebook becomes: a script is copied unchanged; a notebook is
    // converted, and when conversion raises the truncated source file stays empty
    ensures fetched.Fetched? && ContentCheck(fetched.metadata, fetched.blob).None? ==>
              var source := fetched.blob.value.source.value;
              if fetched.metadata.value.kernelType == Some("script") then
                r.outcome == Exported && r.writes[1].text == source
              else match convert(source)
                case Script(text) => r.outcome == Exported && r.writes[1].text == text
                case InvalidNotebook => r.outcome == Skipped(InvalidNotebookSource) && r.writes[1].text == ""
                case ConversionError => r.outcome == Deferred && r.writes[1].text == ""
    // an exported script is copied unchanged, an exported notebook is converted first
    ensures r.outcome == Exported ==>
              fetched.Fetched? &&
              var source := fetched.blob.value.source.value;
              if fetched.metadata.value.kernelType == Some("script") then r.writes[1].text == source
              else convert(source) == Script(r.writes[1].text)
    // an invalid notebook is retired, its metadata file and an empty source file stay behind
    ensures r.outcome == Skipped(InvalidNotebookSource) ==>
              fetched.Fetched? && fetched.metadata.value.kernelType == Some("notebook") &&
              convert(fetched.blob.value.source.value) == InvalidNotebook &&
              r.writes[1].text == ""
  {
    match fetched
    case ApiError(status) =>
      if status == 403 then ItemResult(Skipped(Forbidden), [])
      else if status == 404 then ItemResult(Skipped(NotFound), [])
      else ItemResult(Deferred, [])
    case OtherError => ItemResult(Deferred, [])
    case Fetched(metadata, blob) =>
      match ContentCheck(metadata, blob)
      case Some(reason) => ItemResult(Skipped(reason), [])
      case None =>
        var meta := MetaFile(MetaPath(ref), metadata.value);
        var source := blob.value.source.value;
        if metadata.value.kernelType == Some("script") then
          ItemResult(Exported, [meta, SourceFile(SourcePath(ref), source)])
        else
          // the source file is opened, and so truncated, before the conversion runs
          match convert(source)
          case Script(text) => ItemResult(Exported, [meta, SourceFile(SourcePath(ref), text)])
          case InvalidNotebook => ItemResult(Skipped(InvalidNotebookSource), [meta, SourceFile(SourcePath(ref), "")])
          case ConversionError => ItemResult(Deferred, [meta, SourceFile(SourcePath(ref), "")])
  }
}
