/**
 * The transcript-existence check (`getFileExists` in
 * src/CaptionedVideo/index.tsx). The list of static files, which the source
 * obtains from `getStaticFiles()`, is a parameter here.
 */
module StaticFiles {
  import opened Wrappers
  import TranscriptPath

  /** One entry of the static-file registry; only `src` takes part in the lookup. */
  datatype StaticFile = StaticFile(name: string, src: string)

  /** `Array.prototype.find`: the first file whose `src` is `file`, if any. */
  function Find(files: seq<StaticFile>, file: string): (r: Option<StaticFile>)
    ensures r.Some? ==> r.value.src == file && r.value in files
    ensures r.None? ==> forall f <- files :: f.src != file
  {
    if |files| == 0 then None
    else if files[0].src == file then Some(files[0])
    else
      assert forall f <- files[1..] :: f in files;
      Find(files[1..], file)
  }

  /** `find` returns the earliest match: the file at the first position whose `src` is `file`. */
  lemma {:induction false} FindFirst(files: seq<StaticFile>, file: string, k: nat)
    requires k < |files| && files[k].src == file
    requires forall j :: 0 <= j < k ==> files[j].src != file
    ensures Find(files, file) == Some(files[k])
  {
    if k > 0 {
      FindFirst(files[1..], file, k - 1);
    }
  }

  /** `Boolean(find(...))`: a found file object is always truthy. */
  function FileExists(files: seq<StaticFile>, file: string): (b: bool)
    ensures b <==> exists f <- files :: f.src == file
  {
    Find(files, file).Some?
  }

  /**
   * The component renders its "no caption file" placeholder exactly when no
   * static file is served at the transcript path derived from the video path.
   */
  function ShowsNoCaptionPlaceholder(files: seq<StaticFile>, src: string): (b: bool)
    ensures b <==> forall f <- files :: f.src != TranscriptPath.SubtitlesFile(src)
  {
    !FileExists(files, TranscriptPath.SubtitlesFile(src))
  }
}
