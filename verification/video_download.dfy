/** The download step of the video pipeline
    (`YouTubeVideoDownloadProcessor` in
    src/ytsum/faas/azure/video_download.py): the video's metadata is found
    or created, the video is downloaded unless a stored copy is recorded,
    and the downloaded files are uploaded and sorted into the metadata by
    their extensions.

    The metadata repository is a map from video id to metadata. The
    storage's `exists`, the downloader's exit code, the files it leaves,
    the upload and the loading of the yt-dlp info file are oracles.
 */
module VideoDownload {
  import opened Wrappers
  import opened Text

  /** `VideoMetadata`, with the fields the processor reads and writes. */
  datatype VideoMetadata = VideoMetadata(
    id: string,
    url: Option<string>,
    videoFilePath: Option<string>,
    audioFilePath: Option<string>,
    subtitleFilePaths: seq<string>,
    infoFilePath: Option<string>,
    artifactPaths: seq<string>,
    title: Option<string>,
    description: Option<string>)

  /** `VideoMetadata(id=...)`: every other field at its default. */
  function NewMetadata(id: string): VideoMetadata {
    VideoMetadata(id, None, None, None, [], None, [], None, None)
  }

  /** `YoutubeDLVideoInfo`, the two fields copied from it. */
  datatype InfoFile = InfoFile(title: string, description: string)

  /** `YouTubeVideoDownloadProcessorResult` */
  datatype DownloadResult = DownloadResult(
    videoId: string,
    downloadResult: int,
    errorMessage: Option<string>,
    videoInfo: Option<VideoMetadata>)

  type Repository = map<string, VideoMetadata>

  const WatchUrl: string := "https://www.youtube.com/watch?v="
  const NoFiles: string := "No files found after download."

  // ---------------------------------------------------------------- result

  /** `failed`: an error message was set. */
  function Failed(r: DownloadResult): (b: bool)
    ensures b <==> !Succeeded(r)
  {
    r.errorMessage.Some?
  }

  /** `succeeded`: no error message was set. */
  predicate Succeeded(r: DownloadResult) {
    r.errorMessage.None?
  }

  // ---------------------------------------------------------------- selection

  /** The path, lower-cased, ends with the lower-cased extension. */
  predicate Matches(path: string, extension: string) {
    EndsWith(Lower(path), Lower(extension))
  }

  /** `_find_all_file_paths`: the uploaded paths that end with the
      extension, ignoring case, in upload order. */
  function FindAll(paths: seq<string>, extension: string): (r: seq<string>)
    ensures |r| <= |paths|
    ensures forall p :: p in r <==> p in paths && Matches(p, extension)
  {
    if |paths| == 0 then []
    else (if Matches(paths[0], extension) then [paths[0]] else []) + FindAll(paths[1..], extension)
  }

  /** Filtering one more path at the back keeps the earlier ones in order. */
  lemma {:induction false} FindAllSnoc(paths: seq<string>, p: string, extension: string)
    ensures FindAll(paths + [p], extension)
            == FindAll(paths, extension) + (if Matches(p, extension) then [p] else [])
    decreases |paths|
  {
    var last := if Matches(p, extension) then [p] else [];
    if |paths| == 0 {
      assert paths + [p] == [p];
      assert FindAll([p][1..], extension) == [];
    } else {
      var first := if Matches(paths[0], extension) then [paths[0]] else [];
      assert (paths + [p])[0] == paths[0];
      assert (paths + [p])[1..] == paths[1..] + [p];
      FindAllSnoc(paths[1..], p, extension);
      calc {
        FindAll(paths + [p], extension);
        first + FindAll(paths[1..] + [p], extension);
        first + (FindAll(paths[1..], extension) + last);
        (first + FindAll(paths[1..], extension)) + last;
      }
    }
  }

  /** Position i holds the only path that matches. */
  ghost predicate OnlyMatch(paths: seq<string>, extension: string, i: int) {
    && 0 <= i < |paths| && Matches(paths[i], extension)
    && forall j :: 0 <= j < |paths| && j != i ==> !Matches(paths[j], extension)
  }

  /** Exactly one path is selected when exactly one position matches. */
  lemma {:induction false} OneIffOnlyMatch(paths: seq<string>, extension: string)
    ensures |FindAll(paths, extension)| == 1 <==> exists i :: OnlyMatch(paths, extension, i)
    decreases |paths|
  {
    if |paths| > 0 {
      OneIffOnlyMatch(paths[1..], extension);
      if Matches(paths[0], extension) {
        HeadMatches(paths, extension);
      } else {
        HeadSkips(paths, extension);
      }
    }
  }

  /** When the first path matches, it is the only match exactly when the
      rest select nothing. */
  lemma HeadMatches(paths: seq<string>, extension: string)
    requires |paths| > 0 && Matches(paths[0], extension)
    ensures |FindAll(paths, extension)| == 1 <==> |FindAll(paths[1..], extension)| == 0
    ensures (exists i :: OnlyMatch(paths, extension, i)) <==> |FindAll(paths[1..], extension)| == 0
  {
    var rest := paths[1..];
    if |FindAll(rest, extension)| == 0 {
      forall j | 0 <= j < |paths| && j != 0
        ensures !Matches(paths[j], extension)
      {
        assert paths[j] == rest[j - 1];
        assert paths[j] !in FindAll(rest, extension);
      }
      assert OnlyMatch(paths, extension, 0);
    } else {
      var p := FindAll(rest, extension)[0];
      assert p in FindAll(rest, extension);
      var j :| 0 <= j < |rest| && rest[j] == p;
      assert paths[j + 1] == p;
      forall i
        ensures !OnlyMatch(paths, extension, i)
      {
        if i == 0 {
          assert Matches(paths[j + 1], extension);
        }
      }
    }
  }

  /** When the first path does not match, the selection and the only
      match are those of the rest. */
  lemma HeadSkips(paths: seq<string>, extension: string)
    requires |paths| > 0 && !Matches(paths[0], extension)
    ensures FindAll(paths, extension) == FindAll(paths[1..], extension)
    ensures (exists i :: OnlyMatch(paths, extension, i)) <==> exists i :: OnlyMatch(paths[1..], extension, i)
  {
    var rest := paths[1..];
    if exists i :: OnlyMatch(paths, extension, i) {
      var i :| OnlyMatch(paths, extension, i);
      forall k | 0 <= k < |rest| && k != i - 1
        ensures !Matches(rest[k], extension)
      {
        assert rest[k] == paths[k + 1];
      }
      assert OnlyMatch(rest, extension, i - 1);
    }
    if exists i :: OnlyMatch(rest, extension, i) {
      var i :| OnlyMatch(rest, extension, i);
      forall k | 0 <= k < |paths| && k != i + 1
        ensures !Matches(paths[k], extension)
      {
        if k > 0 {
          assert paths[k] == rest[k - 1];
        }
      }
      assert OnlyMatch(paths, extension, i + 1);
    }
  }

  /** `_find_single_file_path`: the matching path when there is exactly
      one, otherwise nothing (for none and for several). */
  function FindSingle(paths: seq<string>, extension: string): (r: Option<string>)
    ensures r.Some? <==> |FindAll(paths, extension)| == 1
    ensures r.Some? ==> r.value in paths && Matches(r.value, extension)
  {
    var all := FindAll(paths, extension);
    if |all| == 1 then
      assert all[0] in all;
      Some(all[0])
    else None
  }

  /** A single path is found exactly when one position of the upload
      matches, and the path found is the one at that position. */
  lemma FindSingleIffOnly(paths: seq<string>, extension: string)
    ensures FindSingle(paths, extension).Some? <==> exists i :: OnlyMatch(paths, extension, i)
    ensures forall i :: OnlyMatch(paths, extension, i) ==> FindSingle(paths, extension) == Some(paths[i])
  {
    OneIffOnlyMatch(paths, extension);
    forall i | OnlyMatch(paths, extension, i)
      ensures FindSingle(paths, extension) == Some(paths[i])
    {
      assert paths[i] in paths;
      assert paths[i] in FindAll(paths, extension);
    }
  }

  /** `str.lower()` leaves lower-cased text alone. */
  lemma {:induction false} LowerTwice(s: string)
    ensures Lower(Lower(s)) == Lower(s)
    decreases |s|
  {
    if |s| > 0 {
      LowerTwice(s[1..]);
      assert Lower(s)[1..] == Lower(s[1..]);
    }
  }

  /** Both sides are lower-cased, so the extension's case does not matter. */
  lemma ExtensionCaseIgnored(paths: seq<string>, extension: string)
    ensures FindAll(paths, Lower(extension)) == FindAll(paths, extension)
  {
    LowerTwice(extension);
    assert forall p :: Matches(p, Lower(extension)) == Matches(p, extension);
  }

  // ---------------------------------------------------------------- the run

  /** `_download_video_is_needed`: no video file is recorded, or the
      recorded one is not in storage. */
  function DownloadNeeded(meta: VideoMetadata, inStorage: string -> bool): (b: bool)
    ensures !b <==> meta.videoFilePath.Some? && inStorage(meta.videoFilePath.value)
  {
    meta.videoFilePath.None? || !inStorage(meta.videoFilePath.value)
  }

  /** `_load_ytdl_info`: nothing without a recorded path or when the file
      is not in storage; otherwise what `load_model` gives, which raises
      when the stored file is not a valid info file. */
  function LoadInfo(path: Option<string>, inStorage: string -> bool, load: string -> Result<InfoFile>)
    : (r: Result<Option<InfoFile>>)
    ensures r == Ok(None) <==> path.None? || !inStorage(path.value)
    ensures r.Ok? && r.value.Some? <==> path.Some? && inStorage(path.value) && load(path.value).Ok?
    ensures r.Ok? && r.value.Some? ==> r.value.value == load(path.value).value
    ensures r.Err? ==> load(path.value) == Err(r.error)
  {
    if path.None? then Ok(None)
    else if !inStorage(path.value) then Ok(None)
    else
      match load(path.value)
      case Ok(info) => Ok(Some(info))
      case Err(e) => Err(e)
  }

  /** The info file among the uploaded paths is recorded and stored, but
      loading it raises. */
  predicate InfoLoadFails(uploaded: seq<string>, inStorage: string -> bool, load: string -> Result<InfoFile>) {
    var path := FindSingle(uploaded, ".info.json");
    path.Some? && inStorage(path.value) && load(path.value).Err?
  }

  /** `_process_downloaded_files`: every uploaded path becomes an
      artifact, the video, audio and info file are the single matches of
      their extensions, the subtitles all ".vtt" matches, and the title and
      description come from the info file when there is one. Loading an
      info file that is not valid raises before anything is saved. */
  function Process(meta: VideoMetadata, uploaded: seq<string>, inStorage: string -> bool,
                   load: string -> Result<InfoFile>): (r: Result<VideoMetadata>)
    ensures r.Err? <==> InfoLoadFails(uploaded, inStorage, load)
    ensures r.Err? ==> load(FindSingle(uploaded, ".info.json").value) == Err(r.error)
    ensures r.Ok? ==> var m := r.value;
      && m.id == meta.id && m.url == meta.url
      && m.artifactPaths == meta.artifactPaths + uploaded
      && m.videoFilePath == FindSingle(uploaded, ".mp4")
      && m.audioFilePath == FindSingle(uploaded, ".m4a")
      && m.subtitleFilePaths == FindAll(uploaded, ".vtt")
      && m.infoFilePath == FindSingle(uploaded, ".info.json")
      && (m.title != meta.title ==> m.infoFilePath.Some? && inStorage(m.infoFilePath.value)
                                    && m.title == Some(load(m.infoFilePath.value).value.title))
    ensures r.Ok? && LoadInfo(r.value.infoFilePath, inStorage, load).Ok? ==>
              var m := r.value;
              match LoadInfo(m.infoFilePath, inStorage, load).value
              case Some(info) => m.title == Some(info.title) && m.description == Some(info.description)
              case None => m.title == meta.title && m.description == meta.description
  {
    var updated := meta.(artifactPaths := meta.artifactPaths + uploaded,
                         videoFilePath := FindSingle(uploaded, ".mp4"),
                         audioFilePath := FindSingle(uploaded, ".m4a"),
                         subtitleFilePaths := FindAll(uploaded, ".vtt"),
                         infoFilePath := FindSingle(uploaded, ".info.json"));
    match LoadInfo(updated.infoFilePath, inStorage, load)
    case Err(e) => Err(e)
    case Ok(None) => Ok(updated)
    case Ok(Some(info)) => Ok(updated.(title := Some(info.title), description := Some(info.description)))
  }

  /** `_find_or_create_video_metadata`: the stored metadata, or new
      metadata that is stored at once. */
  function FindOrCreate(id: string, repo: Repository): (r: (VideoMetadata, Repository))
    ensures id in r.1 && r.1[id] == r.0
    ensures id in repo ==> r.1 == repo
    ensures id !in repo ==> r.0 == NewMetadata(id)
  {
    if id in repo then (repo[id], repo)
    else (NewMetadata(id), repo[id := NewMetadata(id)])
  }

  /** The download failure message for a URL. */
  function DownloadFailed(url: string): string {
    "Failed to download YouTube files from " + url + "."
  }

  /** `run`: the result, or the exception that escapes it, and the
      repository afterwards. The result shares the metadata object that the
      run goes on to change, so it shows the URL set before downloading and
      the processed paths. `download(url)` is the downloader's exit code,
      `downloaded` the files it left, `upload` the storage paths the files
      are uploaded to. */
  function Run(id: string, repo: Repository, inStorage: string -> bool, download: string -> int,
               downloaded: seq<string>, upload: seq<string> -> seq<string>,
               load: string -> Result<InfoFile>): (r: (Result<DownloadResult>, Repository))
    ensures r.0.Ok? ==> r.0.value.videoId == id && r.0.value.videoInfo.Some?
                        && r.0.value.videoInfo.value.id == FindOrCreate(id, repo).0.id
    ensures id in r.1
  {
    var (meta, stored) := FindOrCreate(id, repo);
    if !DownloadNeeded(meta, inStorage) then
      (Ok(DownloadResult(id, 0, None, Some(meta))), stored)
    else
      var url := WatchUrl + id;
      var withUrl := meta.(url := Some(url));
      var code := download(url);
      if code != 0 then
        (Ok(DownloadResult(id, code, Some(DownloadFailed(url)), Some(withUrl))), stored)
      else if |downloaded| == 0 then
        (Ok(DownloadResult(id, 0, Some(NoFiles), Some(withUrl))), stored)
      else
        match Process(withUrl, upload(downloaded), inStorage, load)
        case Err(e) => (Err(e), stored)
        case Ok(processed) => (Ok(DownloadResult(id, 0, None, Some(processed))), stored[id := processed])
  }

  // ---------------------------------------------------------------- properties

  /** With a stored video file that storage still has, nothing is
      downloaded: the run succeeds with the stored metadata and the
      repository as it was. */
  lemma RunSkipsStoredVideo(id: string, repo: Repository, inStorage: string -> bool, download: string -> int,
                            downloaded: seq<string>, upload: seq<string> -> seq<string>,
                            load: string -> Result<InfoFile>)
    requires id in repo && repo[id].videoFilePath.Some? && inStorage(repo[id].videoFilePath.value)
    ensures Run(id, repo, inStorage, download, downloaded, upload, load).0.Ok?
    ensures Succeeded(Run(id, repo, inStorage, download, downloaded, upload, load).0.value)
    ensures Run(id, repo, inStorage, download, downloaded, upload, load).0.value.videoInfo == Some(repo[id])
    ensures Run(id, repo, inStorage, download, downloaded, upload, load).1 == repo
  {
  }

  /** A non-zero exit code of the downloader fails the run with that code
      and the URL in the message; the metadata in the result carries the
      URL, but the repository never sees it. */
  lemma RunDownloadFails(id: string, repo: Repository, inStorage: string -> bool, download: string -> int,
                         downloaded: seq<string>, upload: seq<string> -> seq<string>,
                         load: string -> Result<InfoFile>)
    requires DownloadNeeded(FindOrCreate(id, repo).0, inStorage) && download(WatchUrl + id) != 0
    ensures Run(id, repo, inStorage, download, downloaded, upload, load).0.Ok?
    ensures Failed(Run(id, repo, inStorage, download, downloaded, upload, load).0.value)
    ensures Run(id, repo, inStorage, download, downloaded, upload, load).0.value.downloadResult == download(WatchUrl + id)
    ensures Run(id, repo, inStorage, download, downloaded, upload, load).0.value.errorMessage
            == Some(DownloadFailed(WatchUrl + id))
    ensures Run(id, repo, inStorage, download, downloaded, upload, load).0.value.videoInfo.value.url == Some(WatchUrl + id)
    ensures Run(id, repo, inStorage, download, downloaded, upload, load).1 == FindOrCreate(id, repo).1
    ensures Run(id, repo, inStorage, download, downloaded, upload, load).1[id].url == FindOrCreate(id, repo).0.url
  {
  }

  /** A download that exits cleanly but leaves no files fails the run
      with exit code 0 and the no-files message. */
  lemma RunNoFiles(id: string, repo: Repository, inStorage: string -> bool, download: string -> int,
                   upload: seq<string> -> seq<string>, load: string -> Result<InfoFile>)
    requires DownloadNeeded(FindOrCreate(id, repo).0, inStorage) && download(WatchUrl + id) == 0
    ensures Run(id, repo, inStorage, download, [], upload, load).0.Ok?
    ensures Failed(Run(id, repo, inStorage, download, [], upload, load).0.value)
    ensures Run(id, repo, inStorage, download, [], upload, load).0.value.downloadResult == 0
    ensures Run(id, repo, inStorage, download, [], upload, load).0.value.errorMessage == Some(NoFiles)
    ensures Run(id, repo, inStorage, download, [], upload, load).1 == FindOrCreate(id, repo).1
  {
  }

  /** A clean download with files: when the info file, if any, loads, the
      uploaded files are processed into the metadata, which the result and
      the repository both hold; when it does not, the load's exception
      escapes and the repository stays as the lookup left it. */
  lemma RunProcesses(id: string, repo: Repository, inStorage: string -> bool, download: string -> int,
                     downloaded: seq<string>, upload: seq<string> -> seq<string>,
                     load: string -> Result<InfoFile>)
    requires DownloadNeeded(FindOrCreate(id, repo).0, inStorage) && download(WatchUrl + id) == 0
    requires |downloaded| > 0
    ensures !InfoLoadFails(upload(downloaded), inStorage, load) ==>
            && Run(id, repo, inStorage, download, downloaded, upload, load).0.Ok?
            && Succeeded(Run(id, repo, inStorage, download, downloaded, upload, load).0.value)
            && Run(id, repo, inStorage, download, downloaded, upload, load).0.value.videoInfo
               == Some(Process(FindOrCreate(id, repo).0.(url := Some(WatchUrl + id)), upload(downloaded), inStorage, load).value)
            && Run(id, repo, inStorage, download, downloaded, upload, load).1
               == FindOrCreate(id, repo).1[id := Process(FindOrCreate(id, repo).0.(url := Some(WatchUrl + id)),
                                                         upload(downloaded), inStorage, load).value]
    ensures InfoLoadFails(upload(downloaded), inStorage, load) ==>
            && Run(id, repo, inStorage, download, downloaded, upload, load).0
               == Err(load(FindSingle(upload(downloaded), ".info.json").value).error)
            && Run(id, repo, inStorage, download, downloaded, upload, load).1 == FindOrCreate(id, repo).1
  {
  }

  /** The run returns a failed result exactly when a download was needed
      and either the downloader exited non-zero or left no files; it
      raises exactly when the download went through and the info file it
      left cannot be loaded. */
  lemma RunFailsIff(id: string, repo: Repository, inStorage: string -> bool, download: string -> int,
                    downloaded: seq<string>, upload: seq<string> -> seq<string>,
                    load: string -> Result<InfoFile>)
    ensures var r := Run(id, repo, inStorage, download, downloaded, upload, load).0;
            r.Ok? && Failed(r.value)
            <==> DownloadNeeded(FindOrCreate(id, repo).0, inStorage)
                 && (download(WatchUrl + id) != 0 || |downloaded| == 0)
    ensures Run(id, repo, inStorage, download, downloaded, upload, load).0.Err?
            <==> DownloadNeeded(FindOrCreate(id, repo).0, inStorage)
                 && download(WatchUrl + id) == 0 && |downloaded| > 0
                 && InfoLoadFails(upload(downloaded), inStorage, load)
  {
  }
}
