/** The in-memory catalog of the original server (VideoDAL): a `videos`
    array filled from the videos folder, first from the `.json` info files
    persisted there and then from the video files themselves, never holding
    two records for one file name. */
module LegacyVideoDal {
  import opened JsText
  import NodePath
  import Vtt

  datatype SubtitleFile = SubtitleFile(lang: string, path: string)

  /** The record the original server keeps and persists per video. */
  datatype VideoFileInfo = VideoFileInfo(
    uuid: string,
    fileName: string,
    friendlyName: string,
    description: string,
    mimeType: string,
    fileSize: nat,
    tags: seq<string>,
    subtitles: seq<SubtitleFile>)

  /** The videos folder as the catalog sees it: the listing, the size `stat`
      reports for each video file, and the record each `.json` info file
      holds once parsed (the JSON text itself is not modelled). */
  datatype Folder = Folder(names: seq<string>, sizes: map<string, nat>, infos: map<string, VideoFileInfo>)

  /** isVideoFile: the extension is ".mkv" or ".mp4". */
  predicate IsVideoFile(fileName: string) {
    NodePath.ExtName(fileName) in [".mkv", ".mp4"]
  }

  predicate IsInfoFile(fileName: string) {
    NodePath.ExtName(fileName) == ".json"
  }

  /** The names of `names` that are info files, in listing order. */
  function InfoFiles(names: seq<string>): seq<string>
  {
    if names == [] then []
    else
      var last := names[|names| - 1];
      InfoFiles(names[..|names| - 1]) + (if IsInfoFile(last) then [last] else [])
  }

  /** The names of `names` that are video files, in listing order. */
  function VideoFiles(names: seq<string>): seq<string>
  {
    if names == [] then []
    else
      var last := names[|names| - 1];
      VideoFiles(names[..|names| - 1]) + (if IsVideoFile(last) then [last] else [])
  }

  /** Listed names once each; every listed video file can be stat'ed and
      every listed info file parses. */
  predicate FolderValid(f: Folder) {
    (forall i, j :: 0 <= i < j < |f.names| ==> f.names[i] != f.names[j]) &&
    (forall n :: n in VideoFiles(f.names) ==> n in f.sizes) &&
    (forall n :: n in InfoFiles(f.names) ==> n in f.infos)
  }

  /** findIndex(v => v.fileName == fileName). */
  function IndexOfFileName(vs: seq<VideoFileInfo>, fileName: string): (r: Option<nat>)
    ensures r.Some? ==> r.value < |vs| && vs[r.value].fileName == fileName
    ensures r.Some? ==> forall k :: 0 <= k < r.value ==> vs[k].fileName != fileName
    ensures r.None? <==> forall k :: 0 <= k < |vs| ==> vs[k].fileName != fileName
  {
    FindIndex(vs, (v: VideoFileInfo) => v.fileName, fileName)
  }

  /** findIndex(v => v.uuid == uuid). */
  function IndexOfUuid(vs: seq<VideoFileInfo>, uuid: string): (r: Option<nat>)
    ensures r.Some? ==> r.value < |vs| && vs[r.value].uuid == uuid
    ensures r.Some? ==> forall k :: 0 <= k < r.value ==> vs[k].uuid != uuid
    ensures r.None? <==> forall k :: 0 <= k < |vs| ==> vs[k].uuid != uuid
  {
    FindIndex(vs, (v: VideoFileInfo) => v.uuid, uuid)
  }

  /** find(v => v.uuid == uuid): the first record with that uuid. */
  function FindUuid(vs: seq<VideoFileInfo>, uuid: string): (r: Option<VideoFileInfo>)
    ensures r.Some? ==> r.value.uuid == uuid
    ensures r.Some? ==> exists k :: 0 <= k < |vs| && vs[k] == r.value && forall m :: 0 <= m < k ==> vs[m].uuid != uuid
    ensures r.None? <==> forall k :: 0 <= k < |vs| ==> vs[k].uuid != uuid
  {
    match IndexOfUuid(vs, uuid)
    case None => None
    case Some(i) => Some(vs[i])
  }

  predicate FileNamesUnique(vs: seq<VideoFileInfo>) {
    forall i, j :: 0 <= i < j < |vs| ==> vs[i].fileName != vs[j].fileName
  }

  /** The info file buildVideoFileInfo writes for a video file. */
  function InfoName(fileName: string): string {
    NodePath.BaseName(fileName, NodePath.ExtName(fileName)) + ".json"
  }

  /** The record buildVideoFileInfo makes for a new video file. */
  function BuildRecord(fileName: string, uuid: string, size: nat, subtitles: seq<SubtitleFile>): (r: VideoFileInfo)
    ensures r.uuid == uuid && r.fileName == fileName && r.fileSize == size && r.subtitles == subtitles
    ensures r.description == "" && r.mimeType == "video/*" && r.tags == []
  {
    VideoFileInfo(uuid, fileName, NodePath.BaseName(fileName, NodePath.ExtName(fileName)), "", "video/*", size, [], subtitles)
  }

  /** For a plain file name the friendly name is the name without its
      extension. */
  lemma FriendlyName(fileName: string, uuid: string, size: nat, subtitles: seq<SubtitleFile>)
    requires '/' !in fileName
    ensures BuildRecord(fileName, uuid, size, subtitles).friendlyName + NodePath.ExtName(fileName) == fileName
  {
    NodePath.BaseNamePlusExtName(fileName);
  }

  /** The catalog together with the folder it is loaded from. */
  datatype Snapshot = Snapshot(videos: seq<VideoFileInfo>, folder: Folder)

  /** The folder after an info file holding `rec` is written. */
  function InfoWritten(f: Folder, name: string, rec: VideoFileInfo): (r: Folder)
    requires FolderValid(f) && !IsVideoFile(name)
    ensures FolderValid(r) && r.sizes == f.sizes && f.names <= r.names
    ensures r.infos == f.infos[name := rec]
  {
    if name in f.names then Folder(f.names, f.sizes, f.infos[name := rec])
    else
      ListedLast(f, name);
      Folder(f.names + [name], f.sizes, f.infos[name := rec])
  }

  /** The filters keep exactly the names of their kind. */
  lemma {:induction false} FiltersExact(names: seq<string>, n: string)
    ensures n in VideoFiles(names) <==> n in names && IsVideoFile(n)
    ensures n in InfoFiles(names) <==> n in names && IsInfoFile(n)
    decreases |names|
  {
    if names != [] {
      var init := names[..|names| - 1];
      FiltersExact(init, n);
      assert names == init + [names[|names| - 1]];
    }
  }

  /** Listing one more name that is not a video file. */
  lemma ListedLast(f: Folder, name: string)
    requires FolderValid(f) && !IsVideoFile(name) && name !in f.names
    ensures VideoFiles(f.names + [name]) == VideoFiles(f.names)
    ensures InfoFiles(f.names + [name]) == InfoFiles(f.names) + (if IsInfoFile(name) then [name] else [])
    ensures forall i, j :: 0 <= i < j < |f.names + [name]| ==> (f.names + [name])[i] != (f.names + [name])[j]
  {
    var names := f.names + [name];
    assert names[..|names| - 1] == f.names;
    forall i, j | 0 <= i < j < |names|
      ensures names[i] != names[j]
    {
      if j == |f.names| {
        assert names[i] == f.names[i];
      } else {
        assert names[i] == f.names[i] && names[j] == f.names[j];
      }
    }
  }

  /** The info file of a video file is not itself a video file. */
  lemma InfoNameNotVideo(fileName: string)
    ensures !IsVideoFile(InfoName(fileName))
  {
    var p := InfoName(fileName);
    assert p[|p| - 1] == 'n';
    EndingNNotVideo(p);
  }

  /** No video extension ends in 'n'. */
  lemma EndingNNotVideo(p: string)
    requires p != [] && p[|p| - 1] == 'n'
    ensures !IsVideoFile(p)
  {
    NodePath.ExtNameLastChar(p);
    var ext := NodePath.ExtName(p);
    assert ext == "" || ext[|ext| - 1] == 'n';
    var mkv, mp4 := ".mkv", ".mp4";
    assert mkv[|mkv| - 1] == 'v' && mp4[|mp4| - 1] == '4';
    assert ext != mkv && ext != mp4;
  }

  /** addVideoFileInfo: the parsed record is kept unless its file name is
      already in the catalog. */
  function WithInfo(vs: seq<VideoFileInfo>, rec: VideoFileInfo): (r: seq<VideoFileInfo>)
    ensures vs <= r && |r| <= |vs| + 1
    ensures FileNamesUnique(vs) ==> FileNamesUnique(r)
    ensures IndexOfFileName(r, rec.fileName).Some?
  {
    if IndexOfFileName(vs, rec.fileName).Some? then vs
    else
      LastIndex(vs, rec);
      vs + [rec]
  }

  /** addVideo: a new file name gets a built record and its info file. */
  function AddVideoStep(s: Snapshot, fileName: string, uuid: string, subtitles: seq<SubtitleFile>): (r: Snapshot)
    requires FolderValid(s.folder) && fileName in s.folder.sizes
    ensures FolderValid(r.folder) && r.folder.sizes == s.folder.sizes && s.folder.names <= r.folder.names
    ensures s.videos <= r.videos && |r.videos| <= |s.videos| + 1
    ensures FileNamesUnique(s.videos) ==> FileNamesUnique(r.videos)
    ensures IndexOfFileName(r.videos, fileName).Some?
  {
    if IndexOfFileName(s.videos, fileName).Some? then s
    else
      var rec := BuildRecord(fileName, uuid, s.folder.sizes[fileName], subtitles);
      InfoNameNotVideo(fileName);
      Snapshot(WithInfo(s.videos, rec), InfoWritten(s.folder, InfoName(fileName), rec))
  }

  /** The first loop of refresh: every info file, in order. */
  function AddInfos(vs: seq<VideoFileInfo>, infos: map<string, VideoFileInfo>, js: seq<string>): (r: seq<VideoFileInfo>)
    requires forall k :: 0 <= k < |js| ==> js[k] in infos
    ensures vs <= r
    ensures FileNamesUnique(vs) ==> FileNamesUnique(r)
    decreases |js|
  {
    if js == [] then vs
    else WithInfo(AddInfos(vs, infos, js[..|js| - 1]), infos[js[|js| - 1]])
  }

  /** The second loop of refresh: every video file, in order, with the uuid
      randomUUID gave it and the subtitle files getSubtitles found for it. */
  function AddVideos(s: Snapshot, fs: seq<string>, uuids: seq<string>, subtitlesFor: string -> seq<SubtitleFile>): (r: Snapshot)
    requires FolderValid(s.folder) && |uuids| == |fs|
    requires forall k :: 0 <= k < |fs| ==> fs[k] in s.folder.sizes
    ensures FolderValid(r.folder) && r.folder.sizes == s.folder.sizes && s.folder.names <= r.folder.names
    ensures s.videos <= r.videos
    ensures FileNamesUnique(s.videos) ==> FileNamesUnique(r.videos)
    decreases |fs|
  {
    if fs == [] then s
    else
      var n := |fs| - 1;
      var s1 := AddVideos(s, fs[..n], uuids[..n], subtitlesFor);
      AddVideoStep(s1, fs[n], uuids[n], subtitlesFor(fs[n]))
  }

  /** refresh: info files first, then video files, both from one listing. */
  function RefreshSpec(s: Snapshot, uuids: seq<string>, subtitlesFor: string -> seq<SubtitleFile>): (r: Snapshot)
    requires FolderValid(s.folder) && |uuids| == |VideoFiles(s.folder.names)|
    ensures s.videos <= r.videos
    ensures FileNamesUnique(s.videos) ==> FileNamesUnique(r.videos)
  {
    var files := s.folder.names;
    InfoFilesParse(s.folder);
    VideoFilesStat(s.folder);
    var vs := AddInfos(s.videos, s.folder.infos, InfoFiles(files));
    AddVideos(Snapshot(vs, s.folder), VideoFiles(files), uuids, subtitlesFor)
  }

  // ---------------------------------------------------------------------
  // Properties of refresh

  /** After the info files, every file name some listed info file names is
      in the catalog, held by a record from an info file unless it was
      there before. */
  lemma {:induction false} AddInfosCovers(vs: seq<VideoFileInfo>, infos: map<string, VideoFileInfo>, js: seq<string>, fileName: string)
    requires forall k :: 0 <= k < |js| ==> js[k] in infos
    requires IndexOfFileName(vs, fileName).None?
    requires exists k :: 0 <= k < |js| && infos[js[k]].fileName == fileName
    ensures var r := AddInfos(vs, infos, js);
      IndexOfFileName(r, fileName).Some? &&
      exists k :: 0 <= k < |js| && r[IndexOfFileName(r, fileName).value] == infos[js[k]]
    decreases |js|
  {
    var n := |js| - 1;
    var init := AddInfos(vs, infos, js[..n]);
    var rec := infos[js[n]];
    assert AddInfos(vs, infos, js) == WithInfo(init, rec);
    var pre := js[..n];
    if exists k :: 0 <= k < n && infos[pre[k]].fileName == fileName {
      AddInfosCovers(vs, infos, pre, fileName);
      CoversKept(init, rec, infos, js, pre, fileName);
    } else {
      AddInfosFresh(vs, infos, pre, fileName);
      CoversLast(init, infos, js, pre, fileName);
    }
  }

  /** A record from the first |js| - 1 info files is still found after the
      last one. */
  lemma CoversKept(init: seq<VideoFileInfo>, rec: VideoFileInfo, infos: map<string, VideoFileInfo>, js: seq<string>, pre: seq<string>,
                   fileName: string)
    requires js != [] && pre == js[..|js| - 1] && forall k :: 0 <= k < |js| ==> js[k] in infos
    requires IndexOfFileName(init, fileName).Some?
    requires exists k :: 0 <= k < |pre| && init[IndexOfFileName(init, fileName).value] == infos[pre[k]]
    ensures var r := WithInfo(init, rec);
      IndexOfFileName(r, fileName).Some? &&
      exists k :: 0 <= k < |js| && r[IndexOfFileName(r, fileName).value] == infos[js[k]]
  {
    var k :| 0 <= k < |pre| && init[IndexOfFileName(init, fileName).value] == infos[pre[k]];
    assert pre[k] == js[k];
    PrefixKeepsIndex(init, WithInfo(init, rec), fileName);
  }

  /** The last info file names a file no earlier one names. */
  lemma CoversLast(init: seq<VideoFileInfo>, infos: map<string, VideoFileInfo>, js: seq<string>, pre: seq<string>, fileName: string)
    requires js != [] && pre == js[..|js| - 1] && forall k :: 0 <= k < |js| ==> js[k] in infos
    requires IndexOfFileName(init, fileName).None?
    requires exists k :: 0 <= k < |js| && infos[js[k]].fileName == fileName
    requires forall k :: 0 <= k < |pre| ==> infos[pre[k]].fileName != fileName
    ensures var r := WithInfo(init, infos[js[|js| - 1]]);
      IndexOfFileName(r, fileName).Some? &&
      exists k :: 0 <= k < |js| && r[IndexOfFileName(r, fileName).value] == infos[js[k]]
  {
    var n := |js| - 1;
    var k :| 0 <= k < |js| && infos[js[k]].fileName == fileName;
    assert forall m :: 0 <= m < |pre| ==> pre[m] == js[m];
    assert k == n;
    var rec := infos[js[n]];
    assert rec.fileName == fileName;
    LastIndex(init, rec);
  }

  /** A record found in a catalog is still the one found after appending. */
  lemma PrefixKeepsIndex(a: seq<VideoFileInfo>, b: seq<VideoFileInfo>, fileName: string)
    requires a <= b && IndexOfFileName(a, fileName).Some?
    ensures IndexOfFileName(b, fileName) == IndexOfFileName(a, fileName)
  {
    var i := IndexOfFileName(a, fileName).value;
    assert b[i] == a[i];
    var j := IndexOfFileName(b, fileName).value;
    assert j <= i;
    assert b[j] == a[j];
  }

  lemma LastIndex(a: seq<VideoFileInfo>, rec: VideoFileInfo)
    requires IndexOfFileName(a, rec.fileName).None?
    ensures IndexOfFileName(a + [rec], rec.fileName) == Some(|a|)
  {
    var b := a + [rec];
    assert b[|a|] == rec;
    assert forall k :: 0 <= k < |a| ==> b[k] == a[k];
  }

  /** A file name no info file names is not added by the first loop. */
  lemma {:induction false} AddInfosFresh(vs: seq<VideoFileInfo>, infos: map<string, VideoFileInfo>, js: seq<string>, fileName: string)
    requires forall k :: 0 <= k < |js| ==> js[k] in infos
    requires IndexOfFileName(vs, fileName).None?
    requires forall k :: 0 <= k < |js| ==> infos[js[k]].fileName != fileName
    ensures IndexOfFileName(AddInfos(vs, infos, js), fileName).None?
    decreases |js|
  {
    if js != [] {
      var n := |js| - 1;
      assert forall k :: 0 <= k < n ==> js[..n][k] == js[k];
      AddInfosFresh(vs, infos, js[..n], fileName);
    }
  }

  /** Video files only ever append, so a record found after the info files
      is the one found at the end. */
  lemma {:induction false} AddVideosKeeps(s: Snapshot, fs: seq<string>, uuids: seq<string>, subtitlesFor: string -> seq<SubtitleFile>, fileName: string)
    requires FolderValid(s.folder) && |uuids| == |fs|
    requires forall k :: 0 <= k < |fs| ==> fs[k] in s.folder.sizes
    requires IndexOfFileName(s.videos, fileName).Some?
    ensures IndexOfFileName(AddVideos(s, fs, uuids, subtitlesFor).videos, fileName) == IndexOfFileName(s.videos, fileName)
  {
    PrefixKeepsIndex(s.videos, AddVideos(s, fs, uuids, subtitlesFor).videos, fileName);
  }

  /** On a fresh catalog, a video file whose record was persisted keeps that
      record, and so its uuid, instead of getting a new one: refresh reads
      the info files before the video files. */
  lemma PersistedRecordKept(s: Snapshot, uuids: seq<string>, subtitlesFor: string -> seq<SubtitleFile>, fileName: string)
    requires FolderValid(s.folder) && |uuids| == |VideoFiles(s.folder.names)|
    requires IndexOfFileName(s.videos, fileName).None?
    requires exists j :: j in InfoFiles(s.folder.names) && s.folder.infos[j].fileName == fileName
    ensures var r := RefreshSpec(s, uuids, subtitlesFor);
      IndexOfFileName(r.videos, fileName).Some? &&
      exists j :: j in InfoFiles(s.folder.names) && r.videos[IndexOfFileName(r.videos, fileName).value] == s.folder.infos[j]
  {
    var js := InfoFiles(s.folder.names);
    InfoFilesParse(s.folder);
    var j :| j in js && s.folder.infos[j].fileName == fileName;
    var k :| 0 <= k < |js| && js[k] == j;
    AddInfosCovers(s.videos, s.folder.infos, js, fileName);
    var vs := AddInfos(s.videos, s.folder.infos, js);
    VideoFilesStat(s.folder);
    AddVideosKeeps(Snapshot(vs, s.folder), VideoFiles(s.folder.names), uuids, subtitlesFor, fileName);
  }

  lemma InfoFilesParse(f: Folder)
    requires FolderValid(f)
    ensures forall k :: 0 <= k < |InfoFiles(f.names)| ==> InfoFiles(f.names)[k] in f.infos
  {
  }

  lemma VideoFilesStat(f: Folder)
    requires FolderValid(f)
    ensures forall k :: 0 <= k < |VideoFiles(f.names)| ==> VideoFiles(f.names)[k] in f.sizes
  {
  }

  /** One more video file is one more addVideo. */
  lemma AddVideosNext(s: Snapshot, fs: seq<string>, uuids: seq<string>, subtitlesFor: string -> seq<SubtitleFile>, k: nat)
    requires FolderValid(s.folder) && |uuids| == |fs| && k < |fs|
    requires forall m :: 0 <= m < |fs| ==> fs[m] in s.folder.sizes
    ensures AddVideos(s, fs[..k + 1], uuids[..k + 1], subtitlesFor) ==
      AddVideoStep(AddVideos(s, fs[..k], uuids[..k], subtitlesFor), fs[k], uuids[k], subtitlesFor(fs[k]))
  {
    var gs, vs := fs[..k + 1], uuids[..k + 1];
    assert gs[..k] == fs[..k] && gs[k] == fs[k];
    assert vs[..k] == uuids[..k] && vs[k] == uuids[k];
  }

  /** After refresh every listed video file has a record. */
  lemma {:induction false} AddVideosCovers(s: Snapshot, fs: seq<string>, uuids: seq<string>, subtitlesFor: string -> seq<SubtitleFile>, fileName: string)
    requires FolderValid(s.folder) && |uuids| == |fs|
    requires forall k :: 0 <= k < |fs| ==> fs[k] in s.folder.sizes
    requires fileName in fs
    ensures IndexOfFileName(AddVideos(s, fs, uuids, subtitlesFor).videos, fileName).Some?
    decreases |fs|
  {
    var n := |fs| - 1;
    var s1 := AddVideos(s, fs[..n], uuids[..n], subtitlesFor);
    assert AddVideos(s, fs, uuids, subtitlesFor) == AddVideoStep(s1, fs[n], uuids[n], subtitlesFor(fs[n]));
    if fs[n] != fileName {
      InInit(fs, fileName);
      AddVideosCovers(s, fs[..n], uuids[..n], subtitlesFor, fileName);
      StepKeepsIndex(s1, fs[n], uuids[n], subtitlesFor(fs[n]), fileName);
    }
  }

  lemma InInit(fs: seq<string>, x: string)
    requires x in fs && fs[|fs| - 1] != x
    ensures x in fs[..|fs| - 1]
  {
    var k :| 0 <= k < |fs| && fs[k] == x;
    assert fs[..|fs| - 1][k] == x;
  }

  /** addVideo keeps every record already found. */
  lemma StepKeepsIndex(s: Snapshot, name: string, uuid: string, subtitles: seq<SubtitleFile>, fileName: string)
    requires FolderValid(s.folder) && name in s.folder.sizes
    requires IndexOfFileName(s.videos, fileName).Some?
    ensures IndexOfFileName(AddVideoStep(s, name, uuid, subtitles).videos, fileName).Some?
  {
    PrefixKeepsIndex(s.videos, AddVideoStep(s, name, uuid, subtitles).videos, fileName);
  }

  lemma RefreshCovers(s: Snapshot, uuids: seq<string>, subtitlesFor: string -> seq<SubtitleFile>, fileName: string)
    requires FolderValid(s.folder) && |uuids| == |VideoFiles(s.folder.names)|
    requires fileName in s.folder.names && IsVideoFile(fileName)
    ensures IndexOfFileName(RefreshSpec(s, uuids, subtitlesFor).videos, fileName).Some?
  {
    VideoFilesStat(s.folder);
    FiltersExact(s.folder.names, fileName);
    var vs := AddInfos(s.videos, s.folder.infos, InfoFiles(s.folder.names));
    AddVideosCovers(Snapshot(vs, s.folder), VideoFiles(s.folder.names), uuids, subtitlesFor, fileName);
  }

  // ---------------------------------------------------------------------
  // The objects

  /** The videos folder, written to when a new record is persisted. */
  class VideoFolder {
    var names: seq<string>
    var sizes: map<string, nat>
    var infos: map<string, VideoFileInfo>

    function Value(): Folder
      reads this
    {
      Folder(names, sizes, infos)
    }

    predicate Valid()
      reads this
    {
      FolderValid(Value())
    }

    constructor (f: Folder)
      requires FolderValid(f)
      ensures Valid() && Value() == f
    {
      names, sizes, infos := f.names, f.sizes, f.infos;
    }

    /** writeFile(join(videosPath, name), JSON.stringify(rec)). */
    method WriteInfo(name: string, rec: VideoFileInfo)
      requires Valid() && !IsVideoFile(name)
      modifies this
      ensures Valid() && Value() == InfoWritten(old(Value()), name, rec)
    {
      ghost var written := InfoWritten(Value(), name, rec);
      if name !in names {
        names := names + [name];
      }
      infos := infos[name := rec];
      assert Value() == written;
    }
  }

  class VideoDal {
    const videosPath: string
    var videos: seq<VideoFileInfo>
    var lastRefresh: Option<int>

    /** No two records share a file name, and lastRefresh, which nothing
        assigns, is still unset. */
    predicate Valid()
      reads this
    {
      FileNamesUnique(videos) && lastRefresh.None?
    }

    constructor (videosPath: string)
      ensures Valid() && this.videosPath == videosPath && videos == []
    {
      this.videosPath := videosPath;
      videos := [];
      lastRefresh := None;
    }

    /** refreshNeeded(now): never refreshed (an unset or zero lastRefresh is
        falsy) or more than a minute ago. */
    predicate RefreshNeeded(now: int)
      reads this
    {
      lastRefresh.None? || lastRefresh.value == 0 || now - lastRefresh.value > 60 * 1000
    }

    predicate HasVideo(fileName: string)
      reads this
    {
      IndexOfFileName(videos, fileName).Some?
    }

    /** buildVideoFileInfo: the new record, persisted to its info file. */
    method BuildVideoFileInfo(folder: VideoFolder, fileName: string, uuid: string, subtitles: seq<SubtitleFile>)
      returns (video: VideoFileInfo)
      requires folder.Valid() && fileName in folder.sizes
      modifies folder
      ensures folder.Valid()
      ensures video == BuildRecord(fileName, uuid, old(folder.sizes)[fileName], subtitles)
      ensures !IsVideoFile(InfoName(fileName)) && folder.Value() == InfoWritten(old(folder.Value()), InfoName(fileName), video)
    {
      var baseName := NodePath.BaseName(fileName, NodePath.ExtName(fileName));
      var infoFileName := baseName + ".json";
      var size := folder.sizes[fileName];
      video := VideoFileInfo(uuid, fileName, baseName, "", "video/*", size, [], subtitles);
      assert infoFileName == InfoName(fileName) && video == BuildRecord(fileName, uuid, size, subtitles);
      InfoNameNotVideo(fileName);
      folder.WriteInfo(infoFileName, video);
    }

    /** addVideo(fileName). */
    method AddVideo(folder: VideoFolder, fileName: string, uuid: string, subtitles: seq<SubtitleFile>)
      requires Valid() && folder.Valid() && fileName in folder.sizes
      modifies this, folder
      ensures Valid() && folder.Valid() && lastRefresh == old(lastRefresh)
      ensures Snapshot(videos, folder.Value()) == AddVideoStep(old(Snapshot(videos, folder.Value())), fileName, uuid, subtitles)
    {
      ghost var step := AddVideoStep(Snapshot(videos, folder.Value()), fileName, uuid, subtitles);
      if !HasVideo(fileName) {
        var videoFile := BuildVideoFileInfo(folder, fileName, uuid, subtitles);
        videos := videos + [videoFile];
      }
      assert Snapshot(videos, folder.Value()) == step;
    }

    /** addVideoFileInfo(fileName): the record the info file holds. */
    method AddVideoFileInfo(folder: VideoFolder, fileName: string)
      requires Valid() && fileName in folder.infos
      modifies this
      ensures Valid() && lastRefresh == old(lastRefresh)
      ensures videos == WithInfo(old(videos), folder.infos[fileName])
    {
      var videoFileInfo := folder.infos[fileName];
      if !HasVideo(videoFileInfo.fileName) {
        videos := videos + [videoFileInfo];
      }
    }

    /** refresh(): `uuids[k]` is the id randomUUID returns for the k-th video
        file, `subtitlesFor` what getSubtitles finds for a video file. */
    method Refresh(folder: VideoFolder, uuids: seq<string>, subtitlesFor: string -> seq<SubtitleFile>)
      requires Valid() && folder.Valid() && |uuids| == |VideoFiles(folder.names)|
      modifies this, folder
      ensures Valid() && folder.Valid() && lastRefresh == old(lastRefresh)
      ensures Snapshot(videos, folder.Value()) == RefreshSpec(old(Snapshot(videos, folder.Value())), uuids, subtitlesFor)
    {
      var files := folder.names;
      var infoFiles := InfoFiles(files);
      InfoFilesParse(folder.Value());
      LoadInfoFiles(folder, infoFiles);
      var videoFiles := VideoFiles(files);
      VideoFilesStat(folder.Value());
      LoadVideoFiles(folder, videoFiles, uuids, subtitlesFor);
    }

    /** refresh's first loop: addVideoFileInfo for every info file. */
    method LoadInfoFiles(folder: VideoFolder, infoFiles: seq<string>)
      requires Valid() && forall k :: 0 <= k < |infoFiles| ==> infoFiles[k] in folder.infos
      modifies this
      ensures Valid() && lastRefresh == old(lastRefresh)
      ensures videos == AddInfos(old(videos), folder.infos, infoFiles)
    {
      for k := 0 to |infoFiles|
        invariant Valid() && lastRefresh == old(lastRefresh)
        invariant videos == AddInfos(old(videos), folder.infos, infoFiles[..k])
      {
        assert infoFiles[..k + 1][..k] == infoFiles[..k];
        AddVideoFileInfo(folder, infoFiles[k]);
      }
      assert infoFiles[..|infoFiles|] == infoFiles;
    }

    /** refresh's second loop: addVideo for every video file. */
    method LoadVideoFiles(folder: VideoFolder, videoFiles: seq<string>, uuids: seq<string>, subtitlesFor: string -> seq<SubtitleFile>)
      requires Valid() && folder.Valid() && |uuids| == |videoFiles|
      requires forall k :: 0 <= k < |videoFiles| ==> videoFiles[k] in folder.sizes
      modifies this, folder
      ensures Valid() && folder.Valid() && lastRefresh == old(lastRefresh)
      ensures Snapshot(videos, folder.Value()) == AddVideos(old(Snapshot(videos, folder.Value())), videoFiles, uuids, subtitlesFor)
    {
      for k := 0 to |videoFiles|
        invariant Valid() && folder.Valid() && lastRefresh == old(lastRefresh)
        invariant folder.sizes == old(folder.sizes)
        invariant Snapshot(videos, folder.Value()) == AddVideos(old(Snapshot(videos, folder.Value())), videoFiles[..k], uuids[..k], subtitlesFor)
      {
        AddVideosNext(old(Snapshot(videos, folder.Value())), videoFiles, uuids, subtitlesFor, k);
        AddVideo(folder, videoFiles[k], uuids[k], subtitlesFor(videoFiles[k]));
      }
      assert videoFiles[..|videoFiles|] == videoFiles;
      assert uuids[..|uuids|] == uuids;
    }

    /** getList(): refreshes when needed, which is always, then the catalog. */
    method GetList(folder: VideoFolder, now: int, uuids: seq<string>, subtitlesFor: string -> seq<SubtitleFile>)
      returns (list: seq<VideoFileInfo>)
      requires Valid() && folder.Valid() && |uuids| == |VideoFiles(folder.names)|
      modifies this, folder
      ensures Valid() && folder.Valid()
      ensures Snapshot(videos, folder.Value()) == RefreshSpec(old(Snapshot(videos, folder.Value())), uuids, subtitlesFor)
      ensures list == videos
    {
      RefreshAlwaysNeeded(this, now);
      if RefreshNeeded(now) {
        Refresh(folder, uuids, subtitlesFor);
      }
      list := videos;
    }

    /** info(uuid): refreshes when needed, then the first record with that uuid. */
    method Info(folder: VideoFolder, now: int, uuid: string, uuids: seq<string>, subtitlesFor: string -> seq<SubtitleFile>)
      returns (r: Option<VideoFileInfo>)
      requires Valid() && folder.Valid() && |uuids| == |VideoFiles(folder.names)|
      modifies this, folder
      ensures Valid() && folder.Valid()
      ensures Snapshot(videos, folder.Value()) == RefreshSpec(old(Snapshot(videos, folder.Value())), uuids, subtitlesFor)
      ensures r == FindUuid(videos, uuid)
    {
      RefreshAlwaysNeeded(this, now);
      if RefreshNeeded(now) {
        Refresh(folder, uuids, subtitlesFor);
      }
      r := FindUuid(videos, uuid);
    }
  }

  /** Nothing assigns lastRefresh, so every call refreshes. */
  lemma RefreshAlwaysNeeded(dal: VideoDal, now: int)
    requires dal.Valid()
    ensures dal.RefreshNeeded(now)
  {
  }

  /** toVTT of the original server, proved to compute Vtt.Vtt. */
  method ToVtt(input: string) returns (output: string)
    ensures output == Vtt.Vtt(input)
  {
    output := "WEBVTT\n\n";
    var lines := Split(input, "\r\n");
    for i := 0 to |lines|
      invariant output == Vtt.Header + Vtt.VttBody(lines[..i])
    {
      var line := lines[i];
      if IndexOf(line, "-->").Some? {
        line := ReplaceChar(line, ',', '.');
      }
      Vtt.VttStep(lines, i, output, line);
      output := output + line + "\r\n";
    }
    assert lines[..|lines|] == lines;
  }
}
