/** The subtitle cache of apps/server: subtitle files next to a video
    (`movie.en.srt`, `movie.fr.vtt`) are copied or converted into the app
    storage folder as `<uuid>.<lang>.vtt`, once per language, and a video's
    languages are read back from that folder. The videos folder and the
    storage folder are distinct directories. */
module SubtitleData {
  import opened JsText
  import NodePath
  import Vtt
  import opened FileSystem
  import Catalog

  /** A listed file name split into its parts. */
  datatype Ble = Ble(full: string, base: string, lang: string, ext: string)

  /** getFileListSplit's map: ext = extname(full), base = basename(full, ext),
      lang = extname(base) without its dot. */
  function SplitName(full: string): (r: Ble)
    ensures r.full == full
    ensures '.' !in r.lang && '/' !in r.lang
  {
    var ext := NodePath.ExtName(full);
    var base := NodePath.BaseName(full, ext);
    var langExt := NodePath.ExtName(base);
    var lang := if langExt == "" then "" else langExt[1..];
    Ble(full, base, lang, ext)
  }

  /** getFileList(path).filter(f => f.includes(filter)). */
  function Matching(names: seq<string>, filter: string): (r: seq<string>)
    ensures |r| <= |names|
    decreases |names|
  {
    if names == [] then []
    else
      var last := names[|names| - 1];
      Matching(names[..|names| - 1], filter) + (if Contains(last, filter) then [last] else [])
  }

  /** getFileListSplit(path, filter): the matching names, each split. */
  function FileListSplit(names: seq<string>, filter: string): (r: seq<Ble>)
    ensures |r| == |Matching(names, filter)|
  {
    var m := Matching(names, filter);
    seq(|m|, k requires 0 <= k < |m| => SplitName(m[k]))
  }

  /** The languages of the ".vtt" entries, in order. */
  function Langs(bles: seq<Ble>): (r: seq<string>)
    ensures |r| <= |bles|
    decreases |bles|
  {
    if bles == [] then []
    else
      var last := bles[|bles| - 1];
      Langs(bles[..|bles| - 1]) + (if last.ext == ".vtt" then [last.lang] else [])
  }

  /** findIndex(({ lang }) => lang == l). */
  function IndexOfLang(bles: seq<Ble>, lang: string): (r: Option<nat>)
    ensures r.Some? ==> r.value < |bles| && bles[r.value].lang == lang
    ensures r.None? <==> forall k :: 0 <= k < |bles| ==> bles[k].lang != lang
  {
    if bles == [] then None
    else if bles[0].lang == lang then Some(0)
    else
      match IndexOfLang(bles[1..], lang)
      case None => None
      case Some(i) => Some(i + 1)
  }

  /** The cache file of a video's language. */
  function StorageName(uuid: string, lang: string): string {
    uuid + "." + lang + ".vtt"
  }

  /** What randomUUID produces: non-empty, no '/' and no '.'. */
  predicate UuidShaped(uuid: string) {
    |uuid| > 0 && '/' !in uuid && '.' !in uuid
  }

  /** convertToVttFile: nothing happens when the cache file exists, otherwise
      the converted text of the source file is written there. */
  function Converted(d: Dir, videos: Dir, fileName: string, lang: string, uuid: string): (r: Dir)
    requires WellFormed(d) && fileName in videos.data
    ensures WellFormed(r)
  {
    var outName := StorageName(uuid, lang);
    if outName in d.data then d else Written(d, outName, Vtt.Vtt(videos.data[fileName]))
  }

  /** One iteration of migrateSubtitlesToStorage. */
  function MigrateStep(d: Dir, videos: Dir, storageFiles: seq<Ble>, vf: Ble, uuid: string): (r: Dir)
    requires WellFormed(d) && vf.full in videos.data
    ensures WellFormed(r) && d.names <= r.names
    ensures forall n :: n in d.data ==> n in r.data
  {
    if IndexOfLang(storageFiles, vf.lang).Some? then d
    else if vf.ext == ".vtt" then Written(d, uuid + "." + vf.lang + vf.ext, videos.data[vf.full])
    else if vf.ext == ".srt" then Converted(d, videos, vf.full, vf.lang, uuid)
    else d
  }

  predicate AllListed(vfs: seq<Ble>, videos: Dir) {
    forall k :: 0 <= k < |vfs| ==> vfs[k].full in videos.data
  }

  /** migrateSubtitlesToStorage(storageFiles, videoFiles, uuid): the
      candidates in order, against the snapshot `storageFiles`. */
  function Migrate(d: Dir, videos: Dir, storageFiles: seq<Ble>, vfs: seq<Ble>, uuid: string): (r: Dir)
    requires WellFormed(d) && AllListed(vfs, videos)
    ensures WellFormed(r) && d.names <= r.names
    ensures forall n :: n in d.data ==> n in r.data
    decreases |vfs|
  {
    if vfs == [] then d
    else
      var n := |vfs| - 1;
      MigrateStep(Migrate(d, videos, storageFiles, vfs[..n], uuid), videos, storageFiles, vfs[n], uuid)
  }

  /** Storage after getVideoSubtitles: the snapshot of the video's cache files
      is taken first, then the candidates next to the video are migrated. */
  function Migrated(d: Dir, videos: Dir, uuid: string, baseName: string): (r: Dir)
    requires WellFormed(d) && WellFormed(videos)
    ensures WellFormed(r)
  {
    ListedExist(videos, baseName);
    Migrate(d, videos, FileListSplit(d.names, uuid), FileListSplit(videos.names, baseName), uuid)
  }

  /** What getVideoSubtitles returns: the languages of the video's ".vtt"
      cache files after migration. */
  function SubtitleLangs(d: Dir, videos: Dir, uuid: string, baseName: string): seq<string>
    requires WellFormed(d) && WellFormed(videos)
  {
    Langs(FileListSplit(Migrated(d, videos, uuid, baseName).names, uuid))
  }

  // ---------------------------------------------------------------------
  // Properties of the split and the filters

  /** For a plain file name the parts put back together give the name. */
  lemma SplitNameParts(full: string)
    requires '/' !in full
    ensures SplitName(full).base + SplitName(full).ext == full
  {
    NodePath.BaseNamePlusExtName(full);
  }

  /** The filter keeps exactly the names containing it. */
  lemma {:induction false} MatchingExact(names: seq<string>, filter: string, x: string)
    ensures x in Matching(names, filter) <==> x in names && Contains(x, filter)
    decreases |names|
  {
    if names != [] {
      var init := names[..|names| - 1];
      var last := names[|names| - 1];
      MatchingExact(init, filter, x);
      assert names == init + [last];
    }
  }

  /** getFileListSplit holds a listed name, split, exactly when the name
      contains the filter. */
  lemma FileListSplitExact(names: seq<string>, filter: string, x: string)
    ensures SplitName(x) in FileListSplit(names, filter) <==> x in names && Contains(x, filter)
  {
    MatchingExact(names, filter, x);
    var m := Matching(names, filter);
    var r := FileListSplit(names, filter);
    if x in m {
      var k :| 0 <= k < |m| && m[k] == x;
      assert r[k] == SplitName(x);
    }
    if SplitName(x) in r {
      var k :| 0 <= k < |r| && r[k] == SplitName(x);
      assert m[k] == r[k].full == x;
    }
  }

  /** Every entry of getFileListSplit is a matching name, split. */
  lemma FileListSplitEntries(names: seq<string>, filter: string)
    ensures forall k :: 0 <= k < |FileListSplit(names, filter)| ==>
      FileListSplit(names, filter)[k] == SplitName(FileListSplit(names, filter)[k].full)
    ensures forall k :: 0 <= k < |FileListSplit(names, filter)| ==>
      FileListSplit(names, filter)[k].full in names && Contains(FileListSplit(names, filter)[k].full, filter)
  {
    var m := Matching(names, filter);
    forall k | 0 <= k < |m|
      ensures m[k] in names && Contains(m[k], filter)
    {
      MatchingExact(names, filter, m[k]);
    }
  }

  /** The entry getFileListSplit holds for a listed name that matches. */
  lemma EntryOf(names: seq<string>, filter: string, x: string)
    requires x in names && Contains(x, filter)
    ensures SplitName(x) in FileListSplit(names, filter)
  {
    FileListSplitExact(names, filter, x);
  }

  /** The candidates next to a video are listed files there. */
  lemma ListedExist(videos: Dir, filter: string)
    requires WellFormed(videos)
    ensures AllListed(FileListSplit(videos.names, filter), videos)
  {
    FileListSplitEntries(videos.names, filter);
  }

  /** The result holds exactly the languages of the ".vtt" entries. */
  lemma {:induction false} LangsExact(bles: seq<Ble>, lang: string)
    ensures lang in Langs(bles) <==> exists k :: 0 <= k < |bles| && bles[k].ext == ".vtt" && bles[k].lang == lang
    decreases |bles|
  {
    if bles != [] {
      var init := bles[..|bles| - 1];
      LangsExact(init, lang);
      assert forall k :: 0 <= k < |init| ==> bles[k] == init[k];
    }
  }

  /** The cache file name has no '/' and its extension is ".vtt". */
  lemma StorageNameExt(uuid: string, lang: string)
    requires UuidShaped(uuid) && '/' !in lang
    ensures '/' !in StorageName(uuid, lang)
    ensures NodePath.ExtName(StorageName(uuid, lang)) == ".vtt"
  {
    var a := uuid + "." + lang;
    var name := a + "." + "vtt";
    assert name == StorageName(uuid, lang);
    assert '/' !in a by {
      assert forall i :: 0 <= i < |a| ==> a[i] == (if i < |uuid| then uuid[i] else if i == |uuid| then '.' else lang[i - |uuid| - 1]);
    }
    assert |name| > 2;
    NodePath.ExtNameAfterDot(a, "vtt");
  }

  /** Its base name is `uuid.lang`, whose extension is `.lang`. */
  lemma StorageNameBase(uuid: string, lang: string)
    requires UuidShaped(uuid) && '/' !in lang && '.' !in lang
    ensures NodePath.BaseName(StorageName(uuid, lang), ".vtt") == uuid + "." + lang
    ensures NodePath.ExtName(uuid + "." + lang) == "." + lang
  {
    var name := StorageName(uuid, lang);
    StorageNameExt(uuid, lang);
    NodePath.BaseNamePlusExtName(name);
    assert name == (uuid + "." + lang) + ".vtt";
    assert (uuid + "." + lang)[0] == uuid[0] && uuid[0] != '.';
    NodePath.ExtNameAfterDot(uuid, lang);
  }

  /** A cache file name splits back into the video's uuid and the language. */
  lemma StorageNameSplits(uuid: string, lang: string)
    requires UuidShaped(uuid) && '/' !in lang && '.' !in lang
    ensures SplitName(StorageName(uuid, lang)) == Ble(StorageName(uuid, lang), uuid + "." + lang, lang, ".vtt")
    ensures Contains(StorageName(uuid, lang), uuid)
  {
    var name := StorageName(uuid, lang);
    StorageNameExt(uuid, lang);
    StorageNameBase(uuid, lang);
    var base := uuid + "." + lang;
    assert NodePath.BaseName(name, NodePath.ExtName(name)) == base;
    var langExt := NodePath.ExtName(base);
    assert langExt != "" && langExt[1..] == lang;
    assert name[..|uuid|] == uuid;
    assert OccursAt(name, uuid, 0);
  }

  // ---------------------------------------------------------------------
  // Properties of the migration

  /** convertToVttFile reads and writes nothing once the cache file exists. */
  lemma ConvertedSkips(d: Dir, videos: Dir, fileName: string, lang: string, uuid: string)
    requires WellFormed(d) && fileName in videos.data
    requires StorageName(uuid, lang) in d.data
    ensures Converted(d, videos, fileName, lang, uuid) == d
  {
  }

  /** Converting a second time changes nothing. */
  lemma ConvertedIdempotent(d: Dir, videos: Dir, fileName: string, lang: string, uuid: string)
    requires WellFormed(d) && fileName in videos.data
    ensures var d1 := Converted(d, videos, fileName, lang, uuid);
      Converted(d1, videos, fileName, lang, uuid) == d1
  {
  }

  /** After migration the cache holds a file for every ".vtt" or ".srt"
      candidate whose language the snapshot lacked. */
  lemma {:induction false} MigrateWrites(d: Dir, videos: Dir, storageFiles: seq<Ble>, vfs: seq<Ble>, uuid: string, k: nat)
    requires WellFormed(d) && AllListed(vfs, videos) && k < |vfs|
    requires IndexOfLang(storageFiles, vfs[k].lang).None?
    requires vfs[k].ext == ".vtt" || vfs[k].ext == ".srt"
    ensures StorageName(uuid, vfs[k].lang) in Migrate(d, videos, storageFiles, vfs, uuid).data
    decreases |vfs|
  {
    var n := |vfs| - 1;
    var prev := Migrate(d, videos, storageFiles, vfs[..n], uuid);
    if k < n {
      assert vfs[..n][k] == vfs[k];
      MigrateWrites(d, videos, storageFiles, vfs[..n], uuid, k);
    } else {
      assert StorageName(uuid, vfs[k].lang) == uuid + "." + vfs[k].lang + vfs[k].ext || vfs[k].ext == ".srt";
    }
  }

  /** Migration only writes cache files of the candidates' languages:
      every other file keeps its contents. */
  lemma {:induction false} MigrateFrame(d: Dir, videos: Dir, storageFiles: seq<Ble>, vfs: seq<Ble>, uuid: string, name: string)
    requires WellFormed(d) && AllListed(vfs, videos) && name in d.data
    requires forall k :: 0 <= k < |vfs| ==> name != StorageName(uuid, vfs[k].lang)
    ensures Migrate(d, videos, storageFiles, vfs, uuid).data[name] == d.data[name]
    decreases |vfs|
  {
    if vfs != [] {
      var n := |vfs| - 1;
      var init := vfs[..n];
      assert forall k :: 0 <= k < n ==> init[k] == vfs[k];
      MigrateFrame(d, videos, storageFiles, init, uuid, name);
      var prev := Migrate(d, videos, storageFiles, init, uuid);
      assert Migrate(d, videos, storageFiles, vfs, uuid) == MigrateStep(prev, videos, storageFiles, vfs[n], uuid);
      MigrateStepFrame(prev, videos, storageFiles, vfs[n], uuid, name);
    }
  }

  /** One iteration writes only the cache file of its candidate's language. */
  lemma MigrateStepFrame(d: Dir, videos: Dir, storageFiles: seq<Ble>, vf: Ble, uuid: string, name: string)
    requires WellFormed(d) && vf.full in videos.data && name in d.data
    requires name != StorageName(uuid, vf.lang)
    ensures MigrateStep(d, videos, storageFiles, vf, uuid).data[name] == d.data[name]
  {
  }

  /** A candidate whose language the snapshot already has is neither copied
      nor converted: migrating only such candidates leaves storage as it is. */
  lemma {:induction false} MigrateSkipsKnown(d: Dir, videos: Dir, storageFiles: seq<Ble>, vfs: seq<Ble>, uuid: string)
    requires WellFormed(d) && AllListed(vfs, videos)
    requires forall k :: 0 <= k < |vfs| ==> IndexOfLang(storageFiles, vfs[k].lang).Some?
    ensures Migrate(d, videos, storageFiles, vfs, uuid) == d
    decreases |vfs|
  {
    if vfs != [] {
      MigrateSkipsKnown(d, videos, storageFiles, vfs[..|vfs| - 1], uuid);
    }
  }

  /** With both `x.l.srt` and `x.l.vtt` next to the video and no cached `l`,
      the cached file is the copied ".vtt" in either listing order: listed
      after the ".srt" the copy overwrites the conversion, listed before it
      the conversion is skipped. */
  lemma VttWins(d: Dir, videos: Dir, storageFiles: seq<Ble>, srt: Ble, vtt: Ble, uuid: string)
    requires WellFormed(d) && srt.full in videos.data && vtt.full in videos.data
    requires srt.ext == ".srt" && vtt.ext == ".vtt" && srt.lang == vtt.lang
    requires IndexOfLang(storageFiles, vtt.lang).None?
    ensures Migrate(d, videos, storageFiles, [srt, vtt], uuid).data[StorageName(uuid, vtt.lang)] == videos.data[vtt.full]
    ensures Migrate(d, videos, storageFiles, [vtt, srt], uuid).data[StorageName(uuid, vtt.lang)] == videos.data[vtt.full]
  {
    assert [srt, vtt][..1] == [srt] && [srt][..0] == [];
    assert [vtt, srt][..1] == [vtt] && [vtt][..0] == [];
    assert StorageName(uuid, vtt.lang) == uuid + "." + vtt.lang + vtt.ext;
  }

  /** Every language migration writes is reported afterwards. */
  lemma LangReported(d: Dir, videos: Dir, uuid: string, baseName: string, k: nat)
    requires WellFormed(d) && WellFormed(videos) && UuidShaped(uuid)
    requires k < |FileListSplit(videos.names, baseName)|
    requires var vf := FileListSplit(videos.names, baseName)[k];
      IndexOfLang(FileListSplit(d.names, uuid), vf.lang).None? && (vf.ext == ".vtt" || vf.ext == ".srt")
    ensures FileListSplit(videos.names, baseName)[k].lang in SubtitleLangs(d, videos, uuid, baseName)
  {
    var vfs := FileListSplit(videos.names, baseName);
    var lang := vfs[k].lang;
    ListedExist(videos, baseName);
    FileListSplitEntries(videos.names, baseName);
    MigrateWrites(d, videos, FileListSplit(d.names, uuid), vfs, uuid, k);
    var r := Migrated(d, videos, uuid, baseName);
    var name := StorageName(uuid, lang);
    assert name in r.names;
    StorageNameSplits(uuid, lang);
    EntryOf(r.names, uuid, name);
    var bles := FileListSplit(r.names, uuid);
    var j :| 0 <= j < |bles| && bles[j] == SplitName(name);
    LangsExact(bles, lang);
  }

  /** A language the snapshot had is still in the new snapshot. */
  lemma KnownStaysKnown(d: Dir, r: Dir, uuid: string, lang: string)
    requires d.names <= r.names
    requires IndexOfLang(FileListSplit(d.names, uuid), lang).Some?
    ensures IndexOfLang(FileListSplit(r.names, uuid), lang).Some?
  {
    var bles := FileListSplit(d.names, uuid);
    var b := bles[IndexOfLang(bles, lang).value];
    FileListSplitEntries(d.names, uuid);
    FileListSplitExact(d.names, uuid, b.full);
    assert b.full in r.names;
    EntryOf(r.names, uuid, b.full);
    var nb := FileListSplit(r.names, uuid);
    var j :| 0 <= j < |nb| && nb[j] == SplitName(b.full);
    assert nb[j].lang == lang;
  }

  /** After one migration every candidate's language is known, so the next
      getVideoSubtitles migrates nothing and reports the same languages. */
  lemma MigrationSettles(d: Dir, videos: Dir, uuid: string, baseName: string)
    requires WellFormed(d) && WellFormed(videos) && UuidShaped(uuid)
    ensures Migrated(Migrated(d, videos, uuid, baseName), videos, uuid, baseName) == Migrated(d, videos, uuid, baseName)
    ensures SubtitleLangs(Migrated(d, videos, uuid, baseName), videos, uuid, baseName) == SubtitleLangs(d, videos, uuid, baseName)
  {
    var vfs := FileListSplit(videos.names, baseName);
    ListedExist(videos, baseName);
    var r := Migrated(d, videos, uuid, baseName);
    var snap := FileListSplit(r.names, uuid);
    FileListSplitEntries(videos.names, baseName);
    forall k | 0 <= k < |vfs| && (vfs[k].ext == ".vtt" || vfs[k].ext == ".srt")
      ensures IndexOfLang(snap, vfs[k].lang).Some?
    {
      if IndexOfLang(FileListSplit(d.names, uuid), vfs[k].lang).Some? {
        KnownStaysKnown(d, r, uuid, vfs[k].lang);
      } else {
        MigrateWrites(d, videos, FileListSplit(d.names, uuid), vfs, uuid, k);
        var name := StorageName(uuid, vfs[k].lang);
        StorageNameSplits(uuid, vfs[k].lang);
        EntryOf(r.names, uuid, name);
        var j :| 0 <= j < |snap| && snap[j] == SplitName(name);
        assert snap[j].lang == vfs[k].lang;
      }
    }
    MigrateNoop(r, videos, snap, vfs, uuid);
  }

  /** Migration against a snapshot that knows every ".vtt"/".srt" candidate's
      language changes nothing. */
  lemma {:induction false} MigrateNoop(d: Dir, videos: Dir, storageFiles: seq<Ble>, vfs: seq<Ble>, uuid: string)
    requires WellFormed(d) && AllListed(vfs, videos)
    requires forall k :: 0 <= k < |vfs| && (vfs[k].ext == ".vtt" || vfs[k].ext == ".srt") ==>
      IndexOfLang(storageFiles, vfs[k].lang).Some?
    ensures Migrate(d, videos, storageFiles, vfs, uuid) == d
    decreases |vfs|
  {
    if vfs != [] {
      var n := |vfs| - 1;
      assert forall k :: 0 <= k < n ==> vfs[..n][k] == vfs[k];
      MigrateNoop(d, videos, storageFiles, vfs[..n], uuid);
    }
  }

  // ---------------------------------------------------------------------
  // The operations

  /** toVTT of apps/server, proved to compute Vtt.Vtt. */
  method ToVtt(input: string) returns (output: string)
    ensures output == Vtt.Vtt(input)
  {
    output := "WEBVTT\n\n";
    var lines := Split(input, "\r\n");
    for i := 0 to |lines|
      invariant output == Vtt.Header + Vtt.VttBody(lines[..i])
    {
      var line := lines[i];
      if IndexOf(line, "-->").Some? {
        line := ReplaceChar(line, ',', '.');
      }
      Vtt.VttStep(lines, i, output, line);
      output := output + line + "\r\n";
    }
    assert lines[..|lines|] == lines;
  }

  /** copyVttFile(from, to): the storage file `to` gets the text of `from`. */
  method CopyVttFile(storage: Directory, videos: Dir, from: string, to: string) returns (r: string)
    requires storage.Valid() && from in videos.data
    modifies storage
    ensures storage.Valid() && r == to
    ensures storage.Value() == Written(old(storage.Value()), to, videos.data[from])
  {
    storage.Write(to, videos.data[from]);
    r := to;
  }

  /** convertToVttFile(vttFileName, lang, videoUUID): resolves `lang` whether
      or not it converted. */
  method ConvertToVttFile(storage: Directory, videos: Dir, vttFileName: string, lang: string, videoUuid: string)
    returns (r: string)
    requires storage.Valid() && vttFileName in videos.data
    modifies storage
    ensures storage.Valid() && r == lang
    ensures storage.Value() == Converted(old(storage.Value()), videos, vttFileName, lang, videoUuid)
  {
    var outPath := videoUuid + "." + lang + ".vtt";
    var present := storage.Exists(outPath);
    if !present {
      var data := videos.data[vttFileName];
      var vttData := ToVtt(data);
      storage.Write(outPath, vttData);
    }
    r := lang;
  }

  /** migrateSubtitlesToStorage(storageFiles, videoFiles, videoFileUUID). */
  method MigrateSubtitlesToStorage(storage: Directory, videos: Dir, storageFiles: seq<Ble>, videoFiles: seq<Ble>, videoFileUuid: string)
    requires storage.Valid() && AllListed(videoFiles, videos)
    modifies storage
    ensures storage.Valid()
    ensures storage.Value() == Migrate(old(storage.Value()), videos, storageFiles, videoFiles, videoFileUuid)
  {
    for k := 0 to |videoFiles|
      invariant storage.Valid()
      invariant storage.Value() == Migrate(old(storage.Value()), videos, storageFiles, videoFiles[..k], videoFileUuid)
    {
      assert videoFiles[..k + 1][..k] == videoFiles[..k];
      var videoFile := videoFiles[k];
      if IndexOfLang(storageFiles, videoFile.lang).None? {
        if videoFile.ext == ".vtt" {
          var _ := CopyVttFile(storage, videos, videoFile.full, videoFileUuid + "." + videoFile.lang + videoFile.ext);
        } else if videoFile.ext == ".srt" {
          var _ := ConvertToVttFile(storage, videos, videoFile.full, videoFile.lang, videoFileUuid);
        }
      }
    }
    assert videoFiles[..|videoFiles|] == videoFiles;
  }

  /** getVideoSubtitles(video). */
  method GetVideoSubtitles(storage: Directory, videos: Dir, video: Catalog.Video) returns (langs: seq<string>)
    requires storage.Valid() && WellFormed(videos)
    modifies storage
    ensures storage.Valid()
    ensures storage.Value() == Migrated(old(storage.Value()), videos, video.uuid, video.baseName)
    ensures langs == SubtitleLangs(old(storage.Value()), videos, video.uuid, video.baseName)
  {
    var storageFiles := FileListSplit(storage.names, video.uuid);
    var videosFolderFiles := FileListSplit(videos.names, video.baseName);
    ListedExist(videos, video.baseName);
    MigrateSubtitlesToStorage(storage, videos, storageFiles, videosFolderFiles, video.uuid);
    langs := Langs(FileListSplit(storage.names, video.uuid));
  }
}
