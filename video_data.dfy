/** The catalog crawler of apps/server (VideoCrawlerService): the video
    folder's `.mp4`/`.mkv` files become records in the store, a new file gets
    a fresh record and a known one is brought up to date (size, subtitles).
    The rxjs pipeline is flattened into a loop over the file names in
    listing order; the lookups are all taken before the first change, as the
    first `zip` does. */
module VideoData {
  import opened JsText
  import opened NodePath
  import opened FileSystem
  import opened Catalog
  import SubtitleData
  import LegacyVideoDal

  /** The extension filter of refresh: exactly ".mp4" or ".mkv". */
  predicate IsCrawlable(fileName: string) {
    var ext := ExtName(fileName);
    ext == ".mp4" || ext == ".mkv"
  }

  /** The names the crawler processes, in listing order. */
  function CrawlableNames(names: seq<string>): seq<string>
    decreases |names|
  {
    if names == [] then []
    else
      var n := |names| - 1;
      CrawlableNames(names[..n]) + (if IsCrawlable(names[n]) then [names[n]] else [])
  }

  /** ext.slice(1). */
  function Alpha(ext: string): string {
    if |ext| >= 1 then ext[1..] else ""
  }

  /** getMimeType(ext). */
  function MimeType(ext: string): (r: string)
    ensures |r| > 6 || (r == "video/" && Alpha(ext) == "")
    ensures r[..6] == "video/"
  {
    var alpha := Alpha(ext);
    if alpha == "mkv" then "video/webm" else "video/" + alpha
  }

  /** The record newVideo builds: name parts from the file name, the path in
      the videos folder, the stat size and the synchronised languages. */
  function NewRecord(videosPath: string, fileName: string, uuid: string, size: nat, subtitles: seq<string>): Video {
    var baseName := BaseName(fileName, ExtName(fileName));
    Video(uuid, NodePath.Join(videosPath, fileName), baseName, fileName, baseName, "",
          MimeType(ExtName(fileName)), size, [], subtitles)
  }

  /** Every language in `langs` is among `have` (`langs.every(s => have.includes(s))`). */
  predicate AllIncluded(langs: seq<string>, have: seq<string>) {
    forall s :: s in langs ==> s in have
  }

  /** The `dirty` flag of updateVideo for a stat size and found languages. */
  predicate Dirty(v: Video, size: nat, langs: seq<string>) {
    size != v.fileSize || !AllIncluded(langs, v.subtitles)
  }

  /** One round of updateVideo on the record: the size is set, and the
      subtitles are replaced only when a found language is missing. */
  function Updated(v: Video, size: nat, langs: seq<string>): Video {
    v.(fileSize := size, subtitles := if AllIncluded(langs, v.subtitles) then v.subtitles else langs)
  }

  /** The fields updateVideo never touches. */
  predicate SameIdentity(a: Video, b: Video) {
    a.uuid == b.uuid && a.fileName == b.fileName && a.baseName == b.baseName &&
    a.path == b.path && a.mimeType == b.mimeType && a.friendlyName == b.friendlyName &&
    a.description == b.description && a.tags == b.tags
  }

  /** The ids the subtitle cache can tell apart (randomUUID produces these). */
  predicate UuidsShaped(vs: seq<Video>) {
    forall k :: 0 <= k < |vs| ==> SubtitleData.UuidShaped(vs[k].uuid)
  }

  /** The catalog and the storage folder during a refresh. */
  datatype Crawl = Crawl(videos: seq<Video>, storage: Dir)

  /** A subtitle service: from the storage folder, a video's uuid and base
      name, the languages it reports and the storage folder after it. */
  type Sync = (Dir, string, string) -> (seq<string>, Dir)

  /** getVideoSubtitles of SubtitleData as a Sync over the videos folder. */
  function Synced(videos: Dir, d: Dir, uuid: string, baseName: string): (seq<string>, Dir) {
    if WellFormed(d) && WellFormed(videos) then
      (SubtitleData.SubtitleLangs(d, videos, uuid, baseName), SubtitleData.Migrated(d, videos, uuid, baseName))
    else ([], d)
  }

  function SyncOf(videos: Dir): Sync {
    (d: Dir, uuid: string, baseName: string) => Synced(videos, d, uuid, baseName)
  }

  /** One file name of refresh: newVideo when the snapshot lookup found no
      record, otherwise updateVideo on the record found. None is a failed
      stat, which fails the whole refresh (a lookup outside the store, which
      refresh never makes, fails too). */
  function CrawlStep(c: Crawl, videos: Dir, videosPath: string, sync: Sync, fileName: string, found: Option<nat>, uuid: string): (r: Option<Crawl>)
    ensures r.Some? ==> |c.videos| <= |r.value.videos|
    ensures r.Some? && found.Some? ==> found.value < |c.videos|
  {
    match found
    case None =>
      var baseName := BaseName(fileName, ExtName(fileName));
      var synced := sync(c.storage, uuid, baseName);
      (match StatSize(videos, videosPath, NodePath.Join(videosPath, fileName))
       case None => None
       case Some(size) => Some(Crawl(c.videos + [NewRecord(videosPath, fileName, uuid, size, synced.0)], synced.1)))
    case Some(i) =>
      if i >= |c.videos| then None
      else
        var v := c.videos[i];
        var synced := sync(c.storage, v.uuid, v.baseName);
        match StatSize(videos, videosPath, v.path)
        case None => None
        case Some(size) => Some(Crawl(c.videos[i := Updated(v, size, synced.0)], synced.1))
  }

  /** What one file name does to the crawl, given its lookup and its id. */
  type Step = (Crawl, string, Option<nat>, string) -> Option<Crawl>

  /** CrawlStep with the folders and the subtitle service fixed. */
  function StepOf(videos: Dir, videosPath: string, sync: Sync): Step {
    (c: Crawl, fileName: string, found: Option<nat>, uuid: string) => CrawlStep(c, videos, videosPath, sync, fileName, found, uuid)
  }

  /** What a step whose stat fails leaves: the catalog as it was and the
      storage folder after the name's subtitle migration, which runs before
      the stat result is looked at. */
  function Failed(c: Crawl, sync: Sync, fileName: string, found: Option<nat>, uuid: string): Crawl {
    match found
    case None => Crawl(c.videos, sync(c.storage, uuid, BaseName(fileName, ExtName(fileName))).1)
    case Some(i) =>
      if i < |c.videos| then Crawl(c.videos, sync(c.storage, c.videos[i].uuid, c.videos[i].baseName).1) else c
  }

  /** Lookups that point into the store. */
  predicate FoundIn(founds: seq<Option<nat>>, vs: seq<Video>) {
    forall k :: 0 <= k < |founds| && founds[k].Some? ==> founds[k].value < |vs|
  }

  /** refresh over the processed names, their snapshot lookups and the id
      each new record would get. */
  function Crawled(c: Crawl, step: Step, names: seq<string>, founds: seq<Option<nat>>, uuids: seq<string>): Option<Crawl>
    requires |founds| == |names| && |uuids| == |names|
    decreases |names|
  {
    if names == [] then Some(c)
    else
      var n := |names| - 1;
      match Crawled(c, step, names[..n], founds[..n], uuids[..n])
      case None => None
      case Some(c1) => step(c1, names[n], founds[n], uuids[n])
  }

  /** The refresh stopped at the m-th name: the names before it completed
      giving `cm`, the step for it failed, and `c` is what that failure left. */
  predicate StoppedAt(c0: Crawl, step: Step, sync: Sync, names: seq<string>, founds: seq<Option<nat>>, uuids: seq<string>,
                      m: nat, c: Crawl)
    requires |founds| == |names| && |uuids| == |names|
  {
    m < |names| &&
    var cm := Crawled(c0, step, names[..m], founds[..m], uuids[..m]);
    cm.Some? && step(cm.value, names[m], founds[m], uuids[m]).None? &&
    c == Failed(cm.value, sync, names[m], founds[m], uuids[m])
  }

  /** The first zip of refresh: every lookup made on the store as it was. */
  function Lookups(vs: seq<Video>, names: seq<string>): (r: seq<Option<nat>>)
    ensures |r| == |names| && FoundIn(r, vs)
    ensures forall k :: 0 <= k < |names| ==> r[k] == FindByFileName(vs, names[k])
  {
    seq(|names|, k requires 0 <= k < |names| => FindByFileName(vs, names[k]))
  }

  // ---------------------------------------------------------------------
  // Properties of the filter, the MIME type and the new record

  /** The filter keeps exactly the crawlable listed names. */
  lemma {:induction false} CrawlableExact(names: seq<string>, x: string)
    ensures x in CrawlableNames(names) <==> x in names && IsCrawlable(x)
    decreases |names|
  {
    if names != [] {
      var n := |names| - 1;
      CrawlableExact(names[..n], x);
      assert names == names[..n] + [names[n]];
    }
  }

  /** The filter keeps names distinct. */
  lemma {:induction false} CrawlableDistinct(names: seq<string>)
    requires Distinct(names)
    ensures Distinct(CrawlableNames(names))
    decreases |names|
  {
    if names != [] {
      var n := |names| - 1;
      var init := names[..n];
      assert forall k :: 0 <= k < n ==> init[k] == names[k];
      CrawlableDistinct(init);
      CrawlableExact(init, names[n]);
      var c := CrawlableNames(init);
      if IsCrawlable(names[n]) {
        DistinctAppend(c, names[n]);
      } else {
        assert c + [] == c;
      }
    }
  }

  lemma DistinctAppend(a: seq<string>, x: string)
    requires Distinct(a) && x !in a
    ensures Distinct(a + [x])
  {
    var b := a + [x];
    forall i, j | 0 <= i < j < |b| ensures b[i] != b[j] {
      assert b[i] == a[i];
    }
  }

  /** The crawler and the original server's DAL accept the same extensions. */
  lemma CrawlableIsVideoFile(fileName: string)
    ensures IsCrawlable(fileName) <==> LegacyVideoDal.IsVideoFile(fileName)
  {
  }

  /** A crawled file's type is video/mp4 or video/webm, by its extension. */
  lemma MimeTypeOfCrawlable(fileName: string)
    requires IsCrawlable(fileName)
    ensures MimeType(ExtName(fileName)) == if ExtName(fileName) == ".mkv" then "video/webm" else "video/mp4"
  {
    MimeTypeOfVideoExt(ExtName(fileName));
  }

  lemma MimeTypeOfVideoExt(ext: string)
    requires ext == ".mkv" || ext == ".mp4"
    ensures MimeType(ext) == if ext == ".mkv" then "video/webm" else "video/mp4"
  {
    assert Alpha(".mkv") == "mkv";
    assert Alpha(".mp4") == "mp4";
  }

  /** Apart from ".mkv", the subtype gives back the extension it came from. */
  lemma MimeTypeSubtype(ext: string)
    requires |ext| > 0 && ext[0] == '.' && ext != ".mkv"
    ensures "." + MimeType(ext)[6..] == ext
  {
    assert ext == "." + Alpha(ext);
  }

  /** A new record: base and friendly name are the file name without its
      extension, the path stats to the file's size in the videos folder. */
  lemma NewRecordShape(videos: Dir, videosPath: string, fileName: string, uuid: string, subtitles: seq<string>)
    requires '/' !in fileName && fileName in videos.data
    ensures var v := NewRecord(videosPath, fileName, uuid, |videos.data[fileName]|, subtitles);
      v.baseName + ExtName(fileName) == fileName && v.friendlyName == v.baseName &&
      StatSize(videos, videosPath, v.path) == Some(v.fileSize) && v.fileName == fileName &&
      v.uuid == uuid && v.subtitles == subtitles && v.description == "" && v.tags == []
  {
    BaseNamePlusExtName(fileName);
    StatJoin(videos, videosPath, fileName);
  }

  // ---------------------------------------------------------------------
  // Properties of one updateVideo round

  /** After a round the size is the stat size, every found language is
      listed, nothing else changes, and a list that already covers the found
      languages (shrunk or reordered) is left as it was. */
  lemma UpdatedMeets(v: Video, size: nat, langs: seq<string>)
    ensures var u := Updated(v, size, langs);
      u.fileSize == size && AllIncluded(langs, u.subtitles) && SameIdentity(u, v) &&
      (AllIncluded(langs, v.subtitles) ==> u.subtitles == v.subtitles) &&
      (!AllIncluded(langs, v.subtitles) ==> u.subtitles == langs)
  {
  }

  /** `dirty` is set exactly when the round changes the record. */
  lemma DirtyIffChanged(v: Video, size: nat, langs: seq<string>)
    ensures Dirty(v, size, langs) <==> Updated(v, size, langs) != v
  {
    if !AllIncluded(langs, v.subtitles) {
      var s :| s in langs && s !in v.subtitles;
      assert s in Updated(v, size, langs).subtitles;
    }
  }

  /** With the same inputs the second round is clean. */
  lemma UpdatedSettles(v: Video, size: nat, langs: seq<string>)
    ensures !Dirty(Updated(v, size, langs), size, langs)
    ensures Updated(Updated(v, size, langs), size, langs) == Updated(v, size, langs)
  {
  }

  // ---------------------------------------------------------------------
  // Properties of refresh

  /** Once a name fails, the rest of the refresh fails too. */
  lemma {:induction false} CrawledStopped(c: Crawl, step: Step, names: seq<string>, founds: seq<Option<nat>>, uuids: seq<string>, m: nat)
    requires |founds| == |names| && |uuids| == |names|
    requires m <= |names|
    requires Crawled(c, step, names[..m], founds[..m], uuids[..m]).None?
    ensures Crawled(c, step, names, founds, uuids).None?
    decreases |names|
  {
    if m < |names| {
      var n := |names| - 1;
      assert names[..n][..m] == names[..m] && founds[..n][..m] == founds[..m] && uuids[..n][..m] == uuids[..m];
      CrawledStopped(c, step, names[..n], founds[..n], uuids[..n], m);
    } else {
      assert names[..m] == names && founds[..m] == founds && uuids[..m] == uuids;
    }
  }

  /** What one step may do to the catalog `vs`, giving `u`: a new record
      for the name after all others, or the found record updated in place
      with its identity kept; either way the touched record holds the size
      its path stats to. */
  predicate StepFacts(vs: seq<Video>, u: seq<Video>, videos: Dir, videosPath: string, fileName: string, found: Option<nat>, uuid: string) {
    (found.None? ==>
       |u| == |vs| + 1 && u[..|vs|] == vs && u[|vs|].fileName == fileName && u[|vs|].uuid == uuid &&
       StatSize(videos, videosPath, u[|vs|].path) == Some(u[|vs|].fileSize)) &&
    (found.Some? ==>
       found.value < |vs| && |u| == |vs| &&
       (forall k :: 0 <= k < |vs| && k != found.value ==> u[k] == vs[k]) &&
       SameIdentity(u[found.value], vs[found.value]) &&
       StatSize(videos, videosPath, u[found.value].path) == Some(u[found.value].fileSize))
  }

  lemma StepShape(c: Crawl, videos: Dir, videosPath: string, sync: Sync, fileName: string, found: Option<nat>, uuid: string)
    ensures var r := CrawlStep(c, videos, videosPath, sync, fileName, found, uuid);
      r.Some? ==> StepFacts(c.videos, r.value.videos, videos, videosPath, fileName, found, uuid)
  {
  }

  /** A completed refresh is its prefix followed by one step. */
  lemma CrawledLast(c: Crawl, videos: Dir, videosPath: string, sync: Sync, names: seq<string>,
                    founds: seq<Option<nat>>, uuids: seq<string>)
    requires |founds| == |names| && |uuids| == |names| && names != []
    requires Crawled(c, StepOf(videos, videosPath, sync), names, founds, uuids).Some?
    ensures var n := |names| - 1;
      var step := StepOf(videos, videosPath, sync);
      Crawled(c, step, names[..n], founds[..n], uuids[..n]).Some? &&
      StepFacts(Crawled(c, step, names[..n], founds[..n], uuids[..n]).value.videos,
                Crawled(c, step, names, founds, uuids).value.videos,
                videos, videosPath, names[n], founds[n], uuids[n])
  {
    var n := |names| - 1;
    var step := StepOf(videos, videosPath, sync);
    var c1 := Crawled(c, step, names[..n], founds[..n], uuids[..n]).value;
    assert Crawled(c, step, names, founds, uuids) == CrawlStep(c1, videos, videosPath, sync, names[n], founds[n], uuids[n]);
    StepShape(c1, videos, videosPath, sync, names[n], founds[n], uuids[n]);
  }

  /** Records of `vs` keep their place and identity in `u`, and each record
      after them was made for a name whose lookup found nothing, with that
      name's id. */
  predicate KeptFrom(vs: seq<Video>, u: seq<Video>, names: seq<string>, founds: seq<Option<nat>>, uuids: seq<string>)
    requires |founds| == |names| && |uuids| == |names|
  {
    |vs| <= |u| &&
    (forall k :: 0 <= k < |vs| ==> SameIdentity(u[k], vs[k])) &&
    (forall k :: |vs| <= k < |u| ==> MadeFor(u[k], names, founds, uuids))
  }

  /** The record was made for one of the names whose lookup found nothing. */
  predicate MadeFor(v: Video, names: seq<string>, founds: seq<Option<nat>>, uuids: seq<string>)
    requires |founds| == |names| && |uuids| == |names|
  {
    exists j :: 0 <= j < |names| && founds[j].None? && v.fileName == names[j] && v.uuid == uuids[j]
  }

  lemma KeptStep(vs: seq<Video>, c1: seq<Video>, u: seq<Video>, videos: Dir, videosPath: string,
                 names: seq<string>, founds: seq<Option<nat>>, uuids: seq<string>)
    requires |founds| == |names| && |uuids| == |names| && names != []
    requires var n := |names| - 1;
      KeptFrom(vs, c1, names[..n], founds[..n], uuids[..n]) &&
      StepFacts(c1, u, videos, videosPath, names[n], founds[n], uuids[n])
    ensures KeptFrom(vs, u, names, founds, uuids)
  {
    var n := |names| - 1;
    forall k | |vs| <= k < |u| ensures MadeFor(u[k], names, founds, uuids) {
      if k < |c1| {
        assert MadeFor(c1[k], names[..n], founds[..n], uuids[..n]);
        var j :| 0 <= j < n && founds[..n][j].None? && c1[k].fileName == names[..n][j] && c1[k].uuid == uuids[..n][j];
        assert founds[..n][j] == founds[j] && names[..n][j] == names[j] && uuids[..n][j] == uuids[j];
        if founds[n].None? {
          assert u[k] == u[..|c1|][k];
        }
        assert u[k].fileName == names[j] && u[k].uuid == uuids[j];
      } else {
        assert u[k].fileName == names[n] && u[k].uuid == uuids[n];
      }
    }
    forall k | 0 <= k < |vs| ensures SameIdentity(u[k], vs[k]) {
      if founds[n].None? {
        assert u[k] == u[..|c1|][k];
      }
    }
  }

  /** Records already in the store keep their place and identity; each
      record after them was made for a processed name the lookup did not
      find, with that name's id. */
  lemma {:induction false} CrawledKeeps(c: Crawl, videos: Dir, videosPath: string, sync: Sync, names: seq<string>,
                                        founds: seq<Option<nat>>, uuids: seq<string>)
    requires |founds| == |names| && |uuids| == |names|
    ensures var r := Crawled(c, StepOf(videos, videosPath, sync), names, founds, uuids);
      r.Some? ==> KeptFrom(c.videos, r.value.videos, names, founds, uuids)
    decreases |names|
  {
    var r := Crawled(c, StepOf(videos, videosPath, sync), names, founds, uuids);
    if names != [] && r.Some? {
      var n := |names| - 1;
      CrawledLast(c, videos, videosPath, sync, names, founds, uuids);
      CrawledKeeps(c, videos, videosPath, sync, names[..n], founds[..n], uuids[..n]);
      var c1 := Crawled(c, StepOf(videos, videosPath, sync), names[..n], founds[..n], uuids[..n]).value;
      KeptStep(c.videos, c1.videos, r.value.videos, videos, videosPath, names, founds, uuids);
    }
  }

  /** A name other than the last is in the names before it, and a
      distinct sequence's last name is not. */
  lemma InitOfNames(names: seq<string>)
    requires names != []
    ensures forall x :: x in names && x != names[|names| - 1] ==> x in names[..|names| - 1]
    ensures Distinct(names) ==> names[|names| - 1] !in names[..|names| - 1]
  {
    var n := |names| - 1;
    assert names == names[..n] + [names[n]];
  }

  predicate Distinct(names: seq<string>) {
    forall i, j :: 0 <= i < j < |names| ==> names[i] != names[j]
  }

  /** Unique file names, a record for every name, and each record for one
      of the names holding the size its path stats to. */
  predicate SoundFor(u: seq<Video>, videos: Dir, videosPath: string, names: seq<string>) {
    FileNamesUnique(u) &&
    (forall j :: 0 <= j < |names| ==> FindByFileName(u, names[j]).Some?) &&
    (forall k :: 0 <= k < |u| && u[k].fileName in names ==> StatSize(videos, videosPath, u[k].path) == Some(u[k].fileSize))
  }

  lemma SoundStep(vs: seq<Video>, c1: seq<Video>, u: seq<Video>, videos: Dir, videosPath: string,
                  names: seq<string>, founds: seq<Option<nat>>, uuids: seq<string>)
    requires |founds| == |names| && |uuids| == |names| && names != [] && Distinct(names)
    requires forall j :: 0 <= j < |names| ==> founds[j] == FindByFileName(vs, names[j])
    requires var n := |names| - 1;
      KeptFrom(vs, c1, names[..n], founds[..n], uuids[..n]) &&
      SoundFor(c1, videos, videosPath, names[..n]) &&
      StepFacts(c1, u, videos, videosPath, names[n], founds[n], uuids[n])
    ensures SoundFor(u, videos, videosPath, names)
  {
    InitOfNames(names);
    if founds[|names| - 1].None? {
      SoundStepNew(vs, c1, u, videos, videosPath, names, founds, uuids);
    } else {
      SoundStepFound(vs, c1, u, videos, videosPath, names, founds, uuids);
    }
  }

  lemma SoundStepNew(vs: seq<Video>, c1: seq<Video>, u: seq<Video>, videos: Dir, videosPath: string,
                  names: seq<string>, founds: seq<Option<nat>>, uuids: seq<string>)
    requires |founds| == |names| && |uuids| == |names| && names != []
    requires forall j :: 0 <= j < |names| ==> founds[j] == FindByFileName(vs, names[j])
    requires var n := |names| - 1;
      KeptFrom(vs, c1, names[..n], founds[..n], uuids[..n]) &&
      SoundFor(c1, videos, videosPath, names[..n]) &&
      StepFacts(c1, u, videos, videosPath, names[n], founds[n], uuids[n])
    requires founds[|names| - 1].None? && names[|names| - 1] !in names[..|names| - 1]
    ensures SoundFor(u, videos, videosPath, names)
  {
    var n := |names| - 1;
    FreshName(vs, c1, names[..n], founds[..n], uuids[..n], names[n]);
    assert u == c1 + [u[|c1|]];
    assert names == names[..n] + [names[n]];
    SoundAppend(c1, u[|c1|], videos, videosPath, names[..n], names[n]);
  }

  /** A name neither in the store nor among the earlier names has no record. */
  lemma FreshName(vs: seq<Video>, c1: seq<Video>, pre: seq<string>, founds: seq<Option<nat>>, uuids: seq<string>, x: string)
    requires |founds| == |pre| && |uuids| == |pre|
    requires KeptFrom(vs, c1, pre, founds, uuids)
    requires FindByFileName(vs, x).None? && x !in pre
    ensures forall k :: 0 <= k < |c1| ==> c1[k].fileName != x
  {
    forall k | 0 <= k < |c1| ensures c1[k].fileName != x {
      if k >= |vs| {
        assert MadeFor(c1[k], pre, founds, uuids);
      }
    }
  }

  lemma SoundAppend(c1: seq<Video>, v: Video, videos: Dir, videosPath: string, pre: seq<string>, x: string)
    requires SoundFor(c1, videos, videosPath, pre)
    requires forall k :: 0 <= k < |c1| ==> c1[k].fileName != x
    requires v.fileName == x && StatSize(videos, videosPath, v.path) == Some(v.fileSize)
    ensures SoundFor(c1 + [v], videos, videosPath, pre + [x])
  {
    var u := c1 + [v];
    forall j | 0 <= j < |pre| + 1 ensures FindByFileName(u, (pre + [x])[j]).Some? {
      if j < |pre| {
        var k := FindByFileName(c1, pre[j]).value;
        assert u[k] == c1[k];
      } else {
        assert u[|c1|].fileName == x;
      }
    }
    forall k | 0 <= k < |u| && u[k].fileName in pre + [x]
      ensures StatSize(videos, videosPath, u[k].path) == Some(u[k].fileSize)
    {
      if k < |c1| {
        assert u[k] == c1[k];
      }
    }
  }

  lemma SoundStepFound(vs: seq<Video>, c1: seq<Video>, u: seq<Video>, videos: Dir, videosPath: string,
                  names: seq<string>, founds: seq<Option<nat>>, uuids: seq<string>)
    requires |founds| == |names| && |uuids| == |names| && names != []
    requires forall j :: 0 <= j < |names| ==> founds[j] == FindByFileName(vs, names[j])
    requires var n := |names| - 1;
      KeptFrom(vs, c1, names[..n], founds[..n], uuids[..n]) &&
      SoundFor(c1, videos, videosPath, names[..n]) &&
      StepFacts(c1, u, videos, videosPath, names[n], founds[n], uuids[n])
    requires founds[|names| - 1].Some?
    ensures SoundFor(u, videos, videosPath, names)
  {
    var n := |names| - 1;
    var i := founds[n].value;
    assert c1[i].fileName == names[n];
    assert u == c1[i := u[i]];
    assert names == names[..n] + [names[n]];
    SoundUpdate(c1, i, u[i], videos, videosPath, names[..n], names[n]);
  }

  lemma SoundUpdate(c1: seq<Video>, i: nat, v: Video, videos: Dir, videosPath: string, pre: seq<string>, x: string)
    requires SoundFor(c1, videos, videosPath, pre) && i < |c1|
    requires c1[i].fileName == x && v.fileName == x && StatSize(videos, videosPath, v.path) == Some(v.fileSize)
    ensures SoundFor(c1[i := v], videos, videosPath, pre + [x])
  {
    var u := c1[i := v];
    forall j | 0 <= j < |pre| + 1 ensures FindByFileName(u, (pre + [x])[j]).Some? {
      if j < |pre| {
        var k := FindByFileName(c1, pre[j]).value;
        assert u[k].fileName == c1[k].fileName;
      } else {
        assert u[i].fileName == x;
      }
    }
  }

  /** A prefix of distinct names with their lookups is one too. */
  lemma LookupsPrefix(vs: seq<Video>, names: seq<string>, founds: seq<Option<nat>>, n: nat)
    requires |founds| == |names| && n <= |names| && Distinct(names)
    requires forall j :: 0 <= j < |names| ==> founds[j] == FindByFileName(vs, names[j])
    ensures Distinct(names[..n])
    ensures forall j :: 0 <= j < n ==> founds[..n][j] == FindByFileName(vs, names[..n][j])
  {
    assert forall j :: 0 <= j < n ==> names[..n][j] == names[j] && founds[..n][j] == founds[j];
  }

  /** With unique file names in the store, distinct processed names and the
      snapshot lookups, a completed refresh leaves file names unique, a
      record for every processed name, and each such record holding the
      size its path stats to. */
  lemma {:induction false} CrawledSound(c: Crawl, videos: Dir, videosPath: string, sync: Sync, names: seq<string>,
                                        founds: seq<Option<nat>>, uuids: seq<string>)
    requires |founds| == |names| && |uuids| == |names|
    requires FileNamesUnique(c.videos) && Distinct(names)
    requires forall j :: 0 <= j < |names| ==> founds[j] == FindByFileName(c.videos, names[j])
    ensures var r := Crawled(c, StepOf(videos, videosPath, sync), names, founds, uuids);
      r.Some? ==> SoundFor(r.value.videos, videos, videosPath, names)
    decreases |names|
  {
    var r := Crawled(c, StepOf(videos, videosPath, sync), names, founds, uuids);
    if names != [] && r.Some? {
      var n := |names| - 1;
      CrawledLast(c, videos, videosPath, sync, names, founds, uuids);
      LookupsPrefix(c.videos, names, founds, n);
      CrawledSound(c, videos, videosPath, sync, names[..n], founds[..n], uuids[..n]);
      CrawledKeeps(c, videos, videosPath, sync, names[..n], founds[..n], uuids[..n]);
      var c1 := Crawled(c, StepOf(videos, videosPath, sync), names[..n], founds[..n], uuids[..n]).value;
      SoundStep(c.videos, c1.videos, r.value.videos, videos, videosPath, names, founds, uuids);
    }
  }

  // ---------------------------------------------------------------------
  // The operations

  /** newVideo(fileName): the record is built with size 0 and no subtitles,
      getVideoSubtitles runs on it, and once the stat is in the record gets
      the size and the languages and is inserted; a failed stat inserts
      nothing (the subtitle migration has run by then). */
  method NewVideo(store: VideoStore, storage: Directory, videos: Dir, videosPath: string, fileName: string, uuid: string)
    returns (r: Option<Video>)
    requires storage.Valid() && WellFormed(videos)
    modifies store, storage
    ensures storage.Valid()
    ensures var baseName := BaseName(fileName, ExtName(fileName));
      storage.Value() == SubtitleData.Migrated(old(storage.Value()), videos, uuid, baseName) &&
      (r.None? <==> StatSize(videos, videosPath, NodePath.Join(videosPath, fileName)).None?) &&
      (r.None? ==> store.videos == old(store.videos)) &&
      (r.Some? ==>
         r.value == NewRecord(videosPath, fileName, uuid, StatSize(videos, videosPath, NodePath.Join(videosPath, fileName)).value,
                              SubtitleData.SubtitleLangs(old(storage.Value()), videos, uuid, baseName)) &&
         store.videos == old(store.videos) + [r.value])
  {
    var path := NodePath.Join(videosPath, fileName);
    var baseName := BaseName(fileName, ExtName(fileName));
    var stats := StatSize(videos, videosPath, path);
    var mimeType := MimeType(ExtName(fileName));
    var video := Video(uuid, path, baseName, fileName, baseName, "", mimeType, 0, [], []);
    var subtitles := SubtitleData.GetVideoSubtitles(storage, videos, video);
    if stats.None? {
      return None;
    }
    video := video.(fileSize := stats.value, subtitles := subtitles);
    store.Insert(video);
    r := Some(video);
  }

  lemma UpdateSame<T>(s: seq<T>, i: nat)
    requires i < |s|
    ensures s[i := s[i]] == s
  {
  }

  lemma UpdateOver<T>(s: seq<T>, i: nat, a: T, b: T)
    requires i < |s|
    ensures s[i := a][i := b] == s[i := b]
  {
  }

  /** Another updateVideo round on `v` would change nothing. */
  ghost predicate Settled(d: Dir, videos: Dir, videosPath: string, v: Video)
    requires WellFormed(d) && WellFormed(videos)
  {
    match StatSize(videos, videosPath, v.path)
    case None => true
    case Some(size) => !Dirty(v, size, SubtitleData.SubtitleLangs(d, videos, v.uuid, v.baseName))
  }

  /** updateVideo(existing) on the record at `i`: size and subtitles are
      updated in place under the `dirty` flag, and a dirty round is followed
      by another, which the migration having settled makes clean. */
  method UpdateVideo(store: VideoStore, storage: Directory, videos: Dir, videosPath: string, i: nat)
    returns (r: Option<Video>)
    requires storage.Valid() && WellFormed(videos) && i < |store.videos|
    requires SubtitleData.UuidShaped(store.videos[i].uuid)
    modifies store, storage
    ensures storage.Valid()
    ensures var v := old(store.videos[i]);
      storage.Value() == SubtitleData.Migrated(old(storage.Value()), videos, v.uuid, v.baseName) &&
      (r.None? <==> StatSize(videos, videosPath, v.path).None?) &&
      (r.None? ==> store.videos == old(store.videos)) &&
      (r.Some? ==>
         r.value == Updated(v, StatSize(videos, videosPath, v.path).value,
                            SubtitleData.SubtitleLangs(old(storage.Value()), videos, v.uuid, v.baseName)) &&
         store.videos == old(store.videos)[i := r.value])
    decreases if Settled(storage.Value(), videos, videosPath, store.videos[i]) then 0 else 1
  {
    var existing := store.videos[i];
    ghost var d := storage.Value();
    var stats := StatSize(videos, videosPath, existing.path);
    var subtitles := SubtitleData.GetVideoSubtitles(storage, videos, existing);
    if stats.None? {
      return None;
    }
    ghost var v := existing;
    ghost var before := store.videos;
    UpdateSame(before, i);
    var dirty := false;
    if stats.value != existing.fileSize {
      existing := existing.(fileSize := stats.value);
      store.Replace(i, existing);
      dirty := true;
    }
    assert store.videos == before[i := existing];
    if !AllIncluded(subtitles, existing.subtitles) {
      ghost var e1 := existing;
      existing := existing.(subtitles := subtitles);
      store.Replace(i, existing);
      dirty := true;
      UpdateOver(before, i, e1, existing);
    }
    assert store.videos == before[i := existing];
    assert existing == Updated(v, stats.value, subtitles);
    if dirty {
      SubtitleData.MigrationSettles(d, videos, v.uuid, v.baseName);
      UpdatedSettles(v, stats.value, subtitles);
      assert Settled(storage.Value(), videos, videosPath, store.videos[i]);
      r := UpdateVideo(store, storage, videos, videosPath, i);
      if r.Some? {
        assert r.value == existing;
        UpdateOver(before, i, existing, existing);
      }
    } else {
      DirtyIffChanged(v, stats.value, subtitles);
      r := Some(existing);
    }
  }

  /** The second zip of refresh for one name: newVideo when its lookup
      found nothing, updateVideo on the record found otherwise. */
  method AddOrUpdate(store: VideoStore, storage: Directory, videos: Dir, videosPath: string,
                     fileName: string, found: Option<nat>, uuid: string)
    returns (ok: bool)
    requires storage.Valid() && WellFormed(videos) && UuidsShaped(store.videos) && SubtitleData.UuidShaped(uuid)
    requires found.Some? ==> found.value < |store.videos|
    modifies store, storage
    ensures storage.Valid() && UuidsShaped(store.videos)
    ensures var r := CrawlStep(old(Crawl(store.videos, storage.Value())), videos, videosPath, SyncOf(videos), fileName, found, uuid);
      (ok <==> r.Some?) && (ok ==> r.value == Crawl(store.videos, storage.Value()))
    ensures !ok ==> Crawl(store.videos, storage.Value()) == Failed(old(Crawl(store.videos, storage.Value())), SyncOf(videos), fileName, found, uuid)
  {
    ghost var c := Crawl(store.videos, storage.Value());
    match found
    case None =>
      StepKeepsUuids(c, videos, videosPath, SyncOf(videos), fileName, found, uuid);
      NewStep(c, videos, videosPath, SyncOf(videos), fileName, uuid);
      SyncOfMigrates(videos, c.storage, uuid, BaseName(fileName, ExtName(fileName)));
      var v := NewVideo(store, storage, videos, videosPath, fileName, uuid);
      ok := v.Some?;
      assert ok ==> CrawlStep(c, videos, videosPath, SyncOf(videos), fileName, None, uuid) == Some(Crawl(store.videos, storage.Value()));
    case Some(i) =>
      StepKeepsUuids(c, videos, videosPath, SyncOf(videos), fileName, found, uuid);
      UpdateStep(c, videos, videosPath, SyncOf(videos), fileName, i, uuid);
      SyncOfMigrates(videos, c.storage, c.videos[i].uuid, c.videos[i].baseName);
      var v := UpdateVideo(store, storage, videos, videosPath, i);
      ok := v.Some?;
      assert ok ==> CrawlStep(c, videos, videosPath, SyncOf(videos), fileName, Some(i), uuid) == Some(Crawl(store.videos, storage.Value()));
  }

  /** A step gives the new record the id handed to it and keeps every other
      id. */
  lemma StepKeepsUuids(c: Crawl, videos: Dir, videosPath: string, sync: Sync, fileName: string, found: Option<nat>, uuid: string)
    requires UuidsShaped(c.videos) && SubtitleData.UuidShaped(uuid)
    ensures var r := CrawlStep(c, videos, videosPath, sync, fileName, found, uuid);
      r.Some? ==> UuidsShaped(r.value.videos)
  {
    StepShape(c, videos, videosPath, sync, fileName, found, uuid);
    var r := CrawlStep(c, videos, videosPath, sync, fileName, found, uuid);
    if r.Some? {
      var u := r.value.videos;
      forall k | 0 <= k < |u| ensures SubtitleData.UuidShaped(u[k].uuid) {
        if found.None? && k < |c.videos| {
          assert u[k] == u[..|c.videos|][k];
        }
      }
    }
  }

  /** The step for a name the lookup did not find. */
  lemma NewStep(c: Crawl, videos: Dir, videosPath: string, sync: Sync, fileName: string, uuid: string)
    ensures var synced := sync(c.storage, uuid, BaseName(fileName, ExtName(fileName)));
      var r := CrawlStep(c, videos, videosPath, sync, fileName, None, uuid);
      match StatSize(videos, videosPath, NodePath.Join(videosPath, fileName))
      case None => r.None?
      case Some(size) => r == Some(Crawl(c.videos + [NewRecord(videosPath, fileName, uuid, size, synced.0)], synced.1))
  {
  }

  /** The step for a name found at `i`. */
  lemma UpdateStep(c: Crawl, videos: Dir, videosPath: string, sync: Sync, fileName: string, i: nat, uuid: string)
    requires i < |c.videos|
    ensures var v := c.videos[i];
      var synced := sync(c.storage, v.uuid, v.baseName);
      var r := CrawlStep(c, videos, videosPath, sync, fileName, Some(i), uuid);
      match StatSize(videos, videosPath, v.path)
      case None => r.None?
      case Some(size) => r == Some(Crawl(c.videos[i := Updated(v, size, synced.0)], synced.1))
  {
  }

  /** getVideoSubtitles as the subtitle service. */
  lemma SyncOfMigrates(videos: Dir, d: Dir, uuid: string, baseName: string)
    requires WellFormed(d) && WellFormed(videos)
    ensures SyncOf(videos)(d, uuid, baseName) ==
      (SubtitleData.SubtitleLangs(d, videos, uuid, baseName), SubtitleData.Migrated(d, videos, uuid, baseName))
  {
  }

  /** A refresh over one more name is the refresh so far and one step. */
  lemma CrawledNext(c: Crawl, step: Step, names: seq<string>, founds: seq<Option<nat>>, uuids: seq<string>, k: nat)
    requires |founds| == |names| && |uuids| == |names| && k < |names|
    ensures var r := Crawled(c, step, names[..k], founds[..k], uuids[..k]);
      r.Some? ==>
        Crawled(c, step, names[..k + 1], founds[..k + 1], uuids[..k + 1]) == step(r.value, names[k], founds[k], uuids[k])
  {
    assert names[..k + 1][..k] == names[..k] && founds[..k + 1][..k] == founds[..k] && uuids[..k + 1][..k] == uuids[..k];
  }

  /** refresh(): the crawlable names of the listing, every lookup taken on
      the store as it was, then newVideo or updateVideo per name in order;
      the first failed stat fails the refresh (the following names are not
      processed). `uuids[k]` is the id randomUUID gives the k-th name if it
      is new. */
  method Refresh(store: VideoStore, storage: Directory, videos: Dir, videosPath: string, uuids: seq<string>)
    returns (ok: bool)
    requires storage.Valid() && WellFormed(videos)
    requires |uuids| == |CrawlableNames(videos.names)|
    requires UuidsShaped(store.videos) && forall k :: 0 <= k < |uuids| ==> SubtitleData.UuidShaped(uuids[k])
    modifies store, storage
    ensures storage.Valid() && UuidsShaped(store.videos)
    ensures var names := CrawlableNames(videos.names);
      var r := Crawled(Crawl(old(store.videos), old(storage.Value())), StepOf(videos, videosPath, SyncOf(videos)),
                       names, Lookups(old(store.videos), names), uuids);
      (ok <==> r.Some?) && (ok ==> r.value == Crawl(store.videos, storage.Value()))
    ensures var names := CrawlableNames(videos.names);
      !ok ==> exists m :: StoppedAt(Crawl(old(store.videos), old(storage.Value())), StepOf(videos, videosPath, SyncOf(videos)),
                                    SyncOf(videos), names, Lookups(old(store.videos), names), uuids, m, Crawl(store.videos, storage.Value()))
  {
    var videoFileNames := videos.names;
    var fileNames := CrawlableNames(videoFileNames);
    var results := Lookups(store.videos, fileNames);
    ghost var c0 := Crawl(store.videos, storage.Value());
    ghost var step := StepOf(videos, videosPath, SyncOf(videos));
    var k := 0;
    while k < |fileNames|
      invariant 0 <= k <= |fileNames| && storage.Valid() && UuidsShaped(store.videos)
      invariant |c0.videos| <= |store.videos|
      invariant Crawled(c0, step, fileNames[..k], results[..k], uuids[..k]) == Some(Crawl(store.videos, storage.Value()))
    {
      CrawledNext(c0, step, fileNames, results, uuids, k);
      ghost var ck := Crawl(store.videos, storage.Value());
      var done := AddOrUpdate(store, storage, videos, videosPath, fileNames[k], results[k], uuids[k]);
      if !done {
        CrawledStopped(c0, step, fileNames, results, uuids, k + 1);
        assert StoppedAt(c0, step, SyncOf(videos), fileNames, results, uuids, k, Crawl(store.videos, storage.Value()));
        return false;
      }
      k := k + 1;
    }
    assert fileNames[..k] == fileNames && results[..k] == results && uuids[..k] == uuids;
    ok := true;
  }

  /** After a completed refresh of a store with unique file names: names
      stay unique, every crawlable listed file has a record holding its
      current size, the records that were there keep their place and
      identity, and each added record is for a listed file that had none,
      with the id given for it. */
  lemma RefreshSound(vs: seq<Video>, d: Dir, videos: Dir, videosPath: string, uuids: seq<string>)
    requires WellFormed(videos) && FileNamesUnique(vs)
    requires |uuids| == |CrawlableNames(videos.names)|
    ensures var names := CrawlableNames(videos.names);
      var r := Crawled(Crawl(vs, d), StepOf(videos, videosPath, SyncOf(videos)), names, Lookups(vs, names), uuids);
      r.Some? ==>
        SoundFor(r.value.videos, videos, videosPath, names) &&
        KeptFrom(vs, r.value.videos, names, Lookups(vs, names), uuids)
  {
    var names := CrawlableNames(videos.names);
    CrawlableDistinct(videos.names);
    CrawledSound(Crawl(vs, d), videos, videosPath, SyncOf(videos), names, Lookups(vs, names), uuids);
    CrawledKeeps(Crawl(vs, d), videos, videosPath, SyncOf(videos), names, Lookups(vs, names), uuids);
  }

  /** The subtitle migration of a name does not depend on its stat: a step
      that completes leaves the storage folder a failed one would. */
  lemma MigrationBeforeStat(c: Crawl, videos: Dir, videosPath: string, sync: Sync, fileName: string, found: Option<nat>, uuid: string)
    ensures var r := CrawlStep(c, videos, videosPath, sync, fileName, found, uuid);
      r.Some? ==> r.value.storage == Failed(c, sync, fileName, found, uuid).storage
    ensures Failed(c, sync, fileName, found, uuid).videos == c.videos
  {
  }

  /** A refresh that stops at a name fails as a whole. */
  lemma StoppedFails(c0: Crawl, step: Step, sync: Sync, names: seq<string>, founds: seq<Option<nat>>, uuids: seq<string>,
                     m: nat, c: Crawl)
    requires |founds| == |names| && |uuids| == |names|
    requires StoppedAt(c0, step, sync, names, founds, uuids, m, c)
    ensures Crawled(c0, step, names, founds, uuids).None?
  {
    CrawledNext(c0, step, names, founds, uuids, m);
    CrawledStopped(c0, step, names, founds, uuids, m + 1);
  }

  /** After a refresh that stops at the m-th name: the records that were
      there keep their place and identity, and each added record is for a
      name before it whose lookup found nothing, with that name's id. */
  lemma RefreshStopped(vs: seq<Video>, d: Dir, videos: Dir, videosPath: string, uuids: seq<string>, m: nat, c: Crawl)
    requires |uuids| == |CrawlableNames(videos.names)|
    requires var names := CrawlableNames(videos.names);
      StoppedAt(Crawl(vs, d), StepOf(videos, videosPath, SyncOf(videos)), SyncOf(videos), names, Lookups(vs, names), uuids, m, c)
    ensures var names := CrawlableNames(videos.names);
      m < |names| && KeptFrom(vs, c.videos, names[..m], Lookups(vs, names)[..m], uuids[..m])
  {
    var names := CrawlableNames(videos.names);
    var founds := Lookups(vs, names);
    CrawledKeeps(Crawl(vs, d), videos, videosPath, SyncOf(videos), names[..m], founds[..m], uuids[..m]);
    var cm := Crawled(Crawl(vs, d), StepOf(videos, videosPath, SyncOf(videos)), names[..m], founds[..m], uuids[..m]).value;
    MigrationBeforeStat(cm, videos, videosPath, SyncOf(videos), names[m], founds[m], uuids[m]);
  }

  /** No two records share an id. */
  predicate UuidsDistinct(vs: seq<Video>) {
    forall i, j :: 0 <= i < j < |vs| ==> vs[i].uuid != vs[j].uuid
  }

  /** With ids for the new records that differ from each other and from
      every id in the store, a completed refresh keeps ids distinct. */
  lemma RefreshUuidsDistinct(vs: seq<Video>, d: Dir, videos: Dir, videosPath: string, uuids: seq<string>)
    requires WellFormed(videos) && FileNamesUnique(vs) && UuidsDistinct(vs)
    requires |uuids| == |CrawlableNames(videos.names)|
    requires Distinct(uuids) && forall k :: 0 <= k < |uuids| ==> FindByUuid(vs, uuids[k]).None?
    ensures var names := CrawlableNames(videos.names);
      var r := Crawled(Crawl(vs, d), StepOf(videos, videosPath, SyncOf(videos)), names, Lookups(vs, names), uuids);
      r.Some? ==> UuidsDistinct(r.value.videos)
  {
    var names := CrawlableNames(videos.names);
    var founds := Lookups(vs, names);
    var r := Crawled(Crawl(vs, d), StepOf(videos, videosPath, SyncOf(videos)), names, founds, uuids);
    RefreshSound(vs, d, videos, videosPath, uuids);
    if r.Some? {
      var u := r.value.videos;
      forall i, j | 0 <= i < j < |u| ensures u[i].uuid != u[j].uuid {
        if j < |vs| {
          assert SameIdentity(u[i], vs[i]) && SameIdentity(u[j], vs[j]);
        } else {
          assert MadeFor(u[j], names, founds, uuids);
          var jj :| 0 <= jj < |names| && founds[jj].None? && u[j].fileName == names[jj] && u[j].uuid == uuids[jj];
          if i < |vs| {
            assert SameIdentity(u[i], vs[i]);
            assert FindByUuid(vs, uuids[jj]).None?;
          } else {
            assert MadeFor(u[i], names, founds, uuids);
            var ii :| 0 <= ii < |names| && founds[ii].None? && u[i].fileName == names[ii] && u[i].uuid == uuids[ii];
            assert u[i].fileName != u[j].fileName;
            assert ii != jj;
          }
        }
      }
    }
  }
}
