/** VideosService of the original server: its own copy of range-parser,
    parseRange, getVideoStream on a record already looked up, and the two
    catalog queries it hands to the DAL. */
module LegacyVideosService {
  import opened JsText
  import opened RangeSpec
  import NodePath
  import LegacyVideoDal
  import VideoService

  /** rangeParser(size, str), with the loop's `var`s declared up front as
      JavaScript hoists them. */
  method RangeParser(size: nat, str: string) returns (result: RangeResult)
    ensures result == RangeParse(size, str)
  {
    var index := IndexOf(str, "=");
    if index.None? {
      return RangeResult(-2, []);
    }
    var arr := Split(str[index.value + 1..], ",");
    var rangeResult := RangeResult(0, []);
    var ranges := ParseAll(size, arr);
    rangeResult := rangeResult.(ranges := ranges);
    if |rangeResult.ranges| < 1 {
      return RangeResult(-1, []);
    }
    result := rangeResult;
  }

  /** The `for (var i …)` loop: `range`, `start` and `end` live across
      iterations but are reassigned before each use. */
  method ParseAll(size: nat, arr: seq<string>) returns (ranges: seq<Range>)
    ensures ranges == ParsePieces(size, arr)
  {
    ranges := [];
    var range: seq<string> := [];
    var start: Option<int> := None;
    var end: Option<int> := None;
    var i := 0;
    ParsedPrefixEnds(size, arr, ranges);
    while i < |arr|
      invariant 0 <= i <= |arr|
      invariant ParsedPrefix(size, arr, i, ranges)
    {
      range := Split(arr[i], "-");
      start := ParseInt(range[0]);
      end := if |range| > 1 then ParseInt(range[1]) else None;
      // the same clamping as the other copy; an invalid or unsatisfiable
      // piece is skipped (`continue`)
      var kept := VideoService.ResolveEnds(size, start, end);
      ghost var before := ranges;
      if kept.Some? {
        ranges := ranges + [kept.value];
      }
      KeptStep(size, arr, i, before, ranges);
      i := i + 1;
    }
    ParsedPrefixEnds(size, arr, ranges);
  }

  /** parseRange(range, fileSize): the one range, or BadRequest. */
  method ParseRange(range: string, fileSize: nat) returns (r: Result<Range>)
    ensures r == SingleRange(fileSize, range)
  {
    var parseResult := RangeParser(fileSize, range);
    if parseResult.code == -1 || parseResult.code == -2 || |parseResult.ranges| != 1 {
      return Err(BadRequest);
    }
    r := Ok(parseResult.ranges[0]);
  }

  /** getVideoStream(videoInfo, range); a missing Range header is `None` and
      stands for DefaultRange. */
  method GetVideoStream(videoInfo: LegacyVideoDal.VideoFileInfo, videosPath: string, range: Option<string>)
    returns (r: Result<VideoStream>)
    ensures var header := if range.Some? then range.value else DefaultRange;
      (r.Err? <==> StreamBounds(videoInfo.fileSize, header).Err?) &&
      (r.Err? ==> r.error == BadRequest) &&
      (r.Ok? ==> StreamBounds(videoInfo.fileSize, header) == Ok(Bounds(r.value.contentStart, r.value.contentEnd)))
    ensures r.Ok? ==> (r.value.contentStart.Some? <==> r.value.contentEnd.Some?)
    ensures r.Ok? ==> r.value.filePath == NodePath.Join(videosPath, videoInfo.fileName)
    ensures r.Ok? ==> r.value.fileSize == videoInfo.fileSize && r.value.mimeType == videoInfo.mimeType
    ensures r.Ok? ==> r.value.disposition == "inline; filename=\"" + videoInfo.fileName + "\""
  {
    var header := if range.Some? then range.value else DefaultRange;
    var filePath := NodePath.Join(videosPath, videoInfo.fileName);
    var start: Option<int> := None;
    var end: Option<int> := None;
    if header != DefaultRange {
      var obj := ParseRange(header, videoInfo.fileSize);
      if obj.Err? {
        return Err(obj.error);
      }
      start := Some(obj.value.start);
      end := Some(obj.value.end);
    }
    r := Ok(VideoStream(filePath, "inline; filename=\"" + videoInfo.fileName + "\"", start, end, videoInfo.fileSize, videoInfo.mimeType));
  }

  /** The two rangeParser copies return the same result on every input. */
  method CopiesAgree(size: nat, str: string) returns (a: RangeResult, b: RangeResult)
    ensures a == b
    ensures a == RangeParse(size, str)
  {
    a := VideoService.RangeParser(size, str);
    b := RangeParser(size, str);
  }

  /** fileList(): the DAL's list. */
  method FileList(dal: LegacyVideoDal.VideoDal, folder: LegacyVideoDal.VideoFolder, now: int, uuids: seq<string>,
                  subtitlesFor: string -> seq<LegacyVideoDal.SubtitleFile>)
    returns (list: seq<LegacyVideoDal.VideoFileInfo>)
    requires dal.Valid() && folder.Valid() && |uuids| == |LegacyVideoDal.VideoFiles(folder.names)|
    modifies dal, folder
    ensures dal.Valid() && folder.Valid() && list == dal.videos
    ensures LegacyVideoDal.Snapshot(dal.videos, folder.Value()) ==
      LegacyVideoDal.RefreshSpec(old(LegacyVideoDal.Snapshot(dal.videos, folder.Value())), uuids, subtitlesFor)
  {
    list := dal.GetList(folder, now, uuids, subtitlesFor);
  }

  /** getInfo(uuid): the DAL's lookup. */
  method GetInfo(dal: LegacyVideoDal.VideoDal, folder: LegacyVideoDal.VideoFolder, now: int, uuid: string, uuids: seq<string>,
                 subtitlesFor: string -> seq<LegacyVideoDal.SubtitleFile>)
    returns (r: Option<LegacyVideoDal.VideoFileInfo>)
    requires dal.Valid() && folder.Valid() && |uuids| == |LegacyVideoDal.VideoFiles(folder.names)|
    modifies dal, folder
    ensures dal.Valid() && folder.Valid() && r == LegacyVideoDal.FindUuid(dal.videos, uuid)
    ensures LegacyVideoDal.Snapshot(dal.videos, folder.Value()) ==
      LegacyVideoDal.RefreshSpec(old(LegacyVideoDal.Snapshot(dal.videos, folder.Value())), uuids, subtitlesFor)
  {
    r := dal.Info(folder, now, uuid, uuids, subtitlesFor);
  }
}
