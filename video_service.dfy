/** VideosService of apps/server: the copy of range-parser (a loop over the
    comma-separated pieces), parseRange, and getVideoStream's decision of
    which record and which bytes to stream. */
module VideoService {
  import opened JsText
  import opened RangeSpec
  import NodePath
  import Catalog

  /** rangeParser(size, str): code -2 without '=', otherwise the pieces
      after the first '=' resolved by the loop, code -1 when none survives. */
  method RangeParser(size: nat, str: string) returns (result: RangeResult)
    ensures result == RangeParse(size, str)
  {
    var index := IndexOf(str, "=");
    if index.None? {
      return RangeResult(-2, []);
    }
    var arr := Split(str[index.value + 1..], ",");
    var ranges := ParseAll(size, arr);
    if |ranges| < 1 {
      return RangeResult(-1, []);
    }
    result := RangeResult(0, ranges);
  }

  /** rangeParser's loop over the comma-separated pieces: each is split at
      '-' and both ends are read with parseInt; a piece whose range is
      invalid or unsatisfiable is skipped (`continue`), any other pushed. */
  method ParseAll(size: nat, arr: seq<string>) returns (ranges: seq<Range>)
    ensures ranges == ParsePieces(size, arr)
  {
    ranges := [];
    var i := 0;
    ParsedPrefixEnds(size, arr, ranges);
    while i < |arr|
      invariant 0 <= i <= |arr|
      invariant ParsedPrefix(size, arr, i, ranges)
    {
      var range := Split(arr[i], "-");
      var start := ParseInt(range[0]);
      var end := if |range| > 1 then ParseInt(range[1]) else None;
      var kept := ResolveEnds(size, start, end);
      ghost var before := ranges;
      if kept.Some? {
        ranges := ranges + [kept.value];
      }
      KeptStep(size, arr, i, before, ranges);
      i := i + 1;
    }
    ParsedPrefixEnds(size, arr, ranges);
  }

  /** The middle of rangeParser's loop body: a missing start makes the piece
      a suffix of `end` bytes, a missing end runs to the last byte, the end is
      clamped to the file, and the range survives unless it is invalid or
      unsatisfiable. */
  method ResolveEnds(size: nat, start0: Option<int>, end0: Option<int>) returns (kept: Option<Range>)
    ensures kept == Resolve(size, start0, end0)
  {
    var start, end := start0, end0;
    if start.None? {
      start := Minus(size, end);
      end := Some(size - 1);
    } else if end.None? {
      end := Some(size - 1);
    }
    if end.Some? && end.value > size - 1 {
      end := Some(size - 1);
    }
    if start.None? || end.None? || start.value > end.value || start.value < 0 {
      return None;
    }
    kept := Some(Range(start.value, end.value));
  }

  /** parseRange(range, fileSize): the one range, or BadRequest. */
  method ParseRange(range: string, fileSize: nat) returns (r: Result<Range>)
    ensures r == SingleRange(fileSize, range)
  {
    var parseResult := RangeParser(fileSize, range);
    if parseResult.code == -1 || parseResult.code == -2 || |parseResult.ranges| != 1 {
      return Err(BadRequest);
    }
    r := Ok(parseResult.ranges[0]);
  }

  /** getVideoStream(videoUUID, range) on the catalog `store`; a missing
      Range header is `None` and stands for DefaultRange. */
  method GetVideoStream(store: seq<Catalog.Video>, videosPath: string, videoUuid: string, range: Option<string>)
    returns (r: Result<VideoStream>)
    ensures r.Err? && r.error == NotFound <==> Catalog.FindByUuid(store, videoUuid).None?
    ensures r.Ok? ==> Catalog.FindByUuid(store, videoUuid).Some?
    ensures r.Ok? ==>
      var video := store[Catalog.FindByUuid(store, videoUuid).value];
      var header := if range.Some? then range.value else DefaultRange;
      StreamBounds(video.fileSize, header) == Ok(Bounds(r.value.contentStart, r.value.contentEnd)) &&
      r.value.filePath == NodePath.Join(videosPath, video.fileName) &&
      r.value.fileSize == video.fileSize && r.value.mimeType == video.mimeType
    ensures Catalog.FindByUuid(store, videoUuid).Some? ==>
      var video := store[Catalog.FindByUuid(store, videoUuid).value];
      var header := if range.Some? then range.value else DefaultRange;
      (r.Err? <==> StreamBounds(video.fileSize, header).Err?) &&
      (r.Err? ==> r.error == BadRequest)
  {
    var header := if range.Some? then range.value else DefaultRange;
    var found := Catalog.FindByUuid(store, videoUuid);
    if found.None? {
      return Err(NotFound);
    }
    var video := store[found.value];
    var filePath := NodePath.Join(videosPath, video.fileName);
    var start: Option<int> := None;
    var end: Option<int> := None;
    if header != DefaultRange {
      var obj := ParseRange(header, video.fileSize);
      if obj.Err? {
        return Err(obj.error);
      }
      start := Some(obj.value.start);
      end := Some(obj.value.end);
    }
    r := Ok(VideoStream(filePath, "inline; filename=\"" + video.fileName + "\"", start, end, video.fileSize, video.mimeType));
  }

  /** A stream is whole-file exactly for the default header, and otherwise
      covers bytes inside the file. */
  lemma StreamBoundsInFile(video: Catalog.Video, header: string)
    ensures var b := StreamBounds(video.fileSize, header);
      b.Ok? && b.value.start.None? <==> header == DefaultRange
    ensures var b := StreamBounds(video.fileSize, header);
      b.Ok? && b.value.start.Some? ==> 0 <= b.value.start.value <= b.value.end.value < video.fileSize
  {
  }
}
