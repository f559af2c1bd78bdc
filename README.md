# ripcord media server — a verified model of its core

ripcord is a small self-hosted video server written in TypeScript. It has two
generations of back end: `apps/server`, current, and `server`, the original. This
project models the logic both carry, in Dafny, and proves properties of it.

- **Byte-range resolution.** Both generations copy jshttp/range-parser as
  `rangeParser`. It turns a `Range: bytes=…` header (section 2.1 of RFC 7233)
  into a list of ranges clamped to the file. `parseRange` accepts only a header
  that leaves exactly one range. `getVideoStream` skips parsing for the default
  header `bytes=0-`. The current `getVideoStream` also answers NotFound for an
  unknown id.
  - Each copy of the loop is an imperative method.
  - Both methods are proved equal to one specification function,
    `RangeSpec.RangeParse`.
  - JavaScript's `parseInt` is modelled with NaN as `None`.
- **Content-Range.** `getContentRange` writes the `Content-Range` value of
  section 4.2 of RFC 7233. The model proves it round-trips and is injective.
- **SRT to WebVTT.** The converter `toVTT` has two copies. Each is an
  accumulating loop proved equal to the function `Vtt.Vtt`. Its shape is then
  proved: the header, the length, the cue-line rewrite and the trailing CRLF.
- **Subtitle cache.** `getVideoSubtitles` and the functions it calls
  reconcile a video's subtitle files.
  - It splits file names with Node's `extname`/`basename` rules.
  - It copies `.vtt` files and converts `.srt` files into the storage
    folder as `{uuid}.{lang}.vtt`. A language already cached is skipped.
  - It then reports the cached languages.
  - The storage folder is a `Directory` object whose methods change it.
  - Each service method is proved against a function over directory values.
- **Catalog crawler.** `VideoCrawlerService.refresh` and its helpers
  maintain the catalog.
  - The catalog is a `VideoStore` object.
  - `refresh` filters the listing to `.mp4`/`.mkv`. For each name it looks up
    a record, then creates one (`newVideo`) or updates the one found
    (`updateVideo`, with its `dirty` re-run).
  - The loop is proved against the fold `VideoData.Crawled`.
  - `RefreshSound` proves the fold keeps file names unique and gives every
    crawled file a record with its current size. Existing records keep their
    place and identity; new ones get the id given to them.
  - A failed refresh is proved to have stopped at one name. The catalog and
    storage are then what that name's failure left (`StoppedAt`).
  - `RefreshUuidsDistinct` proves ids stay distinct when the ids handed out
    are new to the catalog and to each other.
- **Legacy in-memory catalog.** `VideoDAL` is a class whose `videos` array
  only grows. When calls do not interleave, it is deduplicated by file name.
  - `refresh` loads persisted `.json` records before it builds new ones.
  - The methods are proved against the function `RefreshSpec`.
  - It is proved that a persisted record is kept, that every video file
    ends up covered, and that `refreshNeeded` is always true.

Supporting modules:

- `JsText`: string built-ins (`indexOf`, `split`, `join`, `parseInt`, number to string).
- `NodePath`: `path.extname`, `path.basename`, `path.join`.
- `FileSystem`: a directory as a value, plus a mutable `Directory` object.
- `Catalog`: the LokiJS collection, as an ordered sequence of records.

## Model

| member | source | states |
|---|---|---|
| RangeSpec.RangeParse | apps/server/src/video/video.service.ts:99-152 | The result code is -2, -1 or 0. The code is 0 exactly when at least one range survives. Every range lies inside the file: 0 <= start <= end <= size-1. |
| RangeSpec.Resolve | apps/server/src/video/video.service.ts:120-137 | The clamping rules of one piece. A kept range always lies inside the file. |
| RangeSpec.PieceRange | apps/server/src/video/video.service.ts:116-137 | One comma-separated piece, split at '-' and parsed, gives at most one in-file range. |
| RangeSpec.PieceRangeOfParts | apps/server/src/video/video.service.ts:116-118 | A piece that splits into two parts resolves the parseInt of both parts. |
| RangeSpec.PieceRangeOfWhole | apps/server/src/video/video.service.ts:116-118 | A piece without '-' has an undefined `range[1]`, so its end is NaN. |
| RangeSpec.ParsePieces | apps/server/src/video/video.service.ts:115-144 | Pieces are taken left to right and unsatisfiable ones are dropped. There are never more ranges than pieces, and all lie in the file. |
| RangeSpec.ParsePiecesLast | apps/server/src/video/video.service.ts:115-144 | The ranges of a piece list are those of its prefix, followed by what the last piece keeps. |
| RangeSpec.ParsePiecesStep | apps/server/src/video/video.service.ts:140-143 | One loop iteration appends what the i-th piece keeps (the loop invariant's step). |
| RangeSpec.Kept | apps/server/src/video/video.service.ts:135-143 | What one piece adds to the result: its range when it is in the file and not inverted, nothing when it is skipped by `continue`. |
| RangeSpec.KeptStep | apps/server/src/video/video.service.ts:115-144 | The loop invariant "ranges are the parse of the first i pieces" is preserved by one iteration. |
| RangeSpec.ParsedPrefixEnds | apps/server/src/video/video.service.ts:112-146 | The invariant holds before the loop; at the end it gives the parse of all pieces. |
| RangeSpec.SingleRange | apps/server/src/video/video.service.ts:76-87 | parseRange succeeds exactly when the parser leaves exactly one range. It then returns that range, which lies inside the file. Otherwise it fails with BadRequest. |
| RangeSpec.StreamBounds | apps/server/src/video/video.service.ts:42-49 | The stream bounds are both defined or both undefined. Undefined (a whole-file read) happens only for the header `bytes=0-`. Defined bounds lie inside the file, and a failure is BadRequest. |
| RangeSpec.NoEqualsSign | apps/server/src/video/video.service.ts:104-108 | The code is -2 exactly when the header has no '='. Then there are no ranges and parseRange fails with BadRequest. |
| RangeSpec.RangesNeedBytes | apps/server/src/video/video.service.ts:130-137 | A range survives only if the file has at least one byte. |
| RangeSpec.EmptyFile | apps/server/src/video/video.service.ts:130-149 | On an empty file every header is unsatisfiable: no ranges, a non-zero code, and BadRequest. |
| RangeSpec.UnitIgnored | server/src/videos/videos.service.ts:94-101 | The text before the first '=' never matters, so any unit token is accepted. |
| RangeSpec.DigitsHaveNoSeparators | apps/server/src/video/video.service.ts:111-116 | A rendered number contains no '-', ',' or '=', and does not start with '-'. |
| RangeSpec.OnePiece | apps/server/src/video/video.service.ts:111-149 | `bytes=P`, with P free of commas, gives what P alone resolves to, or code -1. |
| RangeSpec.ExplicitPiece | apps/server/src/video/video.service.ts:116-118 | The piece `S-E` parses to start S and end E. |
| RangeSpec.ExplicitRange | apps/server/src/video/video.service.ts:111-149 | `bytes=S-E` gives exactly the range S..min(E, size-1) when that is non-empty, and code -1 otherwise. With S <= E < size it is exactly {S, E}. |
| RangeSpec.ResolveExplicit | apps/server/src/video/video.service.ts:129-137 | An explicit end past the file is clamped to size-1; an inverted range is dropped. |
| RangeSpec.SuffixPiece | apps/server/src/video/video.service.ts:116-124 | `-N` parses to a NaN start and end N, so it is resolved as a suffix. |
| RangeSpec.SuffixRange | apps/server/src/video/video.service.ts:120-124 | `bytes=-N` gives size-N..size-1. It is unsatisfiable (code -1) when N > size, because the start would be negative, and when N = 0. |
| RangeSpec.ResolveSuffix | apps/server/src/video/video.service.ts:120-137 | A suffix of N bytes resolves to size-N..size-1 exactly when 1 <= N <= size. |
| RangeSpec.OpenPieces | apps/server/src/video/video.service.ts:116-127 | Both `S-` and a bare `S` parse to start S with a NaN end. |
| RangeSpec.OpenRange | apps/server/src/video/video.service.ts:125-127 | `bytes=S-` gives S..size-1 when S < size, and code -1 otherwise. |
| RangeSpec.ResolveOpen | apps/server/src/video/video.service.ts:125-137 | An open range ends at the last byte. |
| RangeSpec.TwoPiecesShape | apps/server/src/video/video.service.ts:111-144 | For `bytes=P1,P2` the ranges are what P1 keeps followed by what P2 keeps (left-to-right order). |
| RangeSpec.TwoKept | apps/server/src/video/video.service.ts:78-83 | Two pieces that each keep a range give both ranges, and parseRange refuses them. |
| RangeSpec.MultipleRangesRejected | apps/server/src/video/video.service.ts:78-86 | Two satisfiable explicit ranges both survive, in order, so the multi-range header is BadRequest. |
| RangeSpec.ExplicitKept | apps/server/src/video/video.service.ts:135-143 | A piece `S-E` with S <= E < size keeps exactly {S, E}. |
| RangeSpec.OpenHeader | apps/server/src/video/video.service.ts:76-87 | parseRange of `bytes=S-` is S..size-1, or BadRequest when S >= size. |
| RangeSpec.ExplicitHeader | apps/server/src/video/video.service.ts:76-87 | parseRange of `bytes=S-E` is S..min(E, size-1), or BadRequest when that is empty. |
| RangeSpec.SuffixHeader | apps/server/src/video/video.service.ts:76-87 | parseRange of `bytes=-N` is size-N..size-1 when 1 <= N <= size, and BadRequest otherwise. |
| RangeSpec.DefaultRangeBypass | apps/server/src/video/video.service.ts:28-49 | The default header reads the whole file with no bounds, though parsing it would give 0..size-1, or BadRequest on an empty file. |
| RangeSpec.Digits | apps/server/src/video/video.service.ts:117-118 | The decimal renderings that the worked examples rely on. |
| RangeSpec.PlainExample | apps/server/src/video/video.service.ts:76-152 | `bytes=0-99` on a 1000-byte file is 0..99. |
| RangeSpec.SuffixExample | apps/server/src/video/video.service.ts:120-124 | `bytes=-500` on a 1000-byte file is 500..999. |
| RangeSpec.ClampedExample | apps/server/src/video/video.service.ts:130-132 | `bytes=900-2000` on a 1000-byte file is clamped to 900..999. |
| RangeSpec.InvertedExample | apps/server/src/video/video.service.ts:135-137 | `bytes=500-100` is BadRequest. |
| VideoService.RangeParser | apps/server/src/video/video.service.ts:99-152 | The current copy of rangeParser computes RangeParse. |
| VideoService.ParseAll | apps/server/src/video/video.service.ts:115-144 | The `for` loop over the pieces pushes exactly the ranges ParsePieces gives. |
| VideoService.ResolveEnds | apps/server/src/video/video.service.ts:120-137 | The NaN substitutions, the clamp and the `continue` test of one piece compute Resolve. |
| VideoService.ParseRange | apps/server/src/video/video.service.ts:76-87 | parseRange is SingleRange: the only range, or BadRequest. |
| VideoService.GetVideoStream | apps/server/src/video/video.service.ts:26-65 | NotFound exactly when no record has the id. Otherwise the result is BadRequest or the stream bounds of the header (default `bytes=0-`). The file path is the videos folder joined with the file name. Size and mime type are the record's own. |
| VideoService.StreamBoundsInFile | apps/server/src/video/video.service.ts:45-51 | The stream reads the whole file exactly for the default header. Otherwise its bounds lie inside the file. |
| LegacyVideosService.RangeParser | server/src/videos/videos.service.ts:89-142 | The original copy of rangeParser also computes RangeParse. |
| LegacyVideosService.ParseAll | server/src/videos/videos.service.ts:105-134 | Its `var`-hoisted loop pushes exactly the ranges ParsePieces gives. |
| LegacyVideosService.ParseRange | server/src/videos/videos.service.ts:66-77 | BadRequest unless exactly one range survives. |
| LegacyVideosService.CopiesAgree | server/src/videos/videos.service.ts:89-142 | The two rangeParser copies return the same result on every (size, header). |
| LegacyVideosService.GetVideoStream | server/src/videos/videos.service.ts:19-55 | The bounds are both defined or both undefined, and only the default header leaves them undefined. A failure is BadRequest. Path, size, mime type and disposition come from the record. |
| LegacyVideosService.FileList | server/src/videos/videos.service.ts:57-59 | fileList returns the DAL's list after the DAL's refresh. |
| LegacyVideosService.GetInfo | server/src/videos/videos.service.ts:61-63 | getInfo returns the DAL's first record with the id, after the DAL's refresh. |
| Content.ParseContentRange | apps/server/src/common/content.ts:6 | A reading of the header value. A value it accepts starts with `bytes `. |
| Content.ContentRange | apps/server/src/common/content.ts:6 | getContentRange: `bytes ` then start, '-', end, '/' and the file size, each as a decimal numeral. Its properties are the three rows below. |
| Content.ContentRangeRoundTrip | apps/server/src/common/content.ts:6 | Reading back the written value at its single '-' and '/' recovers (start, end, fileSize). |
| Content.ContentRangeInjective | apps/server/src/common/content.ts:6 | Different triples of naturals give different header values. |
| Content.ContentRangeSeparators | apps/server/src/common/content.ts:6 | The value has exactly one '-', one '/' and one space, and the space follows `bytes`. |
| Content.SplitNumerals | apps/server/src/common/content.ts:6 | Splitting at the separators gives back exactly the three numerals. |
| Content.CountAcrossNumerals | apps/server/src/common/content.ts:6 | A non-digit occurs in the value only where the template puts it. |
| JsText.FindIndex | server/src/videos/videoDAL.ts:64 | `findIndex` by one field: the index of the first element whose field equals the key, or None exactly when no element has it. The catalog and DAL lookups are instances of it. |
| JsText.IndexFrom | apps/server/src/video/video.service.ts:104 | The first occurrence at or after `from`, or None when there is none. |
| JsText.IndexOf | apps/server/src/video/video.service.ts:104 | `indexOf`: the first occurrence, or None (-1) when there is none. |
| JsText.Split | apps/server/src/video/video.service.ts:111 | `split` always gives at least one part. |
| JsText.JoinSplit | apps/server/src/video/video.service.ts:111 | Joining the parts with the separator gives back the string. |
| JsText.IndexOfAbsentChar | apps/server/src/video/video.service.ts:104-108 | A character absent from the string is not found. |
| JsText.IndexOfFirstChar | apps/server/src/video/video.service.ts:104 | The first occurrence of a character is found at its position. |
| JsText.SplitNoSep | apps/server/src/video/video.service.ts:116 | A string without the separator splits into itself alone. |
| JsText.SplitAround | apps/server/src/video/video.service.ts:111 | Splitting at the first separator gives the text before it, then the split of the rest. |
| JsText.ReplaceChar | apps/server/src/data/subtitle-data.service.ts:116 | `replaceAll(',', '.')` keeps the length and changes exactly the commas. |
| JsText.TrimStart | apps/server/src/video/video.service.ts:117 | parseInt's leading whitespace skip leaves a suffix that starts with no whitespace. |
| JsText.LeadingDigits | apps/server/src/video/video.service.ts:117 | The longest all-digit prefix: the next character is not a digit. |
| JsText.DigitChar | apps/server/src/video/video.service.ts:117-118 | A digit value renders as a digit with that value. |
| JsText.NatToString | apps/server/src/common/content.ts:6 | A number renders as a non-empty string of digits. |
| JsText.DecimalValueOfNatToString | apps/server/src/common/content.ts:6 | Reading a rendered number gives the number back. |
| JsText.NatToStringInjective | apps/server/src/common/content.ts:6 | Different numbers render differently. |
| JsText.LeadingDigitsPrefix | apps/server/src/video/video.service.ts:117 | The leading digits stop where the first non-digit starts. |
| JsText.ParseInt | apps/server/src/video/video.service.ts:117-118 | `parseInt(s, 10)`: leading white space is skipped, one optional sign is read, then the longest run of digits. No digits is NaN (None). Its properties are the rows around it. |
| JsText.ParseIntOfNatToString | apps/server/src/video/video.service.ts:117-118 | parseInt reads back a rendered number, followed by any text that does not start with a digit. |
| JsText.ParseIntTrailingText | apps/server/src/video/video.service.ts:117 | parseInt of "10abc" is 10. |
| JsText.ParseIntNoDigits | apps/server/src/video/video.service.ts:117-121 | parseInt of "" and of "abc" is NaN. |
| JsText.CountCharAppend | apps/server/src/common/content.ts:6 | Occurrences of a character add up across concatenation. |
| JsText.CountCharAbsent | apps/server/src/common/content.ts:6 | An absent character occurs zero times. |
| Vtt.Vtt | apps/server/src/data/subtitle-data.service.ts:112-122 | toVTT as a value: the header `WEBVTT\n\n` followed by the body of the input's CRLF pieces. The loops are proved equal to it; its shape is VttShape and VttPieces. |
| Vtt.VttBody | apps/server/src/data/subtitle-data.service.ts:114-119 | Every piece, rewritten by VttLine, followed by CRLF, in input order. |
| Vtt.VttLine | apps/server/src/data/subtitle-data.service.ts:115-117 | A cue-timing piece (one holding "-->") comes out with every ',' made '.' and no comma left. Any other piece is unchanged, and the length is kept. |
| Vtt.VttLines | apps/server/src/data/subtitle-data.service.ts:114-118 | Every piece is rewritten on its own. |
| Vtt.VttBodyAppend | apps/server/src/data/subtitle-data.service.ts:118 | Each piece adds itself, rewritten, followed by CRLF. |
| Vtt.VttStep | apps/server/src/data/subtitle-data.service.ts:114-119 | The loop's accumulated output is the header plus the body of the pieces done so far. |
| Vtt.VttBodyIsJoin | apps/server/src/data/subtitle-data.service.ts:114-119 | The body is the rewritten pieces joined by CRLF, plus a final CRLF. |
| Vtt.VttBodyLength | apps/server/src/data/subtitle-data.service.ts:118 | The body's length is the pieces' lengths plus two per piece. |
| Vtt.JoinLength | apps/server/src/data/subtitle-data.service.ts:114 | A join's length is the parts' lengths plus one separator between each pair of parts. |
| Vtt.VttShape | apps/server/src/data/subtitle-data.service.ts:112-122 | The output starts with "WEBVTT\n\n" and is exactly 10 characters longer than the input. |
| Vtt.VttPieces | apps/server/src/data/subtitle-data.service.ts:112-122 | The output is the header, then the CRLF-split pieces rewritten and re-joined, then a final CRLF. |
| Vtt.VttUnchanged | apps/server/src/data/subtitle-data.service.ts:115-118 | Input without cue-timing pieces comes out as header + input + CRLF. |
| Vtt.SplitEndingCrlf | apps/server/src/data/subtitle-data.service.ts:114 | An input ending in CRLF splits with an empty last piece. |
| Vtt.SplitEndingSep | apps/server/src/data/subtitle-data.service.ts:114 | A string ending in a two-character separator splits with an empty last part. |
| Vtt.VttTrailingCrlf | apps/server/src/data/subtitle-data.service.ts:114-119 | An input ending in CRLF gains one more CRLF, so the output ends in two. |
| NodePath.LastIndexOfChar | apps/server/src/data/subtitle-data.service.ts:131 | The last occurrence of a character, or None when it is absent. |
| NodePath.LastIndexOfCharAt | apps/server/src/data/subtitle-data.service.ts:131 | A character absent after position |x| is last found there. |
| NodePath.StripTrailingSlashes | apps/server/src/data/subtitle-data.service.ts:131 | Removes the trailing '/'s and nothing else. |
| NodePath.LastSegment | apps/server/src/data/subtitle-data.service.ts:131-132 | The text after the last '/'. |
| NodePath.ExtName | apps/server/src/data/subtitle-data.service.ts:131 | `extname` is empty or a '.' followed by no further '.' or '/'. |
| NodePath.Join | apps/server/src/data/subtitle-data.service.ts:62-65 | `join(dir, name)` is the folder, a '/', then the name. |
| NodePath.BaseName | apps/server/src/data/subtitle-data.service.ts:132 | Node's `basename(p, ext)` for '/' paths: the last segment, trailing slashes ignored, with `ext` removed when it is a proper suffix of it. BaseNamePlusExtName proves that base name plus extension gives back a plain file name. |
| NodePath.BaseNamePlusExtName | apps/server/src/data/subtitle-data.service.ts:131-132 | `basename(f, extname(f)) + extname(f) == f` for a plain file name. |
| NodePath.ExtNameAfterDot | apps/server/src/data/subtitle-data.service.ts:133 | The extension of `a.b` is `.b`. |
| NodePath.ExtNameIsSuffix | apps/server/src/data/subtitle-data.service.ts:131 | The extension is a suffix of the path. |
| NodePath.ExtNameLastChar | apps/server/src/data/subtitle-data.service.ts:131 | A non-empty extension ends with the path's last character. |
| FileSystem.Written | apps/server/src/data/subtitle-data.service.ts:91 | A write leaves the file holding the content. Every other file is unchanged, and the listing gains at most that one name. |
| FileSystem.WrittenAgain | apps/server/src/data/subtitle-data.service.ts:91 | Writing the same content twice is the same as once. |
| FileSystem.StatSize | apps/server/src/common/fs.ts:14-17 | stat succeeds only for a path naming a file in the folder, and gives its size. |
| FileSystem.StatJoin | apps/server/src/common/fs.ts:14-17 | The stat of a listed file's joined path is its size. |
| FileSystem.Directory.constructor | apps/server/src/common/fs.ts:3-13 | A folder object holds the given directory value. |
| FileSystem.Directory.Write | apps/server/src/data/subtitle-data.service.ts:91 | writeFile changes the folder to exactly Written. |
| FileSystem.Directory.Exists | apps/server/src/data/subtitle-data.service.ts:87 | existsSync holds exactly for a present file. |
| FileSystem.Directory.List | apps/server/src/common/fs.ts:3-13 | readdir gives the names in the folder, in creation order. |
| FileSystem.Directory.Read | apps/server/src/data/subtitle-data.service.ts:88 | readFile gives the file's content. |
| Catalog.FindByFileName | apps/server/src/data/data.service.ts:26-31 | findOne by file name: the first record with that name, or None when there is none. |
| Catalog.FindByUuid | apps/server/src/data/data.service.ts:26-31 | findOne by id: the first record with that id, or None when there is none. |
| Catalog.FindUniqueFileName | apps/server/src/data/data.service.ts:26-31 | With unique file names, each record is found at its own position. |
| Catalog.VideoStore.constructor | apps/server/src/data/data.service.ts:22-24 | The collection starts with the given records. |
| Catalog.VideoStore.Insert | apps/server/src/data/data.service.ts:33-35 | insert appends the record. |
| Catalog.VideoStore.Replace | apps/server/src/data/video-data.service.ts:119-123 | An in-place field update replaces that record and no other. |
| SubtitleData.SplitName | apps/server/src/data/subtitle-data.service.ts:130-134 | The entry keeps the full name, and its language holds no '.' or '/'. |
| SubtitleData.SplitNameParts | apps/server/src/data/subtitle-data.service.ts:131-132 | For a plain file name, full == base + ext. |
| SubtitleData.Matching | apps/server/src/data/subtitle-data.service.ts:129 | The `includes(filter)` filter never adds names. |
| SubtitleData.MatchingExact | apps/server/src/data/subtitle-data.service.ts:129 | The filter keeps exactly the listed names that contain the filter string. |
| SubtitleData.FileListSplit | apps/server/src/data/subtitle-data.service.ts:124-136 | getFileListSplit gives one entry per kept name. |
| SubtitleData.FileListSplitExact | apps/server/src/data/subtitle-data.service.ts:124-136 | A name's split entry is listed exactly when the name is listed and contains the filter. |
| SubtitleData.FileListSplitEntries | apps/server/src/data/subtitle-data.service.ts:129-135 | Every entry splits a listed, matching name. |
| SubtitleData.EntryOf | apps/server/src/data/subtitle-data.service.ts:129-135 | Every listed, matching name has its entry. |
| SubtitleData.ListedExist | apps/server/src/data/subtitle-data.service.ts:37-40 | The videos-folder entries all name existing files. |
| SubtitleData.Langs | apps/server/src/data/subtitle-data.service.ts:47-49 | At most one language is reported per entry. |
| SubtitleData.LangsExact | apps/server/src/data/subtitle-data.service.ts:47-49 | A language is reported exactly when some entry has extension `.vtt` and that language. |
| SubtitleData.IndexOfLang | apps/server/src/data/subtitle-data.service.ts:59 | findIndex by language: an entry with that language, or None (-1) exactly when there is none. |
| SubtitleData.StorageName | apps/server/src/data/subtitle-data.service.ts:65 | The cache file name `{uuid}.{lang}.vtt`. |
| SubtitleData.StorageNameExt | apps/server/src/data/subtitle-data.service.ts:65 | `{uuid}.{lang}.vtt` is a plain file name with extension `.vtt`. |
| SubtitleData.StorageNameBase | apps/server/src/data/subtitle-data.service.ts:65 | Its base is `{uuid}.{lang}` and its language part is `lang`. |
| SubtitleData.StorageNameSplits | apps/server/src/data/subtitle-data.service.ts:130-135 | The cache file splits back into (full, `{uuid}.{lang}`, lang, `.vtt`) and matches the uuid filter. |
| SubtitleData.Converted | apps/server/src/data/subtitle-data.service.ts:80-100 | convertToVttFile on a directory value keeps it well-formed. |
| SubtitleData.ConvertedSkips | apps/server/src/data/subtitle-data.service.ts:86-98 | When `{uuid}.{lang}.vtt` already exists, conversion changes nothing. |
| SubtitleData.ConvertedIdempotent | apps/server/src/data/subtitle-data.service.ts:86-98 | Converting twice is the same as once. |
| SubtitleData.MigrateStep | apps/server/src/data/subtitle-data.service.ts:59-76 | One candidate never removes a storage file. |
| SubtitleData.MigrateStepFrame | apps/server/src/data/subtitle-data.service.ts:59-76 | One candidate writes only its own `{uuid}.{lang}.vtt`. |
| SubtitleData.Migrate | apps/server/src/data/subtitle-data.service.ts:53-78 | The migration loop never removes a storage file. |
| SubtitleData.MigrateWrites | apps/server/src/data/subtitle-data.service.ts:59-75 | A `.vtt` or `.srt` candidate whose language is absent from the snapshot ends up cached as `{uuid}.{lang}.vtt`. |
| SubtitleData.MigrateFrame | apps/server/src/data/subtitle-data.service.ts:53-78 | Storage files other than the candidates' cache names are untouched. |
| SubtitleData.MigrateSkipsKnown | apps/server/src/data/subtitle-data.service.ts:59 | When every candidate's language is in the snapshot, nothing is copied or converted. |
| SubtitleData.MigrateNoop | apps/server/src/data/subtitle-data.service.ts:59-76 | Nothing changes when every `.vtt`/`.srt` candidate is either known or already cached; other extensions are ignored. |
| SubtitleData.VttWins | apps/server/src/data/subtitle-data.service.ts:58-76 | When both `x.lang.srt` and `x.lang.vtt` are fresh candidates, the cached file holds the `.vtt` content, in either listing order. |
| SubtitleData.Migrated | apps/server/src/data/subtitle-data.service.ts:32-45 | getVideoSubtitles' folder effect keeps the storage folder well-formed. |
| SubtitleData.SubtitleLangs | apps/server/src/data/subtitle-data.service.ts:47-50 | The languages getVideoSubtitles reports: the `.vtt` entries for the id in the storage folder after the migration. LangReported proves every language the migration writes is among them. |
| SubtitleData.LangReported | apps/server/src/data/subtitle-data.service.ts:41-50 | Every `.vtt`/`.srt` subtitle of the video in the videos folder whose language was not yet cached is reported after migration. |
| SubtitleData.KnownStaysKnown | apps/server/src/data/subtitle-data.service.ts:33-36 | A language cached for the uuid stays cached when files are only added. |
| SubtitleData.MigrationSettles | apps/server/src/data/subtitle-data.service.ts:32-51 | A second getVideoSubtitles changes nothing and reports the same languages. |
| SubtitleData.ToVtt | apps/server/src/data/subtitle-data.service.ts:112-122 | The accumulating loop computes Vtt. |
| SubtitleData.CopyVttFile | apps/server/src/data/subtitle-data.service.ts:103-110 | copyFile writes the source file's content under the target name and resolves the target. |
| SubtitleData.ConvertToVttFile | apps/server/src/data/subtitle-data.service.ts:80-100 | convertToVttFile changes the storage folder exactly as Converted, and resolves `lang` on both branches. |
| SubtitleData.MigrateSubtitlesToStorage | apps/server/src/data/subtitle-data.service.ts:53-78 | The loop changes the storage folder exactly as Migrate. |
| SubtitleData.GetVideoSubtitles | apps/server/src/data/subtitle-data.service.ts:32-51 | Storage becomes Migrated. The result is the cached `.vtt` languages, recomputed after migration. |
| VideoData.IsCrawlable | apps/server/src/data/video-data.service.ts:38-42 | The filter's test: the extension is `.mp4` or `.mkv`. |
| VideoData.CrawlableNames | apps/server/src/data/video-data.service.ts:38-42 | The listing filtered by IsCrawlable, in listing order. CrawlableExact and CrawlableDistinct state its meaning. |
| VideoData.CrawlableExact | apps/server/src/data/video-data.service.ts:38-42 | A name is processed exactly when it is listed and its extension is `.mp4` or `.mkv`. |
| VideoData.CrawlableDistinct | apps/server/src/data/video-data.service.ts:38-42 | Filtering keeps the names distinct. |
| VideoData.CrawlableIsVideoFile | server/src/videos/videoDAL.ts:106-109 | Both generations' video-file filters agree. |
| VideoData.Alpha | apps/server/src/data/video-data.service.ts:139 | `ext.slice(1)`: the extension without its first character, empty for an empty extension. |
| VideoData.MimeType | apps/server/src/data/video-data.service.ts:138-146 | The mime type is always `video/…`, and has a subtype unless the extension is empty. |
| VideoData.MimeTypeOfCrawlable | apps/server/src/data/video-data.service.ts:138-146 | For crawled files, `.mkv` maps to `video/webm` and `.mp4` to `video/mp4`. |
| VideoData.MimeTypeOfVideoExt | apps/server/src/data/video-data.service.ts:141-144 | The two video extensions' mime types. |
| VideoData.MimeTypeSubtype | apps/server/src/data/video-data.service.ts:143-144 | Other than `.mkv`, the subtype is the extension without its dot. |
| VideoData.NewRecord | apps/server/src/data/video-data.service.ts:79-102 | The record newVideo inserts: the path joined from the folder and the name, base name and friendly name without the extension, description '', the mime type of the extension, the stat size, no tags and the reported languages. |
| VideoData.NewRecordShape | apps/server/src/data/video-data.service.ts:79-102 | A new record has the given id, baseName = friendlyName = the file name without extension, an empty description and tags, a path whose stat gives the recorded size, and the synchroniser's languages. |
| VideoData.Dirty | apps/server/src/data/video-data.service.ts:117-125 | A round is dirty when the stat size differs from the record's or a reported language is missing from it. |
| VideoData.Updated | apps/server/src/data/video-data.service.ts:117-125 | The record after one round: the stat size, and the reported languages when one was missing. UpdatedMeets, DirtyIffChanged and UpdatedSettles state its meaning. |
| VideoData.UpdatedMeets | apps/server/src/data/video-data.service.ts:117-125 | After a round: the size is the stat size and every found language is listed. A list that already covers them (shrunk or reordered) is kept. Id, names, path, mime type, description and tags never change. |
| VideoData.DirtyIffChanged | apps/server/src/data/video-data.service.ts:117-125 | `dirty` is set exactly when the round changed the record. |
| VideoData.UpdatedSettles | apps/server/src/data/video-data.service.ts:126 | With the same inputs the next round is clean, so the recursion stops after the second round. |
| VideoData.CrawlStep | apps/server/src/data/video-data.service.ts:53-58 | One name never removes records. A found index is a record. |
| VideoData.Failed | apps/server/src/data/video-data.service.ts:97-100 | What a name whose stat fails leaves: the catalog unchanged and the storage folder after the name's subtitle migration, which ran before the stat result was used. |
| VideoData.MigrationBeforeStat | apps/server/src/data/video-data.service.ts:97-100 | A step that completes leaves the storage folder a failed one would, and a failed step never changes the catalog. |
| VideoData.StepShape | apps/server/src/data/video-data.service.ts:53-58 | A name takes exactly one path: a new record when the lookup found none, an update of the found one otherwise. |
| VideoData.NewStep | apps/server/src/data/video-data.service.ts:76-109 | The new-record path runs the synchroniser and appends the record, or fails when stat fails. |
| VideoData.UpdateStep | apps/server/src/data/video-data.service.ts:111-135 | The update path replaces the found record with its updated version, or fails when stat fails. |
| VideoData.StepKeepsUuids | apps/server/src/data/video-data.service.ts:85 | A step gives the new record the id handed to it and keeps every other id. |
| VideoData.SyncOfMigrates | apps/server/src/data/video-data.service.ts:97 | The crawler's synchroniser is getVideoSubtitles. |
| VideoData.Lookups | apps/server/src/data/video-data.service.ts:44-52 | The lookups are taken once, against the catalog before any change: one per name, by file name. |
| VideoData.LookupsPrefix | apps/server/src/data/video-data.service.ts:44-52 | The lookups of a prefix of the names are the prefix of the lookups. |
| VideoData.Crawled | apps/server/src/data/video-data.service.ts:53-59 | refresh as a fold: the names in order, each step on the result of the one before, the first failure failing the whole. |
| VideoData.CrawledNext | apps/server/src/data/video-data.service.ts:53-59 | The fold over k+1 names is one step after the fold over k. |
| VideoData.CrawledStopped | apps/server/src/data/video-data.service.ts:53-59 | Once a name fails the refresh fails. |
| VideoData.StoppedAt | apps/server/src/data/video-data.service.ts:53-59 | The refresh stopped at name m: the names before m completed, m's stat failed, and the state is what that failure left (Failed). |
| VideoData.StoppedFails | apps/server/src/data/video-data.service.ts:53-59 | A refresh that stopped at some name (StoppedAt) fails as a whole. |
| VideoData.CrawledLast | apps/server/src/data/video-data.service.ts:53-59 | A completed fold is a completed fold of the prefix, followed by a successful last step. |
| VideoData.CrawledKeeps | apps/server/src/data/video-data.service.ts:53-59 | Existing records keep their position and identity. Each added record is for a processed name that had no record, with the id given for it. |
| VideoData.CrawledSound | apps/server/src/data/video-data.service.ts:53-59 | With unique file names in the catalog, a completed fold keeps names unique. Every processed name has a record holding its stat size. |
| VideoData.RefreshSound | apps/server/src/data/video-data.service.ts:34-60 | After a completed refresh: file names stay unique, and every crawlable file has a record with its current size. Old records keep place and identity, and new ones are for files that had none. |
| VideoData.RefreshStopped | apps/server/src/data/video-data.service.ts:53-59 | After a refresh that stopped at the m-th name, old records keep place and identity, and every added record is for a name before the m-th that had none, with its id. |
| VideoData.RefreshUuidsDistinct | apps/server/src/data/video-data.service.ts:85 | When the ids handed out differ from each other and from every id in the catalog, a completed refresh leaves no two records with the same id. |
| VideoData.NewVideo | apps/server/src/data/video-data.service.ts:76-109 | Storage is migrated for the new id. A failed stat inserts nothing. Otherwise NewRecord, with the stat size and the reported languages, is appended. |
| VideoData.UpdateVideo | apps/server/src/data/video-data.service.ts:111-135 | Storage is migrated for the record. A failed stat changes nothing. Otherwise the record becomes Updated, in place, after the dirty re-run. |
| VideoData.AddOrUpdate | apps/server/src/data/video-data.service.ts:55-57 | One name's newVideo/updateVideo changes catalog and storage exactly as CrawlStep. When it fails, the catalog is unchanged and the storage folder is the name's migration result (Failed). |
| VideoData.Refresh | apps/server/src/data/video-data.service.ts:34-60 | The refresh loop changes catalog and storage exactly as Crawled over the filtered names and the snapshot lookups. It fails exactly when that fails, and then it stopped at some name m (StoppedAt): the names before m completed, m's step failed, and catalog and storage are what that failure left. |
| LegacyVideoDal.IsVideoFile | server/src/videos/videoDAL.ts:106-109 | isVideoFile: the extension is `.mkv` or `.mp4`. |
| LegacyVideoDal.InfoFiles | server/src/videos/videoDAL.ts:52 | The listing's `.json` names, in listing order. |
| LegacyVideoDal.VideoFiles | server/src/videos/videoDAL.ts:57 | The listing's video files, in listing order. FiltersExact states both filters' meaning. |
| LegacyVideoDal.FiltersExact | server/src/videos/videoDAL.ts:52-57 | The info filter keeps exactly the listed `.json` names; the video filter keeps exactly the `.mkv`/`.mp4` names. |
| LegacyVideoDal.IndexOfFileName | server/src/videos/videoDAL.ts:63-65 | hasVideo's findIndex: the first record with that file name, or None exactly when there is none. |
| LegacyVideoDal.IndexOfUuid | server/src/videos/videoDAL.ts:47 | The position of the first record with the id, or None exactly when there is none. |
| LegacyVideoDal.FindUuid | server/src/videos/videoDAL.ts:47 | `find` by id: the first matching record, or undefined exactly when none matches. |
| LegacyVideoDal.BuildRecord | server/src/videos/videoDAL.ts:74-83 | A built record has the given id, file name, stat size and subtitles; description '', mime type `video/*` and no tags. |
| LegacyVideoDal.FriendlyName | server/src/videos/videoDAL.ts:77 | friendlyName plus the extension is the file name. |
| LegacyVideoDal.InfoWritten | server/src/videos/videoDAL.ts:84 | Writing an info file leaves video sizes unchanged and keeps every folder entry. |
| LegacyVideoDal.InfoNameNotVideo | server/src/videos/videoDAL.ts:69 | `{base}.json` is never a video file. |
| LegacyVideoDal.EndingNNotVideo | server/src/videos/videoDAL.ts:106-109 | A name ending in 'n' is not a video file. |
| LegacyVideoDal.ListedLast | server/src/videos/videoDAL.ts:84 | A new info file leaves the video list as it was and extends the info list at its end. |
| LegacyVideoDal.WithInfo | server/src/videos/videoDAL.ts:29-34 | addVideoFileInfo only appends. File names stay unique, and afterwards the file name is present. |
| LegacyVideoDal.AddVideoStep | server/src/videos/videoDAL.ts:21-27 | addVideo only appends and keeps file names unique. Afterwards the file has a record. |
| LegacyVideoDal.AddInfos | server/src/videos/videoDAL.ts:53-55 | The info loop only appends and keeps file names unique. |
| LegacyVideoDal.AddVideos | server/src/videos/videoDAL.ts:58-60 | The video loop only appends and keeps file names unique. |
| LegacyVideoDal.RefreshSpec | server/src/videos/videoDAL.ts:50-61 | refresh only appends and keeps file names unique. |
| LegacyVideoDal.AddInfosCovers | server/src/videos/videoDAL.ts:53-55 | A missing file name that a loaded info file describes is added with that file's record. |
| LegacyVideoDal.AddInfosFresh | server/src/videos/videoDAL.ts:53-55 | A file name that no loaded info file describes stays missing. |
| LegacyVideoDal.AddVideosKeeps | server/src/videos/videoDAL.ts:58-60 | A file name already present keeps its record's position through the video loop. |
| LegacyVideoDal.PersistedRecordKept | server/src/videos/videoDAL.ts:50-61 | Info files load before video files, so a video with a persisted info file keeps that record and its id. |
| LegacyVideoDal.AddVideosCovers | server/src/videos/videoDAL.ts:58-60 | Every file in the video loop ends up with a record. |
| LegacyVideoDal.RefreshCovers | server/src/videos/videoDAL.ts:50-61 | After refresh every listed video file has a record. |
| LegacyVideoDal.PrefixKeepsIndex | server/src/videos/videoDAL.ts:21-34 | Appending never moves an existing file name's record. |
| LegacyVideoDal.LastIndex | server/src/videos/videoDAL.ts:21-34 | An appended record for a missing name is found last. |
| LegacyVideoDal.InfoFilesParse | server/src/videos/videoDAL.ts:52 | Every listed info file holds a record. |
| LegacyVideoDal.VideoFilesStat | server/src/videos/videoDAL.ts:57 | Every listed video file has a size. |
| LegacyVideoDal.VideoFolder.constructor | server/src/videos/videoDAL.ts:11-14 | The folder object holds the given folder value. |
| LegacyVideoDal.VideoFolder.WriteInfo | server/src/videos/videoDAL.ts:84 | writeFile of an info file changes the folder exactly as InfoWritten. |
| LegacyVideoDal.VideoDal.constructor | server/src/videos/videoDAL.ts:12-17 | The catalog starts empty with no lastRefresh. |
| LegacyVideoDal.VideoDal.BuildVideoFileInfo | server/src/videos/videoDAL.ts:67-87 | Returns BuildRecord with the stat size. Its info file `{base}.json` is written with that record. |
| LegacyVideoDal.VideoDal.AddVideo | server/src/videos/videoDAL.ts:21-27 | Changes catalog and folder exactly as AddVideoStep: build and append only if the file name is absent. |
| LegacyVideoDal.VideoDal.AddVideoFileInfo | server/src/videos/videoDAL.ts:29-34 | Appends the loaded record only when its file name is absent. |
| LegacyVideoDal.VideoDal.LoadInfoFiles | server/src/videos/videoDAL.ts:52-55 | The info-file loop changes the catalog exactly as AddInfos. |
| LegacyVideoDal.VideoDal.LoadVideoFiles | server/src/videos/videoDAL.ts:57-60 | The video-file loop changes catalog and folder exactly as AddVideos. |
| LegacyVideoDal.VideoDal.Refresh | server/src/videos/videoDAL.ts:50-61 | refresh changes catalog and folder exactly as RefreshSpec: info files first, then video files. |
| LegacyVideoDal.VideoDal.HasVideo | server/src/videos/videoDAL.ts:63-65 | hasVideo: some record has the file name (IndexOfFileName finds one). |
| LegacyVideoDal.VideoDal.RefreshNeeded | server/src/videos/videoDAL.ts:18 | refreshNeeded: no last refresh (unset or 0), or more than 60 000 ms since it. RefreshAlwaysNeeded proves it always holds. |
| LegacyVideoDal.VideoDal.GetList | server/src/videos/videoDAL.ts:36-41 | getList refreshes, then returns the whole catalog. |
| LegacyVideoDal.VideoDal.Info | server/src/videos/videoDAL.ts:43-48 | info refreshes, then returns the first record with the id, or undefined. |
| LegacyVideoDal.RefreshAlwaysNeeded | server/src/videos/videoDAL.ts:16-18 | Nothing assigns lastRefresh, so refreshNeeded holds at every time `now`. |
| LegacyVideoDal.ToVtt | server/src/videos/videoDAL.ts:169-179 | The original copy of toVTT computes the same Vtt. |

## Left out

- File-system and network I/O are values, not calls.
  - A folder is a `Dir` value: names in creation order, plus file contents.
  - stat is the length of a file's content.
  - Read and copy errors are excluded by "the listed file exists" preconditions.
  - In the crawler, a failed stat is modelled: the crawl step fails, the catalog keeps what the names before it did, and the refresh stops there.
  - In the legacy DAL, a failed stat would leave `addVideo` waiting forever. The model excludes it by the `FolderValid` precondition: every listed video file can be stat'ed.
  - Write errors are not modelled.
- The rxjs orchestration of `refresh` (`zip`, `forkJoin`, `switchMap`) is flattened into a sequential loop.
  - The lookups are all taken before the first change.
  - The first failing stat stops the refresh; the names after it are not processed.
  - The `subscribe` in `onModuleInit` is not modelled.
- The thumbnail step at the end of `refresh`, an ffmpeg wrapper, is not modelled.
- `randomUUID` is the `uuids` parameter, one id per processed name. The ids are assumed to be shaped like uuids: no '/' or '.'. The model does not assume they are fresh; `RefreshUuidsDistinct` says what fresh ids give.
- `Date.now` is the `now` parameter of `RefreshNeeded`.
- JSON `stringify`/`parse` of info files is left out. An info file holds the record value itself.
- The LokiJS collection is an ordered sequence. `findOne` returns the first match; `insert` appends.
  - In the source, `findVideo` declares a bare file name but is called with `{ fileName }` or `{ uuid }`. The model takes the evidently intended lookup by that field and does not reproduce Loki's query operators.
  - The insert-failure exception of `addVideo` is not modelled.
  - Autosave is not modelled.
- The original server's regex-based `getSubtitles` is replaced by the `subtitlesFor` parameter of the DAL. Its `.srt` branch runs inside an un-awaited async `forEach` whose results are dropped. `createVtt` is not modelled.
- The stream object (`createReadStream`, `StreamableFile`) is represented only by its path, bounds, disposition, size and mime type.
- The TypeError that `rangeParser` throws for a non-string argument cannot arise in the typed model.
- JavaScript numbers are unbounded integers. Precision above 2^53 and the exponent form of numbers from 1e21 up are not modelled.
- Sizes are counted in characters, not bytes.
- No path normalisation is modelled: `join` concatenates with one '/'. `extname` and `basename` follow Node's rules for forward slashes only.
- Controllers, HTTP status wiring and the Vue client are not modelled.
- Concurrency is not modelled. The legacy DAL's methods are modelled as calls that do not interleave. In the source, two overlapping `getList` calls can both pass `hasVideo` for the same file before either pushes, and then push it twice.
- The videos folder and the storage folder are different directories. The model keeps them as two separate `Dir` values, so a write to the storage never shows up in the video listing.
- VideoService.ResolveEnds: the clamping of one piece is a helper method called from the loop. The source writes it inline in the loop body.
- VideoData.CrawlStep: an out-of-range lookup index gives a failed step, which never happens in a refresh.
- SubtitleData.VttWins: when both an `.srt` and a `.vtt` with the same language are fresh, the code converts the `.srt` and the `.vtt` copy then overwrites the cache file. The model follows the code: the `.srt` is converted even though the `.vtt` supersedes it. Only the final cache content is proved.
