/** What the server's copy of jshttp/range-parser computes for a `Range`
    header against a file size (the single-range `bytes=` handling of section
    2.1 of RFC 7233), what parseRange accepts from it, and the stream bounds
    getVideoStream derives. The two rangeParser loops (VideoService and
    LegacyVideosService) are proved equal to RangeParse. */
module RangeSpec {
  import opened JsText

  /** An inclusive byte interval. */
  datatype Range = Range(start: int, end: int)

  /** code 0: ranges parsed; -1: none satisfiable; -2: malformed (no '='). */
  datatype RangeResult = RangeResult(code: int, ranges: seq<Range>)

  datatype HttpError = BadRequest | NotFound

  datatype Result<T> = Ok(value: T) | Err(error: HttpError)

  /** createReadStream bounds; both None means the whole file. */
  datatype Bounds = Bounds(start: Option<int>, end: Option<int>)

  /** `size - x` in JavaScript, NaN propagating. */
  function Minus(size: int, x: Option<int>): Option<int> {
    match x
    case None => None
    case Some(v) => Some(size - v)
  }

  ghost predicate InFile(rg: Range, size: int) {
    0 <= rg.start <= rg.end <= size - 1
  }

  /** One iteration of rangeParser's loop on the two numbers read from a
      piece: `-suffixLength` (start NaN), `start-` (end NaN), last-byte-pos
      clamped to the file, unsatisfiable pieces dropped. */
  function Resolve(size: nat, start: Option<int>, end: Option<int>): (r: Option<Range>)
    ensures r.Some? ==> InFile(r.value, size)
  {
    var start1 := if start.None? then Minus(size, end) else start;
    var end1 := if start.None? || end.None? then Some(size - 1) else end;
    var end2 := if end1.Some? && end1.value > size - 1 then Some(size - 1) else end1;
    if start1.None? || end2.None? || start1.value > end2.value || start1.value < 0 then None
    else Some(Range(start1.value, end2.value))
  }

  /** One comma-separated piece: split at '-', the first two parts read with
      parseInt (a missing second part is undefined, hence NaN). */
  function PieceRange(size: nat, piece: string): (r: Option<Range>)
    ensures r.Some? ==> InFile(r.value, size)
  {
    var range := Split(piece, "-");
    Resolve(size, ParseInt(range[0]), if |range| > 1 then ParseInt(range[1]) else None)
  }

  lemma PieceRangeOfParts(size: nat, piece: string, a: string, b: string)
    requires Split(piece, "-") == [a, b]
    ensures PieceRange(size, piece) == Resolve(size, ParseInt(a), ParseInt(b))
  {
  }

  lemma PieceRangeOfWhole(size: nat, piece: string)
    requires Split(piece, "-") == [piece]
    ensures PieceRange(size, piece) == Resolve(size, ParseInt(piece), None)
  {
  }

  /** The ranges kept from `pieces`, left to right. */
  function ParsePieces(size: nat, pieces: seq<string>): (r: seq<Range>)
    ensures |r| <= |pieces|
    ensures forall k :: 0 <= k < |r| ==> InFile(r[k], size)
    decreases |pieces|
  {
    if pieces == [] then []
    else
      var init := ParsePieces(size, pieces[..|pieces| - 1]);
      match PieceRange(size, pieces[|pieces| - 1])
      case None => init
      case Some(rg) => init + [rg]
  }

  /** rangeParser(size, str). */
  function RangeParse(size: nat, str: string): (r: RangeResult)
    ensures r.code == -2 || r.code == -1 || r.code == 0
    ensures r.code == 0 <==> |r.ranges| >= 1
    ensures forall k :: 0 <= k < |r.ranges| ==> InFile(r.ranges[k], size)
  {
    match IndexOf(str, "=")
    case None => RangeResult(-2, [])
    case Some(index) =>
      var ranges := ParsePieces(size, Split(str[index + 1..], ","));
      if |ranges| < 1 then RangeResult(-1, []) else RangeResult(0, ranges)
  }

  /** parseRange: the single range, or BadRequest. */
  function SingleRange(size: nat, str: string): (r: Result<Range>)
    ensures r.Ok? <==> |RangeParse(size, str).ranges| == 1
    ensures r.Ok? ==> r.value == RangeParse(size, str).ranges[0] && InFile(r.value, size)
    ensures r.Err? ==> r.error == BadRequest
  {
    var pr := RangeParse(size, str);
    if pr.code == -1 || pr.code == -2 || |pr.ranges| != 1 then Err(BadRequest)
    else Ok(pr.ranges[0])
  }

  /** The header value getVideoStream uses when none is given, and the one
      value for which it skips parsing. */
  const DefaultRange: string := "bytes=0-"

  /** The start/end getVideoStream hands to createReadStream. */
  function StreamBounds(size: nat, range: string): (r: Result<Bounds>)
    ensures r.Ok? ==> (r.value.start.Some? <==> r.value.end.Some?)
    ensures r.Ok? && r.value.start.Some? ==> InFile(Range(r.value.start.value, r.value.end.value), size)
    ensures r.Ok? && r.value.start.None? ==> range == DefaultRange
    ensures r.Err? ==> r.error == BadRequest
  {
    if range == DefaultRange then Ok(Bounds(None, None))
    else
      match SingleRange(size, range)
      case Ok(rg) => Ok(Bounds(Some(rg.start), Some(rg.end)))
      case Err(e) => Err(e)
  }

  /** What getVideoStream hands back besides the stream itself (both
      copies of the service return the same shape). */
  datatype VideoStream = VideoStream(
    filePath: string,
    disposition: string,
    contentStart: Option<int>,
    contentEnd: Option<int>,
    fileSize: nat,
    mimeType: string)

  // ---------------------------------------------------------------------
  // Properties of the parser

  /** The malformed code -2 is given exactly to headers without '='. */
  lemma NoEqualsSign(size: nat, str: string)
    ensures RangeParse(size, str).code == -2 <==> '=' !in str
    ensures '=' !in str ==> RangeParse(size, str).ranges == [] && SingleRange(size, str) == Err(BadRequest)
  {
    if '=' !in str {
      IndexOfAbsentChar(str, '=');
    } else {
      var i :| 0 <= i < |str| && str[i] == '=';
      assert str[i..i + 1] == "=";
      assert OccursAt(str, "=", i);
    }
  }

  /** The last piece adds what it keeps to what the others keep. */
  lemma ParsePiecesLast(size: nat, s: seq<string>)
    requires s != []
    ensures ParsePieces(size, s) == ParsePieces(size, s[..|s| - 1]) + Kept(size, s[|s| - 1])
  {
  }

  /** The ranges one piece contributes. */
  function Kept(size: nat, p: string): seq<Range> {
    match PieceRange(size, p)
    case None => []
    case Some(rg) => [rg]
  }

  /** `ranges` is what the first `i` pieces keep: the invariant of
      rangeParser's loop. */
  predicate ParsedPrefix(size: nat, pieces: seq<string>, i: nat, ranges: seq<Range>)
    requires i <= |pieces|
  {
    ranges == ParsePieces(size, pieces[..i])
  }

  /** The loop's step: what one more piece keeps is appended. */
  lemma KeptStep(size: nat, pieces: seq<string>, i: nat, before: seq<Range>, after: seq<Range>)
    requires i < |pieces| && ParsedPrefix(size, pieces, i, before)
    requires after == before + Kept(size, pieces[i])
    ensures ParsedPrefix(size, pieces, i + 1, after)
  {
    ParsePiecesStep(size, pieces, i);
  }

  /** The loop's start and end: no piece read, and every piece read. */
  lemma ParsedPrefixEnds(size: nat, pieces: seq<string>, ranges: seq<Range>)
    ensures ParsedPrefix(size, pieces, 0, [])
    ensures ParsedPrefix(size, pieces, |pieces|, ranges) ==> ranges == ParsePieces(size, pieces)
  {
    assert pieces[..|pieces|] == pieces;
  }

  /** One more piece adds what that piece keeps. */
  lemma ParsePiecesStep(size: nat, pieces: seq<string>, i: nat)
    requires i < |pieces|
    ensures ParsePieces(size, pieces[..i + 1]) == ParsePieces(size, pieces[..i]) + Kept(size, pieces[i])
  {
    assert pieces[..i + 1][..i] == pieces[..i];
  }

  lemma ParsePiecesSingle(size: nat, p: string)
    ensures ParsePieces(size, [p]) == Kept(size, p)
  {
    assert [p][..0] == [];
  }

  /** Any surviving range lies in the file, so the file is not empty. */
  lemma RangesNeedBytes(size: nat, str: string)
    ensures |RangeParse(size, str).ranges| > 0 ==> size >= 1
  {
    var r := RangeParse(size, str);
    if |r.ranges| > 0 {
      assert InFile(r.ranges[0], size);
    }
  }

  /** Nothing is satisfiable in an empty file. */
  lemma EmptyFile(str: string)
    ensures RangeParse(0, str).ranges == []
    ensures RangeParse(0, str).code != 0
    ensures SingleRange(0, str) == Err(BadRequest)
  {
    RangesNeedBytes(0, str);
  }

  /** The text before the first '=' (the unit) is never looked at. */
  lemma UnitIgnored(size: nat, unit1: string, unit2: string, rest: string)
    requires '=' !in unit1 && '=' !in unit2
    ensures RangeParse(size, unit1 + "=" + rest) == RangeParse(size, unit2 + "=" + rest)
  {
    IndexOfFirstChar(unit1, '=', rest);
    IndexOfFirstChar(unit2, '=', rest);
    assert (unit1 + "=" + rest)[|unit1| + 1..] == rest;
    assert (unit2 + "=" + rest)[|unit2| + 1..] == rest;
  }

  lemma DigitsHaveNoSeparators(n: nat)
    ensures '-' !in NatToString(n) && ',' !in NatToString(n) && '=' !in NatToString(n)
    ensures NatToString(n)[0] != '-'
  {
    var s := NatToString(n);
    assert forall i :: 0 <= i < |s| ==> IsDigit(s[i]);
  }

  /** A header "bytes=<piece>" with one piece and no comma. */
  lemma OnePiece(size: nat, piece: string)
    requires ',' !in piece
    ensures RangeParse(size, "bytes=" + piece) ==
      (match PieceRange(size, piece)
       case None => RangeResult(-1, [])
       case Some(rg) => RangeResult(0, [rg]))
  {
    IndexOfFirstChar("bytes", '=', piece);
    assert ("bytes" + "=" + piece) == "bytes=" + piece;
    assert ("bytes=" + piece)[6..] == piece;
    SplitNoSep(piece, ',');
    ParsePiecesSingle(size, piece);
  }

  function Min(a: int, b: int): int {
    if a <= b then a else b
  }

  /** The piece text "S-E". */
  function PieceText(s: nat, e: nat): string {
    NatToString(s) + "-" + NatToString(e)
  }

  lemma ExplicitPiece(size: nat, s: nat, e: nat)
    ensures PieceRange(size, PieceText(s, e)) == Resolve(size, Some(s), Some(e))
    ensures ',' !in PieceText(s, e)
  {
    var ns, ne := NatToString(s), NatToString(e);
    DigitsHaveNoSeparators(s);
    DigitsHaveNoSeparators(e);
    assert Split(ns + "-" + ne, "-") == [ns, ne] by {
      SplitAround(ns, '-', ne);
      SplitNoSep(ne, '-');
    }
    PieceRangeOfParts(size, ns + "-" + ne, ns, ne);
    assert ParseInt(ns) == Some(s) by { ParseIntOfNatToString(s, ""); assert ns + "" == ns; }
    assert ParseInt(ne) == Some(e) by { ParseIntOfNatToString(e, ""); assert ne + "" == ne; }
  }

  /** `bytes=S-E`: the range S..min(E, size-1), or unsatisfiable (code -1)
      when that is empty. With S <= E < size it is exactly {S, E}. */
  lemma ExplicitRange(size: nat, s: nat, e: nat)
    ensures var r := RangeParse(size, "bytes=" + PieceText(s, e));
      if s <= Min(e, size - 1) then r == RangeResult(0, [Range(s, Min(e, size - 1))])
      else r == RangeResult(-1, [])
  {
    ExplicitPiece(size, s, e);
    OnePiece(size, PieceText(s, e));
    ResolveExplicit(size, s, e);
  }

  lemma ResolveExplicit(size: nat, s: nat, e: nat)
    ensures Resolve(size, Some(s), Some(e)) ==
      if s <= Min(e, size - 1) then Some(Range(s, Min(e, size - 1))) else None
  {
  }

  lemma SuffixPiece(size: nat, n: nat)
    ensures PieceRange(size, "-" + NatToString(n)) == Resolve(size, None, Some(n))
  {
    var nn := NatToString(n);
    DigitsHaveNoSeparators(n);
    assert Split("-" + nn, "-") == ["", nn] by {
      SplitAround("", '-', nn);
      assert "" + "-" + nn == "-" + nn;
      SplitNoSep(nn, '-');
    }
    PieceRangeOfParts(size, "-" + nn, "", nn);
    assert ParseInt(nn) == Some(n) by { ParseIntOfNatToString(n, ""); assert nn + "" == nn; }
    assert ParseInt("") == None;
  }

  /** `bytes=-N`: the last N bytes, size-N..size-1; unsatisfiable when
      N > size (start would be negative) or N == 0. */
  lemma SuffixRange(size: nat, n: nat)
    ensures var r := RangeParse(size, "bytes=" + ("-" + NatToString(n)));
      if 1 <= n <= size then r == RangeResult(0, [Range(size - n, size - 1)])
      else r == RangeResult(-1, [])
  {
    DigitsHaveNoSeparators(n);
    OnePiece(size, "-" + NatToString(n));
    SuffixPiece(size, n);
    ResolveSuffix(size, n);
  }

  lemma ResolveSuffix(size: nat, n: nat)
    ensures Resolve(size, None, Some(n)) ==
      if 1 <= n <= size then Some(Range(size - n, size - 1)) else None
  {
  }

  lemma OpenPieces(size: nat, s: nat)
    ensures PieceRange(size, NatToString(s) + "-") == Resolve(size, Some(s), None)
    ensures PieceRange(size, NatToString(s)) == Resolve(size, Some(s), None)
  {
    var ns := NatToString(s);
    DigitsHaveNoSeparators(s);
    assert ParseInt(ns) == Some(s) by { ParseIntOfNatToString(s, ""); assert ns + "" == ns; }
    assert ParseInt("") == None;
    assert Split(ns + "-", "-") == [ns, ""] by {
      SplitAround(ns, '-', "");
      assert ns + "-" + "" == ns + "-";
      SplitNoSep("", '-');
    }
    PieceRangeOfParts(size, ns + "-", ns, "");
    SplitNoSep(ns, '-');
    PieceRangeOfWhole(size, ns);
  }

  /** `bytes=S-` and `bytes=S` (no '-': the end is NaN) both run to the end of
      the file. */
  lemma OpenRange(size: nat, s: nat)
    ensures var expected := if s <= size - 1 then RangeResult(0, [Range(s, size - 1)]) else RangeResult(-1, []);
      RangeParse(size, "bytes=" + (NatToString(s) + "-")) == expected &&
      RangeParse(size, "bytes=" + NatToString(s)) == expected
  {
    DigitsHaveNoSeparators(s);
    OnePiece(size, NatToString(s) + "-");
    OnePiece(size, NatToString(s));
    OpenPieces(size, s);
    ResolveOpen(size, s);
  }

  lemma ResolveOpen(size: nat, s: nat)
    ensures Resolve(size, Some(s), None) == if s <= size - 1 then Some(Range(s, size - 1)) else None
  {
  }

  lemma TwoPiecesShape(size: nat, p1: string, p2: string)
    requires ',' !in p1 && ',' !in p2
    ensures RangeParse(size, "bytes=" + (p1 + "," + p2)).ranges == Kept(size, p1) + Kept(size, p2)
  {
    var rest := p1 + "," + p2;
    IndexOfFirstChar("bytes", '=', rest);
    assert "bytes" + "=" + rest == "bytes=" + rest;
    assert ("bytes=" + rest)[6..] == rest;
    SplitAround(p1, ',', p2);
    SplitNoSep(p2, ',');
    assert Split(rest, ",") == [p1] + [p2];
    ParsePiecesLast(size, [p1] + [p2]);
    assert ([p1] + [p2])[..1] == [p1];
    ParsePiecesSingle(size, p1);
  }

  /** Two satisfiable ranges survive together, so parseRange refuses them. */
  lemma MultipleRangesRejected(size: nat, s1: nat, e1: nat, s2: nat, e2: nat)
    requires s1 <= e1 < size && s2 <= e2 < size
    ensures var str := "bytes=" + (PieceText(s1, e1) + "," + PieceText(s2, e2));
      RangeParse(size, str) == RangeResult(0, [Range(s1, e1), Range(s2, e2)]) &&
      SingleRange(size, str) == Err(BadRequest)
  {
    ExplicitKept(size, s1, e1);
    ExplicitKept(size, s2, e2);
    TwoKept(size, PieceText(s1, e1), PieceText(s2, e2), Range(s1, e1), Range(s2, e2));
  }

  /** Two pieces that each keep a range give both, which is one too many. */
  lemma TwoKept(size: nat, p1: string, p2: string, a: Range, b: Range)
    requires ',' !in p1 && ',' !in p2 && Kept(size, p1) == [a] && Kept(size, p2) == [b]
    ensures var str := "bytes=" + (p1 + "," + p2);
      RangeParse(size, str) == RangeResult(0, [a, b]) && SingleRange(size, str) == Err(BadRequest)
  {
    TwoPiecesShape(size, p1, p2);
    var r := RangeParse(size, "bytes=" + (p1 + "," + p2));
    assert r.ranges == [a, b];
  }

  /** An explicit satisfiable piece is kept as written. */
  lemma ExplicitKept(size: nat, s: nat, e: nat)
    requires s <= e < size
    ensures Kept(size, PieceText(s, e)) == [Range(s, e)] && ',' !in PieceText(s, e)
  {
    ExplicitPiece(size, s, e);
    ResolveExplicit(size, s, e);
  }

  /** parseRange on `bytes=S-`, for a header passed as a value. */
  lemma OpenHeader(size: nat, s: nat, str: string)
    requires str == "bytes=" + (NatToString(s) + "-")
    ensures SingleRange(size, str) == if s <= size - 1 then Ok(Range(s, size - 1)) else Err(BadRequest)
  {
    OpenRange(size, s);
  }

  /** parseRange on `bytes=S-E`. */
  lemma ExplicitHeader(size: nat, s: nat, e: nat, str: string)
    requires str == "bytes=" + PieceText(s, e)
    ensures SingleRange(size, str) == if s <= Min(e, size - 1) then Ok(Range(s, Min(e, size - 1))) else Err(BadRequest)
  {
    ExplicitRange(size, s, e);
  }

  /** parseRange on `bytes=-N`. */
  lemma SuffixHeader(size: nat, n: nat, str: string)
    requires str == "bytes=" + ("-" + NatToString(n))
    ensures SingleRange(size, str) == if 1 <= n <= size then Ok(Range(size - n, size - 1)) else Err(BadRequest)
  {
    SuffixRange(size, n);
  }

  /** The default header is skipped rather than parsed: for a non-empty file
      parsing it would give the whole file anyway, but for an empty file
      parsing it would have been a BadRequest. */
  lemma DefaultRangeBypass(size: nat)
    ensures StreamBounds(size, DefaultRange) == Ok(Bounds(None, None))
    ensures size > 0 ==> SingleRange(size, DefaultRange) == Ok(Range(0, size - 1))
    ensures size == 0 ==> SingleRange(size, DefaultRange) == Err(BadRequest)
  {
    assert NatToString(0) == "0";
    OpenHeader(size, 0, DefaultRange);
  }

  lemma Digits()
    ensures NatToString(0) == "0" && NatToString(99) == "99" && NatToString(100) == "100"
    ensures NatToString(500) == "500" && NatToString(900) == "900" && NatToString(2000) == "2000"
  {
    assert NatToString(1) == "1" && NatToString(2) == "2" && NatToString(5) == "5" && NatToString(9) == "9";
    assert NatToString(10) == NatToString(1) + "0" == "10";
    assert NatToString(20) == NatToString(2) + "0" == "20";
    assert NatToString(50) == NatToString(5) + "0" == "50";
    assert NatToString(90) == NatToString(9) + "0" == "90";
    assert NatToString(99) == NatToString(9) + "9" == "99";
    assert NatToString(100) == NatToString(10) + "0" == "100";
    assert NatToString(200) == NatToString(20) + "0" == "200";
    assert NatToString(500) == NatToString(50) + "0" == "500";
    assert NatToString(900) == NatToString(90) + "0" == "900";
    assert NatToString(2000) == NatToString(200) + "0" == "2000";
  }

  /** The worked examples: a plain range, a suffix range, an end clamped to
      the file, and an inverted range. */
  lemma PlainExample()
    ensures SingleRange(1000, "bytes=0-99") == Ok(Range(0, 99))
  {
    assert PieceText(0, 99) == "0-99" by { Digits(); }
    ExplicitHeader(1000, 0, 99, "bytes=0-99");
  }

  lemma SuffixExample()
    ensures SingleRange(1000, "bytes=-500") == Ok(Range(500, 999))
  {
    assert NatToString(500) == "500" by { Digits(); }
    SuffixHeader(1000, 500, "bytes=-500");
  }

  lemma ClampedExample()
    ensures SingleRange(1000, "bytes=900-2000") == Ok(Range(900, 999))
  {
    assert PieceText(900, 2000) == "900-2000" by { Digits(); }
    ExplicitHeader(1000, 900, 2000, "bytes=900-2000");
  }

  lemma InvertedExample()
    ensures SingleRange(1000, "bytes=500-100") == Err(BadRequest)
  {
    assert PieceText(500, 100) == "500-100" by { Digits(); }
    ExplicitHeader(1000, 500, 100, "bytes=500-100");
  }
}
