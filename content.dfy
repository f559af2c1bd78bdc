/** getContentRange: the value of the `Content-Range` response header for a
    partial response (section 4.2 of RFC 7233), `bytes S-E/SIZE`. */
module Content {
  import opened JsText

  /** The three numbers a Content-Range header carries. */
  datatype ContentRangeValue = ContentRangeValue(start: nat, end: nat, fileSize: nat)

  /** `bytes ${start}-${end}/${fileSize}` (apps/server/src/common/content.ts). */
  function ContentRange(start: nat, end: nat, fileSize: nat): string {
    "bytes " + NatToString(start) + "-" + NatToString(end) + "/" + NatToString(fileSize)
  }

  /** A non-empty run of decimal digits. */
  predicate IsNumeral(s: string) {
    |s| > 0 && AllDigits(s)
  }

  /** Reads a `bytes S-E/SIZE` header back; None for anything else. */
  function ParseContentRange(h: string): (r: Option<ContentRangeValue>)
    ensures r.Some? ==> |h| >= 6 && h[..6] == "bytes "
  {
    if |h| < 6 || h[..6] != "bytes " then None
    else
      var parts := Split(h[6..], "-");
      if |parts| != 2 || !IsNumeral(parts[0]) then None
      else
        var tail := Split(parts[1], "/");
        if |tail| != 2 || !IsNumeral(tail[0]) || !IsNumeral(tail[1]) then None
        else Some(ContentRangeValue(DecimalValue(parts[0]), DecimalValue(tail[0]), DecimalValue(tail[1])))
  }

  lemma DigitsExclude(s: string, c: char)
    requires AllDigits(s) && !IsDigit(c)
    ensures c !in s
  {
    assert forall i :: 0 <= i < |s| ==> IsDigit(s[i]);
  }

  lemma {:induction false} NoCharInConcat(a: string, b: string, c: char)
    requires c !in a && c !in b
    ensures c !in a + b
  {
    assert forall i :: 0 <= i < |a + b| ==> (a + b)[i] == (if i < |a| then a[i] else b[i - |a|]);
  }

  /** Two numerals joined by two distinct non-digit separators split back
      into their parts. */
  lemma SplitNumerals(a: string, b: string, c: string, d1: char, d2: char)
    requires AllDigits(a) && AllDigits(b) && AllDigits(c) && !IsDigit(d1) && !IsDigit(d2) && d1 != d2
    ensures Split(a + [d1] + (b + [d2] + c), [d1]) == [a, b + [d2] + c]
    ensures Split(b + [d2] + c, [d2]) == [b, c]
  {
    DigitsExclude(a, d1);
    DigitsExclude(b, d1);
    DigitsExclude(c, d1);
    DigitsExclude(b, d2);
    DigitsExclude(c, d2);
    NoCharInConcat(b, [d2], d1);
    NoCharInConcat(b + [d2], c, d1);
    SplitAround(a, d1, b + [d2] + c);
    SplitNoSep(b + [d2] + c, d1);
    SplitAround(b, d2, c);
    SplitNoSep(c, d2);
  }

  /** The header reads back as the numbers it was made from. */
  lemma ContentRangeRoundTrip(start: nat, end: nat, fileSize: nat)
    ensures ParseContentRange(ContentRange(start, end, fileSize)) == Some(ContentRangeValue(start, end, fileSize))
  {
    var ns, ne, nf := NatToString(start), NatToString(end), NatToString(fileSize);
    var rest := ne + "/" + nf;
    var body := ns + "-" + rest;
    var h := ContentRange(start, end, fileSize);
    assert h == "bytes " + body;
    assert h[..6] == "bytes " && h[6..] == body;
    SplitNumerals(ns, ne, nf, '-', '/');
    assert Split(h[6..], "-") == [ns, rest];
    assert Split(rest, "/") == [ne, nf];
    DecimalValueOfNatToString(start);
    DecimalValueOfNatToString(end);
    DecimalValueOfNatToString(fileSize);
  }

  /** Different numbers give different headers. */
  lemma ContentRangeInjective(s1: nat, e1: nat, f1: nat, s2: nat, e2: nat, f2: nat)
    requires ContentRange(s1, e1, f1) == ContentRange(s2, e2, f2)
    ensures s1 == s2 && e1 == e2 && f1 == f2
  {
    ContentRangeRoundTrip(s1, e1, f1);
    ContentRangeRoundTrip(s2, e2, f2);
  }

  /** A non-digit occurs in a prefix followed by three numerals and two
      separators as often as in the prefix and the separators. */
  lemma CountAcrossNumerals(p: string, a: string, b: string, c: string, d1: char, d2: char, x: char)
    requires AllDigits(a) && AllDigits(b) && AllDigits(c) && !IsDigit(x)
    ensures CountChar(p + a + [d1] + b + [d2] + c, x) ==
      CountChar(p, x) + (if d1 == x then 1 else 0) + (if d2 == x then 1 else 0)
  {
    DigitsExclude(a, x);
    DigitsExclude(b, x);
    DigitsExclude(c, x);
    CountCharAbsent(a, x);
    CountCharAbsent(b, x);
    CountCharAbsent(c, x);
    CountCharAppend(p + a + [d1] + b + [d2], c, x);
    CountCharAppend(p + a + [d1] + b, [d2], x);
    CountCharAppend(p + a + [d1], b, x);
    CountCharAppend(p + a, [d1], x);
    CountCharAppend(p, a, x);
  }

  /** The header holds exactly one '-', one '/' and one ' ', the space
      right after "bytes". */
  lemma ContentRangeSeparators(start: nat, end: nat, fileSize: nat)
    ensures var h := ContentRange(start, end, fileSize);
      CountChar(h, '-') == 1 && CountChar(h, '/') == 1 && CountChar(h, ' ') == 1 && h[5] == ' '
  {
    var ns, ne, nf := NatToString(start), NatToString(end), NatToString(fileSize);
    var bytes := "bytes";
    assert '-' !in bytes && '/' !in bytes && ' ' !in bytes;
    forall c | c == '-' || c == '/' || c == ' '
      ensures CountChar(ContentRange(start, end, fileSize), c) == 1
    {
      CountCharAbsent(bytes, c);
      CountCharAppend(bytes, " ", c);
      assert bytes + " " == "bytes ";
      CountAcrossNumerals("bytes ", ns, ne, nf, '-', '/', c);
    }
  }
}
