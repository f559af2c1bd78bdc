/** What toVTT computes from the text of an SRT file: a WebVTT header, then
    every "\r\n"-separated piece followed by "\r\n", with the commas of
    cue-timing pieces (those holding "-->") turned into periods. The two
    toVTT loops (SubtitleData and LegacyVideoDal) are proved equal to Vtt. */
module Vtt {
  import opened JsText

  const Header: string := "WEBVTT\n\n"
  const Crlf: string := "\r\n"

  /** One piece as it is written out. */
  function VttLine(line: string): (r: string)
    ensures |r| == |line|
    ensures Contains(line, "-->") ==> ',' !in r
    ensures Contains(line, "-->") ==> forall i :: 0 <= i < |line| ==> r[i] == (if line[i] == ',' then '.' else line[i])
    ensures !Contains(line, "-->") ==> r == line
  {
    if Contains(line, "-->") then ReplaceChar(line, ',', '.') else line
  }

  /** Every converted piece followed by "\r\n", in order. */
  function VttBody(lines: seq<string>): string {
    if lines == [] then "" else VttLine(lines[0]) + Crlf + VttBody(lines[1..])
  }

  /** The converted pieces, in order. */
  function VttLines(lines: seq<string>): (r: seq<string>)
    ensures |r| == |lines| && forall k :: 0 <= k < |lines| ==> r[k] == VttLine(lines[k])
  {
    if lines == [] then [] else [VttLine(lines[0])] + VttLines(lines[1..])
  }

  /** toVTT(input). */
  function Vtt(input: string): string {
    Header + VttBody(Split(input, Crlf))
  }

  /** Total length of a list of strings. */
  function SumLen(parts: seq<string>): nat {
    if parts == [] then 0 else |parts[0]| + SumLen(parts[1..])
  }

  /** The loop's step: one more piece appends its line and "\r\n". */
  lemma {:induction false} VttBodyAppend(lines: seq<string>, x: string)
    ensures VttBody(lines + [x]) == VttBody(lines) + VttLine(x) + Crlf
    decreases |lines|
  {
    if lines == [] {
      assert [] + [x] == [x];
      assert [x][1..] == [];
    } else {
      assert (lines + [x])[0] == lines[0];
      assert (lines + [x])[1..] == lines[1..] + [x];
      VttBodyAppend(lines[1..], x);
    }
  }

  /** The step of the toVTT loops: the output so far, the converted piece
      and "\r\n" make the output for one more piece. */
  lemma VttStep(lines: seq<string>, i: nat, output: string, line: string)
    requires i < |lines| && output == Header + VttBody(lines[..i]) && line == VttLine(lines[i])
    ensures output + line + Crlf == Header + VttBody(lines[..i + 1])
  {
    VttBodyAppend(lines[..i], lines[i]);
    assert lines[..i + 1] == lines[..i] + [lines[i]];
  }

  /** The body is the converted pieces joined by "\r\n", plus a final "\r\n". */
  lemma {:induction false} VttBodyIsJoin(lines: seq<string>)
    requires |lines| >= 1
    ensures VttBody(lines) == Join(VttLines(lines), Crlf) + Crlf
    decreases |lines|
  {
    if |lines| == 1 {
      assert lines[1..] == [];
    } else {
      VttBodyIsJoin(lines[1..]);
      assert VttLines(lines)[1..] == VttLines(lines[1..]);
    }
  }

  lemma {:induction false} VttBodyLength(lines: seq<string>)
    ensures |VttBody(lines)| == SumLen(lines) + 2 * |lines|
    decreases |lines|
  {
    if lines != [] {
      VttBodyLength(lines[1..]);
    }
  }

  lemma {:induction false} JoinLength(parts: seq<string>, sep: string)
    requires |parts| >= 1
    ensures |Join(parts, sep)| == SumLen(parts) + |sep| * (|parts| - 1)
    decreases |parts|
  {
    if |parts| > 1 {
      JoinLength(parts[1..], sep);
    } else {
      assert parts[1..] == [];
    }
  }

  /** The output starts with the header and is ten characters longer than
      the input: eight for the header, and one "\r\n" more than the input
      had separators. */
  lemma VttShape(input: string)
    ensures |Vtt(input)| == |input| + 10
    ensures Vtt(input)[..8] == Header
  {
    var lines := Split(input, Crlf);
    VttBodyLength(lines);
    JoinLength(lines, Crlf);
    JoinSplit(input, Crlf);
  }

  /** Pieces are converted independently and joined back in order. */
  lemma VttPieces(input: string)
    ensures Vtt(input) == Header + Join(VttLines(Split(input, Crlf)), Crlf) + Crlf
  {
    VttBodyIsJoin(Split(input, Crlf));
  }

  /** Text without cue-timing pieces is copied through unchanged. */
  lemma VttUnchanged(input: string)
    requires forall k :: 0 <= k < |Split(input, Crlf)| ==> !Contains(Split(input, Crlf)[k], "-->")
    ensures Vtt(input) == Header + input + Crlf
  {
    var lines := Split(input, Crlf);
    VttPieces(input);
    assert VttLines(lines) == lines;
    JoinSplit(input, Crlf);
  }

  /** An input ending with "\r\n" splits into pieces whose last one is empty. */
  lemma SplitEndingCrlf(s: string)
    requires |s| >= 2 && s[|s| - 2..] == Crlf
    ensures var lines := Split(s, Crlf); |lines| >= 2 && lines[|lines| - 1] == ""
  {
    SplitEndingSep(s, Crlf);
  }

  /** The same for any two-character separator that cannot overlap itself. */
  lemma {:induction false} SplitEndingSep(s: string, sep: string)
    requires |sep| == 2 && sep[0] != sep[1]
    requires |s| >= 2 && s[|s| - 2..] == sep
    ensures var lines := Split(s, sep); |lines| >= 2 && lines[|lines| - 1] == ""
    decreases |s|
  {
    var n := |s|;
    assert s[n - 2] == sep[0] && s[n - 1] == sep[1] by {
      assert s[n - 2..][0] == s[n - 2] && s[n - 2..][1] == s[n - 1];
    }
    assert OccursAt(s, sep, n - 2);
    var i := IndexOf(s, sep).value;
    assert s[i + 1] == sep[1] by {
      assert s[i..i + 2][1] == s[i + 1];
    }
    var rest := s[i + 2..];
    var tail := Split(rest, sep);
    assert Split(s, sep) == [s[..i]] + tail;
    if i + 2 == n {
      assert IndexOf(rest, sep) == None;
      assert tail == [""];
    } else {
      assert rest[|rest| - 2..] == s[n - 2..];
      SplitEndingSep(rest, sep);
      assert ([s[..i]] + tail)[|tail|] == tail[|tail| - 1];
    }
  }

  /** An input ending with "\r\n" gains one more, so the output ends with
      "\r\n\r\n". */
  lemma VttTrailingCrlf(input: string)
    requires |input| >= 2 && input[|input| - 2..] == Crlf
    ensures var out := Vtt(input); |out| >= 4 && out[|out| - 4..] == Crlf + Crlf
  {
    var lines := Split(input, Crlf);
    SplitEndingCrlf(input);
    var init := lines[..|lines| - 1];
    var prev := init[..|init| - 1];
    assert lines == init + [""];
    assert init == prev + [init[|init| - 1]];
    VttBodyAppend(init, "");
    VttBodyAppend(prev, init[|init| - 1]);
    assert ReplaceChar("", ',', '.') == "";
    assert VttLine("") == "";
  }
}
