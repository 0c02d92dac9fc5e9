/**
 * Post-processing of the TypeScript file written by json2ts: the `_Master_`
 * interface (the synthetic aggregate model) is cut out and a fixed banner is
 * put in front. The file is its list of lines as `readlines` returns them,
 * each with its line terminator still attached.
 */
module OutputCleaner {

  import opened Base

  /** The header line json2ts emits for the aggregate model. */
  const MasterHeader: string := "export interface _Master_ {"

  /** The line that closes an interface. */
  const ClosingBrace: string := "}"

  const Provenance: string := "This file was automatically generated from pydantic models by running pydantic2ts."
  const Instructions: string := "Do not modify it by hand - just update the pydantic models and then re-run the script"

  /** The banner that replaces json2ts's own (suppressed) banner comment. */
  const Banner: seq<string> := [
    "/* tslint:disable */\n",
    "/* eslint-disable */\n",
    "/**\n",
    "/* " + Provenance + "\n",
    "/* " + Instructions + "\n",
    "*/\n\n"
  ]

  predicate IsEolChar(c: char)
  {
    c == '\r' || c == '\n'
  }

  /** `line.rstrip("\r\n")`: drop every trailing carriage return and line feed. */
  function StripEol(line: string): (r: string)
    ensures r <= line
    ensures |r| == 0 || !IsEolChar(r[|r| - 1])
    ensures forall i :: |r| <= i < |line| ==> IsEolChar(line[i])
  {
    if |line| > 0 && IsEolChar(line[|line| - 1]) then StripEol(line[..|line| - 1]) else line
  }

  predicate IsHeader(line: string)
  {
    StripEol(line) == MasterHeader
  }

  predicate IsClose(line: string)
  {
    StripEol(line) == ClosingBrace
  }

  /**
   * Lines `s..e` are the block the scan removes: `s` is a header, `e` the first
   * closing brace after the first header of the file, and `s` the last header
   * before `e`.
   */
  ghost predicate IsMasterBlock(lines: seq<string>, s: int, e: int)
  {
    && 0 <= s < e < |lines|
    && IsHeader(lines[s])
    && IsClose(lines[e])
    && (forall k :: s < k < e ==> !IsHeader(lines[k]))
    && (forall j, k :: 0 <= j < k < e && IsHeader(lines[j]) ==> !IsClose(lines[k]))
  }

  ghost predicate HasMasterBlock(lines: seq<string>)
  {
    exists s, e :: IsMasterBlock(lines, s, e)
  }

  /** The file contents once the block `s..e` is cut out and the banner prepended. */
  function Stripped(lines: seq<string>, s: nat, e: nat): seq<string>
    requires s <= e < |lines|
  {
    Banner + lines[..s] + lines[e + 1..]
  }

  /** What the script leaves in the file, and whether it raised while doing so. */
  datatype FileWrite = FileWrite(content: seq<string>, raised: bool)

  /** The scan over the lines: remember the latest header, stop at the first `}` after one. */
  method FindMasterBlock(lines: seq<string>) returns (start: Option<nat>, end: Option<nat>)
    ensures end.Some? <==> HasMasterBlock(lines)
    ensures end.Some? ==> start.Some? && IsMasterBlock(lines, start.value, end.value)
    ensures end.None? ==> (start.Some? <==> exists j :: 0 <= j < |lines| && IsHeader(lines[j]))
  {
    start, end := None, None;
    var i := 0;
    while i < |lines|
      invariant 0 <= i <= |lines|
      invariant start.None? <==> forall j :: 0 <= j < i ==> !IsHeader(lines[j])
      invariant start.Some? ==> start.value < i && IsHeader(lines[start.value])
      invariant start.Some? ==> forall k :: start.value < k < i ==> !IsHeader(lines[k])
      invariant forall j, k :: 0 <= j < k < i && IsHeader(lines[j]) ==> !IsClose(lines[k])
    {
      var line := StripEol(lines[i]);
      if line == MasterHeader {
        start := Some(i);
      } else if start.Some? && line == ClosingBrace {
        end := Some(i);
        assert IsMasterBlock(lines, start.value, i);
        break;
      }
      i := i + 1;
    }
  }

  /** There is at most one block the scan can stop at. */
  lemma MasterBlockUnique(lines: seq<string>, s: int, e: int, s': int, e': int)
    requires IsMasterBlock(lines, s, e) && IsMasterBlock(lines, s', e')
    ensures s == s' && e == e'
  {
    assert IsHeader(lines[s]) && IsClose(lines[e]) && IsHeader(lines[s']) && IsClose(lines[e']);
  }

  /**
   * `clean_output_file` as written: the file is reopened for writing (which
   * truncates it) before `new_lines` is used, so when a marker is missing the
   * file is left empty and the write raises.
   */
  method CleanOutputFileAsWritten(lines: seq<string>) returns (w: FileWrite)
    ensures forall s, e :: IsMasterBlock(lines, s, e) ==> w == FileWrite(Stripped(lines, s, e), false)
    ensures !HasMasterBlock(lines) ==> w == FileWrite([], true)
  {
    var start, end := FindMasterBlock(lines);
    if start.Some? && end.Some? {
      w := FileWrite(Stripped(lines, start.value, end.value), false);
      forall s, e | IsMasterBlock(lines, s, e) ensures w == FileWrite(Stripped(lines, s, e), false) {
        MasterBlockUnique(lines, s, e, start.value, end.value);
      }
    } else {
      w := FileWrite([], true);
    }
  }

  /**
   * `clean_output_file` with a missing marker reported as a failure before the
   * file is touched: the file keeps the converter's output.
   */
  method CleanOutputFile(lines: seq<string>) returns (w: FileWrite)
    ensures forall s, e :: IsMasterBlock(lines, s, e) ==> w == FileWrite(Stripped(lines, s, e), false)
    ensures !HasMasterBlock(lines) ==> w == FileWrite(lines, true)
  {
    var start, end := FindMasterBlock(lines);
    if start.Some? && end.Some? {
      w := FileWrite(Stripped(lines, start.value, end.value), false);
      forall s, e | IsMasterBlock(lines, s, e) ensures w == FileWrite(Stripped(lines, s, e), false) {
        MasterBlockUnique(lines, s, e, start.value, end.value);
      }
    } else {
      w := FileWrite(lines, true);
    }
  }

  /**
   * The kept lines follow the banner in their original order: line `i` of the
   * rest is input line `i` before the block and input line `i + (e - s + 1)`
   * after it.
   */
  lemma StrippedKeepsOrder(lines: seq<string>, s: nat, e: nat, i: nat)
    requires s <= e < |lines|
    requires i < |lines| - (e - s + 1)
    ensures |Stripped(lines, s, e)| == |Banner| + |lines| - (e - s + 1)
    ensures Stripped(lines, s, e)[|Banner| + i] == lines[if i < s then i else i + (e - s + 1)]
  {
  }

  /** A line that does not start with a terminator keeps its first character. */
  lemma StripEolKeepsFirst(line: string)
    requires |line| > 0 && !IsEolChar(line[0])
    ensures |StripEol(line)| > 0 && StripEol(line)[0] == line[0]
  {
  }

  lemma BannerHasNoMarker(k: nat)
    requires k < |Banner|
    ensures !IsHeader(Banner[k]) && !IsClose(Banner[k])
  {
    assert Banner[k][0] == '/' || Banner[k][0] == '*' by {
      assert Banner[0][0] == '/' && Banner[1][0] == '/' && Banner[2][0] == '/';
      assert Banner[3][0] == '/' && Banner[4][0] == '/' && Banner[5][0] == '*';
    }
    StripEolKeepsFirst(Banner[k]);
    assert MasterHeader[0] == 'e' && ClosingBrace[0] == '}';
  }

  /**
   * A file whose only `_Master_` header was removed has no block left: running
   * the post-processor a second time finds no markers. The lemma is stated on
   * the written list; reading the file back splits the last banner entry,
   * the comment close followed by two newlines, into the comment close with
   * one newline and an empty line, neither of which is a marker either.
   */
  lemma {:induction false} SecondRunFindsNoBlock(lines: seq<string>, s: nat, e: nat)
    requires IsMasterBlock(lines, s, e)
    requires forall k :: 0 <= k < |lines| && IsHeader(lines[k]) ==> k == s
    ensures !HasMasterBlock(Stripped(lines, s, e))
  {
    var out := Stripped(lines, s, e);
    forall k | 0 <= k < |out| ensures !IsHeader(out[k]) {
      if k < |Banner| {
        BannerHasNoMarker(k);
      } else {
        StrippedKeepsOrder(lines, s, e, k - |Banner|);
      }
    }
  }
}
