/**
 `Document::get_colors` in `document.rs`: every line of the document is
 scanned with the colour pattern and one report is made per match, lines in
 order. As written it reports the match's BYTE offsets as columns, while the
 protocol (and `parse_line_colors` in `color.rs`) counts UTF-16 code units.
 `GetColors` models the code as written and `GetColorsUtf16` the corrected
 report built from `ParseLineColors`.
 */
module DocumentColors {
  import opened Unicode
  import opened LspTypes
  import opened Colors
  import opened Documents

  /** Reports that all lie on line `idx`, each inside that line, with columns in order. */
  predicate OnLine(cs: seq<ColorInformation>, idx: nat)
  {
    && (forall k :: 0 <= k < |cs| ==> cs[k].range.start.line == idx == cs[k].range.end.line)
    && (forall k :: 0 <= k < |cs| - 1 ==> cs[k].range.end.character <= cs[k + 1].range.start.character)
  }

  /**
   Reports on lines `first` to `first + count - 1`, each inside one line, in
   document order and never overlapping.
   */
  predicate InDocumentOrder(cs: seq<ColorInformation>, first: nat, count: nat)
  {
    && (forall k :: 0 <= k < |cs| ==> first <= cs[k].range.start.line == cs[k].range.end.line < first + count)
    && (forall k :: 0 <= k < |cs| - 1 ==>
          || cs[k].range.end.line < cs[k + 1].range.start.line
          || (cs[k].range.end.line == cs[k + 1].range.start.line
              && cs[k].range.end.character <= cs[k + 1].range.start.character))
  }

  /** A line's reports followed by the reports of the lines after it are in document order. */
  lemma {:induction false} OrderedCons(head: seq<ColorInformation>, first: nat, rest: seq<ColorInformation>, count: nat)
    requires OnLine(head, first) && InDocumentOrder(rest, first + 1, count)
    ensures InDocumentOrder(head + rest, first, count + 1)
  {
    var cs := head + rest;
    forall k | 0 <= k < |cs| - 1
      ensures || cs[k].range.end.line < cs[k + 1].range.start.line
              || (cs[k].range.end.line == cs[k + 1].range.start.line
                  && cs[k].range.end.character <= cs[k + 1].range.start.character)
    {
      if k + 1 < |head| {
        assert cs[k] == head[k] && cs[k + 1] == head[k + 1];
      } else if k + 1 == |head| {
        assert cs[k] == head[k] && cs[k + 1] == rest[0];
      } else {
        assert cs[k] == rest[k - |head|] && cs[k + 1] == rest[k + 1 - |head|];
      }
    }
  }

  /**
   The report `get_colors` makes for one match: the columns are the match's
   byte offsets in the line. It is the UTF-16 report exactly when no
   non-ASCII character comes before the match.
   */
  function ByteMatchInfo(line: string, lineIdx: nat, m: Span): (c: ColorInformation)
    requires m.start <= m.end <= |line| && IsColorLiteral(line[m.start..m.end])
    ensures c.range.start == Position(lineIdx, Utf8Len(line[..m.start]))
    ensures c.range.end == Position(lineIdx, Utf8Len(line[..m.end]))
    ensures c.range.end.character == c.range.start.character + (m.end - m.start)
    ensures c.color == MatchInfo(line, lineIdx, m).color
    ensures c.range.start.character >= MatchInfo(line, lineIdx, m).range.start.character
    ensures c == MatchInfo(line, lineIdx, m) <==> IsAscii(line[..m.start])
  {
    LiteralWidths(line, m);
    Utf16LenAtMostUtf8Len(line[..m.start]);
    Utf16LenIsUtf8LenIffAscii(line[..m.start]);
    ColorInformation(
      Range(Position(lineIdx, Utf8Len(line[..m.start])), Position(lineIdx, Utf8Len(line[..m.end]))),
      HexToColor(line[m.start..m.end]))
  }

  /** The byte reports for a run of matches, one per match and in the same order. */
  function ByteMatchInfos(line: string, lineIdx: nat, ms: seq<Span>): (cs: seq<ColorInformation>)
    requires LiteralSpans(line, ms)
    ensures |cs| == |ms|
    ensures forall k :: 0 <= k < |cs| ==> cs[k] == ByteMatchInfo(line, lineIdx, ms[k])
  {
    seq(|ms|, k requires 0 <= k < |ms| => ByteMatchInfo(line, lineIdx, ms[k]))
  }

  /** Byte reports of ordered, non-overlapping matches lie on their line with ordered columns. */
  lemma {:induction false} ByteMatchInfosOnLine(line: string, lineIdx: nat, ms: seq<Span>)
    requires LiteralSpans(line, ms)
    ensures OnLine(ByteMatchInfos(line, lineIdx, ms), lineIdx)
  {
    var cs := ByteMatchInfos(line, lineIdx, ms);
    forall k | 0 <= k < |cs| - 1
      ensures cs[k].range.end.character <= cs[k + 1].range.start.character
    {
      Utf8LenPrefixGrows(line, ms[k].end, ms[k + 1].start);
    }
  }

  /** The reports `get_colors` makes for one line, one per match and in match order. */
  function LineByteColors(line: string, lineIdx: nat): (cs: seq<ColorInformation>)
    ensures |cs| == |FindIter(line)|
    ensures forall k :: 0 <= k < |cs| ==> cs[k] == ByteMatchInfo(line, lineIdx, FindIter(line)[k])
    ensures OnLine(cs, lineIdx)
  {
    ByteMatchInfosOnLine(line, lineIdx, FindIter(line));
    ByteMatchInfos(line, lineIdx, FindIter(line))
  }

  /** The byte report for a lone literal: the UTF-8 length of the text before it, then the literal's width. */
  lemma {:induction false} SingleLiteralByteColors(pre: string, lit: string, post: string, lineIdx: nat)
    requires '#' !in pre && '#' !in post && IsColorLiteral(lit)
    requires |lit| == 9 || post == [] || !IsHexDigit(post[0])
    ensures LineByteColors(pre + lit + post, lineIdx)
      == [ColorInformation(Range(Position(lineIdx, Utf8Len(pre)), Position(lineIdx, Utf8Len(pre) + |lit|)), HexToColor(lit))]
  {
    SingleLiteral(pre, lit, post);
    ByteSingleMatch(pre + lit + post, lineIdx, Span(|pre|, |pre| + |lit|));
    ByteMatchInfoAfter(pre, lit, post, lineIdx);
  }

  lemma {:induction false} ByteSingleMatch(line: string, lineIdx: nat, m: Span)
    requires FindIter(line) == [m]
    ensures m.start <= m.end <= |line| && IsColorLiteral(line[m.start..m.end])
    ensures LineByteColors(line, lineIdx) == [ByteMatchInfo(line, lineIdx, m)]
  {
    var cs := LineByteColors(line, lineIdx);
    assert cs == [cs[0]];
  }

  lemma {:induction false} ByteMatchInfoAfter(pre: string, lit: string, post: string, lineIdx: nat)
    requires IsColorLiteral(lit)
    ensures var line, m := pre + lit + post, Span(|pre|, |pre| + |lit|);
      && line[m.start..m.end] == lit
      && ByteMatchInfo(line, lineIdx, m)
         == ColorInformation(Range(Position(lineIdx, Utf8Len(pre)), Position(lineIdx, Utf8Len(pre) + |lit|)), HexToColor(lit))
  {
    var line, m := pre + lit + post, Span(|pre|, |pre| + |lit|);
    Pieces(pre, lit, post);
    var c := ByteMatchInfo(line, lineIdx, m);
    assert c.range.start == Position(lineIdx, Utf8Len(pre));
    assert c.range.end.character == Utf8Len(pre) + |lit|;
    assert c.color == MatchInfo(line, lineIdx, m).color == HexToColor(lit);
  }

  /** On an ASCII line the byte report and the UTF-16 report coincide. */
  lemma {:induction false} AsciiLineColorsAgree(line: string, lineIdx: nat)
    requires IsAscii(line)
    ensures LineByteColors(line, lineIdx) == ParseLineColors(line, lineIdx)
  {
    var ms := FindIter(line);
    forall k | 0 <= k < |ms|
      ensures ByteMatchInfo(line, lineIdx, ms[k]) == MatchInfo(line, lineIdx, ms[k])
    {
      AsciiMatchAgrees(line, lineIdx, ms[k]);
    }
  }

  /** One match on an ASCII line: its byte report is its UTF-16 report. */
  lemma {:induction false} AsciiMatchAgrees(line: string, lineIdx: nat, m: Span)
    requires IsAscii(line)
    requires m.start <= m.end <= |line| && IsColorLiteral(line[m.start..m.end])
    ensures ByteMatchInfo(line, lineIdx, m) == MatchInfo(line, lineIdx, m)
  {
    forall i | 0 <= i < m.start
      ensures line[..m.start][i] as int < 0x80
    {
      assert line[..m.start][i] == line[i];
    }
  }

  /**
   The loop of `get_colors`: the reports of each line of `lines`, the first
   of them being line `first`, concatenated in line order.
   */
  function CollectColors(lines: seq<string>, first: nat, lineColors: (string, nat) -> seq<ColorInformation>): (cs: seq<ColorInformation>)
    ensures lines == [] ==> cs == []
    ensures |lines| == 1 ==> cs == lineColors(lines[0], first)
    decreases |lines|
  {
    if lines == [] then []
    else lineColors(lines[0], first) + CollectColors(lines[1..], first + 1, lineColors)
  }

  /** When every line's reports keep to their line, the collected reports are in document order. */
  lemma {:induction false} CollectInOrder(lines: seq<string>, first: nat, lineColors: (string, nat) -> seq<ColorInformation>)
    requires forall line, idx :: OnLine(lineColors(line, idx), idx)
    ensures InDocumentOrder(CollectColors(lines, first, lineColors), first, |lines|)
    decreases |lines|
  {
    if lines != [] {
      CollectInOrder(lines[1..], first + 1, lineColors);
      OrderedCons(lineColors(lines[0], first), first, CollectColors(lines[1..], first + 1, lineColors), |lines| - 1);
    }
  }

  /** Collecting over two runs of lines is collecting over each, the second numbered after the first. */
  lemma {:induction false} CollectColorsAppend(a: seq<string>, b: seq<string>, first: nat, lineColors: (string, nat) -> seq<ColorInformation>)
    ensures CollectColors(a + b, first, lineColors) == CollectColors(a, first, lineColors) + CollectColors(b, first + |a|, lineColors)
    decreases |a|
  {
    if a == [] {
      assert a + b == b;
    } else {
      var ab := a + b;
      assert ab[0] == a[0] && ab[1..] == a[1..] + b;
      CollectColorsAppend(a[1..], b, first + 1, lineColors);
    }
  }

  /** Both per-line reports keep to their line, so either collection is in document order. */
  lemma {:induction false} LineReportsOnLine()
    ensures forall line, idx :: OnLine(ParseLineColors(line, idx), idx)
    ensures forall line, idx :: OnLine(LineByteColors(line, idx), idx)
  {
    forall line, idx
      ensures OnLine(ParseLineColors(line, idx), idx)
    {
      var cs := ParseLineColors(line, idx);
    }
  }

  /** The reports of line `i` sit between those of the lines before it and those after it. */
  lemma {:induction false} CollectColorsAt(lines: seq<string>, first: nat, lineColors: (string, nat) -> seq<ColorInformation>, i: nat)
    requires i < |lines|
    ensures CollectColors(lines, first, lineColors)
      == CollectColors(lines[..i], first, lineColors) + lineColors(lines[i], first + i) + CollectColors(lines[i + 1..], first + i + 1, lineColors)
  {
    assert lines == lines[..i] + lines[i..];
    CollectColorsAppend(lines[..i], lines[i..], first, lineColors);
    assert lines[i..][1..] == lines[i + 1..];
  }

  /** `get_colors` as written: byte offsets as columns. */
  function GetColors(d: Document): (cs: seq<ColorInformation>)
    ensures InDocumentOrder(cs, 0, |d.lines|)
  {
    LineReportsOnLine();
    CollectInOrder(d.lines, 0, LineByteColors);
    CollectColors(d.lines, 0, LineByteColors)
  }

  /** `get_colors` with UTF-16 columns: each line's reports are `parse_line_colors` of that line. */
  function GetColorsUtf16(d: Document): (cs: seq<ColorInformation>)
    ensures InDocumentOrder(cs, 0, |d.lines|)
  {
    LineReportsOnLine();
    CollectInOrder(d.lines, 0, ParseLineColors);
    CollectColors(d.lines, 0, ParseLineColors)
  }

  /** The corrected reports of line `i` are exactly what `parse_line_colors` gives for that line. */
  lemma {:induction false} GetColorsUtf16Line(d: Document, i: nat)
    requires i < |d.lines|
    ensures GetColorsUtf16(d)
      == CollectColors(d.lines[..i], 0, ParseLineColors) + ParseLineColors(d.lines[i], i)
         + CollectColors(d.lines[i + 1..], i + 1, ParseLineColors)
  {
    CollectFromStartAt(d.lines, ParseLineColors, i);
  }

  lemma {:induction false} CollectFromStartAt(lines: seq<string>, lineColors: (string, nat) -> seq<ColorInformation>, i: nat)
    requires i < |lines|
    ensures CollectColors(lines, 0, lineColors)
      == CollectColors(lines[..i], 0, lineColors) + lineColors(lines[i], i) + CollectColors(lines[i + 1..], i + 1, lineColors)
  {
    var first: nat := 0;
    CollectColorsAt(lines, first, lineColors, i);
    assert first + i == i;
  }

  /** On an all-ASCII document the two reports agree. */
  lemma {:induction false} AsciiCollectAgree(lines: seq<string>, first: nat)
    requires forall i :: 0 <= i < |lines| ==> IsAscii(lines[i])
    ensures CollectColors(lines, first, LineByteColors) == CollectColors(lines, first, ParseLineColors)
    decreases |lines|
  {
    if lines != [] {
      AsciiLineColorsAgree(lines[0], first);
      AsciiCollectAgree(lines[1..], first + 1);
    }
  }

  lemma {:induction false} AsciiDocumentColorsAgree(d: Document)
    requires forall i :: 0 <= i < |d.lines| ==> IsAscii(d.lines[i])
    ensures GetColors(d) == GetColorsUtf16(d)
  {
    AsciiCollectAgree(d.lines, 0);
  }
}
