/**
 The examples `color.rs` checks `parse_line_colors` against, as lemmas. Each
 line is a parameter fixed by a precondition rather than written inline, so
 the verifier unfolds the scan only where the proof steps ask it to.
 */
module ColorScenarios {
  import opened Unicode
  import opened LspTypes
  import opened Colors

  const Red := Color(255, 0, 0, 255)

  /** The report for a line that is one literal and nothing else. */
  function Whole(lineIdx: nat, color: Color): ColorInformation
  {
    ColorInformation(Range(Position(lineIdx, 0), Position(lineIdx, 7)), color)
  }

  lemma {:induction false} LiteralLine(lit: string, lineIdx: nat)
    requires IsColorLiteral(lit) && |lit| == 7
    ensures ParseLineColors(lit, lineIdx) == [Whole(lineIdx, HexToColor(lit))]
  {
    var none: string := [];
    assert none + lit + none == lit;
    SingleLiteralColors(none, lit, none, lineIdx);
    assert Utf16Len(none) == 0;
  }

  /** `#FF0000` is one opaque red report covering columns 0 to 7. */
  lemma {:induction false} RgbLine(line: string)
    requires line == "#FF0000"
    ensures ParseLineColors(line, 0) == [ColorInformation(Range(Position(0, 0), Position(0, 7)), Red)]
  {
    RedLiteral(line);
    LiteralLine(line, 0);
  }

  lemma {:induction false} RedLiteral(lit: string)
    requires lit == "#FF0000"
    ensures IsColorLiteral(lit) && |lit| == 7 && HexToColor(lit) == Red
  {
  }

  lemma {:induction false} RgbaMatches(line: string)
    requires line == "#11223344"
    ensures FindFrom(line, 0) == [Span(0, 9)]
  {
    LiteralAt(line, 0, "#11223344");
  }

  /** An eight-digit literal carries its alpha channel. */
  lemma {:induction false} RgbaLine(line: string)
    requires line == "#11223344"
    ensures ParseLineColors(line, 0) == [ColorInformation(Range(Position(0, 0), Position(0, 9)), Color(0x11, 0x22, 0x33, 0x44))]
  {
    RgbaMatches(line);
    assert line[0..9] == line;
  }

  /** A three-byte bullet before the literal counts as one UTF-16 column. */
  lemma {:induction false} UnicodeBefore(line: string)
    requires line == "\U{2022}#FF0000"
    ensures ParseLineColors(line, 0) == [ColorInformation(Range(Position(0, 1), Position(0, 8)), Red)]
  {
    var pre, lit, none: string := line[..1], line[1..], [];
    RedLiteral(lit);
    assert '#' !in pre;
    Utf16LenBmp(pre);
    SingleLiteralColors(pre, lit, none, 0);
    assert pre + lit + none == line;
  }

  lemma {:induction false} SeveralUnicodeMatches(line: string)
    requires line == "\U{2022} \U{2600}\U{FE0F}#FF0000"
    ensures FindFrom(line, 0) == [Span(4, 11)]
  {
    FindFromSkip(line, 0, 4);
    LiteralAt(line, 4, "#FF0000");
  }

  /** Bullet, space, sun and variation selector before the literal are four UTF-16 columns. */
  lemma {:induction false} SeveralUnicodeBefore(line: string)
    requires line == "\U{2022} \U{2600}\U{FE0F}#FF0000"
    ensures ParseLineColors(line, 0) == [ColorInformation(Range(Position(0, 4), Position(0, 11)), Red)]
  {
    SeveralUnicodeMatches(line);
    Utf16LenBmp(line[..4]);
  }

  /** A non-ASCII character after the literal does not move it. */
  lemma {:induction false} UnicodeAfter(line: string)
    requires line == "#FF0000\U{2022}"
    ensures ParseLineColors(line, 0) == [ColorInformation(Range(Position(0, 0), Position(0, 7)), Red)]
  {
    var none, lit, post: string := [], line[..7], line[7..];
    BulletAfter(line, lit, post);
    RedLiteral(lit);
    assert none + lit + post == line;
    LoneLiteral(line, none, lit, post, 0);
  }

  lemma {:induction false} BulletAfter(line: string, lit: string, post: string)
    requires line == "#FF0000\U{2022}" && lit == line[..7] && post == line[7..]
    ensures lit == "#FF0000" && post == "\U{2022}"
    ensures '#' !in post && post != [] && !IsHexDigit(post[0])
  {
  }

  /** `SingleLiteralColors` for a line given whole, with its split stated as a precondition. */
  lemma {:induction false} LoneLiteral(line: string, pre: string, lit: string, post: string, lineIdx: nat)
    requires line == pre + lit + post
    requires '#' !in pre && '#' !in post && IsColorLiteral(lit)
    requires |lit| == 9 || post == [] || !IsHexDigit(post[0])
    ensures ParseLineColors(line, lineIdx)
      == [ColorInformation(Range(Position(lineIdx, Utf16Len(pre)), Position(lineIdx, Utf16Len(pre) + |lit|)), HexToColor(lit))]
  {
    SingleLiteralColors(pre, lit, post, lineIdx);
  }

  lemma {:induction false} SeveralColorsTail(line: string)
    requires line == "#FF0000 #00FF00 #0000FF"
    ensures FindFrom(line, 8) == [Span(8, 15), Span(16, 23)]
  {
    LiteralAt(line, 8, "#00FF00");
    FindFromSkipOne(line, 15);
    LiteralAt(line, 16, "#0000FF");
  }

  lemma {:induction false} SeveralColorsMatches(line: string)
    requires line == "#FF0000 #00FF00 #0000FF"
    ensures FindFrom(line, 0) == [Span(0, 7), Span(8, 15), Span(16, 23)]
  {
    LiteralAt(line, 0, "#FF0000");
    FindFromSkipOne(line, 7);
    SeveralColorsTail(line);
  }

  /** Three space-separated literals are reported at columns 0, 8 and 16. */
  lemma {:induction false} SeveralColors(line: string)
    requires line == "#FF0000 #00FF00 #0000FF"
    ensures var cs := ParseLineColors(line, 0);
      |cs| == 3 && cs[0].range.start.character == 0 && cs[1].range.start.character == 8 && cs[2].range.start.character == 16
  {
    SeveralColorsMatches(line);
    AsciiLengths(line[..8]);
    AsciiLengths(line[..16]);
  }

  /** A line without '#' has no reports. */
  lemma {:induction false} NoColors(line: string)
    requires line == "no colors here"
    ensures ParseLineColors(line, 2) == []
  {
    FindFromSkip(line, 0, |line|);
  }

  lemma {:induction false} EmbeddedMatches(line: string)
    requires line == "Color: #ABCDEF;"
    ensures FindFrom(line, 0) == [Span(7, 14)]
  {
    FindFromSkip(line, 0, 7);
    LiteralAt(line, 7, "#ABCDEF");
    FindFromSkipOne(line, 14);
  }

  /** A literal inside other text is found at its own columns on the given line. */
  lemma {:induction false} EmbeddedColor(line: string)
    requires line == "Color: #ABCDEF;"
    ensures ParseLineColors(line, 3) == [ColorInformation(Range(Position(3, 7), Position(3, 14)), Color(0xAB, 0xCD, 0xEF, 255))]
  {
    EmbeddedMatches(line);
    AsciiLengths(line[..7]);
  }

  /** A run of seven hex digits is a six-digit literal followed by a stray digit. */
  lemma {:induction false} SevenDigitRun(line: string)
    requires line == "#1234567"
    ensures FindIter(line) == [Span(0, 7)]
  {
    LiteralAt(line, 0, "#123456");
    FindFromSkipOne(line, 7);
  }
}
