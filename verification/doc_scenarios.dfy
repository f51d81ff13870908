/**
 The document examples of `document.rs` as lemmas, and the input that shows
 `get_colors` reporting byte offsets where the protocol expects UTF-16 columns.
 */
module DocumentScenarios {
  import opened Wrappers
  import opened Unicode
  import opened TextLines
  import opened LspTypes
  import opened Colors
  import opened Documents
  import opened DocumentColors
  import opened ColorScenarios
  import opened ProtocolEdits

  /** A text without line breaks is a one-line document. */
  lemma {:induction false} OneLine(text: string)
    requires text != [] && '\n' !in text
    ensures FromStr(text).lines == [text]
  {
    NoNewlineIndex(text);
  }

  /** Both reports of the bullet line find red; they differ only in how the columns are counted. */
  lemma {:induction false} BulletLine(text: string)
    requires text == "\U{2022}#FF0000"
    ensures var pre, lit: string := "\U{2022}", "#FF0000";
      && text == pre + lit + []
      && Utf8Len(pre) == 3 && Utf16Len(pre) == 1
      && HexToColor(lit) == Red
      && FromStr(text).lines == [text]
  {
    var pre: string := "\U{2022}";
    Utf16LenBmp(pre);
    OneLine(text);
  }

  /** `get_colors` as written puts the bullet line's literal at bytes 3 to 10. */
  lemma {:induction false} BulletLineByteColumns(text: string)
    requires text == "\U{2022}#FF0000"
    ensures GetColors(FromStr(text)) == [ColorInformation(Range(Position(0, 3), Position(0, 10)), Red)]
  {
    BulletLine(text);
    SingleLiteralByteColors("\U{2022}", "#FF0000", [], 0);
  }

  /** The corrected report puts it at UTF-16 columns 1 to 8, the columns an editor counts. */
  lemma {:induction false} BulletLineUtf16Columns(text: string)
    requires text == "\U{2022}#FF0000"
    ensures GetColorsUtf16(FromStr(text)) == [ColorInformation(Range(Position(0, 1), Position(0, 8)), Red)]
  {
    BulletLine(text);
    SingleLiteralColors("\U{2022}", "#FF0000", [], 0);
  }

  /** Byte 1 of the bullet line lies inside the three-byte bullet. */
  lemma {:induction false} InsideBullet(text: string)
    requires text == "\U{2022}#FF0000"
    ensures ClampedIndex(text, 1).None?
  {
    assert text[..|text|] == text;
    Utf8LenPrefixGrows(text, 0, |text|);
    var r := ClampedIndex(text, 1);
    if r.Some? && r.value > 0 {
      Utf8LenPrefixGrows(text, 1, r.value);
      BulletPrefix(text);
    }
  }

  lemma {:induction false} BulletPrefix(text: string)
    requires text == "\U{2022}#FF0000"
    ensures Utf8Len(text[..1]) == 3 && Utf16Len(text[..1]) == 1
    ensures text[..1] + "x" + text[1..] == "\U{2022}x#FF0000"
  {
    assert text[..1] == "\U{2022}";
  }

  /** `edit` as written takes column 1 of the bullet line for byte 1, where Rust's slice panics. */
  lemma {:induction false} BulletLineEditBytes(text: string, change: ContentChange)
    requires text == "\U{2022}#FF0000"
    requires change == ContentChange(Some(Range(Position(0, 1), Position(0, 1))), "x")
    ensures Edit(FromStr(text), change) == Failure(NotCharBoundary)
  {
    BulletLine(text);
    InsideBullet(text);
  }

  /** The corrected edit reads column 1 as the boundary after the bullet and inserts there. */
  lemma {:induction false} BulletLineEditUtf16(text: string, change: ContentChange, after: string)
    requires text == "\U{2022}#FF0000"
    requires change == ContentChange(Some(Range(Position(0, 1), Position(0, 1))), "x")
    requires after == "\U{2022}x#FF0000"
    ensures EditUtf16(FromStr(text), change) == Success(Document([after]))
  {
    var d := FromStr(text);
    BulletLine(text);
    BulletPrefix(text);
    assert forall i :: 0 <= i < |text| ==> text[i] as int < 0x1_0000;
    Utf16LenBmp(text);
    CharIndexOfUnitOfPrefix(text, 1);
    assert ByteColumn(text, 1) == Some(3);
    var bytes := ByteChange(change, 3, 3);
    assert EditUtf16(d, change) == Edit(d, bytes);
    assert text[..|text|] == text;
    Utf8LenPrefixGrows(text, 1, |text|);
    CharIndexOfByteOfPrefix(text, 1);
    assert ClampedIndex(text, 3) == Some(1);
    InsertedSingleLine(bytes.text);
    var merged := MergeBoundaries(text[..1], InsertedLines(bytes.text), text[1..]);
    assert merged == [after];
    SpliceOne(d.lines, 0, after);
    assert d.lines == [text];
    assert PadLines(d.lines, 0) == d.lines;
    assert bytes.range == Some(Range(Position(0, 3), Position(0, 3)));
    assert Edit(d, bytes) == Success(Document(Splice(d.lines, 0, 0, merged)));
    assert d.lines[0 := after] == [after];
  }

  const Green := Color(0, 255, 0, 255)
  const Blue := Color(0, 0, 255, 255)

  lemma {:induction false} AppendMiddleStart(text: string)
    requires text == "#FF0000\n#0000FF"
    ensures FromStr(text).lines == ["#FF0000", "#0000FF"]
  {
    var ls := ["#FF0000", "#0000FF"];
    assert Join(ls) == text;
    LinesJoin(ls);
  }

  /** Before the edit the two lines report red, then blue. */
  lemma {:induction false} AppendMiddleStartColors(lines: seq<string>)
    requires lines == ["#FF0000", "#0000FF"]
    ensures GetColors(Document(lines)) == [Whole(0, Red), Whole(1, Blue)]
  {
    PrimaryLiterals();
    TwoLiteralLines(lines[0], lines[1]);
    assert lines == [lines[0], lines[1]];
  }

  lemma {:induction false} JoinThree(x: string, y: string, z: string)
    ensures Join([x, y, z]) == x + "\n" + y + "\n" + z
  {
    assert [x, y, z][1..] == [y, z];
    assert [y, z][1..] == [z];
    assert Join([y, z]) == y + "\n" + z;
    assert Join([x, y, z]) == x + "\n" + (y + "\n" + z);
  }

  /** Splitting "\n" + c + "\n" gives an empty line, `c` and another empty line. */
  lemma {:induction false} NewLineBetweenBreaks(c: string)
    requires '\n' !in c && (c == [] || c[|c| - 1] != '\r')
    ensures InsertedLines("\n" + c + "\n") == ["", c, ""]
  {
    var t := "\n" + c + "\n";
    var ls := ["", c, ""];
    JoinThree("", c, "");
    BreaksAroundNoCrLf(c, t);
    assert NoNewlines(ls);
    JoinInjective(InsertedLines(t), ls);
  }

  lemma {:induction false} BreaksAroundNoCrLf(c: string, t: string)
    requires '\n' !in c && (c == [] || c[|c| - 1] != '\r')
    requires t == "\n" + c + "\n"
    ensures NoCrLf(t)
  {
    forall i | 0 < i < |t| && t[i] == '\n'
      ensures t[i - 1] != '\r'
    {
      assert i == |t| - 1;
      if c != [] {
        assert t[i - 1] == c[|c| - 1];
      }
    }
  }

  lemma {:induction false} MergeAround(a: string, c: string, b: string)
    ensures MergeBoundaries(a, ["", c, ""], b) == [a, c, b]
  {
    var ls := ["", c, ""];
    var first := ls[0 := a + ls[0]];
    assert a + ls[0] == a;
    assert first == [a, c, ""];
    assert first[2] + b == b;
  }

  /**
   Inserting "\n" + c + "\n" at the end of the first of two lines (its byte
   length; the range ends at the start of the second) puts `c` on a line
   between them.
   */
  lemma {:induction false} InsertLineBetween(a: string, b: string, c: string, change: ContentChange)
    requires '\n' !in c && (c == [] || c[|c| - 1] != '\r')
    requires change == ContentChange(Some(Range(Position(0, Utf8Len(a)), Position(1, 0))), "\n" + c + "\n")
    ensures Edit(Document([a, b]), change) == Success(Document([a, c, b]))
  {
    var d := Document([a, b]);
    assert PadLines(d.lines, 1) == d.lines;
    EndOfLine(a);
    ClampedIndexZero(b);
    EditCutsAt(d, change, |a|, 0);
    NewLineBetweenBreaks(c);
    MergeAround(a, c, b);
    assert a[..|a|] == a && b[0..] == b;
    assert Splice(d.lines, 0, 1, [a, c, b]) == d.lines[..0] + [a, c, b] + d.lines[2..] == [a, c, b];
  }

  /** The byte length of a line is the boundary at its end. */
  lemma {:induction false} EndOfLine(a: string)
    ensures ClampedIndex(a, Utf8Len(a)) == Some(|a|)
  {
    assert a[..|a|] == a;
    CharIndexOfByteOfPrefix(a, |a|);
  }

  /**
   The `append_middle` example: "#FF0000\n#0000FF" first reports red then
   blue; inserting "\n#00FF00\n" between its two lines gives three lines,
   which print as the text with the new line in the middle.
   */
  lemma {:induction false} AppendMiddle(text: string, change: ContentChange)
    requires text == "#FF0000\n#0000FF"
    requires change == ContentChange(Some(Range(Position(0, 7), Position(1, 0))), "\n#00FF00\n")
    ensures Edit(FromStr(text), change) == Success(Document(["#FF0000", "#00FF00", "#0000FF"]))
    ensures ToString(Edit(FromStr(text), change).value) == "#FF0000\n#00FF00\n#0000FF"
    ensures GetColors(FromStr(text)) == [Whole(0, Red), Whole(1, Blue)]
  {
    var a, b, c: string := "#FF0000", "#0000FF", "#00FF00";
    PrimaryLiterals();
    AppendMiddleStart(text);
    AppendMiddleStartColors(FromStr(text).lines);
    LiteralHasNoBreak(c);
    BreaksAround(change.text, c);
    AsciiLengths(a);
    InsertLineBetween(a, b, c, change);
    AppendMiddlePrints([a, c, b]);
  }

  /** A colour literal holds neither a '\n' nor a '\r'. */
  lemma {:induction false} LiteralHasNoBreak(lit: string)
    requires IsColorLiteral(lit)
    ensures '\n' !in lit && lit[|lit| - 1] != '\r'
  {
    forall k | 0 <= k < |lit|
      ensures lit[k] != '\n' && lit[k] != '\r'
    {
      if k > 0 {
        assert IsHexDigit(lit[k]);
      }
    }
  }

  lemma {:induction false} BreaksAround(t: string, c: string)
    requires t == "\n#00FF00\n" && c == "#00FF00"
    ensures t == "\n" + c + "\n"
  {
  }

  lemma {:induction false} AppendMiddlePrints(lines: seq<string>)
    requires lines == ["#FF0000", "#00FF00", "#0000FF"]
    ensures Join(lines) == "#FF0000\n#00FF00\n#0000FF"
  {
    JoinThree(lines[0], lines[1], lines[2]);
  }

  lemma {:induction false} CollectThree(x: string, y: string, z: string, lineColors: (string, nat) -> seq<ColorInformation>, a: ColorInformation, b: ColorInformation, c: ColorInformation)
    requires lineColors(x, 0) == [a] && lineColors(y, 1) == [b] && lineColors(z, 2) == [c]
    ensures CollectColors([x, y, z], 0, lineColors) == [a, b, c]
  {
    assert [x, y, z][1..] == [y, z];
    assert [y, z][1..] == [z];
    assert CollectColors([y, z], 1, lineColors) == [b] + [c];
  }

  lemma {:induction false} PrimaryLiterals()
    ensures HexToColor("#FF0000") == Red && HexToColor("#00FF00") == Green && HexToColor("#0000FF") == Blue
    ensures IsColorLiteral("#FF0000") && IsColorLiteral("#00FF00") && IsColorLiteral("#0000FF")
    ensures IsAscii("#FF0000") && IsAscii("#00FF00") && IsAscii("#0000FF")
  {
    var r, g, b := "#FF0000", "#00FF00", "#0000FF";
    RedLiteral(r);
    GreenLiteral(g);
    BlueLiteral(b);
    LiteralAscii(r);
    LiteralAscii(g);
    LiteralAscii(b);
  }

  lemma {:induction false} GreenLiteral(lit: string)
    requires lit == "#00FF00"
    ensures IsColorLiteral(lit) && |lit| == 7 && HexToColor(lit) == Green
  {
  }

  lemma {:induction false} BlueLiteral(lit: string)
    requires lit == "#0000FF"
    ensures IsColorLiteral(lit) && |lit| == 7 && HexToColor(lit) == Blue
  {
  }

  /** Three lines that are each one six-digit literal give one report per line, in line order. */
  lemma {:induction false} LiteralLines(x: string, y: string, z: string)
    requires IsColorLiteral(x) && IsColorLiteral(y) && IsColorLiteral(z)
    requires |x| == |y| == |z| == 7
    ensures GetColorsUtf16(Document([x, y, z])) == [Whole(0, HexToColor(x)), Whole(1, HexToColor(y)), Whole(2, HexToColor(z))]
  {
    LiteralLine(x, 0);
    LiteralLine(y, 1);
    LiteralLine(z, 2);
    CollectThree(x, y, z, ParseLineColors, Whole(0, HexToColor(x)), Whole(1, HexToColor(y)), Whole(2, HexToColor(z)));
  }

  /** The three primary literal lines report red, green and blue in UTF-16 columns, one per line. */
  lemma {:induction false} PrimaryLinesUtf16(lines: seq<string>)
    requires lines == ["#FF0000", "#00FF00", "#0000FF"]
    ensures GetColorsUtf16(Document(lines)) == [Whole(0, Red), Whole(1, Green), Whole(2, Blue)]
  {
    PrimaryLiterals();
    LiteralLines(lines[0], lines[1], lines[2]);
    assert lines == [lines[0], lines[1], lines[2]];
  }

  /** The document is ASCII, so the report as written has the same columns. */
  lemma {:induction false} AppendMiddleByteColors(lines: seq<string>)
    requires lines == ["#FF0000", "#00FF00", "#0000FF"]
    ensures GetColors(Document(lines)) == GetColorsUtf16(Document(lines))
  {
    PrimaryLiterals();
    assert forall i :: 0 <= i < |lines| ==> IsAscii(lines[i]);
    AsciiDocumentColorsAgree(Document(lines));
  }

  /** The indentation the `delete_color_line` example's text carries on every line. */
  const Indent := "            "

  lemma {:induction false} JoinFive(v: string, w: string, x: string, y: string, z: string)
    ensures Join([v, w, x, y, z]) == v + "\n" + w + "\n" + x + "\n" + y + "\n" + z
  {
    assert [v, w, x, y, z] == [v, w] + [x, y, z];
    JoinAppend([v, w], [x, y, z]);
    assert [v, w][1..] == [w];
    JoinThree(x, y, z);
  }

  lemma {:induction false} DeleteColorLinePrints(ls: seq<string>)
    requires ls == ["", Indent + "#FF0000", Indent + "#00FF00", Indent + "#0000FF", Indent]
    ensures Join(ls) == "\n" + (Indent + "#FF0000") + "\n" + (Indent + "#00FF00") + "\n" + (Indent + "#0000FF") + "\n" + Indent
  {
    JoinFive(ls[0], ls[1], ls[2], ls[3], ls[4]);
    assert ls[0] + "\n" == "\n";
  }

  lemma {:induction false} DeleteColorLineWellFormed(ls: seq<string>)
    requires ls == ["", Indent + "#FF0000", Indent + "#00FF00", Indent + "#0000FF", Indent]
    ensures WellFormedLines(ls)
  {
  }

  lemma {:induction false} DeleteColorLineStart(text: string)
    requires text == "\n" + (Indent + "#FF0000") + "\n" + (Indent + "#00FF00") + "\n" + (Indent + "#0000FF") + "\n" + Indent
    ensures FromStr(text).lines == ["", Indent + "#FF0000", Indent + "#00FF00", Indent + "#0000FF", Indent]
  {
    var ls := ["", Indent + "#FF0000", Indent + "#00FF00", Indent + "#0000FF", Indent];
    DeleteColorLinePrints(ls);
    DeleteColorLineWellFormed(ls);
    LinesJoin(ls);
  }

  /** The `delete_color_line` example: deleting line 2 up to the start of line 3 removes the green line. */
  lemma {:induction false} DeleteColorLine(text: string, change: ContentChange)
    requires text == "\n" + (Indent + "#FF0000") + "\n" + (Indent + "#00FF00") + "\n" + (Indent + "#0000FF") + "\n" + Indent
    requires change == ContentChange(Some(Range(Position(2, 0), Position(3, 0))), "")
    ensures Edit(FromStr(text), change) == Success(Document(["", Indent + "#FF0000", Indent + "#0000FF", Indent]))
  {
    var d := FromStr(text);
    DeleteColorLineStart(text);
    EditDeletesLine(d, 2, change);
    DropThird(d.lines[0], d.lines[1], d.lines[2], d.lines[3], d.lines[4]);
  }

  lemma {:induction false} DropThird(v: string, w: string, x: string, y: string, z: string)
    ensures [v, w, x, y, z][..2] + [v, w, x, y, z][3..] == [v, w, y, z]
  {
  }

  /** An indented six-digit literal is reported at column 12 of its line. */
  lemma {:induction false} IndentedLiteral(lit: string, lineIdx: nat)
    requires IsColorLiteral(lit) && |lit| == 7
    ensures ParseLineColors(Indent + lit, lineIdx) == [ColorInformation(Range(Position(lineIdx, 12), Position(lineIdx, 19)), HexToColor(lit))]
  {
    assert Indent + lit == Indent + lit + [];
    assert IsAscii(Indent);
    AsciiLengths(Indent);
    SingleLiteralColors(Indent, lit, [], lineIdx);
  }

  lemma {:induction false} CollectFour(w: string, x: string, y: string, z: string, lineColors: (string, nat) -> seq<ColorInformation>, a: ColorInformation, b: ColorInformation)
    requires lineColors(w, 0) == [] && lineColors(x, 1) == [a] && lineColors(y, 2) == [b] && lineColors(z, 3) == []
    ensures CollectColors([w, x, y, z], 0, lineColors) == [a, b]
  {
    assert [w, x, y, z][1..] == [x, y, z];
    assert [x, y, z][1..] == [y, z];
    assert [y, z][1..] == [z];
    assert CollectColors([y, z], 2, lineColors) == [b];
    assert CollectColors([x, y, z], 1, lineColors) == [a, b];
  }

  /** The lines left after the deletion report red on line 1 and blue on line 2 in UTF-16 columns. */
  lemma {:induction false} DeleteColorLineUtf16(lines: seq<string>)
    requires lines == ["", Indent + "#FF0000", Indent + "#0000FF", Indent]
    ensures GetColorsUtf16(Document(lines))
      == [ColorInformation(Range(Position(1, 12), Position(1, 19)), Red), ColorInformation(Range(Position(2, 12), Position(2, 19)), Blue)]
  {
    PrimaryLiterals();
    NoHashNoColors(lines[0], 0);
    NoHashNoColors(lines[3], 3);
    IndentedLiteral("#FF0000", 1);
    IndentedLiteral("#0000FF", 2);
    CollectFour(lines[0], lines[1], lines[2], lines[3], ParseLineColors,
      ColorInformation(Range(Position(1, 12), Position(1, 19)), Red), ColorInformation(Range(Position(2, 12), Position(2, 19)), Blue));
    assert lines == [lines[0], lines[1], lines[2], lines[3]];
  }

  /** What is left reports, through `get_colors`, red on line 1 and blue on line 2, both at column 12. */
  lemma {:induction false} DeleteColorLineColors(lines: seq<string>)
    requires lines == ["", Indent + "#FF0000", Indent + "#0000FF", Indent]
    ensures GetColors(Document(lines))
      == [ColorInformation(Range(Position(1, 12), Position(1, 19)), Red), ColorInformation(Range(Position(2, 12), Position(2, 19)), Blue)]
  {
    DeleteColorLineUtf16(lines);
    assert forall i :: 0 <= i < |lines| ==> IsAscii(lines[i]);
    AsciiDocumentColorsAgree(Document(lines));
  }

  /** The report of a seven-character literal after the indentation, as the multi-line examples place it. */
  function Indented(lineIdx: nat, color: Color): ColorInformation
  {
    ColorInformation(Range(Position(lineIdx, 12), Position(lineIdx, 19)), color)
  }

  /** A colour literal is ASCII: a '#' and hex digits. */
  lemma {:induction false} LiteralAscii(lit: string)
    requires IsColorLiteral(lit)
    ensures IsAscii(lit)
  {
    forall k | 0 <= k < |lit|
      ensures lit[k] as int < 0x80
    {
      if k > 0 {
        assert IsHexDigit(lit[k]);
      }
    }
  }

  /** A document that is one six-digit literal reports it, as written, at columns 0 to 7 of line 0. */
  lemma {:induction false} LiteralDocument(lit: string)
    requires IsColorLiteral(lit) && |lit| == 7
    ensures FromStr(lit).lines == [lit]
    ensures GetColors(FromStr(lit)) == [Whole(0, HexToColor(lit))]
  {
    LiteralHasNoBreak(lit);
    LiteralAscii(lit);
    OneLine(lit);
    AsciiLineColorsAgree(lit, 0);
    LiteralLine(lit, 0);
  }

  lemma {:induction false} CollectTwo(x: string, y: string, lineColors: (string, nat) -> seq<ColorInformation>, a: ColorInformation, b: ColorInformation)
    requires lineColors(x, 0) == [a] && lineColors(y, 1) == [b]
    ensures CollectColors([x, y], 0, lineColors) == [a, b]
  {
    assert [x, y][1..] == [y];
  }

  /** Two lines that are each one six-digit literal report, as written, one colour per line. */
  lemma {:induction false} TwoLiteralLines(x: string, y: string)
    requires IsColorLiteral(x) && IsColorLiteral(y) && |x| == |y| == 7
    ensures GetColors(Document([x, y])) == [Whole(0, HexToColor(x)), Whole(1, HexToColor(y))]
  {
    LiteralAscii(x);
    LiteralAscii(y);
    AsciiDocumentColorsAgree(Document([x, y]));
    LiteralLine(x, 0);
    LiteralLine(y, 1);
    CollectTwo(x, y, ParseLineColors, Whole(0, HexToColor(x)), Whole(1, HexToColor(y)));
  }

  /** After the insertion `get_colors` reports red, green and blue, one per line. */
  lemma {:induction false} AppendMiddleColors(lines: seq<string>)
    requires lines == ["#FF0000", "#00FF00", "#0000FF"]
    ensures GetColors(Document(lines)) == [Whole(0, Red), Whole(1, Green), Whole(2, Blue)]
  {
    PrimaryLinesUtf16(lines);
    AppendMiddleByteColors(lines);
  }

  lemma {:induction false} CollectFive(v: string, w: string, x: string, y: string, z: string, lineColors: (string, nat) -> seq<ColorInformation>, a: ColorInformation, b: ColorInformation, c: ColorInformation)
    requires lineColors(v, 0) == [] && lineColors(w, 1) == [a] && lineColors(x, 2) == [b] && lineColors(y, 3) == [c] && lineColors(z, 4) == []
    ensures CollectColors([v, w, x, y, z], 0, lineColors) == [a, b, c]
  {
    var ls := [v, w, x, y, z];
    assert ls[1..] == [w, x, y, z];
    assert ls[1..][1..] == [x, y, z];
    assert ls[1..][1..][1..] == [y, z];
    assert ls[1..][1..][1..][1..] == [z];
    assert CollectColors([y, z], 3, lineColors) == [c];
    assert CollectColors([x, y, z], 2, lineColors) == [b, c];
    assert CollectColors([w, x, y, z], 1, lineColors) == [a, b, c];
  }

  /** The indented lines of the three-colour text are ASCII. */
  lemma {:induction false} IndentedAscii(ls: seq<string>)
    requires ls == ["", Indent + "#FF0000", Indent + "#00FF00", Indent + "#0000FF", Indent]
    ensures forall i :: 0 <= i < |ls| ==> IsAscii(ls[i])
  {
  }

  /**
   The `get_colors_rgb` example: the indented three-colour text, which
   starts with an empty line, reports red, green and blue on lines 1 to 3.
   */
  lemma {:induction false} GetColorsRgb(text: string)
    requires text == "\n" + (Indent + "#FF0000") + "\n" + (Indent + "#00FF00") + "\n" + (Indent + "#0000FF") + "\n" + Indent
    ensures GetColors(FromStr(text)) == [Indented(1, Red), Indented(2, Green), Indented(3, Blue)]
  {
    var d := FromStr(text);
    DeleteColorLineStart(text);
    IndentedAscii(d.lines);
    AsciiDocumentColorsAgree(d);
    PrimaryLiterals();
    NoHashNoColors(d.lines[0], 0);
    NoHashNoColors(d.lines[4], 4);
    IndentedLiteral("#FF0000", 1);
    IndentedLiteral("#00FF00", 2);
    IndentedLiteral("#0000FF", 3);
    CollectFive(d.lines[0], d.lines[1], d.lines[2], d.lines[3], d.lines[4], ParseLineColors, Indented(1, Red), Indented(2, Green), Indented(3, Blue));
    assert d.lines == [d.lines[0], d.lines[1], d.lines[2], d.lines[3], d.lines[4]];
  }

  /** The `get_colors_rgba` example: an eight-digit literal keeps its alpha channel. */
  lemma {:induction false} GetColorsRgba(text: string)
    requires text == "#11223344"
    ensures GetColors(FromStr(text)) == [ColorInformation(Range(Position(0, 0), Position(0, 9)), Color(0x11, 0x22, 0x33, 0x44))]
  {
    assert IsColorLiteral(text) && IsAscii(text);
    LiteralHasNoBreak(text);
    OneLine(text);
    AsciiLineColorsAgree(text, 0);
    RgbaLine(text);
  }

  /** The `replace_text` example: a change without a range swaps red for green. */
  lemma {:induction false} ReplaceText(text: string, change: ContentChange, after: seq<string>)
    requires text == "#FF0000" && change == ContentChange(None, "#00FF00") && after == ["#00FF00"]
    ensures GetColors(FromStr(text)) == [Whole(0, Red)]
    ensures Edit(FromStr(text), change) == Success(Document(after))
    ensures GetColors(Document(after)) == [Whole(0, Green)]
  {
    PrimaryLiterals();
    LiteralDocument(text);
    LiteralDocument(change.text);
  }

  /** The change text "\n" + `c` of the append examples. */
  lemma {:induction false} BreakBefore(t: string, c: string)
    requires (t == "\n#00FF00" && c == "#00FF00") || (t == "\n#0000FF" && c == "#0000FF")
    ensures t == "\n" + c
  {
  }

  /** Appending "\n" + `c` after the last of some seven-character literal lines adds `c` as a line. */
  lemma {:induction false} AppendToLiterals(lines: seq<string>, c: string, change: ContentChange)
    requires |lines| > 0 && forall k :: 0 <= k < |lines| ==> IsColorLiteral(lines[k]) && |lines[k]| == 7
    requires IsColorLiteral(c)
    requires change == ContentChange(Some(Range(Position(|lines| - 1, 7), Position(|lines|, 0))), "\n" + c)
    ensures Edit(Document(lines), change) == Success(Document(lines + [c]))
  {
    forall k | 0 <= k < |lines|
      ensures IsAscii(lines[k])
    {
      LiteralAscii(lines[k]);
    }
    LiteralHasNoBreak(c);
    EditAppendsLine(Document(lines), c, change);
  }

  /** The `append_end` example: "\n#00FF00" from the end of the only line adds green on a second line. */
  lemma {:induction false} AppendEnd(text: string, change: ContentChange, after: seq<string>)
    requires text == "#FF0000"
    requires change == ContentChange(Some(Range(Position(0, 7), Position(1, 0))), "\n#00FF00")
    requires after == ["#FF0000", "#00FF00"]
    ensures Edit(FromStr(text), change) == Success(Document(after))
    ensures GetColors(Document(after)) == [Whole(0, Red), Whole(1, Green)]
  {
    var c: string := "#00FF00";
    PrimaryLiterals();
    BreakBefore(change.text, c);
    LiteralDocument(text);
    OneLiteral([text], c, after);
    AppendToLiterals([text], c, change);
    TwoLiteralLines(text, c);
  }

  /** The `delete_one_char` example: deleting the last digit leaves "#FF000", which has no colour. */
  lemma {:induction false} DeleteOneChar(text: string, change: ContentChange, after: seq<string>)
    requires text == "#FF0000"
    requires change == ContentChange(Some(Range(Position(0, 6), Position(0, 7))), "")
    requires after == ["#FF000"]
    ensures Edit(FromStr(text), change) == Success(Document(after))
    ensures GetColors(Document(after)) == []
  {
    PrimaryLiterals();
    EditLiteral(text, 6, 7, change);
    OneCharDeleted(text, change.text, after[0]);
    ShortRunNoColors(after);
  }

  /** A change within a one-literal document rewrites its only line. */
  lemma {:induction false} EditLiteral(text: string, s: nat, e: nat, change: ContentChange)
    requires IsColorLiteral(text) && |text| == 7 && s <= e <= 7
    requires change.range == Some(Range(Position(0, s), Position(0, e))) && '\n' !in change.text
    ensures Edit(FromStr(text), change) == Success(Document([text[..s] + change.text + text[e..]]))
  {
    var d := FromStr(text);
    LiteralDocument(text);
    LiteralAscii(text);
    EditWithinLine(d, 0, s, e, change);
    assert Min(s, 7) == s && Min(e, 7) == e;
    assert d.lines[0 := text[..s] + change.text + text[e..]] == [text[..s] + change.text + text[e..]];
  }

  /** Five hex digits after the '#' are too few for the pattern. */
  lemma {:induction false} ShortRunNoColors(lines: seq<string>)
    requires lines == ["#FF000"]
    ensures GetColors(Document(lines)) == []
  {
    var line := lines[0];
    assert MatchLengthAt(line, 0) == 0;
    FindFromSkip(line, 1, |line|);
    assert IsAscii(line);
    AsciiLineColorsAgree(line, 0);
  }

  /** The `replace_partial_line` example: writing "00FF" over the last four digits turns red into magenta. */
  lemma {:induction false} ReplacePartialLine(text: string, change: ContentChange, after: seq<string>)
    requires text == "#FF0000"
    requires change == ContentChange(Some(Range(Position(0, 3), Position(0, 7))), "00FF")
    requires after == ["#FF00FF"]
    ensures Edit(FromStr(text), change) == Success(Document(after))
    ensures GetColors(Document(after)) == [Whole(0, Color(255, 0, 255, 255))]
  {
    PrimaryLiterals();
    EditLiteral(text, 3, 7, change);
    var line := after[0];
    DigitsReplaced(text, change.text, line);
    MagentaLiteral(line);
    LiteralDocument(line);
  }

  lemma {:induction false} MagentaLiteral(lit: string)
    requires lit == "#FF00FF"
    ensures IsColorLiteral(lit) && |lit| == 7 && HexToColor(lit) == Color(255, 0, 255, 255)
  {
  }

  lemma {:induction false} WhiteLiteral(lit: string)
    requires lit == "#FFFFFF"
    ensures IsColorLiteral(lit) && |lit| == 7 && HexToColor(lit) == Color(255, 255, 255, 255)
  {
  }

  /**
   The `clear_document_then_add_new` example: replacing everything by ""
   leaves no lines and no colours; replacing that by "#FFFFFF" reports white.
   */
  lemma {:induction false} ClearThenAdd(text: string, clear: ContentChange, add: ContentChange)
    requires text == "#FF0000\n#00FF00"
    requires clear == ContentChange(None, "") && add == ContentChange(None, "#FFFFFF")
    ensures GetColors(FromStr(text)) == [Whole(0, Red), Whole(1, Green)]
    ensures var r := Edit(FromStr(text), clear);
      r.Success? && r.value.lines == [] && GetColors(r.value) == []
    ensures var r := Edit(Edit(FromStr(text), clear).value, add);
      r.Success? && GetColors(r.value) == [Whole(0, Color(255, 255, 255, 255))]
  {
    var a, b: string := "#FF0000", "#00FF00";
    PrimaryLiterals();
    LiteralHasNoBreak(a);
    LiteralHasNoBreak(b);
    assert Join([a, b]) == text;
    LinesJoin([a, b]);
    TwoLiteralLines(a, b);
    assert FromStr(clear.text).lines == [];
    WhiteLiteral(add.text);
    LiteralDocument(add.text);
  }

  /**
   The `multiple_incremental_edits` example: two appends at the end of the
   text add green and then blue, each on a line of its own.
   */
  lemma {:induction false} MultipleIncrementalEdits(text: string, first: ContentChange, second: ContentChange, middle: seq<string>, after: seq<string>)
    requires text == "#FF0000"
    requires first == ContentChange(Some(Range(Position(0, 7), Position(1, 0))), "\n#00FF00")
    requires second == ContentChange(Some(Range(Position(1, 7), Position(2, 0))), "\n#0000FF")
    requires middle == ["#FF0000", "#00FF00"] && after == ["#FF0000", "#00FF00", "#0000FF"]
    ensures Edit(FromStr(text), first) == Success(Document(middle))
    ensures Edit(Document(middle), second) == Success(Document(after))
    ensures GetColors(Document(after)) == [Whole(0, Red), Whole(1, Green), Whole(2, Blue)]
  {
    var c: string := "#0000FF";
    AppendEnd(text, first, middle);
    PrimaryLiterals();
    BreakBefore(second.text, c);
    TwoLiterals(middle, c, after);
    AppendToLiterals(middle, c, second);
    AppendMiddleColors(after);
  }

  lemma {:induction false} TwoLiterals(middle: seq<string>, c: string, after: seq<string>)
    requires middle == ["#FF0000", "#00FF00"] && c == "#0000FF" && after == ["#FF0000", "#00FF00", "#0000FF"]
    ensures |middle| == 2 && forall k :: 0 <= k < |middle| ==> IsColorLiteral(middle[k]) && |middle[k]| == 7
    ensures IsColorLiteral(c) && middle + [c] == after
  {
  }

  lemma {:induction false} OneCharDeleted(text: string, t: string, line: string)
    requires text == "#FF0000" && t == "" && line == "#FF000"
    ensures text[..6] + t + text[7..] == line
  {
  }

  lemma {:induction false} DigitsReplaced(text: string, t: string, line: string)
    requires text == "#FF0000" && t == "00FF" && line == "#FF00FF"
    ensures text[..3] + t + text[7..] == line
  {
  }

  lemma {:induction false} OneLiteral(lines: seq<string>, c: string, after: seq<string>)
    requires lines == ["#FF0000"] && c == "#00FF00" && after == ["#FF0000", "#00FF00"]
    ensures |lines| == 1 && forall k :: 0 <= k < |lines| ==> IsColorLiteral(lines[k]) && |lines[k]| == 7
    ensures IsColorLiteral(c) && lines + [c] == after == [lines[0], c]
  {
  }
}
