/**
 The protocol's edit positions count columns in UTF-16 code units, while
 `Document::edit` slices its lines at those columns as if they were byte
 offsets. `EditUtf16` is the edit the protocol asks for: each column is first
 turned into the byte offset of the character boundary it names, and the
 byte-offset edit is then applied. On ASCII text the two coincide.
 */
module ProtocolEdits {
  import opened Wrappers
  import opened Unicode
  import opened LspTypes
  import opened Documents

  /**
   The byte offset at UTF-16 column `col` of `line`, the column clamped to the
   line's end; None when the column splits a surrogate pair. The offset is a
   character boundary, and the text before it is `col` code units long.
   */
  function ByteColumn(line: string, col: nat): (r: Option<nat>)
    ensures r.Some? ==> r.value <= Utf8Len(line)
    ensures r.Some? ==> var i := ClampedIndex(line, r.value);
      i.Some? && Utf16Len(line[..i.value]) == Min(col, Utf16Len(line))
    ensures r.None? ==> forall i :: 0 <= i <= |line| ==> Utf16Len(line[..i]) != Min(col, Utf16Len(line))
  {
    match CharIndexOfUnit(line, Min(col, Utf16Len(line)))
    case None => None
    case Some(i) =>
      Utf8LenPrefixGrows(line, i, |line|);
      assert line[..|line|] == line;
      CharIndexOfByteOfPrefix(line, i);
      Some(Utf8Len(line[..i]))
  }

  /**
   `edit` with the range's columns read as UTF-16 columns: they are converted
   to byte offsets on the padded lines, and the byte-offset edit does the rest.
   */
  function EditUtf16(d: Document, change: ContentChange): (r: Result<Document, EditError>)
    ensures change.range.None? ==> r == Success(FromStr(change.text))
    ensures change.range.Some? && change.range.value.start.line > change.range.value.end.line + 1 ==> r.Failure?
  {
    match change.range
    case None => Edit(d, change)
    case Some(range) =>
      var lines := PadLines(d.lines, range.end.line);
      if range.start.line >= |lines| then Failure(LineOutOfRange)
      else
        var bs := ByteColumn(lines[range.start.line], range.start.character);
        var be := ByteColumn(lines[range.end.line], range.end.character);
        if bs.None? || be.None? then Failure(NotCharBoundary)
        else Edit(d, ByteChange(change, bs.value, be.value))
  }

  /** The same change with its range's columns replaced by byte offsets. */
  function ByteChange(change: ContentChange, startByte: nat, endByte: nat): ContentChange
    requires change.range.Some?
  {
    var range := change.range.value;
    change.(range := Some(Range(Position(range.start.line, startByte), Position(range.end.line, endByte))))
  }

  /** Two ranged changes on the same lines with the same text, whose columns cut those lines at the same places, edit alike. */
  lemma {:induction false} EditSameCuts(d: Document, c1: ContentChange, c2: ContentChange)
    requires c1.range.Some? && c2.range.Some? && c1.text == c2.text
    requires c1.range.value.start.line == c2.range.value.start.line
    requires c1.range.value.end.line == c2.range.value.end.line
    requires var lines := PadLines(d.lines, c1.range.value.end.line);
      var sl, el := c1.range.value.start.line, c1.range.value.end.line;
      sl < |lines| ==>
        && ClampedIndex(lines[sl], c1.range.value.start.character) == ClampedIndex(lines[sl], c2.range.value.start.character)
        && ClampedIndex(lines[el], c1.range.value.end.character) == ClampedIndex(lines[el], c2.range.value.end.character)
    ensures Edit(d, c1) == Edit(d, c2)
  {
  }

  /** Every line of an all-ASCII document stays ASCII once padded. */
  lemma {:induction false} PadLinesKeepsAscii(lines: seq<string>, endLine: nat)
    requires forall k :: 0 <= k < |lines| ==> IsAscii(lines[k])
    ensures var padded := PadLines(lines, endLine);
      forall k :: 0 <= k < |padded| ==> IsAscii(padded[k])
  {
    PadLinesKeeps(lines, endLine);
  }

  /** On an ASCII line a UTF-16 column and a byte offset cut at the same place. */
  lemma {:induction false} AsciiByteColumn(line: string, col: nat)
    requires IsAscii(line)
    ensures ByteColumn(line, col) == Some(Min(col, |line|))
    ensures ClampedIndex(line, Min(col, |line|)) == ClampedIndex(line, col)
  {
    AsciiLengths(line);
    var m := Min(col, |line|);
    AsciiLengths(line[..m]);
    CharIndexOfUnitOfPrefix(line, m);
    ClampedIndexAscii(line, col);
    ClampedIndexAscii(line, m);
  }

  /** On ASCII documents the corrected edit is the edit as written, so every result about `Edit` there carries over. */
  lemma {:induction false} EditUtf16Ascii(d: Document, change: ContentChange)
    requires forall k :: 0 <= k < |d.lines| ==> IsAscii(d.lines[k])
    ensures EditUtf16(d, change) == Edit(d, change)
  {
    if change.range.Some? {
      var range := change.range.value;
      var lines := PadLines(d.lines, range.end.line);
      PadLinesKeepsAscii(d.lines, range.end.line);
      if range.start.line < |lines| {
        var sLine, eLine := lines[range.start.line], lines[range.end.line];
        AsciiByteColumn(sLine, range.start.character);
        AsciiByteColumn(eLine, range.end.character);
        var c2 := ByteChange(change, Min(range.start.character, |sLine|), Min(range.end.character, |eLine|));
        EditSameCuts(d, c2, change);
      }
    }
  }

  /** Every line of a document without supplementary-plane characters stays so once padded. */
  lemma {:induction false} PadLinesKeepsBmp(lines: seq<string>, endLine: nat)
    requires forall k, i :: 0 <= k < |lines| && 0 <= i < |lines[k]| ==> lines[k][i] as int < 0x1_0000
    ensures var padded := PadLines(lines, endLine);
      forall k, i :: 0 <= k < |padded| && 0 <= i < |padded[k]| ==> padded[k][i] as int < 0x1_0000
  {
    PadLinesKeeps(lines, endLine);
  }

  /**
   The property the protocol's columns are meant to have: without
   supplementary-plane characters, no column lands inside a character, so the
   corrected edit never fails for want of a character boundary.
   */
  lemma {:induction false} EditUtf16Bmp(d: Document, change: ContentChange)
    requires forall k, i :: 0 <= k < |d.lines| && 0 <= i < |d.lines[k]| ==> d.lines[k][i] as int < 0x1_0000
    ensures EditUtf16(d, change) != Failure(NotCharBoundary)
  {
    if change.range.Some? {
      var range := change.range.value;
      var lines := PadLines(d.lines, range.end.line);
      PadLinesKeepsBmp(d.lines, range.end.line);
      if range.start.line < |lines| {
        var sLine, eLine := lines[range.start.line], lines[range.end.line];
        BmpByteColumn(sLine, range.start.character);
        BmpByteColumn(eLine, range.end.character);
        var bs, be := ByteColumn(sLine, range.start.character).value, ByteColumn(eLine, range.end.character).value;
        assert EditUtf16(d, change) == Edit(d, ByteChange(change, bs, be));
      }
    }
  }

  /** In the basic multilingual plane every UTF-16 column names a character boundary. */
  lemma {:induction false} BmpByteColumn(line: string, col: nat)
    requires forall i :: 0 <= i < |line| ==> line[i] as int < 0x1_0000
    ensures ByteColumn(line, col).Some?
  {
    Utf16LenBmp(line);
    BmpCharIndexOfUnit(line, Min(col, |line|));
  }
}
