/**
 The line buffer of `document.rs`: a document is its sequence of lines. It is
 built by `lines`, printed by joining with '\n', changed by full or range
 replacement edits whose columns are byte offsets into a line, and scanned for
 colour literals line by line.
 */
module Documents {
  import opened Wrappers
  import opened Unicode
  import opened TextLines
  import opened LspTypes
  import opened Colors

  datatype Document = Document(lines: seq<string>)

  /** `Document::from_str`: the lines of the text, none of them holding a terminator. */
  function FromStr(content: string): (d: Document)
    ensures NoNewlines(d.lines)
    ensures |d.lines| == NewlineCount(content) + (if content == [] || EndsWithNewline(content) then 0 else 1)
  {
    LinesCount(content);
    LinesNoNewlines(content);
    Document(Lines(content))
  }

  /** The `Display` implementation: the lines joined with '\n', which lose nothing when no line holds a '\n'. */
  function ToString(d: Document): (text: string)
    ensures |d.lines| > 0 && NoNewlines(d.lines) ==> SplitOnNewline(text) == d.lines
  {
    assert |d.lines| > 0 && NoNewlines(d.lines) ==> SplitOnNewline(Join(d.lines)) == d.lines by {
      if |d.lines| > 0 && NoNewlines(d.lines) {
        SplitJoin(d.lines);
      }
    }
    Join(d.lines)
  }

  /** Without "\r\n", the lines are the '\n'-separated segments with a final empty one dropped. */
  lemma {:induction false} FromStrSplits(content: string)
    requires NoCrLf(content)
    ensures FromStr(content).lines == DropFinalEmpty(SplitOnNewline(content))
  {
    LinesIsSplitDroppingFinalEmpty(content);
  }

  /** Printing a document built from a text without "\r\n" and without a final '\n' gives the text back. */
  lemma {:induction false} ToStringFromStr(content: string)
    requires NoCrLf(content) && !EndsWithNewline(content)
    ensures ToString(FromStr(content)) == content
  {
    JoinLines(content);
  }

  /**
   Building from the printed text gives the document back when its lines are
   well formed and its last line is non-empty: a final empty line prints as a
   trailing '\n', which `lines` drops.
   */
  lemma {:induction false} FromStrToString(d: Document)
    requires WellFormedLines(d.lines)
    requires |d.lines| == 0 || d.lines[|d.lines| - 1] != []
    ensures FromStr(ToString(d)) == d
  {
    LinesJoin(d.lines);
  }

  /** Why `edit` panics, each at the point in the source where Rust would. */
  datatype EditError =
    | LineOutOfRange   // `self.lines[start_line]` past the padded end
    | NotCharBoundary  // a byte column inside a multi-byte character
    | InvertedRange    // `splice(start_line..=end_line)` with start_line > end_line + 1

  /** The padding loop: empty lines are pushed until `endLine` is an index. */
  function PadLines(lines: seq<string>, endLine: nat): (p: seq<string>)
    ensures |p| == Max(|lines|, endLine + 1)
    ensures p[..|lines|] == lines
    ensures forall k :: |lines| <= k < |p| ==> p[k] == []
    ensures endLine < |lines| ==> p == lines
    decreases endLine + 1 - |lines|
  {
    if |lines| > endLine then lines
    else
      var p := PadLines(lines + [[]], endLine);
      assert p[..|lines|] == p[..|lines| + 1][..|lines|];
      p
  }

  /** Where byte column `col` of `line` falls once clamped to the line's byte length, as a scalar index. */
  function ClampedIndex(line: string, col: nat): (r: Option<nat>)
    ensures r.Some? ==> r.value <= |line| && Utf8Len(line[..r.value]) == Min(col, Utf8Len(line))
    ensures r.None? ==> forall i :: 0 <= i <= |line| ==> Utf8Len(line[..i]) != Min(col, Utf8Len(line))
  {
    CharIndexOfByte(line, Min(col, Utf8Len(line)))
  }

  /** On an ASCII line the clamped column is an index, so clamping never fails. */
  lemma {:induction false} ClampedIndexAscii(line: string, col: nat)
    requires IsAscii(line)
    ensures ClampedIndex(line, col) == Some(Min(col, |line|))
  {
    AsciiLengths(line);
    AsciiCharIndex(line, Min(col, |line|));
  }

  /** The lines an inserted text stands for: its `lines`, plus an empty one if it ends in '\n'. */
  function InsertedLines(text: string): (ls: seq<string>)
    ensures NoNewlines(ls)
    ensures |ls| == (if text == [] then 0 else NewlineCount(text) + 1)
    ensures NoCrLf(text) ==> Join(ls) == text
  {
    LinesCount(text);
    LinesNoNewlines(text);
    var ls := Lines(text) + (if EndsWithNewline(text) then [[]] else []);
    assert NoCrLf(text) ==> Join(ls) == text by {
      if NoCrLf(text) {
        if EndsWithNewline(text) {
          JoinLinesWithFinalEmpty(text);
        } else {
          JoinLines(text);
          assert ls == Lines(text);
        }
      }
    }
    ls
  }

  /** Glues the kept prefix onto the first new line and the kept suffix onto the last. */
  function MergeBoundaries(prefix: string, ls: seq<string>, suffix: string): (ms: seq<string>)
    ensures |ms| == Max(|ls|, 1)
    ensures Join(ms) == prefix + Join(ls) + suffix
    ensures forall k :: 0 < k < |ls| - 1 ==> ms[k] == ls[k]
    ensures '\n' !in prefix && '\n' !in suffix && NoNewlines(ls) ==> NoNewlines(ms)
  {
    if ls == [] then
      assert Join([prefix + suffix]) == prefix + [] + suffix;
      [prefix + suffix]
    else
      var first := ls[0 := prefix + ls[0]];
      JoinPrefixFirst(prefix, ls);
      JoinSuffixLast(first, suffix);
      first[|first| - 1 := first[|first| - 1] + suffix]
  }

  lemma {:induction false} JoinPrefixFirst(prefix: string, ls: seq<string>)
    requires |ls| > 0
    ensures Join(ls[0 := prefix + ls[0]]) == prefix + Join(ls)
  {
    var first := ls[0 := prefix + ls[0]];
    if |ls| > 1 {
      assert first[1..] == ls[1..];
    }
  }

  lemma {:induction false} JoinSuffixLast(ls: seq<string>, suffix: string)
    requires |ls| > 0
    ensures Join(ls[|ls| - 1 := ls[|ls| - 1] + suffix]) == Join(ls) + suffix
    decreases |ls|
  {
    var last := ls[|ls| - 1 := ls[|ls| - 1] + suffix];
    if |ls| > 1 {
      var tail := ls[1..];
      JoinSuffixLast(tail, suffix);
      assert last[1..] == tail[|tail| - 1 := tail[|tail| - 1] + suffix];
    }
  }

  /** The number of lines a range edit puts in place of the ones it replaces. */
  function ReplacementCount(text: string): nat
  {
    Max(|InsertedLines(text)|, 1)
  }

  /**
   `Document::edit`. A change without a range replaces the whole document.
   A range change pads the document to its end line, keeps the start line
   up to the clamped start column and the end line from the clamped end
   column, and splices the merged new lines over lines start..end. Rust
   panics where `EditError` says.
   */
  function Edit(d: Document, change: ContentChange): (r: Result<Document, EditError>)
    ensures change.range.None? ==> r == Success(FromStr(change.text))
    ensures change.range.Some? && change.range.value.start.line > change.range.value.end.line + 1 ==> r.Failure?
  {
    match change.range
    case None => Success(FromStr(change.text))
    case Some(range) =>
      var startLine, startChar := range.start.line, range.start.character;
      var endLine, endChar := range.end.line, range.end.character;
      var lines := PadLines(d.lines, endLine);
      if startLine >= |lines| then Failure(LineOutOfRange)
      else
        var ps := ClampedIndex(lines[startLine], startChar);
        var pe := ClampedIndex(lines[endLine], endChar);
        if ps.None? || pe.None? then Failure(NotCharBoundary)
        else if startLine > endLine + 1 then Failure(InvertedRange)
        else
          var prefix := lines[startLine][..ps.value];
          var suffix := lines[endLine][pe.value..];
          var newLines := MergeBoundaries(prefix, InsertedLines(change.text), suffix);
          Success(Document(Splice(lines, startLine, endLine, newLines)))
  }

  /**
   `Vec::splice(start..=end, new)`: lines start..end give way to `newLines`;
   the lines before keep their place and the lines after move by the change
   in count.
   */
  function Splice(lines: seq<string>, start: nat, end: nat, newLines: seq<string>): (r: seq<string>)
    requires start <= end + 1 <= |lines|
    ensures |r| == |lines| - (end + 1 - start) + |newLines|
    ensures forall i :: 0 <= i < start ==> r[i] == lines[i]
    ensures forall k :: 0 <= k < |newLines| ==> r[start + k] == newLines[k]
    ensures forall i :: end < i < |lines| ==> r[i - (end + 1 - start) + |newLines|] == lines[i]
  {
    lines[..start] + newLines + lines[end + 1..]
  }

  /** A successful range edit replaces lines start..end of the padded document by `ReplacementCount` lines. */
  lemma {:induction false} EditLineCount(d: Document, change: ContentChange)
    requires change.range.Some? && Edit(d, change).Success?
    ensures var range := change.range.value;
      |Edit(d, change).value.lines|
        == |PadLines(d.lines, range.end.line)| - (range.end.line - range.start.line + 1) + ReplacementCount(change.text)
  {
  }

  /** Nothing before the start line changes; lines there that padding added are empty. */
  lemma {:induction false} EditKeepsLinesBefore(d: Document, change: ContentChange)
    requires change.range.Some? && Edit(d, change).Success?
    ensures var lines := Edit(d, change).value.lines;
      forall i :: 0 <= i < change.range.value.start.line ==> lines[i] == if i < |d.lines| then d.lines[i] else []
  {
    var range := change.range.value;
    var padded := PadLines(d.lines, range.end.line);
    assert forall i :: 0 <= i < |d.lines| ==> padded[i] == d.lines[i] by {
      assert padded[..|d.lines|] == d.lines;
    }
  }

  /** Lines after the end line keep their text and move by the change in line count. */
  lemma {:induction false} EditShiftsLinesAfter(d: Document, change: ContentChange)
    requires change.range.Some? && Edit(d, change).Success?
    ensures var range := change.range.value;
      var lines := Edit(d, change).value.lines;
      var shift := ReplacementCount(change.text) - (range.end.line - range.start.line + 1);
      forall i :: range.end.line < i < |d.lines| ==> 0 <= i + shift < |lines| && lines[i + shift] == d.lines[i]
  {
    var range := change.range.value;
    var sl, el := range.start.line, range.end.line;
    var padded := PadLines(d.lines, el);
    var ps := ClampedIndex(padded[sl], range.start.character).value;
    var pe := ClampedIndex(padded[el], range.end.character).value;
    var newLines := MergeBoundaries(padded[sl][..ps], InsertedLines(change.text), padded[el][pe..]);
    assert Edit(d, change).value.lines == Splice(padded, sl, el, newLines);
    PadLinesKeeps(d.lines, el);
  }

  /** A range edit whose two columns cut their lines at `ps` and `pe` splices the merged lines over the padded buffer. */
  lemma {:induction false} EditCutsAt(d: Document, change: ContentChange, ps: nat, pe: nat)
    requires change.range.Some?
    requires var range := change.range.value;
      var lines := PadLines(d.lines, range.end.line);
      && range.start.line <= range.end.line + 1 && range.start.line < |lines|
      && ClampedIndex(lines[range.start.line], range.start.character) == Some(ps)
      && ClampedIndex(lines[range.end.line], range.end.character) == Some(pe)
    ensures var range := change.range.value;
      var lines := PadLines(d.lines, range.end.line);
      Edit(d, change) == Success(Document(Splice(lines, range.start.line, range.end.line,
        MergeBoundaries(lines[range.start.line][..ps], InsertedLines(change.text), lines[range.end.line][pe..]))))
  {
  }

  /**
   Padding keeps every existing line at its index: the pointwise form of
   `PadLines`'s prefix clause, which the edit lemmas quantify over directly.
   */
  lemma {:induction false} PadLinesKeeps(lines: seq<string>, endLine: nat)
    ensures var padded := PadLines(lines, endLine);
      forall i :: 0 <= i < |lines| ==> padded[i] == lines[i]
  {
    var padded := PadLines(lines, endLine);
    forall i | 0 <= i < |lines|
      ensures padded[i] == lines[i]
    {
      assert padded[..|lines|][i] == lines[i];
    }
  }

  /** No line of the document ever holds a '\n': `edit` keeps that true. */
  lemma {:induction false} EditKeepsNoNewlines(d: Document, change: ContentChange)
    requires NoNewlines(d.lines) && Edit(d, change).Success?
    ensures NoNewlines(Edit(d, change).value.lines)
  {
    if change.range.Some? {
      var range := change.range.value;
      var padded := PadLines(d.lines, range.end.line);
      assert NoNewlines(padded) by {
        forall k | 0 <= k < |padded|
          ensures '\n' !in padded[k]
        {
          if k < |d.lines| {
            assert padded[k] == padded[..|d.lines|][k];
          }
        }
      }
      var ps := ClampedIndex(padded[range.start.line], range.start.character).value;
      var pe := ClampedIndex(padded[range.end.line], range.end.character).value;
      var prefix, suffix := padded[range.start.line][..ps], padded[range.end.line][pe..];
      assert '\n' !in prefix && '\n' !in suffix;
      var merged := MergeBoundaries(prefix, InsertedLines(change.text), suffix);
      SpliceNoNewlines(padded, range.start.line, range.end.line, merged);
    }
  }

  lemma {:induction false} SpliceNoNewlines(lines: seq<string>, start: nat, end: nat, newLines: seq<string>)
    requires start <= end + 1 <= |lines|
    requires NoNewlines(lines) && NoNewlines(newLines)
    ensures NoNewlines(Splice(lines, start, end, newLines))
  {
    var r := Splice(lines, start, end, newLines);
    forall k | 0 <= k < |r|
      ensures '\n' !in r[k]
    {
      if k < start {
        assert r[k] == lines[k];
      } else if k < start + |newLines| {
        assert r[start + (k - start)] == newLines[k - start];
      } else {
        var i := k + (end + 1 - start) - |newLines|;
        assert r[i - (end + 1 - start) + |newLines|] == lines[i];
      }
    }
  }

  /** On ASCII lines every clamped column is a boundary: a range edit with start line <= end line always succeeds. */
  lemma {:induction false} EditAsciiSucceeds(d: Document, change: ContentChange)
    requires forall k :: 0 <= k < |d.lines| ==> IsAscii(d.lines[k])
    requires change.range.Some? && change.range.value.start.line <= change.range.value.end.line
    ensures Edit(d, change).Success?
  {
    var range := change.range.value;
    var padded := PadLines(d.lines, range.end.line);
    forall k | 0 <= k < |padded|
      ensures IsAscii(padded[k])
    {
      if k < |d.lines| {
        assert padded[k] == padded[..|d.lines|][k];
      }
    }
    ClampedIndexAscii(padded[range.start.line], range.start.character);
    ClampedIndexAscii(padded[range.end.line], range.end.character);
  }

  /** Column 0 is a boundary of every line. */
  lemma {:induction false} ClampedIndexZero(line: string)
    ensures ClampedIndex(line, 0) == Some(0)
  {
    CharIndexOfByteOfPrefix(line, 0);
  }

  /** Deleting from the start of line `l` to the start of the next line removes line `l` and nothing else. */
  lemma {:induction false} EditDeletesLine(d: Document, l: nat, change: ContentChange)
    requires l + 1 < |d.lines|
    requires change == ContentChange(Some(Range(Position(l, 0), Position(l + 1, 0))), [])
    ensures Edit(d, change) == Success(Document(d.lines[..l] + d.lines[l + 1..]))
  {
    ClampedIndexZero(d.lines[l]);
    ClampedIndexZero(d.lines[l + 1]);
    assert InsertedLines([]) == [];
    var next := d.lines[l + 1];
    assert d.lines[l][..0] == [] && next[0..] == next && [] + next == next;
    var merged := MergeBoundaries([], [], next);
    assert merged == [next];
    assert d.lines[..l] + merged + d.lines[l + 2..] == d.lines[..l] + d.lines[l + 1..];
  }

  /** Padding adds only empty lines, so a padded ASCII document stays ASCII. */
  lemma {:induction false} PadLinesAscii(lines: seq<string>, endLine: nat)
    requires forall k :: 0 <= k < |lines| ==> IsAscii(lines[k])
    ensures var padded := PadLines(lines, endLine);
      forall k :: 0 <= k < |padded| ==> IsAscii(padded[k])
  {
    var padded := PadLines(lines, endLine);
    forall k | 0 <= k < |padded|
      ensures IsAscii(padded[k])
    {
      if k < |lines| {
        assert padded[k] == padded[..|lines|][k];
      }
    }
  }

  /**
   On ASCII lines a byte column is a character column: a range edit keeps
   the start line up to its column (or all of it when the column is past its
   end), the end line from its column, and splices the new lines in between.
   */
  lemma {:induction false} EditAscii(d: Document, change: ContentChange)
    requires forall k :: 0 <= k < |d.lines| ==> IsAscii(d.lines[k])
    requires change.range.Some? && change.range.value.start.line <= change.range.value.end.line
    ensures var range := change.range.value;
      var sl, el := range.start.line, range.end.line;
      var padded := PadLines(d.lines, el);
      var prefix := padded[sl][..Min(range.start.character, |padded[sl]|)];
      var suffix := padded[el][Min(range.end.character, |padded[el]|)..];
      Edit(d, change) == Success(Document(Splice(padded, sl, el, MergeBoundaries(prefix, InsertedLines(change.text), suffix))))
  {
    var range := change.range.value;
    var padded := PadLines(d.lines, range.end.line);
    PadLinesAscii(d.lines, range.end.line);
    ClampedIndexAscii(padded[range.start.line], range.start.character);
    ClampedIndexAscii(padded[range.end.line], range.end.character);
  }

  /** A text without a line break stands for itself as the one new line, or for none when empty. */
  lemma {:induction false} InsertedSingleLine(t: string)
    requires '\n' !in t
    ensures InsertedLines(t) == (if t == [] then [] else [t])
  {
    if t != [] {
      NoNewlineIndex(t);
      assert !EndsWithNewline(t);
    }
  }

  /** "\n" and then a break-free, non-empty `c` stands for an empty line and then `c`. */
  lemma {:induction false} InsertedBreakThenLine(c: string)
    requires '\n' !in c && c != []
    ensures InsertedLines("\n" + c) == ["", c]
  {
    var t := "\n" + c;
    var none: string := [];
    NewlineAfter(none, c);
    assert none + "\n" + c == t;
    LinesUnfold(t);
    NoNewlineIndex(c);
    assert t[..0] == [] && StripCr([]) == [];
    assert !EndsWithNewline(t) by {
      assert t[|t| - 1] == c[|c| - 1];
    }
  }

  /**
   A change within ASCII line `l` whose text has no line break rewrites that
   line alone: its part up to the clamped start column, the text, then its
   part from the clamped end column.
   */
  lemma {:induction false} EditWithinLine(d: Document, l: nat, s: nat, e: nat, change: ContentChange)
    requires forall k :: 0 <= k < |d.lines| ==> IsAscii(d.lines[k])
    requires l < |d.lines| && '\n' !in change.text
    requires change.range == Some(Range(Position(l, s), Position(l, e)))
    ensures var line := d.lines[l];
      Edit(d, change) == Success(Document(d.lines[l := line[..Min(s, |line|)] + change.text + line[Min(e, |line|)..]]))
  {
    var line := d.lines[l];
    var prefix, suffix := line[..Min(s, |line|)], line[Min(e, |line|)..];
    EditAscii(d, change);
    assert PadLines(d.lines, l) == d.lines;
    InsertedSingleLine(change.text);
    var merged := MergeBoundaries(prefix, InsertedLines(change.text), suffix);
    assert merged == [prefix + change.text + suffix] by {
      if change.text == [] {
        assert prefix + change.text == prefix;
      }
    }
    SpliceOne(d.lines, l, prefix + change.text + suffix);
  }

  /** Splicing one line over line `l` alone replaces that line. */
  lemma {:induction false} SpliceOne(lines: seq<string>, l: nat, x: string)
    requires l < |lines|
    ensures Splice(lines, l, l, [x]) == lines[l := x]
  {
    assert lines[..l] + [x] + lines[l + 1..] == lines[l := x];
  }

  /**
   A change from the end of the last ASCII line to the start of the line
   after it, inserting "\n" and a break-free `c`, adds `c` as a new last
   line: the padding supplies the line the range ends on.
   */
  lemma {:induction false} EditAppendsLine(d: Document, c: string, change: ContentChange)
    requires |d.lines| > 0 && forall k :: 0 <= k < |d.lines| ==> IsAscii(d.lines[k])
    requires '\n' !in c && c != []
    requires change == ContentChange(Some(Range(Position(|d.lines| - 1, |d.lines[|d.lines| - 1]|), Position(|d.lines|, 0))), "\n" + c)
    ensures Edit(d, change) == Success(Document(d.lines + [c]))
  {
    var n := |d.lines|;
    var last := d.lines[n - 1];
    EditAscii(d, change);
    var padded := PadLines(d.lines, n);
    assert padded == d.lines + [[]] by {
      assert padded[..n] == d.lines && |padded| == n + 1 && padded[n] == [];
    }
    InsertedBreakThenLine(c);
    assert padded[n - 1][..Min(|last|, |last|)] == last;
    assert padded[n][Min(0, 0)..] == [];
    var merged := MergeBoundaries(last, ["", c], []);
    assert merged == [last, c] by {
      assert last + "" == last && c + [] == c;
    }
    SpliceOverPadding(d.lines, c);
  }

  /** Splicing the last line and `c` over the last line and one padding line appends `c`. */
  lemma {:induction false} SpliceOverPadding(lines: seq<string>, c: string)
    requires |lines| > 0
    ensures var n := |lines|;
      Splice(lines + [[]], n - 1, n, [lines[n - 1], c]) == lines + [c]
  {
    var n := |lines|;
    var padded := lines + [[]];
    assert padded[..n - 1] == lines[..n - 1];
    assert padded[n + 1..] == [];
    assert lines[..n - 1] + [lines[n - 1]] == lines;
  }

  function Sep(b: bool): string
  {
    if b then "\n" else ""
  }

  lemma {:induction false} JoinConcat(a: seq<string>, b: seq<string>)
    ensures Join(a + b) == Join(a) + Sep(|a| > 0 && |b| > 0) + Join(b)
  {
    if |a| == 0 {
      assert a + b == b;
    } else if |b| == 0 {
      assert a + b == a;
    } else {
      JoinAppend(a, b);
    }
  }

  /** Text printed before line `l`, with the separator that ends it. */
  function TextBefore(lines: seq<string>, l: nat): string
    requires l <= |lines|
  {
    Join(lines[..l]) + Sep(l > 0)
  }

  /** Text printed after line `l`, with the separator that starts it. */
  function TextAfter(lines: seq<string>, l: nat): string
    requires l < |lines|
  {
    Sep(l + 1 < |lines|) + Join(lines[l + 1..])
  }

  /** The printed lines are the text before line `l`, line `l` and the text after it. */
  lemma {:induction false} JoinAround(lines: seq<string>, l: nat)
    requires l < |lines|
    ensures Join(lines) == TextBefore(lines, l) + (lines[l] + TextAfter(lines, l))
  {
    var line, rest, after := lines[l], lines[l..], lines[l + 1..];
    JoinFrom(lines, l);
    if l > 0 {
      var before := lines[..l];
      assert lines == before + rest;
      JoinAppend(before, rest);
      assert Join(lines) == Join(before) + "\n" + Join(rest);
      assert Join(before) + "\n" + Join(rest) == (Join(before) + "\n") + Join(rest);
    } else {
      assert rest == lines;
      assert TextBefore(lines, l) == [];
    }
  }

  /** The printed lines from `l` on are line `l` and the text after it. */
  lemma {:induction false} JoinFrom(lines: seq<string>, l: nat)
    requires l < |lines|
    ensures Join(lines[l..]) == lines[l] + TextAfter(lines, l)
  {
    var rest, after := lines[l..], lines[l + 1..];
    if l + 1 < |lines| {
      assert rest == [lines[l]] + after;
      JoinAppend([lines[l]], after);
      assert lines[l] + "\n" + Join(after) == lines[l] + ("\n" + Join(after));
    } else {
      assert rest == [lines[l]];
      assert TextAfter(lines, l) == [];
    }
  }

  /** Offset in the printed document of scalar index `c` of line `l`. */
  function TextOffset(lines: seq<string>, l: nat, c: nat): (r: nat)
    requires l < |lines| && c <= |lines[l]|
    ensures r <= |Join(lines)|
  {
    JoinAround(lines, l);
    |TextBefore(lines, l)| + c
  }

  /** The printed document, cut at a position, is the text before it and the text after it. */
  lemma {:induction false} JoinCutAt(lines: seq<string>, l: nat, c: nat)
    requires l < |lines| && c <= |lines[l]|
    ensures Join(lines)[..TextOffset(lines, l, c)] == TextBefore(lines, l) + lines[l][..c]
    ensures Join(lines)[TextOffset(lines, l, c)..] == lines[l][c..] + TextAfter(lines, l)
  {
    JoinAround(lines, l);
    CutInside(TextBefore(lines, l), lines[l], TextAfter(lines, l), c);
  }

  lemma {:induction false} CutInside(h: string, line: string, t: string, c: nat)
    requires c <= |line|
    ensures (h + (line + t))[..|h| + c] == h + line[..c]
    ensures (h + (line + t))[|h| + c..] == line[c..] + t
  {
    var x := h + (line + t);
    assert x[..|h| + c] == h + line[..c];
    assert x[|h| + c..] == line[c..] + t;
  }

  /** Printing lines with a run spliced over `sl..el` prints the text before `sl`, the run, and the text after `el`. */
  lemma {:induction false} JoinSplice(lines: seq<string>, sl: nat, el: nat, run: seq<string>)
    requires sl <= el < |lines| && |run| > 0
    ensures Join(lines[..sl] + run + lines[el + 1..]) == TextBefore(lines, sl) + (Join(run) + TextAfter(lines, el))
  {
    var tail := run + lines[el + 1..];
    assert lines[..sl] + run + lines[el + 1..] == lines[..sl] + tail;
    JoinWithAfter(lines, el, run);
    JoinWithBefore(lines, sl, tail);
  }

  lemma {:induction false} JoinWithAfter(lines: seq<string>, el: nat, run: seq<string>)
    requires el < |lines| && |run| > 0
    ensures Join(run + lines[el + 1..]) == Join(run) + TextAfter(lines, el)
  {
    if el + 1 < |lines| {
      JoinWithSomeAfter(lines, el, run);
    } else {
      assert run + lines[el + 1..] == run;
    }
  }

  lemma {:induction false} JoinWithSomeAfter(lines: seq<string>, el: nat, run: seq<string>)
    requires el + 1 < |lines| && |run| > 0
    ensures Join(run + lines[el + 1..]) == Join(run) + TextAfter(lines, el)
  {
    JoinAppend(run, lines[el + 1..]);
  }

  lemma {:induction false} JoinWithBefore(lines: seq<string>, sl: nat, tail: seq<string>)
    requires sl <= |lines| && |tail| > 0
    ensures Join(lines[..sl] + tail) == TextBefore(lines, sl) + Join(tail)
  {
    var before := lines[..sl];
    if sl > 0 {
      JoinAppend(before, tail);
    } else {
      assert before + tail == tail;
    }
  }

  lemma {:induction false} Regroup(tb: string, prefix: string, t: string, suffix: string, ta: string)
    ensures tb + (prefix + t + suffix + ta) == (tb + prefix) + t + (suffix + ta)
  {
  }

  /** Splicing `t` between column `ps` of line `sl` and column `pe` of line `el` replaces that stretch of the printed text. */
  lemma {:induction false} SpliceText(lines: seq<string>, sl: nat, el: nat, ps: nat, pe: nat, t: string)
    requires sl <= el < |lines| && ps <= |lines[sl]| && pe <= |lines[el]|
    requires NoCrLf(t)
    ensures var merged := MergeBoundaries(lines[sl][..ps], InsertedLines(t), lines[el][pe..]);
      Join(lines[..sl] + merged + lines[el + 1..])
        == Join(lines)[..TextOffset(lines, sl, ps)] + t + Join(lines)[TextOffset(lines, el, pe)..]
  {
    var prefix, suffix := lines[sl][..ps], lines[el][pe..];
    var merged := MergeBoundaries(prefix, InsertedLines(t), suffix);
    assert Join(merged) == prefix + t + suffix;
    JoinSplice(lines, sl, el, merged);
    JoinCutAt(lines, sl, ps);
    JoinCutAt(lines, el, pe);
    Regroup(TextBefore(lines, sl), prefix, t, suffix, TextAfter(lines, el));
  }

  /**
    The meaning of a range edit on the text: the printed result is the printed (padded) document with
    everything from the clamped start position to the clamped end position replaced by the new text.
  */
  lemma {:induction false} EditReplacesText(d: Document, change: ContentChange)
    requires change.range.Some? && Edit(d, change).Success?
    requires change.range.value.start.line <= change.range.value.end.line
    requires NoCrLf(change.text)
    ensures var range := change.range.value;
      var padded := PadLines(d.lines, range.end.line);
      var ps := ClampedIndex(padded[range.start.line], range.start.character).value;
      var pe := ClampedIndex(padded[range.end.line], range.end.character).value;
      var text := Join(padded);
      ToString(Edit(d, change).value)
        == text[..TextOffset(padded, range.start.line, ps)] + change.text + text[TextOffset(padded, range.end.line, pe)..]
  {
    var range := change.range.value;
    var sl, el := range.start.line, range.end.line;
    var padded := PadLines(d.lines, el);
    var ps := ClampedIndex(padded[sl], range.start.character).value;
    var pe := ClampedIndex(padded[el], range.end.character).value;
    var merged := MergeBoundaries(padded[sl][..ps], InsertedLines(change.text), padded[el][pe..]);
    assert Edit(d, change).value.lines == padded[..sl] + merged + padded[el + 1..];
    SpliceText(padded, sl, el, ps, pe, change.text);
  }
}
