# chroma-ls: the line buffer and the colour scanner, in Dafny

chroma-ls is a language server that finds hex colour literals (`#RRGGBB`
and `#RRGGBBAA`) in a text document and reports them to the editor. This
project models two pure pieces of it and proves properties about them.

- **The document line buffer** (`src/document.rs`). A `Document` is its
  sequence of lines.
  - `from_str` splits a text with Rust's `str::lines`.
  - `Display` joins the lines with `"\n"`.
  - `edit` applies an editor change. A change without a range replaces the
    whole text. A ranged change pads the buffer with empty lines up to the
    end line, then keeps the start line up to the clamped start column and
    the end line from the clamped end column. It splits the inserted text,
    glues the kept parts onto the first and last new lines, and splices the
    result over lines start..end.
  - `get_colors` scans every line in order and reports each match.
- **The per-line colour scanner** (`src/color.rs`).
  - The colour pattern at line 9 is written as an explicit leftmost-longest
    scanner: `MatchLengthAt`, `FindFrom` and `FindIter`.
  - `hex_to_color` decodes the hex pairs into channels.
  - `byte_to_utf16_col` turns byte offsets into UTF-16 columns.
  - `parse_line_colors` builds one report per match.

## How the model maps onto the source

- Strings are `seq<char>`, where a `char` is a Unicode scalar value. Rust
  indexes lines by byte, so byte offsets are modelled by `Unicode.Utf8Len`.
  UTF-16 columns are modelled by `Unicode.Utf16Len`.
- A byte column that falls inside a multi-byte character makes Rust's
  slicing panic. `Unicode.CharIndexOfByte` returns `None` there.
- `Documents.Edit` is a total function returning a `Result`. Each place
  where `edit` panics is a `Failure` value:
  - `LineOutOfRange`: the start line is past the padded buffer.
  - `NotCharBoundary`: a clamped column is not a character boundary.
  - `InvertedRange`: `splice` is given a start line past the end line + 1.
- `TextLines.Lines` is `str::lines` exactly:
  - the text is cut after each `'\n'`;
  - a `'\r'` just before a `'\n'` is dropped;
  - a final empty segment yields no line;
  - a `'\r'` at the very end, with no `'\n'` after it, is kept.
- Channels are integers 0..255. The source divides each one by 255.0 to get
  an `f32`.
- The colour pattern and `hex_to_color` are defined twice in the source:
  `src/document.rs:7-34` repeats `src/color.rs:6-33` word for word. The model
  defines them once, in module `Colors`, and both users share it.
- `src/main.rs:1` compiles only `mod document`, and the server answers
  colour requests with `Document::get_colors` (`src/main.rs:92`). So
  `parse_line_colors` is not what the editor sees. In the model,
  `DocumentColors.GetColors` is `get_colors` as written, and
  `DocumentColors.GetColorsUtf16` is the corrected document report built
  from `Colors.ParseLineColors` (see "Findings").
- On ASCII documents the two reports are equal
  (`DocumentColors.AsciiDocumentColorsAgree`). The examples from
  `document.rs` are all ASCII, so they are stated about `GetColors`, the
  function the examples call.
- `edit` slices lines at the change's `character` values as if they were
  byte offsets, while the protocol counts them in UTF-16 code units (the
  server negotiates no other encoding). `Documents.Edit` is `edit` as
  written, and `ProtocolEdits.EditUtf16` is the corrected edit: each column
  is first converted to the byte offset of the boundary it names (see
  "Findings"). On ASCII documents the two are equal
  (`ProtocolEdits.EditUtf16Ascii`), so the examples' edits hold for both.
- Each example in `src/color.rs:66-154` and `src/document.rs:150-409` is a lemma here.

Files:
- `wrappers.dfy`: `Option`, `Result`, `Min`, `Max`.
- `unicode.dfy`: UTF-8 and UTF-16 lengths, and byte offsets to scalar indices.
- `text_lines.dfy`: `lines`, `split('\n')` and `join("\n")`, with their round trips.
- `lsp_types.dfy`: plain records for the protocol types.
- `colors.dfy`: the scanner, `hex_to_color`, `byte_to_utf16_col` and `parse_line_colors`.
- `document.dfy`: `Document`, `from_str`, `Display` and `edit`.
- `doc_colors.dfy`: `get_colors`, as written and corrected.
- `edit_utf16.dfy`: `edit` with the protocol's UTF-16 columns, the corrected edit.
- `color_scenarios.dfy`, `doc_scenarios.dfy`: the source's examples.

## Model

| member | source | states |
|---|---|---|
| TextLines.Lines | src/document.rs:51 | `str::lines`: the empty text has no lines, and any other text has at least one. |
| TextLines.LinesNoNewlines | src/document.rs:51 | No line that `lines` yields holds a `'\n'`. |
| TextLines.LinesIsSplitDroppingFinalEmpty | src/document.rs:51 | On a text with no `"\r\n"`, `lines` equals splitting on `'\n'` with one final empty segment dropped. |
| TextLines.LinesCount | src/document.rs:51 | `lines` yields one line per `'\n'`, plus one for a non-empty unterminated final segment. |
| TextLines.JoinLines | src/document.rs:41-53 | Joining the lines of a text with no `"\r\n"` and no final `'\n'` gives the text back. |
| TextLines.JoinLinesWithFinalEmpty | src/document.rs:100-107 | For a text ending in `'\n'`, its lines plus one empty line join back to the text. |
| TextLines.LinesJoin | src/document.rs:41-53 | Lines with no terminators, no `'\r'` before a break, and a non-empty last line come back unchanged from `lines` of their join. |
| TextLines.JoinNewlineCount | src/document.rs:43 | `join("\n")` (`TextLines.Join`) puts exactly one `'\n'` between each two lines: `k` terminator-free lines print with `k - 1` of them. |
| TextLines.SplitJoin | src/document.rs:43 | Splitting the join of terminator-free lines on `'\n'` gives the lines back. |
| TextLines.JoinSplit | src/document.rs:43 | Joining the `'\n'`-segments of a text gives the text back. |
| TextLines.JoinInjective | src/document.rs:43 | Two lists of terminator-free lines with the same join are equal. |
| TextLines.SplitFinalSegment | src/document.rs:51 | The last `'\n'`-segment is empty exactly when the text is empty or ends in `'\n'`, which is the segment `lines` drops. |
| Unicode.CharIndexOfByte | src/document.rs:96-98 | A byte offset maps to the scalar index whose UTF-8 prefix has that length. It maps to `None` exactly when no prefix does, where Rust's slice would panic. |
| Unicode.Utf8LenBounds | src/document.rs:96-98 | `Unicode.Utf8Len`, the byte length that `len()` and the match offsets count, takes one to four bytes per character. |
| Unicode.Utf16LenBounds | src/color.rs:35-37 | `Unicode.Utf16Len`, the UTF-16 count behind `byte_to_utf16_col`, takes one or two units per character. |
| Unicode.CharIndexOfUnit | src/document.rs:86-98 | A UTF-16 column maps to the scalar index whose UTF-16 prefix has that length. It maps to `None` exactly when no prefix does, inside a surrogate pair. |
| Unicode.Utf16LenAtMostUtf8Len | src/color.rs:35-37 | A text never has more UTF-16 units than UTF-8 bytes. |
| Unicode.Utf16LenIsUtf8LenIffAscii | src/document.rs:63-67 | Byte count equals UTF-16 count exactly when the text is ASCII, which is where `get_colors` columns are right. |
| Unicode.Utf16LenBmp | src/color.rs:35-37 | Characters below U+10000 are one UTF-16 unit each. |
| Unicode.AsciiLengths | src/color.rs:35-37 | An ASCII text has as many bytes and UTF-16 units as characters. |
| Documents.FromStr | src/document.rs:49-53 | The built document holds no `'\n'`. Its line count is the number of `'\n'`s, plus one for an unterminated final segment. |
| Documents.FromStrSplits | src/document.rs:49-53 | Without `"\r\n"`, the lines are the `'\n'`-separated segments with a final empty one dropped. |
| Documents.ToStringFromStr | src/document.rs:41-53 | Printing a document built from a text with no `"\r\n"` and no final `'\n'` gives the text back. |
| Documents.ToString | src/document.rs:41-45 | `Display`: for a non-empty document whose lines hold no `'\n'`, splitting the printed text on `'\n'` gives the lines back, so printing loses nothing. |
| Documents.FromStrToString | src/document.rs:41-53 | A document with well-formed lines (no terminators, no `'\r'` before a break) and a non-empty last line is rebuilt unchanged from its printed text. A final empty line would print as a trailing `'\n'`, which `lines` drops. |
| Documents.PadLines | src/document.rs:91-94 | Padding makes the buffer `max(len, end_line + 1)` lines long. It keeps the old lines as a prefix, and every added line is empty. An existing end line means no change. |
| Documents.PadLinesKeeps | src/document.rs:91-94 | Every existing line keeps its index after padding. |
| Documents.ClampedIndex | src/document.rs:96-98 | The column is clamped to the line's byte length. The result is the scalar index at that byte offset. `None` means no prefix of the line has that many bytes, so the offset falls inside a character. |
| Documents.ClampedIndexAscii | src/document.rs:96-98 | On an ASCII line the clamped column is `min(col, len)` and never fails. |
| Documents.ClampedIndexZero | src/document.rs:96-98 | Column 0 is always a boundary, at index 0. |
| Documents.InsertedLines | src/document.rs:100-107 | The new lines hold no `'\n'`. There are none for an empty text, else one more than the text's `'\n'` count. Without `"\r\n"` they join back to the text. |
| Documents.InsertedSingleLine | src/document.rs:100-107 | A text without a line break is one new line, or none when empty. |
| Documents.InsertedBreakThenLine | src/document.rs:100-107 | `"\n"` followed by a non-empty line `c` is an empty line, then `c`. |
| Documents.MergeBoundaries | src/document.rs:109-118 | The merge yields `max(n, 1)` lines and leaves the inner lines unchanged. Its join is prefix, then the join of the new lines, then suffix. It adds no `'\n'`. |
| Documents.Splice | src/document.rs:120 | The length changes by the new count minus the replaced count. Lines before the start are kept, the new lines sit at the start, and the lines after the end shift. |
| Documents.Edit | src/document.rs:76-123 | A change without a range gives `from_str` of its text and drops all earlier lines. A start line more than one past the end line fails. |
| Documents.EditLineCount | src/document.rs:91-120 | A range edit yields `padded_len - (end_line - start_line + 1) + max(k, 1)` lines. Here `k` counts the text's lines, plus one if it ends in `'\n'`. |
| Documents.EditKeepsLinesBefore | src/document.rs:91-120 | Lines before the start line are unchanged. Any of them that padding added are empty. |
| Documents.EditShiftsLinesAfter | src/document.rs:91-120 | Lines after the end line keep their text and move by the change in line count. |
| Documents.EditKeepsNoNewlines | src/document.rs:76-123 | If no line held a `'\n'` before the edit, none does after it. |
| Documents.EditAsciiSucceeds | src/document.rs:91-120 | On ASCII lines, with start line <= end line, a range edit never panics. |
| Documents.EditAscii | src/document.rs:91-120 | On ASCII lines a range edit keeps the start line up to `min(start_char, len)` and the end line from `min(end_char, len)`. It splices the merged lines over the padded buffer. |
| Documents.EditWithinLine | src/document.rs:96-120 | A one-line change without a break rewrites that line alone: prefix, then text, then suffix. |
| Documents.EditAppendsLine | src/document.rs:91-120 | A change from the end of the last line to the line after it, inserting `"\n" + c`, appends `c` as a line. Padding supplies the end line. |
| Documents.EditDeletesLine | src/document.rs:76-123 | Deleting from the start of line `l` to the start of line `l + 1` removes line `l` and nothing else. |
| Documents.EditReplacesText | src/document.rs:76-123 | The printed result is the printed padded buffer with the text between the two clamped positions replaced by the change's text. |
| Colors.MatchLengthAt | src/color.rs:9 | The match at a position is 0 or a literal: `'#'` and 6 or 8 hex digits. Every literal starting there fits inside it, so 8 digits win when present. |
| Colors.FindFromIsScan | src/color.rs:40-41 | The scan from `i` gives exactly the longest matches from `i` on, left to right and without overlap. Every position where the pattern matches starts a match. |
| Colors.FindFromSkip | src/color.rs:40-41 | No match starts before the next `'#'`. |
| Colors.NoMatchInsideMatch | src/color.rs:9 | No match starts inside another match's digits. |
| Colors.FindFrom | src/color.rs:40-41 | `find_iter` resumed at position `i`: its matches are at least seven characters and do not overlap, so there are at most `(len - i) / 7` of them. `Colors.FindFromIsScan` states exactly which they are. |
| Colors.FindIter | src/color.rs:39-42 | Every match is a literal as long as the pattern's match at its start. Matches come in order without overlap, and they start exactly where the pattern matches. |
| Colors.HexToColor | src/color.rs:18-33 | A six-digit literal has full alpha. |
| Colors.PairFormat | src/color.rs:19-21 | The channel a pair of hex digits spells (`Colors.HexByte`) formats back to that pair in upper case, so the first digit is the high nibble and the second the low one. |
| Colors.HexToColorFormatHex | src/color.rs:18-33 | Decoding a formatted colour gives the colour back: red, green and blue from pairs 1-3, and alpha from pair 4 or full. |
| Colors.FormatHexHexToColor | src/color.rs:18-33 | Formatting a decoded literal gives the literal back, up to letter case. So every digit pair is decoded. |
| Colors.ByteToUtf16Col | src/color.rs:35-37 | At a character boundary the column is the UTF-16 length of the text before that byte offset. It is never more than the offset. |
| Colors.LiteralWidths | src/color.rs:43-44 | A match spans as many UTF-16 units and bytes as characters (7 or 9). |
| Colors.MatchInfo | src/color.rs:42-57 | A report lies on line `line_idx` and starts at the UTF-16 length before the match. It ends after the match width, and its colour is the decoded match. |
| Colors.MatchInfosOrdered | src/color.rs:39-59 | Reports of ordered matches have ordered, non-overlapping columns. |
| Colors.ParseLineColors | src/color.rs:39-60 | There is one report per match, in match order, all on `line_idx`, with columns in order. |
| Colors.NoHashNoColors | src/color.rs:39-60 | A line without `'#'` has no reports. |
| Colors.SingleLiteral | src/color.rs:39-42 | A lone literal, with no `'#'` around it and no hex digit extending a 6-digit literal, is the only match. |
| Colors.SingleLiteralColors | src/color.rs:39-60 | Its report is at the UTF-16 length of the text before it, with the literal's width and colour. |
| DocumentColors.ByteMatchInfo | src/document.rs:58-70 | A `get_colors` report has the match's byte offsets as columns and the same colour. It equals the UTF-16 report exactly when the text before the match is ASCII. |
| DocumentColors.LineByteColors | src/document.rs:58-71 | One byte report per match of the line, in order, all on that line. |
| DocumentColors.SingleLiteralByteColors | src/document.rs:58-71 | A lone literal is reported at the byte length of the text before it. |
| DocumentColors.AsciiLineColorsAgree | src/document.rs:58-71 | On an ASCII line the byte report and the UTF-16 report coincide. |
| DocumentColors.CollectColors | src/document.rs:55-74 | An empty document has no reports, and a one-line document has its line's reports. |
| DocumentColors.CollectInOrder | src/document.rs:55-74 | When each line's reports stay on that line, the collected reports are in document order. |
| DocumentColors.CollectColorsAppend | src/document.rs:55-74 | Collecting over two runs of lines is collecting over each, with the second run numbered after the first. |
| DocumentColors.CollectColorsAt | src/document.rs:55-74 | Line `i`'s reports sit between those of the lines before it and those after it. |
| DocumentColors.GetColors | src/document.rs:55-74 | `get_colors` as written. Reports are on existing lines, in document order, without overlap. |
| DocumentColors.GetColorsUtf16 | src/document.rs:55-74 | The corrected report is in the same document order. |
| DocumentColors.GetColorsUtf16Line | src/document.rs:55-74 | The corrected reports for line `i` are exactly `parse_line_colors(line_i, i)`. |
| DocumentColors.AsciiDocumentColorsAgree | src/document.rs:55-74 | On an all-ASCII document the as-written and corrected reports are equal. |
| ColorScenarios.RgbLine | src/color.rs:66-77 | `#FF0000` is opaque red at columns 0..7. |
| ColorScenarios.RgbaLine | src/color.rs:79-89 | `#11223344` is channels 0x11, 0x22, 0x33 and 0x44 at columns 0..9. |
| ColorScenarios.UnicodeBefore | src/color.rs:91-102 | `•#FF0000` is red at columns 1..8. |
| ColorScenarios.SeveralUnicodeBefore | src/color.rs:104-115 | `• ☀️#FF0000` is red at columns 4..11. |
| ColorScenarios.UnicodeAfter | src/color.rs:117-128 | `#FF0000•` is red at columns 0..7. |
| ColorScenarios.SeveralColors | src/color.rs:130-138 | Three space-separated literals give three reports, starting at 0, 8 and 16. |
| ColorScenarios.NoColors | src/color.rs:140-144 | `no colors here` gives no reports. |
| ColorScenarios.EmbeddedColor | src/color.rs:146-154 | `Color: #ABCDEF;` on line 3 gives one report at columns 7..14. |
| ColorScenarios.SevenDigitRun | src/color.rs:9 | `#1234567` matches only its first six digits. The seventh is left over. |
| DocumentScenarios.OneLine | src/document.rs:49-53 | A non-empty text without a `'\n'` is a one-line document, even one ending in a bare `'\r'`. |
| DocumentScenarios.GetColorsRgb | src/document.rs:150-165 | The indented three-colour text reports red, green and blue on lines 1 to 3. |
| DocumentScenarios.GetColorsRgba | src/document.rs:168-180 | `#11223344` keeps its alpha channel. |
| DocumentScenarios.ReplaceText | src/document.rs:183-195 | A rangeless change swaps red for green. |
| DocumentScenarios.AppendEnd | src/document.rs:198-219 | `"\n#00FF00"` after the only line gives two lines, red then green. |
| DocumentScenarios.InsertLineBetween | src/document.rs:91-120 | For any two lines, inserting `"\n" + c + "\n"` from byte column `len(a)` of the first line (its end) to the start of the second puts `c` between them. |
| DocumentScenarios.AppendMiddle | src/document.rs:222-250 | `"#FF0000\n#0000FF"` first reports red then blue through `get_colors`. The `append_middle` edit then gives three lines, which print as `"#FF0000\n#00FF00\n#0000FF"`. |
| DocumentScenarios.AppendMiddleColors | src/document.rs:222-250 | Through `get_colors`, the three lines report red, green and blue, one per line, at columns 0..7. |
| DocumentScenarios.DeleteColorLine | src/document.rs:253-286 | Deleting (2,0)-(3,0) removes exactly the green line. |
| DocumentScenarios.DeleteColorLineColors | src/document.rs:253-286 | Through `get_colors`, what remains reports red on line 1 and blue on line 2, both at columns 12..19. |
| DocumentScenarios.DeleteOneChar | src/document.rs:289-311 | Deleting the last digit leaves `#FF000`, which has no colour. |
| DocumentScenarios.ReplacePartialLine | src/document.rs:314-336 | Writing `00FF` over columns 3..7 gives `#FF00FF`, magenta. |
| DocumentScenarios.ClearThenAdd | src/document.rs:339-361 | Clearing leaves no lines and no colours. Then `#FFFFFF` reports white. |
| DocumentScenarios.MultipleIncrementalEdits | src/document.rs:364-409 | Two appends give red, green and blue on lines 0 to 2. |
| DocumentScenarios.BulletLineByteColumns | src/document.rs:55-74 | As written, `•#FF0000` is reported at columns 3..10, its byte offsets. |
| DocumentScenarios.BulletLineUtf16Columns | src/color.rs:91-102 | The corrected report puts it at UTF-16 columns 1..8. |
| ProtocolEdits.ByteColumn | src/document.rs:86-98 | A UTF-16 column, clamped to the line, becomes a byte offset within the line that is a character boundary with exactly that many UTF-16 units before it. `None` means the column splits a surrogate pair. |
| ProtocolEdits.EditUtf16 | src/document.rs:76-123 | The corrected edit. A change without a range gives `from_str` of its text, and a start line more than one past the end line fails. |
| ProtocolEdits.EditUtf16Ascii | src/document.rs:76-123 | On an all-ASCII document the corrected edit and the edit as written give the same result. |
| ProtocolEdits.EditUtf16Bmp | src/document.rs:86-98 | Without supplementary-plane characters, the corrected edit never fails for want of a character boundary. |
| DocumentScenarios.BulletLineEditBytes | src/document.rs:86-98 | As written, inserting at column 1 of `•#FF0000` slices at byte 1, inside the bullet, and fails with `NotCharBoundary` where Rust panics. |
| DocumentScenarios.BulletLineEditUtf16 | src/document.rs:86-98 | The corrected edit inserts `x` after the bullet, giving `•x#FF0000`. |

## Left out

- `src/main.rs`: the server plumbing is I/O and concurrency, so it is not modelled. That covers the async handlers, the `RwLock`-guarded document map and the stdin/stdout transport. It also builds `Document { content }`, a field that `src/document.rs` does not have.
- Float channels: `as f32 / 255.0` is not modelled; channels are the integers 0..255 that are divided.
- The `regex` crate: only the one pattern is modelled, as an explicit scanner, not a general regex engine.
- Integer widths: `as u32` on line indices and columns and `as usize` on positions are not modelled. Values are unbounded naturals, so a column beyond 2^32 - 1 does not wrap.
- State after a panic: in Rust a panic in `edit` ends the handler after the padding loop has already grown the buffer. The model returns a `Failure` and no document.
- Incremental colour updates: `get_colors` rescans every line on each request, and `edit` only carries a TODO for updating the affected range (`src/document.rs:84`), so there is no incremental state to model.
- `color_regex` and `hex_to_color` in `src/document.rs:7-34` are modelled once, together with their copies in `src/color.rs`.
- Documents.EditReplacesText: stated only when the start line is not after the end line and the inserted text has no `"\r\n"`. `lines` drops the `'\r'` of such a pair, so the text would not come back verbatim.
- Documents.EditAscii: the exact result is stated for ASCII buffers only. For other text, `Documents.ClampedIndex` states where the byte columns fall and `Documents.Edit` combines them.
- Documents.EditAsciiSucceeds: stated for ASCII buffers only. Elsewhere a column inside a multi-byte character fails with `NotCharBoundary`.
- Documents.EditWithinLine: stated for ASCII buffers only, for the same reason as `EditAscii`.
- Documents.EditAppendsLine: stated for ASCII buffers and a non-empty appended line only.
- ProtocolEdits.EditUtf16: the line-level and text-level edit lemmas (`EditReplacesText`, `EditShiftsLinesAfter` and the rest) are proved for `Documents.Edit`. They carry over to the corrected edit on ASCII documents through `EditUtf16Ascii`, and are not restated for other text.
- Colors.HexToColor: its own contract states only the six-digit alpha. What each channel is comes from `Colors.HexToColorFormatHex` and `Colors.FormatHexHexToColor`.

## Findings

| source | as written | input that shows it | evidently intended | confidence | as-written member | corrected member |
|---|---|---|---|---|---|---|
| src/document.rs:55-74 | `get_colors`, which the server returns (`src/main.rs:92`), reports `mat.start()` and `mat.end()`. Those are byte offsets, but the protocol's columns count UTF-16 code units. | The line `•#FF0000`: a three-byte bullet, then red. | Columns 1..8, as `byte_to_utf16_col` in `src/color.rs:35-37` computes and the `unicode_before` example at `src/color.rs:91-102` expects. As written they are 3..10. | high; not executed | DocumentColors.GetColors, DocumentScenarios.BulletLineByteColumns | DocumentColors.GetColorsUtf16, DocumentScenarios.BulletLineUtf16Columns |
| src/document.rs:86-98 | `edit` reads `range.start.character` and `range.end.character` as byte offsets into the line. The protocol counts them in UTF-16 code units, and the server negotiates no other encoding. The server in `src/main.rs` asks for full-text sync (`src/main.rs:33-34`) and its `did_change` (`src/main.rs:66-74`) never calls `edit`, so only `edit`'s own examples and any incremental-sync caller reach this path. | The line `•#FF0000` and a change inserting `x` at (0,1)-(0,1): byte 1 is inside the bullet, so the slice panics. | The cut after the bullet, giving `•x#FF0000`: the column converted to a byte offset first, as `byte_to_utf16_col` does the other way in `src/color.rs:35-37`. | medium; not executed | Documents.Edit, DocumentScenarios.BulletLineEditBytes | ProtocolEdits.EditUtf16, ProtocolEdits.EditUtf16Bmp, DocumentScenarios.BulletLineEditUtf16 |
