/**
 The colour literal scanner of `color.rs`: the pattern `#` followed by six hex
 digits and optionally two more, found left to right without overlap; the
 decoding of each literal into channels; and the conversion of the match's
 byte offsets into UTF-16 columns.
 */
module Colors {
  import opened LspTypes
  import opened Unicode

  predicate IsHexDigit(c: char)
  {
    ('0' <= c <= '9') || ('a' <= c <= 'f') || ('A' <= c <= 'F')
  }

  function HexDigitValue(c: char): (v: nat)
    requires IsHexDigit(c)
    ensures v < 16
  {
    if '0' <= c <= '9' then c as int - '0' as int
    else if 'a' <= c <= 'f' then c as int - 'a' as int + 10
    else c as int - 'A' as int + 10
  }

  /** The upper-case digit for a value below 16. */
  function UpperHexDigit(v: nat): (c: char)
    requires v < 16
    ensures IsHexDigit(c) && HexDigitValue(c) == v
    ensures !('a' <= c <= 'f')
  {
    if v < 10 then ('0' as int + v) as char else ('A' as int + v - 10) as char
  }

  /** The text the colour pattern accepts: '#' then exactly six or exactly eight hex digits. */
  predicate IsColorLiteral(t: string)
  {
    && (|t| == 7 || |t| == 9)
    && t[0] == '#'
    && (forall k :: 1 <= k < |t| ==> IsHexDigit(t[k]))
  }

  predicate HexRun(s: string, i: nat, n: nat)
  {
    i + n <= |s| && forall k :: i <= k < i + n ==> IsHexDigit(s[k])
  }

  /** A literal at `i..e` is a '#' followed by a run of hex digits. */
  lemma {:induction false} LiteralIsHashAndRun(s: string, i: nat, e: nat)
    requires i <= e <= |s| && IsColorLiteral(s[i..e])
    ensures s[i] == '#' && HexRun(s, i + 1, e - i - 1)
  {
    assert s[i..e][0] == s[i];
    forall k | i + 1 <= k < e
      ensures IsHexDigit(s[k])
    {
      assert s[i..e][k - i] == s[k];
    }
  }

  lemma {:induction false} RunIsLiteral(s: string, i: nat, n: nat)
    requires i < |s| && s[i] == '#' && (n == 7 || n == 9) && HexRun(s, i + 1, n - 1)
    ensures IsColorLiteral(s[i..i + n])
  {
    var t := s[i..i + n];
    forall k | 1 <= k < n
      ensures IsHexDigit(t[k])
    {
      assert t[k] == s[i + k];
    }
  }

  /**
   The length of the match the pattern makes at position `i` of `s`, or 0 if
   none: the optional last pair is greedy, so the longest literal starting at
   `i` wins.
   */
  function MatchLengthAt(s: string, i: nat): (n: nat)
    ensures n == 0 || (i + n <= |s| && IsColorLiteral(s[i..i + n]))
    ensures forall e :: i <= e <= |s| && IsColorLiteral(s[i..e]) ==> i < e <= i + n
  {
    var n := if i < |s| && s[i] == '#' && HexRun(s, i + 1, 6) then (if HexRun(s, i + 1, 8) then 9 else 7) else 0;
    assert n > 0 ==> IsColorLiteral(s[i..i + n]) by {
      if n > 0 {
        RunIsLiteral(s, i, n);
      }
    }
    assert forall e :: i <= e <= |s| && IsColorLiteral(s[i..e]) ==> i < e <= i + n by {
      forall e | i <= e <= |s| && IsColorLiteral(s[i..e])
        ensures i < e <= i + n
      {
        LiteralIsHashAndRun(s, i, e);
      }
    }
    n
  }

  /** A literal not followed by a hex digit is the whole match at its position. */
  lemma {:induction false} LiteralAt(s: string, i: nat, t: string)
    requires i + |t| <= |s| && s[i..i + |t|] == t && IsColorLiteral(t)
    requires |t| == 9 || i + 9 > |s| || !IsHexDigit(s[i + 7]) || !IsHexDigit(s[i + 8])
    ensures MatchLengthAt(s, i) == |t|
  {
    assert s[i..i + |t|] == t;
    LiteralIsHashAndRun(s, i, i + MatchLengthAt(s, i));
  }

  /** Hex digits never include '#', so a match starts only where no other match's digits lie. */
  lemma {:induction false} MatchStartsWithHash(s: string, p: nat)
    requires MatchLengthAt(s, p) > 0
    ensures p < |s| && s[p] == '#'
  {
    LiteralIsHashAndRun(s, p, p + MatchLengthAt(s, p));
  }

  /** A matched span of a line, in scalar indices, half-open. */
  datatype Span = Span(start: nat, end: nat)

  predicate StartsAt(ms: seq<Span>, p: nat)
  {
    exists k :: 0 <= k < |ms| && ms[k].start == p
  }

  /**
   What `find_iter` promises for the part of `s` from `i` on: every match is
   the longest literal at its start, matches do not overlap and come left to
   right, and every position where a literal starts is reported.
   */
  predicate IsScanFrom(s: string, i: nat, ms: seq<Span>)
  {
    && (forall k :: 0 <= k < |ms| ==> i <= ms[k].start && ms[k].end <= |s|)
    && (forall k :: 0 <= k < |ms| ==> 0 < ms[k].end - ms[k].start == MatchLengthAt(s, ms[k].start))
    && (forall k :: 0 <= k < |ms| - 1 ==> ms[k].end <= ms[k + 1].start)
    && (forall p :: i <= p < |s| && MatchLengthAt(s, p) > 0 ==> StartsAt(ms, p))
  }

  /** A match at `i` followed by a scan from its end is a scan from `i`. */
  lemma {:induction false} ScanCons(s: string, i: nat, rest: seq<Span>)
    requires i < |s| && MatchLengthAt(s, i) > 0
    requires IsScanFrom(s, i + MatchLengthAt(s, i), rest)
    ensures IsScanFrom(s, i, [Span(i, i + MatchLengthAt(s, i))] + rest)
  {
    var n := MatchLengthAt(s, i);
    ScanConsShape(s, i, n, rest);
    ScanConsCoversAll(s, i, rest);
  }

  lemma {:induction false} ScanConsCoversAll(s: string, i: nat, rest: seq<Span>)
    requires i < |s| && MatchLengthAt(s, i) > 0
    requires forall q :: i + MatchLengthAt(s, i) <= q < |s| && MatchLengthAt(s, q) > 0 ==> StartsAt(rest, q)
    ensures forall p :: i <= p < |s| && MatchLengthAt(s, p) > 0 ==> StartsAt([Span(i, i + MatchLengthAt(s, i))] + rest, p)
  {
    forall p | i <= p < |s| && MatchLengthAt(s, p) > 0
      ensures StartsAt([Span(i, i + MatchLengthAt(s, i))] + rest, p)
    {
      ScanConsCovers(s, i, rest, p);
    }
  }

  /** The matches stay in bounds, maximal and ordered when one is put in front. */
  lemma {:induction false} ScanConsShape(s: string, i: nat, n: nat, rest: seq<Span>)
    requires i + n <= |s| && 0 < n == MatchLengthAt(s, i)
    requires forall k :: 0 <= k < |rest| ==> i + n <= rest[k].start && rest[k].end <= |s|
    requires forall k :: 0 <= k < |rest| ==> 0 < rest[k].end - rest[k].start == MatchLengthAt(s, rest[k].start)
    requires forall k :: 0 <= k < |rest| - 1 ==> rest[k].end <= rest[k + 1].start
    ensures var ms := [Span(i, i + n)] + rest;
      && (forall k :: 0 <= k < |ms| ==> i <= ms[k].start && ms[k].end <= |s|)
      && (forall k :: 0 <= k < |ms| ==> 0 < ms[k].end - ms[k].start == MatchLengthAt(s, ms[k].start))
      && (forall k :: 0 <= k < |ms| - 1 ==> ms[k].end <= ms[k + 1].start)
  {
    var ms := [Span(i, i + n)] + rest;
    assert forall k :: 1 <= k < |ms| ==> ms[k] == rest[k - 1];
  }

  /** A match start at or after `i` is reported by the extended scan. */
  lemma {:induction false} ScanConsCovers(s: string, i: nat, rest: seq<Span>, p: nat)
    requires i < |s| && MatchLengthAt(s, i) > 0
    requires forall q :: i + MatchLengthAt(s, i) <= q < |s| && MatchLengthAt(s, q) > 0 ==> StartsAt(rest, q)
    requires i <= p < |s| && MatchLengthAt(s, p) > 0
    ensures StartsAt([Span(i, i + MatchLengthAt(s, i))] + rest, p)
  {
    var n := MatchLengthAt(s, i);
    var ms := [Span(i, i + n)] + rest;
    if p == i {
      assert ms[0].start == i;
    } else {
      assert p >= i + n by {
        if p < i + n {
          NoMatchInsideMatch(s, i, p);
        }
      }
      var k :| 0 <= k < |rest| && rest[k].start == p;
      assert ms[k + 1] == rest[k];
    }
  }

  /** The digits of a match hold no '#', so no other match starts inside it. */
  lemma {:induction false} NoMatchInsideMatch(s: string, i: nat, p: nat)
    requires MatchLengthAt(s, i) > 0 && i < p < i + MatchLengthAt(s, i)
    ensures MatchLengthAt(s, p) == 0
  {
    LiteralIsHashAndRun(s, i, i + MatchLengthAt(s, i));
    if MatchLengthAt(s, p) > 0 {
      MatchStartsWithHash(s, p);
    }
  }

  /** With no match at `i`, a scan from `i + 1` is a scan from `i`. */
  lemma {:induction false} ScanSkip(s: string, i: nat, rest: seq<Span>)
    requires i < |s| && MatchLengthAt(s, i) == 0
    requires IsScanFrom(s, i + 1, rest)
    ensures IsScanFrom(s, i, rest)
  {
  }

  /** `find_iter` from position `i`: take the match at `i` and resume after it, or move one position on. */
  function FindFrom(s: string, i: nat): (ms: seq<Span>)
    requires i <= |s|
    ensures 7 * |ms| <= |s| - i
    decreases |s| - i
  {
    if i == |s| then []
    else
      var n := MatchLengthAt(s, i);
      if n > 0 then [Span(i, i + n)] + FindFrom(s, i + n)
      else FindFrom(s, i + 1)
  }

  /** The scan from `i` reports exactly the leftmost-longest, non-overlapping matches from `i` on. */
  lemma {:induction false} FindFromIsScan(s: string, i: nat)
    requires i <= |s|
    ensures IsScanFrom(s, i, FindFrom(s, i))
    decreases |s| - i
  {
    if i < |s| {
      var n := MatchLengthAt(s, i);
      if n > 0 {
        FindFromIsScan(s, i + n);
        ScanCons(s, i, FindFrom(s, i + n));
      } else {
        FindFromIsScan(s, i + 1);
        ScanSkip(s, i, FindFrom(s, i + 1));
      }
    }
  }

  /** No match starts before the next '#', so the scan may jump straight to it. */
  lemma {:induction false} FindFromSkip(s: string, i: nat, j: nat)
    requires i <= j <= |s|
    requires forall p :: i <= p < j ==> s[p] != '#'
    ensures FindFrom(s, i) == FindFrom(s, j)
    decreases j - i
  {
    if i < j {
      FindFromSkipOne(s, i);
      FindFromSkip(s, i + 1, j);
    }
  }

  lemma {:induction false} FindFromSkipOne(s: string, i: nat)
    requires i < |s| && s[i] != '#'
    ensures FindFrom(s, i) == FindFrom(s, i + 1)
  {
    if MatchLengthAt(s, i) > 0 {
      MatchStartsWithHash(s, i);
    }
  }

  /**
   All matches of the colour pattern in a line, as `find_iter` reports them:
   each is a literal, they do not overlap and come left to right, and they
   start exactly at the positions where the pattern matches.
   */
  function FindIter(s: string): (ms: seq<Span>)
    ensures forall k :: 0 <= k < |ms| ==> ms[k].start < ms[k].end <= |s| && IsColorLiteral(s[ms[k].start..ms[k].end])
    ensures forall k :: 0 <= k < |ms| ==> ms[k].end - ms[k].start == MatchLengthAt(s, ms[k].start)
    ensures forall k :: 0 <= k < |ms| - 1 ==> ms[k].end <= ms[k + 1].start
    ensures forall p :: 0 <= p < |s| ==> (MatchLengthAt(s, p) > 0 <==> StartsAt(ms, p))
  {
    var ms := FindFrom(s, 0);
    FindFromIsScan(s, 0);
    ScanStartsMatch(s, 0, ms);
    ms
  }

  /** Every span of a scan is a literal, and its start is a position where the pattern matches. */
  lemma {:induction false} ScanStartsMatch(s: string, i: nat, ms: seq<Span>)
    requires IsScanFrom(s, i, ms)
    ensures forall k :: 0 <= k < |ms| ==> IsColorLiteral(s[ms[k].start..ms[k].end])
    ensures forall p :: StartsAt(ms, p) ==> MatchLengthAt(s, p) > 0
  {
    forall p | StartsAt(ms, p)
      ensures MatchLengthAt(s, p) > 0
    {
      var k :| 0 <= k < |ms| && ms[k].start == p;
    }
  }

  /** The channel a pair of hex digits spells (`u8::from_str_radix(pair, 16)`). */
  function HexByte(hex: string, i: nat): Channel
    requires i + 2 <= |hex| && IsHexDigit(hex[i]) && IsHexDigit(hex[i + 1])
  {
    16 * HexDigitValue(hex[i]) + HexDigitValue(hex[i + 1])
  }

  /** `hex_to_color`: pairs 1-2, 3-4 and 5-6 are red, green and blue; pair 7-8 is alpha when present, else alpha is full. */
  function HexToColor(hex: string): (c: Color)
    requires IsColorLiteral(hex)
    ensures |hex| == 7 ==> c.alpha == 255
  {
    Color(HexByte(hex, 1), HexByte(hex, 3), HexByte(hex, 5), if |hex| == 9 then HexByte(hex, 7) else 255)
  }

  function HexPair(v: Channel): string
  {
    [UpperHexDigit(v / 16), UpperHexDigit(v % 16)]
  }

  /** The upper-case literal for a colour, with or without its alpha pair. */
  function FormatHex(c: Color, withAlpha: bool): (hex: string)
    ensures IsColorLiteral(hex)
    ensures |hex| == 9 <==> withAlpha
  {
    "#" + HexPair(c.red) + HexPair(c.green) + HexPair(c.blue) + (if withAlpha then HexPair(c.alpha) else "")
  }

  /** Decoding a formatted colour gives it back; a six-digit literal decodes with full alpha. */
  lemma {:induction false} HexToColorFormatHex(c: Color, withAlpha: bool)
    ensures HexToColor(FormatHex(c, withAlpha)) == if withAlpha then c else c.(alpha := 255)
  {
    var hex := FormatHex(c, withAlpha);
    PairRoundTrip(c.red, hex, 1);
    PairRoundTrip(c.green, hex, 3);
    PairRoundTrip(c.blue, hex, 5);
    if withAlpha {
      PairRoundTrip(c.alpha, hex, 7);
    }
  }

  lemma {:induction false} PairRoundTrip(v: Channel, hex: string, i: nat)
    requires i + 2 <= |hex| && hex[i..i + 2] == HexPair(v)
    ensures IsHexDigit(hex[i]) && IsHexDigit(hex[i + 1]) && HexByte(hex, i) == v
  {
    assert hex[i] == hex[i..i + 2][0] && hex[i + 1] == hex[i..i + 2][1];
  }

  function UpperChar(c: char): char
  {
    if 'a' <= c <= 'f' then (c as int - 'a' as int + 'A' as int) as char else c
  }

  /** `t` with its lower-case hex letters raised. */
  function UpperHex(t: string): (u: string)
    ensures |u| == |t|
    ensures forall k :: 0 <= k < |t| ==> u[k] == UpperChar(t[k])
  {
    seq(|t|, k requires 0 <= k < |t| => UpperChar(t[k]))
  }

  /** Formatting a decoded literal gives the literal back, up to the case of its digits. */
  lemma {:induction false} FormatHexHexToColor(hex: string)
    requires IsColorLiteral(hex)
    ensures FormatHex(HexToColor(hex), |hex| == 9) == UpperHex(hex)
  {
    var c := HexToColor(hex);
    var u := UpperHex(hex);
    PairFormat(hex, 1);
    PairFormat(hex, 3);
    PairFormat(hex, 5);
    RgbFormat(hex, c, u);
    if |hex| == 9 {
      PairFormat(hex, 7);
      AlphaFormat(hex, c, u);
      FormatWithAlpha(c, u);
    } else {
      FormatWithoutAlpha(c, u);
    }
  }

  lemma {:induction false} FormatWithAlpha(c: Color, u: string)
    requires |u| == 9 && "#" + HexPair(c.red) + HexPair(c.green) + HexPair(c.blue) == u[..7] && HexPair(c.alpha) == u[7..]
    ensures FormatHex(c, true) == u
  {
    TakeDrop(u, 7);
  }

  lemma {:induction false} FormatWithoutAlpha(c: Color, u: string)
    requires |u| == 7 && "#" + HexPair(c.red) + HexPair(c.green) + HexPair(c.blue) == u[..7]
    ensures FormatHex(c, false) == u
  {
    assert u[..7] == u;
  }

  lemma {:induction false} AlphaFormat(hex: string, c: Color, u: string)
    requires IsColorLiteral(hex) && |hex| == 9 && c == HexToColor(hex) && u == UpperHex(hex)
    requires HexPair(HexByte(hex, 7)) == [UpperChar(hex[7]), UpperChar(hex[8])]
    ensures HexPair(c.alpha) == u[7..]
  {
  }

  lemma {:induction false} TakeDrop(u: string, n: nat)
    requires n <= |u|
    ensures u == u[..n] + u[n..]
  {
  }

  lemma {:induction false} RgbFormat(hex: string, c: Color, u: string)
    requires IsColorLiteral(hex) && c == HexToColor(hex) && u == UpperHex(hex)
    requires HexPair(HexByte(hex, 1)) == [UpperChar(hex[1]), UpperChar(hex[2])]
    requires HexPair(HexByte(hex, 3)) == [UpperChar(hex[3]), UpperChar(hex[4])]
    requires HexPair(HexByte(hex, 5)) == [UpperChar(hex[5]), UpperChar(hex[6])]
    ensures "#" + HexPair(c.red) + HexPair(c.green) + HexPair(c.blue) == u[..7]
  {
    var rgb := "#" + HexPair(c.red) + HexPair(c.green) + HexPair(c.blue);
    assert hex[0] == '#';
    forall k | 0 <= k < 7
      ensures rgb[k] == u[k]
    {
    }
  }

  /** Formatting the channel a pair spells writes the pair back, upper-cased. */
  lemma {:induction false} PairFormat(hex: string, i: nat)
    requires i + 2 <= |hex| && IsHexDigit(hex[i]) && IsHexDigit(hex[i + 1])
    ensures HexPair(HexByte(hex, i)) == [UpperChar(hex[i]), UpperChar(hex[i + 1])]
  {
    var a, b := HexDigitValue(hex[i]), HexDigitValue(hex[i + 1]);
    DivMod16(a, b);
    DigitFormat(hex[i]);
    DigitFormat(hex[i + 1]);
  }

  lemma {:induction false} DivMod16(a: nat, b: nat)
    requires a < 16 && b < 16
    ensures (16 * a + b) / 16 == a && (16 * a + b) % 16 == b
  {
  }

  /** Reading a digit and writing it back gives the digit, upper-cased. */
  lemma {:induction false} DigitFormat(ch: char)
    requires IsHexDigit(ch)
    ensures UpperHexDigit(HexDigitValue(ch)) == UpperChar(ch)
  {
  }

  /**
   `byte_to_utf16_col`: the UTF-16 length of the line up to a byte offset,
   which Rust requires to be a character boundary.
   */
  function ByteToUtf16Col(line: string, b: nat): (col: nat)
    requires IsCharBoundary(line, b)
    ensures col <= b
    ensures forall i :: 0 <= i <= |line| && Utf8Len(line[..i]) == b ==> col == Utf16Len(line[..i])
  {
    var i := CharIndexOfByte(line, b).value;
    Utf16LenAtMostUtf8Len(line[..i]);
    assert forall j :: 0 <= j <= |line| && Utf8Len(line[..j]) == b ==> j == i by {
      forall j | 0 <= j <= |line| && Utf8Len(line[..j]) == b
        ensures j == i
      {
        if j < i {
          Utf8LenPrefixGrows(line, j, i);
        } else if i < j {
          Utf8LenPrefixGrows(line, i, j);
        }
      }
    }
    Utf16Len(line[..i])
  }

  /** Matched text is ASCII, so a match spans as many UTF-16 units and bytes as characters. */
  lemma {:induction false} LiteralWidths(line: string, m: Span)
    requires m.start <= m.end <= |line| && IsColorLiteral(line[m.start..m.end])
    ensures Utf16Len(line[..m.end]) == Utf16Len(line[..m.start]) + (m.end - m.start)
    ensures Utf8Len(line[..m.end]) == Utf8Len(line[..m.start]) + (m.end - m.start)
  {
    var lit := line[m.start..m.end];
    assert line[..m.end] == line[..m.start] + lit;
    assert IsAscii(lit);
    AsciiLengths(lit);
    Utf16LenConcat(line[..m.start], lit);
    Utf8LenConcat(line[..m.start], lit);
  }

  /** The report for one match: its byte offsets turned into UTF-16 columns on line `lineIdx`, and its decoded colour. */
  function MatchInfo(line: string, lineIdx: nat, m: Span): (c: ColorInformation)
    requires m.start <= m.end <= |line| && IsColorLiteral(line[m.start..m.end])
    ensures c.range.start == Position(lineIdx, Utf16Len(line[..m.start]))
    ensures c.range.end == Position(lineIdx, c.range.start.character + (m.end - m.start))
    ensures c.range.end.character == Utf16Len(line[..m.end])
    ensures c.color == HexToColor(line[m.start..m.end])
  {
    var startByte := Utf8Len(line[..m.start]);
    var endByte := Utf8Len(line[..m.end]);
    CharIndexOfByteOfPrefix(line, m.start);
    CharIndexOfByteOfPrefix(line, m.end);
    LiteralWidths(line, m);
    ColorInformation(
      Range(Position(lineIdx, ByteToUtf16Col(line, startByte)), Position(lineIdx, ByteToUtf16Col(line, endByte))),
      HexToColor(line[m.start..m.end]))
  }

  /** Spans of literals of `line`, in order and without overlap. */
  predicate LiteralSpans(line: string, ms: seq<Span>)
  {
    && (forall k :: 0 <= k < |ms| ==> ms[k].start <= ms[k].end <= |line| && IsColorLiteral(line[ms[k].start..ms[k].end]))
    && (forall k :: 0 <= k < |ms| - 1 ==> ms[k].end <= ms[k + 1].start)
  }

  /** The reports for a run of matches, one per match and in the same order. */
  function MatchInfos(line: string, lineIdx: nat, ms: seq<Span>): (cs: seq<ColorInformation>)
    requires LiteralSpans(line, ms)
    ensures |cs| == |ms|
    ensures forall k :: 0 <= k < |cs| ==> cs[k] == MatchInfo(line, lineIdx, ms[k])
  {
    seq(|ms|, k requires 0 <= k < |ms| => MatchInfo(line, lineIdx, ms[k]))
  }

  /** Reports of ordered, non-overlapping matches have ordered, non-overlapping columns. */
  lemma {:induction false} MatchInfosOrdered(line: string, lineIdx: nat, ms: seq<Span>)
    requires LiteralSpans(line, ms)
    ensures var cs := MatchInfos(line, lineIdx, ms);
      forall k :: 0 <= k < |cs| - 1 ==> cs[k].range.end.character <= cs[k + 1].range.start.character
  {
    var cs := MatchInfos(line, lineIdx, ms);
    forall k | 0 <= k < |cs| - 1
      ensures cs[k].range.end.character <= cs[k + 1].range.start.character
    {
      Utf16LenPrefixGrows(line, ms[k].end, ms[k + 1].start);
    }
  }

  /**
   `parse_line_colors`: one report per match of the pattern, in the order
   `find_iter` gives them, each on line `lineIdx`, with the columns of one
   report never running past the start of the next.
   */
  function ParseLineColors(line: string, lineIdx: nat): (cs: seq<ColorInformation>)
    ensures |cs| == |FindIter(line)|
    ensures forall k :: 0 <= k < |cs| ==> cs[k] == MatchInfo(line, lineIdx, FindIter(line)[k])
    ensures forall k :: 0 <= k < |cs| ==> cs[k].range.start.line == lineIdx == cs[k].range.end.line
    ensures forall k :: 0 <= k < |cs| - 1 ==> cs[k].range.end.character <= cs[k + 1].range.start.character
  {
    MatchInfosOrdered(line, lineIdx, FindIter(line));
    MatchInfos(line, lineIdx, FindIter(line))
  }

  /** A line without '#' has no match and so no report. */
  lemma {:induction false} NoHashNoColors(line: string, lineIdx: nat)
    requires '#' !in line
    ensures FindIter(line) == []
    ensures ParseLineColors(line, lineIdx) == []
  {
    FindFromSkip(line, 0, |line|);
  }

  /**
   A line holding one literal, with no '#' elsewhere and no hex digit right
   after a six-digit literal, has exactly that literal as its only match.
   */
  lemma {:induction false} SingleLiteral(pre: string, lit: string, post: string)
    requires '#' !in pre && '#' !in post && IsColorLiteral(lit)
    requires |lit| == 9 || post == [] || !IsHexDigit(post[0])
    ensures FindIter(pre + lit + post) == [Span(|pre|, |pre| + |lit|)]
  {
    var s := pre + lit + post;
    var i, e := |pre|, |pre| + |lit|;
    Pieces(pre, lit, post);
    NoHashIn(s, 0, i, pre);
    NoHashIn(s, e, |s|, post);
    if |lit| == 7 && i + 9 <= |s| {
      assert s[i + 7] == s[e..][0] == post[0];
    }
    FindFromSkip(s, 0, i);
    LiteralAt(s, i, lit);
    FindFromSkip(s, e, |s|);
  }

  /** The three pieces of a concatenation, read back as slices. */
  lemma {:induction false} Pieces(pre: string, lit: string, post: string)
    ensures var s := pre + lit + post;
      && s[..|pre|] == pre
      && s[|pre|..|pre| + |lit|] == lit
      && s[|pre| + |lit|..] == post
  {
  }

  lemma {:induction false} NoHashIn(s: string, i: nat, j: nat, t: string)
    requires i <= j <= |s| && s[i..j] == t && '#' !in t
    ensures forall p :: i <= p < j ==> s[p] != '#'
  {
    forall p | i <= p < j
      ensures s[p] != '#'
    {
      assert s[p] == t[p - i];
    }
  }

  /** The report for a lone literal: the UTF-16 length of the text before it, then the literal's width. */
  lemma {:induction false} SingleLiteralColors(pre: string, lit: string, post: string, lineIdx: nat)
    requires '#' !in pre && '#' !in post && IsColorLiteral(lit)
    requires |lit| == 9 || post == [] || !IsHexDigit(post[0])
    ensures ParseLineColors(pre + lit + post, lineIdx)
      == [ColorInformation(Range(Position(lineIdx, Utf16Len(pre)), Position(lineIdx, Utf16Len(pre) + |lit|)), HexToColor(lit))]
  {
    SingleLiteral(pre, lit, post);
    ParseSingleMatch(pre + lit + post, lineIdx, Span(|pre|, |pre| + |lit|));
    MatchInfoAfter(pre, lit, post, lineIdx);
  }

  lemma {:induction false} ParseSingleMatch(line: string, lineIdx: nat, m: Span)
    requires FindIter(line) == [m]
    ensures m.start <= m.end <= |line| && IsColorLiteral(line[m.start..m.end])
    ensures ParseLineColors(line, lineIdx) == [MatchInfo(line, lineIdx, m)]
  {
    var cs := ParseLineColors(line, lineIdx);
    assert cs == [cs[0]];
  }

  lemma {:induction false} MatchInfoAfter(pre: string, lit: string, post: string, lineIdx: nat)
    requires IsColorLiteral(lit)
    ensures var line, m := pre + lit + post, Span(|pre|, |pre| + |lit|);
      && line[m.start..m.end] == lit
      && MatchInfo(line, lineIdx, m)
         == ColorInformation(Range(Position(lineIdx, Utf16Len(pre)), Position(lineIdx, Utf16Len(pre) + |lit|)), HexToColor(lit))
  {
    var line, m := pre + lit + post, Span(|pre|, |pre| + |lit|);
    Pieces(pre, lit, post);
    var c := MatchInfo(line, lineIdx, m);
    assert c.range.start == Position(lineIdx, Utf16Len(pre));
    assert c.color == HexToColor(lit);
  }
}
