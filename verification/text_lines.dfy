/**
 Rust's `str::lines` and `[String]::join("\n")`, the two halves of the line
 buffer's conversion between a whole text and its lines.
 */
module TextLines {

  /** Index of the first '\n' in `s`, or `|s|` when there is none. */
  function IndexOfNewline(s: string): (i: nat)
    ensures i <= |s|
    ensures i < |s| ==> s[i] == '\n'
  {
    if s == [] || s[0] == '\n' then 0 else 1 + IndexOfNewline(s[1..])
  }

  /** No '\n' comes before the one `IndexOfNewline` finds. */
  lemma {:induction false} BeforeNewline(s: string)
    ensures '\n' !in s[..IndexOfNewline(s)]
    decreases |s|
  {
    if s != [] && s[0] != '\n' {
      BeforeNewline(s[1..]);
      assert s[..IndexOfNewline(s)] == [s[0]] + s[1..][..IndexOfNewline(s[1..])];
    }
  }

  /** Drops one '\r' at the end of a '\n'-terminated segment, as `lines` does for "\r\n". */
  function StripCr(l: string): string
  {
    if |l| > 0 && l[|l| - 1] == '\r' then l[..|l| - 1] else l
  }

  /** `s` never holds a "\r\n" pair, so `lines` strips nothing from it. */
  predicate NoCrLf(s: string)
  {
    forall i :: 0 < i < |s| && s[i] == '\n' ==> s[i - 1] != '\r'
  }

  predicate EndsWithNewline(s: string)
  {
    |s| > 0 && s[|s| - 1] == '\n'
  }

  /** No element of `ls` holds a line terminator. */
  predicate NoNewlines(ls: seq<string>)
  {
    forall k :: 0 <= k < |ls| ==> '\n' !in ls[k]
  }

  /**
   Rust's `str::lines`: the text is cut after every '\n', the terminator (and a
   '\r' just before it) is dropped, and a final empty segment yields no line.
   */
  function Lines(s: string): (ls: seq<string>)
    ensures ls == [] <==> s == []
    decreases |s|
  {
    if s == [] then []
    else
      var i := IndexOfNewline(s);
      if i == |s| then [s]
      else [StripCr(s[..i])] + Lines(s[i + 1..])
  }

  /** No line `lines` yields holds a '\n'. */
  lemma {:induction false} LinesNoNewlines(s: string)
    ensures NoNewlines(Lines(s))
    decreases |s|
  {
    if s != [] {
      var i := IndexOfNewline(s);
      BeforeNewline(s);
      if i == |s| {
        assert s[..i] == s;
      } else {
        LinesNoNewlines(s[i + 1..]);
        LinesUnfold(s);
        assert StripCr(s[..i]) <= s[..i];
        NoNewlinesCons(StripCr(s[..i]), Lines(s[i + 1..]));
      }
    }
  }

  lemma {:induction false} NoNewlinesCons(head: string, tail: seq<string>)
    requires '\n' !in head && NoNewlines(tail)
    ensures NoNewlines([head] + tail)
  {
    var ls := [head] + tail;
    forall k | 0 < k < |ls|
      ensures '\n' !in ls[k]
    {
      assert ls[k] == tail[k - 1];
    }
  }

  /** `[String]::join("\n")`. */
  function Join(ls: seq<string>): string
  {
    if |ls| == 0 then []
    else if |ls| == 1 then ls[0]
    else ls[0] + "\n" + Join(ls[1..])
  }

  /** Splitting on every '\n', keeping every segment (Rust's `split('\n')`). */
  function SplitOnNewline(s: string): (segs: seq<string>)
    ensures |segs| > 0
    decreases |s|
  {
    var i := IndexOfNewline(s);
    if i == |s| then [s] else [s[..i]] + SplitOnNewline(s[i + 1..])
  }

  function DropFinalEmpty(segs: seq<string>): seq<string>
  {
    if |segs| > 0 && segs[|segs| - 1] == [] then segs[..|segs| - 1] else segs
  }

  /** Without "\r\n" pairs, `lines` is `split('\n')` with a final empty segment dropped. */
  lemma {:induction false} LinesIsSplitDroppingFinalEmpty(s: string)
    requires NoCrLf(s)
    ensures Lines(s) == DropFinalEmpty(SplitOnNewline(s))
    decreases |s|
  {
    if s != [] {
      var i := IndexOfNewline(s);
      if i < |s| {
        var rest := s[i + 1..];
        NoCrLfRest(s, i);
        LinesIsSplitDroppingFinalEmpty(rest);
        NoCrBefore(s, i);
        LinesUnfold(s);
        SplitUnfold(s);
        DropFinalEmptyCons(s[..i], SplitOnNewline(rest));
      }
    }
  }

  lemma {:induction false} DropFinalEmptyCons(x: string, tail: seq<string>)
    requires |tail| > 0
    ensures DropFinalEmpty([x] + tail) == [x] + DropFinalEmpty(tail)
  {
    var segs := [x] + tail;
    assert segs[|segs| - 1] == tail[|tail| - 1];
    if tail[|tail| - 1] == [] {
      assert segs[..|segs| - 1] == [x] + tail[..|tail| - 1];
    }
  }

  /** The text after a '\n' keeps the absence of "\r\n" pairs. */
  lemma {:induction false} NoCrLfRest(s: string, i: nat)
    requires NoCrLf(s) && i < |s|
    ensures NoCrLf(s[i + 1..])
  {
    var rest := s[i + 1..];
    forall j | 0 < j < |rest| && rest[j] == '\n'
      ensures rest[j - 1] != '\r'
    {
      assert s[i + 1 + j] == rest[j];
    }
  }

  /** Without "\r\n" pairs the segment before a '\n' has no '\r' for `lines` to strip. */
  lemma {:induction false} NoCrBefore(s: string, i: nat)
    requires NoCrLf(s) && i < |s| && s[i] == '\n'
    ensures StripCr(s[..i]) == s[..i]
  {
  }

  /** Joining two non-empty runs of lines puts one '\n' between them. */
  lemma {:induction false} JoinAppend(a: seq<string>, b: seq<string>)
    requires |a| > 0 && |b| > 0
    ensures Join(a + b) == Join(a) + "\n" + Join(b)
    decreases |a|
  {
    if |a| == 1 {
      assert (a + b)[1..] == b;
    } else {
      assert (a + b)[1..] == a[1..] + b;
      JoinAppend(a[1..], b);
    }
  }

  /** Round trip: the lines of a text without "\r\n" and without a final '\n' join back to it. */
  lemma {:induction false} JoinLines(s: string)
    requires NoCrLf(s) && !EndsWithNewline(s)
    ensures Join(Lines(s)) == s
    decreases |s|
  {
    if s != [] {
      var i := IndexOfNewline(s);
      if i < |s| {
        var rest := s[i + 1..];
        NoCrLfRest(s, i);
        EndsWithNewlineRest(s, i);
        JoinLines(rest);
        NoCrBefore(s, i);
        LinesUnfold(s);
        LinesNonEmpty(rest);
        JoinCons(s[..i], Lines(rest));
        CutAtNewline(s, i);
      }
    }
  }

  lemma {:induction false} LinesNonEmpty(s: string)
    requires s != []
    ensures |Lines(s)| > 0
  {
  }

  /** Splitting on every '\n' and joining with '\n' gives the text back. */
  lemma {:induction false} JoinSplit(s: string)
    ensures Join(SplitOnNewline(s)) == s
    decreases |s|
  {
    var i := IndexOfNewline(s);
    if i < |s| {
      var rest := s[i + 1..];
      JoinSplit(rest);
      SplitUnfold(s);
      JoinCons(s[..i], SplitOnNewline(rest));
      CutAtNewline(s, i);
    } else {
      assert s[..i] == s;
    }
  }

  /** One step of `split('\n')`: the segment before the first '\n', then the split of the rest. */
  lemma {:induction false} SplitUnfold(s: string)
    requires IndexOfNewline(s) < |s|
    ensures var i := IndexOfNewline(s); SplitOnNewline(s) == [s[..i]] + SplitOnNewline(s[i + 1..])
  {
  }

  lemma {:induction false} CutAtNewline(s: string, i: nat)
    requires i < |s| && s[i] == '\n'
    ensures s == s[..i] + "\n" + s[i + 1..]
  {
  }

  /** Joining a line in front of a non-empty run puts one '\n' after it. */
  lemma {:induction false} JoinCons(head: string, tail: seq<string>)
    requires |tail| > 0
    ensures Join([head] + tail) == head + "\n" + Join(tail)
  {
    var ls := [head] + tail;
    assert ls[0] == head && ls[1..] == tail;
  }

  /** The last segment of `split('\n')` is empty exactly when the text ends in '\n' (or is empty). */
  lemma {:induction false} SplitFinalSegment(s: string)
    ensures var segs := SplitOnNewline(s); (segs[|segs| - 1] == []) <==> (s == [] || EndsWithNewline(s))
    decreases |s|
  {
    var i := IndexOfNewline(s);
    if i < |s| {
      SplitFinalSegment(s[i + 1..]);
      SplitFinalSegmentStep(s);
    } else {
      assert SplitOnNewline(s) == [s];
      BeforeNewline(s);
      assert s[..i] == s;
    }
  }

  lemma {:induction false} SplitFinalSegmentStep(s: string)
    requires IndexOfNewline(s) < |s|
    requires var rest := s[IndexOfNewline(s) + 1..]; var segs := SplitOnNewline(rest);
      (segs[|segs| - 1] == []) <==> (rest == [] || EndsWithNewline(rest))
    ensures var segs := SplitOnNewline(s); (segs[|segs| - 1] == []) <==> EndsWithNewline(s)
  {
    var i := IndexOfNewline(s);
    SplitUnfold(s);
    var tail := SplitOnNewline(s[i + 1..]);
    assert ([s[..i]] + tail)[|tail|] == tail[|tail| - 1];
    EndsWithNewlineRest(s, i);
  }

  /** A final empty segment is how `lines` loses a trailing '\n': with it put back, joining restores any text without "\r\n". */
  lemma {:induction false} JoinLinesWithFinalEmpty(s: string)
    requires NoCrLf(s) && EndsWithNewline(s)
    ensures Join(Lines(s) + [""]) == s
  {
    LinesIsSplitDroppingFinalEmpty(s);
    SplitFinalSegment(s);
    JoinSplit(s);
    var segs := SplitOnNewline(s);
    assert Lines(s) + [""] == segs;
  }

  lemma {:induction false} IndexOfNewlineAppend(s: string, t: string)
    ensures IndexOfNewline(s) < |s| ==> IndexOfNewline(s + t) == IndexOfNewline(s)
    ensures IndexOfNewline(s) == |s| ==> IndexOfNewline(s + t) == |s| + IndexOfNewline(t)
    decreases |s|
  {
    if s == [] {
      assert s + t == t;
    } else {
      assert (s + t)[1..] == s[1..] + t;
      if s[0] != '\n' {
        IndexOfNewlineAppend(s[1..], t);
      }
    }
  }

  /** Lines that `lines` can produce: no terminators, and no '\r' that a following '\n' would strip. */
  predicate WellFormedLines(ls: seq<string>)
  {
    && NoNewlines(ls)
    && (forall k :: 0 <= k < |ls| - 1 ==> StripCr(ls[k]) == ls[k])
  }

  /** The other round trip: well-formed lines whose last line is not empty come back from their join. */
  lemma {:induction false} LinesJoin(ls: seq<string>)
    requires WellFormedLines(ls)
    requires |ls| == 0 || ls[|ls| - 1] != []
    ensures Lines(Join(ls)) == ls
    decreases |ls|
  {
    if |ls| == 1 {
      LinesOfOne(ls);
    } else if |ls| > 1 {
      WellFormedTail(ls);
      LinesJoin(ls[1..]);
      LinesJoinCons(ls);
    }
  }

  lemma {:induction false} LinesOfOne(ls: seq<string>)
    requires |ls| == 1 && '\n' !in ls[0] && ls[0] != []
    ensures Lines(Join(ls)) == ls
  {
    NoNewlineIndex(ls[0]);
  }

  /** The step of `LinesJoin`: the first line comes back in front of the lines of the rest. */
  lemma {:induction false} LinesJoinCons(ls: seq<string>)
    requires |ls| > 1 && WellFormedLines(ls) && ls[|ls| - 1] != []
    requires Lines(Join(ls[1..])) == ls[1..]
    ensures Lines(Join(ls)) == ls
  {
    var head, tail := ls[0], ls[1..];
    JoinUnfold(ls);
    JoinNonEmpty(tail);
    LinesCons(head, Join(tail));
    assert ls == [head] + tail;
  }

  lemma {:induction false} WellFormedTail(ls: seq<string>)
    requires |ls| > 0 && WellFormedLines(ls)
    ensures WellFormedLines(ls[1..])
  {
    assert forall k :: 0 <= k < |ls| - 1 ==> ls[1..][k] == ls[k + 1];
  }

  /** Splitting the join of terminator-free lines on '\n' gives those lines back. */
  lemma {:induction false} SplitJoin(ls: seq<string>)
    requires |ls| > 0 && NoNewlines(ls)
    ensures SplitOnNewline(Join(ls)) == ls
    decreases |ls|
  {
    if |ls| == 1 {
      NoNewlineIndex(ls[0]);
    } else {
      NoNewlinesTail(ls);
      SplitJoin(ls[1..]);
      SplitJoinCons(ls);
    }
  }

  /** The step of `SplitJoin`: the first line comes back in front of the split of the rest. */
  lemma {:induction false} SplitJoinCons(ls: seq<string>)
    requires |ls| > 1 && '\n' !in ls[0]
    requires SplitOnNewline(Join(ls[1..])) == ls[1..]
    ensures SplitOnNewline(Join(ls)) == ls
  {
    var head, tail := ls[0], ls[1..];
    JoinUnfold(ls);
    NewlineAfter(head, Join(tail));
    SplitUnfold(head + "\n" + Join(tail));
    assert ls == [head] + tail;
  }

  /** One step of `join`: the first line, a '\n', then the join of the others. */
  lemma {:induction false} JoinUnfold(ls: seq<string>)
    requires |ls| > 1
    ensures Join(ls) == ls[0] + "\n" + Join(ls[1..])
  {
  }

  lemma {:induction false} NoNewlinesTail(ls: seq<string>)
    requires |ls| > 0 && NoNewlines(ls)
    ensures NoNewlines(ls[1..])
  {
    assert forall k :: 0 <= k < |ls| - 1 ==> ls[1..][k] == ls[k + 1];
  }

  /** In a terminator-free line followed by '\n', the first '\n' is the one right after the line. */
  lemma {:induction false} NewlineAfter(head: string, rest: string)
    requires '\n' !in head
    ensures var s := head + "\n" + rest;
      && IndexOfNewline(s) == |head|
      && s[..|head|] == head
      && s[|head| + 1..] == rest
  {
    var after := "\n" + rest;
    assert head + "\n" + rest == head + after;
    NoNewlineIndex(head);
    IndexOfNewlineAppend(head, after);
  }

  /** Joining is one-to-one on terminator-free lines: the text determines its lines. */
  lemma {:induction false} JoinInjective(a: seq<string>, b: seq<string>)
    requires |a| > 0 && |b| > 0 && NoNewlines(a) && NoNewlines(b)
    requires Join(a) == Join(b)
    ensures a == b
  {
    SplitJoin(a);
    SplitJoin(b);
  }

  /** A terminator-free line followed by '\n' and more text is the first line of that text. */
  lemma {:induction false} LinesCons(head: string, rest: string)
    requires '\n' !in head && StripCr(head) == head && rest != []
    ensures Lines(head + "\n" + rest) == [head] + Lines(rest)
  {
    NewlineAfter(head, rest);
    LinesUnfold(head + "\n" + rest);
  }

  lemma {:induction false} NoNewlineIndex(s: string)
    requires '\n' !in s
    ensures IndexOfNewline(s) == |s|
    decreases |s|
  {
    if s != [] {
      assert '\n' !in s[1..] by {
        assert forall j :: 0 <= j < |s[1..]| ==> s[1..][j] == s[j + 1];
      }
      NoNewlineIndex(s[1..]);
    }
  }

  /** The join of lines whose last line is non-empty is non-empty. */
  lemma {:induction false} JoinNonEmpty(ls: seq<string>)
    requires |ls| > 0 && ls[|ls| - 1] != []
    ensures Join(ls) != []
    decreases |ls|
  {
    if |ls| > 1 {
      JoinNonEmpty(ls[1..]);
    }
  }

  /** `lines` yields one line per '\n', plus one for an unterminated final segment. */
  lemma {:induction false} LinesCount(s: string)
    ensures |Lines(s)| == NewlineCount(s) + (if s == [] || EndsWithNewline(s) then 0 else 1)
    decreases |s|
  {
    if s != [] {
      var i := IndexOfNewline(s);
      BeforeNewline(s);
      if i == |s| {
        assert s[..i] == s;
        NoNewlineCount(s);
      } else {
        var rest := s[i + 1..];
        NoNewlineCount(s[..i]);
        LinesCount(rest);
        SplitCount(s, i);
        LinesUnfold(s);
        EndsWithNewlineRest(s, i);
      }
    }
  }

  /** One step of `lines`: the stripped segment before the first '\n', then the lines of the rest. */
  lemma {:induction false} LinesUnfold(s: string)
    requires IndexOfNewline(s) < |s|
    ensures var i := IndexOfNewline(s); Lines(s) == [StripCr(s[..i])] + Lines(s[i + 1..])
  {
    assert s != [];
  }

  lemma {:induction false} EndsWithNewlineRest(s: string, i: nat)
    requires i < |s| && s[i] == '\n'
    ensures EndsWithNewline(s) <==> s[i + 1..] == [] || EndsWithNewline(s[i + 1..])
  {
    var rest := s[i + 1..];
    if rest != [] {
      assert rest[|rest| - 1] == s[|s| - 1];
    }
  }

  lemma {:induction false} SplitCount(s: string, i: nat)
    requires i < |s| && s[i] == '\n'
    ensures NewlineCount(s) == NewlineCount(s[..i]) + 1 + NewlineCount(s[i + 1..])
  {
    assert s == (s[..i] + "\n") + s[i + 1..];
    NewlineCountAppend(s[..i], "\n");
    NewlineCountAppend(s[..i] + "\n", s[i + 1..]);
    assert "\n"[..0] == [];
  }

  function NewlineCount(s: string): nat
  {
    if s == [] then 0 else NewlineCount(s[..|s| - 1]) + (if s[|s| - 1] == '\n' then 1 else 0)
  }

  lemma {:induction false} NewlineCountAppend(s: string, t: string)
    ensures NewlineCount(s + t) == NewlineCount(s) + NewlineCount(t)
    decreases |t|
  {
    if t == [] {
      assert s + t == s;
    } else {
      assert (s + t)[..|s + t| - 1] == s + t[..|t| - 1];
      NewlineCountAppend(s, t[..|t| - 1]);
    }
  }

  /** `join` puts exactly one '\n' between each two lines: k terminator-free lines give k - 1 of them. */
  lemma {:induction false} JoinNewlineCount(ls: seq<string>)
    requires |ls| > 0 && NoNewlines(ls)
    ensures NewlineCount(Join(ls)) == |ls| - 1
    decreases |ls|
  {
    NoNewlineCount(ls[0]);
    if |ls| > 1 {
      NoNewlinesTail(ls);
      JoinNewlineCount(ls[1..]);
      JoinUnfold(ls);
      SeparatorCount(ls[0], Join(ls[1..]));
    }
  }

  /** A '\n' put between two texts adds one to their count. */
  lemma {:induction false} SeparatorCount(head: string, rest: string)
    ensures NewlineCount(head + "\n" + rest) == NewlineCount(head) + 1 + NewlineCount(rest)
  {
    NewlineCountAppend(head, "\n");
    NewlineCountAppend(head + "\n", rest);
    assert "\n"[..0] == [];
  }

  lemma {:induction false} NoNewlineCount(s: string)
    requires '\n' !in s
    ensures NewlineCount(s) == 0
    decreases |s|
  {
    if s != [] {
      assert '\n' !in s[..|s| - 1];
      NoNewlineCount(s[..|s| - 1]);
    }
  }
}
