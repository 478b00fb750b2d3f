/**
 * The relay server's `wrapText(text, maxCharsPerLine)`: greedy word wrapping of
 * each newline-separated paragraph.
 *
 * `Wrapped` is the specification as functions (`ScanBack` and `BreakPos` for
 * the inner scan, `WrapPiece` for the loop over the remainder of a paragraph,
 * `WrapParagraph` and `WrapLines` for the loop over paragraphs); `WrapText` is
 * the loop itself, proved to compute `Wrapped`. The lemmas state what the
 * wrapping promises: every line fits, a paragraph that fits is kept, paragraphs
 * are wrapped independently, wrapping twice changes nothing, at most one
 * character is lost per break, and a forced break loses the character at the
 * cut even when it is not a space.
 */
module TextWrap {
  import opened Strings

  /** No space at the indices from `lo` to `hi`. */
  predicate NoSpaceBetween(r: string, lo: int, hi: int)
    requires hi < |r|
  {
    forall j | 0 <= lo <= j <= hi :: r[j] != ' '
  }

  /** The inner `while (breakPos > 0 && charAt(breakPos) !== ' ') breakPos--` started at `pos`. */
  function ScanBack(r: string, pos: nat): (p: nat)
    requires pos < |r|
    ensures p <= pos
    ensures p == 0 || r[p] == ' '
    ensures NoSpaceBetween(r, p + 1, pos)
  {
    if pos > 0 && r[pos] != ' ' then ScanBack(r, pos - 1) else pos
  }

  /**
   * Where a line longer than `max` is cut: the nearest space at an index from 1
   * to `max`, searched backwards from `max`; when there is none, `max` itself.
   */
  function BreakPos(r: string, max: nat): (b: nat)
    requires max < |r|
    ensures b <= max
    ensures (1 <= b && r[b] == ' ' && NoSpaceBetween(r, b + 1, max))
         || (b == max && NoSpaceBetween(r, 1, max))
  {
    var p := ScanBack(r, max);
    if p == 0 then max else p
  }

  /** The lines emitted while wrapping the remainder `r` of a paragraph; the character at each cut is dropped. */
  function WrapPiece(r: string, max: nat): (lines: seq<string>)
    ensures forall n | 0 <= n < |lines| :: |lines[n]| <= max
    ensures |r| > 0 ==> |lines| >= 1
    decreases |r|
  {
    if |r| == 0 then []
    else if |r| <= max then [r]
    else
      var b := BreakPos(r, max);
      [r[..b]] + WrapPiece(r[b + 1..], max)
  }

  /** Every character of a wrapped line comes from the text being wrapped. */
  lemma {:induction false} WrapPieceChars(r: string, max: nat)
    ensures forall n, c | 0 <= n < |WrapPiece(r, max)| && c in WrapPiece(r, max)[n] :: c in r
    decreases |r|
  {
    if |r| > max {
      var b := BreakPos(r, max);
      WrapPieceChars(r[b + 1..], max);
      assert forall c | c in r[b + 1..] :: c in r;
      assert forall c | c in r[..b] :: c in r;
    }
  }

  /** One paragraph: kept whole when it fits, otherwise wrapped. */
  function WrapParagraph(p: string, max: nat): seq<string>
  {
    if |p| <= max then [p] else WrapPiece(p, max)
  }

  /** The concatenation of `f` applied to each element, in order. */
  function FlatMap(ps: seq<string>, f: string -> seq<string>): seq<string>
  {
    if |ps| == 0 then [] else FlatMap(ps[..|ps| - 1], f) + f(ps[|ps| - 1])
  }

  /** The lines of all paragraphs, in order (the pushes onto `wrappedParagraphs`). */
  function WrapLines(ps: seq<string>, max: nat): seq<string>
  {
    FlatMap(ps, p => WrapParagraph(p, max))
  }

  /** The total length of a list of lines. */
  function TotalLength(lines: seq<string>): nat
  {
    if |lines| == 0 then 0 else |lines[0]| + TotalLength(lines[1..])
  }

  lemma {:induction false} TotalLengthAppend(xs: seq<string>, ys: seq<string>)
    ensures TotalLength(xs + ys) == TotalLength(xs) + TotalLength(ys)
    decreases |xs|
  {
    if |xs| == 0 {
      assert xs + ys == ys;
    } else {
      assert (xs + ys)[1..] == xs[1..] + ys;
      TotalLengthAppend(xs[1..], ys);
    }
  }

  /** A join is as long as its pieces plus one separator between each two. */
  lemma {:induction false} JoinLength(lines: seq<string>, sep: char)
    requires |lines| >= 1
    ensures |Join(lines, sep)| == TotalLength(lines) + |lines| - 1
    decreases |lines|
  {
    if |lines| > 1 {
      JoinLength(lines[1..], sep);
    }
  }

  /** The lines of a remainder, each with the character skipped after it, are no longer than the remainder. */
  lemma {:induction false} WrapPieceNotLonger(r: string, max: nat)
    ensures TotalLength(WrapPiece(r, max)) + |WrapPiece(r, max)| <= |r| + 1
    decreases |r|
  {
    if |r| > max {
      var b := BreakPos(r, max);
      var lines := WrapPiece(r, max);
      WrapPieceNotLonger(r[b + 1..], max);
      assert lines[1..] == WrapPiece(r[b + 1..], max);
    }
  }

  /** The lines of the paragraphs, each with a newline after it, are no longer than the paragraphs with theirs. */
  lemma {:induction false} WrapLinesNotLonger(ps: seq<string>, max: nat)
    ensures TotalLength(WrapLines(ps, max)) + |WrapLines(ps, max)| <= TotalLength(ps) + |ps|
    decreases |ps|
  {
    if |ps| > 0 {
      var init, p := ps[..|ps| - 1], ps[|ps| - 1];
      WrapLinesNotLonger(init, max);
      WrapLinesSnoc(init, p, max);
      assert init + [p] == ps;
      TotalLengthAppend(WrapLines(init, max), WrapParagraph(p, max));
      TotalLengthAppend(init, [p]);
      if |p| > max {
        WrapPieceNotLonger(p, max);
      }
    }
  }

  lemma WrappedNotLonger(text: string, max: nat)
    requires text != ""
    ensures |Join(WrapLines(Split(text, '\n'), max), '\n')| <= |text|
  {
    var ps := Split(text, '\n');
    var lines := WrapLines(ps, max);
    JoinSplit(text, '\n');
    JoinLength(ps, '\n');
    WrapLinesShape(ps, max);
    JoinLength(lines, '\n');
    WrapLinesNotLonger(ps, max);
  }

  /**
   * `wrapText(text, max)`: the empty text gives the empty text; otherwise the
   * wrapped paragraphs joined by newlines. A newline only ever takes the place
   * of the character skipped at a cut, so the result is never longer.
   */
  function Wrapped(text: string, max: nat): (r: string)
    ensures |r| <= |text|
  {
    if text == "" then ""
    else
      WrappedNotLonger(text, max);
      Join(WrapLines(Split(text, '\n'), max), '\n')
  }

  /**
   * `wrapText` as the source writes it: a loop over the paragraphs; a paragraph
   * that does not fit goes through the loop of `WrapRemainder`.
   */
  method WrapText(text: string, maxCharsPerLine: nat) returns (r: string)
    ensures r == Wrapped(text, maxCharsPerLine)
  {
    if text == "" {
      return "";
    }
    var paragraphs := Split(text, '\n');
    var wrappedParagraphs: seq<string> := [];
    for i := 0 to |paragraphs|
      invariant wrappedParagraphs == WrapLines(paragraphs[..i], maxCharsPerLine)
    {
      var paragraph := paragraphs[i];
      assert paragraphs[..i + 1] == paragraphs[..i] + [paragraph];
      WrapLinesSnoc(paragraphs[..i], paragraph, maxCharsPerLine);
      if |paragraph| <= maxCharsPerLine {
        wrappedParagraphs := wrappedParagraphs + [paragraph];
      } else {
        var lines := WrapRemainder(paragraph, maxCharsPerLine);
        wrappedParagraphs := wrappedParagraphs + lines;
      }
    }
    assert paragraphs[..|paragraphs|] == paragraphs;
    r := Join(wrappedParagraphs, '\n');
  }

  /** The inner loop of `wrapText`: scan back from `maxCharsPerLine` for a space, or break at the limit. */
  method FindBreak(remainingText: string, maxCharsPerLine: nat) returns (breakPos: nat)
    requires maxCharsPerLine < |remainingText|
    ensures breakPos == BreakPos(remainingText, maxCharsPerLine)
  {
    breakPos := maxCharsPerLine;
    while breakPos > 0 && remainingText[breakPos] != ' '
      invariant breakPos <= maxCharsPerLine
      invariant ScanBack(remainingText, breakPos) == ScanBack(remainingText, maxCharsPerLine)
    {
      breakPos := breakPos - 1;
    }
    if breakPos == 0 {
      breakPos := maxCharsPerLine;
    }
  }

  /**
   * The one-step unfolding of `WrapPiece` on a remainder too long to keep; a proof
   * helper for `NextLine`, with no counterpart of its own in the server.
   */
  lemma WrapPieceStep(r: string, max: nat)
    requires max < |r|
    ensures WrapPiece(r, max) == [r[..BreakPos(r, max)]] + WrapPiece(r[BreakPos(r, max) + 1..], max)
  {
  }

  /** One round of the inner `while` of `wrapText`: the next line of a remainder too long to keep, and what is left after it. */
  method NextLine(remainingText: string, maxCharsPerLine: nat) returns (line: string, rest: string)
    requires maxCharsPerLine < |remainingText|
    ensures |rest| < |remainingText|
    ensures WrapPiece(remainingText, maxCharsPerLine) == [line] + WrapPiece(rest, maxCharsPerLine)
  {
    var breakPos := FindBreak(remainingText, maxCharsPerLine);
    WrapPieceStep(remainingText, maxCharsPerLine);
    line := remainingText[..breakPos];
    // the character at `breakPos`, a space or the one a forced break drops, is skipped
    rest := remainingText[breakPos + 1..];
  }

  /**
   * The `while (remainingText.length > 0)` loop of `wrapText` on a paragraph longer
   * than the limit, with its backward scan for a space, returning the lines it pushes.
   */
  method WrapRemainder(paragraph: string, maxCharsPerLine: nat) returns (lines: seq<string>)
    ensures lines == WrapPiece(paragraph, maxCharsPerLine)
  {
    lines := [];
    var remainingText := paragraph;
    while |remainingText| > 0
      invariant WrapPiece(paragraph, maxCharsPerLine) == lines + WrapPiece(remainingText, maxCharsPerLine)
      decreases |remainingText|
    {
      if |remainingText| <= maxCharsPerLine {
        assert WrapPiece(remainingText, maxCharsPerLine) == [remainingText];
        lines := lines + [remainingText];
        break;
      }
      var line, rest := NextLine(remainingText, maxCharsPerLine);
      assert lines + ([line] + WrapPiece(rest, maxCharsPerLine)) == (lines + [line]) + WrapPiece(rest, maxCharsPerLine);
      lines := lines + [line];
      remainingText := rest;
    }
  }

  lemma {:induction false} FlatMapAppend(xs: seq<string>, ys: seq<string>, f: string -> seq<string>)
    ensures FlatMap(xs + ys, f) == FlatMap(xs, f) + FlatMap(ys, f)
    decreases |ys|
  {
    if |ys| == 0 {
      assert xs + ys == xs;
    } else {
      var zs := xs + ys;
      assert zs[..|zs| - 1] == xs + ys[..|ys| - 1];
      assert zs[|zs| - 1] == ys[|ys| - 1];
      FlatMapAppend(xs, ys[..|ys| - 1], f);
    }
  }

  /** Wrapping distributes over the concatenation of paragraph lists. */
  lemma WrapLinesAppend(xs: seq<string>, ys: seq<string>, max: nat)
    ensures WrapLines(xs + ys, max) == WrapLines(xs, max) + WrapLines(ys, max)
  {
    FlatMapAppend(xs, ys, p => WrapParagraph(p, max));
  }

  /** Adding one paragraph adds its lines at the end. */
  lemma WrapLinesSnoc(ps: seq<string>, p: string, max: nat)
    ensures WrapLines(ps + [p], max) == WrapLines(ps, max) + WrapParagraph(p, max)
  {
    var f := (q: string) => WrapParagraph(q, max);
    var zs := ps + [p];
    assert zs[..|zs| - 1] == ps && zs[|zs| - 1] == p;
    assert FlatMap(zs, f) == FlatMap(ps, f) + f(p);
  }

  /** A single paragraph gives its own lines. */
  lemma WrapLinesSingle(p: string, max: nat)
    ensures WrapLines([p], max) == WrapParagraph(p, max)
  {
    WrapLinesSnoc([], p, max);
    assert [] + [p] == [p];
  }

  /** A text without newlines is one paragraph. */
  lemma SingleParagraph(p: string, max: nat)
    requires '\n' !in p
    ensures Wrapped(p, max) == Join(WrapParagraph(p, max), '\n')
  {
    SplitWithoutSeparator(p, '\n');
    WrappedIsJoinOfLines(p, max);
    WrapLinesSingle(p, max);
  }

  /** Each paragraph yields at least one line, and no line is longer than `max` or holds a newline. */
  lemma {:induction false} WrapLinesShape(ps: seq<string>, max: nat)
    requires forall n | 0 <= n < |ps| :: '\n' !in ps[n]
    ensures |WrapLines(ps, max)| >= |ps|
    ensures forall n | 0 <= n < |WrapLines(ps, max)| :: |WrapLines(ps, max)[n]| <= max && '\n' !in WrapLines(ps, max)[n]
    decreases |ps|
  {
    if |ps| > 0 {
      WrapLinesShape(ps[..|ps| - 1], max);
      var p := ps[|ps| - 1];
      var last := WrapParagraph(p, max);
      WrapLinesSnoc(ps[..|ps| - 1], p, max);
      assert ps[..|ps| - 1] + [p] == ps;
      assert |last| >= 1;
      forall n | 0 <= n < |last| ensures |last[n]| <= max && '\n' !in last[n] {
        if |p| > max {
          WrapPieceChars(p, max);
        }
      }
    }
  }

  /** The shortcut for the empty text agrees with the general case. */
  lemma WrappedIsJoinOfLines(text: string, max: nat)
    ensures Wrapped(text, max) == Join(WrapLines(Split(text, '\n'), max), '\n')
  {
    if text == "" {
      WrapLinesSingle("", max);
    }
  }

  /** The empty text wraps to the empty text. */
  lemma EmptyTextWrapsToEmpty(max: nat)
    ensures Wrapped("", max) == ""
  {
  }

  /** Every line of the result, split at its newlines, is at most `max` characters long. */
  lemma WrappedLinesFit(text: string, max: nat)
    ensures forall line | line in Split(Wrapped(text, max), '\n') :: |line| <= max
  {
    var lines := WrapLines(Split(text, '\n'), max);
    WrappedIsJoinOfLines(text, max);
    WrapLinesShape(Split(text, '\n'), max);
    SplitJoin(lines, '\n');
  }

  /** A text whose paragraphs all fit is emitted unchanged. */
  lemma {:induction false} FittingTextUnchanged(text: string, max: nat)
    requires forall p | p in Split(text, '\n') :: |p| <= max
    ensures Wrapped(text, max) == text
  {
    var ps := Split(text, '\n');
    FittingLinesUnchanged(ps, max);
    WrappedIsJoinOfLines(text, max);
    JoinSplit(text, '\n');
  }

  lemma {:induction false} FittingLinesUnchanged(ps: seq<string>, max: nat)
    requires forall n | 0 <= n < |ps| :: |ps[n]| <= max
    ensures WrapLines(ps, max) == ps
    decreases |ps|
  {
    if |ps| > 0 {
      FittingLinesUnchanged(ps[..|ps| - 1], max);
      WrapLinesSnoc(ps[..|ps| - 1], ps[|ps| - 1], max);
      assert ps[..|ps| - 1] + [ps[|ps| - 1]] == ps;
    }
  }

  /** A single paragraph no longer than `max` is emitted unchanged. */
  lemma ShortParagraphUnchanged(p: string, max: nat)
    requires '\n' !in p && |p| <= max
    ensures Wrapped(p, max) == p
  {
    SplitWithoutSeparator(p, '\n');
    FittingTextUnchanged(p, max);
  }

  /** Wrapping an already wrapped text at the same width gives it back. */
  lemma WrapIdempotent(text: string, max: nat)
    ensures Wrapped(Wrapped(text, max), max) == Wrapped(text, max)
  {
    WrappedLinesFit(text, max);
    FittingTextUnchanged(Wrapped(text, max), max);
  }

  /** Paragraphs are wrapped independently: wrapping `a` newline `b` is wrapping `a`, a newline, wrapping `b`. */
  lemma ParagraphsIndependent(a: string, b: string, max: nat)
    requires '\n' !in a
    ensures Wrapped(a + "\n" + b, max) == Wrapped(a, max) + "\n" + Wrapped(b, max)
  {
    SplitAtFirstSeparator(a, b, '\n');
    SplitWithoutSeparator(a, '\n');
    WrappedIsJoinOfLines(a + "\n" + b, max);
    WrappedIsJoinOfLines(a, max);
    WrappedIsJoinOfLines(b, max);
    WrapLinesAppend([a], Split(b, '\n'), max);
    WrapLinesSingle(a, max);
    WrapLinesShape([a], max);
    WrapLinesShape(Split(b, '\n'), max);
    JoinAppend(WrapLines([a], max), WrapLines(Split(b, '\n'), max), '\n');
  }

  /** Wrapping keeps every character except at most one per line, the one at each cut. */
  lemma {:induction false} AtMostOneCharLostPerLine(r: string, max: nat)
    ensures TotalLength(WrapPiece(r, max)) <= |r| <= TotalLength(WrapPiece(r, max)) + |WrapPiece(r, max)|
    decreases |r|
  {
    if |r| > max {
      var b := BreakPos(r, max);
      var lines := WrapPiece(r, max);
      AtMostOneCharLostPerLine(r[b + 1..], max);
      assert lines[1..] == WrapPiece(r[b + 1..], max);
    }
  }

  /** A cut at a space keeps the text before the space and drops the space. */
  lemma SpaceBreakDropsSpace(r: string, max: nat, b: nat)
    requires max < |r| && 1 <= b <= max && r[b] == ' '
    requires NoSpaceBetween(r, b + 1, max)
    ensures WrapPiece(r, max) == [r[..b]] + WrapPiece(r[b + 1..], max)
  {
    var p := BreakPos(r, max);
    assert p == b;
  }

  /**
   * With no space from index 1 to `max`, the first line is the first `max`
   * characters and the character at index `max` is dropped even when it is not
   * a space.
   */
  lemma ForcedBreakDropsChar(r: string, max: nat)
    requires max < |r|
    requires NoSpaceBetween(r, 1, max)
    ensures WrapPiece(r, max) == [r[..max]] + WrapPiece(r[max + 1..], max)
  {
  }

  /** An instance: with width 3, "abcdefg" loses its 'd'. */
  lemma ForcedBreakExample(r: string)
    requires r == "abcdefg"
    ensures Wrapped(r, 3) == "abc\nefg"
  {
    assert NoSpaceBetween(r, 1, 3);
    ForcedBreakDropsChar(r, 3);
    assert r[..3] == "abc" && r[4..] == "efg";
    assert WrapPiece("efg", 3) == ["efg"];
    assert WrapParagraph(r, 3) == ["abc", "efg"];
    SingleParagraph(r, 3);
    assert Join(["abc", "efg"], '\n') == "abc\nefg" by {
      assert ["abc", "efg"][1..] == ["efg"];
    }
  }

  /** A paragraph at least two characters longer than `max` is broken: the result holds a newline. */
  lemma LongParagraphIsBroken(p: string, max: nat)
    requires '\n' !in p && |p| >= max + 2
    ensures '\n' in Wrapped(p, max)
  {
    SingleParagraph(p, max);
    var lines := WrapPiece(p, max);
    var b := BreakPos(p, max);
    assert lines == [p[..b]] + WrapPiece(p[b + 1..], max);
    assert |lines| >= 2;
    var joined := Join(lines, '\n');
    assert joined == lines[0] + "\n" + Join(lines[1..], '\n');
    assert joined[|lines[0]|] == '\n';
  }

  /**
   * The case `LongParagraphIsBroken` leaves out: a paragraph exactly one
   * character longer than `max`, with no space from index 1 to `max`, is cut at
   * `max`, the character there is skipped, and nothing is left for a second
   * line, so its last character is lost and no newline appears.
   */
  lemma OneOverLosesLastChar(p: string, max: nat)
    requires '\n' !in p && |p| == max + 1
    requires NoSpaceBetween(p, 1, max)
    ensures Wrapped(p, max) == p[..max]
  {
    SingleParagraph(p, max);
    ForcedBreakDropsChar(p, max);
    assert p[max + 1..] == "";
    assert WrapParagraph(p, max) == [p[..max]];
  }

  /** An instance: with width 3, "abcd" comes out as "abc". */
  lemma OneOverExample()
    ensures Wrapped("abcd", 3) == "abc"
  {
    assert NoSpaceBetween("abcd", 1, 3);
    OneOverLosesLastChar("abcd", 3);
    assert "abcd"[..3] == "abc";
  }
}
