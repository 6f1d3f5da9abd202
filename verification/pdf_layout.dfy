/**
 * Page layout in the PDF index (Services/PdfIndexService.cs): converting PDF rectangles
 * (origin at the bottom-left corner, in points) to page fractions measured from the top,
 * and grouping the words of a page into line chunks.
 *
 * Word boxes come from the PDF parser; here they are plain inputs.
 */
module PdfLayout {
  import opened Wrappers
  import opened Text
  import opened Linq
  import opened PdfIndexModels

  /** A word as the PDF parser reports it: its text and the edges of its bounding box. */
  datatype Word = Word(text: string, left: real, bottom: real, right: real, top: real)

  /** A rectangle in PDF page coordinates: bottom-left corner, width and height. */
  datatype Box = Box(left: real, bottom: real, width: real, height: real)

  /** Words whose bottoms differ by at most this much belong to the same line. */
  const LineTolerance: real := 2.5

  // ---------------------------------------------------------------------------
  // GetNormalizedRect
  // ---------------------------------------------------------------------------

  /** `GetNormalizedRect`: the box as fractions of the page, its y taken from the top edge. */
  function NormalizedRect(r: Box, pageWidth: real, pageHeight: real): (n: PdfRect)
    requires pageWidth > 0.0 && pageHeight > 0.0
  {
    PdfRect(r.left / pageWidth, (pageHeight - (r.bottom + r.height)) / pageHeight, r.width / pageWidth, r.height / pageHeight)
  }

  /** The inverse conversion, from page fractions back to PDF coordinates. */
  function PageBox(n: PdfRect, pageWidth: real, pageHeight: real): Box
  {
    Box(n.x * pageWidth, pageHeight - (n.y + n.height) * pageHeight, n.width * pageWidth, n.height * pageHeight)
  }

  /** Normalising loses nothing: converting back gives the original box. */
  lemma {:induction false} NormalizedRectRoundTrip(r: Box, pageWidth: real, pageHeight: real)
    requires pageWidth > 0.0 && pageHeight > 0.0
    ensures PageBox(NormalizedRect(r, pageWidth, pageHeight), pageWidth, pageHeight) == r
  {
    var n := NormalizedRect(r, pageWidth, pageHeight);
    assert n.x * pageWidth == r.left;
    assert n.width * pageWidth == r.width;
    assert n.height * pageHeight == r.height;
    assert n.y * pageHeight == pageHeight - (r.bottom + r.height);
    assert (n.y + n.height) * pageHeight == n.y * pageHeight + n.height * pageHeight;
  }

  /** A box inside the page becomes a rectangle inside the unit square. */
  lemma {:induction false} NormalizedRectInsidePage(r: Box, pageWidth: real, pageHeight: real)
    requires pageWidth > 0.0 && pageHeight > 0.0
    requires 0.0 <= r.left && 0.0 <= r.width && r.left + r.width <= pageWidth
    requires 0.0 <= r.bottom && 0.0 <= r.height && r.bottom + r.height <= pageHeight
    ensures var n := NormalizedRect(r, pageWidth, pageHeight);
      0.0 <= n.x && 0.0 <= n.width && n.x + n.width <= 1.0
      && 0.0 <= n.y && 0.0 <= n.height && n.y + n.height <= 1.0
  {
    var n := NormalizedRect(r, pageWidth, pageHeight);
    FractionBounds(r.left, r.width, pageWidth);
    FractionBounds(pageHeight - (r.bottom + r.height), r.height, pageHeight);
  }

  lemma {:induction false} FractionBounds(a: real, b: real, d: real)
    requires d > 0.0 && 0.0 <= a && 0.0 <= b && a + b <= d
    ensures 0.0 <= a / d && 0.0 <= b / d && a / d + b / d <= 1.0
  {
    assert a / d + b / d == (a + b) / d;
  }

  // ---------------------------------------------------------------------------
  // BuildChunk
  // ---------------------------------------------------------------------------

  function MinOf(xs: seq<real>): (m: real)
    requires xs != []
    ensures m in xs && forall x :: x in xs ==> m <= x
  {
    if |xs| == 1 then xs[0]
    else
      var rest := MinOf(xs[1..]);
      assert xs == [xs[0]] + xs[1..];
      if xs[0] <= rest then xs[0] else rest
  }

  function MaxOf(xs: seq<real>): (m: real)
    requires xs != []
    ensures m in xs && forall x :: x in xs ==> x <= m
  {
    if |xs| == 1 then xs[0]
    else
      var rest := MaxOf(xs[1..]);
      assert xs == [xs[0]] + xs[1..];
      if xs[0] >= rest then xs[0] else rest
  }

  function Texts(words: seq<Word>): (r: seq<string>)
    ensures |r| == |words| && forall k :: 0 <= k < |words| ==> r[k] == words[k].text
  {
    seq(|words|, k requires 0 <= k < |words| => words[k].text)
  }

  /** The four edges of a word's box. */
  datatype Edge = LeftEdge | RightEdge | BottomEdge | TopEdge

  function EdgeOf(w: Word, e: Edge): real
  {
    match e
    case LeftEdge => w.left
    case RightEdge => w.right
    case BottomEdge => w.bottom
    case TopEdge => w.top
  }

  /** One edge of every word, in order. */
  function Project(words: seq<Word>, e: Edge): (r: seq<real>)
    ensures |r| == |words| && forall k :: 0 <= k < |words| ==> r[k] == EdgeOf(words[k], e)
  {
    seq(|words|, k requires 0 <= k < |words| => EdgeOf(words[k], e))
  }

  /** Every word's edge is among the projected coordinates. */
  lemma {:induction false} ProjectCovers(words: seq<Word>, e: Edge, w: Word)
    requires w in words
    ensures EdgeOf(w, e) in Project(words, e)
  {
    var k :| 0 <= k < |words| && words[k] == w;
    assert Project(words, e)[k] == EdgeOf(w, e);
  }

  /** Every projected coordinate is some word's edge. */
  lemma {:induction false} ProjectAttained(words: seq<Word>, e: Edge, x: real)
    requires x in Project(words, e)
    ensures exists w :: w in words && EdgeOf(w, e) == x
  {
    var k :| 0 <= k < |words| && Project(words, e)[k] == x;
    assert words[k] in words;
  }

  /** The smallest box holding every word of the line, in PDF coordinates. */
  function SpanBox(words: seq<Word>): Box
    requires words != []
  {
    var left := MinOf(Project(words, LeftEdge));
    var right := MaxOf(Project(words, RightEdge));
    var bottom := MinOf(Project(words, BottomEdge));
    var top := MaxOf(Project(words, TopEdge));
    Box(left, bottom, right - left, top - bottom)
  }

  /** `BuildChunk`: the words joined by single spaces, with their common box as fractions of the page. */
  function BuildChunk(words: seq<Word>, pageWidth: real, pageHeight: real): (c: TextChunk)
    requires words != [] && pageWidth > 0.0 && pageHeight > 0.0
  {
    TextChunk(Join(Texts(words), " "), NormalizedRect(SpanBox(words), pageWidth, pageHeight), None)
  }

  /** Every word lies inside the span box. */
  lemma {:induction false} SpanBoxCovers(words: seq<Word>, w: Word)
    requires w in words
    ensures var b := SpanBox(words);
      b.left <= w.left && w.right <= b.left + b.width && b.bottom <= w.bottom && w.top <= b.bottom + b.height
  {
    ProjectCovers(words, LeftEdge, w);
    ProjectCovers(words, RightEdge, w);
    ProjectCovers(words, BottomEdge, w);
    ProjectCovers(words, TopEdge, w);
  }

  /** Each of the span box's four edges is some word's edge. */
  lemma {:induction false} SpanBoxTight(words: seq<Word>)
    requires words != []
    ensures var b := SpanBox(words);
      (exists w :: w in words && w.left == b.left) && (exists w :: w in words && w.right == b.left + b.width)
      && (exists w :: w in words && w.bottom == b.bottom) && (exists w :: w in words && w.top == b.bottom + b.height)
  {
    var b := SpanBox(words);
    ProjectAttained(words, LeftEdge, b.left);
    ProjectAttained(words, RightEdge, b.left + b.width);
    ProjectAttained(words, BottomEdge, b.bottom);
    ProjectAttained(words, TopEdge, b.bottom + b.height);
    var wl :| wl in words && EdgeOf(wl, LeftEdge) == b.left;
    var wr :| wr in words && EdgeOf(wr, RightEdge) == b.left + b.width;
    var wb :| wb in words && EdgeOf(wb, BottomEdge) == b.bottom;
    var wt :| wt in words && EdgeOf(wt, TopEdge) == b.bottom + b.height;
  }

  /** Every word lies inside the span box, and each of its four edges is some word's edge. */
  lemma {:induction false} SpanBoxSpec(words: seq<Word>)
    requires words != []
    ensures var b := SpanBox(words);
      forall w :: w in words ==>
        b.left <= w.left && w.right <= b.left + b.width && b.bottom <= w.bottom && w.top <= b.bottom + b.height
    ensures var b := SpanBox(words);
      (exists w :: w in words && w.left == b.left) && (exists w :: w in words && w.right == b.left + b.width)
      && (exists w :: w in words && w.bottom == b.bottom) && (exists w :: w in words && w.top == b.bottom + b.height)
  {
    forall w | w in words
      ensures var b := SpanBox(words);
        b.left <= w.left && w.right <= b.left + b.width && b.bottom <= w.bottom && w.top <= b.bottom + b.height
    {
      SpanBoxCovers(words, w);
    }
    SpanBoxTight(words);
  }

  /** When word texts hold no spaces, splitting a chunk's text on spaces gives its words back. */
  lemma {:induction false} BuildChunkText(words: seq<Word>, pageWidth: real, pageHeight: real)
    requires words != [] && pageWidth > 0.0 && pageHeight > 0.0
    requires forall w :: w in words ==> IsField(w.text, ' ')
    ensures SplitRemoveEmpty(BuildChunk(words, pageWidth, pageHeight).text, ' ') == Texts(words)
    ensures BuildChunk(words, pageWidth, pageHeight).embedding.None?
  {
    var texts := Texts(words);
    forall t | t in texts
      ensures IsField(t, ' ')
    {
      var k :| 0 <= k < |texts| && texts[k] == t;
      assert words[k] in words;
    }
    SplitJoinRoundTrip(texts, ' ');
  }

  // ---------------------------------------------------------------------------
  // ExtractTextChunks
  // ---------------------------------------------------------------------------

  function Abs(x: real): real
  {
    if x < 0.0 then -x else x
  }

  /** Reading order: higher bottoms first, then left to right. */
  function ReadingOrder(): (Word, Word) -> bool
  {
    (a: Word, b: Word) => a.bottom > b.bottom || (a.bottom == b.bottom && a.left < b.left)
  }

  /** `OrderByDescending(bottom).ThenBy(left)` sorts by a strict weak order. */
  lemma {:induction false} ReadingOrderIsStrictWeak()
    ensures StrictWeakOrder(ReadingOrder())
  {
  }

  /** The words are all within the tolerance of the line's first word. */
  ghost predicate SameLine(line: seq<Word>)
  {
    line != [] && forall k :: 0 <= k < |line| ==> Abs(line[k].bottom - line[0].bottom) <= LineTolerance
  }

  /** The state of the grouping loop after some words: the finished lines and the open line. */
  datatype Grouping = Grouping(closed: seq<seq<Word>>, open: seq<Word>)

  /** The grouping loop of `ExtractTextChunks` over the sorted words. */
  function Grouped(words: seq<Word>): Grouping
  {
    if words == [] then Grouping([], [])
    else
      var g := Grouped(words[..|words| - 1]);
      var w := words[|words| - 1];
      if g.open == [] then Grouping(g.closed, [w])
      else if Abs(w.bottom - g.open[0].bottom) <= LineTolerance then Grouping(g.closed, g.open + [w])
      else Grouping(g.closed + [g.open], [w])
  }

  /** All lines, the open one included once the words run out. */
  function Lines(words: seq<Word>): seq<seq<Word>>
  {
    var g := Grouped(words);
    if g.open == [] then g.closed else g.closed + [g.open]
  }

  /** Line `b` starts on a bottom more than the tolerance away from the start of line `a`. */
  ghost predicate Break(a: seq<Word>, b: seq<Word>)
  {
    a != [] && b != [] && Abs(b[0].bottom - a[0].bottom) > LineTolerance
  }

  /** Consecutive lines start on bottoms more than the tolerance apart. */
  ghost predicate Breaks(lines: seq<seq<Word>>)
  {
    forall i :: 0 <= i < |lines| - 1 ==> Break(lines[i], lines[i + 1])
  }

  lemma {:induction false} BreaksSnoc(lines: seq<seq<Word>>, l: seq<Word>)
    requires Breaks(lines) && (lines != [] ==> Break(lines[|lines| - 1], l))
    ensures Breaks(lines + [l])
  {
    var r := lines + [l];
    forall i | 0 <= i < |r| - 1
      ensures Break(r[i], r[i + 1])
    {
      if i + 1 < |lines| {
        assert r[i] == lines[i] && r[i + 1] == lines[i + 1];
      }
    }
  }

  /** One step of the grouping loop. */
  lemma {:induction false} GroupedSnoc(prefix: seq<Word>, w: Word)
    ensures var g := Grouped(prefix);
      Grouped(prefix + [w]) ==
        if g.open == [] then Grouping(g.closed, [w])
        else if Abs(w.bottom - g.open[0].bottom) <= LineTolerance then Grouping(g.closed, g.open + [w])
        else Grouping(g.closed + [g.open], [w])
  {
    var s := prefix + [w];
    assert s[..|s| - 1] == prefix && s[|s| - 1] == w;
  }

  /** One step of the grouping loop, at position i of the sorted words. */
  lemma {:induction false} GroupedStep(sorted: seq<Word>, i: nat)
    requires i < |sorted|
    ensures var g := Grouped(sorted[..i]);
      Grouped(sorted[..i + 1]) ==
        if g.open == [] then Grouping(g.closed, [sorted[i]])
        else if Abs(sorted[i].bottom - g.open[0].bottom) <= LineTolerance then Grouping(g.closed, g.open + [sorted[i]])
        else Grouping(g.closed + [g.open], [sorted[i]])
  {
    assert sorted[..i + 1] == sorted[..i] + [sorted[i]];
    GroupedSnoc(sorted[..i], sorted[i]);
  }

  lemma {:induction false} GroupedFlatten(words: seq<Word>)
    ensures Flatten(Grouped(words).closed) + Grouped(words).open == words
    ensures Grouped(words).open == [] <==> words == []
    decreases |words|
  {
    if words != [] {
      var init := words[..|words| - 1];
      var w := words[|words| - 1];
      assert words == init + [w];
      GroupedFlatten(init);
      GroupedSnoc(init, w);
      var g := Grouped(init);
      FlattenAppend(g.closed, g.open);
    }
  }

  lemma {:induction false} GroupedSameLine(words: seq<Word>)
    ensures forall i :: 0 <= i < |Grouped(words).closed| ==> SameLine(Grouped(words).closed[i])
    ensures Grouped(words).open != [] ==> SameLine(Grouped(words).open)
    decreases |words|
  {
    if words != [] {
      var init := words[..|words| - 1];
      var w := words[|words| - 1];
      assert words == init + [w];
      GroupedSameLine(init);
      GroupedSnoc(init, w);
    }
  }

  /** Adding a word to the last line keeps that line's first word, so no break changes. */
  lemma {:induction false} BreaksExtendLast(closed: seq<seq<Word>>, open: seq<Word>, w: Word)
    requires open != [] && Breaks(closed + [open])
    ensures Breaks(closed + [open + [w]])
  {
    var before := closed + [open];
    var after := closed + [open + [w]];
    forall i | 0 <= i < |after| - 1
      ensures Break(after[i], after[i + 1])
    {
      assert Break(before[i], before[i + 1]);
      assert after[i] == before[i];
      if i + 1 < |closed| {
        assert after[i + 1] == before[i + 1];
      } else {
        assert after[i + 1][0] == open[0] == before[i + 1][0];
      }
    }
  }

  lemma {:induction false} GroupedBreaks(words: seq<Word>)
    ensures Breaks(Lines(words))
    decreases |words|
  {
    if words != [] {
      var init := words[..|words| - 1];
      var w := words[|words| - 1];
      assert words == init + [w];
      GroupedBreaks(init);
      GroupedFlatten(init);
      GroupedSnoc(init, w);
      var g := Grouped(init);
      if g.open == [] {
        assert Lines(words) == [[w]];
      } else if Abs(w.bottom - g.open[0].bottom) <= LineTolerance {
        assert Lines(init) == g.closed + [g.open];
        assert Lines(words) == g.closed + [g.open + [w]];
        BreaksExtendLast(g.closed, g.open, w);
      } else {
        assert Lines(init) == g.closed + [g.open];
        assert Lines(words) == Lines(init) + [[w]];
        BreaksSnoc(Lines(init), [w]);
      }
    }
  }

  /**
   * Line grouping: every word lands in exactly one line, in order; no line is empty;
   * each line's words lie within 2.5 of its first word's bottom; and a new line starts
   * exactly where a word is further than that from the current line's first word.
   */
  lemma {:induction false} LinesSpec(words: seq<Word>)
    ensures Flatten(Lines(words)) == words
    ensures Lines(words) == [] <==> words == []
    ensures forall i :: 0 <= i < |Lines(words)| ==> SameLine(Lines(words)[i])
    ensures Breaks(Lines(words))
  {
    GroupedFlatten(words);
    GroupedSameLine(words);
    GroupedBreaks(words);
    var g := Grouped(words);
    if g.open != [] {
      var lines := g.closed + [g.open];
      assert Lines(words) == lines;
      FlattenAppend(g.closed, g.open);
      forall i | 0 <= i < |lines|
        ensures SameLine(lines[i])
      {
        if i < |g.closed| {
          assert lines[i] == g.closed[i];
        }
      }
    } else {
      assert Lines(words) == g.closed;
    }
  }

  /** No line is empty. */
  ghost predicate NonEmptyLines(lines: seq<seq<Word>>)
  {
    forall i :: 0 <= i < |lines| ==> lines[i] != []
  }

  /** The chunk of every line. */
  function ChunksOf(lines: seq<seq<Word>>, pageWidth: real, pageHeight: real): (r: seq<TextChunk>)
    requires pageWidth > 0.0 && pageHeight > 0.0
    requires NonEmptyLines(lines)
    ensures |r| == |lines|
  {
    seq(|lines|, i requires 0 <= i < |lines| => BuildChunk(lines[i], pageWidth, pageHeight))
  }

  lemma {:induction false} ChunksOfSnoc(lines: seq<seq<Word>>, line: seq<Word>, pageWidth: real, pageHeight: real)
    requires pageWidth > 0.0 && pageHeight > 0.0
    requires NonEmptyLines(lines) && line != []
    ensures NonEmptyLines(lines + [line])
    ensures ChunksOf(lines + [line], pageWidth, pageHeight) == ChunksOf(lines, pageWidth, pageHeight) + [BuildChunk(line, pageWidth, pageHeight)]
  {
  }

  /** The words of a page in reading order. */
  function SortedWords(words: seq<Word>): seq<Word>
  {
    SortBy(words, ReadingOrder())
  }

  /** `ExtractTextChunks`: one chunk per line of the words in reading order. */
  function TextChunksOf(words: seq<Word>, pageWidth: real, pageHeight: real): seq<TextChunk>
    requires pageWidth > 0.0 && pageHeight > 0.0
  {
    LinesSpec(SortedWords(words));
    ChunksOf(Lines(SortedWords(words)), pageWidth, pageHeight)
  }

  /** The sorted words form the chunks: each of the page's words is in exactly one of them. */
  lemma {:induction false} TextChunksSpec(words: seq<Word>, pageWidth: real, pageHeight: real)
    requires pageWidth > 0.0 && pageHeight > 0.0
    ensures multiset(Flatten(Lines(SortedWords(words)))) == multiset(words)
    ensures Ordered(Flatten(Lines(SortedWords(words))), ReadingOrder())
    ensures |TextChunksOf(words, pageWidth, pageHeight)| == |Lines(SortedWords(words))|
  {
    LinesSpec(SortedWords(words));
    SortByPermutes(words, ReadingOrder());
    ReadingOrderIsStrictWeak();
    SortByOrdered(words, ReadingOrder());
  }

  /** `ExtractTextChunks` with its line buffer and current line position. */
  method ExtractTextChunks(words: seq<Word>, pageWidth: real, pageHeight: real) returns (chunks: seq<TextChunk>)
    requires pageWidth > 0.0 && pageHeight > 0.0
    ensures chunks == TextChunksOf(words, pageWidth, pageHeight)
  {
    var sorted := SortedWords(words);
    var line: seq<Word> := [];
    var currentY := 0.0;
    ghost var closed: seq<seq<Word>> := [];
    chunks := [];
    for i := 0 to |sorted|
      invariant Grouped(sorted[..i]) == Grouping(closed, line)
      invariant NonEmptyLines(closed)
      invariant chunks == ChunksOf(closed, pageWidth, pageHeight)
      invariant line != [] ==> currentY == line[0].bottom
    {
      GroupedStep(sorted, i);
      var word := sorted[i];
      var y := word.bottom;
      if line == [] {
        line := [word];
        currentY := y;
        continue;
      }
      if Abs(y - currentY) <= LineTolerance {
        line := line + [word];
      } else {
        ChunksOfSnoc(closed, line, pageWidth, pageHeight);
        chunks := chunks + [BuildChunk(line, pageWidth, pageHeight)];
        closed := closed + [line];
        line := [word];
        currentY := y;
      }
    }
    assert sorted[..|sorted|] == sorted;
    if line != [] {
      ChunksOfSnoc(closed, line, pageWidth, pageHeight);
      chunks := chunks + [BuildChunk(line, pageWidth, pageHeight)];
      closed := closed + [line];
    }
    assert closed == Lines(sorted);
  }
}
