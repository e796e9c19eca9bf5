/**
 * The chat message renderer as the loops it is written as: `MarkdownRenderer`
 * walks the lines of a message with an index and appends one block at a
 * time; each rule collects its run of lines with an inner loop; `Blockquote`
 * does the same inside a quote and calls itself for a nested quote. Each
 * method is proved to compute the function of `MarkdownBlocks` that states
 * its result, so the properties proved there hold of these loops.
 */
module Rendering {
  import opened JsText
  import opened InlineMarkdown
  import opened MarkdownBlocks

  /** Blocks already emitted in front of what the rest of the scan produces. */
  function Append(done: seq<Block>, o: Outcome): Outcome
  {
    match o
    case Finished(rest) => Finished(done + rest)
    case Stalls(k) => Stalls(k)
  }

  lemma AppendPrepend(done: seq<Block>, b: Block, o: Outcome)
    ensures Append(done + [b], o) == Append(done, Prepend(b, o))
  {
    match o
    case Finished(rest) => assert done + [b] + rest == done + ([b] + rest);
    case Stalls(k) =>
  }

  /**
   * The renderer. Where the scan as written stops advancing (a stuck line,
   * on which the original loop never ends) the method returns `Stalls` with
   * that line instead of running forever.
   */
  method MarkdownRenderer(content: string) returns (o: Outcome)
    ensures o == Render(content)
  {
    var lines := SplitLines(content);
    var blocks: seq<Block> := [];
    var i := 0;
    while i < |lines|
      invariant i <= |lines| + 1
      invariant Render(content) == Append(blocks, Segment(lines, i))
      decreases |lines| + 1 - i
    {
      var m := Step(lines, i);
      match m
      case Stall =>
        return Stalls(i);
      case Skip(n) =>
        i := n;
      case Emit(b, n) =>
        AppendPrepend(blocks, b, Segment(lines, n));
        blocks := blocks + [b];
        i := n;
    }
    assert blocks + [] == blocks;
    return Finished(blocks);
  }

  /**
   * The renderer as evidently intended: a stuck line opens a paragraph of
   * its own instead of holding the scan, so the loop always finishes.
   */
  method MarkdownRendererFixed(content: string) returns (blocks: seq<Block>)
    ensures blocks == RenderFixed(content)
  {
    var lines := SplitLines(content);
    blocks := [];
    var i := 0;
    while i < |lines|
      invariant i <= |lines| + 1
      invariant RenderFixed(content) == blocks + SegmentFixed(lines, i)
      decreases |lines| + 1 - i
    {
      var m := StepFixedAt(lines, i);
      if m.Emit? {
        assert blocks + ([m.block] + SegmentFixed(lines, m.next)) == blocks + [m.block] + SegmentFixed(lines, m.next);
        blocks := blocks + [m.block];
      }
      i := m.next;
    }
    assert blocks + [] == blocks;
  }

  /** The corrected step: the rules as written, with a stuck line opening a paragraph. */
  method StepFixedAt(lines: seq<string>, i: nat) returns (m: Move)
    requires i < |lines|
    ensures m == StepFixed(lines, i)
  {
    m := Step(lines, i);
    if m.Stall? {
      m := StuckParagraphAt(lines, i);
    }
  }

  /** The corrected paragraph rule: the line at `i`, then the non-blank, non-new-block lines after it. */
  method StuckParagraphAt(lines: seq<string>, i: nat) returns (m: Move)
    requires i < |lines|
    ensures var j := RunEnd(lines, i + 1, ParagraphLines);
      m == Emit(Paragraph(ParseLines(lines[i..j])), j)
  {
    var pLines: seq<string> := [lines[i]];
    var j := i + 1;
    while j < |lines| && !IsBlank(lines[j]) && !IsNewBlock(lines[j])
      invariant i + 1 <= j <= |lines|
      invariant forall k :: i + 1 <= k < j ==> InRun(ParagraphLines, lines[k])
      invariant pLines == lines[i..j]
    {
      pLines := pLines + [lines[j]];
      j := j + 1;
    }
    RunEndUnique(lines, i + 1, j, ParagraphLines);
    var content := ParseAll(pLines);
    m := Emit(Paragraph(content), j);
  }

  /** The rules in priority order at line `i`. */
  method Step(lines: seq<string>, i: nat) returns (m: Move)
    requires i < |lines|
    ensures m == StepAt(lines, i)
  {
    var line := lines[i];
    if IsFence(line) {
      m := CodeBlockAt(lines, i);
    } else if IsHeading(line) {
      var content := ParseInlineMarkdown(HeadingText(line));
      m := Emit(Heading(Hashes(line), content), i + 1);
    } else if IsRule(line) {
      m := Emit(Rule, i + 1);
    } else if IsQuoteLine(line) {
      m := BlockquoteAt(lines, i);
    } else if IsTask(line) {
      m := TaskListAt(lines, i);
    } else if IsBullet(line) {
      m := BulletListAt(lines, i);
    } else if !IsBlank(line) {
      m := ParagraphAt(lines, i);
    } else {
      m := Skip(i + 1);
    }
  }

  /** The code lines after the opening fence, up to the closing fence or the end. */
  method CodeBlockAt(lines: seq<string>, i: nat) returns (m: Move)
    requires i < |lines| && IsFence(lines[i])
    ensures m == FenceMove(lines, i)
  {
    var lang := Trim(lines[i][3..]);
    var codeLines: seq<string> := [];
    var j := i + 1;
    while j < |lines| && !IsFence(lines[j])
      invariant i + 1 <= j <= |lines|
      invariant forall k :: i + 1 <= k < j ==> InRun(CodeLines, lines[k])
      invariant codeLines == lines[i + 1..j]
    {
      codeLines := codeLines + [lines[j]];
      j := j + 1;
    }
    RunEndUnique(lines, i + 1, j, CodeLines);
    m := Emit(CodeBlock(lang, Join(codeLines)), j + 1);
  }

  /** The run of `>` lines, each with one `>` stripped, rendered as a quote at depth 0. */
  method BlockquoteAt(lines: seq<string>, i: nat) returns (m: Move)
    requires i < |lines| && IsQuoteLine(lines[i])
    ensures m == QuoteMove(lines, i)
  {
    var bqLines, j := StripRun(lines, i);
    var b := Blockquote(bqLines, 0);
    m := Emit(b, j);
  }

  /** Collects the run of `>` lines from `i`, stripping one `>` from each. */
  method StripRun(lines: seq<string>, i: nat) returns (stripped: seq<string>, j: nat)
    requires i <= |lines|
    ensures j == RunEnd(lines, i, QuoteLines)
    ensures stripped == StripAll(lines[i..j])
  {
    stripped := [];
    j := i;
    while j < |lines| && IsQuoteLine(lines[j])
      invariant i <= j <= |lines|
      invariant forall k :: i <= k < j ==> InRun(QuoteLines, lines[k])
      invariant |stripped| == j - i
      invariant forall k :: 0 <= k < j - i ==> stripped[k] == StripQuote(lines[i + k])
    {
      stripped := stripped + [StripQuote(lines[j])];
      j := j + 1;
    }
    RunEndUnique(lines, i, j, QuoteLines);
  }

  /** The run of task lines, each with its box and its formatted text. */
  method TaskListAt(lines: seq<string>, i: nat) returns (m: Move)
    requires i < |lines| && IsTask(lines[i])
    ensures m == TaskMove(lines, i)
  {
    var items: seq<TaskItem> := [];
    var j := i;
    while j < |lines| && IsTask(lines[j])
      invariant i <= j <= |lines|
      invariant forall k :: i <= k < j ==> InRun(TaskLines, lines[k])
      invariant |items| == j - i
      invariant forall k :: 0 <= k < j - i ==> items[k] == TaskOf(lines[i + k])
    {
      var l := lines[j];
      var content := ParseInlineMarkdown(UntilLineTerminator(l[6..]));
      items := items + [TaskItem(l[3] == 'x' || l[3] == 'X', content)];
      j := j + 1;
    }
    RunEndUnique(lines, i, j, TaskLines);
    assert items == seq(j - i, k requires 0 <= k < j - i => TaskOf(lines[i + k]));
    m := Emit(TaskList(items), j);
  }

  /** The run of bullet lines, stopping at a line that is not a bullet or is a task. */
  method BulletListAt(lines: seq<string>, i: nat) returns (m: Move)
    requires i < |lines| && IsBullet(lines[i]) && !IsTask(lines[i])
    ensures m == BulletMove(lines, i)
  {
    var texts, j := BulletRun(lines, i);
    var items := ParseAll(texts);
    BulletTexts(lines, i, j, texts);
    m := Emit(BulletList(items), j);
  }

  /** Formatting the collected texts gives the items of the bullet lines. */
  lemma BulletTexts(lines: seq<string>, i: nat, j: nat, texts: seq<string>)
    requires i <= j <= |lines|
    requires forall k :: i <= k < j ==> IsBullet(lines[k])
    requires |texts| == j - i
    requires forall k :: 0 <= k < j - i ==> texts[k] == BulletText(lines[i + k])
    ensures ParseLines(texts) == BulletItems(lines, i, j)
  {
    var want := BulletItems(lines, i, j);
    forall k | 0 <= k < j - i ensures ParseLines(texts)[k] == want[k] {
      assert texts[k] == BulletText(lines[i + k]);
    }
  }

  /** Collects the texts of the run of bullet lines from `i`. */
  method BulletRun(lines: seq<string>, i: nat) returns (texts: seq<string>, j: nat)
    requires i <= |lines|
    ensures j == RunEnd(lines, i, BulletLines)
    ensures |texts| == j - i
    ensures forall k :: 0 <= k < j - i ==> texts[k] == BulletText(lines[i + k])
  {
    texts := [];
    j := i;
    while j < |lines| && IsBullet(lines[j]) && !IsTask(lines[j])
      invariant i <= j <= |lines|
      invariant forall k :: i <= k < j ==> InRun(BulletLines, lines[k])
      invariant |texts| == j - i
      invariant forall k :: 0 <= k < j - i ==> texts[k] == BulletText(lines[i + k])
    {
      texts := texts + [BulletText(lines[j])];
      j := j + 1;
    }
    RunEndUnique(lines, i, j, BulletLines);
  }

  /** The run of non-blank lines that pass no new-block test; an empty run stalls the scan. */
  method ParagraphAt(lines: seq<string>, i: nat) returns (m: Move)
    requires i < |lines|
    ensures m == ParagraphMove(lines, i)
  {
    var pLines: seq<string> := [];
    var j := i;
    while j < |lines| && !IsBlank(lines[j]) && !IsNewBlock(lines[j])
      invariant i <= j <= |lines|
      invariant forall k :: i <= k < j ==> InRun(ParagraphLines, lines[k])
      invariant pLines == lines[i..j]
    {
      pLines := pLines + [lines[j]];
      j := j + 1;
    }
    RunEndUnique(lines, i, j, ParagraphLines);
    if |pLines| > 0 {
      var content := ParseAll(pLines);
      m := Emit(Paragraph(content), j);
    } else {
      m := Stall;
    }
  }

  /** Every line formatted on its own, in order. */
  method ParseAll(ls: seq<string>) returns (r: seq<seq<Inline>>)
    ensures r == ParseLines(ls)
  {
    r := [];
    var k := 0;
    while k < |ls|
      invariant k <= |ls|
      invariant |r| == k
      invariant forall t :: 0 <= t < k ==> r[t] == Parse(ls[t])
    {
      var nodes := ParseInlineMarkdown(ls[k]);
      r := r + [nodes];
      k := k + 1;
    }
  }

  /**
   * `<Blockquote lines depth>`: a run of `>` lines becomes a nested quote
   * one level deeper, a run of other lines becomes its paragraphs.
   */
  method Blockquote(lines: seq<string>, depth: nat) returns (b: Block)
    ensures b == QuoteBlock(lines, depth)
    decreases TotalLength(lines), 1
  {
    var elements: seq<Block> := [];
    var i := 0;
    while i < |lines|
      invariant i <= |lines|
      invariant QuoteChildren(lines, 0, depth) == elements + QuoteChildren(lines, i, depth)
      decreases |lines| - i
    {
      var more, j;
      if IsQuoteLine(lines[i]) {
        more, j := NestedQuoteAt(lines, i, depth);
      } else {
        more, j := QuoteParagraphsAt(lines, i, depth);
      }
      assert elements + more + QuoteChildren(lines, j, depth)
        == elements + (more + QuoteChildren(lines, j, depth));
      elements := elements + more;
      i := j;
    }
    assert elements + [] == elements;
    b := Quote(depth, elements);
  }

  /** A run of `>` lines inside a quote at `depth`: one quote a level deeper. */
  method NestedQuoteAt(lines: seq<string>, i: nat, depth: nat) returns (more: seq<Block>, j: nat)
    requires i < |lines| && IsQuoteLine(lines[i])
    ensures i < j <= |lines|
    ensures QuoteChildren(lines, i, depth) == more + QuoteChildren(lines, j, depth)
    decreases TotalLength(lines), 0
  {
    var nested;
    nested, j := StripRun(lines, i);
    StripAllShorter(lines[i..j]);
    TotalLengthSlice(lines, i, j);
    var child := Blockquote(nested, depth + 1);
    more := [child];
  }

  /** A run of other lines inside a quote: its paragraphs. */
  method QuoteParagraphsAt(lines: seq<string>, i: nat, depth: nat) returns (more: seq<Block>, j: nat)
    requires i < |lines| && !IsQuoteLine(lines[i])
    ensures i < j <= |lines|
    ensures QuoteChildren(lines, i, depth) == more + QuoteChildren(lines, j, depth)
  {
    var pLines;
    pLines, j := OtherRun(lines, i);
    more := QuoteParagraphs(pLines);
  }

  /** Collects the run of lines from `i` that do not start with `>`. */
  method OtherRun(lines: seq<string>, i: nat) returns (pLines: seq<string>, j: nat)
    requires i <= |lines|
    ensures j == RunEnd(lines, i, OtherLines)
    ensures pLines == lines[i..j]
  {
    pLines := [];
    j := i;
    while j < |lines| && !IsQuoteLine(lines[j])
      invariant i <= j <= |lines|
      invariant forall k :: i <= k < j ==> InRun(OtherLines, lines[k])
      invariant pLines == lines[i..j]
    {
      pLines := pLines + [lines[j]];
      j := j + 1;
    }
    RunEndUnique(lines, i, j, OtherLines);
  }

  /** The paragraphs of a run of unquoted lines inside a quote, each line formatted. */
  method QuoteParagraphs(pLines: seq<string>) returns (ps: seq<Block>)
    requires |pLines| >= 1
    ensures ps == ParagraphBlocks(Paragraphs(pLines))
  {
    var groups := Paragraphs(pLines);
    ps := [];
    var k := 0;
    while k < |groups|
      invariant k <= |groups|
      invariant |ps| == k
      invariant forall t :: 0 <= t < k ==> ps[t] == Paragraph(ParseLines(groups[t]))
    {
      var content := ParseAll(groups[k]);
      ps := ps + [Paragraph(content)];
      k := k + 1;
    }
  }
}
