/**
 * The block level of the chat message renderer (`MarkdownRenderer` and
 * `Blockquote`). The message is split into lines and scanned from the top;
 * at each line the first rule that applies, in a fixed priority order,
 * decides the block that starts there and how many lines it takes: a fenced
 * code block, a heading, a horizontal rule, a block quote, a task list, a
 * bullet list, a paragraph, or else a blank line that is skipped.
 *
 * The paragraph rule, as written, can take no line at all: a non-blank line
 * that looks like the start of a new block to the paragraph's stop test
 * (`isNewBlock`) although none of the earlier rules took it. The scan then
 * never moves past that line. `Segment` reports this as `Stalls(i)`;
 * `SegmentFixed` is the renderer with the paragraph rule taking its first
 * line unconditionally.
 */
module MarkdownBlocks {
  import opened JsText
  import opened InlineMarkdown

  /** One entry of a task list: whether its box is ticked, and its formatted text. */
  datatype TaskItem = TaskItem(checked: bool, content: seq<Inline>)

  /**
   * A rendered block. A quote records its nesting depth, 0 for a quote at
   * the top level of a message, and its own blocks; a paragraph and a list
   * hold one formatted line per source line.
   */
  datatype Block =
    | CodeBlock(language: string, code: string)
    | Heading(level: nat, content: seq<Inline>)
    | Rule
    | Quote(depth: nat, children: seq<Block>)
    | TaskList(tasks: seq<TaskItem>)
    | BulletList(items: seq<seq<Inline>>)
    | Paragraph(lines: seq<seq<Inline>>)

  /** What the top-level scan produces: all blocks, or the line where it stops advancing. */
  datatype Outcome = Finished(blocks: seq<Block>) | Stalls(line: nat)

  // ---------------------------------------------------------------------
  // Line classification, one predicate per regular expression of the renderer
  // ---------------------------------------------------------------------

  /** `line.startsWith('```')`. */
  predicate IsFence(l: string)
  {
    StartsWith(l, "```")
  }

  /** The number of `#` characters that open the line. */
  function Hashes(l: string): (h: nat)
    ensures h <= |l|
    ensures forall k :: 0 <= k < h ==> l[k] == '#'
    ensures h < |l| ==> l[h] != '#'
  {
    if l != [] && l[0] == '#' then 1 + Hashes(l[1..]) else 0
  }

  /** `/^(#{1,6})\s+(.*)/`: one to six `#`, then at least one whitespace character. */
  predicate IsHeading(l: string)
  {
    var h := Hashes(l);
    1 <= h <= 6 && h < |l| && IsSpace(l[h])
  }

  /** The second group of the heading expression: after the whitespace, up to a line terminator. */
  function HeadingText(l: string): string
    requires IsHeading(l)
  {
    UntilLineTerminator(TrimStart(l[Hashes(l)..]))
  }

  /** `/^(---|___|\*\*\*)\s*$/`: three rule characters and only whitespace after them. */
  predicate IsRule(l: string)
  {
    |l| >= 3 && (l[..3] == "---" || l[..3] == "___" || l[..3] == "***") && IsBlank(l[3..])
  }

  /** `line.startsWith('>')`. */
  predicate IsQuoteLine(l: string)
  {
    StartsWith(l, ">")
  }

  /** `line.replace(/^>\s?/, '')`: the `>` and at most one whitespace character after it go. */
  function StripQuote(l: string): (r: string)
    requires IsQuoteLine(l)
    ensures |r| < |l| && r == l[|l| - |r|..]
  {
    if |l| >= 2 && IsSpace(l[1]) then l[2..] else l[1..]
  }

  /** `/^- \[(x| )\] (.*)/i`: a dash, a space, a box holding `x`, `X` or a space, then a space. */
  predicate IsTask(l: string)
  {
    && |l| >= 6 && l[0] == '-' && l[1] == ' ' && l[2] == '['
    && (l[3] == 'x' || l[3] == 'X' || l[3] == ' ') && l[4] == ']' && l[5] == ' '
  }

  /** A task line's item: ticked for `x` in either case, with the text up to a line terminator. */
  function TaskOf(l: string): TaskItem
    requires IsTask(l)
  {
    TaskItem(l[3] == 'x' || l[3] == 'X', Parse(UntilLineTerminator(l[6..])))
  }

  /** `/^(\*|-)\s+(.*)/`: a star or a dash, then at least one whitespace character. */
  predicate IsBullet(l: string)
  {
    |l| >= 2 && (l[0] == '*' || l[0] == '-') && IsSpace(l[1])
  }

  /** A bullet line's text, the second group: after the whitespace, up to a line terminator. */
  function BulletText(l: string): string
    requires IsBullet(l)
  {
    UntilLineTerminator(TrimStart(l[1..]))
  }

  /** A bullet line's item: its text, formatted. */
  function BulletItem(l: string): seq<Inline>
    requires IsBullet(l)
  {
    Parse(BulletText(l))
  }

  /**
   * `isNewBlock`, the paragraph's stop test
   * `/^(#|---|```|(\*|-) | - \[[ x]\]|>)/`; note the box here is lower-case
   * only and preceded by a space.
   */
  predicate IsNewBlock(l: string)
  {
    || StartsWith(l, "#") || StartsWith(l, "---") || StartsWith(l, "```")
    || StartsWith(l, "* ") || StartsWith(l, "- ")
    || StartsWith(l, " - [ ]") || StartsWith(l, " - [x]")
    || StartsWith(l, ">")
  }

  /**
   * The lines on which the paragraph rule takes nothing: a `#` line that is
   * not a heading, a `---` line that is not a rule, or a line opening with
   * ` - [ ]` or ` - [x]`.
   */
  predicate Stuck(l: string)
  {
    || (StartsWith(l, "#") && !IsHeading(l))
    || (StartsWith(l, "---") && !IsRule(l))
    || StartsWith(l, " - [ ]") || StartsWith(l, " - [x]")
  }

  // ---------------------------------------------------------------------
  // Runs of lines
  // ---------------------------------------------------------------------

  /** The kinds of contiguous runs the renderer's inner loops collect. */
  datatype Run = CodeLines | QuoteLines | OtherLines | TaskLines | BulletLines | ParagraphLines | BlankLines

  predicate InRun(run: Run, l: string)
  {
    match run
    case CodeLines => !IsFence(l)
    case QuoteLines => IsQuoteLine(l)
    case OtherLines => !IsQuoteLine(l)
    case TaskLines => IsTask(l)
    case BulletLines => IsBullet(l) && !IsTask(l)
    case ParagraphLines => !IsBlank(l) && !IsNewBlock(l)
    case BlankLines => IsBlank(l)
  }

  /** Where a run that starts at line `i` ends: the first line at or after `i` outside it. */
  function RunEnd(lines: seq<string>, i: nat, run: Run): (j: nat)
    requires i <= |lines|
    ensures i <= j <= |lines|
    ensures forall k :: i <= k < j ==> InRun(run, lines[k])
    ensures j < |lines| ==> !InRun(run, lines[j])
    decreases |lines| - i
  {
    if i < |lines| && InRun(run, lines[i]) then RunEnd(lines, i + 1, run) else i
  }

  /** A loop that stops at the first line outside the run has found `RunEnd`. */
  lemma RunEndUnique(lines: seq<string>, i: nat, j: nat, run: Run)
    requires i <= j <= |lines|
    requires forall k :: i <= k < j ==> InRun(run, lines[k])
    requires j < |lines| ==> !InRun(run, lines[j])
    ensures RunEnd(lines, i, run) == j
    decreases j - i
  {
    if i < j {
      RunEndUnique(lines, i + 1, j, run);
    }
  }

  /** The total number of characters of some lines. */
  function TotalLength(lines: seq<string>): nat
  {
    if lines == [] then 0 else |lines[0]| + TotalLength(lines[1..])
  }

  lemma {:induction false} TotalLengthSlice(lines: seq<string>, i: nat, j: nat)
    requires i <= j <= |lines|
    ensures TotalLength(lines[i..j]) <= TotalLength(lines)
    decreases |lines|
  {
    if lines != [] {
      if i == 0 {
        if j > 0 {
          assert lines[i..j][1..] == lines[1..][0..j - 1];
          TotalLengthSlice(lines[1..], 0, j - 1);
        }
      } else {
        assert lines[i..j] == lines[1..][i - 1..j - 1];
        TotalLengthSlice(lines[1..], i - 1, j - 1);
      }
    }
  }

  /** The quote lines of a run with one level of `>` stripped. */
  function StripAll(ls: seq<string>): (r: seq<string>)
    requires forall k :: 0 <= k < |ls| ==> IsQuoteLine(ls[k])
    ensures |r| == |ls|
  {
    seq(|ls|, k requires 0 <= k < |ls| => StripQuote(ls[k]))
  }

  /** Stripping removes at least one character per line. */
  lemma {:induction false} StripAllShorter(ls: seq<string>)
    requires forall k :: 0 <= k < |ls| ==> IsQuoteLine(ls[k])
    ensures TotalLength(StripAll(ls)) + |ls| <= TotalLength(ls)
    decreases |ls|
  {
    if ls != [] {
      StripAllShorter(ls[1..]);
      assert StripAll(ls)[1..] == StripAll(ls[1..]);
    }
  }

  /** Every line formatted on its own. */
  function ParseLines(ls: seq<string>): (r: seq<seq<Inline>>)
    ensures |r| == |ls|
  {
    seq(|ls|, k requires 0 <= k < |ls| => Parse(ls[k]))
  }

  // ---------------------------------------------------------------------
  // Paragraphs inside a quote: `lines.join('\n').split(/\n\s*\n/).filter(p => p.trim())`
  // ---------------------------------------------------------------------

  /**
   * The separator `\n\s*\n` can start at the newline after line `t`: the
   * next line is blank, and a newline follows it (it is not the last line).
   */
  predicate SepAfter(run: seq<string>, t: nat)
  {
    t + 2 < |run| && IsBlank(run[t + 1])
  }

  /** The last line of the piece that starts at line `s`: before the first separator, else the last line. */
  function PieceEnd(run: seq<string>, s: nat): (e: nat)
    requires s < |run|
    ensures s <= e < |run|
    ensures forall t :: s <= t < e ==> !SepAfter(run, t)
    ensures e < |run| - 1 ==> SepAfter(run, e)
    decreases |run| - s
  {
    if s == |run| - 1 || SepAfter(run, s) then s else PieceEnd(run, s + 1)
  }

  /**
   * Where the next piece starts after a separator that opens after line `e`:
   * the greedy `\s*` takes every following blank line except the last line
   * of the run, which has no newline after it.
   */
  function NextPiece(run: seq<string>, e: nat): (s: nat)
    requires SepAfter(run, e)
    ensures e + 2 <= s < |run|
  {
    RunEnd(run[..|run| - 1], e + 1, BlankLines)
  }

  /** The pieces the split produces from line `s` on, each as its lines. */
  function Pieces(run: seq<string>, s: nat): (r: seq<seq<string>>)
    requires s < |run|
    ensures |r| >= 1
    decreases |run| - s
  {
    var e := PieceEnd(run, s);
    if e == |run| - 1 then [run[s..]] else [run[s..e + 1]] + Pieces(run, NextPiece(run, e))
  }

  /** `p.trim() !== ''` for a piece given as its lines. */
  predicate HasText(g: seq<string>)
  {
    exists k :: 0 <= k < |g| && !IsBlank(g[k])
  }

  /** The pieces that are kept: those with some non-whitespace character. */
  function WithText(pieces: seq<seq<string>>): (r: seq<seq<string>>)
    ensures forall k :: 0 <= k < |r| ==> HasText(r[k])
  {
    if pieces == [] then []
    else (if HasText(pieces[0]) then [pieces[0]] else []) + WithText(pieces[1..])
  }

  /** The paragraphs of a run of quote lines that carry no `>`. */
  function Paragraphs(run: seq<string>): seq<seq<string>>
    requires |run| >= 1
  {
    WithText(Pieces(run, 0))
  }

  /** One paragraph block per paragraph, each line formatted. */
  function ParagraphBlocks(groups: seq<seq<string>>): (r: seq<Block>)
    ensures |r| == |groups|
  {
    seq(|groups|, k requires 0 <= k < |groups| => Paragraph(ParseLines(groups[k])))
  }

  // ---------------------------------------------------------------------
  // Block quotes
  // ---------------------------------------------------------------------

  /**
   * The blocks of a quote at depth `depth` from line `i` on: a run of lines
   * that start with `>` becomes a nested quote one level deeper, with one
   * `>` stripped from each line; a run of other lines becomes paragraphs.
   */
  function QuoteChildren(lines: seq<string>, i: nat, depth: nat): seq<Block>
    requires i <= |lines|
    decreases TotalLength(lines) + |lines| - i
  {
    if i == |lines| then []
    else if IsQuoteLine(lines[i]) then
      var j := RunEnd(lines, i, QuoteLines);
      var nested := StripAll(lines[i..j]);
      StripAllShorter(lines[i..j]);
      TotalLengthSlice(lines, i, j);
      [Quote(depth + 1, QuoteChildren(nested, 0, depth + 1))] + QuoteChildren(lines, j, depth)
    else
      var j := RunEnd(lines, i, OtherLines);
      ParagraphBlocks(Paragraphs(lines[i..j])) + QuoteChildren(lines, j, depth)
  }

  /** `<Blockquote lines depth>`. */
  function QuoteBlock(lines: seq<string>, depth: nat): Block
  {
    Quote(depth, QuoteChildren(lines, 0, depth))
  }

  // ---------------------------------------------------------------------
  // The top-level scan
  // ---------------------------------------------------------------------

  /** What the scan does at one line: emit a block and resume at `next`, skip a blank line, or stall. */
  datatype Move = Emit(block: Block, next: nat) | Skip(next: nat) | Stall

  /** The rules of `MarkdownRenderer` in priority order, applied at line `i`. */
  function StepAt(lines: seq<string>, i: nat): (m: Move)
    requires i < |lines|
    ensures !m.Stall? ==> i < m.next <= |lines| + 1
  {
    var l := lines[i];
    if IsFence(l) then FenceMove(lines, i)
    else if IsHeading(l) then Emit(Heading(Hashes(l), Parse(HeadingText(l))), i + 1)
    else if IsRule(l) then Emit(Rule, i + 1)
    else if IsQuoteLine(l) then QuoteMove(lines, i)
    else if IsTask(l) then TaskMove(lines, i)
    else if IsBullet(l) then BulletMove(lines, i)
    else if !IsBlank(l) then ParagraphMove(lines, i)
    else Skip(i + 1)
  }

  /** A fence: the code runs to the next fence or the end, and the scan resumes after the closing fence. */
  function FenceMove(lines: seq<string>, i: nat): (m: Move)
    requires i < |lines| && IsFence(lines[i])
    ensures m.Emit? && i < m.next <= |lines| + 1
  {
    Emit(CodeBlock(Trim(lines[i][3..]), FenceCode(lines, i)), FenceEnd(lines, i) + 1)
  }

  /** Where the code opened at line `i` stops: the closing fence, or the end of the message. */
  function FenceEnd(lines: seq<string>, i: nat): (j: nat)
    requires i < |lines|
    ensures i < j <= |lines|
  {
    RunEnd(lines, i + 1, CodeLines)
  }

  /** The code of the block opened at line `i`: the lines up to its end, joined by newlines. */
  function FenceCode(lines: seq<string>, i: nat): string
    requires i < |lines|
  {
    Join(lines[i + 1..FenceEnd(lines, i)])
  }

  /** A quote: the run of `>` lines, one `>` stripped from each, at depth 0. */
  function QuoteMove(lines: seq<string>, i: nat): (m: Move)
    requires i < |lines| && IsQuoteLine(lines[i])
    ensures m.Emit? && i < m.next <= |lines|
  {
    var j := RunEnd(lines, i, QuoteLines);
    Emit(QuoteBlock(StripAll(lines[i..j]), 0), j)
  }

  /** A task list: the run of task lines. */
  function TaskMove(lines: seq<string>, i: nat): (m: Move)
    requires i < |lines| && IsTask(lines[i])
    ensures m.Emit? && i < m.next <= |lines|
  {
    var j := RunEnd(lines, i, TaskLines);
    Emit(TaskList(seq(j - i, k requires 0 <= k < j - i => TaskOf(lines[i + k]))), j)
  }

  /** A bullet list: the run of bullet lines that are not task lines. */
  function BulletMove(lines: seq<string>, i: nat): (m: Move)
    requires i < |lines| && IsBullet(lines[i]) && !IsTask(lines[i])
    ensures m.Emit? && i < m.next <= |lines|
  {
    var j := RunEnd(lines, i, BulletLines);
    Emit(BulletList(BulletItems(lines, i, j)), j)
  }

  /** The items of the bullet lines from `i` up to `j`. */
  function BulletItems(lines: seq<string>, i: nat, j: nat): (items: seq<seq<Inline>>)
    requires i <= j <= |lines|
    requires forall k :: i <= k < j ==> IsBullet(lines[k])
    ensures |items| == j - i
  {
    seq(j - i, k requires 0 <= k < j - i => BulletItem(lines[i + k]))
  }

  /** A paragraph: the run of non-blank lines that do not pass the stop test; none stalls the scan. */
  function ParagraphMove(lines: seq<string>, i: nat): (m: Move)
    requires i < |lines|
    ensures !m.Stall? ==> m.Emit? && i < m.next <= |lines|
  {
    var j := RunEnd(lines, i, ParagraphLines);
    if j == i then Stall else Emit(Paragraph(ParseLines(lines[i..j])), j)
  }

  /** A block in front of an outcome. */
  function Prepend(b: Block, o: Outcome): Outcome
  {
    match o
    case Finished(bs) => Finished([b] + bs)
    case Stalls(k) => Stalls(k)
  }

  /** The scan from line `i` on. */
  function Segment(lines: seq<string>, i: nat): Outcome
    requires i <= |lines| + 1
    decreases |lines| + 1 - i
  {
    if i >= |lines| then Finished([])
    else match StepAt(lines, i)
      case Stall => Stalls(i)
      case Skip(n) => Segment(lines, n)
      case Emit(b, n) => Prepend(b, Segment(lines, n))
  }

  /** `<MarkdownRenderer content>`. */
  function Render(content: string): Outcome
  {
    Segment(SplitLines(content), 0)
  }

  // ---------------------------------------------------------------------
  // The stall
  // ---------------------------------------------------------------------

  /** The lines the paragraph rule meets: no earlier rule took them and they are not blank. */
  predicate ReachesParagraph(l: string)
  {
    !IsFence(l) && !IsHeading(l) && !IsRule(l) && !IsQuoteLine(l) && !IsTask(l) && !IsBullet(l) && !IsBlank(l)
  }

  /** A line that reaches the paragraph rule yet passes its stop test is exactly a stuck line. */
  lemma StuckLine(l: string)
    ensures ReachesParagraph(l) && IsNewBlock(l) <==> Stuck(l)
  {
    if |l| >= 1 {
      assert StartsWith(l, "#") <==> l[0] == '#';
      assert StartsWith(l, ">") <==> l[0] == '>';
    }
    if |l| >= 2 {
      assert StartsWith(l, "* ") <==> l[0] == '*' && l[1] == ' ';
      assert StartsWith(l, "- ") <==> l[0] == '-' && l[1] == ' ';
    }
    if |l| >= 3 {
      assert StartsWith(l, "---") <==> l[0] == '-' && l[1] == '-' && l[2] == '-';
      assert StartsWith(l, "```") <==> l[0] == '`' && l[1] == '`' && l[2] == '`';
      assert l[..3] == "---" ==> l[0] == '-' && l[1] == '-';
      assert l[..3] == "___" ==> l[0] == '_';
      assert l[..3] == "***" ==> l[0] == '*';
    }
    if |l| >= 6 {
      assert StartsWith(l, " - [ ]") ==> l[0] == ' ' && l[1] == '-';
      assert StartsWith(l, " - [x]") ==> l[0] == ' ' && l[1] == '-';
    }
    if Stuck(l) {
      assert !IsBlank(l) by {
        if StartsWith(l, "#") || StartsWith(l, "---") {
          assert !IsSpace(l[0]);
        } else {
          assert !IsSpace(l[1]);
        }
      }
    }
  }

  /** The scan stalls at line `i` exactly when that line is stuck. */
  lemma StallIff(lines: seq<string>, i: nat)
    requires i < |lines|
    ensures StepAt(lines, i).Stall? <==> Stuck(lines[i])
  {
    StuckLine(lines[i]);
  }

  /**
   * The scan stalls only at a stuck line, and therefore finishes whenever no
   * line it reaches is stuck.
   */
  lemma {:induction false} StallsOnlyWhenStuck(lines: seq<string>, i: nat)
    requires i <= |lines| + 1
    ensures Segment(lines, i).Stalls? ==>
      i <= Segment(lines, i).line < |lines| && Stuck(lines[Segment(lines, i).line])
    ensures (forall k :: i <= k < |lines| ==> !Stuck(lines[k])) ==> Segment(lines, i).Finished?
    decreases |lines| + 1 - i
  {
    if i < |lines| {
      StallIff(lines, i);
      match StepAt(lines, i)
      case Stall =>
      case Skip(n) => StallsOnlyWhenStuck(lines, n);
      case Emit(b, n) => StallsOnlyWhenStuck(lines, n);
    }
  }

  /** A message of one stuck line stops the renderer at that line. */
  lemma StuckMessageStalls(l: string)
    requires '\n' !in l && Stuck(l)
    ensures Render(l) == Stalls(0)
  {
    SingleLine(l);
    StallIff([l], 0);
  }

  /** A `#` line without a space after the hashes stops the renderer at that line. */
  lemma NoSpaceHeadingStalls()
    ensures Render("#NoSpace") == Stalls(0)
  {
    var l := "#NoSpace";
    assert Hashes(l) == 1 by {
      assert l[1..] != [] && l[1..][0] == 'N';
    }
    StuckMessageStalls(l);
  }

  /** Seven hashes are not a heading either; the renderer stops there. */
  lemma SevenHashesStall()
    ensures Render("#######") == Stalls(0)
  {
    var l := "#######";
    assert Hashes(l) == 7 by {
      assert forall k :: 0 <= k < 7 ==> l[k] == '#';
    }
    StuckMessageStalls(l);
  }

  /** An indented task box is a stop for the paragraph and matched by no rule. */
  lemma IndentedTaskStalls()
    ensures Render(" - [x] done") == Stalls(0)
  {
    var l := " - [x] done";
    assert StartsWith(l, " - [x]");
    StuckMessageStalls(l);
  }

  /** A line without a newline splits to itself. */
  lemma SingleLine(l: string)
    requires '\n' !in l
    ensures SplitLines(l) == [l]
  {
    SplitJoin([l]);
  }

  // ---------------------------------------------------------------------
  // The renderer as evidently intended
  // ---------------------------------------------------------------------

  /**
   * The corrected step: as `StepAt`, except that a paragraph always takes
   * the line it starts at and stops only at a later blank or new-block line.
   */
  function StepFixed(lines: seq<string>, i: nat): (m: Move)
    requires i < |lines|
    ensures !m.Stall? && i < m.next <= |lines| + 1
  {
    match StepAt(lines, i)
    case Stall =>
      var j := RunEnd(lines, i + 1, ParagraphLines);
      Emit(Paragraph(ParseLines(lines[i..j])), j)
    case m => m
  }

  /** The corrected scan from line `i` on; it always finishes. */
  function SegmentFixed(lines: seq<string>, i: nat): seq<Block>
    requires i <= |lines| + 1
    decreases |lines| + 1 - i
  {
    if i >= |lines| then []
    else match StepFixed(lines, i)
      case Skip(n) => SegmentFixed(lines, n)
      case Emit(b, n) => [b] + SegmentFixed(lines, n)
  }

  function RenderFixed(content: string): seq<Block>
  {
    SegmentFixed(SplitLines(content), 0)
  }

  /**
   * In the corrected scan a line that reaches the paragraph rule always
   * opens a paragraph, which runs on to the first blank or new-block line after it.
   */
  lemma FixedParagraph(lines: seq<string>, i: nat)
    requires i < |lines| && ReachesParagraph(lines[i])
    ensures var j := RunEnd(lines, i + 1, ParagraphLines);
      StepFixed(lines, i) == Emit(Paragraph(ParseLines(lines[i..j])), j)
  {
    if !IsNewBlock(lines[i]) {
      assert RunEnd(lines, i, ParagraphLines) == RunEnd(lines, i + 1, ParagraphLines);
    }
  }

  /** Wherever the scan as written finishes, the corrected scan gives the same blocks. */
  lemma {:induction false} FixedAgrees(lines: seq<string>, i: nat)
    requires i <= |lines| + 1
    ensures Segment(lines, i).Finished? ==> SegmentFixed(lines, i) == Segment(lines, i).blocks
    decreases |lines| + 1 - i
  {
    if i < |lines| {
      match StepAt(lines, i)
      case Stall =>
      case Skip(n) => FixedAgrees(lines, n);
      case Emit(b, n) => FixedAgrees(lines, n);
    }
  }

  /** The corrected renderer shows the `#NoSpace` line as a one-line paragraph. */
  lemma FixedRendersNoSpace()
    ensures RenderFixed("#NoSpace") == [Paragraph([Parse("#NoSpace")])]
  {
    var l := "#NoSpace";
    assert Hashes(l) == 1 by {
      assert l[1..] != [] && l[1..][0] == 'N';
    }
    assert ReachesParagraph(l) by {
      assert !IsSpace(l[0]);
    }
    FixedOneLine(l);
  }

  /** A one-line message whose line reaches the paragraph rule renders, corrected, as that paragraph. */
  lemma FixedOneLine(l: string)
    requires '\n' !in l && ReachesParagraph(l)
    ensures RenderFixed(l) == [Paragraph([Parse(l)])]
  {
    SingleLine(l);
    FixedParagraph([l], 0);
    assert RunEnd([l], 1, ParagraphLines) == 1;
    assert [l][0..1] == [l];
    assert ParseLines([l]) == [Parse(l)];
    assert StepFixed([l], 0) == Emit(Paragraph([Parse(l)]), 1);
    assert SegmentFixed([l], 1) == [];
  }

  // ---------------------------------------------------------------------
  // Properties of the blocks produced
  // ---------------------------------------------------------------------

  /** Every quote among `blocks` sits at `depth`, and the quotes inside it one level deeper, all the way down. */
  predicate QuoteNesting(blocks: seq<Block>, depth: nat)
    decreases blocks
  {
    forall k :: 0 <= k < |blocks| ==> NestedAt(blocks, k, depth)
  }

  predicate NestedAt(blocks: seq<Block>, k: nat, depth: nat)
    requires k < |blocks|
    decreases blocks, 0
  {
    blocks[k].Quote? ==> blocks[k].depth == depth && QuoteNesting(blocks[k].children, depth + 1)
  }

  lemma NestingConcat(a: seq<Block>, b: seq<Block>, depth: nat)
    requires QuoteNesting(a, depth) && QuoteNesting(b, depth)
    ensures QuoteNesting(a + b, depth)
  {
    forall k | 0 <= k < |a + b| ensures NestedAt(a + b, k, depth) {
      if k < |a| {
        assert NestedAt(a, k, depth);
        assert (a + b)[k] == a[k];
      } else {
        assert NestedAt(b, k - |a|, depth);
        assert (a + b)[k] == b[k - |a|];
      }
    }
  }

  /** The blocks of a quote at depth `depth` hold quotes at depth `depth + 1` only, and so on inward. */
  lemma {:induction false} QuoteChildrenNesting(lines: seq<string>, i: nat, depth: nat)
    requires i <= |lines|
    ensures QuoteNesting(QuoteChildren(lines, i, depth), depth + 1)
    decreases TotalLength(lines) + |lines| - i
  {
    if i < |lines| {
      if IsQuoteLine(lines[i]) {
        var j := RunEnd(lines, i, QuoteLines);
        var nested := StripAll(lines[i..j]);
        StripAllShorter(lines[i..j]);
        TotalLengthSlice(lines, i, j);
        QuoteChildrenNesting(nested, 0, depth + 1);
        QuoteChildrenNesting(lines, j, depth);
        var q := Quote(depth + 1, QuoteChildren(nested, 0, depth + 1));
        assert NestedAt([q], 0, depth + 1);
        NestingConcat([q], QuoteChildren(lines, j, depth), depth + 1);
      } else {
        var j := RunEnd(lines, i, OtherLines);
        var ps := ParagraphBlocks(Paragraphs(lines[i..j]));
        QuoteChildrenNesting(lines, j, depth);
        ParagraphsNest(Paragraphs(lines[i..j]), depth + 1);
        NestingConcat(ps, QuoteChildren(lines, j, depth), depth + 1);
      }
    }
  }

  lemma ParagraphsNest(groups: seq<seq<string>>, depth: nat)
    ensures QuoteNesting(ParagraphBlocks(groups), depth)
  {
    var ps := ParagraphBlocks(groups);
    forall k | 0 <= k < |ps| ensures NestedAt(ps, k, depth) {
      assert ps[k].Paragraph?;
    }
  }

  /**
   * What the renderer promises of each block: a heading has a level from 1
   * to 6; lists and paragraphs are never empty; a quote found by the
   * top-level scan has depth 0 and its nested quotes count up from there.
   */
  predicate WellFormed(b: Block)
  {
    match b
    case Heading(level, _) => 1 <= level <= 6
    case Quote(depth, children) => depth == 0 && QuoteNesting(children, 1)
    case TaskList(tasks) => tasks != []
    case BulletList(items) => items != []
    case Paragraph(ls) => ls != []
    case _ => true
  }

  lemma StepWellFormed(lines: seq<string>, i: nat)
    requires i < |lines|
    ensures StepAt(lines, i).Emit? ==> WellFormed(StepAt(lines, i).block)
  {
    var l := lines[i];
    if IsFence(l) || IsHeading(l) || IsRule(l) {
    } else if IsQuoteLine(l) {
      QuoteMoveWellFormed(lines, i);
    } else if IsTask(l) {
      TaskMoveWellFormed(lines, i);
    } else if IsBullet(l) {
      BulletMoveWellFormed(lines, i);
    } else if !IsBlank(l) {
      assert StepAt(lines, i) == ParagraphMove(lines, i);
    }
  }

  lemma QuoteMoveWellFormed(lines: seq<string>, i: nat)
    requires i < |lines| && IsQuoteLine(lines[i])
    ensures WellFormed(QuoteMove(lines, i).block)
  {
    var j := RunEnd(lines, i, QuoteLines);
    QuoteChildrenNesting(StripAll(lines[i..j]), 0, 0);
  }

  lemma TaskMoveWellFormed(lines: seq<string>, i: nat)
    requires i < |lines| && IsTask(lines[i])
    ensures WellFormed(TaskMove(lines, i).block)
  {
    assert RunEnd(lines, i, TaskLines) > i;
  }

  lemma BulletMoveWellFormed(lines: seq<string>, i: nat)
    requires i < |lines| && IsBullet(lines[i]) && !IsTask(lines[i])
    ensures WellFormed(BulletMove(lines, i).block)
  {
    assert RunEnd(lines, i, BulletLines) > i;
  }

  lemma StepFixedWellFormed(lines: seq<string>, i: nat)
    requires i < |lines|
    ensures StepFixed(lines, i).Emit? ==> WellFormed(StepFixed(lines, i).block)
  {
    StepWellFormed(lines, i);
  }

  /** Every block the scan produces is well formed. */
  lemma {:induction false} SegmentWellFormed(lines: seq<string>, i: nat)
    requires i <= |lines| + 1
    ensures Segment(lines, i).Finished? ==> forall k :: 0 <= k < |Segment(lines, i).blocks| ==> WellFormed(Segment(lines, i).blocks[k])
    decreases |lines| + 1 - i
  {
    if i < |lines| {
      StepWellFormed(lines, i);
      match StepAt(lines, i)
      case Stall =>
      case Skip(n) => SegmentWellFormed(lines, n);
      case Emit(b, n) =>
        SegmentWellFormed(lines, n);
        PrependWellFormed(b, Segment(lines, n));
    }
  }

  lemma PrependWellFormed(b: Block, o: Outcome)
    requires WellFormed(b)
    requires o.Finished? ==> forall k :: 0 <= k < |o.blocks| ==> WellFormed(o.blocks[k])
    ensures Prepend(b, o).Finished? ==> forall k :: 0 <= k < |Prepend(b, o).blocks| ==> WellFormed(Prepend(b, o).blocks[k])
  {
    if o.Finished? {
      var r := Prepend(b, o).blocks;
      forall k | 0 <= k < |r| ensures WellFormed(r[k]) {
        if k > 0 {
          assert r[k] == o.blocks[k - 1];
        }
      }
    }
  }

  /** Every block the corrected scan produces is well formed. */
  lemma {:induction false} SegmentFixedWellFormed(lines: seq<string>, i: nat)
    requires i <= |lines| + 1
    ensures forall k :: 0 <= k < |SegmentFixed(lines, i)| ==> WellFormed(SegmentFixed(lines, i)[k])
    decreases |lines| + 1 - i
  {
    if i < |lines| {
      StepFixedWellFormed(lines, i);
      match StepFixed(lines, i)
      case Skip(n) => SegmentFixedWellFormed(lines, n);
      case Emit(b, n) => SegmentFixedWellFormed(lines, n);
    }
  }

  /**
   * A fenced code block holds exactly the lines up to the next fence, or to
   * the end of the message when none follows: splitting its text on
   * newlines gives those lines back, and the scan resumes after the closing fence.
   */
  lemma FenceContent(lines: seq<string>, i: nat)
    requires i < |lines| && IsFence(lines[i])
    requires forall k :: 0 <= k < |lines| ==> '\n' !in lines[k]
    ensures var j := FenceEnd(lines, i);
      && (j < |lines| ==> IsFence(lines[j]))
      && (forall k :: i < k < j ==> !IsFence(lines[k]))
      && (j == i + 1 ==> FenceCode(lines, i) == "")
      && (j > i + 1 ==> SplitLines(FenceCode(lines, i)) == lines[i + 1..j])
  {
    JoinedLines(lines, i + 1, FenceEnd(lines, i));
  }

  /** A fence line always opens a code block. */
  lemma FenceStep(lines: seq<string>, i: nat)
    requires i < |lines| && IsFence(lines[i])
    ensures StepAt(lines, i) == FenceMove(lines, i)
  {
  }

  /** Lines without newlines come back from their joined text. */
  lemma JoinedLines(lines: seq<string>, from: nat, to: nat)
    requires from <= to <= |lines|
    requires forall k :: 0 <= k < |lines| ==> '\n' !in lines[k]
    ensures to == from ==> Join(lines[from..to]) == ""
    ensures to > from ==> SplitLines(Join(lines[from..to])) == lines[from..to]
  {
    var body := lines[from..to];
    if to > from {
      forall k | 0 <= k < |body| ensures '\n' !in body[k] {
        assert body[k] == lines[from + k];
      }
      SplitJoin(body);
    }
  }

  // ---------------------------------------------------------------------
  // Properties of the paragraph split inside quotes
  // ---------------------------------------------------------------------

  /** The non-blank lines, in order. */
  function TextLines(ls: seq<string>): seq<string>
  {
    if ls == [] then [] else (if IsBlank(ls[0]) then [] else [ls[0]]) + TextLines(ls[1..])
  }

  /** The lines of some groups one after the other. */
  function Concat(gs: seq<seq<string>>): seq<string>
  {
    if gs == [] then [] else gs[0] + Concat(gs[1..])
  }

  lemma {:induction false} TextLinesAppend(a: seq<string>, b: seq<string>)
    ensures TextLines(a + b) == TextLines(a) + TextLines(b)
    decreases |a|
  {
    if a == [] {
      assert a + b == b;
    } else {
      assert (a + b)[0] == a[0];
      assert (a + b)[1..] == a[1..] + b;
      TextLinesAppend(a[1..], b);
    }
  }

  /** Lines have no non-blank line exactly when none of them has text. */
  lemma {:induction false} TextLinesEmpty(ls: seq<string>)
    ensures TextLines(ls) == [] <==> !HasText(ls)
    decreases |ls|
  {
    if ls != [] {
      TextLinesEmpty(ls[1..]);
      if HasText(ls[1..]) {
        var k :| 0 <= k < |ls[1..]| && !IsBlank(ls[1..][k]);
        assert !IsBlank(ls[k + 1]);
      }
      if HasText(ls) && IsBlank(ls[0]) {
        var k :| 0 <= k < |ls| && !IsBlank(ls[k]);
        assert k > 0 && ls[1..][k - 1] == ls[k];
      }
    }
  }

  /** The filter by `p.trim()` keeps every non-blank line. */
  lemma {:induction false} WithTextKeepsText(ps: seq<seq<string>>)
    ensures TextLines(Concat(WithText(ps))) == TextLines(Concat(ps))
    decreases |ps|
  {
    if ps != [] {
      WithTextKeepsText(ps[1..]);
      TextLinesAppend(ps[0], Concat(ps[1..]));
      TextLinesEmpty(ps[0]);
      if HasText(ps[0]) {
        assert WithText(ps) == [ps[0]] + WithText(ps[1..]);
        assert Concat(WithText(ps)) == ps[0] + Concat(WithText(ps[1..]));
        TextLinesAppend(ps[0], Concat(WithText(ps[1..])));
      } else {
        assert WithText(ps) == WithText(ps[1..]);
      }
    }
  }

  /** The lines a separator swallows are blank. */
  lemma SwallowedBlank(run: seq<string>, e: nat)
    requires SepAfter(run, e)
    ensures TextLines(run[e + 1..NextPiece(run, e)]) == []
  {
    var t := NextPiece(run, e);
    var swallowed := run[e + 1..t];
    forall k | 0 <= k < |swallowed| ensures IsBlank(swallowed[k]) {
      assert InRun(BlankLines, run[..|run| - 1][e + 1 + k]);
    }
    TextLinesEmpty(swallowed);
  }

  /** The lines the separators swallow are blank, so the pieces hold every non-blank line. */
  lemma {:induction false} PiecesKeepText(run: seq<string>, s: nat)
    requires s < |run|
    ensures TextLines(Concat(Pieces(run, s))) == TextLines(run[s..])
    decreases |run| - s
  {
    var e := PieceEnd(run, s);
    if e == |run| - 1 {
      PiecesLast(run, s);
    } else {
      var t := NextPiece(run, e);
      PiecesKeepText(run, t);
      PieceThenRest(run, s);
    }
  }

  /** The last piece is the rest of the run. */
  lemma PiecesLast(run: seq<string>, s: nat)
    requires s < |run| && PieceEnd(run, s) == |run| - 1
    ensures Concat(Pieces(run, s)) == run[s..]
  {
    assert Pieces(run, s) == [run[s..]];
    assert Concat([run[s..]]) == run[s..] + Concat([]);
  }

  /** One piece and the text lines of the pieces after it hold the text lines from `s` on. */
  lemma PieceThenRest(run: seq<string>, s: nat)
    requires s < |run| && PieceEnd(run, s) < |run| - 1
    requires TextLines(Concat(Pieces(run, NextPiece(run, PieceEnd(run, s))))) == TextLines(run[NextPiece(run, PieceEnd(run, s))..])
    ensures TextLines(Concat(Pieces(run, s))) == TextLines(run[s..])
  {
    var e := PieceEnd(run, s);
    var t := NextPiece(run, e);
    PiecesUnfold(run, s);
    SwallowedBlank(run, e);
    PieceTextThenRest(run, s, e, t, Concat(Pieces(run, t)));
  }

  /** The text lines of a piece, swallowed blank lines and what follows. */
  lemma PieceTextThenRest(run: seq<string>, s: nat, e: nat, t: nat, rest: seq<string>)
    requires s <= e < t <= |run|
    requires TextLines(rest) == TextLines(run[t..])
    requires TextLines(run[e + 1..t]) == []
    ensures TextLines(run[s..e + 1] + rest) == TextLines(run[s..])
  {
    TextLinesAppend(run[s..e + 1], rest);
    TextLinesSplit(run, s, e + 1, t);
  }

  lemma PiecesUnfold(run: seq<string>, s: nat)
    requires s < |run| && PieceEnd(run, s) < |run| - 1
    ensures var e := PieceEnd(run, s);
      Concat(Pieces(run, s)) == run[s..e + 1] + Concat(Pieces(run, NextPiece(run, e)))
  {
    var e := PieceEnd(run, s);
    var rest := Pieces(run, NextPiece(run, e));
    assert Pieces(run, s) == [run[s..e + 1]] + rest;
    assert ([run[s..e + 1]] + rest)[1..] == rest;
  }

  lemma TextLinesSplit(run: seq<string>, i: nat, j: nat, k: nat)
    requires i <= j <= k <= |run|
    ensures TextLines(run[i..j]) + TextLines(run[j..k]) + TextLines(run[k..]) == TextLines(run[i..])
  {
    assert run[i..] == run[i..j] + (run[j..k] + run[k..]);
    TextLinesAppend(run[i..j], run[j..k] + run[k..]);
    TextLinesAppend(run[j..k], run[k..]);
  }

  /**
   * Splitting the lines of a quote into paragraphs loses no non-blank line
   * and keeps their order.
   */
  lemma ParagraphsKeepText(run: seq<string>)
    requires |run| >= 1
    ensures TextLines(Concat(Paragraphs(run))) == TextLines(run)
  {
    PiecesKeepText(run, 0);
    WithTextKeepsText(Pieces(run, 0));
    assert run[0..] == run;
  }

  /** No line strictly inside a group is blank. */
  predicate InteriorText(g: seq<string>)
  {
    forall k :: 0 < k < |g| - 1 ==> !IsBlank(g[k])
  }

  /** A blank line with a line after it always separates, so no piece has a blank line inside it. */
  lemma {:induction false} PiecesInterior(run: seq<string>, s: nat)
    requires s < |run|
    ensures forall g :: g in Pieces(run, s) ==> InteriorText(g)
    decreases |run| - s
  {
    var e := PieceEnd(run, s);
    var g := run[s..e + 1];
    forall k | 0 < k < |g| - 1 ensures !IsBlank(g[k]) {
      assert !SepAfter(run, s + k - 1);
    }
    if e < |run| - 1 {
      PiecesInterior(run, NextPiece(run, e));
    }
  }

  lemma {:induction false} WithTextSubset(ps: seq<seq<string>>)
    ensures forall g :: g in WithText(ps) ==> g in ps
    decreases |ps|
  {
    if ps != [] {
      WithTextSubset(ps[1..]);
    }
  }

  /**
   * Every paragraph of a quote has text, and no blank line stands inside
   * one: blank lines only ever separate paragraphs.
   */
  lemma ParagraphShape(run: seq<string>)
    requires |run| >= 1
    ensures forall g :: g in Paragraphs(run) ==> HasText(g) && InteriorText(g)
  {
    PiecesInterior(run, 0);
    WithTextSubset(Pieces(run, 0));
    forall g | g in Paragraphs(run) ensures HasText(g) {
      var k :| 0 <= k < |Paragraphs(run)| && Paragraphs(run)[k] == g;
    }
  }

  /** The joined text of a group is blank exactly when the group has no text: the filter `p.trim()`. */
  lemma {:induction false} JoinBlank(g: seq<string>)
    ensures IsBlank(Join(g)) <==> !HasText(g)
    decreases |g|
  {
    if |g| == 1 {
      if HasText(g) {
        var k :| 0 <= k < |g| && !IsBlank(g[k]);
      }
    } else if |g| > 1 {
      JoinBlank(g[1..]);
      BlankConcat(g[0] + "\n", Join(g[1..]));
      BlankConcat(g[0], "\n");
      if HasText(g[1..]) {
        var k :| 0 <= k < |g[1..]| && !IsBlank(g[1..][k]);
        assert !IsBlank(g[k + 1]);
      }
      if HasText(g) && IsBlank(g[0]) {
        var k :| 0 <= k < |g| && !IsBlank(g[k]);
        assert k > 0 && g[1..][k - 1] == g[k];
      }
    }
  }

  // ---------------------------------------------------------------------
  // A whole quote: its runs, and the text it shows
  // ---------------------------------------------------------------------

  /** Which of the two runs `Blockquote` collects a line belongs to. */
  function KindOf(l: string): Run
  {
    if IsQuoteLine(l) then QuoteLines else OtherLines
  }

  /** The maximal runs of `>` lines and of other lines from line `i` on, in order. */
  function QuoteRuns(lines: seq<string>, i: nat): seq<seq<string>>
    requires i <= |lines|
    decreases |lines| - i
  {
    if i == |lines| then []
    else
      var j := RunEnd(lines, i, KindOf(lines[i]));
      assert InRun(KindOf(lines[i]), lines[i]);
      [lines[i..j]] + QuoteRuns(lines, j)
  }

  /** A run: not empty, and all its lines of the kind of its first one. */
  predicate Uniform(run: seq<string>)
  {
    run != [] && forall k :: 0 <= k < |run| ==> KindOf(run[k]) == KindOf(run[0])
  }

  /** Each run is of the other kind than the one before it. */
  ghost predicate Alternates(runs: seq<seq<string>>)
  {
    forall k, l :: 0 <= k < l < |runs| && l == k + 1 ==>
      runs[k] != [] && runs[l] != [] && KindOf(runs[k][0]) != KindOf(runs[l][0])
  }

  /** What one run becomes: a `>` run one nested quote on its stripped lines, another run its paragraphs. */
  function RunBlocks(run: seq<string>, depth: nat): seq<Block>
    requires Uniform(run)
  {
    if IsQuoteLine(run[0]) then
      assert forall k :: 0 <= k < |run| ==> KindOf(run[k]) == QuoteLines;
      [Quote(depth + 1, QuoteChildren(StripAll(run), 0, depth + 1))]
    else ParagraphBlocks(Paragraphs(run))
  }

  /** The blocks of some runs, one after the other. */
  function AllRunBlocks(runs: seq<seq<string>>, depth: nat): seq<Block>
    requires forall k :: 0 <= k < |runs| ==> Uniform(runs[k])
  {
    if runs == [] then [] else RunBlocks(runs[0], depth) + AllRunBlocks(runs[1..], depth)
  }

  /**
   * `Blockquote` cuts its lines into runs that follow one another and give
   * back its lines when put together; each run is uniform and maximal (the
   * next one is of the other kind), and its blocks are those of its runs in
   * order: every `>` run, stripped, is exactly one nested quote, and every
   * other run is its paragraphs.
   */
  lemma {:induction false} QuoteChildrenRuns(lines: seq<string>, i: nat, depth: nat)
    requires i <= |lines|
    ensures var runs := QuoteRuns(lines, i);
      && Concat(runs) == lines[i..]
      && (forall k :: 0 <= k < |runs| ==> Uniform(runs[k]))
      && Alternates(runs)
      && QuoteChildren(lines, i, depth) == AllRunBlocks(runs, depth)
  {
    QuoteRunsShape(lines, i);
    QuoteChildrenByRuns(lines, i, depth);
  }

  /** The runs put together give back the lines; each is uniform, and each differs in kind from the one before. */
  lemma {:induction false} QuoteRunsShape(lines: seq<string>, i: nat)
    requires i <= |lines|
    ensures var runs := QuoteRuns(lines, i);
      && Concat(runs) == lines[i..]
      && (forall k :: 0 <= k < |runs| ==> Uniform(runs[k]))
      && Alternates(runs)
    decreases |lines| - i
  {
    if i < |lines| {
      var j := RunEnd(lines, i, KindOf(lines[i]));
      assert InRun(KindOf(lines[i]), lines[i]);
      QuoteRunsShape(lines, j);
      var run := lines[i..j];
      var rest := QuoteRuns(lines, j);
      assert QuoteRuns(lines, i) == [run] + rest;
      RunUniform(lines, i);
      if rest != [] {
        assert rest[0][0] == lines[j];
      }
      RunsCons(run, rest);
      assert lines[i..] == run + lines[j..];
    }
  }

  /** The blocks of a quote are the blocks of its runs, in order. */
  lemma {:induction false} QuoteChildrenByRuns(lines: seq<string>, i: nat, depth: nat)
    requires i <= |lines|
    ensures (QuoteRunsShape(lines, i); QuoteChildren(lines, i, depth) == AllRunBlocks(QuoteRuns(lines, i), depth))
    decreases |lines| - i
  {
    QuoteRunsShape(lines, i);
    if i < |lines| {
      var j := RunEnd(lines, i, KindOf(lines[i]));
      assert InRun(KindOf(lines[i]), lines[i]);
      QuoteChildrenByRuns(lines, j, depth);
      QuoteRunsShape(lines, j);
      var run := lines[i..j];
      var rest := QuoteRuns(lines, j);
      var runs := QuoteRuns(lines, i);
      assert runs == [run] + rest;
      assert runs[1..] == rest;
      QuoteChildrenStep(lines, i, depth);
    }
  }

  /** Putting a run in front of runs of the other kind. */
  lemma RunsCons(run: seq<string>, rest: seq<seq<string>>)
    requires Uniform(run)
    requires forall k :: 0 <= k < |rest| ==> Uniform(rest[k])
    requires Alternates(rest)
    requires rest != [] ==> rest[0] != [] && KindOf(rest[0][0]) != KindOf(run[0])
    ensures var runs := [run] + rest;
      && Concat(runs) == run + Concat(rest)
      && (forall k :: 0 <= k < |runs| ==> Uniform(runs[k]))
      && Alternates(runs)
  {
    var runs := [run] + rest;
    assert runs[1..] == rest;
    forall k, l | 0 <= k < l < |runs| && l == k + 1
      ensures runs[k] != [] && runs[l] != [] && KindOf(runs[k][0]) != KindOf(runs[l][0])
    {
      if k > 0 {
        assert runs[k] == rest[k - 1] && runs[l] == rest[l - 1];
      }
    }
  }

  /** The run at line `i` is uniform, and the line after it is of the other kind. */
  lemma RunUniform(lines: seq<string>, i: nat)
    requires i < |lines|
    ensures var j := RunEnd(lines, i, KindOf(lines[i]));
      && Uniform(lines[i..j])
      && (j < |lines| ==> KindOf(lines[j]) != KindOf(lines[i]))
  {
    var j := RunEnd(lines, i, KindOf(lines[i]));
    assert InRun(KindOf(lines[i]), lines[i]);
    var run := lines[i..j];
    forall k | 0 <= k < |run| ensures KindOf(run[k]) == KindOf(run[0]) {
      assert InRun(KindOf(lines[i]), lines[i + k]);
    }
  }

  /** One unfolding of `QuoteChildren`: the blocks of the run at `i`, then the rest. */
  lemma QuoteChildrenStep(lines: seq<string>, i: nat, depth: nat)
    requires i < |lines|
    ensures var j := RunEnd(lines, i, KindOf(lines[i]));
      && Uniform(lines[i..j])
      && QuoteChildren(lines, i, depth) == RunBlocks(lines[i..j], depth) + QuoteChildren(lines, j, depth)
  {
    RunUniform(lines, i);
  }

  /**
   * The text a quote line carries at its innermost level, worked out line by
   * line: each level's `>` and the whitespace character after it go, and a
   * blank line carries nothing.
   */
  function DeepLine(l: string): seq<string>
    decreases |l|
  {
    if IsQuoteLine(l) then DeepLine(StripQuote(l))
    else if IsBlank(l) then [] else [l]
  }

  /** The innermost text of some lines, in order. */
  function DeepText(ls: seq<string>): seq<string>
  {
    if ls == [] then [] else DeepLine(ls[0]) + DeepText(ls[1..])
  }

  /** Formatted lines, each flattened back to its text. */
  function FlatLines(pl: seq<seq<Inline>>): (r: seq<string>)
    ensures |r| == |pl|
  {
    seq(|pl|, k requires 0 <= k < |pl| => Flatten(pl[k]))
  }

  /** The non-blank lines the paragraphs of some blocks show, through every nested quote, in order. */
  function ShownText(bs: seq<Block>): seq<string>
    decreases bs
  {
    if bs == [] then []
    else
      var head := match bs[0]
        case Quote(_, children) => ShownText(children)
        case Paragraph(pl) => TextLines(FlatLines(pl))
        case _ => [];
      head + ShownText(bs[1..])
  }

  /**
   * A quote shows every non-blank line it was given, at every depth, in
   * order, and nothing else: its paragraphs, read through all nested
   * quotes, are the innermost text of its lines.
   */
  lemma {:induction false} QuoteKeepsText(lines: seq<string>, i: nat, depth: nat)
    requires i <= |lines|
    ensures ShownText(QuoteChildren(lines, i, depth)) == DeepText(lines[i..])
    decreases TotalLength(lines) + |lines| - i
  {
    if i < |lines| {
      var j := RunEnd(lines, i, KindOf(lines[i]));
      assert InRun(KindOf(lines[i]), lines[i]);
      QuoteChildrenStep(lines, i, depth);
      var run := lines[i..j];
      if IsQuoteLine(lines[i]) {
        StripAllShorter(run);
        TotalLengthSlice(lines, i, j);
        QuoteKeepsText(StripAll(run), 0, depth + 1);
        NestedRunText(run, depth);
      } else {
        OtherRunText(run, depth);
      }
      QuoteKeepsText(lines, j, depth);
      TextThenRest(lines, i, j, RunBlocks(run, depth), QuoteChildren(lines, j, depth));
    }
  }

  /** The text of one run's blocks followed by the text of the rest. */
  lemma TextThenRest(lines: seq<string>, i: nat, j: nat, a: seq<Block>, b: seq<Block>)
    requires i <= j <= |lines|
    requires ShownText(a) == DeepText(lines[i..j])
    requires ShownText(b) == DeepText(lines[j..])
    ensures ShownText(a + b) == DeepText(lines[i..])
  {
    ShownTextAppend(a, b);
    SliceSplit(lines, i, j);
    DeepTextAppend(lines[i..j], lines[j..]);
  }

  lemma SliceSplit(lines: seq<string>, i: nat, j: nat)
    requires i <= j <= |lines|
    ensures lines[i..] == lines[i..j] + lines[j..]
  {
  }

  /** A `>` run shows, as its nested quote, what its stripped lines show. */
  lemma NestedRunText(run: seq<string>, depth: nat)
    requires Uniform(run) && IsQuoteLine(run[0])
    requires forall k :: 0 <= k < |run| ==> IsQuoteLine(run[k])
    requires ShownText(QuoteChildren(StripAll(run), 0, depth + 1)) == DeepText(StripAll(run)[0..])
    ensures ShownText(RunBlocks(run, depth)) == DeepText(run)
  {
    var nested := StripAll(run);
    assert nested[0..] == nested;
    DeepTextStrip(run);
    var q := Quote(depth + 1, QuoteChildren(nested, 0, depth + 1));
    assert ShownText([q]) == ShownText(QuoteChildren(nested, 0, depth + 1)) + ShownText([]);
  }

  /** A run of other lines shows its non-blank lines through its paragraphs. */
  lemma OtherRunText(run: seq<string>, depth: nat)
    requires Uniform(run) && !IsQuoteLine(run[0])
    ensures ShownText(RunBlocks(run, depth)) == DeepText(run)
  {
    forall k | 0 <= k < |run| ensures !IsQuoteLine(run[k]) {
      assert KindOf(run[k]) == KindOf(run[0]);
    }
    ShownParagraphs(Paragraphs(run));
    ParagraphsKeepText(run);
    DeepTextOther(run);
  }

  /** The quote block a top-level `>` run becomes shows the innermost text of that run. */
  lemma QuoteMoveKeepsText(lines: seq<string>, i: nat)
    requires i < |lines| && IsQuoteLine(lines[i])
    ensures var j := RunEnd(lines, i, QuoteLines);
      ShownText([QuoteMove(lines, i).block]) == DeepText(lines[i..j])
  {
    var j := RunEnd(lines, i, QuoteLines);
    var nested := StripAll(lines[i..j]);
    QuoteKeepsText(nested, 0, 0);
    assert nested[0..] == nested;
    DeepTextStrip(lines[i..j]);
    assert ShownText([QuoteBlock(nested, 0)]) == ShownText(QuoteChildren(nested, 0, 0)) + ShownText([]);
  }

  lemma {:induction false} DeepTextAppend(a: seq<string>, b: seq<string>)
    ensures DeepText(a + b) == DeepText(a) + DeepText(b)
    decreases |a|
  {
    if a == [] {
      assert a + b == b;
    } else {
      assert (a + b)[0] == a[0];
      assert (a + b)[1..] == a[1..] + b;
      DeepTextAppend(a[1..], b);
    }
  }

  lemma {:induction false} ShownTextAppend(a: seq<Block>, b: seq<Block>)
    ensures ShownText(a + b) == ShownText(a) + ShownText(b)
    decreases |a|
  {
    if a == [] {
      assert a + b == b;
    } else {
      assert (a + b)[0] == a[0];
      assert (a + b)[1..] == a[1..] + b;
      ShownTextAppend(a[1..], b);
    }
  }

  /** Lines without `>` carry themselves, blank ones nothing. */
  lemma {:induction false} DeepTextOther(run: seq<string>)
    requires forall k :: 0 <= k < |run| ==> !IsQuoteLine(run[k])
    ensures DeepText(run) == TextLines(run)
    decreases |run|
  {
    if run != [] {
      DeepTextOther(run[1..]);
    }
  }

  /** Stripping one level of `>` keeps the innermost text. */
  lemma {:induction false} DeepTextStrip(run: seq<string>)
    requires forall k :: 0 <= k < |run| ==> IsQuoteLine(run[k])
    ensures DeepText(StripAll(run)) == DeepText(run)
    decreases |run|
  {
    if run != [] {
      DeepTextStrip(run[1..]);
      assert StripAll(run)[1..] == StripAll(run[1..]);
    }
  }

  /** Paragraph blocks show the non-blank lines of their groups: formatting loses no character. */
  lemma {:induction false} ShownParagraphs(gs: seq<seq<string>>)
    ensures ShownText(ParagraphBlocks(gs)) == TextLines(Concat(gs))
    decreases |gs|
  {
    if gs != [] {
      ShownParagraphs(gs[1..]);
      ParagraphBlocksCons(gs);
      ShownOneParagraph(gs[0]);
      ShownTextAppend([Paragraph(ParseLines(gs[0]))], ParagraphBlocks(gs[1..]));
      TextLinesAppend(gs[0], Concat(gs[1..]));
    }
  }

  lemma ParagraphBlocksCons(gs: seq<seq<string>>)
    requires gs != []
    ensures ParagraphBlocks(gs) == [Paragraph(ParseLines(gs[0]))] + ParagraphBlocks(gs[1..])
  {
  }

  /** One paragraph shows the non-blank lines of its group. */
  lemma ShownOneParagraph(g: seq<string>)
    ensures ShownText([Paragraph(ParseLines(g))]) == TextLines(g)
  {
    FlatParsed(g);
    assert ShownText([Paragraph(ParseLines(g))]) == TextLines(FlatLines(ParseLines(g))) + ShownText([]);
  }

  /** Formatting a line and flattening it back gives the line. */
  lemma FlatParsed(g: seq<string>)
    ensures FlatLines(ParseLines(g)) == g
  {
    forall k | 0 <= k < |g| ensures Flatten(Parse(g[k])) == g[k] {
      ParseLossless(g[k]);
    }
  }
}
