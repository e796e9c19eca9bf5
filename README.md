# Chat application core, modelled in Dafny

This project models the logic of a browser chat client for a generative
language model. It covers three parts.

- **The message renderer.** This is the small Markdown dialect the chat
  view renders answers in. `parseInlineMarkdown` turns one line into text
  and emphasis spans (bold-italic, bold, italic, strike-through) with a
  global regular expression. `MarkdownRenderer` scans a message line by
  line and cuts it into fenced code blocks, headings, rules, block quotes,
  task lists, bullet lists and paragraphs. `Blockquote` renders nested
  quotes recursively and splits their other lines into paragraphs.
- **The conversation list.** This covers pinning, renaming and deleting a
  conversation, and the sidebar order (pinned first, newest first). It also
  covers the optimistic update when a message is sent or an image is
  requested, and its undo when the
  request fails, and the streamed answer, whose text is concatenated and
  whose cited sources are merged by URI.
- **The citations panel's relative date.** This is "Today", "Yesterday",
  "3 days ago", "2 weeks ago" and so on.

## Layout

| file | module | what it holds |
|---|---|---|
| `wrappers.dfy` | `Wrappers` | `Option` |
| `jstext.dfy` | `JsText` | The JavaScript string operations the code relies on: `\s` whitespace, `trim`, `split('\n')` and `join('\n')`, `Number.prototype.toString`, `parseInt(s, 10) \|\| 0`. |
| `types.dfy` | `ChatTypes` | Messages, cited sources and conversations. |
| `inline.dfy` | `InlineMarkdown` | The emphasis regular expression, written out position by position, and `parseInlineMarkdown`. |
| `blocks.dfy` | `MarkdownBlocks` | The block rules as functions, the scan `Segment`/`Render`, the quote structure and the paragraph split inside quotes. It also holds the stall of the paragraph rule, the corrected scan, and the properties of all of these. |
| `renderer.dfy` | `Rendering` | The renderer's loops as methods, each proved to compute the function that specifies it. |
| `sort.dfy` | `Ordering` | The stable sorts of the sidebar (a stable insertion sort by key, and filters). |
| `app.dfy` | `Conversations` | The state updates of the app component and the streaming loop. |
| `citations.dfy` | `RelativeDate` | `formatRelativeDate`. |

The renderer's loops are imperative, so they are methods. Each has a
`while` loop and its invariants, and its `ensures` ties the result to a
function in `MarkdownBlocks` or `InlineMarkdown`. The properties of the
renderer are proved as lemmas about those functions. The app's state
updates are pure `map`/`filter` expressions over the previous list, so
they are functions. The streaming loop updates one message in place, so
it is a method.

The outermost block quote has depth 0 (`depth = 0` is the default of
`Blockquote`), and each nested level adds 1.

## Model

| member | source | states |
|---|---|---|
| InlineMarkdown.ParseInlineMarkdown | components/ChatMessage.tsx:16-48 | The `exec` loop yields exactly `Parse(text)`: the text before each leftmost match, the match as a span whose body is formatted again, and the text after the last match. |
| InlineMarkdown.MatchAtSpec | components/ChatMessage.tsx:17 | At one position the expression yields a genuine match with the shortest (lazy) body, and no alternative listed earlier matches there. When it yields none, no alternative matches there at all. |
| InlineMarkdown.AltAtSpec | components/ChatMessage.tsx:17 | One alternative at one position either finds a match with the shortest body or has no match there. |
| InlineMarkdown.FindMatchLeftmost | components/ChatMessage.tsx:25 | `exec` from `lastIndex` returns the leftmost match: no position before its start matches. With no result, no position from `lastIndex` on matches. |
| InlineMarkdown.ParseLossless | components/ChatMessage.tsx:16-48 | Flattening the nodes back, with each span re-wrapped in its markers, gives the line again: formatting drops or duplicates no character. |
| InlineMarkdown.ParseCanonical | components/ChatMessage.tsx:26-45 | There are no empty text nodes, never two text nodes in a row, and no empty spans. The result is empty exactly for the empty line. |
| InlineMarkdown.PlainText | components/ChatMessage.tsx:43-45 | A line without `*`, `_` or `~` becomes one text node, or no node if it is empty. |
| InlineMarkdown.FirstNode | components/ChatMessage.tsx:25-37 | The first node is the text before the leftmost match, or the whole line when nothing matches. A match at position 0 is a span of the first alternative that matches there. |
| MarkdownBlocks.Hashes | components/ChatMessage.tsx:176 | Counts the `#` characters that open the line: all of them, and no more. |
| MarkdownBlocks.StripQuote | components/ChatMessage.tsx:106 | `replace(/^>\s?/, '')` leaves a proper suffix of the line. |
| MarkdownBlocks.RunEnd | components/ChatMessage.tsx:166-169 | An inner loop stops at the first line outside its run: every line before it belongs to the run, and that line does not. |
| MarkdownBlocks.RunEndUnique | components/ChatMessage.tsx:207-211 | Any index with that property is the one `RunEnd` finds. |
| MarkdownBlocks.StripAllShorter | components/ChatMessage.tsx:104-109 | The lines passed to a nested quote are shorter in total, so the recursion of `Blockquote` ends. |
| MarkdownBlocks.FenceContent | components/ChatMessage.tsx:162-173 | A code block ends at the next fence or at the end of the message, with no fence inside it. Splitting its code on newlines gives back exactly its lines. |
| MarkdownBlocks.FenceStep | components/ChatMessage.tsx:162 | A fence line always opens a code block, before any other rule. |
| MarkdownBlocks.StuckLine | components/ChatMessage.tsx:275 | A line that reaches the paragraph rule and passes `isNewBlock` is exactly a stuck line. Stuck lines are a `#` line that is no heading, a `---` line that is no rule, or a line opening with ` - [ ]` or ` - [x]`. The equivalence holds in both directions. |
| MarkdownBlocks.StallIff | components/ChatMessage.tsx:273-295 | The scan makes no progress at a line if and only if that line is stuck. |
| MarkdownBlocks.StallsOnlyWhenStuck | components/ChatMessage.tsx:158-296 | The scan stops advancing only at a stuck line, and it finishes when no line it reaches is stuck. |
| MarkdownBlocks.StuckMessageStalls | components/ChatMessage.tsx:273-291 | A one-line message whose line is stuck stops the renderer at line 0. |
| MarkdownBlocks.NoSpaceHeadingStalls | components/ChatMessage.tsx:176-291 | The message `#NoSpace` stops the renderer at line 0. |
| MarkdownBlocks.SevenHashesStall | components/ChatMessage.tsx:176-291 | The message `#######` stops the renderer at line 0. |
| MarkdownBlocks.IndentedTaskStalls | components/ChatMessage.tsx:275-291 | The message ` - [x] done` stops the renderer at line 0. |
| MarkdownBlocks.FixedParagraph | components/ChatMessage.tsx:273-291 | In the corrected scan, a line that reaches the paragraph rule always opens a paragraph. The paragraph runs to the first blank or new-block line after it. |
| MarkdownBlocks.FixedAgrees | components/ChatMessage.tsx:153-299 | Wherever the renderer as written finishes, the corrected renderer produces the same blocks. |
| MarkdownBlocks.FixedOneLine | components/ChatMessage.tsx:273-291 | With the correction, a one-line message that reaches the paragraph rule is one paragraph of that line. |
| MarkdownBlocks.FixedRendersNoSpace | components/ChatMessage.tsx:273-291 | With the correction, `#NoSpace` renders as a one-line paragraph. |
| MarkdownBlocks.StepWellFormed | components/ChatMessage.tsx:158-296 | Every block one step emits is well formed: a heading level from 1 to 6, lists and paragraphs never empty, a top-level quote at depth 0 with its nested quotes counting up by one. |
| MarkdownBlocks.BulletMoveWellFormed | components/ChatMessage.tsx:260 | A bullet list always has an item, so the `items.length > 0` guard always holds. |
| MarkdownBlocks.TaskMoveWellFormed | components/ChatMessage.tsx:218-224 | A task list always has an item. |
| MarkdownBlocks.QuoteMoveWellFormed | components/ChatMessage.tsx:204-212 | A top-level quote has depth 0, and each nested quote is one level deeper than its parent. |
| MarkdownBlocks.QuoteChildrenNesting | components/ChatMessage.tsx:97-133 | The quotes that `Blockquote` at `depth` emits are at `depth + 1`, all the way down. |
| MarkdownBlocks.SegmentWellFormed | components/ChatMessage.tsx:153-299 | Every block of a finished scan is well formed. |
| MarkdownBlocks.SegmentFixedWellFormed | components/ChatMessage.tsx:153-299 | Every block of the corrected scan is well formed. |
| MarkdownBlocks.ParagraphsKeepText | components/ChatMessage.tsx:119-121 | Splitting a quote's other lines into paragraphs loses no non-blank line and keeps their order. |
| MarkdownBlocks.PiecesKeepText | components/ChatMessage.tsx:121 | The separators `\n\s*\n` swallow only blank lines. |
| MarkdownBlocks.PiecesInterior | components/ChatMessage.tsx:121 | No piece of the split has a blank line strictly inside it. |
| MarkdownBlocks.ParagraphShape | components/ChatMessage.tsx:121-131 | Every paragraph of a quote has text, and blank lines only ever separate paragraphs. |
| MarkdownBlocks.JoinBlank | components/ChatMessage.tsx:121 | The filter `p.trim()` drops a piece exactly when all of its lines are blank. |
| MarkdownBlocks.QuoteChildrenRuns | components/ChatMessage.tsx:97-133 | `Blockquote` cuts its lines into consecutive runs that put together give back its lines. Each run is all `>` lines or all other lines, and each differs in kind from the one before. Its blocks are those of its runs in order: one nested quote on the stripped lines of each `>` run, the paragraphs of each other run. |
| MarkdownBlocks.QuoteRunsShape | components/ChatMessage.tsx:101-117 | The runs put together give back the lines; each is uniform and maximal. |
| MarkdownBlocks.QuoteChildrenByRuns | components/ChatMessage.tsx:97-133 | The blocks of a quote are the blocks of its runs, in order. |
| MarkdownBlocks.QuoteKeepsText | components/ChatMessage.tsx:93-133 | A whole quote shows, in its paragraphs read through every nested quote, exactly the non-blank lines it was given with every level's `>` stripped, in order: no line is lost, duplicated or moved. |
| MarkdownBlocks.QuoteMoveKeepsText | components/ChatMessage.tsx:204-212 | The quote block a top-level `>` run becomes shows exactly the innermost text of that run. |
| Rendering.MarkdownRenderer | components/ChatMessage.tsx:153-299 | The renderer's loop computes `Render(content)`: the blocks in order, or the line at which the original loop stops advancing. |
| Rendering.MarkdownRendererFixed | components/ChatMessage.tsx:153-299 | The corrected renderer always finishes and computes `RenderFixed(content)`. Those blocks equal the original's wherever the original finishes (`FixedAgrees`). |
| Rendering.StepFixedAt | components/ChatMessage.tsx:273-295 | The corrected step: the rules as written, except that a stuck line opens a paragraph. |
| Rendering.StuckParagraphAt | components/ChatMessage.tsx:273-290 | The corrected paragraph rule takes its first line unconditionally and then the following non-blank, non-new-block lines. |
| Rendering.Step | components/ChatMessage.tsx:158-295 | One pass of the loop body applies the rules in priority order, as `StepAt` does. |
| Rendering.CodeBlockAt | components/ChatMessage.tsx:162-173 | The fence branch yields the language, the joined code lines and the line after the closing fence. |
| Rendering.BlockquoteAt | components/ChatMessage.tsx:204-214 | The quote branch collects the `>` run, strips one level, and renders it at depth 0. |
| Rendering.StripRun | components/ChatMessage.tsx:207-211 | Collects the run of `>` lines, each with one `>` and one optional whitespace character stripped. |
| Rendering.TaskListAt | components/ChatMessage.tsx:217-244 | The task branch yields one item per task line: ticked for `x` or `X`, with its text formatted. |
| Rendering.BulletListAt | components/ChatMessage.tsx:247-270 | The bullet branch yields one formatted item per bullet line. It stops at a task line. |
| Rendering.BulletRun | components/ChatMessage.tsx:250-259 | Collects the second group of each bullet line, up to the first line that is not a bullet or is a task. |
| Rendering.ParagraphAt | components/ChatMessage.tsx:273-292 | The paragraph branch yields the run of non-blank, non-new-block lines, each formatted. With no such line it reports the stall. |
| Rendering.ParseAll | components/ChatMessage.tsx:283-288 | Formats every line on its own, in order. |
| Rendering.Blockquote | components/ChatMessage.tsx:93-151 | `Blockquote` at `depth` yields `QuoteBlock(lines, depth)`. |
| Rendering.NestedQuoteAt | components/ChatMessage.tsx:101-109 | A run of `>` lines becomes one quote one level deeper, after one `>` is stripped from each line. |
| Rendering.QuoteParagraphsAt | components/ChatMessage.tsx:110-132 | A run of other lines becomes its paragraphs. |
| Rendering.OtherRun | components/ChatMessage.tsx:114-117 | Collects the run of lines without `>`. |
| Rendering.QuoteParagraphs | components/ChatMessage.tsx:119-131 | The paragraphs are the `Paragraphs` function, which models the join, the split on `\n\s*\n` and the filter that drops blank pieces. The method formats each line of each paragraph, in order. |
| JsText.Trim | App.tsx:101-102 | `trim()` yields nothing exactly for an all-whitespace string, and otherwise no whitespace at either end. |
| JsText.JoinSplitLines | components/ChatMessage.tsx:154 | Joining the lines of `split('\n')` gives back the message. |
| JsText.SplitJoin | components/ChatMessage.tsx:120 | Splitting the joined lines gives back the lines, when none holds a newline. |
| JsText.ParseDecimal | App.tsx:395 | `parseInt(String(n), 10) \|\| 0` is `n` for every whole number `n`. |
| Ordering.InsertSpec | App.tsx:394-398 | Inserting keeps a list in descending order and adds exactly the one entry. |
| Ordering.SortDescendingSpec | App.tsx:394-398 | The sort puts the largest key first and keeps every entry exactly as often as it occurs. |
| Ordering.FilterSplit | App.tsx:400-404 | Taking the entries with the flag and then those without it keeps every entry. |
| Ordering.FilterDescending | App.tsx:400-404 | Taking some entries out keeps the order of the rest. |
| Ordering.GroupsInOrder | App.tsx:400-404 | The flagged group comes first, and the order within each group is kept. |
| Ordering.InsertStable | App.tsx:394-398 | Inserting an entry puts it ahead of the entries with the same key and keeps their order. |
| Ordering.SortStable | App.tsx:394-398 | The sort is stable: the entries with any one key come out in the order they went in. |
| Conversations.Pin | App.tsx:94-96 | Entries with the id take the flag. The list keeps its length and order, and nothing else changes. |
| Conversations.PinLastWins | App.tsx:94-96 | Pinning twice leaves the flag of the second call. |
| Conversations.PinUnpin | App.tsx:94-96 | Pinning then unpinning an unpinned conversation restores the list. |
| Conversations.Rename | App.tsx:98-104 | A cancelled or blank answer changes nothing. Otherwise the entries with the id take the trimmed answer as title, and nothing else changes. |
| Conversations.RenamedTitle | App.tsx:101-102 | A new title is never empty and has no whitespace at either end. |
| Conversations.Without | App.tsx:107 | An entry stays exactly when it was there and its id is not the deleted one. |
| Conversations.WithoutAppend | App.tsx:107 | Removing entries keeps the order of the rest. |
| Conversations.Delete | App.tsx:106-111 | The entries with the id go. The open conversation is closed exactly when it was the one deleted, and is otherwise kept. |
| Conversations.DeleteTwice | App.tsx:106-111 | Deleting twice is deleting once. |
| Ordering.SortByFlag | App.tsx:400-404 | A stable sort by a flag, set first, is the entries with the flag and then those without, each group in its order. |
| Conversations.SortedPartition | App.tsx:393-405 | The second sort turns the time-sorted list into its pinned entries followed by its unpinned ones, each in time order. |
| Conversations.SortedConversationsSpec | App.tsx:393-405 | The sidebar lists every conversation as often as the list holds it: pinned ones first, and newest first (by `parseInt(id)`) within the pinned and within the unpinned ones. |
| Conversations.AppendMessage | App.tsx:147-149 | The message is added at the end of the conversations with the id. Everything else is unchanged. |
| Conversations.DropLast | App.tsx:242-247 | `slice(0, -1)` on the conversations with the id: the last message goes, an empty list stays empty, and the other entries are unchanged. |
| Conversations.DropLastUndoesAppend | App.tsx:242-247 | Taking back the message just appended restores the list. |
| Conversations.StartSend | App.tsx:139-150 | With no open conversation, a new one is put first and opened. It holds only the user's message, its id is the time and its title is "New Conversation". Otherwise the message is appended to the open conversation. |
| Conversations.SendThenRevert | App.tsx:242-247 | A failed request in an open conversation leaves the list as it was before sending. |
| Conversations.NewSendThenRevert | App.tsx:242-247 | A failed request that opened a new conversation leaves that conversation in the list, empty. The other entries are unchanged. |
| Conversations.NewConversationTime | App.tsx:141 | The new conversation's id reads back as its creation time, so the sidebar sorts it by that time. |
| Conversations.Complete | App.tsx:222-231 | On success the conversation with the id keeps its id and pinned flag. A new conversation with a non-empty answer holds exactly the user's message and the answer and takes the generated title. Otherwise the answer is appended and the title stays. The answer is last either way, and the other entries are unchanged. |
| Conversations.SendThenAnswer | App.tsx:222-231 | A successful send in an open conversation adds the user's message and then the answer to it, and changes nothing else. |
| Conversations.NewSendThenAnswer | App.tsx:222-224 | A successful send that opened a new conversation leaves it first, unpinned, with the creation time as id and exactly the user's message and the answer. It takes the generated title only when the answer has text. The entries that were there follow, unchanged unless one had the same id. |
| Conversations.FirstIndex | App.tsx:282 | The first index whose entry passes the test, or none when no entry does. Both `find` calls rely on it. |
| Conversations.FindConversation | App.tsx:282 | `find` returns the first entry with the id, or reports that none has it. |
| Conversations.StartImage | App.tsx:272-289 | A new image conversation is put first and opened, titled after the first 20 characters of the prompt. In an open conversation that cannot be found nothing changes (the error path). Otherwise every entry with the open id becomes one copy of the first such entry with the user's message appended. |
| Conversations.ImageStartLikeSend | App.tsx:282-289 | When no other entry shares the open id, the image path's optimistic update is the one of sending a message. |
| Conversations.ImageSendThenRevert | App.tsx:377-382 | A failed image request in an open conversation gives every entry with its id the messages of the first such entry. When the id is not shared, that is the list as it was. |
| Conversations.ImageNewSendThenRevert | App.tsx:377-382 | A failed image request that opened a new conversation leaves it in the list, empty and titled after the prompt. |
| Conversations.IndexOfUri | App.tsx:216 | Finds the first entry with the URI, or reports that none has it. |
| Conversations.DedupSpec | App.tsx:214-217 | The merged sources keep one entry per URI, in the order the URIs first appear, each with the last chunk seen for it (`Map` semantics). |
| Conversations.DedupDistinct | App.tsx:216-217 | After the merge the URIs are pairwise distinct, and exactly the URIs met are present. |
| Conversations.DedupOfDistinct | App.tsx:216 | Sources that already have distinct URIs merge to themselves. |
| Conversations.MergeAgain | App.tsx:213-218 | Merging each new batch into the kept sources gives what one merge over all sources in arrival order gives. |
| Conversations.Received | App.tsx:192 | The pieces taken in are those before the first check that finds the stop flag set. |
| Conversations.AccumulateStream | App.tsx:189-220 | The answer's text is the received pieces' texts in order. Its sources are one URI-keyed merge of all their sources. |
| Conversations.OneMore | App.tsx:213-217 | Taking in one more piece adds its text and its sources. |
| Conversations.TextsAppend | App.tsx:213 | The text of two runs of pieces is the text of the first followed by the text of the second. |
| RelativeDate.Bucket | components/CitationsPanel.tsx:26-38 | Today exactly at 0 days and Yesterday exactly at 1. Days exactly for 2 to 6, weeks for 7 to 29, months for 30 to 364, years from 365. Counts are 1 to 4 weeks, 1 to 12 months, at least 1 year. |
| RelativeDate.BucketRoundsDown | components/CitationsPanel.tsx:24-38 | The count shown is rounded down: the age lies within the span the words name. |
| RelativeDate.FormatRelativeDate | components/CitationsPanel.tsx:12-43 | Empty exactly for a missing date, a missing part, or a date after now. Otherwise it gives the words for the whole days elapsed. |
| RelativeDate.PastDateHasWords | components/CitationsPanel.tsx:21-38 | Every complete past date gets non-empty words. |
| RelativeDate.ParsePhraseRoundTrip | components/CitationsPanel.tsx:26-38 | The words name their bucket and count unambiguously: reading them back gives the bucket, including the singular and plural units. |

## Left out

- JSX and styling are not modelled. The model produces a block tree, not
  elements; keys, class names, `<br />` between lines and the quote
  designs per depth are not modelled.
- Syntax highlighting (`hljs`) and the copy button (clipboard, timers) of
  the code block are not modelled.
- The network is not modelled. The request to the model API, the history
  sent with it and the building of the API contents are left out. The
  streamed pieces are an input sequence, and the `stopStreamingRef` flag
  is an input sequence `stopped`, one entry per check.
- `generateTitle` is not modelled. The title is a parameter of
  `Complete`.
- `localStorage` persistence, the side panel's open state and the model
  selector are not modelled.
- `prompt()` is not modelled. The answer of the title prompt is an
  `Option` parameter of `Rename`.
- The clock is a parameter: `now` for a new conversation's id, and the
  milliseconds elapsed for `formatRelativeDate`.
- `new Date(year, month - 1, day)` and the calendar are not modelled.
  Neither are floating-point time, invalid dates and the `catch` branch.
- Error messages are not modelled: the choice between "server is down!"
  and the generic text after lower-casing is left out, and only the list
  revert is modelled.
- Image generation is modelled through its optimistic update and its
  revert. The image API and the reading of its response are left out.
- Conversations.StartImage: the list the image path looks the open
  conversation up in (`conversations`, as of the last render) and the list
  it updates (`prev`) are taken to be the same list. Their difference
  exists only when another update is still pending.
- JsText.ParseIntOrZero: `parseInt` yields a double, and the model reads
  a digit string as an exact whole number. The two differ only for
  ids above 2^53, which may read as equal doubles, and for digit strings
  too long for a double, which read as `Infinity` and make the comparator
  `NaN`. The sort's order may differ for such ids. The ids the app itself
  creates (`Date.now().toString()`, 13 digits) are not affected.
- Conversations.Time: for the same reason, it reads an id as an exact
  whole number, not as the double the comparator subtracts.
- `getHostname` of the citations panel is not modelled: it relies on the
  `URL` parser.
- `Array.prototype.sort` is modelled by a stable insertion sort, in both
  calls of `sortedConversations`. The pinned comparator becomes the key 1
  for pinned and 0 for the others. ECMAScript requires `sort` to be stable,
  so the resulting order is the same (`Ordering.SortStable`). The
  comparison count and the engine's algorithm are not modelled.
- The paragraph split inside quotes (`join('\n')`, then `split(/\n\s*\n/)`)
  is modelled on lines rather than on the joined text. A separator is a
  blank line between two lines of the run, and the greedy `\s*` takes
  every following blank line except the last line of the run.
- Rendering.MarkdownRenderer: where the original loops forever on a stuck
  line, the method returns `Stalls(i)`. Non-termination itself is not
  modelled.
- JavaScript strings are sequences of UTF-16 code units; here a string is
  a sequence of Dafny characters, and whitespace is the set `\s` matches.
  Characters outside the Basic Multilingual Plane are not modelled as
  surrogate pairs.

## Findings

| source | as written | input that shows it | evidently intended | confidence | as-written member | corrected member |
|---|---|---|---|---|---|---|
| components/ChatMessage.tsx:273-291 | The paragraph rule collects lines only while they fail `isNewBlock`, and moves on only if it collected one. A non-blank line that no earlier rule took but that `isNewBlock` accepts (`#NoSpace`, `#######`, `---x`, ` - [x] done`) is never consumed, so the `while` loop never advances past it. | `#NoSpace` | The line opens a paragraph of its own, which runs to the next blank or new-block line. | not executed | MarkdownBlocks.NoSpaceHeadingStalls | Rendering.MarkdownRendererFixed |
