# zw core, modelled in Dafny

`zw` is a command-line client for an AI chat service. It streams answers to the
terminal, prepares code reviews and commit messages from staged git changes, and
attaches local files to a question. This project models the text pipeline that
sits between the network and the terminal, plus the validators and small
stateful tables around it, and proves what each part promises.

| Dafny file | module | models |
|---|---|---|
| common.dfy | `Common` | `Option`, `Result`, and `Outcome` (a Go `error` return) |
| text.dfy | `Text` | the parts of Go's `strings` package the core uses |
| stream_processor.dfy | `Stream` | `src/pkg/stream/processor.go`: the live event-stream decoder and `cleanResponse`/`limitNewlines` |
| ai_client.dfy | `LegacyClient` | `src/internal/ai/client.go`: both older stream decoders and their `cleanResponse` |
| markdown.dfy | `Markdown` | `src/internal/renderer/markdown.go`: fenced-block handling, code-box preparation, the header pass and the pipeline order |
| ask.dfy | `Printer` | `src/cmd/ask.go`: the progressive `streamingPrinter` |
| commit.dfy | `Commit` | `src/cmd/commit.go`: commit-option parsing, languages, confirmation, the staged-diff loops and the staging status |
| files_reader.dfy | `Files` | `src/internal/files/reader.go`: path validation, binary sniffing, size limits, languages and formatting |
| errors.dfy | `Errors` | `src/pkg/errors/errors.go`: log redaction and the git argument whitelist |
| token_mask.dfy | `TokenMask` | `maskToken` in `src/cmd/ai.go` |
| regex_cache.dfy | `RegexCache` | `src/internal/renderer/cache.go` |
| factory.dfy | `Registry` | `src/pkg/ai/factory.go` |
| service.dfy | `Session` | `src/internal/ai/service.go` |

Conventions used throughout:
- A Go string is a `string` (a sequence of `char`), and one character stands for one byte. This is exact for ASCII text only.
- JSON decoding is a parameter: a function from the payload text to an optional record.
- Readers are the finite sequence of what they yield, plus whether they then failed.
- Time is an integer number of milliseconds passed in by the caller.
- The terminal is an append-only sequence of writes.
- Foreign libraries (chroma, go-pretty, fatih/color, the inline-emphasis regexes, the regex compiler, the chat client) are function parameters or fields.

The model follows the code, also where it is evidently wrong: the printer's erase and the bearer-token step of the log sanitiser run as written. The behaviour the authors evidently intended is stated and proved on separate members, listed in the Findings table.

Where the code and its description disagree, the model follows the code. Two cases:
- `cleanResponse` in `processor.go` counts overlapping fences.
- The modified-file diff prints its "more changes" notice once the 20th change has been printed, even when there is no 21st.

## Model

| member | source | states |
|---|---|---|
| Stream.Emitted | src/pkg/stream/processor.go:94-99 | a record contributes at most one delta; it contributes its content exactly when its type is `chat:completion` and the content is non-empty; no contributed delta is empty |
| Stream.ProcessStream | src/pkg/stream/processor.go:75-111 | the callback receives exactly the deltas the scanned lines produce, in order; the result is the read error when the lines end without a terminator on a failed scan, and otherwise it is `cleanResponse` of the concatenation of the callback arguments |
| Stream.ProcessLine | src/pkg/stream/processor.go:78-102 | one scanned line: the text accumulated stays the concatenation of the callback arguments; the line stops the stream exactly when the scan of the remaining lines is terminated there, and otherwise what remains to be reported shifts by the deltas this line produced |
| Stream.CleanResponse | src/pkg/stream/processor.go:114-153 | the rune loop (line endings rewritten, overlapping fences counted) followed by trimming, balancing and newline capping computes the cleaned text |
| Stream.LimitNewlines | src/pkg/stream/processor.go:156-174 | the counting loop computes the newline cap starting from a run of zero |
| Stream.ScanAppend | src/pkg/stream/processor.go:75-104 | scanning two runs of lines in sequence: a terminator in the first run hides the second; otherwise the deltas are concatenated |
| Stream.SkippedLine | src/pkg/stream/processor.go:79-92 | a line without the exact `data: ` prefix, or one whose payload does not parse, has no effect wherever it appears |
| Stream.UnprefixedIgnored | src/pkg/stream/processor.go:79-81 | a line shorter than 6 characters, or one not starting with `d` (a padded line, say), is ignored |
| Stream.SentinelStops | src/pkg/stream/processor.go:83-86 | `data: [DONE]` ends the stream at once with the deltas before it, whatever follows |
| Stream.DoneStops | src/pkg/stream/processor.go:94-103 | a record with `done` ends the stream after its own delta has been taken, whatever its type |
| Stream.RecordContinues | src/pkg/stream/processor.go:94-99 | a record without `done` adds its delta and the stream goes on with the following lines |
| Stream.ScanDeltasNonEmpty | src/pkg/stream/processor.go:94 | no delta passed to the callback is empty |
| Stream.ConcatAppend | src/pkg/stream/processor.go:98 | the accumulated text of two runs of deltas is the concatenation of their texts |
| Stream.ConcatSnoc | src/pkg/stream/processor.go:98 | one more delta extends the accumulated text by exactly that delta |
| Stream.NormalizeEolStep | src/pkg/stream/processor.go:127-142 | what each character becomes in the rewrite: `\r` before `\n` vanishes, any other `\r` becomes `\n`, every other character is copied |
| Stream.NormalizeEolNoCr | src/pkg/stream/processor.go:129-133 | no carriage return survives the line-ending rewrite |
| Stream.NormalizeEolKeeps | src/pkg/stream/processor.go:139-141 | every character other than `\r` that occurs in the text still occurs after the rewrite |
| Stream.NormalizeEolIsReplaceAll | src/pkg/stream/processor.go:127-142 | the single-pass rewrite equals the older client's `ReplaceAll("\r\n","\n")` followed by `ReplaceAll("\r","\n")` |
| Stream.FenceAtFront | src/pkg/stream/processor.go:134-137 | a fence starts at the front exactly when the first three characters are backticks |
| Stream.CountOverlappingSplit | src/pkg/stream/processor.go:134-137 | the fences of a concatenation are those of its parts when no backtick run crosses the seam |
| Stream.NoTickNoFence | src/pkg/stream/processor.go:134-137 | a text without a backtick holds no fence |
| Stream.NormalizeEolFences | src/pkg/stream/processor.go:127-142 | the line-ending rewrite neither creates nor destroys a fence |
| Stream.TrimSpaceFences | src/pkg/stream/processor.go:144 | trimming white space neither creates nor destroys a fence |
| Stream.BalancedFences | src/pkg/stream/processor.go:147-149 | the balancing step adds one fence exactly when the count is odd |
| Stream.CapNewlinesFences | src/pkg/stream/processor.go:156-174 | capping newline runs neither creates nor destroys a fence |
| Stream.CleanedFences | src/pkg/stream/processor.go:125-152 | after cleaning, the overlapping fence count is the original count rounded up to even |
| Stream.CapNewlinesNoLongRun | src/pkg/stream/processor.go:160-171 | the capped text holds no run of four newlines |
| Stream.CapNewlinesKeepsOthers | src/pkg/stream/processor.go:167-170 | capping removes only newlines: the other characters are kept, in order |
| Stream.CapNewlinesIdentity | src/pkg/stream/processor.go:160-171 | a text with no run of four newlines is left unchanged |
| Stream.CapNewlinesIdempotent | src/pkg/stream/processor.go:156-174 | capping twice is capping once |
| Stream.CapNewlinesChars | src/pkg/stream/processor.go:156-174 | capping introduces no character |
| Stream.CapNewlinesLast | src/pkg/stream/processor.go:167-170 | a last character other than a newline stays last |
| Stream.CleanedNoCr | src/pkg/stream/processor.go:114-153 | the cleaned text holds no carriage return |
| Stream.FenceSurvivesTrim | src/pkg/stream/processor.go:144-149 | a text with a fence does not trim to nothing, so the closing fence is never appended to an empty text |
| Stream.CleanedTrimmed | src/pkg/stream/processor.go:144-152 | the cleaned text has no white space at either end |
| Stream.CleanedNoLongRun | src/pkg/stream/processor.go:151-152 | the cleaned text contains no `\n\n\n\n` |
| Stream.FourBackticks | src/pkg/stream/processor.go:134-137 | on four backticks the overlapping count is 2, while the non-overlapping count is 1 |
| Stream.CleanedFenceCount | src/pkg/stream/processor.go:125-152 | cleaning rounds the overlapping fence count of the input up to the next even number |
| Stream.BalancedUnpadded | src/pkg/stream/processor.go:144-149 | closing an odd fence after trimming keeps both ends of the text free of white space |
| Stream.NoLongRunAfterBreak | src/pkg/stream/processor.go:160-171 | a run of at most three newlines followed by another character starts no run of four |
| LegacyClient.CollapseStepShrinks | src/internal/ai/client.go:404-406 | one replacement pass shortens a text holding four newlines in a row, so the loop ends |
| LegacyClient.Collapse | src/internal/ai/client.go:404-406 | the replace-until-fixpoint loop ends with no `\n\n\n\n` left |
| LegacyClient.CleanResponse | src/internal/ai/client.go:387-409 | the replacements, trimming, non-overlapping fence balancing and the fixpoint loop compute the older cleaner's text |
| LegacyClient.CapNewlinesReplaceStep | src/internal/ai/client.go:404-406 | one pass of replacing four newlines by three does not change what the newline cap makes of the text |
| LegacyClient.CapNewlinesRun | src/internal/ai/client.go:404-406 | a run of `k` newlines in front of a text passes the cap as at most three newlines less those already in a row, and the rest is capped as if the run had been seen |
| LegacyClient.CollapseIsCapNewlines | src/internal/ai/client.go:404-406 | the fixpoint loop computes exactly what the live `limitNewlines` computes |
| LegacyClient.CleanersAgree | src/internal/ai/client.go:387-409 | the two cleaners return the same text whenever their fence counts have the same parity |
| LegacyClient.LegacyOnFourBackticks | src/internal/ai/client.go:398-401 | on four backticks the older cleaner counts one fence and appends a closing fence |
| LegacyClient.LiveOnFourBackticks | src/internal/ai/client.go:398-401 | on four backticks the live cleaner appends nothing, so the two cleaners disagree there |
| LegacyClient.ReadFromScanEof | src/internal/ai/client.go:107-141 | when the reader ends with EOF, the ReadString loop is the line scanner over every trimmed result, the final fragment included |
| LegacyClient.ReadFromScanFailed | src/internal/ai/client.go:108-111 | when the reader ends with another error, the loop scans the complete lines and fails unless a terminator came first |
| LegacyClient.TrimTerminated | src/internal/ai/client.go:113 | trimming removes the newline each complete line keeps |
| LegacyClient.ReaderPieces | src/internal/ai/client.go:108-113 | the trimmed results of the reader over a body are the trimmed pieces of that body between its newlines |
| LegacyClient.StreamOverBytes | src/internal/ai/client.go:103-142 | over a body of bytes: with EOF the decoder scans all trimmed pieces, a final line without newline included; with a read error it scans all but the last |
| LegacyClient.ScanOne | src/internal/ai/client.go:113-133 | one trimmed line, case by case: no prefix is ignored, `[DONE]` stops, a rejected payload is skipped, a record contributes its delta and stops when `done` |
| LegacyClient.DecodeLine | src/internal/ai/client.go:113-133 | the body of the loop for one line returns the content to append (empty when none) and whether the stream stops, as the scanner defines them |
| LegacyClient.ParseStreamResponseStream | src/internal/ai/client.go:103-142 | `onDelta` receives the deltas of the ReadString loop in order; the result is the read error or the older cleaner's text of those deltas |
| LegacyClient.DecodeLines | src/internal/ai/client.go:360-381 | the inner loop over the pieces of one read appends exactly the deltas the scanner finds in the trimmed pieces and reports a terminator |
| LegacyClient.ParseStreamResponse | src/internal/ai/client.go:345-385 | reads are decoded until a broken read fails, a read of 0 bytes ends the loop, or a terminator is met; the result is the cleaned text of the deltas appended |
| LegacyClient.ChunksScanPieces | src/internal/ai/client.go:349-382 | with no broken and no empty read, the decoder is the line scanner over the reads' pieces one after another, so a read boundary acts as a line break and a record straddling two reads becomes two fragments |
| LegacyClient.TrimAllAt | src/internal/ai/client.go:361 | each piece is trimmed on its own |
| LegacyClient.TerminatedAt | src/internal/ai/client.go:108-113 | each complete line a reader hands back is the piece with its newline |
| LegacyClient.CapNewlinesSaturated | src/internal/ai/client.go:404-406 | once three newlines are in a row, how many more came before makes no difference to the cap |
| LegacyClient.CapNewlinesPlain | src/internal/ai/client.go:404-406 | a stretch without newlines passes the cap unchanged and ends any run |
| LegacyClient.FourBackticksNormalized | src/internal/ai/client.go:393-395 | four backticks pass the line-ending rewrite and the trim unchanged |
| LegacyClient.FourBackticksBalancedCapped | src/internal/ai/client.go:398-406 | four backticks followed by a closing fence pass the newline cap unchanged |
| Markdown.SpanFrom | src/internal/renderer/markdown.go:78 | the greedy run of a character class from a position: every character in it belongs to the class and the next one does not |
| Markdown.FirstCloser | src/internal/renderer/markdown.go:78 | the lazy body stops at the first position where a closing fence (with or without a newline before it) starts, and there is none before it |
| Markdown.BlockAt | src/internal/renderer/markdown.go:78 | a match starts with a fence and ends after it |
| Markdown.CloserEnd | src/internal/renderer/markdown.go:78 | a match ends after `\n` plus a fence when the newline is there, otherwise after the fence alone |
| Markdown.BlockShape | src/internal/renderer/markdown.go:78-96 | a match is a fence, a tag of `[A-Za-z0-9_+-]` characters, a newline, a body in which no closer starts, an optional newline and a fence |
| Markdown.MatchText | src/internal/renderer/markdown.go:78 | the text of a match is the concatenation of its fence, tag, newline, body and closer |
| Markdown.ReplaceBlocksNoFence | src/internal/renderer/markdown.go:76-97 | a text with no fence passes the closed-block pass unchanged |
| Markdown.ReplaceBlocksPrefix | src/internal/renderer/markdown.go:76-97 | the text before the first fence survives the closed-block pass verbatim |
| Markdown.ReplaceBlocksSkip | src/internal/renderer/markdown.go:80 | a position where no fence starts is copied |
| Markdown.EvenFencesUnchanged | src/internal/renderer/markdown.go:25-27 | an even non-overlapping fence count leaves the text as it is |
| Markdown.OddCountHasLastFence | src/internal/renderer/markdown.go:29-32 | with an odd count there is a last fence, so the `idx == -1` branch is never taken |
| Markdown.LastFenceFound | src/internal/renderer/markdown.go:29 | the fence that no other fence follows is the one `LastIndex` finds |
| Markdown.OpenTagIncomplete | src/internal/renderer/markdown.go:34-40 | without a newline after the last fence the text is left as it is |
| Markdown.OpenBlockRendered | src/internal/renderer/markdown.go:41-47 | otherwise the text before the last fence is kept unchanged and the rest becomes the box of the code after the tag line, labelled with the trimmed tag |
| Markdown.ExpandTabs | src/internal/renderer/markdown.go:143 | no tab survives the tab expansion |
| Markdown.BlankIsTrimEmpty | src/internal/renderer/markdown.go:147 | a line is blank exactly when it trims to the empty text |
| Markdown.DropBlankTail | src/internal/renderer/markdown.go:146-149 | the kept lines are a prefix of the lines; the last kept line is not blank, and every dropped line is |
| Markdown.CodeRows | src/internal/renderer/markdown.go:142-191 | the rows are the lines of the expanded text, in order, up to the last non-blank one; none holds a tab or a newline |
| Markdown.TableLayout | src/internal/renderer/markdown.go:163-181 | the allowed length is the width minus 10 (minus 6 more under zsh); the row cap is set exactly when that exceeds 30, and the column limits (min 20, max allowed minus 4) exactly when allowed minus 4 exceeds 20; a width of 0 or less sets neither |
| Markdown.BoxTable | src/internal/renderer/markdown.go:183-191 | the table holds exactly the rows and the width settings; a `" lang "` header is there exactly when the language is non-empty |
| Markdown.FormattedBlockEmpty | src/internal/renderer/markdown.go:151-193 | a box is empty exactly when every line of the block is blank, and a non-empty box ends with a newline |
| Markdown.FormatCodeBlock | src/internal/renderer/markdown.go:130-194 | the method (highlighting, tab expansion, the popping loop and the row loop) computes the formatted block |
| Markdown.FormatLines | src/internal/renderer/markdown.go:146-193 | after the split: the empty text when only blank lines remain, otherwise the drawn table of the remaining lines and a newline |
| Markdown.HeaderMatch | src/internal/renderer/markdown.go:266-271 | a match is 1 to 6 hashes, a run of `\s`, and a non-empty text without newline |
| Markdown.HeaderMatchComplete | src/internal/renderer/markdown.go:266-271 | every reading of a line as a header is found, with the same level and a text no shorter than the one chosen, as the greedy `\s+` requires |
| Markdown.PlainLineKept | src/internal/renderer/markdown.go:269 | a line that does not start with `#` is left alone |
| Markdown.HeaderLines | src/internal/renderer/markdown.go:267-287 | the header pass keeps the number of lines and treats each line on its own |
| Markdown.HeaderPass | src/internal/renderer/markdown.go:268-287 | the loop overwrites each header line in place with its styled text and leaves the other lines, so the array ends as the header pass of its old contents |
| Markdown.ProcessMarkdownElements | src/internal/renderer/markdown.go:245-291 | the inline emphasis, then the header pass over the lines, joined back with newlines |
| Markdown.RenderMarkdown | src/internal/renderer/markdown.go:63-73 | closed blocks first, then the open block, then the inline elements and headers |
| Markdown.RenderPlain | src/internal/renderer/markdown.go:63-73 | a text with no fence whose emphasised lines hold no header comes out as the emphasis pass left it |
| Markdown.OpenBlockAtLast | src/internal/renderer/markdown.go:25-29 | with an odd fence count, the open block starts at the last fence |
| Printer.CursorUpCount | src/cmd/ask.go:107 | the cursor-up control is `ESC [`, the count in decimal digits, then `A`, and the count read back is the one it was made with |
| Printer.EraseAsWritten | src/cmd/ask.go:105-108 | the erase as the code writes it: nothing when the kept line count is 0; otherwise it starts by moving the cursor up by that count |
| Printer.ShouldRender | src/cmd/ask.go:91-95 | a repaint is due exactly when the delta holds a newline, no repaint happened yet (Go's zero time), or at least 80 ms have passed since the last one |
| Printer.StreamingPrinter.constructor | src/cmd/ask.go:82-87 | the printer starts with an empty buffer, a line count of 0, no repaint time and nothing written, and the terminal shows the empty frame |
| Printer.StreamingPrinter.Render | src/cmd/ask.go:101-112 | the whole buffer is rendered; the erase is written only when the kept line count of the previous frame is positive, then the new frame, and the line count becomes its newline count; the terminal then shows the new frame when the previous one was empty or held a newline, and after a non-empty frame without a newline it shows the two frames run together and not the new frame |
| Printer.StreamingPrinter.OnDelta | src/cmd/ask.go:89-99 | the delta always joins the buffer; when a repaint is due the printer repaints as Render does (the same erase, the same shown or not-shown outcome) and notes the time; otherwise nothing is written and the time, frame and line count are unchanged |
| Printer.StreamingPrinter.Flush | src/cmd/ask.go:114-117 | a repaint whatever the throttle, with the erase as written, then one newline; when the previous frame was empty or held a newline, the terminal shows the final frame and an empty line below it |
| Printer.Put | src/cmd/ask.go:110 | printing one character keeps the cursor inside the region |
| Printer.StartShowsNothing | src/cmd/ask.go:82-87 | before anything is printed the region shows the empty frame |
| Printer.ApplyAllAppend | src/cmd/ask.go:107-110 | applying two runs of writes is applying the first, then the second |
| Printer.PrintShows | src/cmd/ask.go:110 | printing after a frame shows the frame extended by what was printed |
| Printer.EraseCorrected | src/cmd/ask.go:105-108 | the corrected erase is empty exactly when the previous frame is empty |
| Printer.EraseClears | src/cmd/ask.go:105-108 | from a screen whose cursor sits on the last row of the previous frame, the corrected erase leaves a blank screen |
| Printer.EraseAgreesOnRows | src/cmd/ask.go:105-108 | the erase as written and the corrected one agree whenever the previous frame holds a newline |
| Printer.RowsOfFrame | src/cmd/ask.go:103-111 | the number of rows a frame occupies, less one, is its newline count |
| Printer.RepaintShowsFrame | src/cmd/ask.go:101-112 | with the corrected erase, every repaint leaves exactly the new frame on screen, whatever the previous one was |
| Printer.RepaintAsWritten | src/cmd/ask.go:101-112 | with the erase as written, a repaint leaves exactly the new frame on screen when the previous frame was empty or held a newline |
| Printer.RepaintAfterOneLine | src/cmd/ask.go:105-110 | after a frame without a newline the erase as written writes nothing, and the screen shows the previous frame followed by the new one |
| Printer.ShowsUnique | src/cmd/ask.go:110 | a screen shows at most one frame |
| Printer.RepaintAsWrittenAfter | src/cmd/ask.go:101-112 | a repaint as written after everything written so far shows the new frame when the previous one was empty or held a newline; after a non-empty one-line frame it shows the two run together and never the new frame alone |
| Printer.AsWrittenKeepsOneLineFrame | src/cmd/ask.go:105-110 | as written, after the frame `a` a repaint with `ab` leaves `aab` on the line |
| Commit.Kept | src/cmd/commit.go:242-246 | the trimmed lines with text never outnumber the lines |
| Commit.OptionsOf | src/cmd/commit.go:260-267 | the parser yields at most one option |
| Commit.ParseCommitOptions | src/cmd/commit.go:236-268 | the parser splits the answer at newlines and returns the option of its lines |
| Commit.OptionsOfLines | src/cmd/commit.go:242-267 | the loop over the lines (skip blank lines, the first becomes the title, the others are appended to the description after a newline once it is not empty) computes the option of the kept lines |
| Commit.AddLine | src/cmd/commit.go:249-257 | one line with text: it becomes the title when there is none yet, otherwise the next description line |
| Commit.KeptStep | src/cmd/commit.go:243-246 | one more line adds its trimmed text to the kept lines exactly when that text is not empty |
| Commit.ParsedFirst | src/cmd/commit.go:249-250 | the first kept line becomes the title |
| Commit.ParsedStep | src/cmd/commit.go:251-257 | a later kept line is appended to the description, after a newline when the description is not empty |
| Commit.KeptEmpty | src/cmd/commit.go:242-260 | no line is kept, and so no option is produced, exactly when every line is white space |
| Commit.TitleIsFirstLine | src/cmd/commit.go:249-250 | the title is the first line with text, trimmed |
| Commit.TitleOnLastLine | src/cmd/commit.go:242-250 | when every line before the last is white space and the last has text, the trimmed last line is the title |
| Commit.TrimmedLine | src/cmd/commit.go:243 | a trimmed line of the answer holds no newline and no white space at either end |
| Commit.KeptFree | src/cmd/commit.go:237-243 | every kept line of a split answer is text without a newline, trimmed |
| Commit.DescriptionLines | src/cmd/commit.go:251-257 | the description splits at newlines into exactly the second and later kept lines, and it neither starts nor ends with a newline |
| Commit.JoinEnds | src/cmd/commit.go:253-256 | joining non-empty pieces that neither start nor end with the separator gives a text that neither starts nor ends with it |
| Commit.IsValidLanguage | src/cmd/commit.go:210-218 | the loop with an early return accepts exactly ru, en, uk and kz |
| Commit.LanguageInstructions | src/cmd/commit.go:220-233 | any language outside the whitelist gets the Russian-in-English default; a whitelisted one gets its own line |
| Commit.MessageRoundTrip | src/cmd/commit.go:122-125 | the commit message is the title, plus a blank line and the description only when there is one; read back, it gives the option again when the title has no newline |
| Commit.NormalizedTrimmed | src/cmd/commit.go:114 | lower-casing and trimming commute, and trimming the answer first changes nothing |
| Commit.ConfirmedTrimmed | src/cmd/commit.go:113-119 | only the trimmed answer matters for the confirmation |
| Commit.ConfirmedAnswers | src/cmd/commit.go:114-119 | the commit goes ahead exactly for answers whose trimmed text is `y` or `yes` in any letter case |
| Commit.StagingStatus | src/cmd/commit.go:423-438 | the label is `Unknown` exactly for the unmodified, untracked and unmerged codes |
| Commit.Changes | src/cmd/commit.go:364-376 | the diff loop never lists more changes than its budget |
| Commit.ChangesSound | src/cmd/commit.go:364-376 | every listed change is real and in line order: a changed line differs from the HEAD line at the same index, an added line lies past the end of the HEAD file, and lines dropped from the end of the HEAD file are never listed |
| Commit.ChangesComplete | src/cmd/commit.go:364-376 | every changed or added line is listed unless the budget of 20 ran out first |
| Commit.ChangesUnfold | src/cmd/commit.go:364-376 | one index of the walk: a line that is not a change is passed over, a change is listed and uses up one unit of budget |
| Commit.LineChange | src/cmd/commit.go:365-375 | the loop body writes the `-`/`+` pair of a changed line or the `+` line of an added one, and counts exactly those |
| Commit.LineDiff | src/cmd/commit.go:361-380 | the loop computes the text of the listed changes, then the `... (more changes)` marker once 20 changes have been listed |
| Commit.ListChanges | src/cmd/commit.go:361-376 | the loop, which stops at the end of the new lines or once 20 changes are counted, counts and writes exactly the changes the reference walk reports, in line order |
| Commit.DiffLine | src/cmd/commit.go:365-375 | one pass of the loop body counts a change exactly when line `i` is one, and writes exactly its text |
| Commit.ListedThenRest | src/cmd/commit.go:364-376 | what the loop has listed after `n` lines, followed by what the walk still reports from line `n` with the remaining budget, is everything the walk reports |
| Commit.ListedAll | src/cmd/commit.go:364 | once the loop condition fails, the changes listed so far are all the walk reports |
| Commit.DoneSnoc | src/cmd/commit.go:367-374 | the text of one more listed change extends the diff text by exactly that change |
| Commit.NewFileListing | src/cmd/commit.go:383-392 | the listing of a new file is the listing of its split lines |
| Commit.ListLines | src/cmd/commit.go:384-392 | at most the first 15 lines are listed, each as `+n: line` numbered from 1, with the notice when the file has more |
| Commit.NumberedStep | src/cmd/commit.go:390-391 | one more listed line appends exactly its numbered line |
| Commit.NumberedLines | src/cmd/commit.go:390-391 | each listed line takes exactly one output line |
| Commit.FileSection | src/cmd/commit.go:304-404 | the loop body for one file: the header and status, then the line diff of a modified file, the listing of an added one or the note of a deleted one, then a blank line |
| Commit.Finish | src/cmd/commit.go:407-420 | a white-space-only summary becomes `No staged changes found`; a summary no longer than 8000 bytes, or one with at most 200 lines, is returned as it is |
| Commit.FinishTruncates | src/cmd/commit.go:413-417 | a longer summary with more than 200 lines is cut to its first 200 lines followed by the truncation notice on a line of its own |
| Commit.StagedDiff | src/cmd/commit.go:300-420 | the summary loop over the status entries, in the order walked, followed by the finishing rules |
| Files.CleanElemsShape | src/internal/files/reader.go:240 | path cleaning leaves only plain names, with `..` elements only in front and none under the root |
| Files.CleanElemsOfClean | src/internal/files/reader.go:240 | elements already in the clean shape come out of cleaning unchanged |
| Files.CleanElemsLeadingEmpty | src/internal/files/reader.go:240 | the empty element before a root slash does not change what cleaning keeps |
| Files.CleanIdempotent | src/internal/files/reader.go:240 | cleaning a cleaned path gives the same path again |
| Files.CleanName | src/internal/files/reader.go:241 | a plain file name other than `.` and `..` is its own cleaned form |
| Files.ExtShape | src/internal/files/reader.go:262 | the extension is empty, or a suffix of the path that starts at its only dot and holds no slash |
| Files.TrimSlashes | src/internal/files/reader.go:271 | the path without its trailing slashes is a prefix of it that does not end in a slash |
| Files.AfterLastSlash | src/internal/files/reader.go:271 | the part after the last slash is a suffix of the path with no slash in it |
| Files.Base | src/internal/files/reader.go:271 | the base name is never empty: `.` for the empty path, otherwise `/` or a name without a slash |
| Files.PathAccepted | src/internal/files/reader.go:235-282 | a path passes exactly when it has text, its cleaned form holds no `..`, an absolute one passes the directory check, its lower-case extension is not dangerous, it is not a hidden name other than `.env` and `.gitignore`, and its cleaned form is at most 260 long |
| Files.ClimbingShows | src/internal/files/reader.go:241-246 | a relative path whose cleaning keeps a `..` element shows `..` in its cleaned form, so the traversal check sees it |
| Files.AcceptedNeverClimbs | src/internal/files/reader.go:241-246 | the cleaned form of an accepted path never steps to a parent directory |
| Files.DangerousRejected | src/internal/files/reader.go:261-268 | a clean relative path without `..` whose extension in lower case is in the list is refused with that extension in the message |
| Files.ScriptRejectedInAnyCase | src/internal/files/reader.go:262-268 | the extension check ignores letter case: `x.JS` is refused as `.js` |
| Files.ScriptRejected | src/internal/files/reader.go:262-268 | the path `x.JS` is refused as a dangerous `.js` file |
| Files.IsDangerous | src/internal/files/reader.go:263-268 | the loop over the list finds the extension exactly when it is one of the eight dangerous ones |
| Files.ValidatePath | src/internal/files/reader.go:235-282 | the method gives the verdict of the checks above, in their order: empty, traversal, directory, extension, hidden, length |
| Files.ValidateFiles | src/internal/files/reader.go:216-232 | no paths and more than ten paths are refused with their messages; otherwise the verdict is that of the first failing path, or success |
| Files.FirstFailureMeaning | src/internal/files/reader.go:225-231 | the list passes exactly when every path does; otherwise its error is that of a failing path all of whose predecessors pass |
| Files.FirstFailureStep | src/internal/files/reader.go:225-229 | a failing first path decides the verdict; a passing one leaves it to the rest |
| Files.IsBinary | src/internal/files/reader.go:111-125 | the loop reports a binary file exactly when a zero byte occurs among its first 512 bytes |
| Files.MarkerSeen | src/internal/files/reader.go:148 | the marker test of the formatter sees every binary file, and also any text file that itself begins with `[Binary file:` |
| Files.ReadFile | src/internal/files/reader.go:88-108 | a read error is passed on; otherwise the content is at most the size limit of the file's bytes, or the binary marker with the path and the byte count |
| Files.LoadedFailureSticks | src/internal/files/reader.go:42-82 | once the files up to some point fail, reading the whole list fails with the same error |
| Files.LoadedWithinLimits | src/internal/files/reader.go:42-84 | files that were read come one per path, under its cleaned name, none above the per-file limit and all together within the total limit |
| Files.ReadNextWithin | src/internal/files/reader.go:58-82 | one pass of the loop that reads a file adds exactly one entry, for the cleaned path, within the per-file limit, with the running total within the overall limit |
| Files.ReadFiles | src/internal/files/reader.go:38-85 | the loop stats, checks and reads each cleaned path in turn and stops at the first error: missing file, directory, file too large, total too large or read failure |
| Files.ReadOne | src/internal/files/reader.go:43-81 | one pass of the loop fails with the error of the first check that fails, in the order stat, directory, file size, total size, read; otherwise it appends the one file read, and the running total grows by exactly its size |
| Files.ExtScanLower | src/internal/files/reader.go:145 | the extension of the lower-cased path is the lower-cased extension |
| Files.ToLowerIdempotent | src/internal/files/reader.go:145 | lower-casing twice is lower-casing once |
| Files.LanguageOfPath | src/internal/files/reader.go:145-213 | a file's language is the table's tag for its lower-case extension, and `text` when the table has none |
| Files.LanguageIgnoresCase | src/internal/files/reader.go:145 | the language tag does not depend on the letter case of the path |
| Files.FormatFilesForAI | src/internal/files/reader.go:128-159 | the loop builds the header, each file's section with a separator between two, and the footer; the text is empty exactly when there are no files |
| Files.SectionsContain | src/internal/files/reader.go:136-156 | each file's section appears in full in the joined sections |
| Files.FormattedShowsFiles | src/internal/files/reader.go:128-159 | every file read appears in the text sent to the model |
| Files.SectionShowsContent | src/internal/files/reader.go:145-156 | a text file appears in a block fenced with its language tag, a binary one as its marker |
| Errors.BearerTokenKept | src/pkg/errors/errors.go:180 | as written, the bearer step keeps the token: `Bearer ` followed by a token becomes `Bearer [REDACTED]` followed by the same token |
| Errors.ReplaceAllAbsent | src/pkg/errors/errors.go:180 | replacing a pattern that does not occur leaves the message as it is |
| Errors.SkipToken | src/pkg/errors/errors.go:180 | skipping the token never makes the text longer |
| Errors.SkipTokenDrops | src/pkg/errors/errors.go:180 | skipping a token of non-space characters leaves exactly what follows it |
| Errors.BearerTokenRedacted | src/pkg/errors/errors.go:179-180 | the intended bearer step removes `Bearer ` and its token and keeps only the text after the token |
| Errors.RedactBearerAbsent | src/pkg/errors/errors.go:179-180 | a message without `Bearer ` passes the bearer step unchanged |
| Errors.RedactLines | src/pkg/errors/errors.go:185-189 | the header step keeps the number of lines |
| Errors.SanitizeForLog | src/pkg/errors/errors.go:176-194 | the logged message is the bearer step as written (every `Bearer ` becomes `Bearer [REDACTED]`, the token kept) followed by the header step, the second taken only when `Authorization:` occurs with that capitalisation |
| Errors.SanitizedKeepsToken | src/pkg/errors/errors.go:176-194 | a bearer token in a message without a header line reaches the log: `Bearer ` and the token are logged as `Bearer [REDACTED]` and the same token |
| Errors.RedactInPlace | src/pkg/errors/errors.go:184-190 | the loop that overwrites each line mentioning the header where it stands gives the joined redacted lines |
| Errors.RedactedLinesFree | src/pkg/errors/errors.go:184-190 | redacted lines hold no line break, so they are the lines of the joined result |
| Errors.HeaderLinesRedacted | src/pkg/errors/errors.go:183-191 | after the header step the message has as many lines as before; each line mentioning `authorization:` in any letter case is the notice, and every other line is unchanged |
| Errors.NoHeaderLineSurvives | src/pkg/errors/errors.go:183-191 | once the header step is taken, no line of the result mentions the header other than the notice |
| Errors.DiffArgAccepted | src/pkg/errors/errors.go:229-237 | one diff argument passes exactly when it is not a flag or is `--staged` or `--cached`, and it holds none of `;`, `|`, `&` |
| Errors.DiffAccepted | src/pkg/errors/errors.go:223-239 | the diff arguments pass exactly when each one is safe; otherwise the error is that of an unsafe argument all of whose predecessors are safe |
| Errors.ValidateDiffArgs | src/pkg/errors/errors.go:223-239 | the loop returns the error of the first argument that fails, or success |
| Errors.HasBadChar | src/pkg/errors/errors.go:250-261 | the loop over a name finds a bad character exactly when some character is not permitted |
| Errors.ValidatePushArgs | src/pkg/errors/errors.go:241-264 | the method refuses a count other than two, then a bad remote, then a bad branch, each with its own error |
| Errors.PushAccepted | src/pkg/errors/errors.go:241-264 | push passes exactly for two arguments: a remote of letters, digits, `-` and `_`, and a branch that may also hold `/` and `.` |
| Errors.EmptyRemotePasses | src/pkg/errors/errors.go:250-261 | an empty remote is accepted, and then only the branch is checked |
| Errors.PushRejectsShellCharacters | src/pkg/errors/errors.go:257-261 | a branch with a space, `;`, `|`, `&`, `$`, a backquote or a quote never passes |
| Errors.ConfigAccepted | src/pkg/errors/errors.go:266-282 | config passes exactly for the single argument `user.name` or `user.email` |
| Errors.ValidateConfigArgs | src/pkg/errors/errors.go:266-282 | the method refuses a count other than one, then a key outside the two allowed |
| Errors.ValidateGitCommand | src/pkg/errors/errors.go:197-221 | the method refuses a command outside the whitelist, else applies that command's argument check |
| Errors.CommandWhitelist | src/pkg/errors/errors.go:199-208 | only `diff`, `status`, `push` and `config` can pass, and any other command is refused as not allowed whatever its arguments |
| Errors.StatusTakesAnyArgs | src/pkg/errors/errors.go:211-220 | `status` is accepted with any arguments |
| Errors.CommandAccepted | src/pkg/errors/errors.go:197-221 | a whitelisted command passes exactly when its own argument check does |
| Text.TrimLeft | src/cmd/commit.go:243 | the left trim drops exactly a leading run of white space and leaves a text that does not start with white space |
| Text.TrimRight | src/cmd/commit.go:243 | the right trim drops exactly a trailing run of white space and leaves a text that does not end with white space |
| Text.TrimSpace | src/cmd/commit.go:243 | the trimmed text is no longer than the input, starts and ends with a non-space, and is empty exactly when the input is all white space |
| Text.TrimSpaceIdempotent | src/cmd/commit.go:243 | trimming twice is trimming once |
| Text.IndexOfCharFrom | src/internal/renderer/markdown.go:36 | the byte search finds the first occurrence at or after the start, or reports that there is none |
| Text.LastIndex | src/internal/renderer/markdown.go:29 | the last-index search gives an occurrence with none after it, or reports that there is none at all |
| Text.ReplaceAllLength | src/internal/ai/client.go:405 | replacing each non-overlapping occurrence by a shorter text shortens the text by the difference per occurrence |
| Text.Split | src/cmd/commit.go:237 | a split always yields at least one piece |
| Text.SplitPiecesFree | src/cmd/commit.go:237 | no piece of a split holds the separator |
| Text.JoinSplit | src/pkg/errors/errors.go:184-190 | joining the pieces of a split with the separator gives back the text |
| Text.SplitJoin | src/internal/renderer/markdown.go:267-288 | splitting joined pieces that hold no separator gives back the pieces |
| Text.ToLower | src/internal/files/reader.go:145 | lower-casing keeps the length and lower-cases each character on its own |
| Text.Repeat | src/cmd/ai.go:76 | repeating a text `n` times gives `n` times its length |
| Text.RepeatContents | src/cmd/ai.go:76 | a repeated text holds the text over and over: it starts with the text, and each later character repeats the one a text's length before it |
| Text.DecimalRoundTrip | src/internal/files/reader.go:104 | the decimal spelling of a number reads back as that number |
| Text.NatToStringDigits | src/internal/files/reader.go:104 | the decimal spelling of a number is all digits |
| Text.TrimSpaceLower | src/cmd/commit.go:114 | lower-casing and trimming commute |
| TokenMask.MaskToken | src/cmd/ai.go:71-77 | a trimmed token of at most 8 characters is shown as eight stars |
| TokenMask.MaskLong | src/cmd/ai.go:72-76 | a longer token keeps its length and its first and last four characters, and every character in between is a star |
| TokenMask.MaskIgnoresPadding | src/cmd/ai.go:72 | white space around the token never changes the mask |
| RegexCache.Regexp.constructor | src/internal/renderer/cache.go:38 | a compiled expression remembers the pattern it came from |
| RegexCache.Cache.constructor | src/internal/renderer/cache.go:15-19 | a new cache is empty |
| RegexCache.Cache.Get | src/internal/renderer/cache.go:22-41 | a cached pattern gives the stored expression and leaves the table alone; an uncached one is compiled, stored under its pattern and returned, every other entry kept |
| RegexCache.Cache.GetAgain | src/internal/renderer/cache.go:22-41 | two lookups of one pattern give the same object, the one stored under the pattern |
| RegexCache.Cache.Clear | src/internal/renderer/cache.go:44-48 | the table becomes empty |
| Registry.Factory.constructor | src/pkg/ai/factory.go:18-22 | a new registry is empty |
| Registry.Factory.CreateClient | src/pkg/ai/factory.go:25-35 | an unregistered name fails with the not-registered error and reaches no provider; a registered name hands the same token to its provider and returns what it returns |
| Registry.Factory.RegisterProvider | src/pkg/ai/factory.go:38-42 | the name maps to the new provider, replacing an earlier one, and no other name changes |
| Registry.Factory.ListProviders | src/pkg/ai/factory.go:45-54 | the loop lists every registered name exactly once and nothing else, and the registry is not changed |
| Session.Outgoing | src/internal/ai/service.go:41-45 | a request is the question alone once the session is open, and the system prompt followed by the question before that |
| Session.Sent | src/internal/ai/service.go:46-58 | the message lists sent are at most the calls made |
| Session.SendCall | src/internal/ai/service.go:46-58 | a request is recorded as a plain or a streaming send, with its chat and its messages |
| Session.SentSnoc | src/internal/ai/service.go:46-58 | one more call adds its message list exactly when it is a request |
| Session.Service.constructor | src/internal/ai/service.go:14-23 | a new session has no chat, is not open, and has made no call |
| Session.Service.EnsureChat | src/internal/ai/service.go:25-35 | with a chat id nothing happens; without one a chat is created once, and its id is kept on success, while a failure is reported and leaves the id empty |
| Session.Service.Ask | src/internal/ai/service.go:37-47 | a failed chat setup returns its error, records only the create call, leaves the id empty and does not open the session; otherwise the id is the created one (or the one kept), the calls made are the create call when there was no chat, then exactly one plain send to that chat of the question, after the system prompt only on the first request, and the session is open even when the send fails |
| Session.Service.AskStream | src/internal/ai/service.go:49-59 | the same as Ask, through the streaming send: the same error path, chat id and calls made, with one streaming send |
| Session.Service.Request | src/internal/ai/service.go:37-59 | the steps Ask and AskStream share: the error path records only the create call and keeps the id empty; on success the id is the created or kept one and the calls grow by the create call when there was no chat and one send; the invariant holds: the session is open exactly when a request was sent, and only the first request carried the prompt |
| Session.Service.OpenCalls | src/internal/ai/service.go:42-46 | recording a request built for the current state keeps the prompt-once invariant |

## Left out

- HTTP, payload construction and the network side of the chat clients (`SendMessage*`, `createNewChat`): these are I/O. Their outcomes are parameters of `Session.Service` methods.
- JSON decoding (`json.Unmarshal`): a parameter mapping a payload to an optional record, because decoding is foreign code.
- `sync.Pool` buffers and the `bufio.Scanner` line cap in `processor.go`: performance plumbing. An overlong line appears only as a read failure at the end of the line sequence.
- Readers as byte streams: a reader is its finite sequence of lines or chunks plus whether it then failed, since Dafny has no I/O.
- chroma highlighting, `cleanPythonAnsiCodes`, go-pretty table drawing and fatih/color escapes: foreign libraries, kept as the function fields of `Markdown.RenderEnv`.
- The bold, italic and inline-code substitutions of the Markdown renderer: regex-driven, so they are one function field of the environment. Only where they sit in the pipeline is modelled.
- Terminal width and zsh detection (`getTerminalWidth`, `isZsh`, environment variables): these are environment probing, so they are parameters.
- The mutexes in `cache.go` and `factory.go`: only the sequential meaning of each call is modelled. Concurrent interleavings are not.
- `regexp.MustCompile`: compiling is foreign code, and a fresh `RegexCache.Regexp` stands for its result. The panic on a bad pattern is not modelled.
- Go's map iteration order: `Registry.Factory.ListProviders` may list the names in any order. The staged files reach the diff summary as a sequence in a given order.
- The git side of `commit.go` (go-git status, blob and HEAD reads, `exec.Command`, `pushToRemote`, `getGitConfig`): each staged file arrives as a `Commit.FileEntry` holding its status and its two contents.
- The stdin prompts of `commit.go`, `ask.go` and `ai.go`: only the decision taken on the answer text is modelled.
- The spinner, token storage (keyring and file) and the cobra wiring: concurrency and OS I/O with no logic of their own here.
- The absolute-path branch of `validateSinglePath` (`os.Getwd` and `filepath.Rel`): OS I/O, so it is the parameter `outside` of `Files.PathVerdict`.
- Files.Clean: models `filepath.Clean` for Unix paths only. There are no volume names and no backslashes.
- Files.ReadFiles: errors are reported by cause with their path and size. The message text with its `%.2f` MB figures is not modelled, because it is floating point.
- Files.FileSection: the `%.2f` KB size is a parameter `kb` for the same reason.
- Files.ReadFiles: `os.Stat` and `os.Open`/`io.ReadAll` are the parameters `stat` and `read` of the model.
- Text.ToLower: ASCII letters only. Go's `strings.ToLower` also folds non-ASCII letters.
- One `char` stands for one byte throughout. Lengths, the 512-byte sniff, the 260-byte path limit and the 8000-byte diff cap are therefore exact for ASCII text only.
- `Error()` strings with timestamps and the other error constructors of `errors.go`: these involve a clock. A validation error is a `Errors.ValidationError` record.
- Errors.SanitizeForLog: takes the text of `err.Error()` as its message parameter. Calling the error's method is foreign code.
- Session.Service.AskStream: the delta callback handed to the streaming send is not modelled, because it belongs to the client.
- The `time.Now` calls of `streamingPrinter`: time is an integer number of milliseconds passed in by the caller.
- Printer.RepaintShowsFrame, Printer.RepaintAsWritten and Printer.StreamingPrinter: the screen has unbounded width and never scrolls. On a real terminal a line wider than the terminal takes several rows, and a frame taller than the screen scrolls off the top; the newline-count cursor-up then leaves rows behind. No "shows the frame" result covers those cases.
- Text.IsSpace: the non-ASCII white-space characters (U+0085, U+00A0, U+1680, U+2000 and up) are recognised as single characters, as Go does per rune. Under the one-char-per-byte convention the model does not decode UTF-8, so a trimmed text ending in the byte 0xA0 of a multi-byte character would be trimmed where Go keeps it.

## Findings

| source | as written | input that shows it | evidently intended | confidence | as-written member | corrected member |
|---|---|---|---|---|---|---|
| src/cmd/ask.go:105-110 | the previous frame is erased only when it holds a newline, so a one-line frame stays on screen and the next frame is printed after it | the frame `a`, then a repaint with `ab`, leaves `aab` on the line | every repaint erases the previous frame, whatever its line count, and the screen shows exactly the new frame | high (derived by proof, not executed) | Printer.EraseAsWritten, Printer.RepaintAsWrittenAfter, Printer.AsWrittenKeepsOneLineFrame | Printer.EraseCorrected, Printer.RepaintShowsFrame |
| src/pkg/errors/errors.go:180 | `Bearer ` is replaced by `Bearer [REDACTED]` and the token after it is kept | `Bearer abc123` becomes `Bearer [REDACTED]abc123` | the token after `Bearer ` is removed together with it | high (derived by proof, not executed) | Errors.BearerAsWritten, Errors.BearerTokenKept, Errors.SanitizedKeepsToken | Errors.RedactBearer, Errors.BearerTokenRedacted |
