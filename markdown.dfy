/** The terminal Markdown renderer (src/internal/renderer/markdown.go).

    RenderMarkdown runs three passes in order: closed code blocks are boxed,
    then a trailing code block that is still open, then the inline elements
    and the header lines. Syntax highlighting (chroma), table drawing
    (go-pretty), colouring (fatih/color) and the regex-driven inline emphasis
    are foreign code: they are the function fields of a RenderEnv, with the
    terminal width and the zsh flag beside them. */
module Markdown {
  import opened Common
  import opened Text
  import opened Stream

  /** The column limits handed to the table writer. */
  datatype ColumnLimits = ColumnLimits(widthMin: int, widthMax: int)

  /** The width settings of a code box: a row-length cap and column limits,
      each set or not. */
  datatype Layout = Layout(rowLength: Option<int>, columns: Option<ColumnLimits>)

  /** What formatCodeBlock hands to the table writer. */
  datatype Table = Table(header: Option<string>, rows: seq<string>, layout: Layout)

  datatype HeaderColor = Red | Yellow | Green | Cyan

  /** The renderer's surroundings: the terminal width and shell, and the foreign
      functions it calls. */
  datatype RenderEnv = RenderEnv(
    termWidth: int,
    zsh: bool,
    highlight: (string, string) -> string,
    cleanPython: string -> string,
    drawTable: Table -> string,
    emphasis: string -> string,
    paint: (HeaderColor, string) -> string)

  /** The end of the run of characters satisfying `p` that starts at `i`. */
  function SpanFrom(s: string, i: nat, p: char -> bool): (k: nat)
    requires i <= |s|
    ensures i <= k <= |s|
    ensures forall j :: i <= j < k ==> p(s[j])
    ensures k < |s| ==> !p(s[k])
    decreases |s| - i
  {
    if i < |s| && p(s[i]) then SpanFrom(s, i + 1, p) else i
  }

  // ---------------------------------------------------------------------
  // Closed code blocks: the regex ```([a-zA-Z0-9_+-]*)\n([\s\S]*?)\n?```

  /** The character class of the language tag. */
  predicate TagChar(c: char) {
    ('a' <= c <= 'z') || ('A' <= c <= 'Z') || ('0' <= c <= '9') || c == '_' || c == '+' || c == '-'
  }

  /** Where the lazy body may stop: before a fence, or before a newline and a fence. */
  predicate IsCloser(s: string, p: nat) {
    IsAt(s, Fence, p) || IsAt(s, ClosingFence, p)
  }

  /** The first position at or after `b` where the body may stop. */
  function FirstCloser(s: string, b: nat): (r: Option<nat>)
    requires b <= |s|
    ensures r.None? ==> forall q: nat :: b <= q ==> !IsCloser(s, q)
    ensures r.Some? ==> b <= r.value < |s| && IsCloser(s, r.value)
    ensures r.Some? ==> forall q: nat :: b <= q < r.value ==> !IsCloser(s, q)
    decreases |s| - b
  {
    if b == |s| then None
    else if IsCloser(s, b) then Some(b)
    else FirstCloser(s, b + 1)
  }

  /** One match of the code-block regex: the tag, the body, and the index just
      past the closing fence. */
  datatype Block = Block(tag: string, body: string, end: nat)

  /** The match of the code-block regex that starts at `i`, if any. The tag
      class excludes the newline, so the greedy tag is the whole run of tag
      characters; the lazy body ends at the first closer. */
  function BlockAt(s: string, i: nat): (r: Option<Block>)
    requires i <= |s|
    ensures r.Some? ==> IsAt(s, Fence, i) && i + 3 < r.value.end <= |s|
  {
    if !IsAt(s, Fence, i) then None else BlockAfterTag(s, i, SpanFrom(s, i + 3, TagChar))
  }

  /** The match once the tag run, ending at `t`, is known: a newline must follow. */
  function BlockAfterTag(s: string, i: nat, t: nat): (r: Option<Block>)
    requires i + 3 <= t <= |s|
    ensures r.Some? ==> t < r.value.end <= |s|
  {
    if t == |s| || s[t] != '\n' then None else BlockBody(s, i, t, FirstCloser(s, t + 1))
  }

  /** The match once the first closer after the tag line has been looked for. */
  function BlockBody(s: string, i: nat, t: nat, closer: Option<nat>): (r: Option<Block>)
    requires i + 3 <= t < |s|
    requires closer.Some? ==> t + 1 <= closer.value && IsCloser(s, closer.value)
    ensures r.Some? ==> t < r.value.end <= |s|
  {
    match closer
      case None => None
      case Some(p) => Some(Block(s[i + 3..t], s[t + 1..p], CloserEnd(s, p)))
  }

  /** The index just past a closer: the optional newline is taken when present. */
  function CloserEnd(s: string, p: nat): (e: nat)
    requires IsCloser(s, p)
    ensures (e == p + 4 && IsAt(s, ClosingFence, p)) || (e == p + 3 && IsAt(s, Fence, p))
  {
    if IsAt(s, ClosingFence, p) then p + 4 else p + 3
  }

  /** The part of a text between `b` and `p` keeps the absence of closers. */
  lemma NoCloserInSlice(s: string, b: nat, p: nat)
    requires b <= p <= |s|
    requires forall q: nat :: b <= q < p ==> !IsCloser(s, q)
    ensures forall q: nat :: q < p - b ==> !IsCloser(s[b..p], q)
  {
    forall q: nat | q < p - b ensures !IsCloser(s[b..p], q) {
      assert !IsCloser(s, b + q);
      IsAtSlice(s, Fence, b, p, q);
      IsAtSlice(s, ClosingFence, b, p, q);
    }
  }

  /** The text of a match, cut at the tag, the newline, the body and the closer. */
  lemma MatchText(s: string, i: nat, t: nat, p: nat, e: nat)
    requires i + 3 <= t && t + 1 <= p && p + 3 <= e <= |s| && IsAt(s, Fence, i) && s[t] == '\n'
    requires (e == p + 4 && IsAt(s, ClosingFence, p)) || (e == p + 3 && IsAt(s, Fence, p))
    ensures s[i..e] == Fence + s[i + 3..t] + "\n" + s[t + 1..p] + (if e == p + 4 then ClosingFence else Fence)
  {
    assert s[t..t + 1] == "\n";
    Slices5(s, i, i + 3, t, t + 1, p, e);
  }

  /** What a match is made of: a fence, a tag of tag characters, a newline,
      a body in which no closer starts, an optional newline and a fence. */
  lemma BlockShape(s: string, i: nat, b: Block)
    requires i <= |s| && BlockAt(s, i) == Some(b)
    ensures forall k :: 0 <= k < |b.tag| ==> TagChar(b.tag[k])
    ensures s[i..b.end] == Fence + b.tag + "\n" + b.body + ClosingFence
            || s[i..b.end] == Fence + b.tag + "\n" + b.body + Fence
    ensures forall q: nat :: q < |b.body| ==> !IsCloser(b.body, q)
  {
    var t := SpanFrom(s, i + 3, TagChar);
    assert BlockAfterTag(s, i, t) == Some(b);
    var p := FirstCloser(s, t + 1).value;
    assert BlockBody(s, i, t, Some(p)) == Some(b);
    BlockBodyParts(s, i, t, p, b);
    TagCharsOf(s, i + 3, t);
    BlockBodyFree(s, t, p, b.body);
    MatchText(s, i, t, p, b.end);
  }

  lemma BlockBodyFree(s: string, t: nat, p: nat, body: string)
    requires t + 1 <= p <= |s| && body == s[t + 1..p]
    requires forall q: nat :: t + 1 <= q < p ==> !IsCloser(s, q)
    ensures forall q: nat :: q < |body| ==> !IsCloser(body, q)
  {
    NoCloserInSlice(s, t + 1, p);
  }

  lemma BlockBodyParts(s: string, i: nat, t: nat, p: nat, b: Block)
    requires i + 3 <= t < |s| && t + 1 <= p && IsCloser(s, p)
    requires BlockBody(s, i, t, Some(p)) == Some(b)
    ensures b == Block(s[i + 3..t], s[t + 1..p], CloserEnd(s, p))
  {
  }

  lemma TagCharsOf(s: string, lo: nat, hi: nat)
    requires lo <= hi <= |s|
    requires forall k :: lo <= k < hi ==> TagChar(s[k])
    ensures forall k :: 0 <= k < hi - lo ==> TagChar(s[lo..hi][k])
  {
  }

  /** ReplaceAllStringFunc with the code-block regex, from index `i`: each
      leftmost match is replaced by its box and scanning resumes after it. */
  function ReplaceBlocks(s: string, i: nat, box: (string, string) -> string): string
    requires i <= |s|
    decreases |s| - i
  {
    if i == |s| then ""
    else match BlockAt(s, i)
      case Some(b) => box(b.body, TrimSpace(b.tag)) + ReplaceBlocks(s, b.end, box)
      case None => [s[i]] + ReplaceBlocks(s, i + 1, box)
  }

  /** processCodeBlocks: each match becomes the box of its body, labelled with its tag. */
  function ProcessCodeBlocks(content: string, env: RenderEnv): string {
    ReplaceBlocks(content, 0, (code, lang) => FormattedBlock(code, lang, env))
  }

  /** A text with no fence from `i` on is copied as it is. */
  lemma {:induction false} ReplaceBlocksNoFence(s: string, i: nat, box: (string, string) -> string)
    requires i <= |s|
    requires forall q: nat :: i <= q ==> !IsAt(s, Fence, q)
    ensures ReplaceBlocks(s, i, box) == s[i..]
    decreases |s| - i
  {
    if i < |s| {
      ReplaceBlocksSkip(s, i, box);
      ReplaceBlocksNoFence(s, i + 1, box);
      SuffixCons(s, i);
    }
  }

  /** Text before the first fence survives processCodeBlocks verbatim. */
  lemma {:induction false} ReplaceBlocksPrefix(s: string, i: nat, f: nat, box: (string, string) -> string)
    requires i <= f <= |s|
    requires forall q: nat :: i <= q < f ==> !IsAt(s, Fence, q)
    ensures ReplaceBlocks(s, i, box) == s[i..f] + ReplaceBlocks(s, f, box)
    decreases f - i
  {
    if i < f {
      ReplaceBlocksSkip(s, i, box);
      ReplaceBlocksPrefix(s, i + 1, f, box);
      SliceCons(s, i, f);
      AppendAssoc([s[i]], s[i + 1..f], ReplaceBlocks(s, f, box));
    }
  }

  /** A position where no fence starts is copied. */
  lemma ReplaceBlocksSkip(s: string, i: nat, box: (string, string) -> string)
    requires i < |s| && !IsAt(s, Fence, i)
    ensures ReplaceBlocks(s, i, box) == [s[i]] + ReplaceBlocks(s, i + 1, box)
  {
    assert BlockAt(s, i) == None;
  }

  // ---------------------------------------------------------------------
  // The open trailing block

  /** processOpenCodeBlock, with `box` standing for formatCodeBlock: with an
      odd number of fences and a newline after the last one, everything from
      that fence on becomes the box of the code after the tag line. */
  function OpenBlock(content: string, box: (string, string) -> string): string {
    if Count(content, Fence) % 2 == 0 then content
    else OpenAfter(content, box, LastIndex(content, Fence))
  }

  /** The open block from the last fence, once it has been looked for. */
  function OpenAfter(content: string, box: (string, string) -> string, last: Option<nat>): string
    requires last.Some? ==> last.value + 3 <= |content|
  {
    match last
      case None => content
      case Some(idx) => OpenTag(content, box, idx, IndexOfCharFrom(content, '\n', idx + 3))
  }

  /** The open block once the newline ending its tag line has been looked for:
      rest[newline+1:] is the code and rest[:newline] the tag, with rest the
      text after the fence. */
  function OpenTag(content: string, box: (string, string) -> string, idx: nat, newline: Option<nat>): string
    requires idx + 3 <= |content|
    requires newline.Some? ==> idx + 3 <= newline.value < |content|
  {
    match newline
      case None => content
      case Some(nl) => content[..idx] + box(content[nl + 1..], TrimSpace(content[idx + 3..nl]))
  }

  function ProcessOpenCodeBlock(content: string, env: RenderEnv): string {
    OpenBlock(content, (code, lang) => FormattedBlock(code, lang, env))
  }

  /** An even number of fences leaves the text as it is. */
  lemma EvenFencesUnchanged(content: string, box: (string, string) -> string)
    requires Count(content, Fence) % 2 == 0
    ensures OpenBlock(content, box) == content
  {
  }

  /** An odd fence count means there is a last fence for processOpenCodeBlock
      to find, so its `idx == -1` branch is never taken. */
  lemma OddCountHasLastFence(content: string)
    requires Count(content, Fence) % 2 == 1
    ensures LastIndex(content, Fence).Some?
  {
    if !Contains(content, Fence) {
      CountAbsent(content, Fence);
    }
  }

  /** The fence no other fence follows is the one LastIndex finds. */
  lemma LastFenceFound(content: string, idx: nat)
    requires IsAt(content, Fence, idx) && forall j: nat :: idx < j ==> !IsAt(content, Fence, j)
    ensures LastIndex(content, Fence) == Some(idx)
  {
  }

  /** Without a newline after the last fence the tag is incomplete and the text
      is left as it is. */
  lemma OpenTagIncomplete(content: string, box: (string, string) -> string, idx: nat)
    requires IsAt(content, Fence, idx) && forall j: nat :: idx < j ==> !IsAt(content, Fence, j)
    requires forall j :: idx + 3 <= j < |content| ==> content[j] != '\n'
    ensures OpenBlock(content, box) == content
  {
    LastFenceFound(content, idx);
    assert IndexOfCharFrom(content, '\n', idx + 3) == None;
  }

  /** With an odd count and a newline after the last fence, the text before
      that fence is kept and the rest becomes the box of the code after the
      tag line, labelled with the trimmed tag. */
  lemma OpenBlockRendered(content: string, box: (string, string) -> string, idx: nat, nl: nat)
    requires Count(content, Fence) % 2 == 1
    requires IsAt(content, Fence, idx) && forall j: nat :: idx < j ==> !IsAt(content, Fence, j)
    requires idx + 3 <= nl < |content| && content[nl] == '\n'
    requires forall j :: idx + 3 <= j < nl ==> content[j] != '\n'
    ensures OpenBlock(content, box) == content[..idx] + box(content[nl + 1..], TrimSpace(content[idx + 3..nl]))
  {
    LastFenceFound(content, idx);
    OpenBlockAtLast(content, box, idx);
    OpenAfterNewline(content, box, idx, nl);
    OpenTagBox(content, box, idx, nl);
  }

  lemma OpenBlockAtLast(content: string, box: (string, string) -> string, idx: nat)
    requires Count(content, Fence) % 2 == 1
    requires LastIndex(content, Fence) == Some(idx)
    ensures OpenBlock(content, box) == OpenAfter(content, box, Some(idx))
  {
  }

  lemma OpenAfterNewline(content: string, box: (string, string) -> string, idx: nat, nl: nat)
    requires idx + 3 <= nl < |content| && content[nl] == '\n'
    requires forall j :: idx + 3 <= j < nl ==> content[j] != '\n'
    ensures OpenAfter(content, box, Some(idx)) == OpenTag(content, box, idx, Some(nl))
  {
    IndexOfCharFromAt(content, '\n', idx + 3, nl);
  }

  lemma OpenTagBox(content: string, box: (string, string) -> string, idx: nat, nl: nat)
    requires idx + 3 <= nl < |content|
    ensures OpenTag(content, box, idx, Some(nl)) == content[..idx] + box(content[nl + 1..], TrimSpace(content[idx + 3..nl]))
  {
  }

  // ---------------------------------------------------------------------
  // formatCodeBlock

  /** Highlighting happens only for a non-empty language; Python output is
      cleaned of its complex escape sequences afterwards. */
  function Highlighted(code: string, lang: string, env: RenderEnv): string {
    if lang == "" then code
    else
      var h := env.highlight(code, lang);
      if ToLower(lang) == "python" || ToLower(lang) == "py" then env.cleanPython(h) else h
  }

  /** Tabs become four spaces. */
  function ExpandTabs(s: string): (r: string)
    ensures '\t' !in r
  {
    ReplaceAllDrops(s, "\t", "    ");
    ReplaceAll(s, "\t", "    ")
  }

  /** `strings.TrimSpace(line) == ""`. */
  predicate Blank(line: string) {
    AllSpace(line)
  }

  lemma BlankIsTrimEmpty(line: string)
    ensures Blank(line) <==> TrimSpace(line) == ""
  {
  }

  /** The lines left after the trailing blank ones are dropped. */
  function DropBlankTail(ls: seq<string>): (r: seq<string>)
    ensures |r| <= |ls| && r == ls[..|r|]
    ensures r != [] ==> !Blank(r[|r| - 1])
    ensures forall k :: |r| <= k < |ls| ==> Blank(ls[k])
    decreases |ls|
  {
    if ls != [] && Blank(ls[|ls| - 1]) then
      var r := DropBlankTail(ls[..|ls| - 1]);
      assert forall k :: |r| <= k < |ls| - 1 ==> ls[..|ls| - 1][k] == ls[k];
      r
    else ls
  }

  /** The rows of a code box. */
  function CodeLines(code: string, lang: string, env: RenderEnv): seq<string> {
    Split(ExpandTabs(Highlighted(code, lang, env)), '\n')
  }

  /** The rows of the box: the lines of the expanded text, in order, up to the
      last one that is not blank; none holds a tab or a newline. */
  function CodeRows(code: string, lang: string, env: RenderEnv): (rows: seq<string>)
    ensures var ls := CodeLines(code, lang, env);
      |rows| <= |ls| && rows == ls[..|rows|] && (forall k :: |rows| <= k < |ls| ==> Blank(ls[k]))
    ensures rows != [] ==> !Blank(rows[|rows| - 1])
    ensures forall k :: 0 <= k < |rows| ==> '\t' !in rows[k] && '\n' !in rows[k]
  {
    var text := ExpandTabs(Highlighted(code, lang, env));
    SplitPiecesFree(text, '\n');
    SplitPiecesAvoid(text, '\n', '\t');
    DropBlankTail(Split(text, '\n'))
  }

  /** The width settings for a terminal of width `termWidth`. */
  function TableLayout(termWidth: int, zsh: bool): (l: Layout)
    ensures termWidth <= 0 ==> l == Layout(None, None)
    ensures l.rowLength.Some? ==> 30 < l.rowLength.value == termWidth - (if zsh then 16 else 10)
    ensures l.columns.Some? ==> l.columns.value.widthMin == 20 < l.columns.value.widthMax
                                && l.columns.value.widthMax == termWidth - (if zsh then 20 else 14)
    ensures l.rowLength.Some? ==> l.columns.Some? && l.columns.value.widthMax == l.rowLength.value - 4
    ensures termWidth > 0 && termWidth - (if zsh then 16 else 10) > 30 ==> l.rowLength.Some?
    ensures termWidth > 0 && termWidth - (if zsh then 16 else 10) - 4 > 20 ==> l.columns.Some?
  {
    if termWidth <= 0 then Layout(None, None)
    else
      var allowed := termWidth - 10 - (if zsh then 6 else 0);
      var maxWidth := allowed - 4;
      Layout(if allowed > 30 then Some(allowed) else None,
             if maxWidth > 20 then Some(ColumnLimits(20, maxWidth)) else None)
  }

  /** The box for the rows: a " lang " header only for a non-empty language. */
  function BoxTable(rows: seq<string>, lang: string, env: RenderEnv): (t: Table)
    ensures t.rows == rows && t.layout == TableLayout(env.termWidth, env.zsh)
    ensures t.header.Some? <==> lang != ""
    ensures t.header.Some? ==> t.header.value == " " + lang + " "
  {
    Table(if lang != "" then Some(" " + lang + " ") else None, rows, TableLayout(env.termWidth, env.zsh))
  }

  /** The text formatCodeBlock returns. */
  function FormattedBlock(code: string, lang: string, env: RenderEnv): string {
    var rows := CodeRows(code, lang, env);
    if rows == [] then "" else env.drawTable(BoxTable(rows, lang, env)) + "\n"
  }

  /** A box is empty exactly when every line of the block is blank, and a
      non-empty box ends with a newline. */
  lemma FormattedBlockEmpty(code: string, lang: string, env: RenderEnv)
    ensures var r := FormattedBlock(code, lang, env);
      var ls := CodeLines(code, lang, env);
      (r == "" <==> forall k :: 0 <= k < |ls| ==> Blank(ls[k]))
      && (r != "" ==> r[|r| - 1] == '\n')
  {
    var ls := CodeLines(code, lang, env);
    var rows := CodeRows(code, lang, env);
    if rows != [] {
      assert !Blank(ls[|rows| - 1]);
    }
  }

  /** formatCodeBlock: pops the trailing blank lines, then appends one row per
      remaining line. */
  method FormatCodeBlock(code: string, lang: string, env: RenderEnv) returns (r: string)
    ensures r == FormattedBlock(code, lang, env)
  {
    var text := ExpandTabs(Highlighted(code, lang, env));
    var all := Split(text, '\n');
    r := FormatLines(all, lang, env);
  }

  /** The part of formatCodeBlock after the split. */
  method FormatLines(all: seq<string>, lang: string, env: RenderEnv) returns (r: string)
    ensures r == (if DropBlankTail(all) == [] then "" else env.drawTable(BoxTable(DropBlankTail(all), lang, env)) + "\n")
  {
    var lines := all;
    while |lines| > 0 && TrimSpace(lines[|lines| - 1]) == ""
      invariant lines == all[..|lines|]
      invariant DropBlankTail(lines) == DropBlankTail(all)
    {
      lines := lines[..|lines| - 1];
    }
    if |lines| == 0 {
      return "";
    }
    PrefixEnds(lines);
    var rows: seq<string> := [];
    for i := 0 to |lines|
      invariant rows == lines[..i]
    {
      PrefixSnoc(lines, i);
      rows := rows + [lines[i]];
    }
    r := env.drawTable(BoxTable(rows, lang, env)) + "\n";
  }

  // ---------------------------------------------------------------------
  // Headers: the regex ^(#{1,6})\s+(.+)$ on each line

  /** The `\s` class of Go regular expressions. */
  predicate RegexSpace(c: char) {
    c == '\t' || c == '\n' || c == '\U{C}' || c == '\r' || c == ' '
  }

  predicate IsHash(c: char) {
    c == '#'
  }

  datatype Header = Header(level: nat, text: string)

  /** `line` is `level` hashes, a non-empty run of `\s`, then `text`, which is
      non-empty and holds no newline (`.` does not match one). */
  predicate HeaderShape(line: string, level: nat, text: string) {
    1 <= level <= 6 && level < |line| - |text|
    && (forall i :: 0 <= i < level ==> line[i] == '#')
    && (forall i :: level <= i < |line| - |text| ==> RegexSpace(line[i]))
    && text != [] && '\n' !in text && line[|line| - |text|..] == text
  }

  /** The submatch of the header regex. The hashes are all the leading ones;
      the greedy `\s+` leaves `.+` the shortest text it can still match. */
  function HeaderMatch(line: string): (r: Option<Header>)
    ensures r.Some? ==> HeaderShape(line, r.value.level, r.value.text)
  {
    var h := SpanFrom(line, 0, IsHash);
    if h < 1 || h > 6 then None
    else
      var w := SpanFrom(line, h, RegexSpace);
      if w == h then None
      else if w < |line| then
        if '\n' in line[w..] then None else Some(Header(h, line[w..]))
      else if w - h >= 2 && line[|line| - 1] != '\n' then Some(Header(h, line[|line| - 1..]))
      else None
  }

  /** The match is the regex's: every reading of the line as a header has the
      same level and a text no shorter than the one chosen, and a line with no
      reading does not match. */
  lemma HeaderMatchComplete(line: string, level: nat, text: string)
    requires HeaderShape(line, level, text)
    ensures HeaderMatch(line).Some?
    ensures HeaderMatch(line).value.level == level && |HeaderMatch(line).value.text| <= |text|
  {
    var h := SpanFrom(line, 0, IsHash);
    assert !IsHash(line[level]);
    assert h == level;
    var w := SpanFrom(line, h, RegexSpace);
    var e := |line| - |text|;
    assert w >= e;
    if w < |line| {
      assert line[w..] == text[w - e..];
      assert '\n' !in line[w..] by {
        forall j | 0 <= j < |line[w..]| ensures line[w..][j] != '\n' { assert line[w..][j] == text[w - e + j]; }
      }
    } else {
      assert line[|line| - 1] == text[|text| - 1];
    }
  }

  function HeaderColorOf(level: nat): HeaderColor {
    match level
      case 1 => Red
      case 2 => Yellow
      case 3 => Green
      case _ => Cyan
  }

  /** One line after the header pass. */
  function HeaderLine(line: string, env: RenderEnv): string {
    match HeaderMatch(line)
      case Some(h) => env.paint(HeaderColorOf(h.level), h.text)
      case None => line
  }

  /** A line that does not start with `#` is left alone. */
  lemma PlainLineKept(line: string, env: RenderEnv)
    requires line == [] || line[0] != '#'
    ensures HeaderLine(line, env) == line
  {
  }

  /** The header pass over all lines; the number of lines is unchanged. */
  function HeaderLines(ls: seq<string>, env: RenderEnv): (r: seq<string>)
    ensures |r| == |ls|
    ensures forall i :: 0 <= i < |ls| ==> r[i] == HeaderLine(ls[i], env)
  {
    seq(|ls|, i requires 0 <= i < |ls| => HeaderLine(ls[i], env))
  }

  /** The loop of processMarkdownElements that overwrites header lines in place. */
  method HeaderPass(lines: array<string>, env: RenderEnv)
    modifies lines
    ensures lines[..] == HeaderLines(old(lines[..]), env)
  {
    for i := 0 to lines.Length
      invariant forall j :: 0 <= j < i ==> lines[j] == HeaderLine(old(lines[j]), env)
      invariant forall j :: i <= j < lines.Length ==> lines[j] == old(lines[j])
    {
      ghost var before := lines[..];
      var header := HeaderMatch(lines[i]);
      if header.Some? {
        lines[i] := env.paint(HeaderColorOf(header.value.level), header.value.text);
      }
      assert lines[i] == HeaderLine(before[i], env);
      assert forall j :: 0 <= j < lines.Length && j != i ==> lines[j] == before[j];
    }
  }

  /** processMarkdownElements: the inline emphasis, then the header pass over
      the lines, joined back with newlines. */
  method ProcessMarkdownElements(content: string, env: RenderEnv) returns (r: string)
    ensures r == Join(HeaderLines(Split(env.emphasis(content), '\n'), env), "\n")
  {
    var parts := Split(env.emphasis(content), '\n');
    var lines := new string[|parts|](i requires 0 <= i < |parts| => parts[i]);
    assert lines[..] == parts;
    HeaderPass(lines, env);
    r := Join(lines[..], "\n");
  }

  /** The output of RenderMarkdown: closed blocks, then the open block, then
      the inline elements and headers. */
  function Rendered(content: string, env: RenderEnv): string {
    Join(HeaderLines(Split(env.emphasis(ProcessOpenCodeBlock(ProcessCodeBlocks(content, env), env)), '\n'), env), "\n")
  }

  method RenderMarkdown(content: string, env: RenderEnv) returns (r: string)
    ensures r == Rendered(content, env)
  {
    var c := ProcessCodeBlocks(content, env);
    c := ProcessOpenCodeBlock(c, env);
    r := ProcessMarkdownElements(c, env);
  }

  /** A text with no fence, whose emphasised lines hold no header, comes out
      as the emphasis pass left it. */
  lemma RenderPlain(content: string, env: RenderEnv)
    requires forall q: nat :: !IsAt(content, Fence, q)
    requires forall k :: 0 <= k < |Split(env.emphasis(content), '\n')| ==> HeaderMatch(Split(env.emphasis(content), '\n')[k]).None?
    ensures Rendered(content, env) == env.emphasis(content)
  {
    ReplaceBlocksNoFence(content, 0, (code, lang) => FormattedBlock(code, lang, env));
    assert ProcessCodeBlocks(content, env) == content;
    assert !Contains(content, Fence);
    CountAbsent(content, Fence);
    EvenFencesUnchanged(content, (code, lang) => FormattedBlock(code, lang, env));
    var ls := Split(env.emphasis(content), '\n');
    assert HeaderLines(ls, env) == ls;
    JoinSplit(env.emphasis(content), '\n');
  }
}
