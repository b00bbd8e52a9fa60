/** The live event-stream decoder and response cleaner (src/pkg/stream/processor.go).

    The scanner hands the decoder one line at a time (bufio.Scanner has already
    removed the line terminator); a line counts only if it begins with exactly
    `data: `. The payload `[DONE]` or a record with `done` set ends the stream;
    a payload the JSON decoder rejects is skipped. Each non-empty
    `chat:completion` delta is passed to the callback and accumulated, and the
    accumulated text is cleaned once at the end. */
module Stream {
  import opened Common
  import opened Text

  const DataPrefix: string := "data: "
  const DoneSentinel: string := "[DONE]"
  const CompletionType: string := "chat:completion"
  const Fence: string := "```"
  /** The fence appended when the fence count is odd. */
  const ClosingFence: string := "\n```"
  /** limitNewlines keeps at most this many consecutive newlines. */
  const MaxNewlineRun: nat := 3

  /** The fields of a StreamChunk that the decoders read. A field missing from
      the JSON payload decodes to its zero value. */
  datatype Chunk = Chunk(kind: string, deltaContent: string, done: bool)

  /** json.Unmarshal into a freshly zeroed StreamChunk: a record, or None when
      the payload is not valid JSON. Because the record is reset before every
      call, the result depends on the payload alone. */
  type Parser = string -> Option<Chunk>

  /** What one input line means to a decoder. */
  datatype LineEvent = Ignored | Sentinel | Malformed | Record(chunk: Chunk)

  function Classify(line: string, parse: Parser): LineEvent {
    if !HasPrefix(line, DataPrefix) then Ignored
    else
      var payload := line[|DataPrefix|..];
      if payload == DoneSentinel then Sentinel
      else match parse(payload)
        case None => Malformed
        case Some(c) => Record(c)
  }

  /** The delta a record contributes: its content when it is a non-empty
      `chat:completion` delta, nothing otherwise. */
  function Emitted(c: Chunk): (r: seq<string>)
    ensures |r| <= 1
    ensures r == [c.deltaContent] <==> c.kind == CompletionType && c.deltaContent != ""
    ensures forall d :: d in r ==> d != ""
  {
    if c.kind == CompletionType && c.deltaContent != "" then [c.deltaContent] else []
  }

  /** The deltas a run of lines produces, and whether a terminator (the
      sentinel or a record with `done`) was reached. */
  datatype Scanned = Scanned(deltas: seq<string>, terminated: bool)

  function Scan(lines: seq<string>, parse: Parser): Scanned
    decreases |lines|
  {
    if lines == [] then Scanned([], false)
    else match Classify(lines[0], parse)
      case Sentinel => Scanned([], true)
      case Record(c) =>
        if c.done then Scanned(Emitted(c), true)
        else
          var rest := Scan(lines[1..], parse);
          Scanned(Emitted(c) + rest.deltas, rest.terminated)
      case _ => Scan(lines[1..], parse)
  }

  /** The text the deltas add up to. */
  function Concat(ds: seq<string>): string
    decreases |ds|
  {
    if ds == [] then "" else Concat(ds[..|ds| - 1]) + ds[|ds| - 1]
  }

  /** The lines a bufio.Scanner yields, and whether it then stopped with an
      error (for instance a line longer than the scanner's buffer cap). */
  datatype LineSource = LineSource(lines: seq<string>, failed: bool)

  datatype StreamError = ReadFailed

  /** The value ProcessStream returns. */
  function Decoded(src: LineSource, parse: Parser): Result<string, StreamError> {
    var sc := Scan(src.lines, parse);
    if !sc.terminated && src.failed then Failure(ReadFailed)
    else Success(Cleaned(Concat(sc.deltas)))
  }

  /** Processor.ProcessStream. `calls` are the arguments the callback receives,
      in order. */
  method ProcessStream(src: LineSource, parse: Parser) returns (result: Result<string, StreamError>, calls: seq<string>)
    ensures calls == Scan(src.lines, parse).deltas
    ensures result == Decoded(src, parse)
    ensures result.Success? ==> result.value == Cleaned(Concat(calls))
  {
    var response := "";
    calls := [];
    var i := 0;
    while i < |src.lines|
      invariant 0 <= i <= |src.lines|
      invariant response == Concat(calls)
      invariant Scan(src.lines, parse) == Scanned(calls + Scan(src.lines[i..], parse).deltas, Scan(src.lines[i..], parse).terminated)
    {
      var done;
      calls, response, done := ProcessLine(src.lines, i, parse, calls, response);
      if done {
        var cleaned := CleanResponse(response);
        return Success(cleaned), calls;
      }
      i := i + 1;
    }
    assert src.lines[i..] == [];
    if src.failed {
      return Failure(ReadFailed), calls;
    }
    var cleaned := CleanResponse(response);
    result := Success(cleaned);
  }

  /** One line of the scanning loop: the callback calls it adds, and whether
      the loop returns after it. */
  method ProcessLine(lines: seq<string>, i: nat, parse: Parser, calls: seq<string>, response: string)
    returns (calls2: seq<string>, response2: string, done: bool)
    requires i < |lines| && response == Concat(calls)
    ensures response2 == Concat(calls2)
    ensures done ==> Scan(lines[i..], parse).terminated && calls2 == calls + Scan(lines[i..], parse).deltas
    ensures !done ==> Scan(lines[i..], parse).terminated == Scan(lines[i + 1..], parse).terminated
                      && calls + Scan(lines[i..], parse).deltas == calls2 + Scan(lines[i + 1..], parse).deltas
  {
    calls2, response2, done := calls, response, false;
    var line := lines[i];
    ScanFrom(lines, i, parse);
    if |line| < 6 || line[..6] != DataPrefix {
      return;
    }
    var data := line[6..];
    if data == DoneSentinel {
      done := true;
      return;
    }
    var chunk := parse(data);
    if chunk.None? {
      return;
    }
    var c := chunk.value;
    if c.kind == CompletionType && c.deltaContent != "" {
      calls2 := calls + [c.deltaContent];
      response2 := response + c.deltaContent;
      assert calls2[..|calls2| - 1] == calls;
    }
    AppendAssoc(calls, Emitted(c), Scan(lines[i + 1..], parse).deltas);
    done := c.done;
  }

  /** Scan from line `i`, unfolded once. */
  lemma ScanFrom(lines: seq<string>, i: nat, parse: Parser)
    requires i < |lines|
    ensures Scan(lines[i..], parse) == match Classify(lines[i], parse)
      case Sentinel => Scanned([], true)
      case Record(c) =>
        if c.done then Scanned(Emitted(c), true)
        else Scanned(Emitted(c) + Scan(lines[i + 1..], parse).deltas, Scan(lines[i + 1..], parse).terminated)
      case _ => Scan(lines[i + 1..], parse)
  {
    assert lines[i..][0] == lines[i] && lines[i..][1..] == lines[i + 1..];
  }

  // ---------------------------------------------------------------------------
  // cleanResponse and limitNewlines

  /** The line-ending rewrite of cleanResponse: a `\r` directly before `\n` is
      dropped, any other `\r` becomes `\n`. */
  function NormalizeEol(s: string): string
    decreases |s|
  {
    if s == [] then []
    else if s[0] == '\r' then
      (if |s| > 1 && s[1] == '\n' then [] else "\n") + NormalizeEol(s[1..])
    else [s[0]] + NormalizeEol(s[1..])
  }


  /** One step of NormalizeEol at index `i`: what the character there becomes. */
  lemma NormalizeEolStep(s: string, i: nat)
    requires i < |s|
    ensures NormalizeEol(s[i..]) ==
      (if s[i] == '\r' then (if i + 1 < |s| && s[i + 1] == '\n' then "" else "\n") else [s[i]])
      + NormalizeEol(s[i + 1..])
  {
    assert s[i..][0] == s[i] && s[i..][1..] == s[i + 1..];
    assert |s[i..]| > 1 ==> s[i..][1] == s[i + 1];
  }

  /** The fence balancing of cleanResponse: the closing fence is appended when
      the fence count is odd. */
  function Balanced(t: string, fenceCount: nat): string {
    if fenceCount % 2 == 1 then t + ClosingFence else t
  }

  /** limitNewlines from a state in which the last `run` characters written
      were newlines. */
  function CapNewlines(s: string, run: nat): string
    decreases |s|
  {
    if s == [] then []
    else if s[0] == '\n' then
      (if run + 1 <= MaxNewlineRun then "\n" else "") + CapNewlines(s[1..], run + 1)
    else [s[0]] + CapNewlines(s[1..], 0)
  }

  /** The value cleanResponse returns. The fence count is taken over the
      original text, counting overlapping occurrences. */
  function Cleaned(text: string): string {
    if text == "" then ""
    else CapNewlines(Balanced(TrimSpace(NormalizeEol(text)), CountOverlapping(text, Fence)), 0)
  }

  /** Processor.cleanResponse. */
  method CleanResponse(text: string) returns (r: string)
    ensures r == Cleaned(text)
  {
    if text == "" {
      return "";
    }
    var out := "";
    var fenceCount := 0;
    var i := 0;
    while i < |text|
      invariant 0 <= i <= |text|
      invariant out + NormalizeEol(text[i..]) == NormalizeEol(text)
      invariant fenceCount + CountOverlapping(text[i..], Fence) == CountOverlapping(text, Fence)
    {
      NormalizeEolStep(text, i);
      CountOverlappingStep(text, Fence, i);
      var piece, fence := CleanStep(text, i);
      if fence {
        fenceCount := fenceCount + 1;
      }
      AppendAssoc(out, piece, NormalizeEol(text[i + 1..]));
      out := out + piece;
      i := i + 1;
    }
    assert text[i..] == [];
    assert out == NormalizeEol(text);
    var cleaned := TrimSpace(out);
    if fenceCount % 2 == 1 {
      cleaned := cleaned + ClosingFence;
    }
    r := LimitNewlines(cleaned);
  }

  /** The body of the cleanResponse loop at index `i`: what the character
      there becomes, and whether a fence starts there. */
  method CleanStep(text: string, i: nat) returns (piece: string, fence: bool)
    requires i < |text|
    ensures piece == if text[i] == '\r' then (if i + 1 < |text| && text[i + 1] == '\n' then "" else "\n") else [text[i]]
    ensures fence <==> IsAt(text, Fence, i)
  {
    var c := text[i];
    fence := false;
    if c == '\r' {
      if i + 1 < |text| && text[i + 1] == '\n' {
        piece := "";
      } else {
        piece := "\n";
      }
      assert !IsAt(text, Fence, i) by { assert i + 3 <= |text| ==> text[i..i + 3][0] == c; }
    } else if c == '`' {
      if i + 2 < |text| && text[i + 1] == '`' && text[i + 2] == '`' {
        assert text[i..i + 3] == Fence;
        fence := true;
      } else {
        assert !IsAt(text, Fence, i);
      }
      piece := [c];
    } else {
      assert !IsAt(text, Fence, i) by { assert i + 3 <= |text| ==> text[i..i + 3][0] == c; }
      piece := [c];
    }
  }

  /** Processor.limitNewlines. */
  method LimitNewlines(text: string) returns (r: string)
    ensures r == CapNewlines(text, 0)
  {
    r := "";
    var newlineCount := 0;
    var i := 0;
    while i < |text|
      invariant 0 <= i <= |text|
      invariant r + CapNewlines(text[i..], newlineCount) == CapNewlines(text, 0)
    {
      assert text[i..][0] == text[i] && text[i..][1..] == text[i + 1..];
      if text[i] == '\n' {
        newlineCount := newlineCount + 1;
        if newlineCount <= MaxNewlineRun {
          r := r + "\n";
        }
      } else {
        newlineCount := 0;
        r := r + [text[i]];
      }
      i := i + 1;
    }
    assert text[i..] == [];
  }

  // ---------------------------------------------------------------------------
  // How lines compose

  /** Scanning two runs of lines one after the other: once the first run has
      reached a terminator the second is never looked at. */
  lemma {:induction false} ScanAppend(a: seq<string>, b: seq<string>, parse: Parser)
    ensures Scan(a + b, parse) ==
      if Scan(a, parse).terminated then Scan(a, parse)
      else Scanned(Scan(a, parse).deltas + Scan(b, parse).deltas, Scan(b, parse).terminated)
    decreases |a|
  {
    if a == [] {
      assert a + b == b;
    } else {
      assert (a + b)[0] == a[0] && (a + b)[1..] == a[1..] + b;
      ScanAppend(a[1..], b, parse);
    }
  }

  /** A line that does not start with exactly `data: `, or whose payload the
      decoder rejects, has no effect wherever it appears. */
  lemma SkippedLine(a: seq<string>, line: string, b: seq<string>, parse: Parser)
    requires Classify(line, parse) == Ignored || Classify(line, parse) == Malformed
    ensures Scan(a + [line] + b, parse) == Scan(a + b, parse)
  {
    ScanAppend(a, [line] + b, parse);
    ScanAppend(a, b, parse);
    assert ([line] + b)[1..] == b;
    assert a + [line] + b == a + ([line] + b);
  }

  /** A line shorter than the prefix, or one that is padded before it, is skipped. */
  lemma UnprefixedIgnored(line: string, parse: Parser)
    requires |line| < |DataPrefix| || line[0] != 'd'
    ensures Classify(line, parse) == Ignored
  {
    if |line| >= |DataPrefix| { assert line[..|DataPrefix|][0] == line[0]; }
  }

  /** The sentinel ends the stream at once with the deltas seen before it. */
  lemma SentinelStops(a: seq<string>, b: seq<string>, parse: Parser)
    requires !Scan(a, parse).terminated
    ensures Scan(a + [DataPrefix + DoneSentinel] + b, parse) == Scanned(Scan(a, parse).deltas, true)
  {
    var line := DataPrefix + DoneSentinel;
    assert line[..|DataPrefix|] == DataPrefix && line[|DataPrefix|..] == DoneSentinel;
    ScanAppend(a, [line] + b, parse);
    assert a + [line] + b == a + ([line] + b);
  }

  /** A record with `done` set ends the stream after its own delta is taken. */
  lemma DoneStops(a: seq<string>, line: string, b: seq<string>, parse: Parser, c: Chunk)
    requires !Scan(a, parse).terminated
    requires Classify(line, parse) == Record(c) && c.done
    ensures Scan(a + [line] + b, parse) == Scanned(Scan(a, parse).deltas + Emitted(c), true)
  {
    ScanAppend(a, [line] + b, parse);
    assert a + [line] + b == a + ([line] + b);
  }

  /** A record without `done` contributes its delta and the stream goes on. */
  lemma RecordContinues(a: seq<string>, line: string, b: seq<string>, parse: Parser, c: Chunk)
    requires !Scan(a, parse).terminated
    requires Classify(line, parse) == Record(c) && !c.done
    ensures Scan(a + [line] + b, parse) ==
      Scanned(Scan(a, parse).deltas + Emitted(c) + Scan(b, parse).deltas, Scan(b, parse).terminated)
  {
    ScanAppend(a, [line] + b, parse);
    assert a + [line] + b == a + ([line] + b);
    assert ([line] + b)[1..] == b;
  }

  /** Every delta the callback receives is a non-empty completion delta. */
  lemma {:induction false} ScanDeltasNonEmpty(lines: seq<string>, parse: Parser)
    ensures forall d :: d in Scan(lines, parse).deltas ==> d != ""
    decreases |lines|
  {
    if lines != [] { ScanDeltasNonEmpty(lines[1..], parse); }
  }

  lemma {:induction false} ConcatAppend(a: seq<string>, b: seq<string>)
    ensures Concat(a + b) == Concat(a) + Concat(b)
    decreases |b|
  {
    if b == [] {
      assert a + b == a;
    } else {
      var init := b[..|b| - 1];
      var last := b[|b| - 1];
      assert a + b == (a + init) + [last] by {
        assert b == init + [last];
        AppendAssoc(a, init, [last]);
      }
      ConcatSnoc(a + init, last);
      ConcatAppend(a, init);
      ConcatSnoc(init, last);
      assert b == init + [last];
      AppendAssoc(Concat(a), Concat(init), last);
    }
  }

  /** One more delta extends the text by exactly that delta. */
  lemma ConcatSnoc(ds: seq<string>, d: string)
    ensures Concat(ds + [d]) == Concat(ds) + d
  {
    assert (ds + [d])[..|ds|] == ds;
  }

  // ---------------------------------------------------------------------------
  // Properties of cleanResponse

  /** No carriage return survives the line-ending rewrite. */
  lemma {:induction false} NormalizeEolNoCr(s: string)
    ensures '\r' !in NormalizeEol(s)
    decreases |s|
  {
    if s != [] { NormalizeEolNoCr(s[1..]); }
  }

  /** Every character other than `\r` survives the line-ending rewrite. */
  lemma {:induction false} NormalizeEolKeeps(s: string, c: char)
    requires c != '\r' && c in s
    ensures c in NormalizeEol(s)
    decreases |s|
  {
    if s[0] != c { NormalizeEolKeeps(s[1..], c); }
  }

  /** The line-ending rewrite is the two ReplaceAll calls of the older client. */
  lemma {:induction false} NormalizeEolIsReplaceAll(s: string)
    ensures NormalizeEol(s) == ReplaceAll(ReplaceAll(s, "\r\n", "\n"), "\r", "\n")
    decreases |s|
  {
    if s == [] {
    } else if |s| > 1 && s[0] == '\r' && s[1] == '\n' {
      assert s[..2] == "\r\n";
      NormalizeEolIsReplaceAll(s[2..]);
      ReplaceCrCons('\n', ReplaceAll(s[2..], "\r\n", "\n"));
      assert s[1..][0] == '\n' && s[1..][1..] == s[2..];
    } else {
      if |s| > 1 { assert s[..2] != "\r\n" by { assert s[..2][0] == s[0] && s[..2][1] == s[1]; } }
      NormalizeEolIsReplaceAll(s[1..]);
      ReplaceCrCons(s[0], ReplaceAll(s[1..], "\r\n", "\n"));
    }
  }

  lemma ReplaceCrCons(c: char, x: string)
    ensures ReplaceAll([c] + x, "\r", "\n") == (if c == '\r' then "\n" else [c]) + ReplaceAll(x, "\r", "\n")
  {
    assert ([c] + x)[..1] == [c] && ([c] + x)[1..] == x;
  }

  // ---------------------------------------------------------------------------
  // Fence counting through the rewrite

  predicate StartsTick(s: string) {
    s != [] && s[0] == '`'
  }

  /** A fence starts at the front exactly when the first three characters are backticks. */
  lemma FenceAtFront(s: string)
    ensures IsAt(s, Fence, 0) <==> StartsTick(s) && StartsTick(s[1..]) && StartsTick(s[2..])
  {
    if |s| >= 3 && StartsTick(s) && StartsTick(s[1..]) && StartsTick(s[2..]) {
      assert s[..3] == Fence;
    }
    if IsAt(s, Fence, 0) {
      assert s[0..3][1] == s[1] && s[0..3][2] == s[2];
    }
  }

  lemma CountOverlappingFront(s: string, p: string)
    requires |p| > 0
    ensures CountOverlapping(s, p) == (if s != [] && IsAt(s, p, 0) then 1 else 0) + (if s == [] then 0 else CountOverlapping(s[1..], p))
  {
    if |s| >= |p| { assert s[..|p|] == s[0..|p|]; }
  }

  /** Fences in a concatenation are the fences of the parts when no run of
      backticks crosses the seam. */
  lemma {:induction false} CountOverlappingSplit(a: string, b: string)
    requires !(StartsTick(b) && a != [] && a[|a| - 1] == '`')
    ensures CountOverlapping(a + b, Fence) == CountOverlapping(a, Fence) + CountOverlapping(b, Fence)
    decreases |a|
  {
    if a == [] {
      assert a + b == b;
    } else {
      CountOverlappingFront(a + b, Fence);
      CountOverlappingFront(a, Fence);
      assert (a + b)[1..] == a[1..] + b;
      CountOverlappingSplit(a[1..], b);
      FenceAtFront(a + b);
      FenceAtFront(a);
      if |a| < 3 && IsAt(a + b, Fence, 0) {
        assert false;
      }
      if |a| >= 3 {
        assert (a + b)[..3] == a[..3];
      }
    }
  }

  /** A text of fewer than three characters holds no fence. */
  lemma ShortNoFence(s: string)
    requires |s| < 3
    ensures CountOverlapping(s, Fence) == 0
  {
    if s != [] { assert |s[1..]| < 3; if |s| > 1 { assert |s[1..][1..]| < 3; } }
  }

  /** A text without backticks holds no fence. */
  lemma {:induction false} NoTickNoFence(s: string)
    requires '`' !in s
    ensures CountOverlapping(s, Fence) == 0
    decreases |s|
  {
    if s != [] {
      CountOverlappingFront(s, Fence);
      FenceAtFront(s);
      NoTickNoFence(s[1..]);
    }
  }

  lemma NormalizeEolHead(s: string)
    ensures StartsTick(NormalizeEol(s)) <==> StartsTick(s)
    ensures StartsTick(s) ==> NormalizeEol(s)[1..] == NormalizeEol(s[1..])
  {
    if s != [] && s[0] == '\r' && |s| > 1 && s[1] == '\n' {
      assert s[1..][0] == '\n';
    }
  }

  /** The line-ending rewrite neither creates nor destroys a fence. */
  lemma {:induction false} NormalizeEolFences(s: string)
    ensures CountOverlapping(NormalizeEol(s), Fence) == CountOverlapping(s, Fence)
    decreases |s|
  {
    if s != [] {
      NormalizeEolFences(s[1..]);
      CountOverlappingFront(s, Fence);
      FenceAtFront(s);
      var rest := NormalizeEol(s[1..]);
      if s[0] == '`' {
        var n := NormalizeEol(s);
        assert n == "`" + rest;
        CountOverlappingFront(n, Fence);
        FenceAtFront(n);
        assert n[1..] == rest;
        NormalizeEolHead(s[1..]);
        if StartsTick(s[1..]) {
          assert s[1..][1..] == s[2..];
          assert rest[1..] == NormalizeEol(s[2..]);
          NormalizeEolHead(s[2..]);
          assert n[2..] == rest[1..];
        }
      } else {
        var piece := if s[0] == '\r' then (if |s| > 1 && s[1] == '\n' then "" else "\n") else [s[0]];
        assert NormalizeEol(s) == piece + rest;
        CountOverlappingSplit(piece, rest);
        ShortNoFence(piece);
      }
    }
  }

  lemma {:induction false} TrimLeftFences(s: string)
    ensures CountOverlapping(TrimLeft(s), Fence) == CountOverlapping(s, Fence)
    decreases |s|
  {
    if s != [] && IsSpace(s[0]) {
      CountOverlappingFront(s, Fence);
      FenceAtFront(s);
      TrimLeftFences(s[1..]);
    }
  }

  lemma {:induction false} TrimRightFences(s: string)
    ensures CountOverlapping(TrimRight(s), Fence) == CountOverlapping(s, Fence)
    decreases |s|
  {
    if s != [] && IsSpace(s[|s| - 1]) {
      var init := s[..|s| - 1];
      assert s == init + [s[|s| - 1]];
      CountOverlappingSplit(init, [s[|s| - 1]]);
      ShortNoFence([s[|s| - 1]]);
      TrimRightFences(init);
    }
  }

  /** Trimming white space neither creates nor destroys a fence. */
  lemma TrimSpaceFences(s: string)
    ensures CountOverlapping(TrimSpace(s), Fence) == CountOverlapping(s, Fence)
  {
    TrimLeftFences(s);
    TrimRightFences(TrimLeft(s));
  }

  /** The closing fence adds exactly one fence. */
  lemma BalancedFences(t: string, n: nat)
    ensures CountOverlapping(Balanced(t, n), Fence) == CountOverlapping(t, Fence) + n % 2
  {
    if n % 2 == 1 {
      CountOverlappingSplit(t, ClosingFence);
      assert CountOverlapping(ClosingFence[1..], Fence) == 1 by {
        assert ClosingFence[1..][..3] == Fence;
        assert ClosingFence[1..][1..] == "``";
        ShortNoFence("``");
      }
      CountOverlappingFront(ClosingFence, Fence);
      assert ClosingFence[..3] != Fence by { assert ClosingFence[..3][0] == '\n'; }
    }
  }

  lemma CapNewlinesHead(s: string, run: nat)
    requires run < MaxNewlineRun
    ensures StartsTick(CapNewlines(s, run)) <==> StartsTick(s)
  {
  }

  /** Capping newline runs neither creates nor destroys a fence. */
  lemma {:induction false} CapNewlinesFences(s: string, run: nat)
    ensures CountOverlapping(CapNewlines(s, run), Fence) == CountOverlapping(s, Fence)
    decreases |s|
  {
    if s != [] {
      CountOverlappingFront(s, Fence);
      FenceAtFront(s);
      if s[0] == '\n' {
        CapNewlinesFences(s[1..], run + 1);
        var piece := if run + 1 <= MaxNewlineRun then "\n" else "";
        CountOverlappingSplit(piece, CapNewlines(s[1..], run + 1));
        ShortNoFence(piece);
      } else if s[0] != '`' {
        CapNewlinesFences(s[1..], 0);
        CountOverlappingSplit([s[0]], CapNewlines(s[1..], 0));
        ShortNoFence([s[0]]);
      } else {
        CapNewlinesFences(s[1..], 0);
        var rest := CapNewlines(s[1..], 0);
        var n := CapNewlines(s, run);
        assert n == "`" + rest && n[1..] == rest;
        CountOverlappingFront(n, Fence);
        FenceAtFront(n);
        CapNewlinesHead(s[1..], 0);
        if StartsTick(s[1..]) {
          assert s[1..][1..] == s[2..];
          assert rest[1..] == CapNewlines(s[2..], 0);
          CapNewlinesHead(s[2..], 0);
          assert n[2..] == rest[1..];
        }
      }
    }
  }

  /** After cleaning, the overlapping fence count is the original count made
      even: it rises by one exactly when it was odd. */
  lemma CleanedFences(text: string)
    ensures CountOverlapping(Cleaned(text), Fence) == CountOverlapping(text, Fence) + CountOverlapping(text, Fence) % 2
    ensures CountOverlapping(Cleaned(text), Fence) % 2 == 0
  {
    var n := CountOverlapping(text, Fence);
    CleanedFenceCount(text);
    RoundedUpEven(n);
  }

  lemma CleanedFenceCount(text: string)
    ensures CountOverlapping(Cleaned(text), Fence) == CountOverlapping(text, Fence) + CountOverlapping(text, Fence) % 2
  {
    if text != "" {
      var n := CountOverlapping(text, Fence);
      var e := NormalizeEol(text);
      var t := TrimSpace(e);
      var b := Balanced(t, n);
      assert Cleaned(text) == CapNewlines(b, 0);
      NormalizeEolFences(text);
      TrimSpaceFences(e);
      BalancedFences(t, n);
      CapNewlinesFences(b, 0);
    }
  }

  lemma RoundedUpEven(n: nat)
    ensures (n + n % 2) % 2 == 0
  {
    if n % 2 == 1 { assert n + 1 == (n / 2 + 1) * 2; } else { assert n == (n / 2) * 2; }
  }

  // ---------------------------------------------------------------------------
  // Properties of limitNewlines

  const FourNewlines: string := "\n\n\n\n"

  /** No four newlines in a row anywhere in `s`. */
  predicate NoLongRun(s: string) {
    forall i: nat :: i <= |s| ==> !IsAt(s, FourNewlines, i)
  }

  function Newlines(k: nat): (r: string)
    ensures |r| == k && forall i :: 0 <= i < k ==> r[i] == '\n'
  {
    seq(k, _ => '\n')
  }

  function Min(a: nat, b: nat): nat {
    if a <= b then a else b
  }

  /** Dropping a prefix cannot create a run. */
  lemma NoLongRunSuffix(a: string, b: string)
    requires NoLongRun(a + b)
    ensures NoLongRun(b)
  {
    forall i: nat | i <= |b| ensures !IsAt(b, FourNewlines, i) {
      if IsAt(b, FourNewlines, i) {
        assert (a + b)[|a| + i..|a| + i + 4] == b[i..i + 4];
        assert IsAt(a + b, FourNewlines, |a| + i);
      }
    }
  }

  /** A run of at most three newlines followed by the capped rest of the text
      holds no run of four. */
  lemma {:induction false} CapNewlinesWindow(s: string, run: nat)
    ensures NoLongRun(Newlines(Min(run, MaxNewlineRun)) + CapNewlines(s, run))
    decreases |s|
  {
    var m := Min(run, MaxNewlineRun);
    var x := Newlines(m) + CapNewlines(s, run);
    if s == [] {
      assert x == Newlines(m);
    } else if s[0] == '\n' {
      CapNewlinesWindow(s[1..], run + 1);
      if run + 1 <= MaxNewlineRun {
        assert x == Newlines(run + 1) + CapNewlines(s[1..], run + 1);
      } else {
        assert x == Newlines(Min(run + 1, MaxNewlineRun)) + CapNewlines(s[1..], run + 1);
      }
    } else {
      var rest := CapNewlines(s[1..], 0);
      CapNewlinesWindow(s[1..], 0);
      assert Newlines(0) + rest == rest;
      assert x == Newlines(m) + [s[0]] + rest;
      NoLongRunAfterBreak(m, s[0], rest);
    }
  }

  /** A character other than a newline breaks every run. */
  lemma NoLongRunAfterBreak(m: nat, c: char, rest: string)
    requires m <= MaxNewlineRun && c != '\n' && NoLongRun(rest)
    ensures NoLongRun(Newlines(m) + [c] + rest)
  {
    var x := Newlines(m) + [c] + rest;
    forall i: nat | i <= |x| ensures !IsAt(x, FourNewlines, i) {
      if i <= m {
        if i + 4 <= |x| { assert x[i..i + 4][m - i] == c; }
      } else if i + 4 <= |x| {
        assert x[i..i + 4] == rest[i - m - 1..i - m - 1 + 4];
        assert !IsAt(rest, FourNewlines, i - m - 1);
      }
    }
  }

  /** limitNewlines leaves no run of more than three newlines. */
  lemma CapNewlinesNoLongRun(s: string)
    ensures NoLongRun(CapNewlines(s, 0))
  {
    CapNewlinesWindow(s, 0);
    assert Newlines(0) + CapNewlines(s, 0) == CapNewlines(s, 0);
  }

  /** `s` with every `c` removed. */
  function Without(s: string, c: char): (r: string)
    ensures c !in r
    decreases |s|
  {
    if s == [] then [] else (if s[0] == c then [] else [s[0]]) + Without(s[1..], c)
  }

  /** limitNewlines removes only newlines: every other character is kept, in order. */
  lemma {:induction false} CapNewlinesKeepsOthers(s: string, run: nat)
    ensures Without(CapNewlines(s, run), '\n') == Without(s, '\n')
    decreases |s|
  {
    if s != [] {
      var rest := if s[0] == '\n' then CapNewlines(s[1..], run + 1) else CapNewlines(s[1..], 0);
      CapNewlinesKeepsOthers(s[1..], if s[0] == '\n' then run + 1 else 0);
      WithoutAppend(if s[0] == '\n' then (if run + 1 <= MaxNewlineRun then "\n" else "") else [s[0]], rest, '\n');
    }
  }

  lemma {:induction false} WithoutAppend(a: string, b: string, c: char)
    ensures Without(a + b, c) == Without(a, c) + Without(b, c)
    decreases |a|
  {
    if a == [] {
      assert a + b == b;
    } else {
      var h: string := if a[0] == c then [] else [a[0]];
      AppendHead(a, b);
      assert Without(a + b, c) == h + Without(a[1..] + b, c);
      WithoutAppend(a[1..], b, c);
      assert Without(a, c) == h + Without(a[1..], c);
      AppendAssoc(h, Without(a[1..], c), Without(b, c));
    }
  }

  lemma FrontRun(x: string)
    requires |x| >= 4 && forall i :: 0 <= i < 4 ==> x[i] == '\n'
    ensures !NoLongRun(x)
  {
    assert x[0..4] == FourNewlines;
    assert IsAt(x, FourNewlines, 0);
  }

  /** limitNewlines changes nothing in a text that already has no run of four. */
  lemma {:induction false} CapNewlinesIdentity(s: string, run: nat)
    requires run <= MaxNewlineRun && NoLongRun(Newlines(run) + s)
    ensures CapNewlines(s, run) == s
    decreases |s|
  {
    if s != [] {
      var x := Newlines(run) + s;
      if s[0] == '\n' {
        if run == MaxNewlineRun {
          FrontRun(x);
          assert false;
        }
        assert Newlines(run + 1) + s[1..] == x;
        CapNewlinesIdentity(s[1..], run + 1);
      } else {
        assert x == (Newlines(run) + [s[0]]) + s[1..];
        NoLongRunSuffix(Newlines(run) + [s[0]], s[1..]);
        assert Newlines(0) + s[1..] == s[1..];
        CapNewlinesIdentity(s[1..], 0);
        assert [s[0]] + s[1..] == s;
      }
    }
  }

  /** limitNewlines is idempotent. */
  lemma CapNewlinesIdempotent(s: string)
    ensures CapNewlines(CapNewlines(s, 0), 0) == CapNewlines(s, 0)
  {
    CapNewlinesNoLongRun(s);
    assert Newlines(0) + CapNewlines(s, 0) == CapNewlines(s, 0);
    CapNewlinesIdentity(CapNewlines(s, 0), 0);
  }

  lemma {:induction false} CapNewlinesChars(s: string, run: nat, c: char)
    requires c in CapNewlines(s, run)
    ensures c in s
    decreases |s|
  {
    var rest := if s[0] == '\n' then CapNewlines(s[1..], run + 1) else CapNewlines(s[1..], 0);
    if c in rest { CapNewlinesChars(s[1..], if s[0] == '\n' then run + 1 else 0, c); }
  }

  /** limitNewlines keeps the last character when it is not a newline. */
  lemma {:induction false} CapNewlinesLast(s: string, run: nat)
    requires s != [] && s[|s| - 1] != '\n'
    ensures CapNewlines(s, run) != [] && CapNewlines(s, run)[|CapNewlines(s, run)| - 1] == s[|s| - 1]
    decreases |s|
  {
    if |s| > 1 {
      var run' := if s[0] == '\n' then run + 1 else 0;
      CapNewlinesLast(s[1..], run');
    }
  }

  // ---------------------------------------------------------------------------
  // Properties of cleanResponse

  lemma TrimSpaceChars(s: string, c: char)
    requires c in TrimSpace(s)
    ensures c in s
  {
    var l := TrimLeft(s);
    var t := TrimSpace(s);
    var k :| 0 <= k < |t| && t[k] == c;
    assert t[k] == l[k] == s[|s| - |l| + k];
  }

  /** The cleaned text holds no carriage return. */
  lemma CleanedNoCr(text: string)
    ensures '\r' !in Cleaned(text)
  {
    if text != "" {
      var e := NormalizeEol(text);
      var t := TrimSpace(e);
      var b := Balanced(t, CountOverlapping(text, Fence));
      NormalizeEolNoCr(text);
      if '\r' in t { TrimSpaceChars(e, '\r'); }
      assert '\r' !in ClosingFence;
      assert '\r' !in b;
      if '\r' in CapNewlines(b, 0) { CapNewlinesChars(b, 0, '\r'); }
    }
  }

  /** A text with a fence keeps a backtick after the line-ending rewrite and
      trimming, so it does not trim to nothing. */
  lemma FenceSurvivesTrim(text: string)
    requires CountOverlapping(text, Fence) > 0
    ensures TrimSpace(NormalizeEol(text)) != []
  {
    if '`' !in text { NoTickNoFence(text); }
    NormalizeEolKeeps(text, '`');
    var e := NormalizeEol(text);
    var k :| 0 <= k < |e| && e[k] == '`';
    assert !IsSpace(e[k]);
  }

  /** Balancing a trimmed text keeps its ends free of white space. */
  lemma BalancedUnpadded(t: string, n: nat)
    requires t != [] ==> !IsSpace(t[0]) && !IsSpace(t[|t| - 1])
    requires n % 2 == 1 ==> t != []
    ensures Balanced(t, n) != [] ==> !IsSpace(Balanced(t, n)[0]) && !IsSpace(Balanced(t, n)[|Balanced(t, n)| - 1])
  {
  }

  /** Capping newline runs keeps a text's ends free of white space. */
  lemma CapNewlinesUnpadded(b: string)
    requires b != [] ==> !IsSpace(b[0]) && !IsSpace(b[|b| - 1])
    ensures TrimSpace(CapNewlines(b, 0)) == CapNewlines(b, 0)
  {
    if b != [] {
      CapNewlinesLast(b, 0);
    }
    TrimSpaceOfUnpadded(CapNewlines(b, 0));
  }

  /** The cleaned text has no white space at either end. */
  lemma CleanedTrimmed(text: string)
    ensures TrimSpace(Cleaned(text)) == Cleaned(text)
  {
    if text != "" {
      var n := CountOverlapping(text, Fence);
      var t := TrimSpace(NormalizeEol(text));
      if n % 2 == 1 { FenceSurvivesTrim(text); }
      BalancedCappedUnpadded(t, n);
    }
  }

  /** Balancing and capping a trimmed text keep its ends free of white space. */
  lemma BalancedCappedUnpadded(t: string, n: nat)
    requires t != [] ==> !IsSpace(t[0]) && !IsSpace(t[|t| - 1])
    requires n % 2 == 1 ==> t != []
    ensures TrimSpace(CapNewlines(Balanced(t, n), 0)) == CapNewlines(Balanced(t, n), 0)
  {
    BalancedUnpadded(t, n);
    CapNewlinesUnpadded(Balanced(t, n));
  }

  /** The cleaned text has no run of four newlines. */
  lemma CleanedNoLongRun(text: string)
    ensures !Contains(Cleaned(text), FourNewlines)
  {
    if text != "" {
      var b := Balanced(TrimSpace(NormalizeEol(text)), CountOverlapping(text, Fence));
      CapNewlinesNoLongRun(b);
    }
  }

  /** Overlapping and non-overlapping fence counts differ on four backticks:
      this cleaner counts two fences there and appends nothing, while the
      older client's `strings.Count` counts one and appends a closing fence. */
  lemma FourBackticks()
    ensures CountOverlapping("````", Fence) == 2
    ensures Count("````", Fence) == 1
  {
    assert "````"[..3] == Fence && "````"[1..][..3] == Fence;
    assert "````"[1..][1..] == "``";
    ShortNoFence("``");
    assert "````"[3..] == "`";
  }
}
