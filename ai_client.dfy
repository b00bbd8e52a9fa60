/** The older decoders and cleaner of src/internal/ai/client.go.

    They read the same `data: ` records as the live decoder, but each line is
    trimmed before the prefix test, the fence count is the non-overlapping
    `strings.Count` of the trimmed text, and newline runs are limited by
    replacing four newlines with three until none are left. */
module LegacyClient {
  import opened Common
  import opened Text
  import opened Stream

  const CrLf: string := "\r\n"
  const Cr: string := "\r"
  const Lf: string := "\n"
  const ThreeNewlines: string := "\n\n\n"

  // ---------------------------------------------------------------------------
  // cleanResponse

  /** A replacement pass shortens a text that holds four newlines in a row. */
  lemma CollapseStepShrinks(s: string)
    requires Contains(s, FourNewlines)
    ensures |ReplaceAll(s, FourNewlines, ThreeNewlines)| < |s|
  {
    var i: nat :| i <= |s| && IsAt(s, FourNewlines, i);
    CountPositive(s, FourNewlines, i);
    ReplaceAllLength(s, FourNewlines, ThreeNewlines);
  }

  /** The replace-until-fixpoint loop: the text once no four newlines are left. */
  function Collapse(s: string): (r: string)
    ensures !Contains(r, FourNewlines)
    decreases |s|
  {
    if Contains(s, FourNewlines) then
      CollapseStepShrinks(s);
      Collapse(ReplaceAll(s, FourNewlines, ThreeNewlines))
    else s
  }

  /** The value Client.cleanResponse returns. */
  function LegacyCleaned(text: string): string {
    if text == "" then ""
    else
      var t := TrimSpace(ReplaceAll(ReplaceAll(text, CrLf, Lf), Cr, Lf));
      Collapse(Balanced(t, Count(t, Fence)))
  }

  /** Client.cleanResponse. */
  method CleanResponse(text: string) returns (r: string)
    ensures r == LegacyCleaned(text)
  {
    if text == "" {
      return "";
    }
    var cleaned := ReplaceAll(text, CrLf, Lf);
    cleaned := ReplaceAll(cleaned, Cr, Lf);
    cleaned := TrimSpace(cleaned);
    var fenceCount := Count(cleaned, Fence);
    if fenceCount % 2 == 1 {
      cleaned := cleaned + ClosingFence;
    }
    ghost var balanced := cleaned;
    while Contains(cleaned, FourNewlines)
      invariant Collapse(cleaned) == Collapse(balanced)
      decreases |cleaned|
    {
      CollapseStepShrinks(cleaned);
      cleaned := ReplaceAll(cleaned, FourNewlines, ThreeNewlines);
    }
    r := cleaned;
  }

  // ---------------------------------------------------------------------------
  // The replacement loop agrees with limitNewlines

  /** Once three newlines have been written, the exact run length no longer matters. */
  lemma {:induction false} CapNewlinesSaturated(s: string, r1: nat, r2: nat)
    requires r1 >= MaxNewlineRun && r2 >= MaxNewlineRun
    ensures CapNewlines(s, r1) == CapNewlines(s, r2)
    decreases |s|
  {
    if s != [] && s[0] == '\n' { CapNewlinesSaturated(s[1..], r1 + 1, r2 + 1); }
  }

  /** The result of capping after one newline. */
  lemma CapNewlinesNewline(x: string, run: nat)
    ensures CapNewlines("\n" + x, run) == (if run + 1 <= MaxNewlineRun then "\n" else "") + CapNewlines(x, run + 1)
  {
    assert ("\n" + x)[1..] == x;
  }

  /** One pass of replacing four newlines by three does not change what
      limitNewlines makes of the text. */
  lemma {:induction false} CapNewlinesReplaceStep(s: string, run: nat)
    ensures CapNewlines(ReplaceAll(s, FourNewlines, ThreeNewlines), run) == CapNewlines(s, run)
    decreases |s|
  {
    if |s| < |FourNewlines| {
    } else if s[..4] == FourNewlines {
      CapNewlinesReplaceStep(s[4..], run + 3);
      CapNewlinesReplaceFour(s, run);
    } else {
      CapNewlinesReplaceStep(s[1..], if s[0] == '\n' then run + 1 else 0);
      CapNewlinesReplaceOther(s, run);
    }
  }

  /** The replacing step at a run of four newlines, given the fact for the rest. */
  lemma CapNewlinesReplaceFour(s: string, run: nat)
    requires |s| >= 4 && s[..4] == FourNewlines
    requires CapNewlines(ReplaceAll(s[4..], FourNewlines, ThreeNewlines), run + 3) == CapNewlines(s[4..], run + 3)
    ensures CapNewlines(ReplaceAll(s, FourNewlines, ThreeNewlines), run) == CapNewlines(s, run)
  {
    var y := s[4..];
    var x := ReplaceAll(y, FourNewlines, ThreeNewlines);
    NewlineRuns();
    assert ReplaceAll(s, FourNewlines, ThreeNewlines) == Newlines(3) + x;
    assert s == Newlines(4) + y by { PrefixSuffix(s, 4); }
    CapNewlinesRun(3, x, run);
    CapNewlinesRun(4, y, run);
    CapNewlinesSaturated(y, run + 3, run + 4);
  }

  lemma NewlineRuns()
    ensures ThreeNewlines == Newlines(3) && FourNewlines == Newlines(4)
  {
  }

  /** How many newlines of a run of `k` limitNewlines keeps after `run` of them. */
  function KeptOfRun(k: nat, run: nat): nat {
    if run >= MaxNewlineRun then 0 else Min(k, MaxNewlineRun - run)
  }

  /** limitNewlines over a run of `k` newlines keeps at most the cap of them
      and carries the longer run into what follows. */
  lemma {:induction false} CapNewlinesRun(k: nat, y: string, run: nat)
    ensures CapNewlines(Newlines(k) + y, run) == Newlines(KeptOfRun(k, run)) + CapNewlines(y, run + k)
    decreases k
  {
    if k == 0 {
      assert Newlines(0) + y == y;
      assert Newlines(0) + CapNewlines(y, run) == CapNewlines(y, run);
    } else {
      var rest := Newlines(k - 1) + y;
      var z := CapNewlines(y, run + k);
      assert Newlines(k) + y == "\n" + rest by {
        assert Newlines(k) == "\n" + Newlines(k - 1);
        AppendAssoc("\n", Newlines(k - 1), y);
      }
      CapNewlinesNewline(rest, run);
      CapNewlinesRun(k - 1, y, run + 1);
      var m := KeptOfRun(k - 1, run + 1);
      assert CapNewlines(rest, run + 1) == Newlines(m) + z;
      if run + 1 <= MaxNewlineRun {
        assert KeptOfRun(k, run) == m + 1;
        assert "\n" + Newlines(m) == Newlines(m + 1);
        AppendAssoc("\n", Newlines(m), z);
      } else {
        assert KeptOfRun(k, run) == m;
        assert "" + (Newlines(m) + z) == Newlines(m) + z;
      }
    }
  }

  /** The replacing step at any other character, given the fact for the rest. */
  lemma CapNewlinesReplaceOther(s: string, run: nat)
    requires |s| >= 4 && s[..4] != FourNewlines
    requires CapNewlines(ReplaceAll(s[1..], FourNewlines, ThreeNewlines), if s[0] == '\n' then run + 1 else 0)
             == CapNewlines(s[1..], if s[0] == '\n' then run + 1 else 0)
    ensures CapNewlines(ReplaceAll(s, FourNewlines, ThreeNewlines), run) == CapNewlines(s, run)
  {
    var x := ReplaceAll(s[1..], FourNewlines, ThreeNewlines);
    assert ReplaceAll(s, FourNewlines, ThreeNewlines) == [s[0]] + x;
    assert ([s[0]] + x)[0] == s[0] && ([s[0]] + x)[1..] == x;
  }

  /** The replace-until-fixpoint loop computes exactly what limitNewlines computes. */
  lemma {:induction false} CollapseIsCapNewlines(s: string)
    ensures Collapse(s) == CapNewlines(s, 0)
    decreases |s|
  {
    if Contains(s, FourNewlines) {
      CollapseStepShrinks(s);
      CollapseIsCapNewlines(ReplaceAll(s, FourNewlines, ThreeNewlines));
      CapNewlinesReplaceStep(s, 0);
    } else {
      assert Newlines(0) + s == s;
      assert NoLongRun(s);
      CapNewlinesIdentity(s, 0);
    }
  }

  /** The two cleaners differ only in how they count fences: when both counts
      have the same parity they return the same text. */
  lemma CleanersAgree(text: string)
    requires text != ""
    requires Count(TrimSpace(NormalizeEol(text)), Fence) % 2 == CountOverlapping(text, Fence) % 2
    ensures LegacyCleaned(text) == Cleaned(text)
  {
    NormalizeEolIsReplaceAll(text);
    var t := TrimSpace(NormalizeEol(text));
    CollapseIsCapNewlines(Balanced(t, Count(t, Fence)));
  }

  /** A stretch without newlines passes limitNewlines unchanged and resets the run. */
  lemma {:induction false} CapNewlinesPlain(a: string, b: string, run: nat)
    requires a != [] && '\n' !in a
    ensures CapNewlines(a + b, run) == a + CapNewlines(b, 0)
    decreases |a|
  {
    assert (a + b)[0] == a[0] && (a + b)[1..] == a[1..] + b;
    if |a| > 1 {
      CapNewlinesPlain(a[1..], b, 0);
      assert [a[0]] + a[1..] == a;
    } else {
      assert a[1..] + b == b;
      assert a == [a[0]];
    }
  }

  lemma FourBackticksNormalized()
    ensures TrimSpace(ReplaceAll(ReplaceAll("````", CrLf, Lf), Cr, Lf)) == "````"
  {
    NormalizeEolIsReplaceAll("````");
    assert NormalizeEol("````") == "````";
    TrimSpaceOfUnpadded("````");
  }

  lemma FourBackticksBalancedCapped()
    ensures CapNewlines("````\n```", 0) == "````\n```"
  {
    CapNewlinesPlain("````", "\n```", 0);
    CapNewlinesPlain("```", [], 1);
    assert "````" + "\n```" == "````\n```";
    assert CapNewlines("\n```", 0) == "\n" + CapNewlines("```", 1) by { assert "\n```"[1..] == "```"; }
    assert "```" + [] == "```";
  }

  lemma FourBackticksClosed()
    ensures "````" + ClosingFence == "````\n```"
  {
  }

  /** On four backticks the older cleaner sees an odd non-overlapping count
      and appends a closing fence. */
  lemma LegacyOnFourBackticks()
    ensures LegacyCleaned("````") == "````\n```"
  {
    FourBackticks();
    FourBackticksNormalized();
    assert Balanced("````", 1) == "````" + ClosingFence;
    FourBackticksClosed();
    FourBackticksBalancedCapped();
    CollapseIsCapNewlines("````\n```");
  }

  /** On four backticks the live cleaner sees two overlapping fences and
      appends nothing: the two cleaners disagree there. */
  lemma LiveOnFourBackticks()
    ensures Cleaned("````") == "````"
    ensures LegacyCleaned("````") != Cleaned("````")
  {
    FourBackticks();
    assert NormalizeEol("````") == "````";
    TrimSpaceOfUnpadded("````");
    CapNewlinesPlain("````", [], 0);
    assert "````" + [] == "````";
    LegacyOnFourBackticks();
  }

  // ---------------------------------------------------------------------------
  // parseStreamResponseStream: a bufio.Reader read with ReadString('\n')

  /** Each line trimmed, as both older decoders do before the prefix test. */
  function TrimAll(ls: seq<string>): (r: seq<string>)
    ensures |r| == |ls|
    decreases |ls|
  {
    if ls == [] then [] else [TrimSpace(ls[0])] + TrimAll(ls[1..])
  }

  /** The trimmed lines of a piece of input, split at every `\n`. */
  function Pieces(s: string): (r: seq<string>)
    ensures |r| >= 1
  {
    TrimAll(Split(s, '\n'))
  }

  /** A bufio.Reader read with ReadString('\n'), as the sequence of results it
      hands back: each complete line with its newline, then the final
      fragment together with an error, which is io.EOF or, when `failed`,
      another error. */
  datatype LineReader = LineReader(lines: seq<string>, tail: string, failed: bool)

  /** Each piece with the newline that ended it. */
  function Terminated(ps: seq<string>): (r: seq<string>)
    ensures |r| == |ps|
    decreases |ps|
  {
    if ps == [] then [] else [ps[0] + "\n"] + Terminated(ps[1..])
  }

  /** The reader over a body of bytes that then ends with EOF or fails. */
  function ReaderOf(data: string, failed: bool): LineReader {
    var ps := Split(data, '\n');
    LineReader(Terminated(ps[..|ps| - 1]), ps[|ps| - 1], failed)
  }

  /** What the ReadString loop has produced: the deltas passed to `onDelta`,
      and whether it stopped on a read error. */
  datatype ReadOutcome = ReadOutcome(deltas: seq<string>, failed: bool)

  /** The ReadString loop of parseStreamResponseStream from the `k`-th result
      on. Every result is trimmed and scanned, the final fragment too when it
      comes with EOF; when it comes with an error the loop fails before
      looking at it. */
  function ReadFrom(src: LineReader, k: nat, parse: Parser): ReadOutcome
    requires k <= |src.lines|
    decreases |src.lines| - k
  {
    if k == |src.lines| then
      if src.failed then ReadOutcome([], true) else ReadOutcome(Scan([TrimSpace(src.tail)], parse).deltas, false)
    else
      var sc := Scan([TrimSpace(src.lines[k])], parse);
      if sc.terminated then ReadOutcome(sc.deltas, false)
      else
        var more := ReadFrom(src, k + 1, parse);
        ReadOutcome(sc.deltas + more.deltas, more.failed)
  }

  /** The value parseStreamResponseStream returns. */
  function StreamDecoded(src: LineReader, parse: Parser): Result<string, StreamError> {
    var r := ReadFrom(src, 0, parse);
    if r.failed then Failure(ReadFailed) else Success(LegacyCleaned(Concat(r.deltas)))
  }

  /** With EOF at the end, the loop is the line scanner over all the
      trimmed results. */
  lemma {:induction false} ReadFromScanEof(src: LineReader, k: nat, parse: Parser)
    requires k <= |src.lines| && !src.failed
    ensures ReadFrom(src, k, parse) == ReadOutcome(Scan(TrimAll(src.lines[k..] + [src.tail]), parse).deltas, false)
    decreases |src.lines| - k
  {
    var all := src.lines[k..] + [src.tail];
    if k == |src.lines| {
      assert all == [src.tail] + [];
      TrimAllCons(src.tail, []);
      assert TrimAll(all) == [TrimSpace(src.tail)];
    } else {
      ReadFromScanEof(src, k + 1, parse);
      var rest := src.lines[k + 1..] + [src.tail];
      SuffixCons(src.lines, k);
      AppendAssoc([src.lines[k]], src.lines[k + 1..], [src.tail]);
      assert all == [src.lines[k]] + rest;
      TrimAllCons(src.lines[k], rest);
      ScanAppend([TrimSpace(src.lines[k])], TrimAll(rest), parse);
    }
  }

  /** With a read error at the end, the loop scans every complete line and
      fails unless a terminator came first. */
  lemma {:induction false} ReadFromScanFailed(src: LineReader, k: nat, parse: Parser)
    requires k <= |src.lines| && src.failed
    ensures var head := Scan(TrimAll(src.lines[k..]), parse);
      ReadFrom(src, k, parse) == ReadOutcome(head.deltas, !head.terminated)
    decreases |src.lines| - k
  {
    if k == |src.lines| {
      assert src.lines[k..] == [];
    } else {
      ReadFromScanFailed(src, k + 1, parse);
      var rest := src.lines[k + 1..];
      SuffixCons(src.lines, k);
      TrimAllCons(src.lines[k], rest);
      ScanAppend([TrimSpace(src.lines[k])], TrimAll(rest), parse);
    }
  }

  lemma TrimAllCons(x: string, rest: seq<string>)
    ensures TrimAll([x] + rest) == [TrimSpace(x)] + TrimAll(rest)
  {
    assert ([x] + rest)[1..] == rest;
  }

  /** Trimming drops the newline each complete line keeps. */
  lemma {:induction false} TrimTerminated(ps: seq<string>, t: string)
    ensures TrimAll(Terminated(ps) + [t]) == TrimAll(ps + [t])
    decreases |ps|
  {
    if ps == [] {
      assert Terminated(ps) + [t] == ps + [t];
    } else {
      var x := Terminated(ps[1..]) + [t];
      var y := ps[1..] + [t];
      TrimTerminated(ps[1..], t);
      AppendAssoc([ps[0] + "\n"], Terminated(ps[1..]), [t]);
      TrimAllCons(ps[0] + "\n", x);
      TrimSpaceDropsSpace(ps[0], '\n');
      AppendHead(ps, []);
      AppendAssoc([ps[0]], ps[1..], [t]);
      assert ps + [t] == [ps[0]] + y by { assert ps == [ps[0]] + ps[1..]; }
      TrimAllCons(ps[0], y);
    }
  }

  /** The results of the reader over `data` trim to the pieces of `data`
      between its newlines. */
  lemma ReaderPieces(data: string, failed: bool)
    ensures var src := ReaderOf(data, failed); TrimAll(src.lines + [src.tail]) == Pieces(data)
  {
    var ps := Split(data, '\n');
    TrimTerminated(ps[..|ps| - 1], ps[|ps| - 1]);
    assert ps[..|ps| - 1] + [ps[|ps| - 1]] == ps;
    assert ReaderOf(data, failed).lines[0..] == ReaderOf(data, failed).lines;
  }

  /** parseStreamResponseStream over a body of bytes: with EOF, the scan of its
      trimmed pieces; with a read error, the scan of all pieces but the last. */
  lemma StreamOverBytes(data: string, failed: bool, parse: Parser)
    ensures var ls := Pieces(data);
      !failed ==> ReadFrom(ReaderOf(data, failed), 0, parse) == ReadOutcome(Scan(ls, parse).deltas, false)
    ensures var ls := Pieces(data); var head := Scan(ls[..|ls| - 1], parse);
      failed ==> ReadFrom(ReaderOf(data, failed), 0, parse) == ReadOutcome(head.deltas, !head.terminated)
  {
    var src := ReaderOf(data, failed);
    ReaderPieces(data, failed);
    assert src.lines[0..] == src.lines;
    if failed {
      ReadFromScanFailed(src, 0, parse);
    } else {
      ReadFromScanEof(src, 0, parse);
    }
    var ls := TrimAll(src.lines + [src.tail]);
    TrimAllPrefix(src.lines, src.tail);
  }

  /** Trimming commutes with dropping the last line. */
  lemma {:induction false} TrimAllPrefix(ls: seq<string>, t: string)
    ensures TrimAll(ls + [t])[..|ls|] == TrimAll(ls)
    decreases |ls|
  {
    if ls != [] {
      TrimAllPrefix(ls[1..], t);
      assert (ls + [t])[1..] == ls[1..] + [t];
    }
  }

  /** The trimmed lines of `rest`, split at its first newline at `k`;
      `after` is the text that follows that newline. */
  lemma PiecesAtNewline(rest: string, k: nat, after: string)
    requires k < |rest| && rest[k] == '\n' && '\n' !in rest[..k]
    requires after == rest[k + 1..]
    ensures Pieces(rest) == [TrimSpace(rest[..k + 1])] + Pieces(after)
  {
    SplitFirst(rest, '\n', k);
    assert rest[..k + 1] == rest[..k] + ['\n'];
    TrimSpaceDropsSpace(rest[..k], '\n');
    var sp := Split(after, '\n');
    assert ([rest[..k]] + sp)[1..] == sp;
  }

  lemma PiecesNoNewline(rest: string)
    requires '\n' !in rest
    ensures Pieces(rest) == [TrimSpace(rest)]
  {
    SplitFree(rest, '\n');
    assert [rest][1..] == [];
  }

  /** The scan of a single line, case by case as the decoders test it. */
  lemma ScanOne(line: string, parse: Parser)
    ensures !HasPrefix(line, DataPrefix) ==> Scan([line], parse) == Scanned([], false)
    ensures HasPrefix(line, DataPrefix) && line[|DataPrefix|..] == DoneSentinel ==> Scan([line], parse) == Scanned([], true)
    ensures HasPrefix(line, DataPrefix) && line[|DataPrefix|..] != DoneSentinel ==>
      match parse(line[|DataPrefix|..])
        case None => Scan([line], parse) == Scanned([], false)
        case Some(c) => Scan([line], parse) == Scanned(Emitted(c), c.done)
  {
    assert [line][1..] == [];
  }

  /** The body of the decoding loop for one trimmed line: the content it
      appends (empty when none) and whether it stops the stream. */
  method DecodeLine(line: string, parse: Parser) returns (delta: string, stop: bool)
    ensures Scan([line], parse) == Scanned(if delta == "" then [] else [delta], stop)
  {
    ScanOne(line, parse);
    delta, stop := "", false;
    if HasPrefix(line, DataPrefix) {
      var data := line[|DataPrefix|..];
      if data == DoneSentinel {
        stop := true;
      } else {
        var chunk := parse(data);
        if chunk.Some? {
          var c := chunk.value;
          if c.kind == CompletionType && c.deltaContent != "" {
            delta := c.deltaContent;
          }
          stop := c.done;
        }
      }
    }
  }

  /** A non-empty delta is passed to `onDelta` and appended to the response. */
  method Deliver(calls: seq<string>, response: string, delta: string) returns (calls2: seq<string>, response2: string)
    requires response == Concat(calls)
    ensures calls2 == calls + (if delta == "" then [] else [delta])
    ensures response2 == Concat(calls2)
  {
    calls2, response2 := calls, response;
    if delta != "" {
      ConcatSnoc(calls, delta);
      calls2 := calls + [delta];
      response2 := response + delta;
    } else {
      assert calls + [] == calls;
    }
  }

  /** Client.parseStreamResponseStream. `calls` are the arguments `onDelta`
      receives, in order. */
  method ParseStreamResponseStream(src: LineReader, parse: Parser) returns (result: Result<string, StreamError>, calls: seq<string>)
    ensures calls == ReadFrom(src, 0, parse).deltas
    ensures result == StreamDecoded(src, parse)
  {
    var response := "";
    calls := [];
    var k := 0;
    while true
      invariant k <= |src.lines|
      invariant response == Concat(calls)
      invariant ReadFrom(src, 0, parse).deltas == calls + ReadFrom(src, k, parse).deltas
      invariant ReadFrom(src, 0, parse).failed == ReadFrom(src, k, parse).failed
      decreases |src.lines| - k
    {
      if k == |src.lines| && src.failed {
        assert calls + [] == calls;
        return Failure(ReadFailed), calls;
      }
      var done;
      calls, response, done := ReadOne(src, k, parse, calls, response);
      if done {
        var cleaned := CleanResponse(response);
        return Success(cleaned), calls;
      }
      k := k + 1;
    }
  }

  /** One pass of the ReadString loop on the `k`-th result: the deltas it
      hands to `onDelta`, and whether the loop ends there with EOF or a
      terminator. */
  method ReadOne(src: LineReader, k: nat, parse: Parser, calls: seq<string>, response: string)
    returns (calls2: seq<string>, response2: string, done: bool)
    requires k <= |src.lines| && !(k == |src.lines| && src.failed)
    requires response == Concat(calls)
    ensures response2 == Concat(calls2)
    ensures done ==> calls2 == calls + ReadFrom(src, k, parse).deltas && !ReadFrom(src, k, parse).failed
    ensures !done ==> k < |src.lines|
                      && calls + ReadFrom(src, k, parse).deltas == calls2 + ReadFrom(src, k + 1, parse).deltas
                      && ReadFrom(src, k, parse).failed == ReadFrom(src, k + 1, parse).failed
  {
    var atEnd := k == |src.lines|;
    var line := if atEnd then src.tail else src.lines[k];
    var delta, stop := DecodeLine(TrimSpace(line), parse);
    ghost var emitted := if delta == "" then [] else [delta];
    ReadFromOne(src, k, parse, emitted, stop);
    calls2, response2 := Deliver(calls, response, delta);
    done := stop || atEnd;
    if !done {
      AppendAssoc(calls, emitted, ReadFrom(src, k + 1, parse).deltas);
    }
  }

  /** One result of the reader, scanned: it ends the loop when it stops the
      stream or is the final fragment; otherwise the loop goes on with the
      next result. */
  lemma ReadFromOne(src: LineReader, k: nat, parse: Parser, emitted: seq<string>, stop: bool)
    requires k <= |src.lines| && !(k == |src.lines| && src.failed)
    requires Scan([TrimSpace(if k == |src.lines| then src.tail else src.lines[k])], parse) == Scanned(emitted, stop)
    ensures stop || k == |src.lines| ==> ReadFrom(src, k, parse) == ReadOutcome(emitted, false)
    ensures !stop && k < |src.lines| ==>
              ReadFrom(src, k, parse) == ReadOutcome(emitted + ReadFrom(src, k + 1, parse).deltas, ReadFrom(src, k + 1, parse).failed)
  {
  }

  // ---------------------------------------------------------------------------
  // parseStreamResponse: raw reads into a 4096-byte buffer, each split on `\n`

  /** One reader.Read call: the bytes it returned and whether it returned an
      error other than io.EOF (EOF and nil are treated alike by the decoder). */
  datatype ReadCall = ReadCall(data: string, broken: bool)

  /** The decoder of parseStreamResponse from the `i`-th read on. Once the
      reads run out the reader keeps returning 0 bytes with io.EOF. A broken
      read fails at once, whatever it returned; a read of 0 bytes ends the
      loop; any other read is split on `\n`, each piece trimmed and scanned. */
  function ChunksFrom(input: seq<ReadCall>, i: nat, parse: Parser): ReadOutcome
    requires i <= |input|
    decreases |input| - i
  {
    if i == |input| then ReadOutcome([], false)
    else if input[i].broken then ReadOutcome([], true)
    else if input[i].data == "" then ReadOutcome([], false)
    else
      var sc := Scan(Pieces(input[i].data), parse);
      if sc.terminated then ReadOutcome(sc.deltas, false)
      else
        var more := ChunksFrom(input, i + 1, parse);
        ReadOutcome(sc.deltas + more.deltas, more.failed)
  }

  /** The value parseStreamResponse returns. */
  function ChunksDecoded(input: seq<ReadCall>, parse: Parser): Result<string, StreamError> {
    var r := ChunksFrom(input, 0, parse);
    if r.failed then Failure(ReadFailed) else Success(LegacyCleaned(Concat(r.deltas)))
  }

  lemma {:induction false} TrimAllAppend(a: seq<string>, b: seq<string>)
    ensures TrimAll(a + b) == TrimAll(a) + TrimAll(b)
    decreases |a|
  {
    if a == [] {
      AppendEmpty(b);
    } else {
      TrimAllAppend(a[1..], b);
      AppendHead(a, b);
      AppendAssoc([TrimSpace(a[0])], TrimAll(a[1..]), TrimAll(b));
    }
  }

  /** Scanning one more line of a prefix. */
  lemma ScanPrefixStep(ls: seq<string>, j: nat, parse: Parser)
    requires j < |ls|
    ensures var prev := Scan(ls[..j], parse); var one := Scan([ls[j]], parse);
      Scan(ls[..j + 1], parse) ==
        if prev.terminated then prev else Scanned(prev.deltas + one.deltas, one.terminated)
  {
    PrefixSnoc(ls, j);
    ScanAppend(ls[..j], [ls[j]], parse);
  }

  /** Lines after a terminator do not matter. */
  lemma ScanPrefixStops(ls: seq<string>, j: nat, parse: Parser)
    requires j <= |ls| && Scan(ls[..j], parse).terminated
    ensures Scan(ls, parse) == Scan(ls[..j], parse)
  {
    PrefixSuffix(ls, j);
    ScanAppend(ls[..j], ls[j..], parse);
  }

  /** The `j`-th trimmed line is the `j`-th line trimmed. */
  lemma {:induction false} TrimAllAt(ls: seq<string>, j: nat)
    requires j < |ls|
    ensures TrimAll(ls)[j] == TrimSpace(ls[j])
    decreases j
  {
    if j > 0 {
      TrimAllAt(ls[1..], j - 1);
    }
  }

  /** Each piece keeps its newline. */
  lemma {:induction false} TerminatedAt(ps: seq<string>, j: nat)
    requires j < |ps|
    ensures Terminated(ps)[j] == ps[j] + "\n"
    decreases j
  {
    if j > 0 {
      TerminatedAt(ps[1..], j - 1);
    }
  }

  /** The inner loop of parseStreamResponse over the pieces of one read:
      each is trimmed and decoded, its content appended to `response`; `stop`
      reports that the loop returned early. */
  method DecodeLines(lines: seq<string>, parse: Parser, response: string) returns (extended: string, stop: bool, ghost added: seq<string>)
    ensures Scan(TrimAll(lines), parse) == Scanned(added, stop)
    ensures extended == response + Concat(added)
  {
    ghost var ls := TrimAll(lines);
    extended, stop, added := response, false, [];
    var j := 0;
    PrefixEnds(ls);
    AppendEmpty(response);
    while j < |lines|
      invariant j <= |lines| == |ls|
      invariant extended == response + Concat(added)
      invariant Scan(ls[..j], parse) == Scanned(added, false)
    {
      var done;
      extended, added, done := DecodeAt(lines, j, parse, response, extended, added);
      if done {
        ScanPrefixStops(ls, j + 1, parse);
        return extended, true, added;
      }
      j := j + 1;
    }
  }

  /** One pass of the inner loop of parseStreamResponse, on the `j`-th piece. */
  method DecodeAt(lines: seq<string>, j: nat, parse: Parser, response: string, extended: string, ghost added: seq<string>)
    returns (extended2: string, ghost added2: seq<string>, done: bool)
    requires j < |lines|
    requires extended == response + Concat(added)
    requires Scan(TrimAll(lines)[..j], parse) == Scanned(added, false)
    ensures extended2 == response + Concat(added2)
    ensures Scan(TrimAll(lines)[..j + 1], parse) == Scanned(added2, done)
  {
    TrimAllAt(lines, j);
    ScanPrefixStep(TrimAll(lines), j, parse);
    var delta;
    delta, done := DecodeLine(TrimSpace(lines[j]), parse);
    if delta != "" {
      added2 := added + [delta];
      extended2 := extended + delta;
      ConcatSnoc(added, delta);
      AppendAssoc(response, Concat(added), delta);
    } else {
      added2 := added;
      extended2 := extended;
      AppendEmpty(added);
    }
  }

  /** Client.parseStreamResponse. The ghost `deltas` are the contents
      appended to the response, in order. */
  method ParseStreamResponse(input: seq<ReadCall>, parse: Parser) returns (result: Result<string, StreamError>, ghost deltas: seq<string>)
    ensures deltas == ChunksFrom(input, 0, parse).deltas
    ensures result == ChunksDecoded(input, parse)
  {
    var response := "";
    deltas := [];
    var i := 0;
    while true
      invariant i <= |input|
      invariant response == Concat(deltas)
      invariant ChunksFrom(input, 0, parse) ==
        ReadOutcome(deltas + ChunksFrom(input, i, parse).deltas, ChunksFrom(input, i, parse).failed)
      decreases |input| - i
    {
      var call := if i < |input| then input[i] else ReadCall("", false);
      if call.broken {
        AppendEmpty(deltas);
        return Failure(ReadFailed), deltas;
      }
      if call.data == "" {
        AppendEmpty(deltas);
        break;
      }
      ghost var before := deltas;
      var stop;
      ghost var added;
      var lines := Split(call.data, '\n');
      response, stop, added := DecodeLines(lines, parse, response);
      deltas := deltas + added;
      ConcatAppend(before, added);
      if stop {
        AppendEmpty(deltas);
        var cleaned := CleanResponse(response);
        return Success(cleaned), deltas;
      }
      AppendAssoc(before, added, ChunksFrom(input, i + 1, parse).deltas);
      i := i + 1;
    }
    var cleaned := CleanResponse(response);
    result := Success(cleaned);
  }

  /** The pieces of every read, one read after another. */
  function FlatPieces(input: seq<ReadCall>): seq<string>
    decreases |input|
  {
    if input == [] then [] else Pieces(input[0].data) + FlatPieces(input[1..])
  }

  /** With no broken and no empty read, parseStreamResponse is the line
      scanner over the pieces of the reads, one read after another: a read
      boundary acts as one more line break. */
  lemma {:induction false} ChunksScanPieces(input: seq<ReadCall>, i: nat, parse: Parser)
    requires i <= |input|
    requires forall k :: i <= k < |input| ==> !input[k].broken && input[k].data != ""
    ensures ChunksFrom(input, i, parse) == ReadOutcome(Scan(FlatPieces(input[i..]), parse).deltas, false)
    decreases |input| - i
  {
    if i == |input| {
      assert input[i..] == [];
    } else {
      ChunksScanPieces(input, i + 1, parse);
      SuffixCons(input, i);
      AppendHead([input[i]], input[i + 1..]);
      ScanAppend(Pieces(input[i].data), FlatPieces(input[i + 1..]), parse);
    }
  }
}
