/** The progressive display of `zw ask` (`streamingPrinter`): every delta of
    the answer is added to a buffer, and the whole buffer is rendered again
    and repainted over the previous frame, at most once per throttle period
    unless the delta holds a newline. Time is a parameter in milliseconds;
    the terminal is the append-only log `out` of what was written to it. */
module Printer {
  import opened Common
  import opened Text
  import opened Markdown

  /** The throttle period, 80 ms. */
  const Throttle: int := 80

  /** One write to the terminal: text, or one of the ECMA-48 controls used
      for repainting. */
  datatype Write =
    | Chars(s: string)
    | CursorUp(n: nat)   // CUU, section 8.3.22 of ECMA-48
    | LineStart          // CR
    | EraseBelow         // ED with parameter 0, section 8.3.39 of ECMA-48

  /** The bytes a write puts on the terminal. */
  function Bytes(w: Write): string {
    match w
      case Chars(s) => s
      case CursorUp(n) => "\U{1B}[" + NatToString(n) + "A"
      case LineStart => "\r"
      case EraseBelow => "\U{1B}[J"
  }

  /** The count a cursor-up write carries is the one it was made with. */
  lemma CursorUpCount(n: nat)
    ensures var b := Bytes(CursorUp(n));
            b[..2] == "\U{1B}[" && b[|b| - 1] == 'A'
            && (forall i :: 2 <= i < |b| - 1 ==> '0' <= b[i] <= '9')
            && DecimalValue(b[2..|b| - 1]) == n
  {
    var b := Bytes(CursorUp(n));
    var num := NatToString(n);
    assert b[2..|b| - 1] == num;
    DecimalRoundTrip(n);
    forall i | 2 <= i < |b| - 1
      ensures '0' <= b[i] <= '9'
    {
      assert b[i] == num[i - 2];
    }
  }

  /** The erase written before a frame: cursor up over the previous frame's
      lines, back to the line start, erase below, only when that count is
      positive. */
  function EraseAsWritten(lastLines: nat): (ws: seq<Write>)
    ensures ws == [] <==> lastLines == 0
    ensures ws != [] ==> ws[0].CursorUp? && ws[0].n == lastLines
  {
    if lastLines > 0 then [CursorUp(lastLines), LineStart, EraseBelow] else []
  }

  /** The repaint condition of onDelta: a newline in the delta, no repaint
      yet (Go's zero time is at least the throttle away from any clock
      reading), or a throttle period since the last one. */
  function ShouldRender(delta: string, now: int, lastUpdate: Option<int>): (r: bool)
    ensures r <==> '\n' in delta || lastUpdate.None? || now - lastUpdate.value >= Throttle
  {
    ContainsChar(delta, '\n');
    Contains(delta, "\n") || (match lastUpdate case None => true case Some(t) => now - t >= Throttle)
  }

  class StreamingPrinter {
    const env: RenderEnv
    var buffer: string
    var lastLines: nat
    var lastUpdate: Option<int>
    var out: seq<Write>
    /** The rendering printed last. */
    ghost var frame: string

    /** The line count kept is the count of newlines in the frame printed last. */
    ghost predicate Valid()
      reads this
    {
      lastLines == Count(frame, "\n")
    }

    /** What was written leaves exactly the frame printed last on the terminal. */
    ghost predicate OnScreen()
      reads this
    {
      Shows(ApplyAll(Start, out), frame)
    }

    /** newStreamingPrinter: an empty buffer, nothing printed, no repaint yet. */
    constructor (env: RenderEnv)
      ensures this.env == env && buffer == "" && lastLines == 0 && lastUpdate.None?
      ensures out == [] && frame == "" && Valid() && OnScreen()
    {
      this.env := env;
      buffer := "";
      lastLines := 0;
      lastUpdate := None;
      out := [];
      frame := "";
      StartShowsNothing();
    }

    /** render: the whole buffer is rendered; the previous frame is erased
        with the erase as written, from the count of its own newlines, and
        the new frame printed. The terminal then shows the new frame when
        the previous one was empty or held a newline; after a non-empty
        frame without a newline it shows the two frames run together. */
    method Render()
      requires Valid()
      modifies this
      ensures Valid() && frame == Rendered(buffer, env)
      ensures out == old(out) + EraseAsWritten(old(lastLines)) + [Chars(frame)]
      ensures old(OnScreen()) && (old(frame) == "" || old(lastLines) > 0) ==> OnScreen()
      ensures old(OnScreen()) && old(frame) != "" && old(lastLines) == 0 ==>
                Shows(ApplyAll(Start, out), old(frame) + frame) && !OnScreen()
      ensures buffer == old(buffer) && lastUpdate == old(lastUpdate)
    {
      ghost var before := out;
      ghost var prev := frame;
      ghost var shown := OnScreen();
      var content := RenderMarkdown(buffer, env);
      var lines := Count(content, "\n");
      var erase := EraseAsWritten(lastLines);
      out := out + erase + [Chars(content)];
      lastLines := lines;
      frame := content;
      if shown {
        RepaintAsWrittenAfter(before, prev, content);
      }
    }

    /** onDelta: the delta always joins the buffer; a repaint happens, and
        the time is noted, exactly when ShouldRender holds. */
    method OnDelta(delta: string, now: int)
      requires Valid()
      modifies this
      ensures Valid() && buffer == old(buffer) + delta
      ensures ShouldRender(delta, now, old(lastUpdate)) ==>
                lastUpdate == Some(now) && frame == Rendered(buffer, env)
                && out == old(out) + EraseAsWritten(old(lastLines)) + [Chars(frame)]
                && (old(OnScreen()) && (old(frame) == "" || old(lastLines) > 0) ==> OnScreen())
                && (old(OnScreen()) && old(frame) != "" && old(lastLines) == 0 ==> !OnScreen())
      ensures !ShouldRender(delta, now, old(lastUpdate)) ==>
                lastUpdate == old(lastUpdate) && out == old(out) && frame == old(frame)
                && lastLines == old(lastLines)
    {
      buffer := buffer + delta;
      if ShouldRender(delta, now, lastUpdate) {
        Render();
        lastUpdate := Some(now);
      }
    }

    /** flush: a repaint whatever the throttle, then one newline; when the
        repaint showed the final frame, the terminal shows it with an empty
        line below it. */
    method Flush()
      requires Valid()
      modifies this
      ensures Valid() && frame == Rendered(buffer, env)
      ensures out == old(out) + EraseAsWritten(old(lastLines)) + [Chars(frame), Chars("\n")]
      ensures old(OnScreen()) && (old(frame) == "" || old(lastLines) > 0) ==>
                Shows(ApplyAll(Start, out), frame + "\n")
      ensures buffer == old(buffer) && lastUpdate == old(lastUpdate)
    {
      Render();
      ghost var shown := out;
      ghost var onScreen := OnScreen();
      out := out + [Chars("\n")];
      ApplyAllAppend(Start, shown, [Chars("\n")]);
      ApplyOne(ApplyAll(Start, shown), Chars("\n"));
      if onScreen {
        PrintShows(ApplyAll(Start, shown), frame, "\n");
      }
    }
  }

  // ---------------------------------------------------------------------
  // What the writes leave on an (unbounded-width) terminal

  /** The printer's region of the terminal: its rows and the cursor. Every
      character other than the newline takes one cell. */
  datatype Screen = Screen(rows: seq<string>, row: nat, col: nat)

  predicate Ok(sc: Screen) {
    sc.row < |sc.rows|
  }

  /** The region before anything is printed: one empty row. */
  const Start: Screen := Screen([""], 0, 0)

  /** A character written at the cursor: a newline moves to the start of the
      next row, any other character overwrites its cell and advances. */
  function Put(sc: Screen, ch: char): (r: Screen)
    requires Ok(sc)
    ensures Ok(r)
  {
    if ch == '\n' then
      Screen(if sc.row + 1 == |sc.rows| then sc.rows + [""] else sc.rows, sc.row + 1, 0)
    else
      Screen(sc.rows[sc.row := Overwrite(sc.rows[sc.row], sc.col, ch)], sc.row, sc.col + 1)
  }

  function Overwrite(line: string, col: nat, ch: char): string {
    if col < |line| then line[col := ch] else line + Repeat(" ", col - |line|) + [ch]
  }

  function Print(sc: Screen, s: string): (r: Screen)
    requires Ok(sc)
    ensures Ok(r)
    decreases |s|
  {
    if s == [] then sc else Print(Put(sc, s[0]), s[1..])
  }

  function Apply(sc: Screen, w: Write): (r: Screen)
    requires Ok(sc)
    ensures Ok(r)
  {
    match w
      case Chars(s) => Print(sc, s)
      case CursorUp(n) => Screen(sc.rows, if sc.row >= n then sc.row - n else 0, sc.col)
      case LineStart => Screen(sc.rows, sc.row, 0)
      case EraseBelow =>
        var line := sc.rows[sc.row];
        Screen(sc.rows[..sc.row] + [if sc.col <= |line| then line[..sc.col] else line], sc.row, sc.col)
  }

  function ApplyAll(sc: Screen, ws: seq<Write>): (r: Screen)
    requires Ok(sc)
    ensures Ok(r)
    decreases |ws|
  {
    if ws == [] then sc else ApplyAll(Apply(sc, ws[0]), ws[1..])
  }

  /** The region shows exactly the lines of `frame`, the cursor just after it. */
  predicate Shows(sc: Screen, frame: string) {
    var ls := Split(frame, '\n');
    sc == Screen(ls, |ls| - 1, |ls[|ls| - 1]|)
  }

  lemma StartShowsNothing()
    ensures Shows(Start, "")
  {
    assert Split("", '\n') == [""];
  }

  lemma {:induction false} ApplyAllAppend(sc: Screen, xs: seq<Write>, ys: seq<Write>)
    requires Ok(sc)
    ensures ApplyAll(sc, xs + ys) == ApplyAll(ApplyAll(sc, xs), ys)
    decreases |xs|
  {
    if xs == [] {
      assert xs + ys == ys;
    } else {
      assert (xs + ys)[0] == xs[0] && (xs + ys)[1..] == xs[1..] + ys;
      ApplyAllAppend(Apply(sc, xs[0]), xs[1..], ys);
    }
  }

  /** Printing after a frame shows the frame extended by what was printed. */
  lemma PutShows(sc: Screen, a: string, ch: char)
    requires Shows(sc, a)
    ensures Ok(sc) && Shows(Put(sc, ch), a + [ch])
  {
    var ls := Split(a, '\n');
    if ch == '\n' {
      SplitSnocSep(a, '\n');
    } else {
      SplitSnocChar(a, '\n', ch);
      var last := ls[|ls| - 1];
      assert Overwrite(last, |last|, ch) == last + [ch];
      assert ls[|ls| - 1 := last + [ch]] == ExtendLast(ls, ch);
    }
  }

  lemma {:induction false} PrintShows(sc: Screen, a: string, s: string)
    requires Shows(sc, a)
    ensures Ok(sc) && Shows(Print(sc, s), a + s)
    decreases |s|
  {
    if s == [] {
      assert a + s == a;
    } else {
      PutShows(sc, a, s[0]);
      PrintShows(Put(sc, s[0]), a + [s[0]], s[1..]);
      assert a + [s[0]] + s[1..] == a + s;
    }
  }

  /** The erase the printer evidently intends: back to the start of the
      previous frame whenever that frame is not empty, also when it has no
      newline. */
  function EraseCorrected(lastLines: nat, lastBlank: bool): (ws: seq<Write>)
    ensures ws == [] <==> lastLines == 0 && lastBlank
  {
    (if lastLines > 0 then [CursorUp(lastLines)] else [])
    + (if lastLines > 0 || !lastBlank then [LineStart, EraseBelow] else [])
  }

  lemma ApplyOne(sc: Screen, w: Write)
    requires Ok(sc)
    ensures ApplyAll(sc, [w]) == Apply(sc, w)
  {
    assert [w][1..] == [];
  }

  /** The erase as written and the corrected one agree whenever the previous
      frame spans more than one row. */
  lemma EraseAgreesOnRows(lastLines: nat, lastBlank: bool)
    requires lastLines > 0
    ensures EraseAsWritten(lastLines) == EraseCorrected(lastLines, lastBlank)
  {
  }

  lemma ApplyTwo(sc: Screen, v: Write, w: Write)
    requires Ok(sc)
    ensures ApplyAll(sc, [v, w]) == Apply(Apply(sc, v), w)
  {
    assert [v, w][1..] == [w];
    assert [w][1..] == [];
    var u := Apply(sc, v);
    assert ApplyAll(u, [w]) == ApplyAll(Apply(u, w), []);
  }

  /** The number of rows a frame occupies, less one, is its newline count. */
  lemma RowsOfFrame(frame: string)
    ensures |Split(frame, '\n')| - 1 == Count(frame, "\n")
  {
    SplitCount(frame, '\n');
    CountSingle(frame, '\n');
  }

  /** With the corrected erase, every repaint leaves exactly the new frame
      on screen, whatever the previous one was. */
  lemma RepaintShowsFrame(sc: Screen, prev: string, next: string)
    requires Shows(sc, prev)
    ensures Ok(sc)
    ensures Shows(ApplyAll(sc, EraseCorrected(Count(prev, "\n"), prev == "") + [Chars(next)]), next)
  {
    RowsOfFrame(prev);
    if prev == "" {
      assert Split(prev, '\n') == [""];
    }
    var erase := EraseCorrected(Count(prev, "\n"), prev == "");
    EraseClears(sc, Count(prev, "\n"), prev == "");
    ApplyAllAppend(sc, erase, [Chars(next)]);
    ApplyOne(Start, Chars(next));
    StartShowsNothing();
    PrintShows(Start, "", next);
    assert "" + next == next;
  }

  /** Back at the top row, returning to its start and erasing below leaves
      the region empty. */
  lemma ClearFromTop(sc: Screen)
    requires Ok(sc) && sc.row == 0
    ensures ApplyAll(sc, [LineStart, EraseBelow]) == Start
  {
    ApplyTwo(sc, LineStart, EraseBelow);
    var atStart := Screen(sc.rows, 0, 0);
    assert Apply(sc, LineStart) == atStart;
    assert sc.rows[..0] + [sc.rows[0][..0]] == [""];
  }

  /** From the end of a frame of `n + 1` rows the corrected erase clears the
      region. */
  lemma EraseClears(sc: Screen, n: nat, blank: bool)
    requires Ok(sc) && sc.row == n
    requires n == 0 && blank ==> sc == Start
    ensures ApplyAll(sc, EraseCorrected(n, blank)) == Start
  {
    if n == 0 && !blank {
      assert EraseCorrected(n, blank) == [LineStart, EraseBelow];
      ClearFromTop(sc);
    } else if n > 0 {
      var up := Apply(sc, CursorUp(n));
      var rest: seq<Write> := [LineStart, EraseBelow];
      assert EraseCorrected(n, blank) == [CursorUp(n)] + rest;
      assert ([CursorUp(n)] + rest)[0] == CursorUp(n) && ([CursorUp(n)] + rest)[1..] == rest;
      ClearFromTop(up);
    }
  }

  /** A repaint with the erase as written shows the new frame when the
      previous one was empty or held a newline, since the two erases then
      agree. */
  lemma RepaintAsWritten(sc: Screen, prev: string, next: string)
    requires Shows(sc, prev) && (prev == "" || Count(prev, "\n") > 0)
    ensures Ok(sc)
    ensures Shows(ApplyAll(sc, EraseAsWritten(Count(prev, "\n")) + [Chars(next)]), next)
  {
    var n := Count(prev, "\n");
    if n > 0 {
      EraseAgreesOnRows(n, prev == "");
    } else {
      assert EraseAsWritten(n) == EraseCorrected(n, prev == "");
    }
    RepaintShowsFrame(sc, prev, next);
  }

  /** After a frame without a newline the erase as written writes nothing,
      and the next frame is printed on after the previous one. */
  lemma RepaintAfterOneLine(sc: Screen, prev: string, next: string)
    requires Shows(sc, prev) && Count(prev, "\n") == 0
    ensures Ok(sc)
    ensures Shows(ApplyAll(sc, EraseAsWritten(Count(prev, "\n")) + [Chars(next)]), prev + next)
  {
    assert EraseAsWritten(Count(prev, "\n")) + [Chars(next)] == [Chars(next)];
    ApplyOne(sc, Chars(next));
    PrintShows(sc, prev, next);
  }

  /** A screen shows at most one frame. */
  lemma ShowsUnique(sc: Screen, a: string, b: string)
    ensures Shows(sc, a) && Shows(sc, b) ==> a == b
  {
    JoinSplit(a, '\n');
    JoinSplit(b, '\n');
  }

  /** The repaint as written, appended to everything written so far: the new
      frame is shown when the previous one was empty or held a newline, and
      otherwise the two frames run together and the new one alone is not
      shown. */
  lemma RepaintAsWrittenAfter(before: seq<Write>, prev: string, next: string)
    requires Shows(ApplyAll(Start, before), prev)
    ensures var sc := ApplyAll(Start, before + EraseAsWritten(Count(prev, "\n")) + [Chars(next)]);
            (prev == "" || Count(prev, "\n") > 0 ==> Shows(sc, next))
            && (prev != "" && Count(prev, "\n") == 0 ==> Shows(sc, prev + next) && !Shows(sc, next))
  {
    var erase := EraseAsWritten(Count(prev, "\n"));
    var sc := ApplyAll(Start, before + erase + [Chars(next)]);
    assert before + erase + [Chars(next)] == before + (erase + [Chars(next)]);
    ApplyAllAppend(Start, before, erase + [Chars(next)]);
    if prev == "" || Count(prev, "\n") > 0 {
      RepaintAsWritten(ApplyAll(Start, before), prev, next);
    } else {
      RepaintAfterOneLine(ApplyAll(Start, before), prev, next);
      ShowsUnique(sc, prev + next, next);
      assert |prev + next| > |next|;
    }
  }

  /** As written, a previous frame without a newline is not erased: after
      the frame "a", repainting "ab" leaves "aab" on the line. */
  lemma AsWrittenKeepsOneLineFrame()
    ensures var sc := ApplyAll(Start, [Chars("a")] + EraseAsWritten(Count("a", "\n")) + [Chars("ab")]);
            sc.rows == ["aab"] && !Shows(sc, "ab")
  {
    NoEraseAfterA();
    var ws := [Chars("a")] + EraseAsWritten(Count("a", "\n")) + [Chars("ab")];
    assert ws == [Chars("a"), Chars("ab")];
    PrintFrameA();
    PrintOverA();
    ApplyTwo(Start, Chars("a"), Chars("ab"));
  }

  lemma NoEraseAfterA()
    ensures EraseAsWritten(Count("a", "\n")) == []
  {
    assert "a"[..1] == "a" && "a"[1..] == "";
    assert Count("", "\n") == 0;
    assert Count("a", "\n") == 0;
  }

  lemma PrintFrameA()
    ensures Print(Start, "a") == Screen(["a"], 0, 1)
  {
    assert Overwrite("", 0, 'a') == "a";
    assert Put(Start, 'a') == Screen(["a"], 0, 1);
    assert "a"[1..] == "";
  }

  lemma PrintOverA()
    ensures Print(Screen(["a"], 0, 1), "ab") == Screen(["aab"], 0, 3)
  {
    assert Overwrite("a", 1, 'a') == "aa" && Overwrite("aa", 2, 'b') == "aab";
    assert Put(Screen(["a"], 0, 1), 'a') == Screen(["aa"], 0, 2);
    assert Put(Screen(["aa"], 0, 2), 'b') == Screen(["aab"], 0, 3);
    assert "ab"[1..] == "b" && "b"[1..] == "";
  }
}
