/** The `zw commit` command, without git and the AI call: parsing the
    model's answer into a commit option, the language whitelist, the commit
    message and its confirmation, and the text summary of the staged changes
    that is sent to the model. */
module Commit {
  import opened Common
  import opened Text

  // ---------------------------------------------------------------------
  // Commit options

  datatype CommitOption = CommitOption(title: string, description: string)

  /** The trimmed lines that are not empty, in order. */
  function Kept(lines: seq<string>): (r: seq<string>)
    ensures |r| <= |lines|
    decreases |lines|
  {
    if lines == [] then []
    else
      var line := TrimSpace(lines[|lines| - 1]);
      Kept(lines[..|lines| - 1]) + (if line == "" then [] else [line])
  }

  /** parseCommitOptions, on the lines of the answer: no option when no line
      has text, else one whose title is the first such line and whose
      description is the others, joined by single newlines. */
  function OptionsOf(lines: seq<string>): (r: seq<CommitOption>)
    ensures |r| <= 1
  {
    var k := Kept(lines);
    if k == [] then [] else [CommitOption(k[0], Join(k[1..], "\n"))]
  }

  method ParseCommitOptions(response: string) returns (options: seq<CommitOption>)
    ensures options == OptionsOf(Split(response, '\n'))
  {
    options := OptionsOfLines(Split(response, '\n'));
  }

  /** The loop of parseCommitOptions: the first line with text becomes the
      title, each later one is added to the description after a newline
      once the description is not empty. */
  method OptionsOfLines(lines: seq<string>) returns (options: seq<CommitOption>)
    ensures options == OptionsOf(lines)
  {
    var title := "";
    var description := "";
    ghost var k: seq<string> := [];
    for i := 0 to |lines|
      invariant k == Kept(lines[..i])
      invariant Parsed(title, description, k)
    {
      var line := TrimSpace(lines[i]);
      KeptStep(lines, i, line);
      if line == "" {
        continue;
      }
      title, description := AddLine(title, description, line, k);
      k := k + [line];
    }
    assert lines[..|lines|] == lines;
    if title != "" {
      options := [CommitOption(title, description)];
    } else {
      options := [];
    }
  }

  /** One line with text: the title when there is none yet, else the next
      description line. */
  method AddLine(title: string, description: string, line: string, ghost k: seq<string>)
    returns (title': string, description': string)
    requires Parsed(title, description, k) && line != ""
    ensures Parsed(title', description', k + [line])
  {
    title', description' := title, description;
    if title == "" {
      ParsedFirst(title, description, k, line);
      title' := line;
    } else {
      ParsedStep(title, description, k, line);
      if description != "" {
        description' := description + "\n";
      }
      description' := description' + line;
    }
  }

  /** The title and description built so far from the kept lines `k`. */
  ghost predicate Parsed(title: string, description: string, k: seq<string>) {
    (k == [] ==> title == "" && description == "")
    && (k != [] ==> title == k[0] && title != "" && description == Join(k[1..], "\n"))
    && (description == "" <==> |k| <= 1)
  }

  lemma KeptStep(lines: seq<string>, i: nat, line: string)
    requires i < |lines| && line == TrimSpace(lines[i])
    ensures Kept(lines[..i + 1]) == Kept(lines[..i]) + (if line == "" then [] else [line])
  {
    assert lines[..i + 1][..i] == lines[..i];
  }

  lemma ParsedFirst(title: string, description: string, k: seq<string>, line: string)
    requires Parsed(title, description, k) && title == "" && line != ""
    ensures Parsed(line, description, k + [line])
  {
    assert [line][1..] == [];
  }

  lemma ParsedStep(title: string, description: string, k: seq<string>, line: string)
    requires Parsed(title, description, k) && title != "" && line != ""
    ensures Parsed(title, (if description != "" then description + "\n" else description) + line, k + [line])
  {
    assert (k + [line])[1..] == k[1..] + [line];
    JoinSnoc(k[1..], line, "\n");
  }

  /** No option is produced exactly when every line is white space. */
  lemma {:induction false} KeptEmpty(lines: seq<string>)
    ensures Kept(lines) == [] <==> forall j :: 0 <= j < |lines| ==> AllSpace(lines[j])
    decreases |lines|
  {
    if lines != [] {
      var init := lines[..|lines| - 1];
      KeptEmpty(init);
      assert forall j :: 0 <= j < |init| ==> init[j] == lines[j];
    }
  }

  /** The title is the first line with text, trimmed. */
  lemma {:induction false} TitleIsFirstLine(lines: seq<string>, j: nat)
    requires j < |lines| && !AllSpace(lines[j])
    requires forall i :: 0 <= i < j ==> AllSpace(lines[i])
    ensures Kept(lines) != [] && Kept(lines)[0] == TrimSpace(lines[j])
    decreases |lines|
  {
    var init := lines[..|lines| - 1];
    if j < |init| {
      var line := TrimSpace(lines[|lines| - 1]);
      var tail := if line == "" then [] else [line];
      assert Kept(lines) == Kept(init) + tail;
      assert init[j] == lines[j];
      forall i | 0 <= i < j ensures AllSpace(init[i]) {
        assert init[i] == lines[i];
      }
      TitleIsFirstLine(init, j);
      assert (Kept(init) + tail)[0] == Kept(init)[0];
    } else {
      TitleOnLastLine(lines);
    }
  }

  /** When only the last line has text, it is the title. */
  lemma TitleOnLastLine(lines: seq<string>)
    requires lines != [] && !AllSpace(lines[|lines| - 1])
    requires forall i :: 0 <= i < |lines| - 1 ==> AllSpace(lines[i])
    ensures Kept(lines) != [] && Kept(lines)[0] == TrimSpace(lines[|lines| - 1])
  {
    var init := lines[..|lines| - 1];
    forall i | 0 <= i < |init| ensures AllSpace(init[i]) {
      assert init[i] == lines[i];
    }
    KeptEmpty(init);
    var line := TrimSpace(lines[|lines| - 1]);
    assert line != "";
    assert Kept(lines) == Kept(init) + [line];
  }

  /** A kept line of a split answer: text without a newline, neither
      starting nor ending with white space. */
  predicate KeptLine(x: string) {
    x != "" && '\n' !in x && !IsSpace(x[0]) && !IsSpace(x[|x| - 1])
  }

  lemma TrimmedLine(x: string)
    requires '\n' !in x && TrimSpace(x) != ""
    ensures KeptLine(TrimSpace(x))
  {
    TrimSpaceFree(x, '\n');
  }

  lemma {:induction false} KeptFree(lines: seq<string>)
    requires forall j :: 0 <= j < |lines| ==> '\n' !in lines[j]
    ensures forall k :: 0 <= k < |Kept(lines)| ==> KeptLine(Kept(lines)[k])
    decreases |lines|
  {
    if lines != [] {
      var init := lines[..|lines| - 1];
      var last := lines[|lines| - 1];
      assert forall j :: 0 <= j < |init| ==> '\n' !in init[j] by {
        forall j | 0 <= j < |init| ensures '\n' !in init[j] { assert init[j] == lines[j]; }
      }
      KeptFree(init);
      var t := TrimSpace(last);
      if t != "" {
        TrimmedLine(last);
        assert Kept(lines) == Kept(init) + [t];
      } else {
        assert Kept(lines) == Kept(init);
      }
    }
  }

  /** The description of the option is its lines joined: splitting it at the
      newlines gives back the second and later lines with text, and it
      neither starts nor ends with a newline. */
  lemma DescriptionLines(response: string)
    requires OptionsOf(Split(response, '\n')) != []
    ensures var o := OptionsOf(Split(response, '\n'))[0];
            var k := Kept(Split(response, '\n'));
            (o.description == "" <==> |k| == 1)
            && (o.description != "" ==>
                  Split(o.description, '\n') == k[1..]
                  && o.description[0] != '\n' && o.description[|o.description| - 1] != '\n')
  {
    var lines := Split(response, '\n');
    var k := Kept(lines);
    SplitPiecesFree(response, '\n');
    KeptFree(lines);
    var d := Join(k[1..], "\n");
    if |k| > 1 {
      SplitJoin(k[1..], '\n');
      JoinEnds(k[1..], '\n');
    }
  }

  /** A join of non-empty pieces, none starting or ending with the
      separator, neither starts nor ends with it. */
  lemma {:induction false} JoinEnds(parts: seq<string>, c: char)
    requires |parts| >= 1
    requires forall k :: 0 <= k < |parts| ==> parts[k] != "" && parts[k][0] != c && parts[k][|parts[k]| - 1] != c
    ensures var j := Join(parts, [c]); j != [] && j[0] != c && j[|j| - 1] != c
    decreases |parts|
  {
    if |parts| > 1 {
      JoinEnds(parts[1..], c);
    }
  }

  // ---------------------------------------------------------------------
  // Language

  const ValidLanguages: seq<string> := ["ru", "en", "uk", "kz"]

  /** isValidLanguage: a walk over the whitelist with an early return. */
  method IsValidLanguage(lang: string) returns (b: bool)
    ensures b <==> lang in ValidLanguages
  {
    for i := 0 to |ValidLanguages|
      invariant forall k :: 0 <= k < i ==> ValidLanguages[k] != lang
    {
      if lang == ValidLanguages[i] {
        return true;
      }
    }
    return false;
  }

  const Russian: string := "Генерируй коммиты на русском языке. Используй русские слова для описания изменений."
  const English: string := "Generate commits in English. Use clear and concise English descriptions."
  const Ukrainian: string := "Генеруй коміти українською мовою. Використовуй українські слова для опису змін."
  const Kazakh: string := "Коммиттерді қазақ тілінде жасаңыз. Өзгерістерді сипаттау үшін қазақ сөздерін пайдаланыңыз."
  const DefaultInstructions: string := "Generate commits in Russian. Use Russian words for describing changes."

  /** getLanguageInstructions: the prompt line for each whitelisted language,
      and the Russian-in-English default for anything else. */
  function LanguageInstructions(lang: string): (r: string)
    ensures lang !in ValidLanguages ==> r == DefaultInstructions
    ensures lang in ValidLanguages ==> r != DefaultInstructions
  {
    if lang == "ru" then Russian
    else if lang == "en" then English
    else if lang == "uk" then Ukrainian
    else if lang == "kz" then Kazakh
    else DefaultInstructions
  }

  // ---------------------------------------------------------------------
  // Commit message and confirmation

  /** The commit message: the title, and the description after a blank line
      when there is one. */
  function CommitMessage(o: CommitOption): string {
    o.title + (if o.description != "" then "\n\n" + o.description else "")
  }

  /** A commit message read back: its first line is the title, and what
      follows the blank line after it is the description. */
  function ReadMessage(msg: string): CommitOption {
    match IndexOfCharFrom(msg, '\n', 0)
      case None => CommitOption(msg, "")
      case Some(k) => CommitOption(msg[..k], if IsAt(msg, "\n\n", k) then msg[k + 2..] else msg[k + 1..])
  }

  /** A title without a newline makes the message readable back into the option. */
  lemma MessageRoundTrip(o: CommitOption)
    requires '\n' !in o.title
    ensures ReadMessage(CommitMessage(o)) == o
  {
    var msg := CommitMessage(o);
    var t := |o.title|;
    assert msg[..t] == o.title;
    if o.description == "" {
      assert msg == o.title;
    } else {
      assert msg[t] == '\n';
      IndexOfCharFromAt(msg, '\n', 0, t);
      assert msg[t..t + 2] == "\n\n";
      assert msg[t + 2..] == o.description;
    }
  }

  predicate IsYes(a: string) {
    a == "y" || a == "yes"
  }

  /** The answer as compared: lower-cased, then trimmed. */
  function Normalized(answer: string): string {
    TrimSpace(ToLower(answer))
  }

  /** The commit goes ahead when the normalized answer is y or yes. */
  predicate Confirmed(answer: string) {
    IsYes(Normalized(answer))
  }

  /** Trimming first and lower-casing after gives the same answer, and
      trimming the answer beforehand changes nothing. */
  lemma NormalizedTrimmed(answer: string)
    ensures Normalized(answer) == ToLower(TrimSpace(answer))
    ensures Normalized(TrimSpace(answer)) == Normalized(answer)
  {
    var t := TrimSpace(answer);
    TrimSpaceLower(answer);
    TrimSpaceLower(t);
    TrimSpaceIdempotent(answer);
  }

  /** Only the trimmed answer matters, in any letter case. */
  lemma ConfirmedTrimmed(answer: string)
    ensures Confirmed(answer) == Confirmed(TrimSpace(answer))
  {
    NormalizedTrimmed(answer);
  }

  /** Accepted answers are exactly those whose trimmed text is y or yes in
      any letter case. */
  lemma ConfirmedAnswers(answer: string)
    ensures Confirmed(answer) == IsYes(ToLower(TrimSpace(answer)))
  {
    NormalizedTrimmed(answer);
  }

  // ---------------------------------------------------------------------
  // The staged-changes summary

  /** The staging codes of go-git's worktree status. */
  datatype StatusCode = Unmodified | Untracked | Modified | Added | Deleted | Renamed | Copied | UpdatedButUnmerged

  /** getStagingStatus: the label of a staging code. */
  function StagingStatus(code: StatusCode): (r: string)
    ensures r == "Unknown" <==> code in {Unmodified, Untracked, UpdatedButUnmerged}
  {
    match code
      case Added => "Added"
      case Modified => "Modified"
      case Deleted => "Deleted"
      case Renamed => "Renamed"
      case Copied => "Copied"
      case _ => "Unknown"
  }

  /** The most changes listed for a modified file. */
  const MaxChanges: nat := 20

  /** The most lines listed for a new file. */
  const MaxNewLines: nat := 15

  /** A line of the staged file that differs from the same line of the HEAD
      file, or lies past the end of the HEAD file (numbered from 1). */
  datatype Change = Changed(line: nat, was: string, now: string) | AddedLine(line: nat, now: string)

  function ChangeText(c: Change): string {
    match c
      case Changed(n, was, now) => "-" + NatToString(n) + ": " + was + "\n" + "+" + NatToString(n) + ": " + now + "\n"
      case AddedLine(n, now) => "+" + NatToString(n) + ": " + now + "\n"
  }

  function ChangesText(cs: seq<Change>): string
    decreases |cs|
  {
    if cs == [] then "" else ChangesText(cs[..|cs| - 1]) + ChangeText(cs[|cs| - 1])
  }

  /** The changes the diff loop reports from line index `i` on, with
      `budget` changes still allowed: each is a real change, in line order;
      lines dropped from the end of the HEAD file are never among them. */
  function Changes(before: seq<string>, after: seq<string>, i: nat, budget: nat): (r: seq<Change>)
    ensures |r| <= budget
    decreases |after| - i
  {
    if i >= |after| || budget == 0 then []
    else
      match ChangeAt(before, after, i)
        case None => Changes(before, after, i + 1, budget)
        case Some(c) => [c] + Changes(before, after, i + 1, budget - 1)
  }

  /** The change at line index `i`, if that line counts as one. */
  function ChangeAt(before: seq<string>, after: seq<string>, i: nat): Option<Change>
    requires i < |after|
  {
    if i < |before| then
      if before[i] != after[i] then Some(Changed(i + 1, before[i], after[i])) else None
    else Some(AddedLine(i + 1, after[i]))
  }

  /** A change past index `i` that is real: its new text is that staged
      line, a changed line differs from the HEAD line it replaces, and an
      added line lies past the end of the HEAD file. */
  predicate Reported(before: seq<string>, after: seq<string>, i: nat, c: Change) {
    && i < c.line <= |after| && c.now == after[c.line - 1]
    && (c.Changed? ==> c.line <= |before| && c.was == before[c.line - 1] && c.was != c.now)
    && (c.AddedLine? ==> c.line > |before|)
  }

  predicate InLineOrder(cs: seq<Change>) {
    forall k, m :: 0 <= k < m < |cs| ==> cs[k].line < cs[m].line
  }

  /** Every reported change is real, in line order, past `i`; in particular
      lines dropped from the end of the HEAD file are never reported. */
  lemma {:induction false} ChangesSound(before: seq<string>, after: seq<string>, i: nat, budget: nat)
    ensures forall c <- Changes(before, after, i, budget) :: Reported(before, after, i, c)
    ensures InLineOrder(Changes(before, after, i, budget))
    decreases |after| - i
  {
    if i < |after| && budget > 0 {
      if i < |before| && before[i] == after[i] {
        ChangesSound(before, after, i + 1, budget);
        ReportedLater(before, after, i, Changes(before, after, i + 1, budget));
      } else {
        var rest := Changes(before, after, i + 1, budget - 1);
        ChangesSound(before, after, i + 1, budget - 1);
        ReportedLater(before, after, i, rest);
        var c := if i < |before| then Changed(i + 1, before[i], after[i]) else AddedLine(i + 1, after[i]);
        assert Changes(before, after, i, budget) == [c] + rest;
        assert Reported(before, after, i, c);
        ConsInOrder(c, rest, i);
      }
    }
  }

  lemma ReportedLater(before: seq<string>, after: seq<string>, i: nat, cs: seq<Change>)
    requires forall c <- cs :: Reported(before, after, i + 1, c)
    ensures forall c <- cs :: Reported(before, after, i, c) && c.line > i + 1
  {
  }

  lemma ConsInOrder(c: Change, cs: seq<Change>, i: nat)
    requires c.line == i + 1 && InLineOrder(cs)
    requires forall d <- cs :: d.line > i + 1
    ensures InLineOrder([c] + cs)
  {
    var r := [c] + cs;
    forall k, m | 0 <= k < m < |r|
      ensures r[k].line < r[m].line
    {
      assert r[m] == cs[m - 1] && r[m] in cs;
      if k > 0 {
        assert r[k] == cs[k - 1];
      }
    }
  }

  /** A changed or added line at index `j` is reported unless the budget
      ran out first. */
  lemma {:induction false} ChangesComplete(before: seq<string>, after: seq<string>, i: nat, budget: nat, j: nat)
    requires i <= j < |after| && (j >= |before| || before[j] != after[j])
    requires |Changes(before, after, i, budget)| < budget
    ensures exists k :: 0 <= k < |Changes(before, after, i, budget)| && Changes(before, after, i, budget)[k].line == j + 1
    decreases |after| - i
  {
    var r := Changes(before, after, i, budget);
    if i == j {
      assert r[0].line == j + 1;
    } else if i < |before| && before[i] == after[i] {
      ChangesComplete(before, after, i + 1, budget, j);
    } else {
      var rest := Changes(before, after, i + 1, budget - 1);
      assert r == [r[0]] + rest;
      ChangesComplete(before, after, i + 1, budget - 1, j);
      var k :| 0 <= k < |rest| && rest[k].line == j + 1;
      assert r[k + 1] == rest[k];
    }
  }

  /** The diff of a modified file: its listed changes, then a marker when
      MaxChanges of them were listed. */
  method LineDiff(before: seq<string>, after: seq<string>) returns (out: string)
    ensures out == DiffText(before, after)
  {
    var changeCount;
    out, changeCount := ListChanges(before, after);
    if changeCount >= MaxChanges {
      out := out + MoreChanges;
    }
  }

  /** The diff loop: lines compared by index while fewer than MaxChanges
      changes have been listed. */
  method ListChanges(before: seq<string>, after: seq<string>) returns (out: string, changeCount: nat)
    ensures changeCount == |Changes(before, after, 0, MaxChanges)|
    ensures out == ChangesText(Changes(before, after, 0, MaxChanges))
  {
    out := "";
    changeCount := 0;
    var i := 0;
    while i < |after| && changeCount < MaxChanges
      invariant i <= |after| && changeCount == |Listed(before, after, i)|
      invariant out == ChangesText(Listed(before, after, i))
      decreases |after| - i
    {
      var counted;
      out, counted := DiffLine(before, after, i, out);
      if counted {
        changeCount := changeCount + 1;
      }
      i := i + 1;
    }
    ListedAll(before, after, i);
  }

  /** Once the loop stops, at the end of the lines or with MaxChanges
      listed, it has listed every change the walk reports. */
  lemma ListedAll(before: seq<string>, after: seq<string>, i: nat)
    requires i <= |after| && (i == |after| || |Listed(before, after, i)| >= MaxChanges)
    ensures Listed(before, after, i) == Changes(before, after, 0, MaxChanges)
  {
    ListedThenRest(before, after, i);
    AppendEmpty(Listed(before, after, i));
  }

  /** The writes for line index `i` of the diff loop, while fewer than
      MaxChanges changes are listed. */
  method DiffLine(before: seq<string>, after: seq<string>, i: nat, out: string) returns (out2: string, counted: bool)
    requires i < |after| && |Listed(before, after, i)| < MaxChanges
    requires out == ChangesText(Listed(before, after, i))
    ensures counted <==> ChangeAt(before, after, i).Some?
    ensures |Listed(before, after, i + 1)| == |Listed(before, after, i)| + if counted then 1 else 0
    ensures out2 == ChangesText(Listed(before, after, i + 1))
  {
    var piece;
    piece, counted := LineChange(before, after, i);
    ListedStep(before, after, i);
    out2 := out;
    if counted {
      DoneSnoc(Listed(before, after, i), ChangeAt(before, after, i).value);
      out2 := out + piece;
    }
  }

  /** The changes the diff loop has listed after its first `n` lines. */
  function Listed(before: seq<string>, after: seq<string>, n: nat): (r: seq<Change>)
    requires n <= |after|
    ensures |r| <= MaxChanges
  {
    if n == 0 then []
    else
      var p := Listed(before, after, n - 1);
      var c := ChangeAt(before, after, n - 1);
      if |p| < MaxChanges && c.Some? then p + [c.value] else p
  }

  /** One more line lists its change while fewer than MaxChanges are listed. */
  lemma ListedStep(before: seq<string>, after: seq<string>, i: nat)
    requires i < |after|
    ensures Listed(before, after, i + 1)
            == if |Listed(before, after, i)| < MaxChanges && ChangeAt(before, after, i).Some?
               then Listed(before, after, i) + [ChangeAt(before, after, i).value]
               else Listed(before, after, i)
  {
  }

  /** What the loop has listed after `n` lines, followed by what the walk
      still reports from there with the budget left, is everything the walk
      reports. */
  lemma {:induction false} ListedThenRest(before: seq<string>, after: seq<string>, n: nat)
    requires n <= |after|
    ensures Listed(before, after, n) + Changes(before, after, n, MaxChanges - |Listed(before, after, n)|)
            == Changes(before, after, 0, MaxChanges)
    decreases n
  {
    if n == 0 {
      assert [] + Changes(before, after, 0, MaxChanges) == Changes(before, after, 0, MaxChanges);
    } else {
      var k := n - 1;
      ListedThenRest(before, after, k);
      var p := Listed(before, after, k);
      var budget := MaxChanges - |p|;
      if budget == 0 {
        assert Listed(before, after, n) == p;
      } else {
        ChangesUnfold(before, after, k, budget);
        if ChangeAt(before, after, k).Some? {
          var c := ChangeAt(before, after, k).value;
          assert Listed(before, after, n) == p + [c];
          AppendAssoc(p, [c], Changes(before, after, n, budget - 1));
        } else {
          assert Listed(before, after, n) == p;
        }
      }
    }
  }

  lemma ChangesUnfold(before: seq<string>, after: seq<string>, i: nat, budget: nat)
    requires i < |after| && budget > 0
    ensures ChangeAt(before, after, i).None? ==> Changes(before, after, i, budget) == Changes(before, after, i + 1, budget)
    ensures ChangeAt(before, after, i).Some? ==>
              Changes(before, after, i, budget) == [ChangeAt(before, after, i).value] + Changes(before, after, i + 1, budget - 1)
  {
  }

  /** The loop body of the diff for line index `i`: the text written for it,
      and whether it counts as a change. */
  method LineChange(before: seq<string>, after: seq<string>, i: nat) returns (piece: string, counted: bool)
    requires i < |after|
    ensures counted <==> ChangeAt(before, after, i).Some?
    ensures counted ==> piece == ChangeText(ChangeAt(before, after, i).value)
  {
    piece, counted := "", false;
    if i < |before| {
      if before[i] != after[i] {
        piece := "-" + NatToString(i + 1) + ": " + before[i] + "\n" + "+" + NatToString(i + 1) + ": " + after[i] + "\n";
        counted := true;
      }
    } else {
      piece := "+" + NatToString(i + 1) + ": " + after[i] + "\n";
      counted := true;
    }
  }

  lemma DoneSnoc(done: seq<Change>, c: Change)
    ensures ChangesText(done + [c]) == ChangesText(done) + ChangeText(c)
  {
    assert (done + [c])[..|done|] == done;
  }

  /** The text of the line diff. */
  function DiffText(before: seq<string>, after: seq<string>): string {
    var cs := Changes(before, after, 0, MaxChanges);
    ChangesText(cs) + (if |cs| >= MaxChanges then MoreChanges else "")
  }

  /** The numbered listing of lines, "+n: line" each, numbered from 1. */
  function Numbered(lines: seq<string>): string
    decreases |lines|
  {
    if lines == [] then "" else Numbered(lines[..|lines| - 1]) + NumberedLine(|lines|, lines[|lines| - 1])
  }

  /** One listed line, as `+%d: %s` with a newline. */
  function NumberedLine(n: nat, line: string): string {
    "+" + NatToString(n) + ": " + line + "\n"
  }

  /** The listing of a new file's content. */
  function NewFileBody(staged: string): string {
    Listing(Split(staged, '\n'))
  }

  /** The listing of a new file's lines. */
  function Listing(lines: seq<string>): string {
    "New file content:\n"
    + (if |lines| > MaxNewLines then "(showing first 15 lines)\n" else "")
    + Numbered(if |lines| > MaxNewLines then lines[..MaxNewLines] else lines)
  }

  /** The diff of a modified file's content. */
  function ModifiedBody(head: string, staged: string): string {
    "Changes:\n" + "- Old: " + NatToString(|head|) + " chars\n"
    + "+ New: " + NatToString(|staged|) + " chars\n" + "Diff:\n"
    + DiffText(Split(head, '\n'), Split(staged, '\n'))
  }

  /** The listing of a new file: at most MaxNewLines lines, with a notice
      when the file has more. */
  method NewFileListing(staged: string) returns (out: string)
    ensures out == NewFileBody(staged)
  {
    out := ListLines(Split(staged, '\n'));
  }

  method ListLines(lines: seq<string>) returns (out: string)
    ensures out == Listing(lines)
  {
    out := "New file content:\n";
    var shown := lines;
    if |lines| > MaxNewLines {
      shown := lines[..MaxNewLines];
      out := out + "(showing first 15 lines)\n";
    } else {
      AppendEmpty(out);
    }
    ghost var head := out;
    PrefixEnds(shown);
    for i := 0 to |shown|
      invariant out == head + Numbered(shown[..i])
    {
      NumberedStep(head, shown, i);
      out := out + NumberedLine(i + 1, shown[i]);
    }
  }

  lemma NumberedStep(head: string, lines: seq<string>, i: nat)
    requires i < |lines|
    ensures head + Numbered(lines[..i + 1]) == (head + Numbered(lines[..i])) + NumberedLine(i + 1, lines[i])
  {
    assert lines[..i + 1][..i] == lines[..i];
  }

  /** Each listed line takes exactly one output line. */
  lemma {:induction false} NumberedLines(lines: seq<string>)
    requires forall k :: 0 <= k < |lines| ==> '\n' !in lines[k]
    ensures CountChar(Numbered(lines), '\n') == |lines|
    decreases |lines|
  {
    if lines != [] {
      var init := lines[..|lines| - 1];
      var last := lines[|lines| - 1];
      assert forall k :: 0 <= k < |init| ==> '\n' !in init[k] by {
        forall k | 0 <= k < |init| ensures '\n' !in init[k] { assert init[k] == lines[k]; }
      }
      NumberedLines(init);
      CountCharAppend(Numbered(init), NumberedLine(|lines|, last), '\n');
      NumberedLineCount(|lines|, last);
    }
  }

  lemma NumberedLineCount(n: nat, line: string)
    requires '\n' !in line
    ensures CountChar(NumberedLine(n, line), '\n') == 1
  {
    var num := NatToString(n);
    NatToStringDigits(n);
    CharFreeCount(num, '\n');
    CharFreeCount(line, '\n');
    CharFreeCount("+", '\n');
    CharFreeCount(": ", '\n');
    CountCharAppend("+" + num + ": " + line, "\n", '\n');
    CountCharAppend("+" + num + ": ", line, '\n');
    CountCharAppend("+" + num, ": ", '\n');
    CountCharAppend("+", num, '\n');
  }

  lemma {:induction false} CharFreeCount(s: string, c: char)
    requires c !in s
    ensures CountChar(s, c) == 0
    decreases |s|
  {
    if s != [] {
      CharFreeCount(s[1..], c);
    }
  }

  /** What is known of one staged file: its status, its HEAD content ("" when
      there is none), and its staged content when its blob could be read. */
  datatype FileEntry = FileEntry(path: string, status: StatusCode, head: string, staged: Option<string>)

  /** The summary of one file whose status is not Unmodified. */
  method FileSection(e: FileEntry) returns (out: string)
    ensures out == Section(e)
  {
    out := "=== " + e.path + " ===\n" + "Status: " + StagingStatus(e.status) + "\n";
    var body := "";
    if e.status == Modified || e.status == Added {
      if e.staged.Some? {
        var staged := e.staged.value;
        if e.status == Modified {
          var diff := LineDiff(Split(e.head, '\n'), Split(staged, '\n'));
          body := "Changes:\n" + "- Old: " + NatToString(|e.head|) + " chars\n"
                  + "+ New: " + NatToString(|staged|) + " chars\n" + "Diff:\n" + diff;
        } else {
          body := NewFileListing(staged);
        }
      }
    } else if e.status == Deleted {
      body := "File deleted\n";
    }
    out := out + body + "\n";
  }

  function Section(e: FileEntry): string {
    "=== " + e.path + " ===\n" + "Status: " + StagingStatus(e.status) + "\n" + SectionBody(e) + "\n"
  }

  /** The body of a file's summary: the line diff of a modified file, the
      listing of an added one, a note for a deleted one, nothing else. */
  function SectionBody(e: FileEntry): string {
    if (e.status == Modified || e.status == Added) && e.staged.Some? then
      if e.status == Modified then ModifiedBody(e.head, e.staged.value) else NewFileBody(e.staged.value)
    else if e.status == Deleted then "File deleted\n"
    else ""
  }

  /** The cap on the summary's length, in bytes, and on its lines. */
  const MaxDiffLength: nat := 8000
  const MaxDiffLines: nat := 200
  const MoreChanges: string := "... (more changes)\n"
  const Truncated: string := "... (diff truncated)"
  const NoChanges: string := "No staged changes found"

  /** The end of getStagedDiff: a blank summary becomes a notice; a summary
      longer than the cap is cut to its first lines only when it also has
      more lines than that. */
  function Finish(result: string): (r: string)
    ensures AllSpace(result) ==> r == NoChanges
    ensures !AllSpace(result) && (|result| <= MaxDiffLength || |Split(result, '\n')| <= MaxDiffLines) ==> r == result
  {
    if TrimSpace(result) == "" then NoChanges
    else if |result| > MaxDiffLength then
      var lines := Split(result, '\n');
      if |lines| > MaxDiffLines then Join(lines[..MaxDiffLines], "\n") + "\n" + Truncated else result
    else result
  }

  /** A cut summary is its first MaxDiffLines lines followed by the notice. */
  lemma FinishTruncates(result: string)
    requires !AllSpace(result) && |result| > MaxDiffLength && |Split(result, '\n')| > MaxDiffLines
    ensures Split(Finish(result), '\n') == Split(result, '\n')[..MaxDiffLines] + [Truncated]
  {
    var lines := Split(result, '\n');
    var kept := lines[..MaxDiffLines];
    SplitPiecesFree(result, '\n');
    JoinSnoc(kept, Truncated, "\n");
    assert Finish(result) == Join(kept + [Truncated], "\n");
    var parts := kept + [Truncated];
    TruncatedOneLine();
    forall k | 0 <= k < |parts|
      ensures '\n' !in parts[k]
    {
      if k < |kept| {
        assert parts[k] == lines[k];
      } else {
        assert parts[k] == Truncated;
      }
    }
    SplitJoin(parts, '\n');
  }

  lemma TruncatedOneLine()
    ensures '\n' !in Truncated
  {
  }

  /** The summaries of the staged files, in the order the status is walked. */
  function Sections(entries: seq<FileEntry>): string
    decreases |entries|
  {
    if entries == [] then ""
    else
      var e := entries[|entries| - 1];
      Sections(entries[..|entries| - 1])
      + (if e.status == Unmodified then "" else Section(e))
  }

  /** The summary loop of getStagedDiff, over the status entries in the
      (unspecified) order Go's map walk gives them. */
  method StagedDiff(entries: seq<FileEntry>) returns (r: string)
    ensures r == Finish(Sections(entries))
  {
    var result := "";
    for i := 0 to |entries|
      invariant result == Sections(entries[..i])
    {
      assert entries[..i + 1][..i] == entries[..i];
      if entries[i].status == Unmodified {
        continue;
      }
      var section := FileSection(entries[i]);
      result := result + section;
    }
    assert entries[..|entries|] == entries;
    r := Finish(result);
  }
}
