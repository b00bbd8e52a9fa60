/** The file reader behind `zw ask --file`: Unix path cleaning, the path
    checks run before any file is opened, the size limits of the reading
    loop, binary sniffing, the extension-to-language table and the text
    block the files are sent to the model in.  The operating system is a
    pair of function parameters: `stat` for os.Stat and `read` for opening
    and reading a file. */
module Files {
  import opened Common
  import opened Text

  /** The per-file limit, in bytes: 1 MB. */
  const MaxFileSize: nat := 1024 * 1024

  /** The limit on all files together, in bytes: 5 MB. */
  const MaxTotalSize: nat := 5 * 1024 * 1024

  /** A file that was read: its cleaned path, its text (or the binary
      marker) and its size as os.Stat reported it. */
  datatype FileContent = FileContent(path: string, content: string, size: nat)

  /** The reader's two limits. */
  datatype Reader = Reader(maxFileSize: nat, maxTotalSize: nat)

  /** NewReader. */
  const DefaultReader := Reader(MaxFileSize, MaxTotalSize)

  // ---------------------------------------------------------------------
  // Paths, as Go's path/filepath treats them on Unix

  /** One element of a path, applied to the elements kept so far. */
  function Push(kept: seq<string>, e: string, rooted: bool): seq<string> {
    if e == "" || e == "." then kept
    else if e == ".." then
      if |kept| > 0 && kept[|kept| - 1] != ".." then kept[..|kept| - 1]
      else if rooted then kept
      else kept + [".."]
    else kept + [e]
  }

  /** The elements that survive cleaning, for the elements of a path. */
  function CleanElems(elems: seq<string>, rooted: bool): seq<string>
    decreases |elems|
  {
    if elems == [] then [] else Push(CleanElems(elems[..|elems| - 1], rooted), elems[|elems| - 1], rooted)
  }

  /** `filepath.Clean`: repeated and trailing slashes, `.` elements and
      `..` elements with a name before them are removed; `..` at the root
      is dropped; the empty result is `.`. */
  function Clean(path: string): string {
    var rooted := HasPrefix(path, "/");
    var body := Join(CleanElems(Split(path, '/'), rooted), "/");
    var r := if rooted then "/" + body else body;
    if r == "" then "." else r
  }

  /** The kept elements of a clean path: names without a slash, `..` only
      in front, and none of those under the root. */
  predicate CleanShape(kept: seq<string>, rooted: bool) {
    && (forall k :: 0 <= k < |kept| ==> kept[k] != "" && kept[k] != "." && '/' !in kept[k])
    && (forall i, j :: 0 <= i < j < |kept| && kept[j] == ".." ==> kept[i] == "..")
    && (rooted ==> ".." !in kept)
  }

  lemma PushShape(kept: seq<string>, e: string, rooted: bool)
    requires CleanShape(kept, rooted) && '/' !in e
    ensures CleanShape(Push(kept, e, rooted), rooted)
  {
    if e != "" && e != "." && e == ".." && |kept| > 0 && kept[|kept| - 1] != ".." {
      var r := kept[..|kept| - 1];
      assert forall k :: 0 <= k < |r| ==> r[k] == kept[k];
    } else if e != "" && e != "." && e != ".." {
      var r := kept + [e];
      forall i, j | 0 <= i < j < |r| && r[j] == ".."
        ensures r[i] == ".."
      {
        assert r[j] == kept[j] && r[i] == kept[i];
      }
    }
  }

  /** Cleaning reaches the clean shape. */
  lemma {:induction false} CleanElemsShape(elems: seq<string>, rooted: bool)
    requires forall k :: 0 <= k < |elems| ==> '/' !in elems[k]
    ensures CleanShape(CleanElems(elems, rooted), rooted)
    decreases |elems|
  {
    if elems != [] {
      CleanElemsShape(elems[..|elems| - 1], rooted);
      PushShape(CleanElems(elems[..|elems| - 1], rooted), elems[|elems| - 1], rooted);
    }
  }

  /** Elements already in the clean shape survive cleaning unchanged. */
  lemma {:induction false} CleanElemsOfClean(kept: seq<string>, rooted: bool)
    requires CleanShape(kept, rooted)
    ensures CleanElems(kept, rooted) == kept
    decreases |kept|
  {
    if kept != [] {
      var init := kept[..|kept| - 1];
      assert forall k :: 0 <= k < |init| ==> init[k] == kept[k];
      assert CleanShape(init, rooted);
      CleanElemsOfClean(init, rooted);
      assert kept == init + [kept[|kept| - 1]];
    }
  }

  /** A leading empty element (the one before a root slash) changes nothing. */
  lemma {:induction false} CleanElemsLeadingEmpty(elems: seq<string>, rooted: bool)
    ensures CleanElems([""] + elems, rooted) == CleanElems(elems, rooted)
    decreases |elems|
  {
    if elems == [] {
      assert CleanElems([""], rooted) == Push(CleanElems([], rooted), "", rooted);
    } else {
      var init := elems[..|elems| - 1];
      assert ([""] + elems)[..|elems|] == [""] + init;
      CleanElemsLeadingEmpty(init, rooted);
    }
  }

  lemma SplitRooted(s: string)
    requires HasPrefix(s, "/")
    ensures Split(s, '/') == [""] + Split(s[1..], '/')
  {
    assert s[0] == '/';
  }

  /** A join starts with its first part. */
  lemma {:induction false} JoinHead(parts: seq<string>, sep: string)
    requires |parts| >= 1
    ensures HasPrefix(Join(parts, sep), parts[0])
  {
    if |parts| > 1 {
      assert Join(parts, sep) == parts[0] + (sep + Join(parts[1..], sep));
    }
  }

  /** Cleaning a clean path changes nothing. */
  lemma CleanIdempotent(path: string)
    ensures Clean(Clean(path)) == Clean(path)
  {
    var rooted := HasPrefix(path, "/");
    var kept := CleanElems(Split(path, '/'), rooted);
    SplitPiecesFree(path, '/');
    CleanElemsShape(Split(path, '/'), rooted);
    var body := Join(kept, "/");
    var c := Clean(path);
    if rooted {
      assert c == "/" + body;
      assert HasPrefix(c, "/");
      SplitRooted(c);
      assert c[1..] == body;
      if kept == [] {
        assert Split(c, '/') == [""] + [""];
        assert CleanElems([""] + [""], true) == Push(CleanElems([""], true), "", true);
        CleanElemsLeadingEmpty([], true);
      } else {
        SplitJoin(kept, '/');
        CleanElemsLeadingEmpty(kept, true);
        CleanElemsOfClean(kept, true);
      }
    } else if kept == [] {
      assert c == ".";
      assert c[1..] == "" && Split(c[1..], '/') == [""];
      assert [c[0]] + "" == ".";
      assert Split(c, '/') == [[c[0]] + ""] + [""][1..];
      assert Split(c, '/') == ["."];
      assert CleanElems(["."], false) == Push(CleanElems([], false), ".", false);
    } else {
      assert c == body;
      JoinHead(kept, "/");
      assert c[0] == kept[0][0];
      assert !HasPrefix(c, "/");
      SplitJoin(kept, '/');
      CleanElemsOfClean(kept, false);
    }
  }

  /** `filepath.Ext`: the suffix from the last dot of the final element, or
      nothing when that element has no dot; `n` is how much of the path is
      still to be scanned, from its end. */
  function ExtScan(path: string, n: nat): (r: string)
    requires n <= |path|
    decreases n
  {
    if n == 0 || path[n - 1] == '/' then ""
    else if path[n - 1] == '.' then path[n - 1..n]
    else
      var r := ExtScan(path, n - 1);
      if r == "" then "" else r + [path[n - 1]]
  }

  function Ext(path: string): string {
    ExtScan(path, |path|)
  }

  lemma {:induction false} ExtScanShape(path: string, n: nat)
    requires n <= |path|
    ensures var r := ExtScan(path, n);
            r == "" || (r[0] == '.' && HasSuffix(path[..n], r) && '/' !in r && '.' !in r[1..])
    decreases n
  {
    if n > 0 && path[n - 1] != '/' && path[n - 1] != '.' {
      ExtScanShape(path, n - 1);
      var r := ExtScan(path, n - 1);
      if r != "" {
        var p := path[..n];
        assert path[..n - 1] == p[..n - 1];
        assert (r + [path[n - 1]])[1..] == r[1..] + [path[n - 1]];
        assert p[|p| - |r| - 1..] == p[..n - 1][n - 1 - |r|..] + [path[n - 1]];
      }
    }
  }

  /** The extension is empty, or it is a suffix of the path that starts
      with its only dot and holds no slash. */
  lemma ExtShape(path: string)
    ensures var r := Ext(path);
            r == "" || (r[0] == '.' && HasSuffix(path, r) && '/' !in r && '.' !in r[1..])
  {
    ExtScanShape(path, |path|);
    assert path[..|path|] == path;
  }

  /** The path without its trailing slashes. */
  function TrimSlashes(path: string): (r: string)
    ensures HasPrefix(path, r) && (r == "" || r[|r| - 1] != '/')
    decreases |path|
  {
    if path != [] && path[|path| - 1] == '/' then TrimSlashes(path[..|path| - 1]) else path
  }

  /** What follows the last slash. */
  function AfterLastSlash(path: string): (r: string)
    ensures HasSuffix(path, r) && '/' !in r
    decreases |path|
  {
    if path == [] || path[|path| - 1] == '/' then ""
    else AfterLastSlash(path[..|path| - 1]) + [path[|path| - 1]]
  }

  /** `filepath.Base`: the last element, `.` for the empty path and `/`
      for a path of slashes. */
  function Base(path: string): (r: string)
    ensures r != ""
    ensures path == "" ==> r == "."
    ensures path != "" ==> r == "/" || '/' !in r
  {
    if path == "" then "."
    else
      var b := AfterLastSlash(TrimSlashes(path));
      if b == "" then "/" else b
  }

  // ---------------------------------------------------------------------
  // Path validation

  /** The extensions never read, compared lower-cased. */
  const DangerousExts: seq<string> := [".exe", ".bat", ".cmd", ".com", ".scr", ".pif", ".vbs", ".js"]

  /** The longest cleaned path accepted. */
  const MaxPathLength: nat := 260

  /** validateSinglePath. `outside` stands for the check of an absolute
      path against the working directory (os.Getwd and filepath.Rel): it
      is given the cleaned path and returns its verdict. */
  function PathVerdict(path: string, outside: string -> Outcome<string>): Outcome<string> {
    if TrimSpace(path) == "" then Fail("empty file path") else CleanVerdict(path, Clean(path), outside)
  }

  /** The checks of the cleaned path `c`: traversal, then the directory. */
  function CleanVerdict(path: string, c: string, outside: string -> Outcome<string>): Outcome<string> {
    if Contains(c, "..") then Fail("path traversal not allowed: " + path)
    else if HasPrefix(c, "/") && outside(c).Fail? then outside(c)
    else NameVerdict(path, c, ToLower(Ext(c)), Base(c))
  }

  /** The checks of the name: extension, hidden file, length. */
  function NameVerdict(path: string, c: string, ext: string, base: string): Outcome<string> {
    if ext in DangerousExts then Fail("potentially dangerous file type not allowed: " + ext)
    else if HasPrefix(base, ".") && base != ".env" && base != ".gitignore" then Fail("hidden files not allowed: " + path)
    else if |c| > MaxPathLength then Fail("path too long (max 260 characters): " + path)
    else Pass
  }

  /** A path passes exactly when it has text, its cleaned form has no `..`
      anywhere, an absolute one passes the directory check, its extension
      in lower case is not dangerous, it is not a hidden file other than
      .env and .gitignore, and its cleaned form has at most 260 bytes. */
  lemma PathAccepted(path: string, outside: string -> Outcome<string>)
    ensures PathVerdict(path, outside) == Pass <==>
              var c := Clean(path);
              && !AllSpace(path)
              && !Contains(c, "..")
              && (HasPrefix(c, "/") ==> outside(c) == Pass)
              && ToLower(Ext(c)) !in DangerousExts
              && (HasPrefix(Base(c), ".") ==> Base(c) in {".env", ".gitignore"})
              && |c| <= MaxPathLength
  {
  }

  /** A relative path whose cleaning keeps a `..` shows it in front. */
  lemma ClimbingShows(path: string)
    ensures !HasPrefix(path, "/") && ".." in CleanElems(Split(path, '/'), false) ==> Contains(Clean(path), "..")
  {
    var kept := CleanElems(Split(path, '/'), false);
    SplitPiecesFree(path, '/');
    CleanElemsShape(Split(path, '/'), false);
    if !HasPrefix(path, "/") && ".." in kept {
      var j :| 0 <= j < |kept| && kept[j] == "..";
      assert kept[0] == "..";
      JoinHead(kept, "/");
      assert Clean(path) == Join(kept, "/");
      assert IsAt(Clean(path), "..", 0);
    }
  }

  /** The cleaned form of an accepted path never steps to a parent
      directory: it names a file at or below the working directory (or,
      for an absolute path, below the root). */
  lemma AcceptedNeverClimbs(path: string, outside: string -> Outcome<string>)
    requires PathVerdict(path, outside) == Pass
    ensures ".." !in CleanElems(Split(path, '/'), HasPrefix(path, "/"))
  {
    SplitPiecesFree(path, '/');
    CleanElemsShape(Split(path, '/'), HasPrefix(path, "/"));
    ClimbingShows(path);
  }

  /** A plain file name is its own cleaned form. */
  lemma CleanName(name: string)
    requires name != "" && name != "." && name != ".." && '/' !in name
    ensures Clean(name) == name
  {
    SplitFree(name, '/');
    assert [name][..0] == [];
    assert CleanElems([name], false) == Push(CleanElems([], false), name, false);
    assert Join([name], "/") == name;
    assert !HasPrefix(name, "/");
  }

  lemma ScriptExt()
    ensures ToLower(Ext("x.JS")) == ".js"
  {
    var p := "x.JS";
    assert ExtScan(p, 1) == "";
    assert ExtScan(p, 2) == ".";
    assert ExtScan(p, 3) == ".J";
    assert ExtScan(p, 4) == ".JS";
    var l := ToLower(".JS");
    assert l[0] == '.' && l[1] == 'j' && l[2] == 's';
  }

  lemma ScriptNoDots()
    ensures !Contains("x.JS", "..")
  {
    var p := "x.JS";
    forall i: nat | i <= |p|
      ensures !IsAt(p, "..", i)
    {
      if i + 2 <= |p| {
        assert i == 0 || i == 1 || i == 2;
        assert p[i..i + 2][0] == p[i] && p[i..i + 2][1] == p[i + 1];
      }
    }
  }

  /** A relative, already clean path with no `..` and a dangerous extension, in any
      letter case, is refused for its extension. */
  lemma DangerousRejected(path: string, outside: string -> Outcome<string>)
    requires TrimSpace(path) != "" && Clean(path) == path
    requires !Contains(path, "..") && !HasPrefix(path, "/")
    requires ToLower(Ext(path)) in DangerousExts
    ensures PathVerdict(path, outside) == Fail("potentially dangerous file type not allowed: " + ToLower(Ext(path)))
  {
  }

  /** The extension check ignores letter case: `x.JS` is refused as `.js`. */
  lemma ScriptRejectedInAnyCase(outside: string -> Outcome<string>)
    ensures PathVerdict("x.JS", outside) == Fail("potentially dangerous file type not allowed: " + ".js")
  {
    ScriptRejected("x.JS", outside);
  }

  lemma ScriptRejected(p: string, outside: string -> Outcome<string>)
    requires p == "x.JS"
    ensures PathVerdict(p, outside) == Fail("potentially dangerous file type not allowed: " + ".js")
  {
    assert !IsSpace(p[0]);
    assert TrimSpace(p) != "";
    CleanName(p);
    ScriptNoDots();
    ScriptExt();
    assert !HasPrefix(p, "/");
    assert ".js" in DangerousExts;
    DangerousRejected(p, outside);
  }

  /** The loop over the dangerous extensions. */
  method IsDangerous(ext: string) returns (r: bool)
    ensures r <==> ext in DangerousExts
  {
    for k := 0 to |DangerousExts|
      invariant ext !in DangerousExts[..k]
    {
      if ext == DangerousExts[k] {
        return true;
      }
    }
    assert DangerousExts[..|DangerousExts|] == DangerousExts;
    return false;
  }

  /** validateSinglePath. */
  method ValidatePath(path: string, outside: string -> Outcome<string>) returns (r: Outcome<string>)
    ensures r == PathVerdict(path, outside)
  {
    if TrimSpace(path) == "" {
      return Fail("empty file path");
    }
    var c := Clean(path);
    if Contains(c, "..") {
      return Fail("path traversal not allowed: " + path);
    }
    if HasPrefix(c, "/") {
      var verdict := outside(c);
      if verdict.Fail? {
        return verdict;
      }
    }
    var ext := ToLower(Ext(c));
    var dangerous := IsDangerous(ext);
    if dangerous {
      return Fail("potentially dangerous file type not allowed: " + ext);
    }
    var base := Base(c);
    if HasPrefix(base, ".") && base != ".env" && base != ".gitignore" {
      return Fail("hidden files not allowed: " + path);
    }
    if |c| > MaxPathLength {
      return Fail("path too long (max 260 characters): " + path);
    }
    return Pass;
  }

  /** The most files one request may name. */
  const MaxFiles: nat := 10

  /** ValidateFiles: between one and ten paths, each passing; otherwise the
      error of the count, or that of the first failing path. */
  method ValidateFiles(paths: seq<string>, outside: string -> Outcome<string>) returns (r: Outcome<string>)
    ensures |paths| == 0 ==> r == Fail("no files specified")
    ensures |paths| > MaxFiles ==> r == Fail("too many files specified (max: 10)")
    ensures 0 < |paths| <= MaxFiles ==> r == FirstFailure(paths, p => PathVerdict(p, outside))
  {
    if |paths| == 0 {
      return Fail("no files specified");
    }
    if |paths| > MaxFiles {
      return Fail("too many files specified (max: 10)");
    }
    ghost var check := p => PathVerdict(p, outside);
    for i := 0 to |paths|
      invariant FirstFailure(paths, check) == FirstFailure(paths[i..], check)
    {
      var verdict := ValidatePath(paths[i], outside);
      assert verdict == check(paths[i]);
      FirstFailureStep(paths[i..], check);
      if verdict.Fail? {
        return verdict;
      }
      assert paths[i..][1..] == paths[i + 1..];
    }
    return Pass;
  }

  /** The verdict of the first path that `check` fails, or Pass. */
  function FirstFailure(paths: seq<string>, check: string -> Outcome<string>): Outcome<string>
    decreases |paths|
  {
    if paths == [] then Pass
    else if check(paths[0]).Fail? then check(paths[0])
    else FirstFailure(paths[1..], check)
  }

  lemma FirstFailureStep(paths: seq<string>, check: string -> Outcome<string>)
    requires paths != []
    ensures check(paths[0]).Fail? ==> FirstFailure(paths, check) == check(paths[0])
    ensures check(paths[0]).Pass? ==> FirstFailure(paths, check) == FirstFailure(paths[1..], check)
  {
  }

  /** The paths pass together exactly when each does; otherwise the verdict
      is that of the first path that fails, all before it passing. */
  lemma {:induction false} FirstFailureMeaning(paths: seq<string>, check: string -> Outcome<string>)
    ensures FirstFailure(paths, check) == Pass <==> forall k :: 0 <= k < |paths| ==> check(paths[k]) == Pass
    ensures FirstFailure(paths, check).Fail? ==>
              exists k :: 0 <= k < |paths| && check(paths[k]) == FirstFailure(paths, check)
                          && forall j :: 0 <= j < k ==> check(paths[j]) == Pass
    decreases |paths|
  {
    if paths != [] {
      FirstFailureMeaning(paths[1..], check);
      if check(paths[0]).Pass? {
        assert forall k :: 1 <= k < |paths| ==> paths[k] == paths[1..][k - 1];
        if FirstFailure(paths, check).Fail? {
          var k :| 0 <= k < |paths[1..]| && check(paths[1..][k]) == FirstFailure(paths, check)
                   && forall j :: 0 <= j < k ==> check(paths[1..][j]) == Pass;
          assert check(paths[k + 1]) == FirstFailure(paths, check);
          forall j | 0 <= j < k + 1
            ensures check(paths[j]) == Pass
          {
            if j > 0 {
              assert paths[j] == paths[1..][j - 1];
            }
          }
        }
      }
    }
  }

  // ---------------------------------------------------------------------
  // Reading

  /** How many leading bytes are sniffed for a zero byte. */
  const SniffLength: nat := 512

  /** A zero byte among the first 512 bytes. */
  predicate Binary(content: string) {
    exists i :: 0 <= i < |content| && i < SniffLength && content[i] == '\0'
  }

  /** isBinary. */
  method IsBinary(content: string) returns (r: bool)
    ensures r <==> Binary(content)
  {
    var checkSize := |content|;
    if checkSize > SniffLength {
      checkSize := SniffLength;
    }
    for i := 0 to checkSize
      invariant forall j :: 0 <= j < i ==> content[j] != '\0'
    {
      if content[i] == '\0' {
        return true;
      }
    }
    return false;
  }

  /** What readFile returns for the bytes `data` of the file at `path`:
      at most `limit` bytes of it, or the binary marker in their place. */
  function ReadContent(path: string, data: string, limit: nat): string {
    var content := if |data| > limit then data[..limit] else data;
    if Binary(content) then "[Binary file: " + path + ", size: " + NatToString(|content|) + " bytes]"
    else content
  }

  /** The prefix FormatFilesForAI takes for the binary marker. */
  const BinaryMarker := "[Binary file:"

  /** The marker test of FormatFilesForAI sees every binary file, but also
      any text file that itself begins with the marker. */
  lemma MarkerSeen(path: string, data: string, limit: nat)
    ensures var content := if |data| > limit then data[..limit] else data;
            HasPrefix(ReadContent(path, data, limit), BinaryMarker) <==> Binary(content) || HasPrefix(content, BinaryMarker)
  {
    var content := if |data| > limit then data[..limit] else data;
    if Binary(content) {
      var m := "[Binary file: " + path + ", size: " + NatToString(|content|) + " bytes]";
      assert m[..|BinaryMarker|] == BinaryMarker;
    }
  }

  /** readFile: `read` stands for os.Open and io.ReadAll, giving the file's
      bytes or the error. */
  method ReadFile(reader: Reader, read: string -> Result<string, string>, path: string) returns (r: Result<string, string>)
    ensures read(path).Failure? ==> r == Failure(read(path).error)
    ensures read(path).Success? ==> r == Success(ReadContent(path, read(path).value, reader.maxFileSize))
  {
    var data := read(path);
    if data.Failure? {
      return Failure(data.error);
    }
    var content := data.value;
    if |content| > reader.maxFileSize {
      content := content[..reader.maxFileSize];
    }
    var binary := IsBinary(content);
    if binary {
      return Success("[Binary file: " + path + ", size: " + NatToString(|content|) + " bytes]");
    }
    return Success(content);
  }

  /** What os.Stat reports. */
  datatype FileInfo = FileInfo(isDir: bool, size: nat)

  /** The errors of ReadFiles, by cause. */
  datatype ReadError =
    | StatFailed(path: string, cause: string)
    | IsDirectory(path: string)
    | TooLarge(path: string, size: nat)
    | TotalTooLarge
    | ReadFailed(path: string, cause: string)

  /** The sum of the sizes. */
  function Total(files: seq<FileContent>): nat
    decreases |files|
  {
    if files == [] then 0 else Total(files[..|files| - 1]) + files[|files| - 1].size
  }

  /** One pass of the ReadFiles loop, after the files read so far. */
  function ReadNext(reader: Reader, stat: string -> Result<FileInfo, string>, read: string -> Result<string, string>,
                    files: seq<FileContent>, path: string): Result<seq<FileContent>, ReadError>
  {
    var c := Clean(path);
    match stat(c)
      case Failure(e) => Failure(StatFailed(c, e))
      case Success(info) =>
        if info.isDir then Failure(IsDirectory(c))
        else if info.size > reader.maxFileSize then Failure(TooLarge(c, info.size))
        else if Total(files) + info.size > reader.maxTotalSize then Failure(TotalTooLarge)
        else
          match read(c)
            case Failure(e) => Failure(ReadFailed(c, e))
            case Success(data) => Success(files + [FileContent(c, ReadContent(c, data, reader.maxFileSize), info.size)])
  }

  /** ReadFiles on the given paths: the first error, or every file. */
  function Loaded(reader: Reader, stat: string -> Result<FileInfo, string>, read: string -> Result<string, string>,
                  paths: seq<string>): Result<seq<FileContent>, ReadError>
    decreases |paths|
  {
    if paths == [] then Success([])
    else
      match Loaded(reader, stat, read, paths[..|paths| - 1])
        case Failure(e) => Failure(e)
        case Success(files) => ReadNext(reader, stat, read, files, paths[|paths| - 1])
  }

  /** Once a prefix of the paths fails, the whole list fails the same way. */
  lemma {:induction false} LoadedFailureSticks(reader: Reader, stat: string -> Result<FileInfo, string>,
                                              read: string -> Result<string, string>, paths: seq<string>, k: nat)
    requires k <= |paths| && Loaded(reader, stat, read, paths[..k]).Failure?
    ensures Loaded(reader, stat, read, paths) == Loaded(reader, stat, read, paths[..k])
    decreases |paths| - k
  {
    if k < |paths| {
      assert paths[..k + 1][..k] == paths[..k];
      LoadedFailureSticks(reader, stat, read, paths, k + 1);
    } else {
      assert paths[..k] == paths;
    }
  }

  /** Files that were read keep within both limits: one entry per path,
      under its cleaned name, none above the per-file limit, and all of
      them together within the total limit. */
  lemma {:induction false} LoadedWithinLimits(reader: Reader, stat: string -> Result<FileInfo, string>,
                                             read: string -> Result<string, string>, paths: seq<string>)
    requires Loaded(reader, stat, read, paths).Success?
    ensures var files := Loaded(reader, stat, read, paths).value;
            && |files| == |paths|
            && Total(files) <= reader.maxTotalSize
            && forall k :: 0 <= k < |files| ==> files[k].path == Clean(paths[k]) && files[k].size <= reader.maxFileSize
    decreases |paths|
  {
    if paths != [] {
      var init := paths[..|paths| - 1];
      LoadedWithinLimits(reader, stat, read, init);
      var before := Loaded(reader, stat, read, init).value;
      assert Loaded(reader, stat, read, paths) == ReadNext(reader, stat, read, before, paths[|paths| - 1]);
      ReadNextWithin(reader, stat, read, before, paths[|paths| - 1]);
      var files := Loaded(reader, stat, read, paths).value;
      forall k | 0 <= k < |files|
        ensures files[k].path == Clean(paths[k]) && files[k].size <= reader.maxFileSize
      {
        if k < |before| {
          assert files[k] == before[k] && paths[k] == init[k];
        } else {
          assert k == |before| == |paths| - 1;
          assert files[k].path == Clean(paths[|paths| - 1]);
        }
      }
    }
  }

  /** One pass of the loop that reads a file adds one entry, for the cleaned
      path, within both limits. */
  lemma ReadNextWithin(reader: Reader, stat: string -> Result<FileInfo, string>, read: string -> Result<string, string>,
                       files: seq<FileContent>, path: string)
    requires ReadNext(reader, stat, read, files, path).Success?
    ensures var out := ReadNext(reader, stat, read, files, path).value;
            && |out| == |files| + 1 && out[..|files|] == files
            && out[|files|].path == Clean(path) && out[|files|].size <= reader.maxFileSize
            && Total(out) <= reader.maxTotalSize
  {
    var out := ReadNext(reader, stat, read, files, path).value;
    assert out[..|out| - 1] == files;
  }

  /** ReadFiles: each path cleaned, checked and read in turn, stopping at
      the first error. */
  method ReadFiles(reader: Reader, stat: string -> Result<FileInfo, string>, read: string -> Result<string, string>,
                   paths: seq<string>) returns (r: Result<seq<FileContent>, ReadError>)
    ensures r == Loaded(reader, stat, read, paths)
  {
    var files: seq<FileContent> := [];
    var totalSize := 0;
    for i := 0 to |paths|
      invariant Loaded(reader, stat, read, paths[..i]) == Success(files)
      invariant totalSize == Total(files)
    {
      assert paths[..i + 1][..i] == paths[..i];
      var next, size := ReadOne(reader, stat, read, files, totalSize, paths[i]);
      if next.Failure? {
        r := next;
        LoadedFailureSticks(reader, stat, read, paths, i + 1);
        return;
      }
      files := next.value;
      totalSize := totalSize + size;
    }
    assert paths[..|paths|] == paths;
    r := Success(files);
  }

  /** One pass of the ReadFiles loop: stat, the size limits, then the read. */
  method ReadOne(reader: Reader, stat: string -> Result<FileInfo, string>, read: string -> Result<string, string>,
                 files: seq<FileContent>, totalSize: nat, path: string)
    returns (r: Result<seq<FileContent>, ReadError>, size: nat)
    requires totalSize == Total(files)
    ensures r == ReadNext(reader, stat, read, files, path)
    ensures r.Success? ==> Total(r.value) == totalSize + size
  {
    size := 0;
    var cleanPath := Clean(path);
    var info := stat(cleanPath);
    if info.Failure? {
      return Failure(StatFailed(cleanPath, info.error)), size;
    }
    if info.value.isDir {
      return Failure(IsDirectory(cleanPath)), size;
    }
    if info.value.size > reader.maxFileSize {
      return Failure(TooLarge(cleanPath, info.value.size)), size;
    }
    if totalSize + info.value.size > reader.maxTotalSize {
      return Failure(TotalTooLarge), size;
    }
    var content := ReadFile(reader, read, cleanPath);
    if content.Failure? {
      return Failure(ReadFailed(cleanPath, content.error)), size;
    }
    var file := FileContent(cleanPath, content.value, info.value.size);
    assert (files + [file])[..|files|] == files;
    size := info.value.size;
    r := Success(files + [file]);
  }

  // ---------------------------------------------------------------------
  // Languages and the text sent to the model

  /** The extension table of detectLanguage. */
  const LangMap: map<string, string> := map[
    ".go" := "go", ".py" := "python", ".js" := "javascript", ".ts" := "typescript",
    ".java" := "java", ".cpp" := "cpp", ".c" := "c", ".cs" := "csharp", ".php" := "php",
    ".rb" := "ruby", ".rs" := "rust", ".swift" := "swift", ".kt" := "kotlin",
    ".scala" := "scala", ".sh" := "bash", ".bash" := "bash", ".zsh" := "bash",
    ".fish" := "fish", ".ps1" := "powershell", ".bat" := "batch", ".cmd" := "batch",
    ".html" := "html", ".htm" := "html", ".css" := "css", ".scss" := "scss",
    ".sass" := "sass", ".less" := "less", ".xml" := "xml", ".json" := "json",
    ".yaml" := "yaml", ".yml" := "yaml", ".toml" := "toml", ".ini" := "ini",
    ".cfg" := "ini", ".conf" := "ini", ".sql" := "sql", ".md" := "markdown",
    ".txt" := "text", ".log" := "text", ".env" := "bash", ".gitignore" := "text",
    ".dockerfile" := "dockerfile", ".makefile" := "makefile"]

  /** detectLanguage: the listed tag, and "text" for anything else. */
  function DetectLanguage(ext: string): string {
    if ext in LangMap then LangMap[ext] else "text"
  }

  /** The language of a file, from the lower-cased extension of its path. */
  function Language(path: string): string {
    DetectLanguage(ToLower(Ext(path)))
  }

  lemma {:induction false} ExtScanLower(path: string, n: nat)
    requires n <= |path|
    ensures ExtScan(ToLower(path), n) == ToLower(ExtScan(path, n))
    decreases n
  {
    var l := ToLower(path);
    if n > 0 && path[n - 1] != '/' && path[n - 1] != '.' {
      ExtScanLower(path, n - 1);
      var r := ExtScan(path, n - 1);
      if r != "" {
        assert ToLower(r + [path[n - 1]]) == ToLower(r) + [l[n - 1]];
      }
    } else if n > 0 && path[n - 1] == '.' {
      assert l[n - 1..n] == [l[n - 1]];
    }
  }

  lemma ToLowerIdempotent(s: string)
    ensures ToLower(ToLower(s)) == ToLower(s)
  {
  }

  /** A file's language is the table's tag for its extension in lower
      case, and "text" when the table has no entry for it. */
  lemma LanguageOfPath(path: string)
    ensures var ext := ToLower(Ext(path));
            Language(path) == if ext in LangMap then LangMap[ext] else "text"
  {
  }

  /** The language tag ignores the letter case of the path. */
  lemma LanguageIgnoresCase(path: string)
    ensures Language(ToLower(path)) == Language(path)
  {
    ExtScanLower(path, |path|);
    ToLowerIdempotent(Ext(path));
    assert ToLower(path)[..|path|] == ToLower(path);
    assert path[..|path|] == path;
  }

  const FilesHeader := "\n\n--- ФАЙЛЫ ДЛЯ АНАЛИЗА ---\n\n"
  const FilesFooter := "\n--- КОНЕЦ ФАЙЛОВ ---\n"

  /** The line between two files. */
  function Separator(): string {
    "\n" + Repeat("-", 50) + "\n\n"
  }

  /** The body of a file: the binary marker as it is, anything else in a
      fenced block tagged with the file's language. */
  function FileBody(file: FileContent): string {
    if HasPrefix(file.content, BinaryMarker) then file.content
    else "```" + Language(file.path) + "\n" + file.content + "\n```"
  }

  /** One file's part of the text; `kb` stands for the `%.2f` formatting
      of the size in kilobytes. */
  function FileSection(file: FileContent, kb: nat -> string): string {
    "\U{1F4C1} **Файл: " + file.path + "**\n" + "\U{1F4CA} Размер: " + kb(file.size) + " KB\n\n" + FileBody(file) + "\n"
  }

  /** The sections of all files, with a separator between two; `section`
      gives one file's part. */
  function Sections(files: seq<FileContent>, section: FileContent -> string): string
    decreases |files|
  {
    if files == [] then ""
    else
      var init := files[..|files| - 1];
      Sections(init, section) + (if init == [] then "" else Separator()) + section(files[|files| - 1])
  }

  /** FormatFilesForAI: nothing for no files, else the header, the
      sections and the footer. */
  function Formatted(files: seq<FileContent>, section: FileContent -> string): string {
    if files == [] then "" else FilesHeader + Sections(files, section) + FilesFooter
  }

  /** FormatFilesForAI, with its loop. */
  method FormatFilesForAI(files: seq<FileContent>, kb: nat -> string) returns (r: string)
    ensures r == Formatted(files, f => FileSection(f, kb))
    ensures files == [] <==> r == ""
  {
    if |files| == 0 {
      return "";
    }
    ghost var section := f => FileSection(f, kb);
    r := FilesHeader;
    for i := 0 to |files|
      invariant r == FilesHeader + Sections(files[..i], section)
    {
      SectionsStep(files, section, i);
      if i > 0 {
        r := r + ("\n" + Repeat("-", 50) + "\n\n");
      } else {
        AppendEmpty(r);
      }
      var part := FileSection(files[i], kb);
      assert part == section(files[i]);
      r := r + part;
      Assoc4(FilesHeader, Sections(files[..i], section), if i == 0 then "" else Separator(), part);
    }
    assert files[..|files|] == files;
    r := r + FilesFooter;
  }

  lemma SectionsStep(files: seq<FileContent>, section: FileContent -> string, i: nat)
    requires i < |files|
    ensures Sections(files[..i + 1], section) == Sections(files[..i], section) + (if i == 0 then "" else Separator()) + section(files[i])
  {
    assert files[..i + 1][..i] == files[..i];
  }

  lemma Assoc3(a: string, b: string, c: string)
    ensures a + b + c == a + (b + c)
  {
  }

  lemma Assoc4(a: string, b: string, c: string, d: string)
    ensures a + b + c + d == a + (b + c + d)
  {
  }

  /** Each file's section appears in the text, in full. */
  lemma {:induction false} SectionsContain(files: seq<FileContent>, section: FileContent -> string, k: nat)
    requires k < |files|
    ensures Contains(Sections(files, section), section(files[k]))
    decreases |files|
  {
    var init := files[..|files| - 1];
    var last := section(files[|files| - 1]);
    var front := Sections(init, section) + (if init == [] then "" else Separator());
    assert Sections(files, section) == front + last;
    if k == |files| - 1 {
      ContainsPart(front, last, "");
      assert front + last + "" == front + last;
    } else {
      assert files[k] == init[k];
      SectionsContain(init, section, k);
      ContainsAppend(Sections(init, section), if init == [] then "" else Separator(), section(files[k]));
      ContainsAppend(front, last, section(files[k]));
    }
  }

  /** Every file read appears in the text sent to the model. */
  lemma FormattedShowsFiles(files: seq<FileContent>, section: FileContent -> string, k: nat)
    requires k < |files|
    ensures Contains(Formatted(files, section), section(files[k]))
  {
    var body := Sections(files, section);
    var p := section(files[k]);
    SectionsContain(files, section, k);
    ContainsAppend(body, FilesFooter, p);
    ContainsAppend(body + FilesFooter, FilesHeader, p);
    Assoc3(FilesHeader, body, FilesFooter);
  }

  /** A file that is not binary appears in a block fenced with its language;
      a binary one as its marker. */
  lemma SectionShowsContent(file: FileContent, kb: nat -> string)
    ensures !HasPrefix(file.content, BinaryMarker) ==>
              Contains(FileSection(file, kb), "```" + Language(file.path) + "\n" + file.content + "\n```")
    ensures HasPrefix(file.content, BinaryMarker) ==> Contains(FileSection(file, kb), file.content)
  {
    var head := "\U{1F4C1} **Файл: " + file.path + "**\n" + "\U{1F4CA} Размер: " + kb(file.size) + " KB\n\n";
    assert FileSection(file, kb) == head + FileBody(file) + "\n";
    ContainsPart(head, FileBody(file), "\n");
  }
}
