/** The error package's two safety measures: the redaction of credentials from a
    message before it is logged, and the whitelist that every git invocation
    passes before a process is started. */
module Errors {
  import opened Common
  import opened Text

  // ---------------------------------------------------------------------------
  // Redaction for logs
  // ---------------------------------------------------------------------------

  const BearerPrefix := "Bearer "
  const BearerRedacted := "Bearer [REDACTED]"
  const HeaderName := "Authorization:"
  const HeaderLower := "authorization:"
  const HeaderRedacted := "Authorization: [REDACTED]"

  /** The bearer-token step as the code writes it: every `Bearer ` becomes
      `Bearer [REDACTED]`, and whatever followed it is kept. */
  function BearerAsWritten(msg: string): string {
    ReplaceAll(msg, BearerPrefix, BearerRedacted)
  }

  /** Replacing a pattern that does not occur changes nothing. */
  lemma {:induction false} ReplaceAllAbsent(s: string, p: string, rep: string)
    requires |p| > 0 && !Contains(s, p)
    ensures ReplaceAll(s, p, rep) == s
    decreases |s|
  {
    if |s| >= |p| {
      assert !IsAt(s, p, 0);
      assert !Contains(s[1..], p) by {
        forall i: nat ensures !IsAt(s[1..], p, i) {
          if IsAt(s[1..], p, i) { assert s[1..][i..i + |p|] == s[i + 1..i + 1 + |p|]; assert IsAt(s, p, i + 1); }
        }
      }
      ReplaceAllAbsent(s[1..], p, rep);
      assert [s[0]] + s[1..] == s;
    }
  }

  /** As written, the token after `Bearer ` survives redaction verbatim. */
  lemma BearerTokenKept(token: string)
    requires !Contains(token, BearerPrefix)
    ensures BearerAsWritten(BearerPrefix + token) == BearerRedacted + token
  {
    var s := BearerPrefix + token;
    assert s[..|BearerPrefix|] == BearerPrefix;
    assert s[|BearerPrefix|..] == token;
    ReplaceAllAbsent(token, BearerPrefix, BearerRedacted);
  }

  /** The text after a token: the token is the run of non-space characters at
      the start. */
  function SkipToken(t: string): (r: string)
    ensures |r| <= |t|
    decreases |t|
  {
    if t == [] || IsSpace(t[0]) then t else SkipToken(t[1..])
  }

  lemma {:induction false} SkipTokenDrops(token: string, rest: string)
    requires forall i :: 0 <= i < |token| ==> !IsSpace(token[i])
    requires rest == [] || IsSpace(rest[0])
    ensures SkipToken(token + rest) == rest
    decreases |token|
  {
    if token == [] {
      assert token + rest == rest;
    } else {
      assert (token + rest)[0] == token[0];
      assert (token + rest)[1..] == token[1..] + rest;
      SkipTokenDrops(token[1..], rest);
    }
  }

  /** The bearer-token step as intended: `Bearer ` and the token after it become
      `Bearer [REDACTED]`. */
  function RedactBearer(msg: string): string
    decreases |msg|
  {
    if HasPrefix(msg, BearerPrefix) then BearerRedacted + RedactBearer(SkipToken(msg[|BearerPrefix|..]))
    else if msg == [] then []
    else [msg[0]] + RedactBearer(msg[1..])
  }

  /** The intended step removes the token: what follows it is all that is left. */
  lemma BearerTokenRedacted(token: string, rest: string)
    requires forall i :: 0 <= i < |token| ==> !IsSpace(token[i])
    requires rest == [] || IsSpace(rest[0])
    ensures RedactBearer(BearerPrefix + token + rest) == BearerRedacted + RedactBearer(rest)
  {
    var s := BearerPrefix + token + rest;
    assert s[..|BearerPrefix|] == BearerPrefix;
    assert s[|BearerPrefix|..] == token + rest;
    SkipTokenDrops(token, rest);
  }

  /** A message without `Bearer ` is left as it is. */
  lemma {:induction false} RedactBearerAbsent(msg: string)
    requires !Contains(msg, BearerPrefix)
    ensures RedactBearer(msg) == msg
    decreases |msg|
  {
    if msg != [] {
      assert !IsAt(msg, BearerPrefix, 0);
      assert !Contains(msg[1..], BearerPrefix) by {
        forall i: nat ensures !IsAt(msg[1..], BearerPrefix, i) {
          if IsAt(msg[1..], BearerPrefix, i) {
            assert msg[1..][i..i + |BearerPrefix|] == msg[i + 1..i + 1 + |BearerPrefix|];
            assert IsAt(msg, BearerPrefix, i + 1);
          }
        }
      }
      RedactBearerAbsent(msg[1..]);
      assert [msg[0]] + msg[1..] == msg;
    }
  }

  /** One line of the header step: a line mentioning the header in any letter
      case is replaced whole. */
  function RedactLine(line: string): string {
    if Contains(ToLower(line), HeaderLower) then HeaderRedacted else line
  }

  function RedactLines(lines: seq<string>): (r: seq<string>)
    ensures |r| == |lines|
  {
    seq(|lines|, k requires 0 <= k < |lines| => RedactLine(lines[k]))
  }

  /** The header step: only taken when the message holds `Authorization:` with
      exactly that capitalisation. */
  function RedactHeaders(msg: string): string {
    if Contains(msg, HeaderName) then Join(RedactLines(Split(msg, '\n')), "\n") else msg
  }

  /** What a logged message becomes: the bearer step as written, then the
      header step. */
  function Sanitized(msg: string): string {
    RedactHeaders(BearerAsWritten(msg))
  }

  /** `SanitizeForLog` on the message of the error. */
  method SanitizeForLog(msg: string) returns (r: string)
    ensures r == Sanitized(msg)
  {
    r := BearerAsWritten(msg);
    if Contains(r, HeaderName) {
      var lines := Split(r, '\n');
      r := RedactInPlace(lines);
    }
  }

  /** A bearer token in a logged message reaches the log: `Bearer ` and a
      token, without a header line, are logged as `Bearer [REDACTED]` and the
      same token. */
  lemma SanitizedKeepsToken(token: string)
    requires !Contains(token, BearerPrefix) && !Contains(BearerRedacted + token, HeaderName)
    ensures Sanitized(BearerPrefix + token) == BearerRedacted + token
  {
    BearerTokenKept(token);
  }

  /** The loop over the lines: each line that mentions the header is overwritten
      where it stands, then the lines are joined again. */
  method RedactInPlace(orig: seq<string>) returns (r: string)
    ensures r == Join(RedactLines(orig), "\n")
  {
    var lines := orig;
    var i := 0;
    while i < |lines|
      invariant 0 <= i <= |lines| == |orig|
      invariant forall k :: 0 <= k < i ==> lines[k] == RedactLine(orig[k])
      invariant forall k :: i <= k < |lines| ==> lines[k] == orig[k]
    {
      if Contains(ToLower(lines[i]), HeaderLower) {
        lines := lines[i := HeaderRedacted];
      }
      i := i + 1;
    }
    assert lines == RedactLines(orig);
    r := Join(lines, "\n");
  }

  /** The redacted lines hold no line break, so they are the lines of the
      result. */
  lemma RedactedLinesFree(lines: seq<string>)
    requires forall k :: 0 <= k < |lines| ==> '\n' !in lines[k]
    ensures forall k :: 0 <= k < |RedactLines(lines)| ==> '\n' !in RedactLines(lines)[k]
  {
    assert '\n' !in HeaderRedacted;
  }

  /** After the header step, the result has as many lines as the message, each
      line that mentions the header (in any case) is the redaction notice, and
      every other line is unchanged. */
  lemma {:induction false} HeaderLinesRedacted(msg: string)
    requires Contains(msg, HeaderName)
    ensures |Split(RedactHeaders(msg), '\n')| == |Split(msg, '\n')|
    ensures forall k :: 0 <= k < |Split(msg, '\n')| ==>
      Split(RedactHeaders(msg), '\n')[k] ==
        (if Contains(ToLower(Split(msg, '\n')[k]), HeaderLower) then HeaderRedacted else Split(msg, '\n')[k])
  {
    var lines := Split(msg, '\n');
    SplitPiecesFree(msg, '\n');
    RedactedLinesFree(lines);
    SplitJoin(RedactLines(lines), '\n');
  }

  /** When the header step is taken, no line of the result mentions the header
      except the redaction notice itself. */
  lemma NoHeaderLineSurvives(msg: string, k: nat)
    requires Contains(msg, HeaderName)
    requires k < |Split(RedactHeaders(msg), '\n')|
    requires Contains(ToLower(Split(RedactHeaders(msg), '\n')[k]), HeaderLower)
    ensures Split(RedactHeaders(msg), '\n')[k] == HeaderRedacted
  {
    HeaderLinesRedacted(msg);
  }

  // ---------------------------------------------------------------------------
  // The git argument whitelist
  // ---------------------------------------------------------------------------

  /** The value a validation error reports: one text, or the whole argument list. */
  datatype Value = Arg(text: string) | ArgList(args: seq<string>)

  datatype ValidationError = ValidationError(field: string, value: Value, message: string)

  const AllowedCommands: set<string> := {"diff", "status", "push", "config"}
  const AllowedDiffFlags: set<string> := {"--staged", "--cached"}
  const AllowedConfigKeys: set<string> := {"user.name", "user.email"}

  /** The check one diff argument must pass. */
  function DiffArgVerdict(arg: string): Outcome<ValidationError> {
    if HasPrefix(arg, "-") && arg !in AllowedDiffFlags then
      Fail(ValidationError("git_diff_arg", Arg(arg), "git diff argument not allowed"))
    else if Contains(arg, ";") || Contains(arg, "|") || Contains(arg, "&") then
      Fail(ValidationError("git_diff_arg", Arg(arg), "potentially dangerous characters in git argument"))
    else Pass
  }

  /** The verdict of the first argument that fails, or `Pass`. */
  function DiffVerdict(args: seq<string>): Outcome<ValidationError>
    decreases |args|
  {
    if args == [] then Pass
    else if DiffArgVerdict(args[0]).Fail? then DiffArgVerdict(args[0])
    else DiffVerdict(args[1..])
  }

  predicate SafeDiffArg(arg: string) {
    (!HasPrefix(arg, "-") || arg in AllowedDiffFlags) && ';' !in arg && '|' !in arg && '&' !in arg
  }

  lemma DiffArgAccepted(arg: string)
    ensures DiffArgVerdict(arg) == Pass <==> SafeDiffArg(arg)
  {
    ContainsChar(arg, ';');
    ContainsChar(arg, '|');
    ContainsChar(arg, '&');
  }

  /** The diff arguments pass exactly when every one of them is safe; otherwise
      the error names the first one that is not. */
  lemma {:induction false} DiffAccepted(args: seq<string>)
    ensures DiffVerdict(args) == Pass <==> forall k :: 0 <= k < |args| ==> SafeDiffArg(args[k])
    ensures DiffVerdict(args).Fail? ==>
      exists k :: 0 <= k < |args| && !SafeDiffArg(args[k]) && DiffVerdict(args) == DiffArgVerdict(args[k])
        && forall j :: 0 <= j < k ==> SafeDiffArg(args[j])
    decreases |args|
  {
    if args != [] {
      DiffArgAccepted(args[0]);
      DiffAccepted(args[1..]);
      if DiffArgVerdict(args[0]).Fail? {
        assert !SafeDiffArg(args[0]);
      } else if DiffVerdict(args[1..]).Fail? {
        var k :| 0 <= k < |args[1..]| && !SafeDiffArg(args[1..][k]) && DiffVerdict(args[1..]) == DiffArgVerdict(args[1..][k])
          && forall j :: 0 <= j < k ==> SafeDiffArg(args[1..][j]);
        assert args[k + 1] == args[1..][k];
        assert forall j :: 0 <= j < k + 1 ==> SafeDiffArg(args[j]) by {
          forall j | 0 <= j < k + 1 ensures SafeDiffArg(args[j]) {
            if j > 0 { assert args[j] == args[1..][j - 1]; }
          }
        }
      } else {
        assert forall k :: 0 <= k < |args| ==> SafeDiffArg(args[k]) by {
          forall k | 0 <= k < |args| ensures SafeDiffArg(args[k]) {
            if k > 0 { assert args[k] == args[1..][k - 1]; }
          }
        }
      }
    }
  }

  method ValidateDiffArgs(args: seq<string>) returns (r: Outcome<ValidationError>)
    ensures r == DiffVerdict(args)
  {
    var i := 0;
    while i < |args|
      invariant 0 <= i <= |args|
      invariant DiffVerdict(args) == DiffVerdict(args[i..])
    {
      assert args[i..][1..] == args[i + 1..];
      var arg := args[i];
      if HasPrefix(arg, "-") && arg !in AllowedDiffFlags {
        return Fail(ValidationError("git_diff_arg", Arg(arg), "git diff argument not allowed"));
      }
      if Contains(arg, ";") || Contains(arg, "|") || Contains(arg, "&") {
        return Fail(ValidationError("git_diff_arg", Arg(arg), "potentially dangerous characters in git argument"));
      }
      i := i + 1;
    }
    return Pass;
  }

  predicate RemoteChar(c: char) {
    ('a' <= c <= 'z') || ('A' <= c <= 'Z') || ('0' <= c <= '9') || c == '-' || c == '_'
  }

  predicate BranchChar(c: char) {
    RemoteChar(c) || c == '/' || c == '.'
  }

  function PushVerdict(args: seq<string>): Outcome<ValidationError> {
    if |args| != 2 then
      Fail(ValidationError("git_push_args", ArgList(args), "git push requires exactly 2 arguments: remote and branch"))
    else if exists i :: 0 <= i < |args[0]| && !RemoteChar(args[0][i]) then
      Fail(ValidationError("git_remote", Arg(args[0]), "invalid characters in remote name"))
    else if exists i :: 0 <= i < |args[1]| && !BranchChar(args[1][i]) then
      Fail(ValidationError("git_branch", Arg(args[1]), "invalid characters in branch name"))
    else Pass
  }

  /** The loop over one name: true when some character fails `ok`. */
  method HasBadChar(name: string, ok: char -> bool) returns (bad: bool)
    ensures bad <==> exists i :: 0 <= i < |name| && !ok(name[i])
  {
    for i := 0 to |name|
      invariant forall j :: 0 <= j < i ==> ok(name[j])
    {
      if !ok(name[i]) {
        return true;
      }
    }
    return false;
  }

  method ValidatePushArgs(args: seq<string>) returns (r: Outcome<ValidationError>)
    ensures r == PushVerdict(args)
  {
    if |args| != 2 {
      return Fail(ValidationError("git_push_args", ArgList(args), "git push requires exactly 2 arguments: remote and branch"));
    }
    var remote := args[0];
    var branch := args[1];
    var bad := HasBadChar(remote, RemoteChar);
    if bad {
      return Fail(ValidationError("git_remote", Arg(remote), "invalid characters in remote name"));
    }
    bad := HasBadChar(branch, BranchChar);
    if bad {
      return Fail(ValidationError("git_branch", Arg(branch), "invalid characters in branch name"));
    }
    return Pass;
  }

  /** Push passes exactly for a remote and a branch made of their permitted
      characters; the empty remote among them. */
  lemma PushAccepted(args: seq<string>)
    ensures PushVerdict(args) == Pass <==>
      |args| == 2 && (forall i :: 0 <= i < |args[0]| ==> RemoteChar(args[0][i]))
                  && (forall i :: 0 <= i < |args[1]| ==> BranchChar(args[1][i]))
  {
  }

  /** An empty remote is accepted; only the branch is then checked. */
  lemma EmptyRemotePasses(branch: string)
    ensures PushVerdict(["", branch]) == Pass <==> forall i :: 0 <= i < |branch| ==> BranchChar(branch[i])
  {
    assert ["", branch][0] == "" && ["", branch][1] == branch;
  }

  /** Spaces, separators and quotes, which a shell would act on, never pass. */
  lemma PushRejectsShellCharacters(args: seq<string>, i: nat)
    requires |args| == 2 && i < |args[1]|
    requires args[1][i] in {' ', ';', '|', '&', '$', '`', '\'', '"'}
    ensures PushVerdict(args).Fail?
  {
    assert !BranchChar(args[1][i]);
  }

  function ConfigVerdict(args: seq<string>): Outcome<ValidationError> {
    if |args| != 1 then
      Fail(ValidationError("git_config_args", ArgList(args), "git config requires exactly 1 argument"))
    else if args[0] !in AllowedConfigKeys then
      Fail(ValidationError("git_config_key", Arg(args[0]), "git config key not allowed"))
    else Pass
  }

  /** Config passes exactly for the single argument `user.name` or `user.email`. */
  lemma ConfigAccepted(args: seq<string>)
    ensures ConfigVerdict(args) == Pass <==> args == ["user.name"] || args == ["user.email"]
  {
    if |args| == 1 {
      assert args == [args[0]];
    }
  }

  function CommandVerdict(command: string, args: seq<string>): Outcome<ValidationError> {
    if command !in AllowedCommands then
      Fail(ValidationError("git_command", Arg(command), "git command not allowed"))
    else if command == "diff" then DiffVerdict(args)
    else if command == "push" then PushVerdict(args)
    else if command == "config" then ConfigVerdict(args)
    else Pass
  }

  method ValidateGitCommand(command: string, args: seq<string>) returns (r: Outcome<ValidationError>)
    ensures r == CommandVerdict(command, args)
  {
    if command !in AllowedCommands {
      return Fail(ValidationError("git_command", Arg(command), "git command not allowed"));
    }
    if command == "diff" {
      r := ValidateDiffArgs(args);
    } else if command == "push" {
      r := ValidatePushArgs(args);
    } else if command == "config" {
      r := ValidateConfigArgs(args);
    } else {
      r := Pass;
    }
  }

  method ValidateConfigArgs(args: seq<string>) returns (r: Outcome<ValidationError>)
    ensures r == ConfigVerdict(args)
  {
    if |args| != 1 {
      return Fail(ValidationError("git_config_args", ArgList(args), "git config requires exactly 1 argument"));
    }
    var key := args[0];
    if key !in AllowedConfigKeys {
      return Fail(ValidationError("git_config_key", Arg(key), "git config key not allowed"));
    }
    return Pass;
  }

  /** Only the four whitelisted commands can pass, and a refused command is
      reported as such whatever its arguments. */
  lemma CommandWhitelist(command: string, args: seq<string>)
    ensures CommandVerdict(command, args) == Pass ==> command in AllowedCommands
    ensures command !in AllowedCommands ==>
      CommandVerdict(command, args) == Fail(ValidationError("git_command", Arg(command), "git command not allowed"))
  {
  }

  /** `status` is accepted with any arguments at all. */
  lemma StatusTakesAnyArgs(args: seq<string>)
    ensures CommandVerdict("status", args) == Pass
  {
    assert "status" in AllowedCommands;
    assert "status" != "diff" && "status" != "push" && "status" != "config";
  }

  /** A whitelisted command passes exactly when its own argument check does. */
  lemma CommandAccepted(command: string, args: seq<string>)
    requires command in AllowedCommands
    ensures CommandVerdict(command, args) == Pass <==>
      (command == "diff" ==> forall k :: 0 <= k < |args| ==> SafeDiffArg(args[k]))
      && (command == "push" ==> PushVerdict(args) == Pass)
      && (command == "config" ==> (args == ["user.name"] || args == ["user.email"]))
  {
    DiffAccepted(args);
    ConfigAccepted(args);
  }
}
