/** The post-build hook: after a build, resolve the archive it produced, compose a message
    from the build parameters and the current commit, and hand both to `DeployGate.Deploy`. */
module PostprocessBuild {
  import opened Wrappers
  import opened Strings
  import opened Processes
  import DeployGate

  // ---------------------------------------------------------------------------------------
  // Archive resolution
  // ---------------------------------------------------------------------------------------

  /** The build system's target platform; only iOS and Android have a known archive. */
  datatype BuildTarget = IOS | Android | Other(name: string)

  /** Where an iOS build places its archive, relative to the build output path. */
  const IosArchiveSuffix: string := "/build/Unity-iPhone.ipa"

  /** `File.Exists` over the set of existing files; like .NET, the empty path never exists. */
  predicate FileExists(files: set<string>, path: string)
  {
    path != "" && path in files
  }

  /** The archive path the hook expects for a target and output path, `""` when it has none. */
  function ExpectedArchivePath(target: BuildTarget, path: string): string
  {
    match target
    case IOS => path + IosArchiveSuffix
    case Android => path
    case Other(_) => ""
  }

  /** Recovers the build output path from an archive path of a supported target. */
  function OutputPathOf(target: BuildTarget, archivePath: string): Option<string>
  {
    match target
    case IOS =>
      if |archivePath| >= |IosArchiveSuffix|
         && archivePath[|archivePath| - |IosArchiveSuffix|..] == IosArchiveSuffix
      then Some(archivePath[..|archivePath| - |IosArchiveSuffix|])
      else None
    case Android => Some(archivePath)
    case Other(_) => None
  }

  /** For iOS and Android the expected archive path determines the output path: the suffix is
      appended verbatim, or nothing is. Any other target has no archive path at all. */
  lemma OutputPathRoundTrip(target: BuildTarget, path: string)
    ensures target.Other? <==> OutputPathOf(target, ExpectedArchivePath(target, path)).None?
    ensures !target.Other? ==> OutputPathOf(target, ExpectedArchivePath(target, path)) == Some(path)
  {
  }

  /** The `ArgumentException` raised when the archive is missing, naming the path tried. */
  datatype ResolveError = ArchiveNotFound(archivePath: string)

  /** `ResolveArchivePath`: the candidate path for the target, returned when that file exists. */
  method ResolveArchivePath(target: BuildTarget, path: string, files: set<string>)
    returns (r: Result<string, ResolveError>)
    ensures r.Success? <==> FileExists(files, ExpectedArchivePath(target, path))
    ensures r.Success? ==> r.value == ExpectedArchivePath(target, path) && r.value in files
    ensures r.Failure? ==> r.error == ArchiveNotFound(ExpectedArchivePath(target, path))
    ensures target.Other? ==> r == Failure(ArchiveNotFound(""))
    ensures target == IOS && r.Success? ==> OutputPathOf(IOS, r.value) == Some(path)
  {
    var archivePath := "";
    match target {
      case IOS => archivePath := path + IosArchiveSuffix;
      case Android => archivePath := path;
      case Other(_) =>
    }
    if !FileExists(files, archivePath) {
      return Failure(ArchiveNotFound(archivePath));
    }
    OutputPathRoundTrip(target, path);
    return Success(archivePath);
  }

  // ---------------------------------------------------------------------------------------
  // Message composition
  // ---------------------------------------------------------------------------------------

  const BuildParameterUser: string := "BUILD_USER"
  const BuildParameterBranch: string := "BUILD_BRANCH"
  const BuildParameterEnvironment: string := "BUILD_ENVIRONMENT"
  const BuildParameterEditorVersion: string := "BUILD_EDITOR_VERSION"

  /** The label each build parameter is rendered under. */
  const MessagePrefixes: map<string, string> := map[
    BuildParameterUser := "User",
    BuildParameterBranch := "Branch",
    BuildParameterEnvironment := "Environment",
    BuildParameterEditorVersion := "Unity"
  ]

  const CommitLabel: string := "Commit"

  /** The process environment: a variable that is not set is absent from the map. */
  type Environment = map<string, string>

  /** `Environment.GetEnvironmentVariable`: `None` stands for C#'s `null`. */
  function GetEnvironmentVariable(env: Environment, name: string): Option<string>
  {
    if name in env then Some(env[name]) else None
  }

  /** One `<prefix>: <value>` line of the message. */
  datatype MessageLine = MessageLine(prefix: string, value: string)

  function RenderLine(line: MessageLine): string
  {
    line.prefix + ": " + line.value + "\n"
  }

  function Render(lines: seq<MessageLine>): string
  {
    if lines == [] then "" else RenderLine(lines[0]) + Render(lines[1..])
  }

  lemma {:induction false} RenderAppend(a: seq<MessageLine>, b: seq<MessageLine>)
    ensures Render(a + b) == Render(a) + Render(b)
    decreases |a|
  {
    if a != [] {
      assert (a + b)[1..] == a[1..] + b;
      RenderAppend(a[1..], b);
    } else {
      assert a + b == b;
    }
  }

  /** `GenerateBuildMessage`: nothing when the variable is null or empty, otherwise its line
      under the label the table gives it. The table is only consulted for a present value. */
  function GenerateBuildMessage(env: Environment, buildParameter: string): (r: string)
    requires buildParameter in MessagePrefixes
      || IsNullOrEmpty(GetEnvironmentVariable(env, buildParameter))
    ensures r == "" <==> IsNullOrEmpty(GetEnvironmentVariable(env, buildParameter))
    ensures r != "" ==>
      r == RenderLine(MessageLine(MessagePrefixes[buildParameter], env[buildParameter]))
  {
    var value := GetEnvironmentVariable(env, buildParameter);
    if IsNullOrEmpty(value) then ""
    else RenderLine(MessageLine(MessagePrefixes[buildParameter], value.value))
  }

  /** `GenerateCommitMessage`, with the output of `git rev-parse HEAD` given as `gitOutput`:
      always a `Commit:` line, whose revision is that output without trailing white space. */
  function GenerateCommitMessage(gitOutput: string): (r: string)
    ensures |r| >= |CommitLabel| + 3
    ensures r[..|CommitLabel| + 2] == CommitLabel + ": " && r[|r| - 1] == '\n'
    ensures var revision := r[|CommitLabel| + 2..|r| - 1];
      revision <= gitOutput && NoTrailingWhiteSpace(revision)
      && forall i | |revision| <= i < |gitOutput| :: IsWhiteSpace(gitOutput[i])
  {
    var r := RenderLine(MessageLine(CommitLabel, TrimEnd(gitOutput)));
    assert r[|CommitLabel| + 2..|r| - 1] == TrimEnd(gitOutput);
    r
  }

  /** A part of the message: a build parameter, or the commit revision. */
  datatype MessageField = Parameter(name: string) | Revision

  predicate KnownField(field: MessageField)
  {
    field.Parameter? ==> field.name in MessagePrefixes
  }

  /** The message's parts, in the order they are rendered. */
  const MessageLayout: seq<MessageField> := [
    Parameter(BuildParameterUser),
    Parameter(BuildParameterBranch),
    Revision,
    Parameter(BuildParameterEnvironment),
    Parameter(BuildParameterEditorVersion)
  ]

  function LabelOf(field: MessageField): string
    requires KnownField(field)
  {
    match field
    case Parameter(name) => MessagePrefixes[name]
    case Revision => CommitLabel
  }

  /** The line a part contributes: none for a null or empty variable, always one for the
      revision. */
  function FieldLines(field: MessageField, env: Environment, revision: string): seq<MessageLine>
    requires KnownField(field)
  {
    match field
    case Revision => [MessageLine(CommitLabel, revision)]
    case Parameter(name) =>
      var value := GetEnvironmentVariable(env, name);
      if IsNullOrEmpty(value) then [] else [MessageLine(LabelOf(field), value.value)]
  }

  function LayoutLines(fields: seq<MessageField>, env: Environment, revision: string)
    : seq<MessageLine>
    requires forall k | 0 <= k < |fields| :: KnownField(fields[k])
  {
    if fields == [] then []
    else FieldLines(fields[0], env, revision) + LayoutLines(fields[1..], env, revision)
  }

  /** The lines of the deploy message, as the layout defines them. */
  function MessageLines(env: Environment, revision: string): seq<MessageLine>
  {
    LayoutLines(MessageLayout, env, revision)
  }

  /** `GenerateMessage`, with the output of `git rev-parse HEAD` given as `gitOutput`: the
      message is built up part by part and renders exactly the layout's lines. */
  method GenerateMessage(env: Environment, gitOutput: string) returns (message: string)
    ensures message == Render(MessageLines(env, TrimEnd(gitOutput)))
  {
    message := "";
    message := message + GenerateBuildMessage(env, BuildParameterUser);
    message := message + GenerateBuildMessage(env, BuildParameterBranch);
    message := message + GenerateCommitMessage(gitOutput);
    message := message + GenerateBuildMessage(env, BuildParameterEnvironment);
    message := message + GenerateBuildMessage(env, BuildParameterEditorVersion);
    MessageRendering(env, gitOutput);
    ConcatFive(GenerateBuildMessage(env, BuildParameterUser), GenerateBuildMessage(env, BuildParameterBranch),
      GenerateCommitMessage(gitOutput), GenerateBuildMessage(env, BuildParameterEnvironment),
      GenerateBuildMessage(env, BuildParameterEditorVersion));
  }

  /** Appending five strings in turn to the empty string concatenates them. */
  lemma ConcatFive(a: string, b: string, c: string, d: string, e: string)
    ensures "" + a + b + c + d + e == a + (b + (c + (d + e)))
  {
  }

  /** The five parts, rendered one after the other, are the layout's rendering. */
  lemma MessageRendering(env: Environment, gitOutput: string)
    ensures Render(MessageLines(env, TrimEnd(gitOutput)))
      == GenerateBuildMessage(env, BuildParameterUser)
       + (GenerateBuildMessage(env, BuildParameterBranch)
       + (GenerateCommitMessage(gitOutput)
       + (GenerateBuildMessage(env, BuildParameterEnvironment)
       + GenerateBuildMessage(env, BuildParameterEditorVersion))))
  {
    RenderFiveParts(MessageLayout, env, TrimEnd(gitOutput));
    FieldRendering(MessageLayout[0], env, gitOutput);
    FieldRendering(MessageLayout[1], env, gitOutput);
    FieldRendering(MessageLayout[2], env, gitOutput);
    FieldRendering(MessageLayout[3], env, gitOutput);
    FieldRendering(MessageLayout[4], env, gitOutput);
  }

  /** A five-part layout renders as its five parts' renderings, in order. */
  lemma RenderFiveParts(fields: seq<MessageField>, env: Environment, revision: string)
    requires |fields| == 5 && forall k | 0 <= k < |fields| :: KnownField(fields[k])
    ensures Render(LayoutLines(fields, env, revision))
      == Render(FieldLines(fields[0], env, revision)) + (Render(FieldLines(fields[1], env, revision))
       + (Render(FieldLines(fields[2], env, revision)) + (Render(FieldLines(fields[3], env, revision))
       + Render(FieldLines(fields[4], env, revision)))))
  {
    var tail1, tail2, tail3, tail4 := fields[1..], fields[2..], fields[3..], fields[4..];
    assert tail1[1..] == tail2 && tail2[1..] == tail3 && tail3[1..] == tail4 && tail4[1..] == [];
    RenderLayoutStep(tail4, env, revision);
    RenderLayoutStep(tail3, env, revision);
    RenderLayoutStep(tail2, env, revision);
    RenderLayoutStep(tail1, env, revision);
    RenderLayoutStep(fields, env, revision);
  }

  /** Rendering the layout renders its first part, then the rest. */
  lemma RenderLayoutStep(fields: seq<MessageField>, env: Environment, revision: string)
    requires fields != [] && forall k | 0 <= k < |fields| :: KnownField(fields[k])
    ensures Render(LayoutLines(fields, env, revision))
      == Render(FieldLines(fields[0], env, revision)) + Render(LayoutLines(fields[1..], env, revision))
  {
    RenderAppend(FieldLines(fields[0], env, revision), LayoutLines(fields[1..], env, revision));
  }

  /** Each part renders as the function the hook calls for it. */
  lemma FieldRendering(field: MessageField, env: Environment, gitOutput: string)
    requires KnownField(field)
    ensures Render(FieldLines(field, env, TrimEnd(gitOutput)))
      == if field.Revision? then GenerateCommitMessage(gitOutput)
         else GenerateBuildMessage(env, field.name)
  {
  }

  // ---------------------------------------------------------------------------------------
  // What the message says
  // ---------------------------------------------------------------------------------------

  /** The part holds a value: the revision always does, a parameter when its variable is set
      and not empty. */
  predicate FieldPresent(field: MessageField, env: Environment)
  {
    field.Revision? || !IsNullOrEmpty(GetEnvironmentVariable(env, field.name))
  }

  /** `line` renders `field`: its label, and the revision or the variable's non-empty value. */
  predicate LineOf(line: MessageLine, field: MessageField, env: Environment, revision: string)
    requires KnownField(field)
  {
    line.prefix == LabelOf(field)
    && (field.Revision? ==> line.value == revision)
    && (field.Parameter? ==> GetEnvironmentVariable(env, field.name) == Some(line.value) && line.value != "")
  }

  predicate DistinctLabels(fields: seq<MessageField>)
    requires forall k | 0 <= k < |fields| :: KnownField(fields[k])
  {
    forall i, j | 0 <= i < j < |fields| :: LabelOf(fields[i]) != LabelOf(fields[j])
  }

  /** The index of the part labelled `prefix`, or `|fields|` when there is none. */
  function Position(prefix: string, fields: seq<MessageField>): (k: nat)
    requires forall k | 0 <= k < |fields| :: KnownField(fields[k])
    ensures k <= |fields|
    ensures k < |fields| ==> LabelOf(fields[k]) == prefix
    ensures forall j | 0 <= j < k :: LabelOf(fields[j]) != prefix
  {
    if fields == [] then 0
    else if LabelOf(fields[0]) == prefix then 0
    else 1 + Position(prefix, fields[1..])
  }

  /** With distinct labels, a part's label leads back to that part. */
  lemma PositionOfLabel(fields: seq<MessageField>, k: nat)
    requires forall k | 0 <= k < |fields| :: KnownField(fields[k])
    requires DistinctLabels(fields) && k < |fields|
    ensures Position(LabelOf(fields[k]), fields) == k
  {
  }

  /** Every line renders a part of the layout. */
  predicate Sourced(lines: seq<MessageLine>, fields: seq<MessageField>, env: Environment, revision: string)
    requires forall k | 0 <= k < |fields| :: KnownField(fields[k])
  {
    forall i | 0 <= i < |lines| ::
      Position(lines[i].prefix, fields) < |fields|
      && LineOf(lines[i], fields[Position(lines[i].prefix, fields)], env, revision)
  }

  /** The lines follow the order of the parts they render. */
  predicate Ordered(lines: seq<MessageLine>, fields: seq<MessageField>)
    requires forall k | 0 <= k < |fields| :: KnownField(fields[k])
  {
    forall i, j | 0 <= i < j < |lines| :: Position(lines[i].prefix, fields) < Position(lines[j].prefix, fields)
  }

  /** The line a present part renders. */
  function LineFor(field: MessageField, env: Environment, revision: string): MessageLine
    requires KnownField(field) && FieldPresent(field, env)
  {
    MessageLine(LabelOf(field), if field.Revision? then revision else env[field.name])
  }

  /** Every present part has its line. */
  predicate Complete(lines: seq<MessageLine>, fields: seq<MessageField>, env: Environment, revision: string)
    requires forall k | 0 <= k < |fields| :: KnownField(fields[k])
  {
    forall k | 0 <= k < |fields| && FieldPresent(fields[k], env) :: LineFor(fields[k], env, revision) in lines
  }

  /** The layout's lines render its present parts, each once, in the layout's order. */
  lemma LayoutLinesFaithful(fields: seq<MessageField>, env: Environment, revision: string)
    requires forall k | 0 <= k < |fields| :: KnownField(fields[k])
    requires DistinctLabels(fields)
    ensures Sourced(LayoutLines(fields, env, revision), fields, env, revision)
    ensures Ordered(LayoutLines(fields, env, revision), fields)
    ensures Complete(LayoutLines(fields, env, revision), fields, env, revision)
  {
    LayoutLinesSourced(fields, env, revision);
    LayoutLinesOrdered(fields, env, revision);
    LayoutLinesComplete(fields, env, revision);
  }

  /** A line of the rest of the layout sits one part further along in the whole layout. */
  lemma TailShift(fields: seq<MessageField>, env: Environment, revision: string)
    requires fields != [] && forall k | 0 <= k < |fields| :: KnownField(fields[k])
    requires DistinctLabels(fields)
    requires Sourced(LayoutLines(fields[1..], env, revision), fields[1..], env, revision)
    ensures var tail := LayoutLines(fields[1..], env, revision);
      forall i | 0 <= i < |tail| :: Position(tail[i].prefix, fields) == 1 + Position(tail[i].prefix, fields[1..])
  {
  }

  lemma {:induction false} LayoutLinesSourced(fields: seq<MessageField>, env: Environment, revision: string)
    requires forall k | 0 <= k < |fields| :: KnownField(fields[k])
    requires DistinctLabels(fields)
    ensures Sourced(LayoutLines(fields, env, revision), fields, env, revision)
    decreases |fields|
  {
    if fields != [] {
      var rest := fields[1..];
      var head, tail := FieldLines(fields[0], env, revision), LayoutLines(rest, env, revision);
      var lines := LayoutLines(fields, env, revision);
      assert lines == head + tail;
      assert DistinctLabels(rest);
      LayoutLinesSourced(rest, env, revision);
      TailShift(fields, env, revision);
      forall i | 0 <= i < |lines|
        ensures Position(lines[i].prefix, fields) < |fields|
        ensures LineOf(lines[i], fields[Position(lines[i].prefix, fields)], env, revision)
      {
        if i >= |head| {
          assert lines[i] == tail[i - |head|];
        }
      }
    }
  }

  lemma {:induction false} LayoutLinesOrdered(fields: seq<MessageField>, env: Environment, revision: string)
    requires forall k | 0 <= k < |fields| :: KnownField(fields[k])
    requires DistinctLabels(fields)
    ensures Ordered(LayoutLines(fields, env, revision), fields)
    decreases |fields|
  {
    if fields != [] {
      var rest := fields[1..];
      var head, tail := FieldLines(fields[0], env, revision), LayoutLines(rest, env, revision);
      var lines := LayoutLines(fields, env, revision);
      assert lines == head + tail;
      assert DistinctLabels(rest);
      LayoutLinesOrdered(rest, env, revision);
      LayoutLinesSourced(rest, env, revision);
      TailShift(fields, env, revision);
      forall i, j | 0 <= i < j < |lines|
        ensures Position(lines[i].prefix, fields) < Position(lines[j].prefix, fields)
      {
        assert lines[j] == tail[j - |head|];
        if i >= |head| {
          assert lines[i] == tail[i - |head|];
        }
      }
    }
  }

  lemma {:induction false} LayoutLinesComplete(fields: seq<MessageField>, env: Environment, revision: string)
    requires forall k | 0 <= k < |fields| :: KnownField(fields[k])
    ensures Complete(LayoutLines(fields, env, revision), fields, env, revision)
    decreases |fields|
  {
    if fields != [] {
      var rest := fields[1..];
      var head, tail := FieldLines(fields[0], env, revision), LayoutLines(rest, env, revision);
      var lines := LayoutLines(fields, env, revision);
      assert lines == head + tail;
      LayoutLinesComplete(rest, env, revision);
      forall k | 0 <= k < |fields| && FieldPresent(fields[k], env)
        ensures LineFor(fields[k], env, revision) in lines
      {
        if k == 0 {
          assert head == [LineFor(fields[0], env, revision)];
        } else {
          assert rest[k - 1] == fields[k];
        }
      }
    }
  }

  /** No two parts of the message share a label. */
  lemma LayoutIsDistinct()
    ensures DistinctLabels(MessageLayout)
  {
  }

  /** The part of the layout a build parameter is. */
  lemma ParameterPosition(name: string)
    requires name in MessagePrefixes
    ensures Position(MessagePrefixes[name], MessageLayout) < |MessageLayout|
    ensures MessageLayout[Position(MessagePrefixes[name], MessageLayout)] == Parameter(name)
  {
    var f := MessageLayout;
    LayoutIsDistinct();
    if name == BuildParameterUser { PositionOfLabel(f, 0); }
    else if name == BuildParameterBranch { PositionOfLabel(f, 1); }
    else if name == BuildParameterEnvironment { PositionOfLabel(f, 3); }
    else { PositionOfLabel(f, 4); }
  }

  /** The rank of a label in the message: User, Branch, Commit, Environment, Unity. */
  function Rank(prefix: string): nat
  {
    Position(prefix, MessageLayout)
  }

  /** The Commit line is always there, and it holds the revision. */
  lemma CommitLinePresent(env: Environment, revision: string)
    ensures MessageLine(CommitLabel, revision) in MessageLines(env, revision)
    ensures forall line | line in MessageLines(env, revision) && line.prefix == CommitLabel ::
      line.value == revision
  {
    var f, lines := MessageLayout, MessageLines(env, revision);
    LayoutIsDistinct();
    LayoutLinesFaithful(f, env, revision);
    PositionOfLabel(f, 2);
    assert FieldPresent(f[2], env) && LineFor(f[2], env, revision) == MessageLine(CommitLabel, revision);
    assert Sourced(lines, f, env, revision);
  }

  /** A set, non-empty build parameter has its line, holding its value. */
  lemma PresentParameterHasLine(env: Environment, revision: string, name: string)
    requires name in MessagePrefixes && !IsNullOrEmpty(GetEnvironmentVariable(env, name))
    ensures MessageLine(MessagePrefixes[name], env[name]) in MessageLines(env, revision)
  {
    var f := MessageLayout;
    LayoutLinesComplete(f, env, revision);
    ParameterPosition(name);
    var k := Position(MessagePrefixes[name], f);
    assert FieldPresent(f[k], env) && LineFor(f[k], env, revision) == MessageLine(MessagePrefixes[name], env[name]);
  }

  /** A build parameter's label appears only when the variable is set and not empty, and then
      with its value. */
  lemma LineHasPresentParameter(env: Environment, revision: string, name: string, line: MessageLine)
    requires name in MessagePrefixes && line in MessageLines(env, revision)
    requires line.prefix == MessagePrefixes[name]
    ensures GetEnvironmentVariable(env, name) == Some(line.value) && line.value != ""
  {
    var f, lines := MessageLayout, MessageLines(env, revision);
    LayoutIsDistinct();
    LayoutLinesFaithful(f, env, revision);
    ParameterPosition(name);
    var i :| 0 <= i < |lines| && lines[i] == line;
    assert Sourced(lines, f, env, revision);
  }

  /** The lines appear in the fixed order User, Branch, Commit, Environment, Unity, so no label
      appears twice. */
  lemma LinesInFixedOrder(env: Environment, revision: string)
    ensures var lines := MessageLines(env, revision);
      forall i, j | 0 <= i < j < |lines| :: Rank(lines[i].prefix) < Rank(lines[j].prefix)
  {
    LayoutIsDistinct();
    LayoutLinesFaithful(MessageLayout, env, revision);
    assert Ordered(MessageLines(env, revision), MessageLayout);
  }

  /** The message always holds at least the Commit line. */
  lemma MessageNeverEmpty(env: Environment, revision: string)
    ensures Render(MessageLines(env, revision)) != ""
  {
    CommitLinePresent(env, revision);
    var lines := MessageLines(env, revision);
    assert lines != [];
    assert Render(lines) == RenderLine(lines[0]) + Render(lines[1..]);
  }

  /** With only `BUILD_USER` set, the message is the User line and then the Commit line. */
  lemma UserOnlyMessage(user: string, revision: string)
    requires user != ""
    ensures Render(MessageLines(map[BuildParameterUser := user], revision))
      == "User: " + user + "\n" + ("Commit: " + revision + "\n")
  {
    var env, f := map[BuildParameterUser := user], MessageLayout;
    RenderFiveParts(f, env, revision);
    var userLine := MessageLine("User", user);
    assert FieldLines(f[0], env, revision) == [userLine];
    assert FieldLines(f[1], env, revision) == [] && FieldLines(f[3], env, revision) == [];
    assert FieldLines(f[4], env, revision) == [];
    assert Render([userLine]) == RenderLine(userLine) + Render([]);
    var commitLine := MessageLine(CommitLabel, revision);
    assert Render([commitLine]) == RenderLine(commitLine) + Render([]);
  }

  // ---------------------------------------------------------------------------------------
  // Reading a message back
  // ---------------------------------------------------------------------------------------

  /** Splits `<prefix>: <value>` at the first colon. */
  function ParseLine(text: string): Option<MessageLine>
  {
    match IndexOf(text, ':')
    case None => None
    case Some(k) =>
      if k + 1 < |text| && text[k + 1] == ' ' then Some(MessageLine(text[..k], text[k + 2..])) else None
  }

  /** Splits a message into its newline-terminated lines. */
  function ParseMessage(s: string): Option<seq<MessageLine>>
    decreases |s|
  {
    if s == "" then Some([])
    else
      match IndexOf(s, '\n')
      case None => None
      case Some(k) =>
        match ParseMessage(s[k + 1..])
        case None => None
        case Some(rest) =>
          match ParseLine(s[..k])
          case None => None
          case Some(line) => Some([line] + rest)
  }

  /** A line that reads back unambiguously: no colon or newline in its label, no newline in its
      value. */
  predicate PlainLine(line: MessageLine)
  {
    ':' !in line.prefix && '\n' !in line.prefix && '\n' !in line.value
  }

  lemma ParseRenderedLine(line: MessageLine)
    requires PlainLine(line)
    ensures ParseLine(line.prefix + ": " + line.value) == Some(line)
  {
    var text := line.prefix + ": " + line.value;
    assert text == line.prefix + [':'] + (" " + line.value);
    IndexOfAfter(line.prefix, ':', " " + line.value);
    assert text[..|line.prefix|] == line.prefix;
    assert text[|line.prefix| + 2..] == line.value;
  }

  /** Rendering then parsing gives back the lines. */
  lemma {:induction false} ParseRendered(lines: seq<MessageLine>)
    requires forall i | 0 <= i < |lines| :: PlainLine(lines[i])
    ensures ParseMessage(Render(lines)) == Some(lines)
    decreases |lines|
  {
    if lines != [] {
      var line, rest := lines[0], Render(lines[1..]);
      var text := line.prefix + ": " + line.value;
      assert '\n' !in text;
      var s := Render(lines);
      assert s == text + ['\n'] + rest;
      IndexOfAfter(text, '\n', rest);
      assert s[..|text|] == text;
      assert s[|text| + 1..] == rest;
      ParseRenderedLine(line);
      ParseRendered(lines[1..]);
      assert [line] + lines[1..] == lines;
    }
  }

  /** When no variable and not the revision holds a newline, the deploy message reads back as
      exactly its lines: one line per present part, in order. */
  lemma MessageReadsBack(env: Environment, revision: string)
    requires forall name | name in MessagePrefixes && name in env :: '\n' !in env[name]
    requires '\n' !in revision
    ensures ParseMessage(Render(MessageLines(env, revision))) == Some(MessageLines(env, revision))
  {
    var f, lines := MessageLayout, MessageLines(env, revision);
    LayoutIsDistinct();
    LayoutLinesSourced(f, env, revision);
    LabelsArePlain();
    forall i | 0 <= i < |lines|
      ensures PlainLine(lines[i])
    {
      var k := Position(lines[i].prefix, f);
      assert k < |f| && LineOf(lines[i], f[k], env, revision);
    }
    ParseRendered(lines);
  }

  /** No label holds a colon or a newline. */
  lemma LabelsArePlain()
    ensures forall k | 0 <= k < |MessageLayout| ::
      ':' !in LabelOf(MessageLayout[k]) && '\n' !in LabelOf(MessageLayout[k])
  {
  }

  // ---------------------------------------------------------------------------------------
  // The hook
  // ---------------------------------------------------------------------------------------

  /** An external command the hook runs. */
  datatype Command = Command(fileName: string, arguments: string)

  /** The command whose output is the current commit. */
  const GitRevParse: Command := Command("/usr/local/bin/git", "rev-parse HEAD")

  datatype PostprocessOutcome =
    | Aborted(error: ResolveError)
    | Deployed(termination: Option<int>)

  /** `OnPostprocessBuild`: resolving the archive comes first, so a missing archive aborts the
      hook before git or `dg` run; otherwise the message is composed (running git) and the
      archive is deployed with it, and `commands` lists the commands run, in order. */
  method OnPostprocessBuild(target: BuildTarget, path: string, files: set<string>,
                            env: Environment, gitOutput: string,
                            deployCommand: string, isBatchMode: bool, program: (string, string) -> int)
    returns (outcome: PostprocessOutcome, commands: seq<Command>)
    ensures outcome.Aborted? <==> !FileExists(files, ExpectedArchivePath(target, path))
    ensures outcome.Aborted? ==>
      outcome.error == ArchiveNotFound(ExpectedArchivePath(target, path)) && commands == []
    ensures outcome.Deployed? ==>
      var message := Render(MessageLines(env, TrimEnd(gitOutput)));
      var arguments := DeployGate.DeployToken + ExpectedArchivePath(target, path) + "\""
        + DeployGate.MessageOption + message + "\"";
      && commands == [GitRevParse, Command(deployCommand, arguments)]
      && (outcome.termination.Some? <==> program(deployCommand, arguments) != 0 && isBatchMode)
      && (outcome.termination.Some? ==> outcome.termination.value == program(deployCommand, arguments))
  {
    var archive := ResolveArchivePath(target, path, files);
    if archive.Failure? {
      return Aborted(archive.error), [];
    }
    var message := GenerateMessage(env, gitOutput);
    commands := [GitRevParse];
    MessageNeverEmpty(env, TrimEnd(gitOutput));
    var termination, process := DeployGate.Deploy(deployCommand, archive.value, Some(message), isBatchMode, program);
    commands := commands + [Command(deployCommand, process.arguments)];
    outcome := Deployed(termination);
  }
}
