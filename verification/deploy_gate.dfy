/** Hands an archive to the DeployGate command line tool (`dg`): builds its argument string,
    runs it to completion and, in batch mode, turns a failure into the editor's exit code. */
module DeployGate {
  import opened Wrappers
  import opened Strings
  import opened Processes

  /** The sub-command and the opening quote of the archive path. */
  const DeployToken: string := "deploy \""
  /** The message option and the opening quote of the message. */
  const MessageOption: string := " -m \""

  /** The argument string for `dg`: `deploy "<archivePath>"`, followed by ` -m "<message>"`
      exactly when a message is given and non-empty. Nothing is escaped. */
  function GenerateArguments(archivePath: string, message: Option<string>): (r: string)
    ensures DeployToken + archivePath + "\"" <= r
    ensures IsNullOrEmpty(message) <==> r == DeployToken + archivePath + "\""
    ensures !IsNullOrEmpty(message) ==>
      r == DeployToken + archivePath + "\"" + MessageOption + message.value + "\""
  {
    var arguments := DeployToken + archivePath + "\"";
    if IsNullOrEmpty(message) then arguments else arguments + MessageOption + message.value + "\""
  }

  /** What a `dg deploy` argument string carries: the archive path and the message, `None`
      when no `-m` option is present. */
  datatype DeployRequest = DeployRequest(archivePath: string, message: Option<string>)

  /** Reads an argument string back, for paths and messages free of `"`. */
  function ParseArguments(s: string): Option<DeployRequest>
  {
    if !(DeployToken <= s) then None
    else
      var rest := s[|DeployToken|..];
      match IndexOf(rest, '"')
      case None => None
      case Some(k) =>
        var path, tail := rest[..k], rest[k + 1..];
        if tail == "" then Some(DeployRequest(path, None))
        else if MessageOption <= tail && |tail| > |MessageOption| + 1 && tail[|tail| - 1] == '"' then
          var text := tail[|MessageOption|..|tail| - 1];
          if '"' in text then None else Some(DeployRequest(path, Some(text)))
        else None
  }

  /** When neither the path nor the message contains a double quote, the argument string
      determines them: a null and an empty message both read back as no message. */
  lemma ParseGeneratedArguments(archivePath: string, message: Option<string>)
    requires '"' !in archivePath
    requires message.Some? ==> '"' !in message.value
    ensures ParseArguments(GenerateArguments(archivePath, message))
      == Some(DeployRequest(archivePath, if IsNullOrEmpty(message) then None else message))
  {
    var s := GenerateArguments(archivePath, message);
    var tail := if IsNullOrEmpty(message) then "" else MessageOption + message.value + "\"";
    assert s == DeployToken + (archivePath + ['"'] + tail);
    assert s[|DeployToken|..] == archivePath + ['"'] + tail;
    IndexOfAfter(archivePath, '"', tail);
    assert (archivePath + ['"'] + tail)[..|archivePath|] == archivePath;
    assert (archivePath + ['"'] + tail)[|archivePath| + 1..] == tail;
    if !IsNullOrEmpty(message) {
      assert tail[|MessageOption|..|tail| - 1] == message.value;
    }
  }

  /** Argument construction is injective on quote-free inputs, up to null versus empty message. */
  lemma GenerateArgumentsInjective(p1: string, m1: Option<string>, p2: string, m2: Option<string>)
    requires '"' !in p1 && '"' !in p2
    requires m1.Some? ==> '"' !in m1.value
    requires m2.Some? ==> '"' !in m2.value
    requires GenerateArguments(p1, m1) == GenerateArguments(p2, m2)
    ensures p1 == p2
    ensures IsNullOrEmpty(m1) <==> IsNullOrEmpty(m2)
    ensures !IsNullOrEmpty(m1) ==> m1 == m2
  {
    ParseGeneratedArguments(p1, m1);
    ParseGeneratedArguments(p2, m2);
  }

  /** Without escaping, a path holding a quote is indistinguishable from a path plus a message. */
  lemma QuotesAreNotEscaped()
    ensures GenerateArguments("a\" -m \"b", None) == GenerateArguments("a", Some("b"))
  {
  }

  /** `DeployGate.Deploy`: runs `command` with the generated arguments, waits for it, reads its
      exit code before closing the handle and, when that code is nonzero and the editor runs in
      batch mode, returns the code the editor must exit with (`EditorApplication.Exit`). */
  method Deploy(command: string, archivePath: string, message: Option<string>,
                isBatchMode: bool, program: (string, string) -> int)
    returns (termination: Option<int>, process: Process)
    ensures process.fileName == command
    ensures process.arguments == GenerateArguments(archivePath, message)
    ensures process.program == program && process.Valid()
    ensures process.history ==
      [Started, Waited, ExitCodeRead(program(command, process.arguments)), Closed]
    ensures termination.Some? <==> program(command, process.arguments) != 0 && isBatchMode
    ensures termination.Some? ==> termination.value == program(command, process.arguments)
  {
    process := new Process(command, GenerateArguments(archivePath, message), program);
    process.Start();
    process.WaitForExit();
    var exitCode := process.ExitCode();
    process.Close();
    if exitCode != 0 && isBatchMode {
      termination := Some(exitCode);
    } else {
      termination := None;
    }
  }
}
