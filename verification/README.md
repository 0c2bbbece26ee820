# DeployGate post-build hook — a Dafny model

This project models the Unity editor hook that, once a mobile build finishes, hands the
build's archive to the DeployGate command line tool (`dg`):

1. **Archive resolution** (`PostprocessBuild.ResolveArchivePath`): an iOS build's archive is
   `<output path>/build/Unity-iPhone.ipa`, an Android build's archive is the output path
   itself, and any other target has the empty path. The path must name an existing file.
   Otherwise an `ArgumentException` naming the path is raised.
2. **Message composition** (`PostprocessBuild.GenerateMessage`): one `<label>: <value>` line
   per build parameter, in the fixed order User, Branch, Commit, Environment, Unity. The
   labels come from the table `MESSAGE_PREFIXES`. A parameter whose environment variable
   (`BUILD_USER`, `BUILD_BRANCH`, `BUILD_ENVIRONMENT`, `BUILD_EDITOR_VERSION`) is null or
   empty is left out. The Commit line is always present: it holds the output of
   `git rev-parse HEAD` with trailing white space trimmed.
3. **Deployment** (`DeployGate.Deploy`): runs `dg` with `deploy "<archive>"`, and with
   ` -m "<message>"` appended when the message is non-null and non-empty. Nothing is escaped.
   It waits for the process, reads its exit code before closing the handle, and in batch mode
   exits the editor with that code when the code is nonzero.

Modules, one per file:

- `Wrappers` (`wrappers.dfy`): `Option` (a C# `null`) and `Result` (a raised exception).
- `Strings` (`strings.dfy`): `string.IsNullOrEmpty`, `Char.IsWhiteSpace` and `string.TrimEnd`.
  It also has `IndexOf`, which the parsers below use.
- `Processes` (`processes.dfy`): a `System.Diagnostics.Process` handle as a class.
  - Its state follows a small state machine: not started, running, exited with a code, released.
  - The handle records every call made on it.
  - `Valid()` says the state is the one that history leads to.
  - `ExitCode` may only be called on an exited, unreleased handle.
  - The external program is an injected function from executable and arguments to exit code.
- `DeployGate` (`deploy_gate.dfy`): `GenerateArguments`, its inverse `ParseArguments`, and `Deploy`.
- `PostprocessBuild` (`postprocess_build.dfy`): archive resolution, message composition and
  `OnPostprocessBuild`.
  - A reference definition (`MessageLayout`, `MessageLines`) describes the message as the present
    parts of a five-part layout.
  - `GenerateMessage` builds the message by successive appends and is proved equal to that definition.
  - `ParseMessage` reads a message back into its lines.

Injected inputs replace what the hook reads from the machine:
- existing files: a `set<string>`;
- the environment: a `map<string, string>`, where a missing key is `null`;
- the output of git: a string;
- the configured `dg` path: a string;
- `Application.isBatchMode`: a `bool`;
- the `dg` program itself: a function giving its exit code.

`EditorApplication.Exit(code)` becomes the result `Some(code)`.

## Model

| member | source | states |
|---|---|---|
| `PostprocessBuild.ResolveArchivePath` | Assets/Scripts/Editor/ContinuousIntegration/DeployGate/PostprocessBuild.cs:65-79 | Succeeds iff the target's expected path names an existing file, and then returns exactly that path. Otherwise it fails with `ArchiveNotFound` of that path. An unsupported target always fails with the empty path. A successful iOS result leads back to the output path. |
| `PostprocessBuild.OutputPathRoundTrip` | Assets/Scripts/Editor/ContinuousIntegration/DeployGate/PostprocessBuild.cs:66-74 | For iOS the suffix `/build/Unity-iPhone.ipa` is appended verbatim, and stripping it gives the output path back. For Android the path is unchanged. Only other targets have no archive. |
| `PostprocessBuild.GenerateBuildMessage` | Assets/Scripts/Editor/ContinuousIntegration/DeployGate/PostprocessBuild.cs:99-105 | Empty iff the variable is null or empty. Otherwise it is the line `<label>: <value>\n` with the label from the table. The table is consulted only for a present value. |
| `PostprocessBuild.GenerateCommitMessage` | Assets/Scripts/Editor/ContinuousIntegration/DeployGate/PostprocessBuild.cs:111-113 | Always a `Commit: ` line ending in a newline. Its revision is a prefix of git's output with no trailing white space, and only white space was cut. |
| `PostprocessBuild.GenerateMessage` | Assets/Scripts/Editor/ContinuousIntegration/DeployGate/PostprocessBuild.cs:85-93 | The message built by five successive appends is the rendering of the layout's present lines, with the revision trimmed. |
| `PostprocessBuild.MessageRendering` | Assets/Scripts/Editor/ContinuousIntegration/DeployGate/PostprocessBuild.cs:86-91 | The layout's rendering is the User, Branch, Commit, Environment and Unity parts concatenated in that order. |
| `PostprocessBuild.LayoutIsDistinct` | Assets/Scripts/Editor/ContinuousIntegration/DeployGate/PostprocessBuild.cs:41-46 | The four table labels and `Commit` are pairwise distinct. |
| `PostprocessBuild.LayoutLinesFaithful` | Assets/Scripts/Editor/ContinuousIntegration/DeployGate/PostprocessBuild.cs:86-104 | For any layout with distinct labels, every line renders a present part with its value, the lines follow the layout's order, and every present part has its line. |
| `PostprocessBuild.CommitLinePresent` | Assets/Scripts/Editor/ContinuousIntegration/DeployGate/PostprocessBuild.cs:89 | The `Commit` line with the revision is always in the message, and every `Commit` line holds the revision. |
| `PostprocessBuild.PresentParameterHasLine` | Assets/Scripts/Editor/ContinuousIntegration/DeployGate/PostprocessBuild.cs:99-104 | A set, non-empty build parameter has its labelled line holding its value. |
| `PostprocessBuild.LineHasPresentParameter` | Assets/Scripts/Editor/ContinuousIntegration/DeployGate/PostprocessBuild.cs:100-103 | A parameter's label appears only when its variable is set and non-empty, and then with that value. This is the converse of `PresentParameterHasLine`. |
| `PostprocessBuild.LinesInFixedOrder` | Assets/Scripts/Editor/ContinuousIntegration/DeployGate/PostprocessBuild.cs:86-92 | Line labels strictly increase in the rank User < Branch < Commit < Environment < Unity, so no label appears twice. |
| `PostprocessBuild.MessageNeverEmpty` | Assets/Scripts/Editor/ContinuousIntegration/DeployGate/PostprocessBuild.cs:112 | The composed message is never empty. |
| `PostprocessBuild.UserOnlyMessage` | Assets/Scripts/Editor/ContinuousIntegration/DeployGate/PostprocessBuild.cs:86-92 | With only `BUILD_USER` set, the message is exactly `User: <user>\nCommit: <revision>\n`. |
| `PostprocessBuild.ParseRendered` | Assets/Scripts/Editor/ContinuousIntegration/DeployGate/PostprocessBuild.cs:104 | Lines whose labels hold no colon or newline, and whose values hold no newline, read back from their rendering. |
| `PostprocessBuild.MessageReadsBack` | Assets/Scripts/Editor/ContinuousIntegration/DeployGate/PostprocessBuild.cs:85-113 | When no variable value and not the revision holds a newline, the message parses back into exactly its lines. |
| `PostprocessBuild.OnPostprocessBuild` | Assets/Scripts/Editor/ContinuousIntegration/DeployGate/PostprocessBuild.cs:54-56 | A missing archive aborts with `ArchiveNotFound` before any command runs. Otherwise git runs and then `dg`, with `deploy "<archive>" -m "<message>"`. The editor is terminated with `dg`'s code iff that code is nonzero and batch mode is on. |
| `Strings.TrimEnd` | Assets/Scripts/Editor/ContinuousIntegration/DeployGate/PostprocessBuild.cs:131 | The result is a prefix of the input, does not end in white space, and only white space was removed. |
| `Strings.TrimEndUnique` | Assets/Scripts/Editor/ContinuousIntegration/DeployGate/PostprocessBuild.cs:131 | Those three properties determine the trimmed string. |
| `Strings.TrimEndIgnoresTrailingWhiteSpace` | Assets/Scripts/Editor/ContinuousIntegration/DeployGate/PostprocessBuild.cs:131 | Appending white space, such as git's final newline, does not change the revision. |
| `Strings.TrimEndIdempotent` | Assets/Scripts/Editor/ContinuousIntegration/DeployGate/PostprocessBuild.cs:131 | Trimming twice is trimming once. |
| `DeployGate.GenerateArguments` | Assets/Editor/Scripts/ContinuousIntegration/DeployGate.cs:50-59 | Always starts with `deploy "<archivePath>"`. It is exactly that iff the message is null or empty. Otherwise ` -m "<message>"` follows, verbatim. |
| `DeployGate.ParseGeneratedArguments` | Assets/Editor/Scripts/ContinuousIntegration/DeployGate.cs:52-56 | For quote-free inputs the argument string parses back to the path and the message. A null message and an empty one both read as no message. |
| `DeployGate.GenerateArgumentsInjective` | Assets/Editor/Scripts/ContinuousIntegration/DeployGate.cs:52-56 | For quote-free inputs, equal argument strings mean equal paths and equal messages, up to null versus empty. |
| `DeployGate.QuotesAreNotEscaped` | Assets/Editor/Scripts/ContinuousIntegration/DeployGate.cs:52-55 | A path that holds `" -m "` yields the same arguments as a shorter path plus a message. |
| `DeployGate.Deploy` | Assets/Editor/Scripts/ContinuousIntegration/DeployGate.cs:21-42 | Runs the configured executable with the generated arguments. The handle's history is exactly start, wait, read exit code, close. Termination is `Some(code)` iff the code is nonzero and batch mode is on, and carries that code. |
| `Processes.Process.constructor` | Assets/Editor/Scripts/ContinuousIntegration/DeployGate.cs:23-32 | A new handle is not started, has an empty history, and holds the executable and the arguments. |
| `Processes.Process.Start` | Assets/Editor/Scripts/ContinuousIntegration/DeployGate.cs:33 | Only an unstarted handle starts. It is then running, with `Started` recorded. |
| `Processes.Process.WaitForExit` | Assets/Editor/Scripts/ContinuousIntegration/DeployGate.cs:34 | Only a started handle is waited for. It then holds the program's exit code. |
| `Processes.Process.ExitCode` | Assets/Editor/Scripts/ContinuousIntegration/DeployGate.cs:35 | Callable only on an exited, unreleased handle. Returns the program's exit code. |
| `Processes.Process.Close` | Assets/Editor/Scripts/ContinuousIntegration/DeployGate.cs:36 | Releases the handle. |
| `Processes.ExitCodeReadBeforeClose` | Assets/Editor/Scripts/ContinuousIntegration/DeployGate.cs:33-36 | In any legal history of calls, the exit code is never read after `Close`. It is read only after a wait, and it is always the program's code. |

## Left out

- The processes themselves: starting git and `dg`, inheriting or redirecting their output, and any exception `Process.Start` raises for a missing executable. The `dg` program is an injected function from executable and arguments to exit code. Git's standard output is an input string.
- `GetCommit`: only its `TrimEnd` and the fixed command `/usr/local/bin/git rev-parse HEAD` are modelled. The command appears as `GitRevParse` in `OnPostprocessBuild`'s list of commands run.
- `File.Exists`: replaced by membership in a set of existing files. Like .NET, the empty path never exists, so an unsupported target always fails resolution.
- `Environment.GetEnvironmentVariable`: replaced by an injected map.
- `DeployGateSetting.GetOrDefault().CommandDeployGate`: the executable path is an opaque parameter.
- `EditorApplication.Exit` and `Application.isBatchMode`: an `Option<int>` result and a `bool` parameter. Nothing after the exit is modelled.
- The `IPostprocessBuild` registration, `callbackOrder` and `POSTPROCESS_BUILD_CALLBACK_ORDER`: editor plumbing.
- The unused constant `EnvironmentKeyCommandDeployGate`, and the flags `CreateNoWindow`, `UseShellExecute` and `RedirectStandardOutput`: they carry no behaviour.
- The text of the `ArgumentException` message: only the path it names is kept.
- Exit codes are unbounded integers rather than 32-bit values. Nothing here does arithmetic on them.
- `BuildTarget`: only iOS and Android are distinguished. Every other Unity target is `Other`.
- `PostprocessBuild.GenerateBuildMessage`: the dictionary lookup's `KeyNotFoundException` is a precondition rather than an error path. The precondition applies only when the lookup is reached, and the hook only ever passes the four table keys.
