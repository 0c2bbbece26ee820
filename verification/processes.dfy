/** A handle on an external process, after `System.Diagnostics.Process`: the handle is
    started, waited for, queried for its exit code and closed. The external program itself
    is opaque; all the model sees of it is the exit code it produces for a given executable
    and argument string. */
module Processes {
  import opened Wrappers

  datatype ProcessState =
    | NotStarted
    | Running
    | Exited(exitCode: int)
    | Released

  /** The calls a client makes on a handle, in the order it makes them. */
  datatype ProcessEvent =
    | Started
    | Waited
    | ExitCodeRead(code: int)
    | Closed

  /** One call on a handle in state `s`, when the program exits with `code`; `None` when the
      call is illegal there (`WaitForExit` or `ExitCode` with no process associated, or
      `ExitCode` before the process has exited, both of which raise in .NET). */
  function Step(s: ProcessState, e: ProcessEvent, code: int): Option<ProcessState>
  {
    match e
    case Started => if s == NotStarted then Some(Running) else None
    case Waited =>
      if s == Running || s.Exited? then Some(Exited(code)) else None
    case ExitCodeRead(c) => if s == Exited(c) then Some(s) else None
    case Closed => Some(Released)
  }

  /** The state a fresh handle reaches through the calls `h`, or `None` if one is illegal. */
  function Replay(h: seq<ProcessEvent>, code: int): Option<ProcessState>
  {
    if h == [] then Some(NotStarted)
    else
      match Replay(h[..|h| - 1], code)
      case None => None
      case Some(s) => Step(s, h[|h| - 1], code)
  }

  /** Every prefix of a legal history is legal. */
  lemma {:induction false} ReplayPrefix(h: seq<ProcessEvent>, code: int, k: nat)
    requires Replay(h, code).Some? && k <= |h|
    ensures Replay(h[..k], code).Some?
    decreases |h|
  {
    if k < |h| {
      assert h[..|h| - 1][..k] == h[..k];
      ReplayPrefix(h[..|h| - 1], code, k);
    } else {
      assert h[..k] == h;
    }
  }

  /** Once a legal history contains `Closed`, the handle stays released. */
  lemma {:induction false} ReplayAfterClose(h: seq<ProcessEvent>, code: int, i: nat)
    requires Replay(h, code).Some? && i < |h| && h[i] == Closed
    ensures Replay(h, code) == Some(Released)
    decreases |h|
  {
    if i < |h| - 1 {
      assert h[..|h| - 1][i] == Closed;
      ReplayAfterClose(h[..|h| - 1], code, i);
    }
  }

  /** In a legal history the exit code is never queried after the handle is closed, is only
      queried after a wait, and is always the code the program exited with. */
  lemma ExitCodeReadBeforeClose(h: seq<ProcessEvent>, code: int)
    requires Replay(h, code).Some?
    ensures forall i, j | 0 <= i < j < |h| && h[i] == Closed :: !h[j].ExitCodeRead?
    ensures forall j | 0 <= j < |h| && h[j].ExitCodeRead? ::
      h[j].code == code && Waited in h[..j]
  {
    forall i, j | 0 <= i < j < |h| && h[i] == Closed
      ensures !h[j].ExitCodeRead?
    {
      ReplayPrefix(h, code, j + 1);
      assert h[..j + 1][..j] == h[..j];
      assert h[..j][i] == Closed;
      ReplayAfterClose(h[..j], code, i);
    }
    forall j | 0 <= j < |h| && h[j].ExitCodeRead?
      ensures h[j].code == code && Waited in h[..j]
    {
      ReplayPrefix(h, code, j + 1);
      assert h[..j + 1][..j] == h[..j];
      ExitedOnlyAfterWait(h[..j], code);
    }
  }

  /** A handle that has exited was waited for, and holds the program's exit code. */
  lemma {:induction false} ExitedOnlyAfterWait(h: seq<ProcessEvent>, code: int)
    requires Replay(h, code).Some? && Replay(h, code).value.Exited?
    ensures Replay(h, code) == Some(Exited(code)) && Waited in h
    decreases |h|
  {
    var last := h[|h| - 1];
    if last != Waited {
      ExitedOnlyAfterWait(h[..|h| - 1], code);
      assert h == h[..|h| - 1] + [last];
    }
  }

  class Process {
    const fileName: string
    const arguments: string
    /** The external program: the exit code it produces when run with these arguments. */
    const program: (string, string) -> int
    var state: ProcessState
    /** The calls made on this handle so far. */
    var history: seq<ProcessEvent>

    /** The handle's state is the one its history of calls leads to. */
    ghost predicate Valid()
      reads this
    {
      Replay(history, program(fileName, arguments)) == Some(state)
    }

    constructor (fileName: string, arguments: string, program: (string, string) -> int)
      ensures Valid()
      ensures this.fileName == fileName && this.arguments == arguments && this.program == program
      ensures state == NotStarted && history == []
    {
      this.fileName := fileName;
      this.arguments := arguments;
      this.program := program;
      state := NotStarted;
      history := [];
    }

    method Start()
      requires Valid() && state == NotStarted
      modifies this
      ensures Valid()
      ensures state == Running && history == old(history) + [Started]
    {
      state := Running;
      history := history + [Started];
      assert history[..|history| - 1] == old(history);
    }

    /** Blocks until the program has exited; there is no timeout. */
    method WaitForExit()
      requires Valid() && (state == Running || state.Exited?)
      modifies this
      ensures Valid()
      ensures state == Exited(program(fileName, arguments))
      ensures history == old(history) + [Waited]
    {
      state := Exited(program(fileName, arguments));
      history := history + [Waited];
      assert history[..|history| - 1] == old(history);
    }

    /** `Process.ExitCode`: only defined once the program has exited and before the handle
        is released. */
    method ExitCode() returns (code: int)
      requires Valid() && state.Exited?
      modifies this
      ensures Valid()
      ensures code == program(fileName, arguments) && state == old(state)
      ensures history == old(history) + [ExitCodeRead(code)]
    {
      code := state.exitCode;
      ExitedOnlyAfterWait(history, program(fileName, arguments));
      history := history + [ExitCodeRead(code)];
      assert history[..|history| - 1] == old(history);
    }

    method Close()
      requires Valid()
      modifies this
      ensures Valid()
      ensures state == Released && history == old(history) + [Closed]
    {
      state := Released;
      history := history + [Closed];
      assert history[..|history| - 1] == old(history);
    }
  }
}
