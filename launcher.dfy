/** The elevation helper (`COMWizard.Launcher`): with the right arguments it
    either relaunches itself elevated, or, already elevated, connects to the
    coordinator's pipe and waits there for `Terminate`. */
module Launcher {
  import opened Common
  import opened Messages

  const PipePrefix: string := "comwizard.processlauncher-"

  /** `ERROR_CANCELLED`: the user declined the elevation prompt. */
  const ErrorCancelled: int := 1223

  /** The built-in Windows roles a principal may hold. */
  datatype BuiltInRole = Administrator | User | Guest | PowerUser | AccountOperator
                       | SystemOperator | PrintOperator | BackupOperator | Replicator

  /** `IsProcessElevated`: the current identity holds the Administrator role. */
  predicate IsProcessElevated(roles: set<BuiltInRole>)
  {
    Administrator in roles
  }

  /** The fields of the `ProcessStartInfo` the relaunch builds. */
  datatype StartInfo = StartInfo(fileName: Option<string>, useShellExecute: bool, verb: string,
                                 createNoWindow: bool, workingDirectory: string, argumentList: seq<string>)

  /** What `Process.Start` does with the request: starts the process, or
      throws a `Win32Exception` with a native error code, or some other
      exception. */
  datatype StartOutcome = Started | Win32Failure(nativeErrorCode: int) | OtherFailure

  /** How `Main` ends. */
  datatype Exit =
    | NotStarted
    /** Returned after starting the elevated copy. */
    | Relaunched
    /** `Environment.Exit(code)`. */
    | ExitCode(code: int)
    | Terminated
    /** The exception a failed read throws. */
    | ReadFailed

  /** The request to start this program again, elevated, on the same
      arguments in the same directory. */
  method RelaunchInfo(processPath: Option<string>, currentDirectory: string, args: seq<string>)
    returns (info: StartInfo)
    ensures info.fileName == processPath && info.useShellExecute && info.verb == "runas"
    ensures info.createNoWindow && info.workingDirectory == currentDirectory
    ensures info.argumentList == args
  {
    info := StartInfo(processPath, true, "runas", true, currentDirectory, []);
    for i := 0 to |args|
      invariant info.fileName == processPath && info.useShellExecute && info.verb == "runas"
      invariant info.createNoWindow && info.workingDirectory == currentDirectory
      invariant info.argumentList == args[..i]
    {
      info := info.(argumentList := info.argumentList + [args[i]]);
    }
  }

  /** The exit code of a failed relaunch. */
  function FailureCode(outcome: StartOutcome): (code: int)
    requires !outcome.Started?
    ensures code == ErrorCancelled <==> outcome == Win32Failure(ErrorCancelled)
    ensures code != ErrorCancelled ==> code == 1
  {
    match outcome
    case Win32Failure(e) => if e == ErrorCancelled then ErrorCancelled else 1
    case OtherFailure => 1
  }

  /** A failed relaunch never exits with 0, the code of the `return` after a
      successful start; and its code alone tells a declined elevation prompt
      apart from every other failure. */
  lemma FailureCodeDistinguishes(a: StartOutcome, b: StartOutcome)
    requires !a.Started? && !b.Started?
    ensures FailureCode(a) != 0
    ensures FailureCode(a) == FailureCode(b) <==>
              (a == Win32Failure(ErrorCancelled) <==> b == Win32Failure(ErrorCancelled))
  {
  }

  /** Reads and drops messages until `Terminate`, replying to none;
      `consumed` are the messages it read. */
  method AwaitTerminate(channel: MessageChannel) returns (exit: Exit, ghost consumed: seq<Message>)
    modifies channel
    ensures exit == (if Terminate in old(channel.inbox) then Terminated else ReadFailed)
    ensures old(channel.inbox) == consumed + channel.inbox
    ensures channel.inbox == AfterTerminate(old(channel.inbox))
    ensures channel.trace == old(channel.trace) + Receipts(consumed)
    ensures channel.broken == old(channel.broken)
  {
    consumed := [];
    while true
      invariant old(channel.inbox) == consumed + channel.inbox
      invariant channel.trace == old(channel.trace) + Receipts(consumed)
      invariant Terminate !in consumed
      invariant channel.broken == old(channel.broken)
      decreases |channel.inbox|
    {
      ghost var inbox := channel.inbox;
      var m := channel.Read();
      if m.None? {
        AfterTerminateSkips(consumed, []);
        assert consumed + [] == consumed;
        return ReadFailed, consumed;
      }
      ReadOne(consumed, inbox);
      consumed := consumed + [m.value];
      if m.value.Terminate? {
        return Terminated, consumed;
      }
    }
  }

  /** One more message read from `inbox` after `consumed`. */
  lemma ReadOne(consumed: seq<Message>, inbox: seq<Message>)
    requires Terminate !in consumed && inbox != []
    ensures consumed + inbox == (consumed + [inbox[0]]) + inbox[1..]
    ensures Receipts(consumed + [inbox[0]]) == Receipts(consumed) + [Received(inbox[0])]
    ensures Terminate in consumed + inbox <==> inbox[0] == Terminate || Terminate in inbox[1..]
    ensures inbox[0] == Terminate ==> AfterTerminate(consumed + inbox) == inbox[1..]
    ensures inbox[0] != Terminate ==> Terminate !in consumed + [inbox[0]]
    ensures AfterTerminate(consumed + inbox) == AfterTerminate(inbox)
  {
    assert inbox == [inbox[0]] + inbox[1..];
    assert (consumed + [inbox[0]])[..|consumed|] == consumed;
    AfterTerminateSkips(consumed, inbox);
  }

  /** `Main`. `roles` are the current identity's roles, `start` is what
      starting the elevated copy does. On success the program returns: only
      the elevated copy, started with `launched`, goes on. */
  method Run(args: seq<string>, roles: set<BuiltInRole>, processPath: Option<string>,
             currentDirectory: string, start: StartOutcome, channel: MessageChannel)
    returns (exit: Exit, launched: Option<StartInfo>, pipeName: Option<string>)
    modifies channel
    ensures !PipeArguments(args, PipePrefix) ==> exit == NotStarted && launched.None? && pipeName.None?
    ensures PipeArguments(args, PipePrefix) && !IsProcessElevated(roles) ==>
              launched.Some? && launched.value.verb == "runas" && launched.value.argumentList == args
              && launched.value.workingDirectory == currentDirectory && launched.value.fileName == processPath
              && pipeName.None?
              && exit == (if start.Started? then Relaunched else ExitCode(FailureCode(start)))
    ensures PipeArguments(args, PipePrefix) && IsProcessElevated(roles) ==>
              launched.None? && pipeName == Some(Trim(args[1]))
              && exit == (if Terminate in old(channel.inbox) then Terminated else ReadFailed)
              && channel.inbox == AfterTerminate(old(channel.inbox))
    ensures pipeName.None? ==> channel.inbox == old(channel.inbox) && channel.trace == old(channel.trace)
    ensures |old(channel.trace)| <= |channel.trace| && channel.trace[..|old(channel.trace)|] == old(channel.trace)
    ensures SentMessages(channel.trace[|old(channel.trace)|..]) == []
  {
    if !PipeArguments(args, PipePrefix) {
      assert channel.trace[|channel.trace|..] == [];
      return NotStarted, None, None;
    }
    if !IsProcessElevated(roles) {
      var info := RelaunchInfo(processPath, currentDirectory, args);
      assert channel.trace[|channel.trace|..] == [];
      if start.Started? {
        return Relaunched, Some(info), None;
      }
      return ExitCode(FailureCode(start)), Some(info), None;
    }
    pipeName := Some(Trim(args[1]));
    launched := None;
    ghost var trace := channel.trace;
    ghost var consumed;
    exit, consumed := AwaitTerminate(channel);
    assert channel.trace[|trace|..] == Receipts(consumed);
    ReceiptsSendNothing(consumed);
  }
}
