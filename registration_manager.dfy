/** `RegistrationManager`: the coordinator's side of the launcher pipe, the
    split of the work into registrar chunks, and the disposal state. */
module RegistrationManagement {
  import opened Common
  import opened PEMetadata
  import opened Messages
  import Launcher
  import opened Interleaving

  const LauncherPrefix: string := "comwizard.processlauncher-"

  /** The launcher process as `Process.Start` hands it back: whether it has
      already exited when `ConnectAsync` looks, and with which code. */
  datatype LauncherProcess = LauncherProcess(hasExited: bool, exitCode: int)

  /** What the manager does to the world besides writing messages. */
  datatype Action = Disconnected | StreamDisposed | Killed | ProcessDisposed

  /** The exceptions the manager's operations end with. */
  datatype Fault =
    /** `InvalidOperationException("Failed to start launcher process.")` */
    | LaunchFailed
    /** The exception `WaitForConnectionAsync` throws. */
    | ConnectFailed
    /** `ObjectDisposedException` */
    | Disposed
    /** `NullReferenceException`: no launcher pipe yet. */
    | NotConnected
    | WriteFailed
    | ReadFailed
    /** `InvalidDataException("Expected registrar startup response")` */
    | UnexpectedReply
    /** `ArgumentOutOfRangeException` from `Chunk(0)`. */
    | EmptyChunk
    /** `OperationCanceledException` from the merged enumeration. */
    | OperationCanceled
    /** The exception the registrar of chunk `chunk` ended with, rethrown
        by the merged enumeration. */
    | RegistrarFaulted(chunk: nat)
    /** `NotSupportedException` from disposing the registrar of chunk
        `chunk` while its `MoveNextAsync` still runs, after the merged
        enumeration stopped early. */
    | DisposeFailed(chunk: nat)

  /** What the registrar of one chunk does: the results it yields, and
      whether its enumeration then throws instead of finishing. */
  datatype RegistrarRun = RegistrarRun(results: seq<Message>, faults: bool)

  /** The arguments the launcher is started with. */
  function LauncherArguments(pipeName: string): seq<string>
  {
    ["--pipe", pipeName]
  }

  /** The launcher the coordinator starts accepts its arguments and connects
      back to exactly the coordinator's pipe. */
  lemma LauncherAcceptsArguments(guid: string)
    requires GuidDigits(guid)
    ensures var name := LauncherPrefix + guid;
            PipeArguments(LauncherArguments(name), Launcher.PipePrefix)
            && Trim(LauncherArguments(name)[1]) == name
  {
    PipeNameTrimmed(LauncherPrefix, guid);
  }

  /** A launcher that is missing, or has already failed, is a failed
      launch; one that already exited with code 0 is not. */
  predicate LaunchFails(p: Option<LauncherProcess>)
  {
    p.None? || (p.value.hasExited && p.value.exitCode != 0)
  }

  /** A launcher whose elevated relaunch failed has exited with a code
      `ConnectAsync` takes for a failed launch. */
  lemma FailedRelaunchFails(outcome: Launcher.StartOutcome)
    requires !outcome.Started?
    ensures LaunchFails(Some(LauncherProcess(true, Launcher.FailureCode(outcome))))
  {
    Launcher.FailureCodeDistinguishes(outcome, outcome);
  }

  // ---------------------------------------------------------------------
  // Chunking

  /** `(int)Math.Ceiling(n / 2d)`. */
  function ChunkSize(n: nat): (size: nat)
    ensures n <= 2 * size <= n + 1
  {
    (n + 1) / 2
  }

  /** `Enumerable.Chunk(size)`: consecutive pieces of `size` items, the last
      one possibly shorter. */
  function Chunks<T>(xs: seq<T>, size: nat): (cs: seq<seq<T>>)
    requires size >= 1
    ensures forall k :: 0 <= k < |cs| ==> 1 <= |cs[k]| <= size
    ensures forall k :: 0 <= k < |cs| - 1 ==> |cs[k]| == size
    decreases |xs|
  {
    if xs == [] then []
    else if |xs| <= size then [xs]
    else [xs[..size]] + Chunks(xs[size..], size)
  }

  function Concat<T>(cs: seq<seq<T>>): seq<T>
  {
    if cs == [] then [] else cs[0] + Concat(cs[1..])
  }

  /** The chunks, put back together, are the input. */
  lemma {:induction false} ChunksConcat<T>(xs: seq<T>, size: nat)
    requires size >= 1
    ensures Concat(Chunks(xs, size)) == xs
    decreases |xs|
  {
    if xs != [] && |xs| > size {
      ChunksConcat(xs[size..], size);
      var cs := Chunks(xs, size);
      assert cs[0] == xs[..size] && cs[1..] == Chunks(xs[size..], size);
      assert xs == xs[..size] + xs[size..];
    } else if xs != [] {
      assert Concat([xs]) == xs + Concat([]);
    }
  }

  /** How `Register` splits the work: in halves (the first one the larger),
      failing on no work because the chunk size is then 0. */
  function Plan(files: seq<Metadata>): (r: Result<seq<seq<Metadata>>, Fault>)
    ensures r.Err? <==> files == []
    ensures r.Ok? ==> Concat(r.value) == files
  {
    if files == [] then Err(EmptyChunk)
    else
      ChunksConcat(files, ChunkSize(|files|));
      Ok(Chunks(files, ChunkSize(|files|)))
  }

  /** One chunk for one file; otherwise two, of sizes `ceil(n/2)` and the rest. */
  lemma PlanShape(files: seq<Metadata>)
    requires files != []
    ensures var cs := Plan(files).value;
            (|files| == 1 ==> cs == [files])
            && (|files| >= 2 ==> |cs| == 2 && cs[0] == files[..ChunkSize(|files|)]
                                 && cs[1] == files[ChunkSize(|files|)..])
  {
    var size := ChunkSize(|files|);
    if |files| >= 2 {
      var rest := files[size..];
      assert 1 <= |rest| <= size;
      assert Chunks(rest, size) == [rest];
    }
  }

  /** The actions of releasing a pipe that exists: disconnecting it when
      connected (only where the code does), then disposing it. */
  function StreamRelease(present: bool, connected: bool, disconnects: bool): seq<Action>
  {
    if !present then [] else (if connected && disconnects then [Disconnected] else []) + [StreamDisposed]
  }

  /** The actions of releasing the launcher process, if there is one. */
  function LauncherRelease(p: Option<LauncherProcess>): seq<Action>
  {
    if p.None? then [] else (if p.value.hasExited then [] else [Killed]) + [ProcessDisposed]
  }

  /** `Terminate` is written only to a connected pipe, and arrives only if
      the pipe is not broken. */
  function TerminateSent(connected: bool, broken: bool): seq<Event>
  {
    if connected && !broken then [Sent(Terminate)] else []
  }

  // ---------------------------------------------------------------------
  // The manager

  class RegistrationManager {
    var disposed: bool
    var pipeName: Option<string>
    /** `_serverStream`; `connected` is its `IsConnected`. */
    var serverStream: MessageChannel?
    var connected: bool
    var launcherProcess: Option<LauncherProcess>
    /** Whether `_registrarCreationLock` is free. */
    var creationLockFree: bool
    /** The stream and process actions taken, in order. */
    var actions: seq<Action>

    ghost predicate Valid()
      reads this
    {
      serverStream == null ==> !connected
    }

    constructor()
      ensures Valid() && !disposed && pipeName.None? && serverStream == null && launcherProcess.None?
      ensures creationLockFree && actions == []
    {
      disposed := false;
      pipeName := None;
      serverStream := null;
      connected := false;
      launcherProcess := None;
      creationLockFree := true;
      actions := [];
    }

    /** `ConnectAsync`: create the launcher pipe, start the launcher on it
        (`started` is what `Process.Start` returns, `peer` what the launcher
        will send) and wait for it to connect (`connects`). */
    method Connect(guid: string, started: Option<LauncherProcess>, peer: seq<Message>, connects: bool)
      returns (fault: Option<Fault>, ghost arguments: seq<string>)
      requires Valid()
      modifies this
      ensures Valid() && disposed == old(disposed) && creationLockFree == old(creationLockFree)
      ensures pipeName == Some(LauncherPrefix + guid) && arguments == LauncherArguments(LauncherPrefix + guid)
      ensures LaunchFails(started) ==>
                fault == Some(LaunchFailed) && serverStream == null && launcherProcess == started
                && actions == old(actions) + [StreamDisposed]
      ensures !LaunchFails(started) && !connects ==>
                fault == Some(ConnectFailed) && serverStream == null && launcherProcess.None?
                && actions == old(actions) + [StreamDisposed] + LauncherRelease(started)
      ensures !LaunchFails(started) && connects ==>
                fault.None? && serverStream != null && fresh(serverStream) && connected
                && serverStream.inbox == peer && serverStream.trace == [] && !serverStream.broken
                && launcherProcess == started && actions == old(actions)
    {
      var name := LauncherPrefix + guid;
      pipeName := Some(name);
      var stream := new MessageChannel(peer);
      serverStream := stream;
      connected := false;
      arguments := LauncherArguments(name);
      launcherProcess := started;
      if LaunchFails(started) {
        actions := actions + [StreamDisposed];
        serverStream := null;
        return Some(LaunchFailed), arguments;
      }
      if !connects {
        Cleanup();
        return Some(ConnectFailed), arguments;
      }
      connected := true;
      fault := None;
    }

    /** Killing a launcher still running, then disposing it. */
    method ReleaseLauncher()
      modifies this
      ensures launcherProcess.None? && actions == old(actions) + LauncherRelease(old(launcherProcess))
      ensures serverStream == old(serverStream) && connected == old(connected) && disposed == old(disposed)
      ensures pipeName == old(pipeName) && creationLockFree == old(creationLockFree)
    {
      if launcherProcess.Some? {
        if !launcherProcess.value.hasExited {
          actions := actions + [Killed];
        }
        actions := actions + [ProcessDisposed];
        launcherProcess := None;
      }
    }

    /** `CleanupResourcesAsync`: disconnect and dispose the pipe, then
        release the launcher. */
    method Cleanup()
      modifies this
      ensures serverStream == null && !connected && launcherProcess.None?
      ensures actions == old(actions) + StreamRelease(old(serverStream) != null, old(connected), true)
                         + LauncherRelease(old(launcherProcess))
      ensures disposed == old(disposed) && pipeName == old(pipeName) && creationLockFree == old(creationLockFree)
    {
      if serverStream != null {
        if connected {
          actions := actions + [Disconnected];
        }
        actions := actions + [StreamDisposed];
        serverStream := null;
      }
      connected := false;
      ReleaseLauncher();
    }

    /** `CreateRegistrar`: ask the launcher to start a registrar on
        `registrarPipe` and read its one reply, releasing the lock on every
        path. */
    method CreateRegistrar(registrarPipe: string) returns (r: Result<Message, Fault>)
      requires creationLockFree
      modifies this, serverStream
      ensures creationLockFree
      ensures serverStream == old(serverStream) && connected == old(connected) && disposed == old(disposed)
      ensures launcherProcess == old(launcherProcess) && actions == old(actions) && pipeName == old(pipeName)
      ensures old(serverStream) == null ==> r == Err(NotConnected)
      ensures old(serverStream) != null ==>
                var request := StartRegistrarRequest(Library, registrarPipe);
                var ms := old(serverStream.inbox);
                serverStream.broken == old(serverStream.broken)
                && (old(serverStream.broken) ==>
                      r == Err(WriteFailed) && serverStream.trace == old(serverStream.trace)
                      && serverStream.inbox == ms)
                && (!old(serverStream.broken) && ms == [] ==>
                      r == Err(ReadFailed) && serverStream.trace == old(serverStream.trace) + [Sent(request)]
                      && serverStream.inbox == [])
                && (!old(serverStream.broken) && ms != [] ==>
                      serverStream.trace == old(serverStream.trace) + [Sent(request), Received(ms[0])]
                      && serverStream.inbox == ms[1..]
                      && r == (if ms[0].StartRegistrarResult? then Ok(ms[0]) else Err(UnexpectedReply)))
    {
      creationLockFree := false;
      if serverStream == null {
        creationLockFree := true;
        return Err(NotConnected);
      }
      var ok := serverStream.Write(StartRegistrarRequest(Library, registrarPipe));
      if !ok {
        creationLockFree := true;
        return Err(WriteFailed);
      }
      var m := serverStream.Read();
      creationLockFree := true;
      if m.None? {
        return Err(ReadFailed);
      }
      if !m.value.StartRegistrarResult? {
        return Err(UnexpectedReply);
      }
      r := Ok(m.value);
    }

    /** Writing `Terminate` to a connected launcher; a failed write is
        swallowed. */
    method SendTerminate()
      modifies serverStream
      ensures serverStream != null ==>
                serverStream.inbox == old(serverStream.inbox) && serverStream.broken == old(serverStream.broken)
                && serverStream.trace == old(serverStream.trace) + TerminateSent(connected, old(serverStream.broken))
    {
      if serverStream != null && connected {
        var _ := serverStream.Write(Terminate);
      }
    }

    /** `CloseAsync`. */
    method Close() returns (fault: Option<Fault>)
      modifies serverStream
      ensures fault == (if disposed then Some(Disposed) else None)
      ensures serverStream != null ==>
                serverStream.inbox == old(serverStream.inbox) && serverStream.broken == old(serverStream.broken)
                && serverStream.trace == old(serverStream.trace)
                   + (if disposed then [] else TerminateSent(connected, old(serverStream.broken)))
    {
      if disposed {
        return Some(Disposed);
      }
      SendTerminate();
      fault := None;
    }

    /** `DisposeAsync`: the first call closes, cleans up and marks the
        manager disposed; later calls change nothing. */
    method DisposeAsync()
      requires Valid()
      modifies this, serverStream
      ensures Valid() && disposed
      ensures old(disposed) ==> unchanged(this) && (serverStream != null ==> unchanged(serverStream))
      ensures !old(disposed) ==>
                serverStream == null && launcherProcess.None?
                && actions == old(actions) + StreamRelease(old(serverStream) != null, old(connected), true)
                              + LauncherRelease(old(launcherProcess))
      ensures !old(disposed) && old(serverStream) != null ==>
                old(serverStream).inbox == old(serverStream.inbox)
                && old(serverStream).trace == old(serverStream.trace) + TerminateSent(old(connected), old(serverStream.broken))
    {
      if disposed {
        return;
      }
      var _ := Close();
      Cleanup();
      disposed := true;
    }

    /** `Dispose`: like `DisposeAsync`, but the pipe is disposed without
        being disconnected first. */
    method Dispose()
      requires Valid()
      modifies this, serverStream
      ensures Valid() && disposed
      ensures old(disposed) ==> unchanged(this) && (serverStream != null ==> unchanged(serverStream))
      ensures !old(disposed) ==>
                serverStream == null && launcherProcess.None?
                && actions == old(actions) + StreamRelease(old(serverStream) != null, old(connected), false)
                              + LauncherRelease(old(launcherProcess))
      ensures !old(disposed) && old(serverStream) != null ==>
                old(serverStream).inbox == old(serverStream.inbox)
                && old(serverStream).trace == old(serverStream.trace) + TerminateSent(old(connected), old(serverStream.broken))
    {
      if disposed {
        return;
      }
      SendTerminate();
      if serverStream != null {
        actions := actions + [StreamDisposed];
      }
      serverStream := null;
      connected := false;
      ReleaseLauncher();
      disposed := true;
    }

    /** `Register`: one registrar per chunk, their results merged by
        `Interleave`. `run(chunk)` is what the registrar of `chunk` does;
        `inFlight` the chunks whose registrar is still between items when
        an early stop disposes it. `out` is every message yielded before the enumeration ended, and
        `fault` the exception it ended with, if any. */
    method Register(files: seq<Metadata>, run: seq<Metadata> -> RegistrarRun, inFlight: set<nat>,
                    winner: nat -> nat, cancelAt: Option<nat>)
      returns (out: seq<Message>, fault: Option<Fault>, chunks: seq<seq<Metadata>>, ghost origin: seq<nat>)
      ensures fault == Some(EmptyChunk) <==> files == []
      ensures files == [] ==> out == [] && chunks == []
      ensures files != [] ==> Plan(files) == Ok(chunks) && Concat(chunks) == files
      ensures fault.Some? ==> fault == Some(EmptyChunk) || fault == Some(OperationCanceled)
                              || fault.value.RegistrarFaulted? || fault.value.DisposeFailed?
      ensures |origin| == |out| && forall k :: 0 <= k < |origin| ==> origin[k] < |chunks|
      ensures forall c :: 0 <= c < |chunks| ==>
                |Picks(out, origin, c)| <= |run(chunks[c]).results|
                && Picks(out, origin, c) == run(chunks[c]).results[..|Picks(out, origin, c)|]
      ensures fault.None? ==> forall c :: 0 <= c < |chunks| ==>
                Picks(out, origin, c) == run(chunks[c]).results && !run(chunks[c]).faults
      ensures fault == Some(OperationCanceled) ==> cancelAt.Some?
      ensures fault.Some? && fault.value.RegistrarFaulted? ==>
                var c := fault.value.chunk;
                c < |chunks| && run(chunks[c]).faults && Picks(out, origin, c) == run(chunks[c]).results
      ensures fault.Some? && fault.value.DisposeFailed? ==> fault.value.chunk < |chunks| && fault.value.chunk in inFlight
      ensures files != [] && cancelAt.None? && (forall c :: 0 <= c < |chunks| ==> !run(chunks[c]).faults) ==>
                fault.None?
    {
      var plan := Plan(files);
      if plan.Err? {
        return [], Some(EmptyChunk), [], [];
      }
      chunks := plan.value;
      var sources := seq(|chunks|, c requires 0 <= c < |chunks| => run(chunks[c]).results);
      var faulty := set c | 0 <= c < |chunks| && run(chunks[c]).faults;
      var outcome;
      ghost var issued, disposedSources;
      outcome, out, origin, issued, disposedSources := Interleave(sources, faulty, inFlight, winner, cancelAt);
      match outcome
      case Completed => fault := None;
      case Cancelled => fault := Some(OperationCanceled);
      case Faulted(c) => fault := Some(RegistrarFaulted(c));
      case DisposeFaulted(c) => fault := Some(DisposeFailed(c));
    }
  }
}
