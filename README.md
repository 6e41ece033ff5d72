# COMWizard sandboxed registration, modelled in Dafny

COMWizard registers native COM libraries without touching the live machine
registry. A worker process redirects the predefined registry roots to a private,
GUID-named key under `HKEY_CURRENT_USER`. It then lets the library register
itself, saves the private subtree as a hive file next to a `fileinfo.json`, and
removes the redirection. An elevated launcher runs once per session, and a
coordinator talks to it over named pipes. Messages on those pipes are framed
as a 4-byte length followed by a serialised payload.

This project models the core of that pipeline, one module per source file:

- `PipeStreamExtensions` (`pipe_stream.dfy`): message framing. A `Pipe` class
  holds an incoming byte queue, and a script of read sizes stands for short reads.
- `Messages` (`messages.dfy`): the message union, and a message-level channel
  class that records every send and receive.
- `WinRegistry` (`win_registry.dfy`): the Windows registry as a key tree, plus
  the predefined-key override table. `RegOverridePredefKey` is a scripted native call.
- `Registration` (`registry_proxy.dfy`): `RegistryProxy`, with the sandbox
  layout, the override stack, the pruning of leaked keys and the LIFO revert.
- `RegistryKeyExtensions` (`registry_paths.dfy`): `Open` path resolution and
  the step order of `SaveKey`.
- `FileSystem` (`file_system.dfy`): the host files that `SaveKey` and the
  worker write.
- `LibraryRegistrar` (`library_registrar.dfy`): the worker's argument guard,
  message loop, per-request reply and output layout.
- `Launcher` (`launcher.dfy`): the launcher's argument guard, its relaunch
  decision with exit codes, and its loop that reads until `Terminate`.
- `RegistrationManagement` (`registration_manager.dfy`): chunking, connection,
  `CreateRegistrar`, and the close, cleanup and dispose state.
- `X86Registrar` (`x86_registrar.dfy`): the per-chunk request and reply
  conversation.
- `Interleaving` (`interleave.dfy`): the `Interleave` fan-in. The winner of
  `Task.WhenAny` is an oracle sequence of indices.
- `RegistrationEngine` (`registration_engine.dfy`): the eligibility filter
  and the order of results.
- `PEParsingService`, `PEMetadata` (`pe_parsing.dfy`, `pe_metadata.dfy`): PE
  classification flags follow the characteristics field of the Microsoft
  PE/COFF specification. Export names are read from its Export Directory Table.
- `OfflineRegistry` (`offline_registry_key.dfy`): an `OfflineRegistryKey`.
  It covers the key's path and name, the byte codec of its values, its two
  enumeration loops, and its handle ownership.
- `Common` (`common.dfy`): the byte orders, `Trim`, `Split`, `IndexOf`,
  `Path.Combine` and `Path.GetFileName` that the source relies on.

Native calls, process control, clocks, GUIDs and the serialiser are
parameters or oracles. Each operation states the cases in which the code
throws as `Result` errors or recorded faults.

Behaviours worth noting:

- The launcher never answers `StartRegistrarRequest`. It reads and drops
  every message until `Terminate` (`Launcher.AwaitTerminate`).
- `RegistrationEngine.Register` answers an ineligible file with a bare
  `RegistrationResult` that carries only its path. It carries no failure
  reason.
- `RegisterCore` yields nothing, so the engine returns only those bare
  answers.
- The message header is written in a fixed little-endian order but read in
  host order (`PipeStreamExtensions.ToInt32`). The framing round trip is
  therefore proved for a little-endian reader.
  `PipeStreamExtensions.BigEndianHostMisreadsLength` shows what a big-endian
  reader would see. Windows hosts are little-endian, so this is not listed as
  a finding.
- `SaveKey` with a null key still creates the directory, deletes any old
  hive file and enables the privileges. Only then does it fail, at
  `key.Handle`, with a `NullReferenceException` (`RegistryKeyExtensions.SaveKeyTo`,
  `LibraryRegistrar.Publish`).
- A parse that throws ends `RegistrationEngine.Register`. The bare answers
  already yielded stay yielded, and no library reaches `RegisterCore`.
- A registrar whose enumeration throws ends the merged run of
  `RegistrationManager.Register` with that exception. Cancellation ends it
  with `OperationCanceledException`.
- After such an early stop, the `finally` block of `Interleave` may itself
  throw. `DisposeAsync` on a compiler-generated iterator whose
  `MoveNextAsync` is still running throws `NotSupportedException`. That
  exception replaces the one that stopped the loop, and the enumerators
  listed after it are never disposed (`Interleaving.Interleave`, and the
  `DisposeFailed` fault of `RegistrationManager.Register`). Only a run that completes, or
  that stops with no move in flight, disposes every enumerator.

## Model

| member | source | states |
|---|---|---|
| PipeStreamExtensions.GetBytes | src/COMWizard.Common/Messaging/Extensions/PipeStreamExtensions.cs:36 | `BitConverter.GetBytes(int)` gives exactly four bytes |
| PipeStreamExtensions.ToInt32 | src/COMWizard.Common/Messaging/Extensions/PipeStreamExtensions.cs:81 | `BitConverter.ToInt32` of four bytes always lies in the 32-bit signed range |
| PipeStreamExtensions.FrameLayout | src/COMWizard.Common/Messaging/Extensions/PipeStreamExtensions.cs:34-45 | a frame is four header bytes that decode little-endian to the payload length, followed by exactly that payload |
| PipeStreamExtensions.WrittenHeaderIsLittleEndian | src/COMWizard.Common/Messaging/Extensions/PipeStreamExtensions.cs:36-40 | host-order bytes, reversed on a big-endian host, are the little-endian encoding of the length on either host |
| PipeStreamExtensions.BigEndianHostMisreadsLength | src/COMWizard.Common/Messaging/Extensions/PipeStreamExtensions.cs:36-85 | on a big-endian reader the header of a 1-byte payload decodes to 16777216, which the reader rejects as too long |
| PipeStreamExtensions.IntendedHeaderRoundTrip | src/COMWizard.Common/Messaging/Extensions/PipeStreamExtensions.cs:36-40 | decoding the header little-endian gives back the written length on every host |
| PipeStreamExtensions.Delivered | src/COMWizard.Common/Messaging/Extensions/PipeStreamExtensions.cs:156 | one `ReadAsync` never delivers more than asked or more than has arrived, and delivers at least one byte when asked for some, some have arrived and the stream does not stall |
| PipeStreamExtensions.ReadFromBounds | src/COMWizard.Common/Messaging/Extensions/PipeStreamExtensions.cs:151-164 | the exact-read loop never takes more than is wanted or available; it succeeds exactly when it took all `count` bytes |
| PipeStreamExtensions.ReadFromGrants | src/COMWizard.Common/Messaging/Extensions/PipeStreamExtensions.cs:154-156 | each iteration consumes one read, the reads left are a suffix of the reads given, and there are at most as many reads as bytes wanted |
| PipeStreamExtensions.ReadNothing | src/COMWizard.Common/Messaging/Extensions/PipeStreamExtensions.cs:153-154 | a count of zero performs no read and succeeds |
| PipeStreamExtensions.ReadFromSucceeds | src/COMWizard.Common/Messaging/Extensions/PipeStreamExtensions.cs:154-163 | with enough bytes sent and a stream that never returns zero, the loop completes |
| PipeStreamExtensions.ReadExactlyShortFails | src/COMWizard.Common/Messaging/Extensions/PipeStreamExtensions.cs:157-160 | a peer that sends fewer than `count` bytes makes the read fail with end of stream |
| PipeStreamExtensions.ReadMessageSpec | src/COMWizard.Common/Messaging/Extensions/PipeStreamExtensions.cs:76-111 | `ReadMessageAsync` never consumes more than the bytes pending |
| PipeStreamExtensions.ReadPayloadSpec | src/COMWizard.Common/Messaging/Extensions/PipeStreamExtensions.cs:87-105 | the payload stage never consumes more than the bytes after the header |
| PipeStreamExtensions.InvalidLengthReadsOnlyHeader | src/COMWizard.Common/Messaging/Extensions/PipeStreamExtensions.cs:81-85 | a length below 0 or above 10 MiB is refused after the four header bytes and before any payload byte, and it is the length the header spells in the reader's byte order |
| PipeStreamExtensions.PayloadRoundTrip | src/COMWizard.Common/Messaging/Extensions/PipeStreamExtensions.cs:90-103 | an encoded payload deserialises back to the message, consuming exactly its length |
| PipeStreamExtensions.HeaderLeavesGrants | src/COMWizard.Common/Messaging/Extensions/PipeStreamExtensions.cs:79 | after the header read on a stream that never stalls, the remaining reads still never stall and at most four were used |
| PipeStreamExtensions.RoundTrip | src/COMWizard.Common/Messaging/Extensions/PipeStreamExtensions.cs:22-111 | on a little-endian reader the frame of a message of at most 10 MiB, followed by anything, reads back as that message and leaves exactly what followed |
| PipeStreamExtensions.OversizeRejected | src/COMWizard.Common/Messaging/Extensions/PipeStreamExtensions.cs:82-85 | a payload over 10 MiB that fits an `int` is written, but the reader rejects its frame after the header |
| PipeStreamExtensions.Pipe.ReadAsync | src/COMWizard.Common/Messaging/Extensions/PipeStreamExtensions.cs:156 | one read copies the delivered bytes into `buffer[offset..]`, leaves the rest of the buffer unchanged and advances the stream |
| PipeStreamExtensions.Pipe.ReadExactly | src/COMWizard.Common/Messaging/Extensions/PipeStreamExtensions.cs:151-164 | the while loop fills exactly `offset..offset+count-1` with the next bytes of the stream and agrees with the loop specification on success, bytes consumed and reads left |
| PipeStreamExtensions.Pipe.ReadMessage | src/COMWizard.Common/Messaging/Extensions/PipeStreamExtensions.cs:76-111 | reading a message returns, and consumes, what `ReadMessageSpec` prescribes for the pending bytes |
| PipeStreamExtensions.Pipe.ReadPayload | src/COMWizard.Common/Messaging/Extensions/PipeStreamExtensions.cs:87-110 | the rented-buffer read and deserialisation agree with `ReadPayloadSpec`; a null result is an error |
| PipeStreamExtensions.Pipe.WriteMessage | src/COMWizard.Common/Messaging/Extensions/PipeStreamExtensions.cs:22-48 | a payload longer than `int.MaxValue` fails the `checked` int cast and writes nothing; otherwise exactly the frame is appended |
| PipeStreamExtensions.Pipe.ReverseHeader | src/COMWizard.Common/Messaging/Extensions/PipeStreamExtensions.cs:39 | `Array.Reverse` turns the four header bytes around in place |
| WinRegistry.Child | src/COMWizard.Common/Registration/RegistryProxy.cs:72-98 | a child key extends its parent's path by exactly the given names and lies under the parent |
| WinRegistry.DeleteTree | src/COMWizard.Common/Registration/RegistryProxy.cs:121 | `DeleteSubKeyTree` removes exactly the key and the keys under it, with their default values; `DeleteTreeKeepsClosed` and `DeleteTreeIdempotent` state what that means for the registry |
| WinRegistry.DeleteTreeKeepsClosed | src/COMWizard.Common/Registration/RegistryProxy.cs:121-153 | no key left after a subtree deletion has lost its parent or any other ancestor, so the result is still a registry |
| WinRegistry.DeleteTreeIdempotent | src/COMWizard.Common/Registration/RegistryProxy.cs:129-130 | deleting the same subtree a second time changes nothing, as a `DeleteSubKeyTree` of a missing key with `throwOnMissingSubKey: false` does |
| WinRegistry.DeletedSubtreeUnreachable | src/COMWizard.Common/Registration/RegistryProxy.cs:153 | after deleting a child, no key at or below it opens any more, and every key outside it opens exactly as before |
| WinRegistry.CreateKeepsClosed | src/COMWizard.Common/Registration/RegistryProxy.cs:72-98 | creating a path below an existing key leaves a registry: every key on the way down is created too |
| WinRegistry.SubKeyNames | src/COMWizard.Common/Registration/RegistryProxy.cs:138 | the names returned are exactly those of the key's direct children, each once |
| WinRegistry.Resolve | src/COMWizard.Common/Registration/RegistryProxy.cs:43-46 | a key reached through a predefined root goes to the override key when one is in force, and to the real root otherwise |
| WinRegistry.Registry.OpenSubKey | src/COMWizard.Common/Registration/RegistryProxy.cs:134 | `OpenSubKey` gives the key exactly when it exists, and null otherwise; `DeletedSubtreeUnreachable` gives its answer after a deletion |
| WinRegistry.Registry.CreateSubKey | src/COMWizard.Common/Registration/RegistryProxy.cs:72-98 | `CreateSubKey` adds the key and every missing ancestor segment, and returns it |
| WinRegistry.Registry.DeleteSubKeyTree | src/COMWizard.Common/Registration/RegistryProxy.cs:129-130 | the subtree is deleted when it exists; a missing subtree is not an error |
| WinRegistry.Registry.GetSubKeyNames | src/COMWizard.Common/Registration/RegistryProxy.cs:138 | the snapshot of names is duplicate-free and names exactly the existing children |
| WinRegistry.Registry.OverridePredefKey | src/COMWizard.Common/Registration/RegistryProxy.cs:43-46 | the native call returns the next scripted code; only a 0 result installs (or with a null target, removes) the override; the call is recorded |
| Registration.MappedOverridesLookup | src/COMWizard.Common/Registration/RegistryProxy.cs:76-110 | after mapping a list of roots, each of them is overridden by its own sandbox key and every other override is kept |
| Registration.MapCallsOrder | src/COMWizard.Common/Registration/RegistryProxy.cs:72-98 | the i-th override call of the constructor maps the i-th root of HKCR, HKLM, HKU, HKCC, HKCU onto its stand-in |
| Registration.MapCallsLength | src/COMWizard.Common/Registration/RegistryProxy.cs:76-97 | n blocks make exactly n override calls |
| Registration.UnderInterface | src/COMWizard.Common/Registration/RegistryProxy.cs:139-153 | a key lies under interface `n` exactly when it lies below the interfaces key with `n` as its next segment |
| Registration.DeleteKeepsOtherInterface | src/COMWizard.Common/Registration/RegistryProxy.cs:139-153 | deleting one interface's subtree does not change whether another interface names a pruned type library |
| Registration.PruneNamesExact | src/COMWizard.Common/Registration/RegistryProxy.cs:138-159 | the loop over a duplicate-free snapshot removes exactly the keys, and default values, of the listed interfaces whose `TypeLib` default names one of the two type libraries |
| Registration.PruneAllNames | src/COMWizard.Common/Registration/RegistryProxy.cs:138-159 | with a snapshot holding every interface name, the loop's result does not depend on the snapshot's order: it is `PruneInterfaces` |
| Registration.PruneNames | src/COMWizard.Common/Registration/RegistryProxy.cs:138-159 | the foreach over the snapshot; `PruneNamesExact` and `PruneAllNames` state what it deletes |
| Registration.Pruned | src/COMWizard.Common/Registration/RegistryProxy.cs:117-161 | what `Dispose` leaves of the tree; `PruneTypeLibraries` is proved against it |
| Registration.RevertCalls | src/COMWizard.Common/Registration/RegistryProxy.cs:163-167 | reverting a stack makes one call per pushed root |
| Registration.RevertCallsLifo | src/COMWizard.Common/Registration/RegistryProxy.cs:163-167 | the i-th revert call overrides the i-th root from the top of the stack with the null handle |
| Registration.RevertStep | src/COMWizard.Common/Registration/RegistryProxy.cs:163-167 | one pop of the loop, whatever its result, leaves the same remaining effect as reverting the whole stack |
| Registration.RevertAllEffect | src/COMWizard.Common/Registration/RegistryProxy.cs:163-167 | reverting never touches a root that was not pushed, and when every revert succeeds, no pushed root stays overridden |
| Registration.RevertAll | src/COMWizard.Common/Registration/RegistryProxy.cs:163-167 | the table and results left after reverting a stack top first; `RevertCalls`, `RevertCallsLifo`, `RevertStep` and `RevertAllEffect` state them |
| Registration.ProgressNoFailure | src/COMWizard.Common/Registration/RegistryProxy.cs:65-100 | while no override has failed, the sandbox holds exactly the keys of the blocks run so far and the native results consumed are one per block |
| Registration.ProgressStepShared | src/COMWizard.Common/Registration/RegistryProxy.cs:72-104 | one block adds its layout keys and one override call for its root, and consumes one native result, whatever that result is |
| Registration.ProgressStep | src/COMWizard.Common/Registration/RegistryProxy.cs:102-111 | a 0 result pushes the root and overrides it; any other result records the failure, pushes nothing and stops the constructor |
| Registration.ProgressStepOk | src/COMWizard.Common/Registration/RegistryProxy.cs:102-111 | a successful block moves the constructor one step on, with its root pushed |
| Registration.ProgressStays | src/COMWizard.Common/Registration/RegistryProxy.cs:105-108 | once an override has failed, the later blocks do nothing |
| Registration.ProgressStart | src/COMWizard.Common/Registration/RegistryProxy.cs:67-69 | before the first block nothing is mapped and no call has been made |
| Registration.ProgressFailure | src/COMWizard.Common/Registration/RegistryProxy.cs:65-111 | the constructor throws exactly when one of the five overrides returns non-zero; then the roots pushed before it stay overridden, otherwise all five roots are mapped, in order |
| Registration.AllRootsRedirected | src/COMWizard.Common/Registration/RegistryProxy.cs:72-98 | with all five roots mapped, every key opened through a predefined root lies inside the sandbox |
| Registration.RegistryProxy.constructor | src/COMWizard.Common/Registration/RegistryProxy.cs:65-100 | a fresh GUID-named key is created under current-user, `Path` is its full name `HKEY_CURRENT_USER\<guid>`, and the five blocks run as `ProgressFailure` describes |
| Registration.RegistryProxy.MapAllRoots | src/COMWizard.Common/Registration/RegistryProxy.cs:72-98 | the five `using` blocks, in order, leave the state `Progress` describes after all five |
| Registration.RegistryProxy.MapUnlessFailed | src/COMWizard.Common/Registration/RegistryProxy.cs:79-98 | a later block runs only when the earlier ones succeeded |
| Registration.RegistryProxy.MapSandboxRoot | src/COMWizard.Common/Registration/RegistryProxy.cs:72-98 | one block creates its stand-in keys and maps its root onto it, moving the constructor one step on |
| Registration.RegistryProxy.CreateLayout | src/COMWizard.Common/Registration/RegistryProxy.cs:72-95 | a block creates `HKEY_CLASSES_ROOT` with `WOW6432Node\CLSID` and `CLSID`, `HKEY_LOCAL_MACHINE` with `SOFTWARE\Classes`, or the bare stand-in for the other roots, and changes nothing else |
| Registration.RegistryProxy.MapRegistryKey | src/COMWizard.Common/Registration/RegistryProxy.cs:102-111 | a 0 result pushes `source`; any other result throws (recorded) without pushing; the override table follows the native result |
| Registration.RegistryProxy.Dispose | src/COMWizard.Common/Registration/RegistryProxy.cs:113-172 | a second call changes nothing; the first prunes the CLSID key, the two type libraries and the matching interfaces through the overrides in force, then reverts every pushed root top first, leaving the stack empty |
| Registration.RegistryProxy.RevertOverrides | src/COMWizard.Common/Registration/RegistryProxy.cs:163-167 | the while loop pops every pushed root, top first, overriding it with the null handle and ignoring each result |
| Registration.RegistryProxy.PruneTypeLibraries | src/COMWizard.Common/Registration/RegistryProxy.cs:117-161 | the tree left is `Pruned` of the tree before under the overrides in force, and no override call is made |
| Registration.RegistryProxy.PruneFixedKeys | src/COMWizard.Common/Registration/RegistryProxy.cs:117-132 | the CLSID `{D5DE8D20-…}` and TypeLib `{000204EF-…}`, `{EA544A21-…}` subtrees are deleted when their parent exists; missing keys are not errors |
| Registration.RegistryProxy.PruneInterfaceKeys | src/COMWizard.Common/Registration/RegistryProxy.cs:134-160 | the foreach over the snapshot deletes exactly the interfaces whose `TypeLib` default equals one of the two GUIDs ignoring case |
| RegistryKeyExtensions.ParseRootExact | src/COMWizard.Common/Registration/Extensions/RegistryKeyExtensions.cs:90-98 | the hive switch accepts exactly the five root names, case-sensitively, each naming its own root |
| RegistryKeyExtensions.SplitFirst | src/COMWizard.Common/Registration/Extensions/RegistryKeyExtensions.cs:88-89 | the first part holds no backslash; without a second part it is the whole name, with one the name is first part, backslash, second part |
| RegistryKeyExtensions.SplitsAtFirstBackslash | src/COMWizard.Common/Registration/Extensions/RegistryKeyExtensions.cs:88-101 | after a root name and a backslash, the rest is taken whole, backslashes included |
| RegistryKeyExtensions.SplitFirstAt | src/COMWizard.Common/Registration/Extensions/RegistryKeyExtensions.cs:88 | splitting a backslash-free name, a backslash and anything yields that name and that rest |
| RegistryKeyExtensions.RootNameHasNoBackslash | src/COMWizard.Common/Registration/Extensions/RegistryKeyExtensions.cs:92-96 | no root name holds a backslash |
| RegistryKeyExtensions.IndexOfFirst | src/COMWizard.Common/Registration/Extensions/RegistryKeyExtensions.cs:88 | the separator found is the first backslash |
| RegistryKeyExtensions.UnknownHiveRejected | src/COMWizard.Common/Registration/Extensions/RegistryKeyExtensions.cs:97 | the name is refused exactly when its first segment is not a root name, and the error carries that segment |
| RegistryKeyExtensions.BareRootOpensRoot | src/COMWizard.Common/Registration/Extensions/RegistryKeyExtensions.cs:100-102 | a bare root name opens the root's own key (through any override in force), not a subkey |
| RegistryKeyExtensions.ProxyNameOpens | src/COMWizard.Common/Registration/Extensions/RegistryKeyExtensions.cs:100-101 | `HKEY_CURRENT_USER\<guid>` is refused when the guid is over 255 characters, opens the root when the guid is empty, and otherwise opens the current-user subkey `<guid>` when it exists and gives null when it does not |
| RegistryKeyExtensions.RunStepsProperties | src/COMWizard.Common/Registration/Extensions/RegistryKeyExtensions.cs:53-83 | the steps run are a prefix of the steps; with a failure the last one run is the failing one and every earlier one succeeded; without one all ran and none failed |
| RegistryKeyExtensions.SaveKeySucceeds | src/COMWizard.Common/Registration/Extensions/RegistryKeyExtensions.cs:53-83 | `SaveKey` finishes without an exception exactly when none of its six steps fails |
| RegistryKeyExtensions.LastRunsAfterAll | src/COMWizard.Common/Registration/Extensions/RegistryKeyExtensions.cs:57-82 | a step listed only at the end runs only when all the steps before it succeeded, and then all of them ran |
| RegistryKeyExtensions.SaveKeyRunsLast | src/COMWizard.Common/Registration/Extensions/RegistryKeyExtensions.cs:79-82 | `RegSaveKey` is called only after the directory, the delete and the three privilege calls all succeeded |
| RegistryKeyExtensions.EveryStepListed | src/COMWizard.Common/Registration/Extensions/RegistryKeyExtensions.cs:53-83 | every step of `SaveKey` is one of the six it runs |
| RegistryKeyExtensions.SaveKeyFirstFailure | src/COMWizard.Common/Registration/Extensions/RegistryKeyExtensions.cs:53-83 | the exception thrown is that of the first failing step, in source order |
| RegistryKeyExtensions.HiveOf | src/COMWizard.Common/Registration/Extensions/RegistryKeyExtensions.cs:79 | the saved hive holds every key of the subtree, relative to the saved key |
| RegistryKeyExtensions.SaveKeyTo | src/COMWizard.Common/Registration/Extensions/RegistryKeyExtensions.cs:51-84 | the failure is the first failing step, and a null key fails at `RegSaveKey` after the steps before it; on success the file at `path` is the hive of the key; a failure before the delete leaves the files alone; a later one leaves no file at `path` |
| RegistryKeyExtensions.Open | src/COMWizard.Common/Registration/Extensions/RegistryKeyExtensions.cs:86-102 | a path is refused when its first segment is no root name or a later one exceeds 255 characters; it opens its root for a bare root name or an empty remainder, and otherwise the subkey below the root after `OpenSubKey`'s name fix-up; `UnknownHiveRejected`, `LongNameRejected`, `BareRootOpensRoot`, `TrailingBackslashOpensRoot` and `ProxyNameOpens` state these |
| RegistryKeyExtensions.Segments | src/COMWizard.Common/Registration/Extensions/RegistryKeyExtensions.cs:101 | the key names opened below the root: empty pieces from doubled and trailing backslashes are dropped, so no name after the first is empty and there are never more names than pieces |
| RegistryKeyExtensions.TrailingBackslashOpensRoot | src/COMWizard.Common/Registration/Extensions/RegistryKeyExtensions.cs:100-101 | a root name followed by a single backslash opens the root, as the bare root name does |
| RegistryKeyExtensions.DoubledBackslashCollapses | src/COMWizard.Common/Registration/Extensions/RegistryKeyExtensions.cs:101 | a doubled backslash between two key names opens the same key as a single one |
| RegistryKeyExtensions.LongNameRejected | src/COMWizard.Common/Registration/Extensions/RegistryKeyExtensions.cs:101 | a key name over 255 characters anywhere after the root makes `Open` throw `ArgumentException` |
| RegistryKeyExtensions.SplitJoined | src/COMWizard.Common/Registration/Extensions/RegistryKeyExtensions.cs:88 | splitting a backslash-free name, a backslash and a rest gives that name followed by the pieces of the rest |
| RegistryKeyExtensions.RunSteps | src/COMWizard.Common/Registration/Extensions/RegistryKeyExtensions.cs:53-83 | steps run in order until the first that fails; `RunStepsProperties` states it |
| RegistryKeyExtensions.SaveKey | src/COMWizard.Common/Registration/Extensions/RegistryKeyExtensions.cs:53-83 | the six steps of `SaveKey` in source order; `SaveKeySucceeds`, `SaveKeyRunsLast` and `SaveKeyFirstFailure` state what they give |
| Common.TrimStart | src/COMWizard.Launcher/Program.cs:72 | the suffix left begins with no white space, and only white space was dropped |
| Common.TrimEnd | src/COMWizard.Launcher/Program.cs:72 | the prefix left ends with no white space, and only white space was dropped |
| Common.TrimKeepsMiddle | src/COMWizard.Launcher/Program.cs:72 | the trimmed name is a contiguous piece of the argument, with only white space around it and none at either end |
| Common.TrimIdempotent | src/COMWizard.Launcher/Program.cs:72 | trimming a trimmed pipe name changes nothing |
| Common.TrimUntouched | src/COMWizard.Launcher/Program.cs:72 | a name with no white space at either end is its own trim |
| Common.Trim | src/COMWizard.Launcher/Program.cs:72 | `Trim()`; `TrimKeepsMiddle`, `TrimIdempotent` and `TrimUntouched` state its meaning |
| Common.PipeNameTrimmed | src/COMWizard.Launcher/Program.cs:24-26 | a pipe name made of the prefix and a GUID in `N` format passes the prefix test and survives `Trim()` unchanged |
| Common.PipeArguments | src/COMWizard.Launcher/Program.cs:24-26 | exactly two arguments, `--pipe` in any case and a pipe name with the prefix; `PipeNameTrimmed` and `LauncherAcceptsArguments` show the coordinator's arguments pass |
| Common.EqualsIgnoreCase | src/COMWizard.Common/PortableExecutable/PEParsingService.cs:54-57 | equal length and equal character by character after upper-casing; `EqualsIgnoreCaseChain` shows it is transitive |
| Common.IndexOf | src/COMWizard.Common/Registration/Extensions/RegistryKeyExtensions.cs:88 | the position found holds the character and no earlier position does; no position means the character is absent |
| Common.Split | src/COMWizard.Common/Registration/Extensions/RegistryKeyExtensions.cs:88 | the pieces are never zero in number and hold no separator |
| Common.Join | src/COMWizard.Common/OfflineRegistry/OfflineRegistryKey.cs:376-379 | `string.Join`; `MultiStringParts` shows that the NUL-joined text of NUL-free parts, split at NUL with empty entries removed, gives back the non-empty parts |
| Common.FromToLE | src/COMWizard.Common/Messaging/Extensions/PipeStreamExtensions.cs:36-40 | decoding the little-endian bytes of a value that fits gives the value back |
| Common.FromBEReverse | src/COMWizard.Common/Messaging/Extensions/PipeStreamExtensions.cs:37-40 | reading reversed bytes big-endian is reading the bytes little-endian |
| Common.SignedUnsigned | src/COMWizard.Common/Messaging/Extensions/PipeStreamExtensions.cs:36 | the two's-complement pattern of an `int` reads back as that `int` |
| Common.Combine | src/COMWizard.LibraryRegistrar/Program.cs:55-62 | combining a directory and a relative name keeps the directory as prefix and the name as suffix |
| Common.FileNameOfCombine | src/COMWizard.LibraryRegistrar/Program.cs:61-71 | the file name of a separator-free name combined into any directory is that name |
| Common.FileNameAfter | src/COMWizard.LibraryRegistrar/Program.cs:71 | a separator-free tail after a separator, or alone, is the file name |
| Common.FileNameIsTail | src/COMWizard.LibraryRegistrar/Program.cs:71 | `GetFileName` returns a separator-free tail of the path with a separator or nothing before it |
| Common.FileName | src/COMWizard.LibraryRegistrar/Program.cs:71 | `GetFileName` never lengthens the path; `FileNameIsTail` and `FileNameOfCombine` state what it gives |
| Launcher.RelaunchInfo | src/COMWizard.Launcher/Program.cs:30-43 | the start request names the process's own path, uses the shell, verb `runas`, no window, the current directory, and the argument list equal to `args`, in order |
| Launcher.FailureCode | src/COMWizard.Launcher/Program.cs:50-57 | a declined elevation prompt (native error 1223) exits with 1223 and every other failure with 1; `FailureCodeDistinguishes` shows a failure never exits 0 and the code alone tells a declined prompt apart |
| Launcher.FailureCodeDistinguishes | src/COMWizard.Launcher/Program.cs:45-57 | a failed relaunch never exits with 0, the code of a successful start; two failures share a code exactly when both or neither are a declined prompt |
| Launcher.IsProcessElevated | src/COMWizard.Launcher/Program.cs:91-98 | the process counts as elevated exactly when its identity holds the built-in Administrator role |
| Launcher.AwaitTerminate | src/COMWizard.Launcher/Program.cs:78-85 | reads until the first `Terminate`, which it consumes; sends nothing; ends with a read failure when no `Terminate` comes |
| Launcher.ReadOne | src/COMWizard.Launcher/Program.cs:79-84 | one more message read keeps the inbox split, the trace of receipts, and what is left after the first `Terminate` |
| Launcher.Run | src/COMWizard.Launcher/Program.cs:22-89 | wrong arguments do nothing; a non-elevated run starts the elevated copy and returns, or exits with `FailureCode`; an elevated run connects to the trimmed pipe name and waits for `Terminate`; no message is ever sent |
| Messages.SentMessages | src/COMWizard.Launcher/Program.cs:79-85 | the messages of the trace's `Sent` events, in trace order, never more than the events; `SentMessagesAppend` makes it distribute over appended traces |
| Messages.SentMessagesAppend | src/COMWizard.LibraryRegistrar/Program.cs:40-88 | the messages sent over two stretches of a conversation are those of the first followed by those of the second |
| Messages.AfterFirstTerminate | src/COMWizard.Launcher/Program.cs:79-85 | a loop that reads until `Terminate` leaves unread exactly what follows the first `Terminate`, and nothing when none came |
| Messages.AfterTerminateSkips | src/COMWizard.Launcher/Program.cs:79-85 | messages other than `Terminate` read first do not move where the loop stops |
| Messages.Receipts | src/COMWizard.Launcher/Program.cs:79 | one receive event per message read, in order |
| Messages.ReceiptsSendNothing | src/COMWizard.Launcher/Program.cs:79-85 | a loop that only reads sends nothing |
| Messages.MessageChannel.Read | src/COMWizard.Common/Messaging/Extensions/PipeStreamExtensions.cs:76-111 | the next message the peer delivers, consumed and recorded; none once the peer has nothing more |
| Messages.MessageChannel.Write | src/COMWizard.Common/Messaging/Extensions/PipeStreamExtensions.cs:22-48 | the message is recorded as sent unless the pipe is broken, in which case nothing is sent |
| LibraryRegistrar.HiveNamePlain | src/COMWizard.LibraryRegistrar/Program.cs:61-62 | `registration.hive` is a plain file name |
| LibraryRegistrar.InfoNamePlain | src/COMWizard.LibraryRegistrar/Program.cs:65 | `fileinfo.json` is a plain file name |
| LibraryRegistrar.OutputLayout | src/COMWizard.LibraryRegistrar/Program.cs:61-65 | the hive and the file information land in the response directory under their own names, as two different files |
| LibraryRegistrar.DirectoryNamedByHash | src/COMWizard.LibraryRegistrar/Program.cs:55-57 | the response directory is named after the request's SHA-256 |
| LibraryRegistrar.Reply | src/COMWizard.LibraryRegistrar/Program.cs:67-81 | the reply is a registration result that answers the request: the success (file information, response directory, file name) exactly when nothing threw, otherwise a failure naming the file and path, whose text is the fixed sentence followed by the exception |
| LibraryRegistrar.WrittenInSandbox | src/COMWizard.LibraryRegistrar/Program.cs:48-53 | with the proxy's five roots mapped, every key the library registers lies inside the sandbox |
| LibraryRegistrar.RegisterLibrary | src/COMWizard.LibraryRegistrar/Program.cs:52 | the library's self-registration adds its keys through the predefined handles, touching nothing else |
| LibraryRegistrar.RegisterSandboxed | src/COMWizard.LibraryRegistrar/Program.cs:47-53 | the proxy's name is `HKEY_CURRENT_USER\<guid>`; it fails exactly when an override fails, and then leaves the pushed roots overridden and registers nothing; otherwise the registration lands in the sandbox and `Dispose` reverts the five overrides |
| LibraryRegistrar.Publish | src/COMWizard.LibraryRegistrar/Program.cs:59-65 | a rejected name fails before any file is written; a null key runs the directory, delete and privilege steps of `SaveKey` and then throws at the save; otherwise the hive is saved and then `fileinfo.json` is written, each failure stopping what follows |
| LibraryRegistrar.ProxyNameResolves | src/COMWizard.LibraryRegistrar/Program.cs:59 | the proxy's published name is never rejected and opens the sandbox key when it still exists |
| LibraryRegistrar.Process | src/COMWizard.LibraryRegistrar/Program.cs:45-65 | the proxy fails exactly when an override fails, the registration fails exactly when it throws inside a working proxy, and neither writes a file; the name is never rejected; on success both output files hold the hive of the sandbox and the file information |
| LibraryRegistrar.SaveOutputs | src/COMWizard.LibraryRegistrar/Program.cs:59-65 | after the proxy is gone, only a save or write step can fail, and on success both output files hold what they should |
| LibraryRegistrar.SendReply | src/COMWizard.LibraryRegistrar/Program.cs:67-81 | exactly one reply goes out when the pipe works, the one for the fault; a broken pipe sends nothing |
| LibraryRegistrar.HandleRequest | src/COMWizard.LibraryRegistrar/Program.cs:42-82 | one request is answered with exactly the reply for how it ended, carrying every property of `Process` |
| LibraryRegistrar.AnswerRequest | src/COMWizard.LibraryRegistrar/Program.cs:42-82 | the reply sent answers the request |
| LibraryRegistrar.Handled | src/COMWizard.LibraryRegistrar/Program.cs:40-87 | the messages handled are registration requests |
| LibraryRegistrar.Run | src/COMWizard.LibraryRegistrar/Program.cs:14-92 | wrong arguments change nothing; otherwise the loop reads until `Terminate`, stopping with a read failure when it never comes, and answers each request before it with one reply, in order; a broken pipe ends at the first request |
| LibraryRegistrar.LoopStart | src/COMWizard.LibraryRegistrar/Program.cs:40 | the loop's invariant holds before the first read |
| LibraryRegistrar.LoopEnd | src/COMWizard.LibraryRegistrar/Program.cs:40 | a failed read ends the loop with every request answered |
| LibraryRegistrar.LoopTerminate | src/COMWizard.LibraryRegistrar/Program.cs:84-87 | `Terminate` ends the loop with every request answered and what follows it unread |
| LibraryRegistrar.LoopSkip | src/COMWizard.LibraryRegistrar/Program.cs:42-84 | other messages are read and skipped |
| LibraryRegistrar.LoopWriteFailed | src/COMWizard.LibraryRegistrar/Program.cs:67-81 | a write that fails ends the loop at a request |
| LibraryRegistrar.LoopAnswer | src/COMWizard.LibraryRegistrar/Program.cs:42-82 | answering a request keeps the invariant, with that reply appended |
| LibraryRegistrar.ServedRequest | src/COMWizard.LibraryRegistrar/Program.cs:42 | a request read is a request handled |
| LibraryRegistrar.AnsweredAppend | src/COMWizard.LibraryRegistrar/Program.cs:42-82 | each handled request keeps its own answer |
| LibraryRegistrar.ReadAppends | src/COMWizard.LibraryRegistrar/Program.cs:40-82 | one more event adds its message to the messages sent, if it sent one |
| X86Registrar.RequestFor | src/COMWizard.Engine/X86LibraryRegistrar.cs:37-42 | the request for an item carries that item's metadata, path and hash, so the worker answers about that file (`RequestAnswered`) |
| X86Registrar.RequestAnswered | src/COMWizard.LibraryRegistrar/Program.cs:67-81 | the worker's reply to the request for a file is a registration result about that file: a success carries its metadata, the result directory and its file name, a failure its path and file name |
| X86Registrar.Exchange | src/COMWizard.Engine/X86LibraryRegistrar.cs:35-49 | two pipe events per item answered |
| X86Registrar.ExchangeAlternates | src/COMWizard.Engine/X86LibraryRegistrar.cs:35-49 | event `2k` sends the request for item `k` and event `2k+1` reads its reply: each request waits for its reply |
| X86Registrar.ResultsOf | src/COMWizard.Engine/X86LibraryRegistrar.cs:44-48 | at most one yielded result per reply |
| X86Registrar.ResultsAreReplies | src/COMWizard.Engine/X86LibraryRegistrar.cs:45-47 | only replies that are registration results are yielded, each one as the worker sent it |
| X86Registrar.RegistrarNameAccepted | src/COMWizard.Engine/X86LibraryRegistrar.cs:22 | the pipe name `comwizard.registrar-` plus a GUID in `N` format passes the worker's argument guard and its `Trim()` |
| X86Registrar.ProgressStep | src/COMWizard.Engine/X86LibraryRegistrar.cs:35-49 | one more item adds its request, its reply and, when the reply is a result, that result |
| X86Registrar.Conversation | src/COMWizard.Engine/X86LibraryRegistrar.cs:35-51 | the results never outnumber the replies |
| X86Registrar.ConversationOutcome | src/COMWizard.Engine/X86LibraryRegistrar.cs:35-51 | the conversation completes exactly when the pipe works and every item gets a reply, and yields at most one result per item |
| X86Registrar.BrokenConversation | src/COMWizard.Engine/X86LibraryRegistrar.cs:37-42 | a broken pipe fails on the first write, with nothing yielded and nothing read |
| X86Registrar.ShortExit | src/COMWizard.Engine/X86LibraryRegistrar.cs:44 | a worker that stops answering fails the read after its last reply, all earlier results having been yielded |
| X86Registrar.FullExit | src/COMWizard.Engine/X86LibraryRegistrar.cs:51 | once every item is answered, `Terminate` is sent and the remaining replies stay unread |
| X86Registrar.ConversationAlternates | src/COMWizard.Engine/X86LibraryRegistrar.cs:35-51 | a complete conversation is the alternation of each request with its reply, then `Terminate`: `2n+1` events |
| X86Registrar.X86LibraryRegistrar.constructor | src/COMWizard.Engine/X86LibraryRegistrar.cs:13-18 | the registrar keeps the manager and the work it was given |
| X86Registrar.X86LibraryRegistrar.Register | src/COMWizard.Engine/X86LibraryRegistrar.cs:20-55 | the pipe is named from the prefix and the GUID; the manager is asked to start a worker on it; a failed start or connection yields nothing and leaves the pipe alone; otherwise the results, the failure and the pipe's events are those of `Conversation` |
| X86Registrar.X86LibraryRegistrar.Converse | src/COMWizard.Engine/X86LibraryRegistrar.cs:35-51 | the foreach over the work, then `Terminate`, leaves exactly the results, fault, events and unread replies of `Conversation` |
| FileSystem.Files.Delete | src/COMWizard.Common/Registration/Extensions/RegistryKeyExtensions.cs:54 | `File.Delete` removes the file, and a missing file is not an error |
| FileSystem.Files.Write | src/COMWizard.LibraryRegistrar/Program.cs:65 | a write creates or replaces the file, or fails leaving the files as they were |
| RegistrationManagement.LaunchFails | src/COMWizard.Engine/RegistrationManager.cs:45-53 | a launcher counts as failed when it is missing or has exited with a nonzero code; `FailedRelaunchFails` shows every failed elevated relaunch is caught |
| RegistrationManagement.FailedRelaunchFails | src/COMWizard.Engine/RegistrationManager.cs:45-53 | a launcher whose elevated relaunch failed, declined prompt included, exits with a code that `ConnectAsync` takes for a failed launch |
| RegistrationManagement.LauncherAcceptsArguments | src/COMWizard.Engine/RegistrationManager.cs:29-40 | the launcher started with `--pipe` and the coordinator's pipe name passes the launcher's argument guard and connects back to exactly that name |
| RegistrationManagement.ChunkSize | src/COMWizard.Engine/RegistrationManager.cs:97 | `(int)Math.Ceiling(n / 2d)`: the smallest size of which two cover `n` |
| RegistrationManagement.Chunks | src/COMWizard.Engine/RegistrationManager.cs:103 | every chunk holds between 1 and `size` items, and all but the last exactly `size` |
| RegistrationManagement.ChunksConcat | src/COMWizard.Engine/RegistrationManager.cs:103 | the chunks, put back together in order, are the input |
| RegistrationManagement.Plan | src/COMWizard.Engine/RegistrationManager.cs:97-105 | no files fail with the exception `Chunk(0)` throws; otherwise the chunks put back together are the files |
| RegistrationManagement.PlanShape | src/COMWizard.Engine/RegistrationManager.cs:97-105 | one file gives one chunk; more give two, the first of `ceil(n/2)` files and the second the rest |
| RegistrationManagement.RegistrationManager.constructor | src/COMWizard.Engine/RegistrationManager.cs:14-20 | a new manager is not disposed, has no pipe and no launcher, and its locks are free |
| RegistrationManagement.RegistrationManager.Connect | src/COMWizard.Engine/RegistrationManager.cs:27-64 | the pipe is named from the prefix and the GUID and the launcher is started with `--pipe` and that name; a missing or failed launcher disposes the pipe, clears it and throws; a failed connection cleans everything up and throws; otherwise the pipe is connected to the launcher |
| RegistrationManagement.RegistrationManager.ReleaseLauncher | src/COMWizard.Engine/RegistrationManager.cs:145-161 | a launcher still running is killed before being disposed; one that exited is only disposed; afterwards there is none |
| RegistrationManagement.RegistrationManager.Cleanup | src/COMWizard.Engine/RegistrationManager.cs:128-162 | a connected pipe is disconnected, then disposed and cleared; then the launcher is released |
| RegistrationManagement.RegistrationManager.CreateRegistrar | src/COMWizard.Engine/RegistrationManager.cs:66-91 | the lock is taken and released on every path; no pipe throws; otherwise one `StartRegistrarRequest` for the registrar's pipe is written and one reply read, a `StartRegistrarResult` being returned and anything else rejected |
| RegistrationManagement.RegistrationManager.SendTerminate | src/COMWizard.Engine/RegistrationManager.cs:117-124 | `Terminate` is written only to a connected pipe, and a failed write is swallowed |
| RegistrationManagement.RegistrationManager.Close | src/COMWizard.Engine/RegistrationManager.cs:113-126 | a disposed manager throws; otherwise `Terminate` goes to a connected launcher |
| RegistrationManagement.RegistrationManager.DisposeAsync | src/COMWizard.Engine/RegistrationManager.cs:164-199 | the first call closes, cleans up and marks the manager disposed; later calls change nothing |
| RegistrationManagement.RegistrationManager.Dispose | src/COMWizard.Engine/RegistrationManager.cs:201-259 | like `DisposeAsync`, except that the pipe is disposed without being disconnected |
| RegistrationManagement.RegistrationManager.Register | src/COMWizard.Engine/RegistrationManager.cs:93-111 | no files throw; otherwise the work is split by `Plan` and the results are those of the registrars merged by `Interleave`, each registrar's in its own order; the run completes only when not cancelled and no registrar faults, and then yields all of them; a faulting registrar's exception comes after all its results; disposing a registrar whose move was still running after an early stop fails with `DisposeFailed` for that chunk instead |
| Interleaving.PendingUpdate | src/COMWizard.Engine/Extensions/AsyncEnumerableExtensions.cs:75-79 | moving an enumerator on changes the count of outstanding moves by that enumerator's own weight only |
| Interleaving.PendingRemove | src/COMWizard.Engine/Extensions/AsyncEnumerableExtensions.cs:80-85 | dropping an enumerator removes exactly its weight from the outstanding moves |
| Interleaving.PicksAppend | src/COMWizard.Engine/Extensions/AsyncEnumerableExtensions.cs:77 | yielding an item adds it to the picks of its own source and of no other |
| Interleaving.RemoveAt | src/COMWizard.Engine/Extensions/AsyncEnumerableExtensions.cs:82-84 | removing an entry of a repeat-free list keeps it repeat-free and drops exactly that entry |
| Interleaving.StartInvariant | src/COMWizard.Engine/Extensions/AsyncEnumerableExtensions.cs:55-65 | after one `MoveNextAsync` per enumerator, in order, the loop's invariants hold with nothing yielded or disposed |
| Interleaving.YieldAligned | src/COMWizard.Engine/Extensions/AsyncEnumerableExtensions.cs:75-78 | a task with an item is replaced by the next move of the same enumerator |
| Interleaving.YieldCounted | src/COMWizard.Engine/Extensions/AsyncEnumerableExtensions.cs:77 | the item yielded is the next item of its source |
| Interleaving.YieldOut | src/COMWizard.Engine/Extensions/AsyncEnumerableExtensions.cs:77 | yielding the next item of a source keeps every source's picks a prefix of its items |
| Interleaving.Without | src/COMWizard.Engine/Extensions/AsyncEnumerableExtensions.cs:82-84 | `RemoveAt(i)` keeps the entries before `i` and shifts the later ones down by one |
| Interleaving.RemoveAligned | src/COMWizard.Engine/Extensions/AsyncEnumerableExtensions.cs:80-85 | an exhausted enumerator is dropped together with its task, the remaining tasks stay paired, and the outstanding moves decrease |
| Interleaving.RemoveKeepsAligned | src/COMWizard.Engine/Extensions/AsyncEnumerableExtensions.cs:82-84 | removing the same index from the `moveNextTasks` and `enumerators` lists keeps them paired |
| Interleaving.RemoveAccounted | src/COMWizard.Engine/Extensions/AsyncEnumerableExtensions.cs:83-84 | the exhausted source moves from the listed enumerators to the disposed ones |
| Interleaving.RemoveCounted | src/COMWizard.Engine/Extensions/AsyncEnumerableExtensions.cs:83 | a disposed source has had all its items yielded |
| Interleaving.AllDone | src/COMWizard.Engine/Extensions/AsyncEnumerableExtensions.cs:67-86 | when no task is left, every source has had all its items yielded, in its own order |
| Interleaving.DisposeRest | src/COMWizard.Engine/Extensions/AsyncEnumerableExtensions.cs:88-94 | the enumerators disposed by the loop and those left for the `finally` block are each source exactly once, so a `finally` block in which no `DisposeAsync` throws disposes every enumerator exactly once |
| Interleaving.DisposeStops | src/COMWizard.Engine/Extensions/AsyncEnumerableExtensions.cs:90-93 | when the `foreach` of the `finally` block throws at an enumerator, the ones disposed before it are still distinct and that enumerator is not among them |
| Interleaving.Open | src/COMWizard.Engine/Extensions/AsyncEnumerableExtensions.cs:55-65 | one enumerator per source, in order, each moved once |
| Interleaving.Drain | src/COMWizard.Engine/Extensions/AsyncEnumerableExtensions.cs:67-86 | the while loop keeps each source's items in order and stops when every enumerator is exhausted, cancellation is seen, or a source's enumeration throws; a faulting source has yielded all its items, and only sources that finished cleanly were disposed inside the loop |
| Interleaving.YieldsPrefix | src/COMWizard.Engine/Extensions/AsyncEnumerableExtensions.cs:67-86 | every source's items come out in their own order, possibly not all of them |
| Interleaving.Interleave | src/COMWizard.Engine/Extensions/AsyncEnumerableExtensions.cs:49-95 | each item yielded comes from one source; each source's items come out in order; on completion all of them, from sources none of which faulted; a faulting source's exception propagates after all its items; one `MoveNextAsync` per enumerator, then one per item yielded; without cancellation and faulting sources the run completes; unless a `DisposeAsync` in the `finally` block throws, each enumerator is disposed exactly once; that throw happens only on an enumerator whose move is in flight, which then stays undisposed |
| RegistrationEngine.EligibleFiles | src/COMWizard.Engine/RegistrationEngine.cs:29-35 | the files kept are eligible ones from the input, never more than the input |
| RegistrationEngine.Rejections | src/COMWizard.Engine/RegistrationEngine.cs:37-44 | one bare registration result per rejected file, never more than the input |
| RegistrationEngine.Partition | src/COMWizard.Engine/RegistrationEngine.cs:26-45 | every file is either kept for registration or answered with a bare result carrying its path, never both and never neither |
| RegistrationEngine.IneligibleExamples | src/COMWizard.Engine/RegistrationEngine.cs:29-33 | examples: a file without COM exports, built for another machine, or a managed assembly is answered and not registered; `Partition` is the general rule |
| RegistrationEngine.ParseAll | src/COMWizard.Engine/RegistrationEngine.cs:26 | when no parse throws, every path is parsed once, in order, and the i-th record is the i-th path's |
| RegistrationEngine.Parsed | src/COMWizard.Engine/RegistrationEngine.cs:26 | the records parsed before the first parse that throws: a prefix of the paths, each parsed in order, and the next path's parse is the one that throws |
| RegistrationEngine.ParsedTotal | src/COMWizard.Engine/RegistrationEngine.cs:26 | when no parse throws, the parsed prefix is every path's record |
| RegistrationEngine.ParsedUnique | src/COMWizard.Engine/RegistrationEngine.cs:26 | any list of records that answers a prefix of the paths and stops at throwing parse is the parsed prefix |
| RegistrationEngine.Extend | src/COMWizard.Engine/RegistrationEngine.cs:29-44 | one more file either joins the libraries kept, when eligible, or adds its bare answer to the results |
| RegistrationEngine.Eligible | src/COMWizard.Engine/RegistrationEngine.cs:29-33 | a file is kept for registration exactly when it is a PE image for I386, a COM server, a library and not a managed assembly; `Partition` and `IneligibleExamples` state what that means for the results |
| RegistrationEngine.Register | src/COMWizard.Engine/RegistrationEngine.cs:20-51 | the paths are parsed in order; the results are the bare answers for the ineligible files, in input order; when every parse succeeds the eligible libraries' paths, in order, go to `RegisterCore`; when a parse throws, its exception ends the run after the answers for the files before it, and `RegisterCore` is never reached |
| PEParsingService.AsInt32 | src/COMWizard.Common/PortableExecutable/PEParsingService.cs:163 | the unchecked `(int)` cast of a u32 always lands in the `int` range |
| PEParsingService.ReadU32 | src/COMWizard.Common/PortableExecutable/PEParsingService.cs:146-156 | `ReadUInt32` succeeds exactly when four bytes remain at the offset, and gives a u32 |
| PEParsingService.Truncate | src/COMWizard.Common/PortableExecutable/PEParsingService.cs:183 | at most `n` characters are kept, from the front |
| PEParsingService.AsciiNameProperties | src/COMWizard.Common/PortableExecutable/PEParsingService.cs:183-188 | the name read is the block's bytes before the first 0, each as the character with that code |
| PEParsingService.NameOfProperties | src/COMWizard.Common/PortableExecutable/PEParsingService.cs:183-190 | the name read holds no NUL, is at most 4096 characters and the block's length, and stops at the limit, the end of the block, or a 0 byte |
| PEParsingService.ReadNullTerminatedAsciiString | src/COMWizard.Common/PortableExecutable/PEParsingService.cs:177-191 | the for-loop builds exactly the bounded NUL-terminated name |
| PEParsingService.AsciiNameStep | src/COMWizard.Common/PortableExecutable/PEParsingService.cs:185-187 | a non-zero byte read goes into the builder in order |
| PEParsingService.NameIsPrefix | src/COMWizard.Common/PortableExecutable/PEParsingService.cs:183-190 | whichever of the three ways the loop stops, the builder holds the bounded name |
| PEParsingService.NamesFromProperties | src/COMWizard.Common/PortableExecutable/PEParsingService.cs:166-174 | every name collected is non-empty, NUL-free and at most 4096 characters, and there are at most as many as table entries walked |
| PEParsingService.ExportNamesEmptyDirectory | src/COMWizard.Common/PortableExecutable/PEParsingService.cs:136-139 | an image without an export directory has no export names |
| PEParsingService.ExportNamesShape | src/COMWizard.Common/PortableExecutable/PEParsingService.cs:144-174 | NumberOfNames (offset 24) or AddressOfNames (offset 32) equal to 0 gives no names; otherwise there are at most NumberOfNames names |
| PEParsingService.GetExportNames | src/COMWizard.Common/PortableExecutable/PEParsingService.cs:132-175 | the walk of the directory and the name table gives exactly `ExportNames`: the non-empty names in table order, or the error the first failing read throws |
| PEParsingService.PrependStep | src/COMWizard.Common/PortableExecutable/PEParsingService.cs:172 | collecting names piece by piece is collecting them all at once |
| PEParsingService.ComServerNeedsClassObject | src/COMWizard.Common/PortableExecutable/PEParsingService.cs:54 | without a `DllGetClassObject` export, in any case, a file is not a COM server |
| PEParsingService.ComServerIgnoresCase | src/COMWizard.Common/PortableExecutable/PEParsingService.cs:54-57 | example: an export table naming the entry points in other cases is a COM server; `ComServerCaseInsensitive` is the general rule |
| PEParsingService.Exports | src/COMWizard.Common/PortableExecutable/PEParsingService.cs:54-57 | a name is exported exactly when some export equals it ignoring case; `ExportsIgnoreCase` shows the answer does not change with the case of the exports |
| PEParsingService.IsComServer | src/COMWizard.Common/PortableExecutable/PEParsingService.cs:54-57 | `DllGetClassObject` and one of the other three entry points are exported; `ComServerNeedsClassObject` and `ComServerCaseInsensitive` state its meaning |
| PEParsingService.EqualsIgnoreCaseChain | src/COMWizard.Common/PortableExecutable/PEParsingService.cs:54-57 | two names equal ignoring case to a third are equal ignoring case to each other |
| PEParsingService.ExportsIgnoreCase | src/COMWizard.Common/PortableExecutable/PEParsingService.cs:54-57 | two export lists equal name by name ignoring case export the same names |
| PEParsingService.ComServerCaseInsensitive | src/COMWizard.Common/PortableExecutable/PEParsingService.cs:54-57 | two export lists equal name by name ignoring case are both COM servers or neither |
| PEParsingService.ExportNames | src/COMWizard.Common/PortableExecutable/PEParsingService.cs:132-175 | the export names or the error the walk throws; `ExportNamesEmptyDirectory`, `ExportNamesShape` and `GetExportNames` state them |
| PEParsingService.NamesFrom | src/COMWizard.Common/PortableExecutable/PEParsingService.cs:166-174 | the non-empty names of the entries from one index on, in table order; `NamesFromProperties` states their bounds |
| PEParsingService.NameOf | src/COMWizard.Common/PortableExecutable/PEParsingService.cs:177-191 | the bounded NUL-terminated ASCII name of a block; `NameOfProperties` states its bounds |
| PEParsingService.Parse | src/COMWizard.Common/PortableExecutable/PEParsingService.cs:15-130 | a file without the `MZ` signature in its first 64 bytes gives the bare record with path and hash; otherwise the magic, DLL and executable flags come from the COFF header, architecture, exports and the COM rule only for images that are one or the other, and the assembly flag and framework from the CLI metadata; a failing export walk makes `Parse` throw |
| PEMetadata.NatToString | src/COMWizard.Common/PortableExecutable/PEMetadata.cs:55 | a number's decimal text is never empty |
| PEMetadata.NotAssemblyNotFramework | src/COMWizard.Common/PortableExecutable/PEMetadata.cs:23 | without the assembly flag or without a framework the answer is false |
| PEMetadata.IdentifierIgnored | src/COMWizard.Common/PortableExecutable/PEMetadata.cs:55-68 | only the framework's version decides, never its identifier |
| PEMetadata.NetStandardAccepted | src/COMWizard.Common/PortableExecutable/PEMetadata.cs:55-67 | a `.NETStandard` target at version `2.0.0.0` is taken for a classic framework |
| PEMetadata.ClassicTargetRejected | src/COMWizard.Common/PortableExecutable/PEMetadata.cs:55-67 | `.NETFramework,Version=v4.8` gives the version string `4.8`, which no case matches |
| PEMetadata.Normalize | src/COMWizard.Common/PortableExecutable/PEMetadata.cs:25-36 | the version padded to four components keeps every component that was given |
| PEMetadata.ClassicTargetAcceptedIntended | src/COMWizard.Common/PortableExecutable/PEMetadata.cs:25-36 | the corrected check accepts `.NETFramework,Version=v4.8` |
| PEMetadata.IntendedAgreesOnFullVersions | src/COMWizard.Common/PortableExecutable/PEMetadata.cs:55-67 | the corrected check agrees with the code on every four-component version |
| PEMetadata.IntendedIgnoresTrailingZeros | src/COMWizard.Common/PortableExecutable/PEMetadata.cs:25-36 | the corrected check judges `4.8` and `4.8.0.0` alike |
| PEMetadata.VersionString | src/COMWizard.Common/PortableExecutable/PEMetadata.cs:55 | `Version.ToString()` prints the defined components only; `ClassicTargetRejected` shows the two-component string this gives |
| PEMetadata.IsNetFrameworkAssembly | src/COMWizard.Common/PortableExecutable/PEMetadata.cs:19-70 | an assembly with a target framework whose version string is one of ten; `NotAssemblyNotFramework`, `IdentifierIgnored`, `NetStandardAccepted` and `ClassicTargetRejected` state its answers |
| PEMetadata.IsNetFrameworkAssemblyIntended | src/COMWizard.Common/PortableExecutable/PEMetadata.cs:25-36 | the check with the version padded to four components; `ClassicTargetAcceptedIntended` and `IntendedAgreesOnFullVersions` relate it to the code |
| OfflineRegistry.SubKeyPath | src/COMWizard.Common/OfflineRegistry/OfflineRegistryKey.cs:43 | a subkey's path names the key by its parent's segments and its own name; `SubKeyPathSegments` and `NameOfSubKey` state that |
| OfflineRegistry.SubKeyPathSegments | src/COMWizard.Common/OfflineRegistry/OfflineRegistryKey.cs:23-43 | the segments of a subkey's path are the parent's segments followed by the subkey's name, and the name alone below the root |
| OfflineRegistry.SplitJoin | src/COMWizard.Common/OfflineRegistry/OfflineRegistryKey.cs:23-43 | splitting two texts joined by the separator gives the pieces of the first followed by the pieces of the second |
| OfflineRegistry.KeyName | src/COMWizard.Common/OfflineRegistry/OfflineRegistryKey.cs:23 | `Name` is a backslash-free segment of the path |
| OfflineRegistry.NameOfSubKey | src/COMWizard.Common/OfflineRegistry/OfflineRegistryKey.cs:23-44 | a subkey opened or created by a single-segment name reports that name as its `Name` |
| OfflineRegistry.CharUnits | src/COMWizard.Common/OfflineRegistry/OfflineRegistryKey.cs:323-326 | a character is one or two UTF-16 code units, and a zero unit occurs exactly for NUL |
| OfflineRegistry.Units | src/COMWizard.Common/OfflineRegistry/OfflineRegistryKey.cs:362-365 | a string without NUL encodes to code units without a zero unit, at least one per character |
| OfflineRegistry.DecodeUnitsOfString | src/COMWizard.Common/OfflineRegistry/OfflineRegistryKey.cs:323-326 | decoding the UTF-16 code units of any string gives that string back |
| OfflineRegistry.BytesUnitsOfUnits | src/COMWizard.Common/OfflineRegistry/OfflineRegistryKey.cs:362-365 | pairing little-endian bytes back into code units inverts writing them |
| OfflineRegistry.DecodeUnits | src/COMWizard.Common/OfflineRegistry/OfflineRegistryKey.cs:325-326 | decoding never gives more characters than code units; `DecodeUnitsOfString` shows it inverts encoding |
| OfflineRegistry.Utf16 | src/COMWizard.Common/OfflineRegistry/OfflineRegistryKey.cs:364-365 | `Encoding.Unicode.GetBytes` gives an even number of bytes, at least two per character; `ReadUpToNul` and `TextReadsBack` show that the encoding of a NUL-free string and a NUL reads back as that string |
| OfflineRegistry.ReadNulTerminated | src/COMWizard.Common/OfflineRegistry/OfflineRegistryKey.cs:325-326 | `PtrToStringUni` reads a string exactly when the data holds a NUL unit, and then fewer characters than units; `ReadUpToNul` gives the string read |
| OfflineRegistry.ReadUpToNul | src/COMWizard.Common/OfflineRegistry/OfflineRegistryKey.cs:325-326 | `PtrToStringUni` of data holding a NUL-free string and then a NUL reads that string, whatever follows |
| OfflineRegistry.Utf16RoundTrip | src/COMWizard.Common/OfflineRegistry/OfflineRegistryKey.cs:360-365 | reading all the code units of `Encoding.Unicode.GetBytes(s)` back gives `s` |
| OfflineRegistry.UnitIndex | src/COMWizard.Common/OfflineRegistry/OfflineRegistryKey.cs:325-326 | the first position of a unit: it holds the unit and no earlier position does |
| OfflineRegistry.NonEmpty | src/COMWizard.Common/OfflineRegistry/OfflineRegistryKey.cs:339-341 | `RemoveEmptyEntries` keeps no empty part and never adds parts |
| OfflineRegistry.MultiStringParts | src/COMWizard.Common/OfflineRegistry/OfflineRegistryKey.cs:339-379 | splitting the stored multi-string text at NUL and removing empty entries gives exactly the non-empty parts, in order, when no part holds a NUL |
| OfflineRegistry.NonEmptyOfNonEmpty | src/COMWizard.Common/OfflineRegistry/OfflineRegistryKey.cs:339-341 | removing empty entries from parts that are all non-empty changes nothing |
| OfflineRegistry.KindCode | src/COMWizard.Common/OfflineRegistry/OfflineRegistryKey.cs:219 | the numeric kind handed to `ORSetValue` lies in -1..11 |
| OfflineRegistry.KindCodesDistinct | src/COMWizard.Common/OfflineRegistry/OfflineRegistryKey.cs:219 | distinct kinds have distinct numeric codes, so the stored code identifies the kind |
| OfflineRegistry.InferValueKind | src/COMWizard.Common/OfflineRegistry/OfflineRegistryKey.cs:350-358 | an unspecified kind becomes one of String, DWord, QWord, Binary or MultiString |
| OfflineRegistry.DWordBytes | src/COMWizard.Common/OfflineRegistry/OfflineRegistryKey.cs:367-368 | `BitConverter.GetBytes(int)` is four bytes |
| OfflineRegistry.QWordBytes | src/COMWizard.Common/OfflineRegistry/OfflineRegistryKey.cs:370-371 | `BitConverter.GetBytes(long)` is eight bytes |
| OfflineRegistry.ConvertToRegistryData | src/COMWizard.Common/OfflineRegistry/OfflineRegistryKey.cs:360-384 | stored DWord data is 4 bytes, QWord data 8 bytes, String and MultiString data an even count of at least 2 |
| OfflineRegistry.ConvertSucceeds | src/COMWizard.Common/OfflineRegistry/OfflineRegistryKey.cs:360-384 | conversion succeeds exactly for a string or null as String, an int as DWord, a long as QWord, a byte array as Binary and a string array as MultiString; every other kind is unsupported |
| OfflineRegistry.InferredKindStores | src/COMWizard.Common/OfflineRegistry/OfflineRegistryKey.cs:213-218 | with the kind inferred, every value but `null` and objects of other types converts; those two fail with a null reference and an invalid cast |
| OfflineRegistry.ParseRegistryValue | src/COMWizard.Common/OfflineRegistry/OfflineRegistryKey.cs:321-348 | unknown and Binary kinds give the bytes unchanged, DWord and QWord read exactly when 4 and 8 bytes are present, MultiString always reads a string array |
| OfflineRegistry.TextReadsBack | src/COMWizard.Common/OfflineRegistry/OfflineRegistryKey.cs:325-365 | a NUL-free string stored as String reads back as itself |
| OfflineRegistry.Int32ReadsBack | src/COMWizard.Common/OfflineRegistry/OfflineRegistryKey.cs:328-368 | an int stored as DWord reads back as the same int, negative values included |
| OfflineRegistry.Int64ReadsBack | src/COMWizard.Common/OfflineRegistry/OfflineRegistryKey.cs:331-371 | a long stored as QWord reads back as the same long, negative values included |
| OfflineRegistry.ReadMultiString | src/COMWizard.Common/OfflineRegistry/OfflineRegistryKey.cs:339-379 | a stored string array of NUL-free strings reads back as its non-empty strings |
| OfflineRegistry.TextArrayDropsEmpty | src/COMWizard.Common/OfflineRegistry/OfflineRegistryKey.cs:339-379 | storing a string array and reading it back drops its empty entries |
| OfflineRegistry.StoredValueReadsBack | src/COMWizard.Common/OfflineRegistry/OfflineRegistryKey.cs:321-384 | every storable value, stored under its inferred kind, parses back as itself |
| OfflineRegistry.TextCutAtNul | src/COMWizard.Common/OfflineRegistry/OfflineRegistryKey.cs:325-365 | a string holding a NUL is read back only up to that NUL |
| OfflineRegistry.SubKeyListing | src/COMWizard.Common/OfflineRegistry/OfflineRegistryKey.cs:78-105 | a failed listing never fails with success or `ERROR_NO_MORE_ITEMS` |
| OfflineRegistry.ValueListing | src/COMWizard.Common/OfflineRegistry/OfflineRegistryKey.cs:110-145 | a failed value listing never fails with success |
| OfflineRegistry.SubKeyListingMeaning | src/COMWizard.Common/OfflineRegistry/OfflineRegistryKey.cs:78-105 | a listing is the names at indices 0, 1, ... that answered success, up to the first `ERROR_NO_MORE_ITEMS`, or fails with the first other code, every earlier index having succeeded |
| OfflineRegistry.ValueListingMeaning | src/COMWizard.Common/OfflineRegistry/OfflineRegistryKey.cs:110-145 | the same for values, where an index answered `ERROR_MORE_DATA` is decided by its retry |
| OfflineRegistry.RetryEndIsFailure | src/COMWizard.Common/OfflineRegistry/OfflineRegistryKey.cs:128-138 | a retry answered `ERROR_NO_MORE_ITEMS` makes the listing fail rather than end |
| OfflineRegistry.PrefixedTwice | src/COMWizard.Common/OfflineRegistry/OfflineRegistryKey.cs:86-101 | collecting names in two steps equals collecting them at once |
| OfflineRegistry.SubKeyStep | src/COMWizard.Common/OfflineRegistry/OfflineRegistryKey.cs:86-101 | a successful index moves its name from the rest of the listing to the names collected |
| OfflineRegistry.ValueStep | src/COMWizard.Common/OfflineRegistry/OfflineRegistryKey.cs:119-142 | the same for a value index, with the name its effective answer gives |
| OfflineRegistry.OfflineRegistryKey.constructor | src/COMWizard.Common/OfflineRegistry/OfflineRegistryKey.cs:25-31 | a new key holds the handle, path and ownership it is given and is not disposed |
| OfflineRegistry.OfflineRegistryKey.OpenSubKey | src/COMWizard.Common/OfflineRegistry/OfflineRegistryKey.cs:36-45 | a disposed key throws; a failed `OROpenKey` gives null; otherwise a new owning key on the returned handle at the subkey path |
| OfflineRegistry.OfflineRegistryKey.CreateSubKey | src/COMWizard.Common/OfflineRegistry/OfflineRegistryKey.cs:50-62 | a disposed key throws; a failed `ORCreateKey` throws with its code; otherwise a new owning key on the returned handle at the subkey path |
| OfflineRegistry.OfflineRegistryKey.GetSubKeyNames | src/COMWizard.Common/OfflineRegistry/OfflineRegistryKey.cs:78-105 | a disposed key throws; otherwise the result is the listing the native answers define, reported as the caller sees it |
| OfflineRegistry.OfflineRegistryKey.GetValueNames | src/COMWizard.Common/OfflineRegistry/OfflineRegistryKey.cs:110-145 | the same for value names, with the `ERROR_MORE_DATA` retry |
| OfflineRegistry.OfflineRegistryKey.GetValue | src/COMWizard.Common/OfflineRegistry/OfflineRegistryKey.cs:150-174 | a disposed key throws; either native call failing gives the default value; otherwise the parsed value; `GetValueErrors` gives exactly when it throws and `SetThenGet` that a stored value reads back |
| OfflineRegistry.OfflineRegistryKey.SetValue | src/COMWizard.Common/OfflineRegistry/OfflineRegistryKey.cs:211-223 | a disposed key throws, an unconvertible value writes nothing, and a nonzero native code throws; `SetValueWrites` gives exactly when a write happens and succeeds, and `SetThenGet` that it is read back |
| OfflineRegistry.SetValueWrites | src/COMWizard.Common/OfflineRegistry/OfflineRegistryKey.cs:211-223 | a write happens exactly when the key is open and the effective kind and value are one of the five supported pairs; the call succeeds exactly when it writes and `ORSetValue` answers 0 |
| OfflineRegistry.GetValueErrors | src/COMWizard.Common/OfflineRegistry/OfflineRegistryKey.cs:150-174 | a read throws exactly when the key is disposed or both native calls succeed on data that cannot be read: a String with no NUL unit, a DWord under 4 bytes, a QWord under 8; an open key's error is unreadable data |
| OfflineRegistry.OfflineRegistryKey.Dispose | src/COMWizard.Common/OfflineRegistry/OfflineRegistryKey.cs:392-409 | a key is disposed once: an owned non-zero handle is closed and cleared the first time, and nothing else happens later |
| OfflineRegistry.SetThenGet | src/COMWizard.Common/OfflineRegistry/OfflineRegistryKey.cs:150-223 | a storable value set with no kind and handed back by the store is what `GetValue` returns |

## Left out

- The BSON serialiser (Newtonsoft, `TypeNameHandling.All`) is a `Codec` of two functions. It is assumed to read back what it writes.
- Native calls are scripted results (`RegOverridePredefKey`, `RegSaveKey`, the token-privilege calls, `OROpenKey`, `ORCreateKey`, `OREnumKey`, `OREnumValue`, `ORGetValue`, `ORSetValue`, `ORCloseKey`). Only their success or failure code and returned handles are modelled.
- `OffRegNative.cs` and `OfflineRegistryHive.cs` are not part of this model. Neither are `OfflineRegistryKey`'s security-descriptor methods (lines 239-319), `GetValueExtended` with its `RegistryType`, `DeleteSubKey`, `DeleteValue`, and the finalizers. They are thin wrappers over offreg and Marshal calls.
- `RegistrationService.cs` (LoadLibrary and `DllRegisterServer`) is an oracle. The library's self-registration is a set of keys it writes through the predefined handles, or an exception.
- `ProcessLauncher.cs` is not part of this model. Its connect and close logic duplicates `RegistrationManager`, which is modelled. `RegisterCore` is modelled only as the paths it receives, because it yields nothing.
- `LibraryExtractor/Program.cs`, `Merge`, the GUI, dependency injection, `MessageType.cs` and the message classes are definitions only. They appear as the `Message` datatype.
- In the registry model, key names compare exactly. Registry case-insensitivity and the merged `HKEY_CLASSES_ROOT` view are not modelled. The one case-insensitive comparison modelled is the `TypeLib` GUID test in `RegistryProxy.Dispose`.
- RegistryKeyExtensions.Open: the `writable` flag is not modelled, because the model has no access rights and the only caller reads the key to save it. A leading backslash after the root reaches the native `RegOpenKeyEx` unchanged. The model looks it up as a key with an empty name and gives null. The name checks and the fix-up come from `Microsoft.Win32.RegistryKey`, which is not part of the repository. They follow .NET's `ValidateKeyName` and `FixupName`.
- `Path.Combine` and `Path.GetFileName` are simplified to backslash and slash separators, with no drive or UNC handling.
- `Trim` treats ASCII white space plus U+0085 and U+00A0 as white space. The other Unicode space separators are not modelled.
- Exception messages are reduced to the exception type and the native code. The failure reply of the worker keeps its fixed prefix and the exception's text as an opaque string.
- Cancellation tokens are not modelled, except that `Interleave` checks a cancellation flag before each wait. That check is where `RegistrationManager.Register` ends with `OperationCanceledException`.
- Console hiding in the launcher, timing, `Process.Kill` and `WaitForExit`, and elevation prompts are I/O. `Start` is an oracle outcome.
- The contents of `fileinfo.json` are not modelled. The file is recorded as written with the request's file information.
- The semaphore of `RegistrationManager` is a flag that `CreateRegistrar` takes and releases, because calls are sequential in this model.
- Exceptions thrown by `Kill` and `Dispose` during cleanup are not modelled. The `Terminate` that `Dispose` sends without awaiting it is an ordinary write.
- Each registrar's run is an oracle in `RegistrationManager.Register`: the sequence of results it yields and whether its enumeration then throws. Whether its latest `MoveNextAsync` is still running when an early stop disposes it is an oracle set too, because it depends on timing. Where inside the registrar the exception arises (a pipe read, the worker start) is not modelled.
- RegistrationManagement.RegistrationManager.Register: no longer promises that every non-empty input is registered without an exception. The code lets cancellation, a faulting registrar and a failing `DisposeAsync` escape, so the run completes only when none of them happens.
- Registration.RegistryProxy.Dispose: an exception thrown while pruning (`OpenSubKey`, `GetValue` or `DeleteSubKeyTree` at `RegistryProxy.cs:117-160`) is not modelled. In the code it skips the reverts at lines 163-167 and leaves `_disposed` false, so the overrides stay in force. The model's deletions always succeed.
- RegistrationManagement.RegistrationManager.Connect: `Process.Start` throwing at `RegistrationManager.cs:45` is not modelled. In the code the exception escapes with `_serverStream` still set and not disposed. The model's start either gives a process or none.
- Common.EqualsIgnoreCase: ordinal comparison with ASCII case folding only. .NET's `OrdinalIgnoreCase` also folds non-ASCII letters.
- Common.IsPrefix: ordinal. The launcher's `StartsWith(string)` at `Program.cs:26` is culture-sensitive, which the model does not capture.
- Common.PipeArguments: inherits both simplifications above, ASCII-only folding of `--pipe` and an ordinal prefix test.
- `Interleaving.Interleave`: a consumer that stops enumerating early is not modelled. The loop runs until every source is exhausted or cancellation is seen.
- `CreateRegistrar` takes a process name that the code never uses, so the model has no such parameter.
- A lone UTF-16 surrogate decodes to U+FFFD. A string element of a `string[]` cannot be null in the model.
- `OfflineRegistry.ParseRegistryValue` gives `None` where the source would read past the end of the native buffer: a `String` without a NUL, or a `DWord` or `QWord` shorter than 4 or 8 bytes.
- A `RegistryProxy` whose constructor threw is never disposed by the worker, because C# `using` never receives the object. The model keeps the roots it pushed overridden, as the code does.
- The `FileInformation` property used at `X86LibraryRegistrar.cs:39` and in the worker is missing from `RegistrationRequestMessage.cs`. The `ServerStream` member used at `RegistrationEngine.cs:67` is not defined by `ProcessLauncher.cs`. The model gives the request message its file information and does not model `RegisterCore`'s stream use.
- `RegistrationEngine.Register` is modelled as a loop that completes before results are returned. The lazy interleaving of `yield return` with the parser calls is not modelled. The order of both is.
- SHA-256 hashing, the PEReader and MetadataReader internals and the decoding of the `TargetFrameworkAttribute` blob are inputs of the PE model.

## Findings

| source | as written | input that shows it | evidently intended | confidence | as-written member | corrected member |
|---|---|---|---|---|---|---|
| src/COMWizard.Common/PortableExecutable/PEMetadata.cs:55-67 | `IsNetFrameworkAssembly` switches on `Framework.Version.ToString()`. A version parsed from `.NETFramework,Version=v4.8` has no build or revision, so its string is `4.8` and never `4.8.0.0`. | `TargetFrameworkAttribute` `.NETFramework,Version=v4.8` gives `Version(4, 8)`, for which `IsNetFrameworkAssembly` is false | The comments beside the switch list `4.8.0.0` as the version of `v4.8`. The version should be compared padded to four components, with undefined parts read as 0. | medium, not executed | PEMetadata.ClassicTargetRejected | PEMetadata.ClassicTargetAcceptedIntended |
