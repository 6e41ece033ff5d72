/** The 32-bit registrar worker (`COMWizard.LibraryRegistrar`): it checks its
    arguments, connects to the coordinator's pipe and answers each
    registration request with one result, registering the library inside a
    `RegistryProxy` sandbox and saving the sandbox as a hive file. */
module LibraryRegistrar {
  import opened Common
  import opened PEMetadata
  import opened Messages
  import opened WinRegistry
  import opened RegistryKeyExtensions
  import opened Registration
  import opened FileSystem

  const PipePrefix: string := "comwizard.registrar-"
  const FailurePrefix: string := "An exception occurred while attempting to register file.  "

  /** `Guid.ToString()`: 32 hexadecimal digits in groups of 8-4-4-4-12. */
  predicate GuidText(g: string)
  {
    |g| == 36 && forall k :: 0 <= k < 36 ==>
      if k == 8 || k == 13 || k == 18 || k == 23 then g[k] == '-'
      else '0' <= g[k] <= '9' || 'a' <= g[k] <= 'f'
  }

  /** What the world does while one request is handled: the proxy's fresh
      name, the keys the library's self-registration creates (each through a
      predefined root) and whether it throws after them, the `SaveKey` steps
      that fail, and whether writing `fileinfo.json` fails. */
  datatype Effects = Effects(
    guid: string,
    writes: seq<(Root, seq<string>)>,
    registerThrows: bool,
    saveFails: set<SaveStep>,
    infoWriteFails: bool)

  /** The exception that ends the handling of a request. */
  datatype Fault =
    | ProxyFailed(code: int)        // the proxy constructor's Win32Exception
    | RegisterFailed                // the library's registration threw
    | BadKeyName(error: OpenError)  // `Open` rejected the proxy's name
    | KeyMissing                    // `Open` returned null: NullReferenceException at `key.Handle`
    | SaveFailed(step: SaveStep)    // a step of `SaveKey` threw
    | InfoNotWritten                // `File.WriteAllTextAsync` threw
    | ReplyNotSent                  // writing the success reply threw

  /** The type name the exception text starts with. */
  function FaultText(f: Fault): string
  {
    match f
    case ProxyFailed(_) => "System.ComponentModel.Win32Exception"
    case RegisterFailed => "System.Exception"
    case BadKeyName(_) => "System.ArgumentException"
    case KeyMissing => "System.NullReferenceException"
    case SaveFailed(step) =>
      if step == CreateDirectory || step == DeleteFile then "System.IO.IOException"
      else "System.ComponentModel.Win32Exception"
    case InfoNotWritten => "System.IO.IOException"
    case ReplyNotSent => "System.IO.IOException"
  }

  // ---------------------------------------------------------------------
  // Output layout and replies

  /** `Path.Combine(LocalApplicationData, "COMWizard", SHA256)`. */
  function ResponseDirectory(localAppData: string, sha256: string): string
  {
    Combine(Combine(localAppData, "COMWizard"), sha256)
  }

  const HiveName: string := "registration.hive"
  const InfoName: string := "fileinfo.json"

  function HivePath(dir: string): string
  {
    Combine(dir, HiveName)
  }

  function InfoPath(dir: string): string
  {
    Combine(dir, InfoName)
  }

  /** A name that `Combine` appends as it is and `FileName` gives back. */
  predicate PlainName(name: string)
  {
    name != [] && !IsRooted(name) && forall k :: 0 <= k < |name| ==> !IsSeparator(name[k])
  }

  lemma HiveNamePlain()
    ensures PlainName(HiveName)
  {
  }

  lemma InfoNamePlain()
    ensures PlainName(InfoName)
  {
  }

  /** The two output files are named as the coordinator expects, and they
      are two different files whatever the directory. */
  lemma OutputLayout(dir: string)
    ensures FileName(HivePath(dir)) == HiveName
    ensures FileName(InfoPath(dir)) == InfoName
    ensures HivePath(dir) != InfoPath(dir)
  {
    HiveNamePlain();
    InfoNamePlain();
    FileNameOfCombine(dir, HiveName);
    FileNameOfCombine(dir, InfoName);
  }

  /** The directory is named after the hash when the hash is a plain name. */
  lemma DirectoryNamedByHash(localAppData: string, sha256: string)
    requires sha256 != [] && !IsRooted(sha256) && forall k :: 0 <= k < |sha256| ==> !IsSeparator(sha256[k])
    ensures FileName(ResponseDirectory(localAppData, sha256)) == sha256
  {
    FileNameOfCombine(Combine(localAppData, "COMWizard"), sha256);
  }

  /** A reply a request may get: a success for that file in `dir`, or a
      failure naming the file and carrying the exception text. */
  predicate Answers(req: Message, reply: Message, dir: string)
    requires req.RegistrationRequest?
  {
    reply == RegistrationSuccess(req.fileInformation, dir, FileName(req.path))
    || (reply.RegistrationFailure? && reply.name == FileName(req.path) && reply.path == req.path
        && IsPrefix(FailurePrefix, reply.exception))
  }

  /** The reply to a request that ended with `fault`. */
  function Reply(req: Message, dir: string, fault: Option<Fault>): (m: Message)
    requires req.RegistrationRequest?
    ensures IsRegistrationResult(m) && Answers(req, m, dir)
    ensures m.RegistrationSuccess? <==> fault.None?
    ensures fault.Some? ==> m.exception == FailurePrefix + FaultText(fault.value)
  {
    match fault
    case None => RegistrationSuccess(req.fileInformation, dir, FileName(req.path))
    case Some(f) =>
      var text := FailurePrefix + FaultText(f);
      assert text[..|FailurePrefix|] == FailurePrefix;
      RegistrationFailure(FileName(req.path), req.path, text)
  }

  // ---------------------------------------------------------------------
  // Registering inside the sandbox

  /** The keys the library's registration creates, each through the handle
      of its predefined root. */
  function Written(ov: map<Root, Key>, writes: seq<(Root, seq<string>)>): set<Key>
  {
    if writes == [] then {}
    else Written(ov, writes[..|writes| - 1]) + Ancestry(Resolve(ov, Last(writes).0, []), Last(writes).1)
  }

  /** While the proxy has all five roots mapped, everything the library
      registers lands inside the sandbox. */
  lemma {:induction false} WrittenInSandbox(ov: map<Root, Key>, sandbox: Key, writes: seq<(Root, seq<string>)>)
    ensures forall k :: k in Written(MappedOverrides(ov, sandbox, MapOrder), writes) ==> Under(k, sandbox)
  {
    if writes != [] {
      WrittenInSandbox(ov, sandbox, writes[..|writes| - 1]);
      var (root, names) := Last(writes);
      var parent := Resolve(MappedOverrides(ov, sandbox, MapOrder), root, []);
      AllRootsRedirected(ov, sandbox, root, []);
      forall k | k in Ancestry(parent, names)
        ensures Under(k, sandbox)
      {
        UnderTrans(k, parent, sandbox);
      }
    }
  }

  /** `registrationService.Register(path)`: the library's own registration,
      creating its keys through the predefined roots. */
  method RegisterLibrary(registry: Registry, writes: seq<(Root, seq<string>)>)
    modifies registry
    ensures registry.tree == Tree(old(registry.tree.keys) + Written(old(registry.overrides), writes),
                                  old(registry.tree.defaults))
    ensures registry.overrides == old(registry.overrides) && registry.results == old(registry.results)
    ensures registry.calls == old(registry.calls)
  {
    for i := 0 to |writes|
      invariant registry.tree == Tree(old(registry.tree.keys) + Written(old(registry.overrides), writes[..i]),
                                      old(registry.tree.defaults))
      invariant registry.overrides == old(registry.overrides) && registry.results == old(registry.results)
      invariant registry.calls == old(registry.calls)
    {
      var (root, names) := writes[i];
      var _ := registry.CreateSubKey(registry.View(root, []), names);
      assert writes[..i + 1][..i] == writes[..i];
    }
    assert writes[..|writes|] == writes;
  }

  /** The `using (RegistryProxy ...)` block: build the proxy, register, and
      dispose of the proxy whether or not the registration threw. A proxy
      whose constructor threw is never disposed, so the overrides it pushed
      stay in force. */
  method RegisterSandboxed(registry: Registry, effects: Effects)
    returns (proxyFailure: Option<int>, threw: bool, path: string,
             ghost sandbox: Key, ghost mapped: seq<Root>, ghost registered: set<Key>)
    modifies registry
    ensures path == RootName(CurrentUser) + "\\" + effects.guid
    ensures sandbox == old(registry.View(CurrentUser, [effects.guid]))
    ensures proxyFailure.None? <==> OverridesSucceed(old(registry.results), |MapOrder|)
    ensures threw == (proxyFailure.None? && effects.registerThrows)
    ensures proxyFailure.Some? ==>
              |mapped| < |MapOrder| && mapped == MapOrder[..|mapped|] && registered == {}
              && registry.overrides == MappedOverrides(old(registry.overrides), sandbox, mapped)
    ensures proxyFailure.None? ==>
              registered == Written(MappedOverrides(old(registry.overrides), sandbox, MapOrder), effects.writes)
              && (registry.overrides, registry.results)
                 == RevertAll(MappedOverrides(old(registry.overrides), sandbox, MapOrder),
                              Drop(old(registry.results), |MapOrder|), MapOrder)
    ensures forall k :: k in registered ==> Under(k, sandbox)
  {
    ghost var start := Snapshot(Tree(registry.tree.keys + Ancestry(registry.View(CurrentUser, []), [effects.guid]),
                                     registry.tree.defaults),
                                registry.calls, registry.results, registry.overrides);
    var proxy := new RegistryProxy(registry, effects.guid);
    path := proxy.path;
    sandbox := proxy.sandbox;
    mapped := proxy.mapped;
    ProgressFailure(start, SnapOf(registry), sandbox, mapped, proxy.failure);
    if proxy.failure.Some? {
      return proxy.failure, false, path, sandbox, mapped, {};
    }
    RegisterLibrary(registry, effects.writes);
    registered := Written(registry.overrides, effects.writes);
    WrittenInSandbox(start.overrides, sandbox, effects.writes);
    proxy.Dispose();
    proxyFailure := None;
    threw := effects.registerThrows;
  }

  // ---------------------------------------------------------------------
  // Saving the result

  /** After the proxy is gone: open the proxy's key by its name, save it as
      `registration.hive`, then write `fileinfo.json` beside it. */
  method Publish(registry: Registry, host: Files, keyName: string, dir: string, info: Metadata, effects: Effects)
    returns (fault: Option<Fault>)
    modifies host
    ensures Open(registry, keyName).Err? ==>
              fault == Some(BadKeyName(Open(registry, keyName).error)) && host.files == old(host.files)
    ensures Open(registry, keyName) == Ok(None) ==>
              var failure := SaveKey(effects.saveFails + {RegSaveKey}).failure;
              failure.Some?
              && fault == Some(if failure.value == RegSaveKey then KeyMissing else SaveFailed(failure.value))
              && host.files == if failure.value == CreateDirectory || failure.value == DeleteFile then old(host.files)
                               else old(host.files) - {HivePath(dir)}
    ensures Open(registry, keyName).Ok? && Open(registry, keyName).value.Some? ==>
              var key := Open(registry, keyName).value.value;
              match SaveKey(effects.saveFails).failure
              case Some(step) => fault == Some(SaveFailed(step))
              case None =>
                var saved := old(host.files)[HivePath(dir) := HiveFile(HiveOf(registry.tree, key))];
                if effects.infoWriteFails then fault == Some(InfoNotWritten) && host.files == saved
                else fault.None? && host.files == saved[InfoPath(dir) := JsonFile(info)]
  {
    var found := Open(registry, keyName);
    if found.Err? {
      return Some(BadKeyName(found.error));
    }
    var failure := SaveKeyTo(registry, host, found.value, HivePath(dir), effects.saveFails);
    if failure.Some? {
      return Some(if found.value.None? && failure.value == RegSaveKey then KeyMissing else SaveFailed(failure.value));
    }
    var ok := host.Write(InfoPath(dir), JsonFile(info), effects.infoWriteFails);
    fault := if ok then None else Some(InfoNotWritten);
  }

  /** The name the proxy publishes opens, after the proxy is gone, the key
      its current-user root and the guid reach: it is never rejected. */
  lemma ProxyNameResolves(registry: Registry, guid: string)
    requires GuidText(guid)
    ensures var key := registry.View(CurrentUser, [guid]);
      Open(registry, RootName(CurrentUser) + "\\" + guid)
      == Ok(if key in registry.tree.keys then Some(key) else None)
  {
    ResolveChild(registry.overrides, CurrentUser, [guid]);
    SplitsAtFirstBackslash(CurrentUser, guid);
    assert forall k :: 0 <= k < |guid| ==> guid[k] != '\\';
    assert IndexOf(guid, '\\').None?;
    assert Segments(guid) == [guid];
  }

  /** The `try` block of one `RegistrationRequest`, up to the reply:
      register inside a proxy, then save the hive and the file information.
      The fault is the exception that ended it, if any. */
  method Process(registry: Registry, host: Files, req: Message, dir: string, effects: Effects)
    returns (fault: Option<Fault>, ghost registered: set<Key>)
    requires req.RegistrationRequest? && GuidText(effects.guid)
    modifies registry, host
    ensures (fault.Some? && fault.value.ProxyFailed?) <==> !OverridesSucceed(old(registry.results), |MapOrder|)
    ensures fault == Some(RegisterFailed) <==> OverridesSucceed(old(registry.results), |MapOrder|) && effects.registerThrows
    ensures fault.Some? ==> !fault.value.BadKeyName? && !fault.value.ReplyNotSent?
    ensures fault.Some? && (fault.value.ProxyFailed? || fault.value.RegisterFailed?) ==> host.files == old(host.files)
    ensures forall k :: k in registered ==> Under(k, old(registry.View(CurrentUser, [effects.guid])))
    ensures fault.None? ==>
              HivePath(dir) in host.files && InfoPath(dir) in host.files
              && host.files[HivePath(dir)] == HiveFile(HiveOf(registry.tree, registry.View(CurrentUser, [effects.guid])))
              && host.files[InfoPath(dir)] == JsonFile(req.fileInformation)
  {
    var proxyFailure, threw, keyName;
    ghost var sandbox, mapped;
    proxyFailure, threw, keyName, sandbox, mapped, registered := RegisterSandboxed(registry, effects);
    if proxyFailure.Some? {
      return Some(ProxyFailed(proxyFailure.value)), registered;
    }
    if threw {
      return Some(RegisterFailed), registered;
    }
    fault := SaveOutputs(registry, host, keyName, dir, req.fileInformation, effects);
  }

  /** What follows the proxy's `using` block: `Publish` on the proxy's name. */
  method SaveOutputs(registry: Registry, host: Files, keyName: string, dir: string, info: Metadata, effects: Effects)
    returns (fault: Option<Fault>)
    requires GuidText(effects.guid) && keyName == RootName(CurrentUser) + "\\" + effects.guid
    modifies host
    ensures fault.Some? ==> (!fault.value.BadKeyName? && !fault.value.ReplyNotSent?
                             && !fault.value.ProxyFailed? && !fault.value.RegisterFailed?)
    ensures fault.None? ==>
              HivePath(dir) in host.files && InfoPath(dir) in host.files
              && host.files[HivePath(dir)] == HiveFile(HiveOf(registry.tree, registry.View(CurrentUser, [effects.guid])))
              && host.files[InfoPath(dir)] == JsonFile(info)
  {
    ProxyNameResolves(registry, effects.guid);
    OutputLayout(dir);
    ghost var key := registry.View(CurrentUser, [effects.guid]);
    ghost var files := host.files;
    fault := Publish(registry, host, keyName, dir, info, effects);
    if fault.None? {
      assert Open(registry, keyName) == Ok(Some(key));
      assert host.files == files[HivePath(dir) := HiveFile(HiveOf(registry.tree, key))]
                                [InfoPath(dir) := JsonFile(info)];
    }
  }

  /** The reply: the success, or the failure for the fault. When writing the
      success throws, the `catch` tries to send a failure instead. */
  method SendReply(channel: MessageChannel, req: Message, dir: string, fault: Option<Fault>) returns (ok: bool)
    requires req.RegistrationRequest?
    modifies channel
    ensures ok == !old(channel.broken)
    ensures channel.inbox == old(channel.inbox) && channel.broken == old(channel.broken)
    ensures channel.trace == old(channel.trace) + (if ok then [Sent(Reply(req, dir, fault))] else [])
  {
    ok := channel.Write(Reply(req, dir, fault));
    if !ok && fault.None? {
      var _ := channel.Write(Reply(req, dir, Some(ReplyNotSent)));
    }
  }

  /** One `RegistrationRequest`, answered with exactly one result. */
  method HandleRequest(channel: MessageChannel, registry: Registry, host: Files, req: Message,
                       localAppData: string, effects: Effects)
    returns (fault: Option<Fault>, ok: bool, ghost registered: set<Key>)
    requires req.RegistrationRequest? && GuidText(effects.guid)
    modifies channel, registry, host
    ensures ok == !old(channel.broken)
    ensures channel.inbox == old(channel.inbox) && channel.broken == old(channel.broken)
    ensures channel.trace == old(channel.trace)
              + (if ok then [Sent(Reply(req, ResponseDirectory(localAppData, req.sha256), fault))] else [])
    ensures (fault.Some? && fault.value.ProxyFailed?) <==> !OverridesSucceed(old(registry.results), |MapOrder|)
    ensures fault == Some(RegisterFailed) <==> OverridesSucceed(old(registry.results), |MapOrder|) && effects.registerThrows
    ensures fault.Some? ==> !fault.value.BadKeyName? && !fault.value.ReplyNotSent?
    ensures fault.Some? && (fault.value.ProxyFailed? || fault.value.RegisterFailed?) ==> host.files == old(host.files)
    ensures forall k :: k in registered ==> Under(k, old(registry.View(CurrentUser, [effects.guid])))
    ensures fault.None? ==>
              var dir := ResponseDirectory(localAppData, req.sha256);
              HivePath(dir) in host.files && InfoPath(dir) in host.files
              && host.files[HivePath(dir)] == HiveFile(HiveOf(registry.tree, registry.View(CurrentUser, [effects.guid])))
              && host.files[InfoPath(dir)] == JsonFile(req.fileInformation)
  {
    var dir := ResponseDirectory(localAppData, req.sha256);
    fault, registered := Process(registry, host, req, dir, effects);
    ok := SendReply(channel, req, dir, fault);
  }

  /** `HandleRequest` as the message loop sees it: one answer, if the pipe
      takes it. */
  method AnswerRequest(channel: MessageChannel, registry: Registry, host: Files, req: Message,
                       localAppData: string, effects: Effects)
    returns (ok: bool, reply: Message)
    requires req.RegistrationRequest? && GuidText(effects.guid)
    modifies channel, registry, host
    ensures ok == !old(channel.broken)
    ensures channel.inbox == old(channel.inbox) && channel.broken == old(channel.broken)
    ensures channel.trace == old(channel.trace) + (if ok then [Sent(reply)] else [])
    ensures Answers(req, reply, ResponseDirectory(localAppData, req.sha256))
  {
    var fault;
    ghost var registered;
    fault, ok, registered := HandleRequest(channel, registry, host, req, localAppData, effects);
    reply := Reply(req, ResponseDirectory(localAppData, req.sha256), fault);
  }

  // ---------------------------------------------------------------------
  // The program

  /** The requests the message loop handles: those before the first
      `Terminate`; every other message is skipped. */
  function Handled(inbox: seq<Message>): (reqs: seq<Message>)
    ensures forall k :: 0 <= k < |reqs| ==> reqs[k].RegistrationRequest?
  {
    if inbox == [] || inbox[0].Terminate? then []
    else (if inbox[0].RegistrationRequest? then [inbox[0]] else []) + Handled(inbox[1..])
  }

  /** How `Main` ends: doing nothing for other arguments, at `Terminate`, or
      with the exception a failed read or write throws. */
  datatype Exit = NotStarted | Terminated | ReadFailed | WriteFailed

  /** `Main`: with the right arguments, connect to the trimmed pipe name and
      answer every request until `Terminate`. `effects(n)` is what the world
      does during the `n`-th request. */
  method Run(args: seq<string>, channel: MessageChannel, registry: Registry, host: Files,
             localAppData: string, effects: nat -> Effects)
    returns (exit: Exit, pipeName: Option<string>, ghost replies: seq<Message>)
    requires forall n: nat :: GuidText(effects(n).guid)
    modifies channel, registry, host
    ensures !PipeArguments(args, PipePrefix) ==>
              exit == NotStarted && pipeName.None? && replies == []
              && channel.trace == old(channel.trace) && channel.inbox == old(channel.inbox)
              && registry.tree == old(registry.tree) && registry.overrides == old(registry.overrides)
              && host.files == old(host.files)
    ensures PipeArguments(args, PipePrefix) ==> pipeName == Some(Trim(args[1])) && exit != NotStarted
    ensures |old(channel.trace)| <= |channel.trace| && channel.trace[..|old(channel.trace)|] == old(channel.trace)
    ensures replies == SentMessages(channel.trace[|old(channel.trace)|..])
    ensures PipeArguments(args, PipePrefix) && !old(channel.broken) ==>
              exit == (if Terminate in old(channel.inbox) then Terminated else ReadFailed)
              && channel.inbox == AfterTerminate(old(channel.inbox))
              && |replies| == |Handled(old(channel.inbox))|
              && forall k :: 0 <= k < |replies| ==>
                   var req := Handled(old(channel.inbox))[k];
                   Answers(req, replies[k], ResponseDirectory(localAppData, req.sha256))
    ensures old(channel.broken) ==> replies == []
    ensures PipeArguments(args, PipePrefix) && old(channel.broken) ==>
              (exit == WriteFailed <==> Handled(old(channel.inbox)) != [])
  {
    if !PipeArguments(args, PipePrefix) {
      assert channel.trace[..|channel.trace|] == channel.trace && channel.trace[|channel.trace|..] == [];
      return NotStarted, None, [];
    }
    pipeName := Some(Trim(args[1]));
    ghost var done: seq<Message> := [];
    replies := [];
    var n := 0;
    LoopStart(channel.inbox, channel.trace, channel.broken, localAppData);
    while true
      invariant channel.broken == old(channel.broken)
      invariant Looping(old(channel.inbox), old(channel.trace), channel.inbox, channel.trace, channel.broken,
                        done, replies, localAppData)
      decreases |channel.inbox|
    {
      ghost var trace := channel.trace;
      ghost var inbox := channel.inbox;
      var m := channel.Read();
      if m.None? {
        LoopEnd(old(channel.inbox), old(channel.trace), inbox, trace, channel.broken, done, replies, localAppData);
        return ReadFailed, pipeName, replies;
      }
      if m.value.Terminate? {
        LoopTerminate(old(channel.inbox), old(channel.trace), inbox, trace, channel.broken, done, replies, localAppData);
        return Terminated, pipeName, replies;
      }
      if !m.value.RegistrationRequest? {
        LoopSkip(old(channel.inbox), old(channel.trace), inbox, trace, channel.broken, done, replies, localAppData);
        continue;
      }
      var ok, reply := AnswerRequest(channel, registry, host, m.value, localAppData, effects(n));
      if !ok {
        LoopWriteFailed(old(channel.inbox), old(channel.trace), inbox, trace, channel.broken, done, replies, localAppData);
        assert channel.trace == trace + [Received(inbox[0])];
        return WriteFailed, pipeName, replies;
      }
      LoopAnswer(old(channel.inbox), old(channel.trace), inbox, trace, done, replies, localAppData, reply);
      replies := replies + [reply];
      done := done + [m.value];
      n := n + 1;
    }
  }

  /** The loop has read `inbox0` down to `inbox` and handled the requests `done`. */
  ghost predicate Served(inbox0: seq<Message>, inbox: seq<Message>, done: seq<Message>)
  {
    Handled(inbox0) == done + Handled(inbox)
    && AfterTerminate(inbox0) == AfterTerminate(inbox)
    && (Terminate in inbox0 <==> Terminate in inbox)
  }

  /** Each handled request got an answer, in order. */
  ghost predicate AllAnswered(done: seq<Message>, replies: seq<Message>, localAppData: string)
  {
    |replies| == |done| && forall k :: 0 <= k < |done| ==>
      done[k].RegistrationRequest? && Answers(done[k], replies[k], ResponseDirectory(localAppData, done[k].sha256))
  }

  /** The messages sent since `t0` are `replies`. */
  ghost predicate Traced(t0: seq<Event>, trace: seq<Event>, replies: seq<Message>)
  {
    |t0| <= |trace| && trace[..|t0|] == t0 && SentMessages(trace[|t0|..]) == replies
  }

  /** The invariant of the message loop, started on `inbox0` and `t0`: the
      requests handled so far, each answered unless the pipe is broken. */
  ghost predicate Looping(inbox0: seq<Message>, t0: seq<Event>, inbox: seq<Message>, trace: seq<Event>,
                          broken: bool, done: seq<Message>, replies: seq<Message>, localAppData: string)
  {
    Traced(t0, trace, replies) && Served(inbox0, inbox, done)
    && (!broken ==> AllAnswered(done, replies, localAppData))
    && (broken ==> replies == [] && done == [])
  }

  lemma LoopStart(inbox: seq<Message>, trace: seq<Event>, broken: bool, localAppData: string)
    ensures Looping(inbox, trace, inbox, trace, broken, [], [], localAppData)
  {
    assert trace[|trace|..] == [];
    assert [] + Handled(inbox) == Handled(inbox);
  }

  /** A read that fails ends the loop with everything read and answered. */
  lemma LoopEnd(inbox0: seq<Message>, t0: seq<Event>, inbox: seq<Message>, trace: seq<Event>,
                broken: bool, done: seq<Message>, replies: seq<Message>, localAppData: string)
    requires Looping(inbox0, t0, inbox, trace, broken, done, replies, localAppData) && inbox == []
    ensures Handled(inbox0) == done && AfterTerminate(inbox0) == [] && Terminate !in inbox0
  {
    assert done + [] == done;
  }

  lemma LoopTerminate(inbox0: seq<Message>, t0: seq<Event>, inbox: seq<Message>, trace: seq<Event>,
                      broken: bool, done: seq<Message>, replies: seq<Message>, localAppData: string)
    requires Looping(inbox0, t0, inbox, trace, broken, done, replies, localAppData)
    requires inbox != [] && inbox[0].Terminate?
    ensures Handled(inbox0) == done && AfterTerminate(inbox0) == inbox[1..] && Terminate in inbox0
    ensures Traced(t0, trace + [Received(inbox[0])], replies)
  {
    assert done + [] == done;
    ReadAppends(t0, trace, Received(inbox[0]));
    assert replies + [] == replies;
  }

  lemma LoopSkip(inbox0: seq<Message>, t0: seq<Event>, inbox: seq<Message>, trace: seq<Event>,
                 broken: bool, done: seq<Message>, replies: seq<Message>, localAppData: string)
    requires Looping(inbox0, t0, inbox, trace, broken, done, replies, localAppData)
    requires inbox != [] && !inbox[0].Terminate? && !inbox[0].RegistrationRequest?
    ensures Looping(inbox0, t0, inbox[1..], trace + [Received(inbox[0])], broken, done, replies, localAppData)
  {
    assert inbox == [inbox[0]] + inbox[1..];
    assert Handled(inbox) == Handled(inbox[1..]);
    ReadAppends(t0, trace, Received(inbox[0]));
    assert replies + [] == replies;
  }

  /** A request the pipe cannot answer ends the loop; it was one to handle. */
  lemma LoopWriteFailed(inbox0: seq<Message>, t0: seq<Event>, inbox: seq<Message>, trace: seq<Event>,
                        broken: bool, done: seq<Message>, replies: seq<Message>, localAppData: string)
    requires Looping(inbox0, t0, inbox, trace, broken, done, replies, localAppData)
    requires inbox != [] && inbox[0].RegistrationRequest?
    ensures Handled(inbox0) != [] && Traced(t0, trace + [Received(inbox[0])], replies)
  {
    assert inbox == [inbox[0]] + inbox[1..];
    assert Handled(inbox) == [inbox[0]] + Handled(inbox[1..]);
    ReadAppends(t0, trace, Received(inbox[0]));
    assert replies + [] == replies;
  }

  lemma LoopAnswer(inbox0: seq<Message>, t0: seq<Event>, inbox: seq<Message>, trace: seq<Event>,
                   done: seq<Message>, replies: seq<Message>, localAppData: string, reply: Message)
    requires Looping(inbox0, t0, inbox, trace, false, done, replies, localAppData)
    requires inbox != [] && inbox[0].RegistrationRequest?
    requires Answers(inbox[0], reply, ResponseDirectory(localAppData, inbox[0].sha256))
    ensures Looping(inbox0, t0, inbox[1..], trace + [Received(inbox[0])] + [Sent(reply)], false,
                    done + [inbox[0]], replies + [reply], localAppData)
  {
    ServedRequest(inbox0, inbox, done);
    ReadAppends(t0, trace, Received(inbox[0]));
    ReadAppends(t0, trace + [Received(inbox[0])], Sent(reply));
    assert replies + [] == replies;
    AnsweredAppend(done, replies, localAppData, inbox[0], reply);
  }

  lemma ServedRequest(inbox0: seq<Message>, inbox: seq<Message>, done: seq<Message>)
    requires Served(inbox0, inbox, done)
    requires inbox != [] && inbox[0].RegistrationRequest?
    ensures Served(inbox0, inbox[1..], done + [inbox[0]])
  {
    assert inbox == [inbox[0]] + inbox[1..];
    assert Handled(inbox) == [inbox[0]] + Handled(inbox[1..]);
    assert done + ([inbox[0]] + Handled(inbox[1..])) == (done + [inbox[0]]) + Handled(inbox[1..]);
  }

  lemma AnsweredAppend(done: seq<Message>, replies: seq<Message>, localAppData: string, req: Message, reply: Message)
    requires AllAnswered(done, replies, localAppData)
    requires req.RegistrationRequest? && Answers(req, reply, ResponseDirectory(localAppData, req.sha256))
    ensures AllAnswered(done + [req], replies + [reply], localAppData)
  {
    forall k | 0 <= k < |done| + 1
      ensures (done + [req])[k].RegistrationRequest?
      ensures Answers((done + [req])[k], (replies + [reply])[k],
                      ResponseDirectory(localAppData, (done + [req])[k].sha256))
    {
      if k < |done| {
        assert (done + [req])[k] == done[k] && (replies + [reply])[k] == replies[k];
      }
    }
  }

  /** Appending one event to the trace appends its message, if it is a sent
      one, to the messages sent since `t0`. */
  lemma ReadAppends(t0: seq<Event>, t: seq<Event>, e: Event)
    requires |t0| <= |t| && t[..|t0|] == t0
    ensures (t + [e])[..|t0|] == t0
    ensures SentMessages((t + [e])[|t0|..]) == SentMessages(t[|t0|..]) + (if e.Sent? then [e.message] else [])
  {
    assert (t + [e])[|t0|..] == t[|t0|..] + [e];
    SentMessagesAppend(t[|t0|..], [e]);
    assert [e][1..] == [];
  }
}
