/** `RegistryKeyExtensions`: resolving a full key name such as
    `HKEY_CURRENT_USER\{guid}` to a key (`Open`), and the order of the steps
    that save a key to a hive file (`SaveKey`). */
module RegistryKeyExtensions {
  import opened Common
  import opened WinRegistry
  import opened FileSystem
  import OfflineRegistry

  /** The `switch` over the first segment of a key name: exact, case-sensitive
      comparison against the five root names. */
  function ParseRoot(name: string): (r: Option<Root>)
  {
    if name == "HKEY_CLASSES_ROOT" then Some(ClassesRoot)
    else if name == "HKEY_CURRENT_USER" then Some(CurrentUser)
    else if name == "HKEY_LOCAL_MACHINE" then Some(LocalMachine)
    else if name == "HKEY_USERS" then Some(Users)
    else if name == "HKEY_CURRENT_CONFIG" then Some(CurrentConfig)
    else None
  }

  /** Exactly the five root names are recognised, and each names its own root. */
  lemma ParseRootExact(name: string, r: Root)
    ensures ParseRoot(name) == Some(r) <==> name == RootName(r)
  {
  }

  /** `Split(new[] { '\\' }, 2)`: the text before the first backslash, and the
      rest after it when there is one. */
  function SplitFirst(path: string): (parts: (string, Option<string>))
    ensures '\\' !in parts.0
    ensures parts.1.None? ==> parts.0 == path
    ensures parts.1.Some? ==> path == parts.0 + "\\" + parts.1.value
  {
    match IndexOf(path, '\\')
    case None => (path, None)
    case Some(i) =>
      assert path == path[..i] + "\\" + path[i + 1..];
      (path[..i], Some(path[i + 1..]))
  }

  /** The `ArgumentException`s of `Open`: an unknown first segment, or a key
      name that `RegistryKey.OpenSubKey` refuses as longer than
      `MaxKeyLength`. */
  datatype OpenError = UnknownHive(hiveName: string) | KeyNameTooLong

  /** The longest key name `RegistryKey.OpenSubKey` accepts between two
      backslashes. */
  const MaxKeyLength: nat := 255

  /** `Open`, up to the registry access: the root and, when the name has a
      backslash, the remainder to open below it. */
  function ParsePath(path: string): (r: Result<(Root, Option<string>), OpenError>)
  {
    var (hiveName, rest) := SplitFirst(path);
    match ParseRoot(hiveName)
    case None => Err(UnknownHive(hiveName))
    case Some(root) => Ok((root, rest))
  }

  /** `RegistryKey.OpenSubKey`'s check of a name before it fixes it up:
      some piece between backslashes is longer than `MaxKeyLength`. */
  predicate LongSegment(rest: string)
  {
    var pieces := Split(rest, '\\');
    exists k :: 0 <= k < |pieces| && |pieces[k]| > MaxKeyLength
  }

  /** The key names `RegistryKey.OpenSubKey` opens for `rest`. Its fix-up
      collapses each run of backslashes into one and drops a trailing one,
      so empty pieces vanish; an empty name opens the key itself. A leading
      backslash survives as a first name that is empty, which no key has. */
  function Segments(rest: string): (names: seq<string>)
    ensures forall k :: 0 < k < |names| ==> names[k] != []
    ensures |names| <= |Split(rest, '\\')|
  {
    var pieces := Split(rest, '\\');
    var names := OfflineRegistry.NonEmpty(pieces);
    if pieces[0] == [] && names != [] then
      assert |OfflineRegistry.NonEmpty(pieces[1..])| <= |pieces| - 1;
      [[]] + names
    else names
  }

  /** `Open`: the root itself for a bare root name or one whose remainder
      holds no key name, otherwise the subkey, or null when it does not
      exist. Both go through the predefined handles, so
      an active override redirects them. */
  function Open(registry: Registry, path: string): (r: Result<Option<Key>, OpenError>)
    reads registry
  {
    match ParsePath(path)
    case Err(e) => Err(e)
    case Ok((root, None)) => Ok(Some(registry.View(root, [])))
    case Ok((root, Some(rest))) =>
      if LongSegment(rest) then Err(KeyNameTooLong)
      else if Segments(rest) == [] then Ok(Some(registry.View(root, [])))
      else Ok(registry.OpenSubKey(registry.View(root, []), Segments(rest)))
  }

  /** A trailing backslash is dropped: `HKEY_CURRENT_USER\` opens the root,
      as the bare root name does. */
  lemma TrailingBackslashOpensRoot(registry: Registry, root: Root)
    ensures Open(registry, RootName(root) + "\\") == Ok(Some(registry.View(root, [])))
  {
    SplitsAtFirstBackslash(root, "");
    assert Split("", '\\') == [""];
    assert Segments("") == [];
  }

  /** A doubled backslash counts as one. */
  lemma DoubledBackslashCollapses(a: string, b: string)
    requires a != [] && b != [] && '\\' !in a && '\\' !in b
    ensures Segments(a + "\\\\" + b) == Segments(a + "\\" + b) == [a, b]
  {
    assert IndexOf(b, '\\').None?;
    assert Split(b, '\\') == [b];
    SplitJoined(a, b);
    SplitJoined([], b);
    assert [] + "\\" + b == "\\" + b;
    assert Split("\\" + b, '\\') == ["", b];
    SplitJoined(a, "\\" + b);
    assert a + "\\\\" + b == a + "\\" + ("\\" + b);
    assert Split(a + "\\\\" + b, '\\') == [a, "", b];
    assert OfflineRegistry.NonEmpty([b]) == [b] by { assert [b][1..] == []; }
    assert OfflineRegistry.NonEmpty(["", b]) == [b] by { assert ["", b][1..] == [b]; }
    assert OfflineRegistry.NonEmpty([a, b]) == [a, b] by { assert [a, b][1..] == [b]; }
    assert OfflineRegistry.NonEmpty([a, "", b]) == [a, b] by { assert [a, "", b][1..] == ["", b]; }
  }

  /** Splitting a backslash-free name, a backslash and anything. */
  lemma SplitJoined(a: string, t: string)
    requires '\\' !in a
    ensures Split(a + "\\" + t, '\\') == [a] + Split(t, '\\')
  {
    var s := a + "\\" + t;
    assert s[|a|] == '\\' && s[..|a|] == a;
    IndexOfFirst(s, |a|);
    assert s[|a| + 1..] == t;
  }

  /** A key name longer than `MaxKeyLength` is refused, wherever it stands
      in the path. */
  lemma LongNameRejected(registry: Registry, root: Root, a: string, rest: string)
    requires '\\' !in a && |a| > MaxKeyLength
    ensures Open(registry, RootName(root) + "\\" + a + "\\" + rest) == Err(KeyNameTooLong)
  {
    SplitsAtFirstBackslash(root, a + "\\" + rest);
    assert RootName(root) + "\\" + a + "\\" + rest == RootName(root) + "\\" + (a + "\\" + rest);
    SplitJoined(a, rest);
    assert Split(a + "\\" + rest, '\\')[0] == a;
  }

  /** Only the first backslash separates the root: whatever follows it,
      further backslashes included, is the path opened below that root. */
  lemma SplitsAtFirstBackslash(root: Root, rest: string)
    ensures ParsePath(RootName(root) + "\\" + rest) == Ok((root, Some(rest)))
  {
    RootNameHasNoBackslash(root);
    SplitFirstAt(RootName(root), rest);
    ParseRootExact(RootName(root), root);
  }

  lemma RootNameHasNoBackslash(root: Root)
    ensures '\\' !in RootName(root)
  {
    match root
    case ClassesRoot =>
    case CurrentUser =>
    case LocalMachine =>
    case Users =>
    case CurrentConfig =>
  }

  /** A name without a backslash, a backslash and anything: the split is
      at that backslash. */
  lemma SplitFirstAt(name: string, rest: string)
    requires '\\' !in name
    ensures SplitFirst(name + "\\" + rest) == (name, Some(rest))
  {
    var path := name + "\\" + rest;
    assert path[|name|] == '\\';
    assert path[..|name|] == name;
    IndexOfFirst(path, |name|);
    assert path[|name| + 1..] == rest;
  }

  /** `IndexOf` finds a separator before which there is none. */
  lemma {:induction false} IndexOfFirst(s: string, i: nat)
    requires i < |s| && s[i] == '\\' && '\\' !in s[..i]
    ensures IndexOf(s, '\\') == Some(i)
  {
    if i > 0 {
      assert s[0] == s[..i][0];
      assert s[1..][..i - 1] == s[..i][1..];
      IndexOfFirst(s[1..], i - 1);
    }
  }

  /** A first segment that is not one of the five root names is rejected,
      and nothing else is. */
  lemma UnknownHiveRejected(path: string)
    ensures ParsePath(path).Err? <==> ParseRoot(SplitFirst(path).0).None?
    ensures ParsePath(path).Err? ==> ParsePath(path).error == UnknownHive(SplitFirst(path).0)
  {
  }

  /** A bare root name, without a backslash, opens the root itself. */
  lemma BareRootOpensRoot(registry: Registry, root: Root)
    ensures Open(registry, RootName(root)) == Ok(Some(registry.View(root, [])))
  {
    RootNameHasNoBackslash(root);
    var s := SplitFirst(RootName(root));
    assert s == (RootName(root), None);
    ParseRootExact(RootName(root), root);
    assert ParsePath(RootName(root)) == Ok((root, None));
  }

  /** The name the proxy publishes, `HKEY_CURRENT_USER\<guid>`, opens the
      current-user subkey `<guid>` when no override of current-user is active;
      a missing key is null, not an error. */
  lemma ProxyNameOpens(registry: Registry, guid: string)
    requires '\\' !in guid && CurrentUser !in registry.overrides
    ensures Open(registry, RootName(CurrentUser) + "\\" + guid)
         == if |guid| > MaxKeyLength then Err(KeyNameTooLong)
            else if guid == [] then Ok(Some(registry.View(CurrentUser, [])))
            else Ok(if Key(CurrentUser, [guid]) in registry.tree.keys then Some(Key(CurrentUser, [guid])) else None)
  {
    SplitsAtFirstBackslash(CurrentUser, guid);
    assert IndexOf(guid, '\\').None?;
    assert Split(guid, '\\') == [guid];
    if guid == [] {
      TrailingBackslashOpensRoot(registry, CurrentUser);
      return;
    }
    assert OfflineRegistry.NonEmpty([guid]) == [guid] by {
      assert [guid][1..] == [];
    }
    assert Segments(guid) == [guid];
    assert registry.View(CurrentUser, []) == Key(CurrentUser, []);
    assert Child(Key(CurrentUser, []), [guid]) == Key(CurrentUser, [guid]);
  }

  // ---------------------------------------------------------------------
  // SaveKey

  /** The foreign steps of `SaveKey`, in the order they run. */
  datatype SaveStep =
    | CreateDirectory        // Directory.CreateDirectory of the file's directory
    | DeleteFile             // File.Delete of an existing file
    | OpenProcessToken
    | LookupPrivilegeValue   // the SeBackupPrivilege LUID
    | AdjustTokenPrivileges  // enable it
    | RegSaveKey

  const SaveSteps: seq<SaveStep> :=
    [CreateDirectory, DeleteFile, OpenProcessToken, LookupPrivilegeValue, AdjustTokenPrivileges, RegSaveKey]

  /** What ran, and the step whose failure threw, if any. */
  datatype StepsOutcome = StepsOutcome(performed: seq<SaveStep>, failure: Option<SaveStep>)

  /** Running `steps` in order when the steps in `fails` fail: each failure
      throws, so the steps after it never run. */
  function RunSteps(steps: seq<SaveStep>, fails: set<SaveStep>): (o: StepsOutcome)
  {
    if steps == [] then StepsOutcome([], None)
    else if steps[0] in fails then StepsOutcome([steps[0]], Some(steps[0]))
    else
      var rest := RunSteps(steps[1..], fails);
      StepsOutcome([steps[0]] + rest.performed, rest.failure)
  }

  /** The steps run are a prefix of the steps; with a failure, it is the last
      step run and no earlier step failed; without one, every step ran and
      none of them failed. */
  lemma {:induction false} RunStepsProperties(steps: seq<SaveStep>, fails: set<SaveStep>)
    ensures var o := RunSteps(steps, fails);
      |o.performed| <= |steps| && o.performed == steps[..|o.performed|]
      && (o.failure.Some? ==> |o.performed| >= 1 && o.failure.value == Last(o.performed)
                               && o.failure.value in fails
                               && forall k :: 0 <= k < |o.performed| - 1 ==> o.performed[k] !in fails)
      && (o.failure.None? ==> o.performed == steps && forall k :: 0 <= k < |steps| ==> steps[k] !in fails)
  {
    if steps != [] && steps[0] !in fails {
      RunStepsProperties(steps[1..], fails);
      var rest := RunSteps(steps[1..], fails);
      var o := RunSteps(steps, fails);
      assert o.performed == [steps[0]] + rest.performed;
      assert steps[..|o.performed|] == [steps[0]] + steps[1..][..|rest.performed|];
      if rest.failure.Some? {
        assert Last(o.performed) == Last(rest.performed);
        forall k | 0 <= k < |o.performed| - 1
          ensures o.performed[k] !in fails
        {
          if k > 0 {
            assert o.performed[k] == rest.performed[k - 1];
          }
        }
      } else {
        forall k | 0 <= k < |steps|
          ensures steps[k] !in fails
        {
          if k > 0 {
            assert steps[k] == steps[1..][k - 1];
          }
        }
      }
    }
  }

  /** `SaveKey`: the hive file is written exactly when no step fails. */
  function SaveKey(fails: set<SaveStep>): (o: StepsOutcome)
  {
    RunSteps(SaveSteps, fails)
  }

  /** The file is saved without error exactly when no step fails. */
  lemma SaveKeySucceeds(fails: set<SaveStep>)
    ensures SaveKey(fails).failure.None? <==> fails == {}
  {
    RunStepsProperties(SaveSteps, fails);
    forall s | s in fails
      ensures s in SaveSteps
    {
      EveryStepListed(s);
    }
  }

  /** A step that appears only at the end runs only when every step before
      it has run and succeeded. */
  lemma {:induction false} LastRunsAfterAll(steps: seq<SaveStep>, fails: set<SaveStep>)
    requires steps != [] && Last(steps) !in steps[..|steps| - 1]
    requires Last(steps) in RunSteps(steps, fails).performed
    ensures RunSteps(steps, fails).performed == steps
    ensures forall k :: 0 <= k < |steps| - 1 ==> steps[k] !in fails
  {
    if |steps| > 1 {
      assert steps[0] == steps[..|steps| - 1][0];
      var tail := steps[1..];
      assert tail[..|tail| - 1] == steps[..|steps| - 1][1..];
      if steps[0] !in fails {
        LastRunsAfterAll(tail, fails);
        forall k | 0 < k < |steps| - 1
          ensures steps[k] !in fails
        {
          assert steps[k] == tail[k - 1];
        }
      }
    }
  }

  /** `RegSaveKey` runs only after every step before it has succeeded: a
      failing step stops every later one. */
  lemma SaveKeyRunsLast(fails: set<SaveStep>)
    ensures var o := SaveKey(fails);
      RegSaveKey in o.performed ==>
        o.performed == SaveSteps && CreateDirectory !in fails && DeleteFile !in fails
        && OpenProcessToken !in fails && LookupPrivilegeValue !in fails
        && AdjustTokenPrivileges !in fails
  {
    if RegSaveKey in SaveKey(fails).performed {
      assert SaveSteps[..5] == [CreateDirectory, DeleteFile, OpenProcessToken, LookupPrivilegeValue, AdjustTokenPrivileges];
      LastRunsAfterAll(SaveSteps, fails);
      assert SaveSteps[0] !in fails && SaveSteps[1] !in fails && SaveSteps[2] !in fails;
      assert SaveSteps[3] !in fails && SaveSteps[4] !in fails;
    }
  }

  lemma EveryStepListed(s: SaveStep)
    ensures s in SaveSteps
  {
    match s
    case CreateDirectory => assert s == SaveSteps[0];
    case DeleteFile => assert s == SaveSteps[1];
    case OpenProcessToken => assert s == SaveSteps[2];
    case LookupPrivilegeValue => assert s == SaveSteps[3];
    case AdjustTokenPrivileges => assert s == SaveSteps[4];
    case RegSaveKey => assert s == SaveSteps[5];
  }

  /** The failure of `SaveKey` is the first failing step in the order they run. */
  lemma SaveKeyFirstFailure(fails: set<SaveStep>)
    ensures SaveKey(fails).failure ==
      if CreateDirectory in fails then Some(CreateDirectory)
      else if DeleteFile in fails then Some(DeleteFile)
      else if OpenProcessToken in fails then Some(OpenProcessToken)
      else if LookupPrivilegeValue in fails then Some(LookupPrivilegeValue)
      else if AdjustTokenPrivileges in fails then Some(AdjustTokenPrivileges)
      else if RegSaveKey in fails then Some(RegSaveKey)
      else None
  {
    var s5: seq<SaveStep> := [RegSaveKey];
    var s4 := [AdjustTokenPrivileges] + s5;
    var s3 := [LookupPrivilegeValue] + s4;
    var s2 := [OpenProcessToken] + s3;
    var s1 := [DeleteFile] + s2;
    assert SaveSteps == [CreateDirectory] + s1;
    assert s5[1..] == [] && s4[1..] == s5 && s3[1..] == s4 && s2[1..] == s3 && s1[1..] == s2;
    assert RunSteps(s5, fails).failure == if RegSaveKey in fails then Some(RegSaveKey) else None;
    assert RunSteps(s4, fails).failure == if AdjustTokenPrivileges in fails then Some(AdjustTokenPrivileges) else RunSteps(s5, fails).failure;
    assert RunSteps(s3, fails).failure == if LookupPrivilegeValue in fails then Some(LookupPrivilegeValue) else RunSteps(s4, fails).failure;
    assert RunSteps(s2, fails).failure == if OpenProcessToken in fails then Some(OpenProcessToken) else RunSteps(s3, fails).failure;
    assert RunSteps(s1, fails).failure == if DeleteFile in fails then Some(DeleteFile) else RunSteps(s2, fails).failure;
  }

  /** The keys a hive saved from `key` holds, relative to it. */
  function HiveOf(t: Tree, key: Key): (keys: set<seq<string>>)
    ensures forall k :: k in t.keys && Under(k, key) ==> k.path[|key.path|..] in keys
  {
    set k | k in t.keys && Under(k, key) :: k.path[|key.path|..]
  }

  /** `SaveKey(key, path)`: the steps in order, each failing step throwing.
      A failure after the delete leaves no file at `path`; only `RegSaveKey`
      writes it. A null `key` (`None`) throws `NullReferenceException` where
      `RegSaveKey` reads `key.Handle`, so that step then always fails. */
  method SaveKeyTo(registry: Registry, host: Files, key: Option<Key>, path: string, fails: set<SaveStep>)
    returns (failure: Option<SaveStep>)
    modifies host
    ensures failure == SaveKey(if key.None? then fails + {RegSaveKey} else fails).failure
    ensures failure.None? ==> key.Some?
    ensures host.files == if failure.None? then old(host.files)[path := HiveFile(HiveOf(registry.tree, key.value))]
                          else if failure == Some(CreateDirectory) || failure == Some(DeleteFile) then old(host.files)
                          else old(host.files) - {path}
  {
    SaveKeyFirstFailure(if key.None? then fails + {RegSaveKey} else fails);
    if CreateDirectory in fails {
      return Some(CreateDirectory);
    }
    if DeleteFile in fails {
      return Some(DeleteFile);
    }
    host.Delete(path);
    if OpenProcessToken in fails {
      return Some(OpenProcessToken);
    }
    if LookupPrivilegeValue in fails {
      return Some(LookupPrivilegeValue);
    }
    if AdjustTokenPrivileges in fails {
      return Some(AdjustTokenPrivileges);
    }
    if key.None? || RegSaveKey in fails {
      return Some(RegSaveKey);
    }
    var _ := host.Write(path, HiveFile(HiveOf(registry.tree, key.value)), false);
    failure := None;
  }
}
