/** `RegistryProxy`: a sandbox for one registration. The constructor creates
    a fresh key under current-user, lays out one subkey per predefined root
    and overrides each root with it; `Dispose` prunes the keys Windows'
    own type libraries leave behind, then reverts the overrides. */
module Registration {
  import opened Common
  import opened WinRegistry

  /** The CLSID subtree `Dispose` removes from the sandboxed classes root. */
  const ClsidGuid: string := "{D5DE8D20-5BB8-11D1-A1E3-00A0C90F2731}"
  /** The two type libraries whose registrations `Dispose` removes. */
  const TypeLibGuid1: string := "{000204EF-0000-0000-C000-000000000046}"
  const TypeLibGuid2: string := "{EA544A21-C82D-11D1-A3E4-00A0C90AEA82}"

  /** The order in which the constructor overrides the roots. */
  const MapOrder: seq<Root> := [ClassesRoot, LocalMachine, Users, CurrentConfig, CurrentUser]

  /** The subkey of the sandbox that stands in for `r`. */
  function SandboxFor(sandbox: Key, r: Root): Key
  {
    Child(sandbox, [RootName(r)])
  }

  /** The keys the constructor creates for the `i`-th root of `MapOrder`. */
  function LayoutKeys(sandbox: Key, r: Root): set<Key>
  {
    var s := SandboxFor(sandbox, r);
    match r
    case ClassesRoot => Ancestry(sandbox, [RootName(r)]) + Ancestry(s, ["WOW6432Node", "CLSID"]) + Ancestry(s, ["CLSID"])
    case LocalMachine => Ancestry(sandbox, [RootName(r)]) + Ancestry(s, ["SOFTWARE", "Classes"])
    case _ => Ancestry(sandbox, [RootName(r)])
  }

  /** The keys created for the first `n` roots of `MapOrder`. */
  function LayoutUpTo(sandbox: Key, n: nat): (s: set<Key>)
    requires n <= |MapOrder|
  {
    if n == 0 then {} else LayoutUpTo(sandbox, n - 1) + LayoutKeys(sandbox, MapOrder[n - 1])
  }

  /** The override calls for the first `n` roots of `MapOrder`. */
  function MapCalls(sandbox: Key, n: nat): (calls: seq<OverrideCall>)
    requires n <= |MapOrder|
  {
    if n == 0 then [] else MapCalls(sandbox, n - 1) + [OverrideCall(MapOrder[n - 1], Some(SandboxFor(sandbox, MapOrder[n - 1])))]
  }

  /** The error code the `i`-th native call returns. */
  function ResultAt(results: seq<int>, i: nat): int
  {
    if i < |results| then results[i] else 0
  }

  function Drop(results: seq<int>, n: nat): seq<int>
  {
    if n <= |results| then results[n..] else []
  }

  /** The override table once `roots` have been mapped into the sandbox. */
  function MappedOverrides(overrides: map<Root, Key>, sandbox: Key, roots: seq<Root>): (m: map<Root, Key>)
  {
    if roots == [] then overrides
    else MappedOverrides(overrides, sandbox, roots[..|roots| - 1])[Last(roots) := SandboxFor(sandbox, Last(roots))]
  }

  /** Mapping `roots` sends each of them to its stand-in and keeps every
      other override. */
  lemma {:induction false} MappedOverridesLookup(overrides: map<Root, Key>, sandbox: Key, roots: seq<Root>)
    ensures var m := MappedOverrides(overrides, sandbox, roots);
      (forall r :: r in m <==> r in overrides || r in roots)
      && (forall r :: r in roots ==> m[r] == SandboxFor(sandbox, r))
      && (forall r :: r in overrides && r !in roots ==> m[r] == overrides[r])
  {
    if roots != [] {
      var init := roots[..|roots| - 1];
      MappedOverridesLookup(overrides, sandbox, init);
      assert forall r :: r in roots <==> r in init || r == Last(roots) by {
        assert roots == init + [Last(roots)];
      }
    }
  }

  /** The `i`-th override call of the constructor maps the `i`-th root of
      `MapOrder` onto its stand-in. */
  lemma {:induction false} MapCallsOrder(sandbox: Key, n: nat, i: nat)
    requires i < n <= |MapOrder|
    ensures |MapCalls(sandbox, n)| == n
    ensures MapCalls(sandbox, n)[i] == OverrideCall(MapOrder[i], Some(SandboxFor(sandbox, MapOrder[i])))
  {
    MapCallsLength(sandbox, n - 1);
    if i < n - 1 {
      MapCallsOrder(sandbox, n - 1, i);
    }
  }

  lemma {:induction false} MapCallsLength(sandbox: Key, n: nat)
    requires n <= |MapOrder|
    ensures |MapCalls(sandbox, n)| == n
  {
    if n > 0 {
      MapCallsLength(sandbox, n - 1);
    }
  }

  // ---------------------------------------------------------------------
  // What Dispose removes

  /** The interface key `iface` names a type library by its `TypeLib` default
      value, compared ordinally ignoring case with the two GUIDs. */
  predicate NamesPrunedTypeLib(t: Tree, iface: Key)
  {
    var typeLib := Child(iface, ["TypeLib"]);
    iface in t.keys && typeLib in t.keys && typeLib in t.defaults
    && (EqualsIgnoreCase(TypeLibGuid1, t.defaults[typeLib]) || EqualsIgnoreCase(TypeLibGuid2, t.defaults[typeLib]))
  }

  /** The interface, directly below `interfaces`, that `k` belongs to. */
  predicate InInterface(k: Key, interfaces: Key)
  {
    Under(k, interfaces) && |k.path| > |interfaces.path|
  }

  function InterfaceOf(k: Key, interfaces: Key): Key
    requires InInterface(k, interfaces)
  {
    Child(interfaces, [k.path[|interfaces.path|]])
  }

  /** `k` lies in one of the interfaces called `names` that names a pruned type library. */
  predicate Doomed(t: Tree, interfaces: Key, names: seq<string>, k: Key)
  {
    InInterface(k, interfaces) && k.path[|interfaces.path|] in names
    && NamesPrunedTypeLib(t, InterfaceOf(k, interfaces))
  }

  /** The `foreach` over the snapshot `names`: each interface that names a
      pruned type library is deleted with its subtree. */
  function PruneNames(t: Tree, interfaces: Key, names: seq<string>): Tree
    decreases |names|
  {
    if names == [] then t
    else
      var iface := Child(interfaces, [names[0]]);
      PruneNames(if NamesPrunedTypeLib(t, iface) then DeleteTree(t, iface) else t, interfaces, names[1..])
  }

  /** `k` and the interfaces below `interfaces` are `Under` each other as
      their names say. */
  lemma UnderInterface(k: Key, interfaces: Key, n: string)
    ensures Under(k, Child(interfaces, [n])) <==> InInterface(k, interfaces) && k.path[|interfaces.path|] == n
  {
    var c := Child(interfaces, [n]);
    if InInterface(k, interfaces) && k.path[|interfaces.path|] == n {
      assert k.path[..|c.path|] == k.path[..|interfaces.path|] + [n];
    }
    if Under(k, c) {
      assert k.path[..|interfaces.path|] == k.path[..|c.path|][..|interfaces.path|];
      assert k.path[|interfaces.path|] == k.path[..|c.path|][|interfaces.path|];
    }
  }

  /** Deleting one interface leaves every other interface's keys and default
      values, and so its verdict, as they were. */
  lemma DeleteKeepsOtherInterface(t: Tree, interfaces: Key, gone: string, n: string)
    requires gone != n
    ensures NamesPrunedTypeLib(DeleteTree(t, Child(interfaces, [gone])), Child(interfaces, [n]))
        == NamesPrunedTypeLib(t, Child(interfaces, [n]))
  {
    var iface := Child(interfaces, [n]);
    var typeLib := Child(iface, ["TypeLib"]);
    UnderInterface(iface, interfaces, gone);
    UnderInterface(typeLib, interfaces, gone);
    assert iface.path[|interfaces.path|] == n;
    assert typeLib.path[|interfaces.path|] == n;
  }

  /** However the snapshot is ordered, the loop removes exactly the keys of
      the interfaces that named a pruned type library AT THE START, and
      leaves every other key and default value untouched: deleting one
      interface never changes another's verdict. */
  lemma {:induction false} PruneNamesExact(t: Tree, interfaces: Key, names: seq<string>)
    requires forall i, j :: 0 <= i < j < |names| ==> names[i] != names[j]
    ensures forall k :: k in PruneNames(t, interfaces, names).keys
                     <==> k in t.keys && !Doomed(t, interfaces, names, k)
    ensures forall k :: k in PruneNames(t, interfaces, names).defaults
                     <==> k in t.defaults && !Doomed(t, interfaces, names, k)
    ensures forall k :: k in PruneNames(t, interfaces, names).defaults
                     ==> PruneNames(t, interfaces, names).defaults[k] == t.defaults[k]
    decreases |names|
  {
    if names != [] {
      var n := names[0];
      var iface := Child(interfaces, [n]);
      var t1 := if NamesPrunedTypeLib(t, iface) then DeleteTree(t, iface) else t;
      PruneNamesExact(t1, interfaces, names[1..]);
      forall m | m in names[1..]
        ensures NamesPrunedTypeLib(t1, Child(interfaces, [m])) == NamesPrunedTypeLib(t, Child(interfaces, [m]))
      {
        if NamesPrunedTypeLib(t, iface) {
          DeleteKeepsOtherInterface(t, interfaces, n, m);
        }
      }
      forall k
        ensures Doomed(t, interfaces, names, k)
            <==> (InInterface(k, interfaces) && k.path[|interfaces.path|] == n && NamesPrunedTypeLib(t, iface))
                 || Doomed(t1, interfaces, names[1..], k)
      {
        UnderInterface(k, interfaces, n);
        if InInterface(k, interfaces) && k.path[|interfaces.path|] in names[1..] {
          assert k.path[|interfaces.path|] != n;
        }
      }
      forall k | InInterface(k, interfaces) && k.path[|interfaces.path|] == n
        ensures Under(k, iface)
      {
        UnderInterface(k, interfaces, n);
      }
      forall k | Under(k, iface)
        ensures InInterface(k, interfaces) && k.path[|interfaces.path|] == n
      {
        UnderInterface(k, interfaces, n);
      }
    }
  }

  /** The CLSID and TypeLib deletions, through the overrides `ov`: each
      subtree is removed when its parent key opens; a missing subtree is no
      error. */
  function PruneFixed(t: Tree, ov: map<Root, Key>): Tree
  {
    var clsid := Child(Resolve(ov, ClassesRoot, []), ["CLSID"]);
    var t1 := if clsid in t.keys then DeleteTree(t, Child(clsid, [ClsidGuid])) else t;
    var typeLibs := Child(Resolve(ov, LocalMachine, []), ["SOFTWARE", "Classes", "TypeLib"]);
    if typeLibs in t1.keys
    then DeleteTree(DeleteTree(t1, Child(typeLibs, [TypeLibGuid1])), Child(typeLibs, [TypeLibGuid2]))
    else t1
  }

  /** The interface pruning on the tree left by `PruneFixed`. */
  function InterfacesKey(ov: map<Root, Key>): Key
  {
    Child(Resolve(ov, LocalMachine, []), ["SOFTWARE", "Classes", "Interface"])
  }

  /** Every key below `InterfacesKey` that belongs to an interface naming a
      pruned type library is gone, and nothing else. */
  function PruneInterfaces(t: Tree, interfaces: Key): (r: Tree)
  {
    Tree(set k | k in t.keys && !(InInterface(k, interfaces) && NamesPrunedTypeLib(t, InterfaceOf(k, interfaces))),
         map k | k in t.defaults && !(InInterface(k, interfaces) && NamesPrunedTypeLib(t, InterfaceOf(k, interfaces)))
               :: t.defaults[k])
  }

  /** What `Dispose` leaves of the tree `t` under the overrides `ov`. */
  function Pruned(t: Tree, ov: map<Root, Key>): Tree
  {
    var t2 := PruneFixed(t, ov);
    if InterfacesKey(ov) in t2.keys then PruneInterfaces(t2, InterfacesKey(ov)) else t2
  }

  /** A snapshot holding every interface name gives `PruneInterfaces`. */
  lemma PruneAllNames(t: Tree, interfaces: Key, names: seq<string>)
    requires forall i, j :: 0 <= i < j < |names| ==> names[i] != names[j]
    requires forall n :: n in names <==> Child(interfaces, [n]) in t.keys
    ensures PruneNames(t, interfaces, names) == PruneInterfaces(t, interfaces)
  {
    PruneNamesExact(t, interfaces, names);
    var r := PruneNames(t, interfaces, names);
    forall k
      ensures Doomed(t, interfaces, names, k)
          <==> InInterface(k, interfaces) && NamesPrunedTypeLib(t, InterfaceOf(k, interfaces))
    {
    }
    assert r.keys == PruneInterfaces(t, interfaces).keys;
    assert r.defaults == PruneInterfaces(t, interfaces).defaults;
  }

  // ---------------------------------------------------------------------
  // Reverting

  /** The revert calls for a stack of mapped roots: the top first. */
  function RevertCalls(stack: seq<Root>): (calls: seq<OverrideCall>)
    ensures |calls| == |stack|
  {
    if stack == [] then [] else [OverrideCall(Last(stack), None)] + RevertCalls(stack[..|stack| - 1])
  }

  /** The `i`-th revert is of the `i`-th root from the top: LIFO order, each
      root once, each with the null handle. */
  lemma {:induction false} RevertCallsLifo(stack: seq<Root>, i: nat)
    requires i < |stack|
    ensures RevertCalls(stack)[i] == OverrideCall(stack[|stack| - 1 - i], None)
  {
    if i > 0 {
      var rest := stack[..|stack| - 1];
      RevertCallsLifo(rest, i - 1);
      assert RevertCalls(stack)[i] == RevertCalls(rest)[i - 1];
      assert rest[|rest| - 1 - (i - 1)] == stack[|stack| - 1 - i];
    }
  }

  /** The override table and the native results after reverting `stack`
      top first; a revert that fails leaves that override in place. */
  function RevertAll(ov: map<Root, Key>, results: seq<int>, stack: seq<Root>): (r: (map<Root, Key>, seq<int>))
    decreases |stack|
  {
    if stack == [] then (ov, results)
    else
      var err := ResultAt(results, 0);
      RevertAll(if err == 0 then ov - {Last(stack)} else ov, Drop(results, 1), stack[..|stack| - 1])
  }

  /** One pop of the revert loop: the call it makes and the table it leaves
      continue the reverting of the rest of the stack. */
  lemma RevertStep(ov: map<Root, Key>, results: seq<int>, calls: seq<OverrideCall>, stack: seq<Root>,
                   err: int, ov': map<Root, Key>, results': seq<int>, calls': seq<OverrideCall>)
    requires stack != []
    requires err == (if results == [] then 0 else results[0])
    requires results' == (if results == [] then [] else results[1..])
    requires calls' == calls + [OverrideCall(Last(stack), None)]
    requires ov' == (if err != 0 then ov else ov - {Last(stack)})
    ensures RevertAll(ov', results', stack[..|stack| - 1]) == RevertAll(ov, results, stack)
    ensures calls' + RevertCalls(stack[..|stack| - 1]) == calls + RevertCalls(stack)
  {
    assert err == ResultAt(results, 0) && results' == Drop(results, 1);
    assert calls' + RevertCalls(stack[..|stack| - 1])
        == calls + ([OverrideCall(Last(stack), None)] + RevertCalls(stack[..|stack| - 1]));
  }

  /** Reverting never touches a root that was not mapped, and when every
      revert succeeds no mapped root is left overridden. */
  lemma {:induction false} RevertAllEffect(ov: map<Root, Key>, results: seq<int>, stack: seq<Root>)
    ensures var (ov', _) := RevertAll(ov, results, stack);
      (forall r :: r !in stack ==> (r in ov' <==> r in ov) && (r in ov' ==> ov'[r] == ov[r]))
      && (forall r :: r in ov' ==> r in ov)
      && ((forall i :: 0 <= i < |stack| ==> ResultAt(results, i) == 0) ==>
            forall r :: r in stack ==> r !in ov')
    decreases |stack|
  {
    if stack != [] {
      var rest := stack[..|stack| - 1];
      var err := ResultAt(results, 0);
      var ov1 := if err == 0 then ov - {Last(stack)} else ov;
      RevertAllEffect(ov1, Drop(results, 1), rest);
      assert RevertAll(ov, results, stack) == RevertAll(ov1, Drop(results, 1), rest);
      var (ov', _) := RevertAll(ov, results, stack);
      assert forall r :: r in ov1 ==> r in ov;
      assert forall i :: 0 <= i < |rest| ==> ResultAt(Drop(results, 1), i) == ResultAt(results, i + 1);
      forall r | r !in stack
        ensures r !in rest && r != Last(stack)
      {
        assert forall i :: 0 <= i < |rest| ==> rest[i] == stack[i];
      }
      if forall i :: 0 <= i < |stack| ==> ResultAt(results, i) == 0 {
        assert ResultAt(results, 0) == 0;
        assert forall i :: 0 <= i < |rest| ==> ResultAt(Drop(results, 1), i) == 0 by {
          forall i | 0 <= i < |rest|
            ensures ResultAt(Drop(results, 1), i) == 0
          {
            assert ResultAt(results, i + 1) == 0;
          }
        }
        forall r | r in stack
          ensures r !in ov'
        {
          var i :| 0 <= i < |stack| && stack[i] == r;
          if i < |rest| {
            assert rest[i] == r;
          } else {
            assert r == Last(stack) && r !in ov1;
          }
        }
      }
    }
  }

  // ---------------------------------------------------------------------
  // The constructor, block by block

  /** The parts of the registry the proxy changes. */
  datatype Snapshot = Snapshot(tree: Tree, calls: seq<OverrideCall>, results: seq<int>, overrides: map<Root, Key>)

  function SnapOf(r: Registry): Snapshot
    reads r
  {
    Snapshot(r.tree, r.calls, r.results, r.overrides)
  }

  /** One successful or failing `RegOverridePredefKey(source, dest)`. */
  function AfterOverride(s: Snapshot, source: Root, dest: Key): Snapshot
  {
    var err := ResultAt(s.results, 0);
    Snapshot(s.tree, s.calls + [OverrideCall(source, Some(dest))], Drop(s.results, 1),
             if err == 0 then s.overrides[source := dest] else s.overrides)
  }

  /** The state after the first `steps` blocks of the constructor, from
      `start` (the sandbox key already created): the roots pushed are a
      prefix of `MapOrder`; a block runs only while no override has failed,
      and it creates its keys before it overrides; the first nonzero result
      is the error thrown. */
  ghost predicate Progress(start: Snapshot, now: Snapshot, sandbox: Key, mapped: seq<Root>, failure: Option<int>, steps: nat)
  {
    steps <= |MapOrder| && |mapped| <= steps && mapped == MapOrder[..|mapped|]
    && (failure.None? ==> |mapped| == steps)
    && (failure.Some? ==> |mapped| < steps && failure.value != 0 && failure.value == ResultAt(start.results, |mapped|))
    && (forall i :: 0 <= i < |mapped| ==> ResultAt(start.results, i) == 0)
    && var attempts := |mapped| + (if failure.Some? then 1 else 0);
       now == Snapshot(Tree(start.tree.keys + LayoutUpTo(sandbox, attempts), start.tree.defaults),
                       start.calls + MapCalls(sandbox, attempts), Drop(start.results, attempts),
                       MappedOverrides(start.overrides, sandbox, mapped))
  }

  lemma ProgressNoFailure(start: Snapshot, now: Snapshot, sandbox: Key, mapped: seq<Root>, i: nat)
    requires Progress(start, now, sandbox, mapped, None, i)
    ensures |mapped| == i && now.results == Drop(start.results, i)
    ensures now.tree == Tree(start.tree.keys + LayoutUpTo(sandbox, i), start.tree.defaults)
  {
  }

  /** One block moves the constructor from `i` to `i + 1` steps: the keys,
      the calls and the results, whatever the override returns. */
  lemma ProgressStepShared(start: Snapshot, now: Snapshot, sandbox: Key, mapped: seq<Root>, i: nat)
    requires i < |MapOrder| && |mapped| == i
    requires Progress(start, now.(tree := Tree(start.tree.keys + LayoutUpTo(sandbox, i), start.tree.defaults)),
                      sandbox, mapped, None, i)
    requires now.tree == Tree(start.tree.keys + LayoutUpTo(sandbox, i) + LayoutKeys(sandbox, MapOrder[i]), start.tree.defaults)
    ensures var next := AfterOverride(now, MapOrder[i], SandboxFor(sandbox, MapOrder[i]));
      ResultAt(now.results, 0) == ResultAt(start.results, i)
      && next.results == Drop(start.results, i + 1)
      && next.tree == Tree(start.tree.keys + LayoutUpTo(sandbox, i + 1), start.tree.defaults)
      && next.calls == start.calls + MapCalls(sandbox, i + 1)
      && now.overrides == MappedOverrides(start.overrides, sandbox, mapped)
      && mapped == MapOrder[..i]
      && (forall j :: 0 <= j < i ==> ResultAt(start.results, j) == 0)
  {
    var root := MapOrder[i];
    assert MapCalls(sandbox, i + 1) == MapCalls(sandbox, i) + [OverrideCall(root, Some(SandboxFor(sandbox, root)))];
  }

  lemma ProgressStep(start: Snapshot, now: Snapshot, sandbox: Key, mapped: seq<Root>, i: nat)
    requires i < |MapOrder| && |mapped| == i
    requires Progress(start, now.(tree := Tree(start.tree.keys + LayoutUpTo(sandbox, i), start.tree.defaults)),
                      sandbox, mapped, None, i)
    requires now.tree == Tree(start.tree.keys + LayoutUpTo(sandbox, i) + LayoutKeys(sandbox, MapOrder[i]), start.tree.defaults)
    ensures var err := ResultAt(now.results, 0);
      Progress(start, AfterOverride(now, MapOrder[i], SandboxFor(sandbox, MapOrder[i])), sandbox,
               if err == 0 then mapped + [MapOrder[i]] else mapped,
               if err == 0 then None else Some(err), i + 1)
  {
    ProgressStepShared(start, now, sandbox, mapped, i);
    var root := MapOrder[i];
    var next := AfterOverride(now, root, SandboxFor(sandbox, root));
    if ResultAt(now.results, 0) == 0 {
      ProgressStepOk(start, next, sandbox, mapped, i);
    } else {
      assert next.overrides == MappedOverrides(start.overrides, sandbox, mapped);
    }
  }

  lemma ProgressStepOk(start: Snapshot, next: Snapshot, sandbox: Key, mapped: seq<Root>, i: nat)
    requires i < |MapOrder| && |mapped| == i && mapped == MapOrder[..i]
    requires forall j :: 0 <= j <= i ==> ResultAt(start.results, j) == 0
    requires next.results == Drop(start.results, i + 1)
    requires next.tree == Tree(start.tree.keys + LayoutUpTo(sandbox, i + 1), start.tree.defaults)
    requires next.calls == start.calls + MapCalls(sandbox, i + 1)
    requires next.overrides == MappedOverrides(start.overrides, sandbox, mapped)[MapOrder[i] := SandboxFor(sandbox, MapOrder[i])]
    ensures Progress(start, next, sandbox, mapped + [MapOrder[i]], None, i + 1)
  {
    var mapped' := mapped + [MapOrder[i]];
    assert mapped'[..|mapped|] == mapped;
    PrefixSnoc(MapOrder, i);
  }

  /** A failed constructor stays where it stopped: the later blocks do not run. */
  lemma ProgressStays(start: Snapshot, now: Snapshot, sandbox: Key, mapped: seq<Root>, failure: Option<int>, i: nat, j: nat)
    requires failure.Some? && i <= j <= |MapOrder| && Progress(start, now, sandbox, mapped, failure, i)
    ensures Progress(start, now, sandbox, mapped, failure, j)
  {
  }

  lemma ProgressStart(start: Snapshot, sandbox: Key)
    ensures Progress(start, start, sandbox, [], None, 0)
  {
    assert start.tree == Tree(start.tree.keys + LayoutUpTo(sandbox, 0), start.tree.defaults);
    assert start.calls + MapCalls(sandbox, 0) == start.calls;
    assert Drop(start.results, 0) == start.results;
  }

  /** The first `n` calls of `RegOverridePredefKey` all return 0. */
  predicate OverridesSucceed(results: seq<int>, n: nat)
  {
    forall i :: 0 <= i < n ==> ResultAt(results, i) == 0
  }

  /** The constructor, once it has run: it throws exactly when one of the
      five overrides fails; then the roots pushed before it stay overridden.
      Otherwise all five roots are mapped into the sandbox. */
  lemma ProgressFailure(start: Snapshot, now: Snapshot, sandbox: Key, mapped: seq<Root>, failure: Option<int>)
    requires Progress(start, now, sandbox, mapped, failure, |MapOrder|)
    ensures failure.None? <==> OverridesSucceed(start.results, |MapOrder|)
    ensures failure.None? ==> mapped == MapOrder && now.results == Drop(start.results, |MapOrder|)
                              && now.overrides == MappedOverrides(start.overrides, sandbox, MapOrder)
    ensures failure.Some? ==> |mapped| < |MapOrder| && mapped == MapOrder[..|mapped|]
                              && now.overrides == MappedOverrides(start.overrides, sandbox, mapped)
  {
    if failure.None? {
      assert MapOrder[..|MapOrder|] == MapOrder;
    }
  }

  // ---------------------------------------------------------------------
  // The proxy

  class RegistryProxy {
    const registry: Registry
    /** `Path`: the full name of the sandbox key. */
    const path: string
    /** The sandbox key the constructor created (`mappedRoot`). */
    ghost const sandbox: Key
    /** `_mapped`, bottom first. */
    var mapped: seq<Root>
    var disposed: bool
    /** The error code of the `Win32Exception` the constructor threw, if any;
        a proxy that failed is never disposed by `using`. */
    var failure: Option<int>

    /** `new RegistryProxy()`, with `guid` the fresh name `Guid.NewGuid()` gives. */
    constructor(registry: Registry, guid: string)
      modifies registry
      ensures this.registry == registry && path == RootName(CurrentUser) + "\\" + guid
      ensures sandbox == old(registry.View(CurrentUser, [guid])) && !disposed
      ensures Progress(Snapshot(Tree(old(registry.tree.keys) + Ancestry(old(registry.View(CurrentUser, [])), [guid]),
                                     old(registry.tree.defaults)),
                                old(registry.calls), old(registry.results), old(registry.overrides)),
                       SnapOf(registry), sandbox, mapped, failure, |MapOrder|)
    {
      this.registry := registry;
      ResolveChild(registry.overrides, CurrentUser, [guid]);
      var mappedRoot := registry.CreateSubKey(registry.View(CurrentUser, []), [guid]);
      path := RootName(CurrentUser) + "\\" + guid;
      sandbox := mappedRoot;
      mapped := [];
      disposed := false;
      failure := None;
      new;
      MapAllRoots(mappedRoot);
    }

    /** The five `using` blocks of the constructor, in order; each runs only
        while no override has failed. */
    method MapAllRoots(mappedRoot: Key)
      requires mappedRoot == sandbox && failure.None? && mapped == []
      modifies this, registry
      ensures Progress(old(SnapOf(registry)), SnapOf(registry), sandbox, mapped, failure, |MapOrder|)
      ensures disposed == old(disposed)
    {
      ghost var start := SnapOf(registry);
      ProgressStart(start, sandbox);
      MapSandboxRoot(mappedRoot, 0, start);
      MapUnlessFailed(mappedRoot, 1, start);
      MapUnlessFailed(mappedRoot, 2, start);
      MapUnlessFailed(mappedRoot, 3, start);
      MapUnlessFailed(mappedRoot, 4, start);
    }

    /** A later block, reached only when the earlier ones succeeded. */
    method MapUnlessFailed(mappedRoot: Key, i: nat, ghost start: Snapshot)
      requires mappedRoot == sandbox && i < |MapOrder|
      requires Progress(start, SnapOf(registry), sandbox, mapped, failure, i)
      modifies this, registry
      ensures Progress(start, SnapOf(registry), sandbox, mapped, failure, i + 1)
      ensures disposed == old(disposed)
    {
      if failure.None? {
        MapSandboxRoot(mappedRoot, i, start);
      } else {
        ProgressStays(start, SnapOf(registry), sandbox, mapped, failure, i, i + 1);
      }
    }

    /** One `using` block of the constructor: create the sandbox key that
        stands for the `i`-th root of `MapOrder` and the keys it needs, then
        map the root onto it. */
    method MapSandboxRoot(mappedRoot: Key, i: nat, ghost start: Snapshot)
      requires mappedRoot == sandbox && i < |MapOrder| && failure.None?
      requires Progress(start, SnapOf(registry), sandbox, mapped, failure, i)
      modifies this, registry
      ensures Progress(start, SnapOf(registry), sandbox, mapped, failure, i + 1)
      ensures disposed == old(disposed)
    {
      ProgressNoFailure(start, SnapOf(registry), sandbox, mapped, i);
      var root := MapOrder[i];
      var mapped := CreateLayout(mappedRoot, root);
      ghost var laidOut := SnapOf(registry);
      MapRegistryKey(root, mapped);
      ProgressStep(start, laidOut, sandbox, old(this.mapped), i);
    }

    /** The keys one block creates: the stand-in for `root` and the
        children it needs. */
    method CreateLayout(mappedRoot: Key, root: Root) returns (mapped: Key)
      modifies registry
      ensures mapped == SandboxFor(mappedRoot, root)
      ensures SnapOf(registry) == old(SnapOf(registry)).(tree := Tree(old(registry.tree.keys) + LayoutKeys(mappedRoot, root),
                                                                     old(registry.tree.defaults)))
    {
      mapped := registry.CreateSubKey(mappedRoot, [RootName(root)]);
      match root {
        case ClassesRoot =>
          var _ := registry.CreateSubKey(mapped, ["WOW6432Node", "CLSID"]);
          var _ := registry.CreateSubKey(mapped, ["CLSID"]);
        case LocalMachine =>
          var _ := registry.CreateSubKey(mapped, ["SOFTWARE", "Classes"]);
        case _ =>
      }
    }

    /** `MapRegistryKey(source, dest)`: override `source` with `dest`; on
        failure throw (here: record the code) without pushing. */
    method MapRegistryKey(source: Root, dest: Key)
      requires failure.None?
      modifies this, registry
      ensures disposed == old(disposed)
      ensures var err := ResultAt(old(registry.results), 0);
        (err == 0 ==> failure.None? && mapped == old(mapped) + [source])
        && (err != 0 ==> failure == Some(err) && mapped == old(mapped))
        && SnapOf(registry) == AfterOverride(old(SnapOf(registry)), source, dest)
    {
      var err := registry.OverridePredefKey(source, Some(dest));
      if err != 0 {
        failure := Some(err);
        return;
      }
      mapped := mapped + [source];
    }

    /** `Dispose`: once only, prune the CLSID entry and the two type
        libraries (through the overrides still in force), then revert every
        pushed override, top first, ignoring the results. */
    method Dispose()
      modifies this, registry
      ensures failure == old(failure) && disposed
      ensures old(disposed) ==> mapped == old(mapped) && registry.tree == old(registry.tree)
                                && registry.overrides == old(registry.overrides)
                                && registry.results == old(registry.results)
                                && registry.calls == old(registry.calls)
      ensures !old(disposed) ==>
                mapped == []
                && registry.tree == Pruned(old(registry.tree), old(registry.overrides))
                && (registry.overrides, registry.results)
                   == RevertAll(old(registry.overrides), old(registry.results), old(mapped))
                && registry.calls == old(registry.calls) + RevertCalls(old(mapped))
    {
      if disposed {
        return;
      }
      PruneTypeLibraries();
      RevertOverrides();
      disposed := true;
    }

    /** The reverting half of `Dispose`: pop every mapped root and override
        it with the null handle, ignoring the result. */
    method RevertOverrides()
      modifies this, registry
      ensures mapped == [] && disposed == old(disposed) && failure == old(failure)
      ensures registry.tree == old(registry.tree)
      ensures (registry.overrides, registry.results)
              == RevertAll(old(registry.overrides), old(registry.results), old(mapped))
      ensures registry.calls == old(registry.calls) + RevertCalls(old(mapped))
    {
      while mapped != []
        invariant disposed == old(disposed) && failure == old(failure)
        invariant registry.tree == old(registry.tree)
        invariant RevertAll(registry.overrides, registry.results, mapped)
               == RevertAll(old(registry.overrides), old(registry.results), old(mapped))
        invariant registry.calls + RevertCalls(mapped) == old(registry.calls) + RevertCalls(old(mapped))
        decreases |mapped|
      {
        ghost var (ov, results, calls, stack) := (registry.overrides, registry.results, registry.calls, mapped);
        var source := Last(mapped);
        mapped := mapped[..|mapped| - 1];
        var err := registry.OverridePredefKey(source, None);
        RevertStep(ov, results, calls, stack, err, registry.overrides, registry.results, registry.calls);
      }
    }

    /** The pruning half of `Dispose`. */
    method PruneTypeLibraries()
      modifies registry
      ensures registry.tree == Pruned(old(registry.tree), old(registry.overrides))
      ensures registry.overrides == old(registry.overrides) && registry.results == old(registry.results)
      ensures registry.calls == old(registry.calls)
    {
      PruneFixedKeys();
      var interfacesRoot := registry.OpenSubKey(registry.View(LocalMachine, []), ["SOFTWARE", "Classes", "Interface"]);
      if interfacesRoot.Some? {
        PruneInterfaceKeys(interfacesRoot.value);
      }
    }

    /** The coclass key and the two type libraries, deleted by name. */
    method PruneFixedKeys()
      modifies registry
      ensures registry.tree == PruneFixed(old(registry.tree), old(registry.overrides))
      ensures registry.overrides == old(registry.overrides) && registry.results == old(registry.results)
      ensures registry.calls == old(registry.calls)
    {
      var clsidRoot := registry.OpenSubKey(registry.View(ClassesRoot, []), ["CLSID"]);
      if clsidRoot.Some? {
        registry.DeleteSubKeyTree(clsidRoot.value, ClsidGuid);
      }
      var typeLibRoot := registry.OpenSubKey(registry.View(LocalMachine, []), ["SOFTWARE", "Classes", "TypeLib"]);
      if typeLibRoot.Some? {
        registry.DeleteSubKeyTree(typeLibRoot.value, TypeLibGuid1);
        registry.DeleteSubKeyTree(typeLibRoot.value, TypeLibGuid2);
      }
    }

    /** Every interface whose `TypeLib` default names one of the two type
        libraries is deleted. */
    method PruneInterfaceKeys(interfaces: Key)
      requires interfaces in registry.tree.keys
      modifies registry
      ensures registry.tree == PruneInterfaces(old(registry.tree), interfaces)
      ensures registry.overrides == old(registry.overrides) && registry.results == old(registry.results)
      ensures registry.calls == old(registry.calls)
    {
      var interfaceNames := registry.GetSubKeyNames(interfaces);
      ghost var t0 := registry.tree;
      PruneAllNames(t0, interfaces, interfaceNames);
      for i := 0 to |interfaceNames|
        invariant registry.overrides == old(registry.overrides) && registry.results == old(registry.results)
        invariant registry.calls == old(registry.calls)
        invariant PruneNames(registry.tree, interfaces, interfaceNames[i..]) == PruneNames(t0, interfaces, interfaceNames)
      {
        var interfaceName := interfaceNames[i];
        var interfaceKey := registry.OpenSubKey(interfaces, [interfaceName]);
        if interfaceKey.Some? {
          var typeLibKey := registry.OpenSubKey(interfaceKey.value, ["TypeLib"]);
          if typeLibKey.Some? {
            var defaults := registry.tree.defaults;
            if typeLibKey.value in defaults
               && (EqualsIgnoreCase(TypeLibGuid1, defaults[typeLibKey.value])
                   || EqualsIgnoreCase(TypeLibGuid2, defaults[typeLibKey.value])) {
              registry.DeleteSubKeyTree(interfaces, interfaceName);
            }
          }
        }
        assert interfaceNames[i..][1..] == interfaceNames[i + 1..];
      }
    }
  }

  /** While every root is mapped, every key reached through a predefined
      root lies inside the sandbox: whatever the library registers lands
      there. */
  lemma AllRootsRedirected(ov: map<Root, Key>, sandbox: Key, root: Root, names: seq<string>)
    ensures Under(Resolve(MappedOverrides(ov, sandbox, MapOrder), root, names), sandbox)
  {
    assert root in MapOrder by {
      match root
      case ClassesRoot => assert MapOrder[0] == root;
      case LocalMachine => assert MapOrder[1] == root;
      case Users => assert MapOrder[2] == root;
      case CurrentConfig => assert MapOrder[3] == root;
      case CurrentUser => assert MapOrder[4] == root;
    }
    MappedOverridesLookup(ov, sandbox, MapOrder);
    var k := SandboxFor(sandbox, root);
    var r := Resolve(MappedOverrides(ov, sandbox, MapOrder), root, names);
    assert r == Child(k, names);
    assert r.path[..|sandbox.path|] == sandbox.path by {
      assert r.path == sandbox.path + ([RootName(root)] + names);
    }
  }
}
