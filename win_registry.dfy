/** The Windows registry as the core sees it through `Microsoft.Win32`: five
    predefined roots, a tree of keys below each, the string default values,
    and the process-wide table of predefined-key overrides that
    `RegOverridePredefKey` maintains. */
module WinRegistry {
  import opened Common

  datatype Root = ClassesRoot | CurrentUser | LocalMachine | Users | CurrentConfig

  /** The names `RegistryKey.Name` starts with, one per root. */
  function RootName(r: Root): string
  {
    match r
    case ClassesRoot => "HKEY_CLASSES_ROOT"
    case CurrentUser => "HKEY_CURRENT_USER"
    case LocalMachine => "HKEY_LOCAL_MACHINE"
    case Users => "HKEY_USERS"
    case CurrentConfig => "HKEY_CURRENT_CONFIG"
  }

  /** A physical key: its root and the names of the keys leading down to it. */
  datatype Key = Key(root: Root, path: seq<string>)

  function Child(k: Key, names: seq<string>): (c: Key)
    ensures c.root == k.root && |c.path| == |k.path| + |names|
  {
    Key(k.root, k.path + names)
  }

  /** `k` is `top` or lies below it. */
  predicate Under(k: Key, top: Key)
  {
    k.root == top.root && |top.path| <= |k.path| && k.path[..|top.path|] == top.path
  }

  /** Lying below is transitive. */
  lemma UnderTrans(a: Key, b: Key, c: Key)
    requires Under(a, b) && Under(b, c)
    ensures Under(a, c)
  {
    assert a.path[..|c.path|] == a.path[..|b.path|][..|c.path|];
  }

  /** The keys and the string default values of the whole registry. A
      default value of another type reads as null through `as string`, so it
      is simply absent here. */
  datatype Tree = Tree(keys: set<Key>, defaults: map<Key, string>)

  /** `DeleteSubKeyTree`: `top` and everything below it disappear. */
  function DeleteTree(t: Tree, top: Key): (r: Tree)
    ensures forall k :: k in r.keys <==> k in t.keys && !Under(k, top)
    ensures forall k :: k in r.defaults <==> k in t.defaults && !Under(k, top)
    ensures forall k :: k in r.defaults ==> r.defaults[k] == t.defaults[k]
  {
    Tree(set k | k in t.keys && !Under(k, top),
         map k | k in t.defaults && !Under(k, top) :: t.defaults[k])
  }

  /** Every key lies under each of its ancestors. */
  lemma UnderAncestor(k: Key, i: nat)
    requires i <= |k.path|
    ensures Under(k, Key(k.root, k.path[..i]))
  {
  }

  /** The shape of a real registry: every ancestor of a key is a key. */
  ghost predicate Closed(keys: set<Key>)
  {
    forall k, i :: k in keys && 0 <= i <= |k.path| ==> Key(k.root, k.path[..i]) in keys
  }

  /** Deleting a subtree leaves a registry: no remaining key loses an
      ancestor, since a key below a deleted one is deleted too. */
  lemma DeleteTreeKeepsClosed(t: Tree, top: Key)
    requires Closed(t.keys)
    ensures Closed(DeleteTree(t, top).keys)
  {
    var r := DeleteTree(t, top);
    forall k, i | k in r.keys && 0 <= i <= |k.path|
      ensures Key(k.root, k.path[..i]) in r.keys
    {
      var a := Key(k.root, k.path[..i]);
      UnderAncestor(k, i);
      if Under(a, top) {
        UnderTrans(k, a, top);
      }
    }
  }

  /** Deleting the same subtree twice is deleting it once. */
  lemma DeleteTreeIdempotent(t: Tree, top: Key)
    ensures DeleteTree(DeleteTree(t, top), top) == DeleteTree(t, top)
  {
  }

  /** After `DeleteSubKeyTree(name)`, no key at or below the deleted child
      can be opened any more, and every other key opens as before. */
  lemma DeletedSubtreeUnreachable(t: Tree, parent: Key, name: string, rest: seq<string>, other: Key)
    requires !Under(other, Child(parent, [name]))
    ensures Child(parent, [name] + rest) !in DeleteTree(t, Child(parent, [name])).keys
    ensures other in DeleteTree(t, Child(parent, [name])).keys <==> other in t.keys
  {
    assert (parent.path + ([name] + rest))[..|parent.path| + 1] == parent.path + [name];
  }

  /** `CreateSubKey(names)` under `parent`: the key and every key on the way to it. */
  function Ancestry(parent: Key, names: seq<string>): (s: set<Key>)
    ensures forall i :: 0 <= i <= |names| ==> Child(parent, names[..i]) in s
    ensures forall k :: k in s ==> Under(k, parent) && Under(Child(parent, names), k)
  {
    set i | 0 <= i <= |names| :: Child(parent, names[..i])
  }

  /** Creating below an existing key leaves a registry: every key on the way
      down is created along with the key itself. */
  lemma CreateKeepsClosed(keys: set<Key>, parent: Key, names: seq<string>)
    requires Closed(keys) && parent in keys
    ensures Closed(keys + Ancestry(parent, names))
  {
    var made := keys + Ancestry(parent, names);
    forall k, i | k in made && 0 <= i <= |k.path|
      ensures Key(k.root, k.path[..i]) in made
    {
      if k !in keys {
        var j :| 0 <= j <= |names| && k == Child(parent, names[..j]);
        if i <= |parent.path| {
          assert k.path[..i] == parent.path[..i];
        } else {
          var m := i - |parent.path|;
          assert k.path[..i] == parent.path + names[..m];
          assert Child(parent, names[..m]) in Ancestry(parent, names);
        }
      }
    }
  }

  /** The names of the direct subkeys of `k`. */
  function SubKeyNames(keys: set<Key>, k: Key): (names: set<string>)
    ensures forall n :: n in names <==> Child(k, [n]) in keys
  {
    var s := set c | c in keys && c.root == k.root && |c.path| == |k.path| + 1
                     && c.path[..|k.path|] == k.path :: c.path[|k.path|];
    assert forall n :: Child(k, [n]) in keys ==> n in s by {
      forall n | Child(k, [n]) in keys
        ensures n in s
      {
        var c := Child(k, [n]);
        assert c.path[..|k.path|] == k.path && c.path[|k.path|] == n;
      }
    }
    assert forall n :: n in s ==> Child(k, [n]) in keys by {
      forall n | n in s
        ensures Child(k, [n]) in keys
      {
        var c :| c in keys && c.root == k.root && |c.path| == |k.path| + 1
                 && c.path[..|k.path|] == k.path && c.path[|k.path|] == n;
        assert c.path == k.path + [n];
      }
    }
    s
  }

  /** Where a key named relative to a predefined root really is: a root that
      is overridden stands for the key it was mapped to. */
  function Resolve(overrides: map<Root, Key>, root: Root, path: seq<string>): (k: Key)
    ensures root !in overrides ==> k == Key(root, path)
    ensures root in overrides ==> Under(k, overrides[root])
  {
    if root in overrides then Child(overrides[root], path) else Key(root, path)
  }

  /** Opening `names` below a root's handle reaches the key the root and
      `names` resolve to. */
  lemma ResolveChild(overrides: map<Root, Key>, root: Root, names: seq<string>)
    ensures Child(Resolve(overrides, root, []), names) == Resolve(overrides, root, names)
  {
    if root in overrides {
      assert overrides[root].path + [] + names == overrides[root].path + names;
    }
  }

  /** One call of `RegOverridePredefKey(root, target)`; `None` is the null
      handle that removes the override. */
  datatype OverrideCall = OverrideCall(root: Root, target: Option<Key>)

  /** The registry and the process's override table. `results` gives the
      error code each successive `RegOverridePredefKey` call returns (0 once
      it runs out); `calls` records the calls in order. */
  class Registry {
    var tree: Tree
    var overrides: map<Root, Key>
    var results: seq<int>
    var calls: seq<OverrideCall>

    constructor(tree: Tree, results: seq<int>)
      ensures this.tree == tree && overrides == map[] && this.results == results && calls == []
    {
      this.tree := tree;
      overrides := map[];
      this.results := results;
      calls := [];
    }

    /** The key a predefined root handle plus a relative path reach. */
    function View(root: Root, path: seq<string>): Key
      reads this
    {
      Resolve(overrides, root, path)
    }

    /** `RegistryKey.OpenSubKey`: the key, or null when it does not exist. */
    function OpenSubKey(parent: Key, names: seq<string>): (r: Option<Key>)
      reads this
      ensures r.Some? <==> Child(parent, names) in tree.keys
      ensures r.Some? ==> r.value == Child(parent, names)
    {
      if Child(parent, names) in tree.keys then Some(Child(parent, names)) else None
    }

    /** `RegistryKey.CreateSubKey`: opens the key, creating it and any missing
        key on the way. */
    method CreateSubKey(parent: Key, names: seq<string>) returns (k: Key)
      modifies this
      ensures k == Child(parent, names)
      ensures tree == Tree(old(tree.keys) + Ancestry(parent, names), old(tree.defaults))
      ensures overrides == old(overrides) && results == old(results) && calls == old(calls)
    {
      k := Child(parent, names);
      tree := Tree(tree.keys + Ancestry(parent, names), tree.defaults);
    }

    /** `RegistryKey.DeleteSubKeyTree(name)` under `parent`. */
    method DeleteSubKeyTree(parent: Key, name: string)
      modifies this
      ensures tree == DeleteTree(old(tree), Child(parent, [name]))
      ensures overrides == old(overrides) && results == old(results) && calls == old(calls)
    {
      tree := DeleteTree(tree, Child(parent, [name]));
    }

    /** `RegistryKey.GetSubKeyNames`: every direct subkey name once, in some order. */
    method GetSubKeyNames(k: Key) returns (names: seq<string>)
      ensures forall n :: n in names <==> Child(k, [n]) in tree.keys
      ensures forall i, j :: 0 <= i < j < |names| ==> names[i] != names[j]
    {
      var remaining := SubKeyNames(tree.keys, k);
      names := [];
      while remaining != {}
        invariant forall n :: n in names || n in remaining <==> Child(k, [n]) in tree.keys
        invariant forall n :: n in names ==> n !in remaining
        invariant forall i, j :: 0 <= i < j < |names| ==> names[i] != names[j]
        decreases |remaining|
      {
        var n :| n in remaining;
        names := names + [n];
        remaining := remaining - {n};
      }
    }

    /** `RegOverridePredefKey(root, target)`: on success the override table
        maps `root` to `target`, or forgets it when `target` is null. */
    method OverridePredefKey(root: Root, target: Option<Key>) returns (err: int)
      modifies this
      ensures err == (if old(results) == [] then 0 else old(results)[0])
      ensures results == (if old(results) == [] then [] else old(results)[1..])
      ensures calls == old(calls) + [OverrideCall(root, target)]
      ensures overrides == (if err != 0 then old(overrides)
                            else if target.Some? then old(overrides)[root := target.value]
                            else old(overrides) - {root})
      ensures tree == old(tree)
    {
      err := if results == [] then 0 else results[0];
      results := if results == [] then [] else results[1..];
      calls := calls + [OverrideCall(root, target)];
      if err == 0 {
        overrides := if target.Some? then overrides[root := target.value] else overrides - {root};
      }
    }
  }
}
