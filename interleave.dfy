/** `AsyncEnumerableExtensions.Interleave`: merge several asynchronous
    sequences into one, taking each item as soon as its source produces it.

    Each source is the list of items it will produce; a source in `faulty`
    throws from the `MoveNextAsync` after its last item instead of answering
    false. Which pending `MoveNextAsync` finishes first is not decided by the
    code: `winner(step)` chooses it, so every schedule is covered. Nor is
    whether a `MoveNextAsync` issued before the loop stopped early has
    finished by the time the `finally` block disposes its enumerator:
    `inFlight` names the sources whose move is still running then. */
module Interleaving {
  import opened Common

  /** An enumerator of source `source` that has had `moves` calls of `MoveNextAsync`. */
  datatype Cursor = Cursor(source: nat, moves: nat)

  /** The finished value of a `MoveNextAsync` task: whether an item came. */
  datatype MoveNext = MoveNext(source: nat, hasItem: bool)

  /** How the enumeration ends: every source exhausted;
      `OperationCanceledException` from `ThrowIfCancellationRequested`; the
      exception of source `source`, rethrown by `await finished`; or the
      `NotSupportedException` that `DisposeAsync` of a compiler-generated
      iterator throws while a `MoveNextAsync` of it is still running. That
      last one comes from the `finally` block, replaces the exception that
      ended the loop, and leaves the enumerators listed after `source`
      undisposed. */
  datatype Outcome = Completed | Cancelled | Faulted(source: nat) | DisposeFaulted(source: nat)

  /** The `MoveNextAsync` result last issued for `c`. */
  function Observed<T>(sources: seq<seq<T>>, c: Cursor): MoveNext
    requires c.source < |sources|
  {
    MoveNext(c.source, c.moves <= |sources[c.source]|)
  }

  /** The items taken from source `s`, in the order they were yielded. */
  function Picks<T>(out: seq<T>, origin: seq<nat>, s: nat): seq<T>
    requires |out| == |origin|
  {
    if out == [] then []
    else Picks(out[..|out| - 1], origin[..|origin| - 1], s)
         + (if Last(origin) == s then [Last(out)] else [])
  }

  /** `0, 1, ..., n - 1`. */
  function Range(n: nat): (r: seq<nat>)
    ensures |r| == n && forall k :: 0 <= k < n ==> r[k] == k
  {
    seq(n, k requires 0 <= k < n => k)
  }

  ghost predicate Distinct(xs: seq<nat>)
  {
    forall i, j :: 0 <= i < j < |xs| ==> xs[i] != xs[j]
  }

  // ---------------------------------------------------------------------
  // The loop invariant, in parts

  /** `enumerators` and `moveNextTasks` stay index-aligned: entry `i` of
      both belongs to source `ids[i]`, and the pending move is that enumerator's
      latest `MoveNextAsync`. */
  ghost predicate Aligned<T>(sources: seq<seq<T>>, cursors: seq<Cursor>, tasks: seq<MoveNext>, ids: seq<nat>)
  {
    |cursors| == |tasks| == |ids|
    && forall i :: 0 <= i < |cursors| ==>
         cursors[i].source == ids[i] && ids[i] < |sources|
         && 1 <= cursors[i].moves <= |sources[ids[i]]| + 1
         && tasks[i] == Observed(sources, cursors[i])
  }

  /** Every source is either still listed or already disposed, exactly once. */
  ghost predicate Accounted(n: nat, ids: seq<nat>, disposed: seq<nat>)
  {
    Distinct(ids) && Distinct(disposed)
    && (forall k :: 0 <= k < |ids| ==> ids[k] < n)
    && (forall k :: 0 <= k < |disposed| ==> disposed[k] < n)
    && forall s :: 0 <= s < n ==> (s in disposed <==> s !in ids)
  }

  /** `yielded[s]` items of source `s` are out: one fewer than its moves
      while it is listed, all of them once it is disposed. */
  ghost predicate Counted<T>(sources: seq<seq<T>>, cursors: seq<Cursor>, disposed: seq<nat>, yielded: seq<nat>)
  {
    |yielded| == |sources|
    && (forall s :: 0 <= s < |sources| ==> yielded[s] <= |sources[s]|)
    && (forall i :: 0 <= i < |cursors| && cursors[i].source < |sources| ==>
          yielded[cursors[i].source] == cursors[i].moves - 1)
    && forall k :: 0 <= k < |disposed| && disposed[k] < |sources| ==> yielded[disposed[k]] == |sources[disposed[k]]|
  }

  /** The output holds, for each source, its first `yielded[s]` items in order. */
  ghost predicate Yields<T>(sources: seq<seq<T>>, out: seq<T>, origin: seq<nat>, yielded: seq<nat>)
  {
    |out| == |origin| && |yielded| == |sources|
    && (forall k :: 0 <= k < |origin| ==> origin[k] < |sources|)
    && forall s :: 0 <= s < |sources| ==> yielded[s] <= |sources[s]| && Picks(out, origin, s) == sources[s][..yielded[s]]
  }

  /** What the listed enumerators may still produce, plus one per enumerator. */
  ghost function Pending<T>(sources: seq<seq<T>>, cursors: seq<Cursor>): nat
  {
    if cursors == [] then 0
    else Pending(sources, cursors[..|cursors| - 1]) + Weight(sources, Last(cursors))
  }

  ghost function Weight<T>(sources: seq<seq<T>>, c: Cursor): nat
  {
    if c.source < |sources| && c.moves <= |sources[c.source]| + 1 then |sources[c.source]| + 2 - c.moves else 0
  }

  // ---------------------------------------------------------------------
  // Lemmas for the loop steps

  lemma {:induction false} PendingUpdate<T>(sources: seq<seq<T>>, cursors: seq<Cursor>, i: nat, c: Cursor)
    requires i < |cursors|
    ensures Pending(sources, cursors[i := c]) + Weight(sources, cursors[i])
            == Pending(sources, cursors) + Weight(sources, c)
    decreases |cursors|
  {
    var init := cursors[..|cursors| - 1];
    if i < |cursors| - 1 {
      PendingUpdate(sources, init, i, c);
      assert cursors[i := c][..|cursors| - 1] == init[i := c];
    } else {
      assert cursors[i := c][..|cursors| - 1] == init;
    }
  }

  lemma {:induction false} PendingRemove<T>(sources: seq<seq<T>>, cursors: seq<Cursor>, i: nat)
    requires i < |cursors|
    ensures Pending(sources, cursors[..i] + cursors[i + 1..]) + Weight(sources, cursors[i])
            == Pending(sources, cursors)
    decreases |cursors|
  {
    var init := cursors[..|cursors| - 1];
    if i < |cursors| - 1 {
      PendingRemove(sources, init, i);
      var r := cursors[..i] + cursors[i + 1..];
      assert r[..|r| - 1] == init[..i] + init[i + 1..];
      assert Last(r) == Last(cursors);
    } else {
      assert cursors[..i] + cursors[i + 1..] == init;
    }
  }

  lemma {:induction false} PicksAppend<T>(out: seq<T>, origin: seq<nat>, v: T, src: nat, s: nat)
    requires |out| == |origin|
    ensures Picks(out + [v], origin + [src], s) == Picks(out, origin, s) + (if src == s then [v] else [])
  {
    assert (out + [v])[..|out|] == out && (origin + [src])[..|origin|] == origin;
  }

  /** Removing entry `i` of a list without repeats. */
  lemma RemoveAt(ids: seq<nat>, i: nat)
    requires Distinct(ids) && i < |ids|
    ensures Distinct(ids[..i] + ids[i + 1..])
    ensures forall s :: s in ids[..i] + ids[i + 1..] <==> s in ids && s != ids[i]
  {
    var r := ids[..i] + ids[i + 1..];
    assert forall k :: 0 <= k < |r| ==> r[k] == (if k < i then ids[k] else ids[k + 1]);
    forall s | s in ids && s != ids[i]
      ensures s in r
    {
      var k :| 0 <= k < |ids| && ids[k] == s;
      if k < i { assert r[k] == s; } else { assert r[k - 1] == s; }
    }
  }

  /** The start: one enumerator per source, each moved once, in source order. */
  lemma StartInvariant<T>(sources: seq<seq<T>>, cursors: seq<Cursor>, tasks: seq<MoveNext>)
    requires |cursors| == |tasks| == |sources|
    requires forall i :: 0 <= i < |sources| ==> cursors[i] == Cursor(i, 1) && tasks[i] == Observed(sources, cursors[i])
    ensures Aligned(sources, cursors, tasks, Range(|sources|))
    ensures Accounted(|sources|, Range(|sources|), [])
    ensures Counted(sources, cursors, [], seq(|sources|, s => 0))
    ensures Yields(sources, [], [], seq(|sources|, s => 0))
  {
    forall s | 0 <= s < |sources|
      ensures s in Range(|sources|)
    {
      assert Range(|sources|)[s] == s;
    }
  }

  /** Source `ids[i]` produced an item: its enumerator moves once more and
      its task is replaced at the same index. */
  lemma YieldAligned<T>(sources: seq<seq<T>>, cursors: seq<Cursor>, tasks: seq<MoveNext>, ids: seq<nat>, i: nat)
    requires Aligned(sources, cursors, tasks, ids)
    requires i < |cursors| && tasks[i].hasItem
    ensures var c := Cursor(ids[i], cursors[i].moves + 1);
            Aligned(sources, cursors[i := c], tasks[i := Observed(sources, c)], ids)
            && Pending(sources, cursors[i := c]) < Pending(sources, cursors)
  {
    PendingUpdate(sources, cursors, i, Cursor(ids[i], cursors[i].moves + 1));
  }

  /** The item yielded is the next one of its source. */
  lemma YieldCounted<T>(sources: seq<seq<T>>, cursors: seq<Cursor>, tasks: seq<MoveNext>, ids: seq<nat>,
                        disposed: seq<nat>, yielded: seq<nat>, i: nat)
    requires Aligned(sources, cursors, tasks, ids) && Accounted(|sources|, ids, disposed)
    requires Counted(sources, cursors, disposed, yielded)
    requires i < |cursors| && tasks[i].hasItem
    ensures var s := ids[i];
            Counted(sources, cursors[i := Cursor(s, cursors[i].moves + 1)], disposed, yielded[s := yielded[s] + 1])
            && yielded[s] == cursors[i].moves - 1 < |sources[s]|
  {
    var s := ids[i];
    var cs := cursors[i := Cursor(s, cursors[i].moves + 1)];
    var y := yielded[s := yielded[s] + 1];
    forall j | 0 <= j < |cs| && cs[j].source < |sources|
      ensures y[cs[j].source] == cs[j].moves - 1
    {
      if j != i { assert ids[j] != ids[i]; }
    }
    forall k | 0 <= k < |disposed|
      ensures disposed[k] != s
    {
      assert s in ids;
    }
  }

  lemma YieldOut<T>(sources: seq<seq<T>>, out: seq<T>, origin: seq<nat>, yielded: seq<nat>, s: nat)
    requires Yields(sources, out, origin, yielded)
    requires s < |sources| && yielded[s] < |sources[s]|
    ensures Yields(sources, out + [sources[s][yielded[s]]], origin + [s], yielded[s := yielded[s] + 1])
  {
    var v := sources[s][yielded[s]];
    var y := yielded[s := yielded[s] + 1];
    forall t | 0 <= t < |sources|
      ensures Picks(out + [v], origin + [s], t) == sources[t][..y[t]]
    {
      PicksAppend(out, origin, v, s, t);
      if t == s {
        assert sources[s][..yielded[s] + 1] == sources[s][..yielded[s]] + [v];
      }
    }
  }

  /** Source `ids[i]` is exhausted: it leaves both lists at the same index. */
  /** The entries of a sequence with entry `i` taken out. */
  lemma Without<X>(xs: seq<X>, i: nat)
    requires i < |xs|
    ensures |xs[..i] + xs[i + 1..]| == |xs| - 1
    ensures forall k :: 0 <= k < |xs| - 1 ==> (xs[..i] + xs[i + 1..])[k] == (if k < i then xs[k] else xs[k + 1])
  {
  }

  lemma RemoveAligned<T>(sources: seq<seq<T>>, cursors: seq<Cursor>, tasks: seq<MoveNext>, ids: seq<nat>, i: nat)
    requires Aligned(sources, cursors, tasks, ids)
    requires i < |cursors| && !tasks[i].hasItem
    ensures Aligned(sources, cursors[..i] + cursors[i + 1..], tasks[..i] + tasks[i + 1..], ids[..i] + ids[i + 1..])
    ensures Pending(sources, cursors[..i] + cursors[i + 1..]) < Pending(sources, cursors)
    ensures cursors[i].moves == |sources[ids[i]]| + 1
  {
    RemoveKeepsAligned(sources, cursors, tasks, ids, i);
    PendingRemove(sources, cursors, i);
  }

  lemma RemoveKeepsAligned<T>(sources: seq<seq<T>>, cursors: seq<Cursor>, tasks: seq<MoveNext>, ids: seq<nat>, i: nat)
    requires Aligned(sources, cursors, tasks, ids) && i < |cursors|
    ensures Aligned(sources, cursors[..i] + cursors[i + 1..], tasks[..i] + tasks[i + 1..], ids[..i] + ids[i + 1..])
  {
    Without(cursors, i);
    Without(tasks, i);
    Without(ids, i);
  }

  /** The exhausted source moves from the listed ones to the disposed ones. */
  lemma RemoveAccounted(n: nat, ids: seq<nat>, disposed: seq<nat>, i: nat)
    requires Accounted(n, ids, disposed) && i < |ids|
    ensures Accounted(n, ids[..i] + ids[i + 1..], disposed + [ids[i]])
  {
    RemoveAt(ids, i);
    assert ids[i] in ids;
    var d := disposed + [ids[i]];
    assert forall s :: s in d <==> s in disposed || s == ids[i];
  }

  lemma RemoveCounted<T>(sources: seq<seq<T>>, cursors: seq<Cursor>, disposed: seq<nat>, yielded: seq<nat>, i: nat)
    requires Counted(sources, cursors, disposed, yielded)
    requires i < |cursors| && cursors[i].source < |sources| && cursors[i].moves == |sources[cursors[i].source]| + 1
    ensures Counted(sources, cursors[..i] + cursors[i + 1..], disposed + [cursors[i].source], yielded)
  {
    var cs := cursors[..i] + cursors[i + 1..];
    assert forall k :: 0 <= k < |cs| ==> cs[k] == (if k < i then cursors[k] else cursors[k + 1]);
    var d := disposed + [cursors[i].source];
    assert forall k :: 0 <= k < |d| ==> d[k] == (if k < |disposed| then disposed[k] else cursors[i].source);
  }

  /** When nothing is listed, every source is disposed and fully yielded. */
  lemma AllDone<T>(sources: seq<seq<T>>, disposed: seq<nat>, yielded: seq<nat>, out: seq<T>, origin: seq<nat>)
    requires Accounted(|sources|, [], disposed) && Counted(sources, [], disposed, yielded)
    requires Yields(sources, out, origin, yielded)
    ensures forall s :: 0 <= s < |sources| ==> Picks(out, origin, s) == sources[s]
  {
    forall s | 0 <= s < |sources|
      ensures Picks(out, origin, s) == sources[s]
    {
      assert s in disposed;
      var k :| 0 <= k < |disposed| && disposed[k] == s;
      assert sources[s][..|sources[s]|] == sources[s];
    }
  }

  /** The enumerators the loop disposed and those still listed for the
      `finally` block are each source once: when every `DisposeAsync` there
      succeeds, every enumerator is disposed exactly once. */
  lemma DisposeRest(n: nat, ids: seq<nat>, disposed: seq<nat>)
    requires Accounted(n, ids, disposed)
    ensures Distinct(disposed + ids)
    ensures forall s :: 0 <= s < n ==> s in disposed + ids
    ensures forall k :: 0 <= k < |disposed + ids| ==> (disposed + ids)[k] < n
  {
    var all := disposed + ids;
    forall i, j | 0 <= i < j < |all|
      ensures all[i] != all[j]
    {
      if i < |disposed| && j >= |disposed| {
        assert all[i] in disposed && all[j] == ids[j - |disposed|];
        assert all[j] in ids;
      }
    }
  }

  /** A `DisposeAsync` that throws at position `i` of the list leaves the
      sources disposed so far distinct, and that enumerator undisposed. */
  lemma DisposeStops(before: seq<nat>, ids: seq<nat>, i: nat)
    requires Distinct(before + ids) && i < |ids|
    ensures Distinct(before + ids[..i]) && ids[i] !in before + ids[..i]
  {
    var all := before + ids;
    assert before + ids[..i] == all[..|before| + i];
    assert ids[i] == all[|before| + i];
  }

  // ---------------------------------------------------------------------
  // The method

  /** The two `foreach` loops before the main loop: one enumerator per
      source, then one `MoveNextAsync` per enumerator, in source order. */
  method Open<T>(sources: seq<seq<T>>) returns (cursors: seq<Cursor>, tasks: seq<MoveNext>, ghost issued: seq<nat>)
    ensures |cursors| == |tasks| == |sources| && issued == Range(|sources|)
    ensures forall i :: 0 <= i < |sources| ==> cursors[i] == Cursor(i, 1) && tasks[i] == Observed(sources, cursors[i])
  {
    var n := |sources|;
    cursors := [];
    for i := 0 to n
      invariant cursors == seq(i, k requires 0 <= k < i => Cursor(k, 0))
    {
      cursors := cursors + [Cursor(i, 0)];
    }
    tasks := [];
    issued := [];
    for i := 0 to n
      invariant |cursors| == n && |tasks| == i && issued == Range(i)
      invariant forall k :: 0 <= k < i ==> cursors[k] == Cursor(k, 1) && tasks[k] == Observed(sources, cursors[k])
      invariant forall k :: i <= k < n ==> cursors[k] == Cursor(k, 0)
    {
      cursors := cursors[i := Cursor(i, 1)];
      tasks := tasks + [Observed(sources, cursors[i])];
      issued := issued + [i];
    }
  }

  /** The `while` loop: wait for a task, yield its item and move that
      enumerator again, or drop and dispose the exhausted one. It stops when
      no task is left or, first, when cancellation is requested. */
  method Drain<T>(sources: seq<seq<T>>, faulty: set<nat>, cursors0: seq<Cursor>, tasks0: seq<MoveNext>,
                  winner: nat -> nat, cancelAt: Option<nat>)
    returns (outcome: Outcome, out: seq<T>, cursors: seq<Cursor>, ghost origin: seq<nat>, ghost ids: seq<nat>,
             ghost disposed: seq<nat>, ghost yielded: seq<nat>, ghost reissued: seq<nat>)
    requires |cursors0| == |tasks0| == |sources|
    requires forall i :: 0 <= i < |sources| ==> cursors0[i] == Cursor(i, 1) && tasks0[i] == Observed(sources, cursors0[i])
    ensures reissued == origin
    ensures Accounted(|sources|, ids, disposed)
    ensures Counted(sources, cursors, disposed, yielded) && Yields(sources, out, origin, yielded)
    ensures |cursors| == |ids| && forall i :: 0 <= i < |ids| ==> cursors[i].source == ids[i]
    ensures outcome == Completed ==> ids == []
    ensures !outcome.DisposeFaulted?
    ensures outcome == Cancelled ==> cancelAt.Some?
    ensures outcome.Faulted? ==> outcome.source < |sources| && outcome.source in faulty
                                 && yielded[outcome.source] == |sources[outcome.source]|
    ensures forall k :: 0 <= k < |disposed| ==> disposed[k] !in faulty
  {
    var n := |sources|;
    cursors := cursors0;
    var tasks := tasks0;
    ids := Range(n);
    disposed := [];
    yielded := seq(n, s => 0);
    out, origin, reissued := [], [], [];
    StartInvariant(sources, cursors, tasks);
    var step := 0;
    outcome := Completed;
    while |tasks| > 0
      invariant Aligned(sources, cursors, tasks, ids) && Accounted(n, ids, disposed)
      invariant Counted(sources, cursors, disposed, yielded) && Yields(sources, out, origin, yielded)
      invariant reissued == origin
      invariant outcome == Completed
      invariant forall k :: 0 <= k < |disposed| ==> disposed[k] !in faulty
      decreases Pending(sources, cursors)
    {
      if cancelAt == Some(step) {
        outcome := Cancelled;
        return;
      }
      var index := winner(step) % |tasks|;
      if tasks[index].hasItem {
        YieldAligned(sources, cursors, tasks, ids, index);
        YieldCounted(sources, cursors, tasks, ids, disposed, yielded, index);
        var s := cursors[index].source;
        YieldOut(sources, out, origin, yielded, s);
        out := out + [sources[s][cursors[index].moves - 1]];
        origin := origin + [s];
        yielded := yielded[s := yielded[s] + 1];
        cursors := cursors[index := Cursor(s, cursors[index].moves + 1)];
        tasks := tasks[index := Observed(sources, cursors[index])];
        reissued := reissued + [s];
      } else if tasks[index].source in faulty {
        outcome := Faulted(tasks[index].source);
        return;
      } else {
        RemoveAligned(sources, cursors, tasks, ids, index);
        RemoveAccounted(n, ids, disposed, index);
        RemoveCounted(sources, cursors, disposed, yielded, index);
        tasks := tasks[..index] + tasks[index + 1..];
        disposed := disposed + [ids[index]];
        cursors := cursors[..index] + cursors[index + 1..];
        ids := ids[..index] + ids[index + 1..];
      }
      step := step + 1;
    }
  }

  /** Each source's items came out in order, possibly not all of them. */
  lemma YieldsPrefix<T>(sources: seq<seq<T>>, out: seq<T>, origin: seq<nat>, yielded: seq<nat>)
    requires Yields(sources, out, origin, yielded)
    ensures forall s :: 0 <= s < |sources| ==>
              |Picks(out, origin, s)| <= |sources[s]| && Picks(out, origin, s) == sources[s][..|Picks(out, origin, s)|]
  {
  }

  /** `Interleave(sources)`. `cancelAt` is the iteration at which the
      cancellation token is found set, if any; `faulty` the sources that
      end by throwing; `inFlight` the sources whose latest move is still
      running when an early stop reaches the `finally` block. `issued` lists the source of
      each `MoveNextAsync` call, `origin` the source of each item yielded,
      and `disposed` the sources whose enumerator was disposed. */
  method Interleave<T>(sources: seq<seq<T>>, faulty: set<nat>, inFlight: set<nat>, winner: nat -> nat, cancelAt: Option<nat>)
    returns (outcome: Outcome, out: seq<T>, ghost origin: seq<nat>, ghost issued: seq<nat>, ghost disposed: seq<nat>)
    ensures |origin| == |out| && forall k :: 0 <= k < |origin| ==> origin[k] < |sources|
    ensures issued == Range(|sources|) + origin
    ensures outcome == Completed ==> forall s :: 0 <= s < |sources| ==> Picks(out, origin, s) == sources[s] && s !in faulty
    ensures forall s :: 0 <= s < |sources| ==>
              |Picks(out, origin, s)| <= |sources[s]| && Picks(out, origin, s) == sources[s][..|Picks(out, origin, s)|]
    ensures outcome == Cancelled ==> cancelAt.Some?
    ensures outcome.Faulted? ==> outcome.source < |sources| && outcome.source in faulty
                                 && Picks(out, origin, outcome.source) == sources[outcome.source]
    ensures outcome.DisposeFaulted? ==> outcome.source < |sources| && outcome.source in inFlight
                                        && outcome.source !in disposed
    ensures cancelAt.None? && (forall s :: 0 <= s < |sources| ==> s !in faulty) ==> outcome == Completed
    ensures Distinct(disposed) && forall k :: 0 <= k < |disposed| ==> disposed[k] < |sources|
    ensures !outcome.DisposeFaulted? ==> forall s :: 0 <= s < |sources| ==> s in disposed
  {
    var cursors, tasks;
    cursors, tasks, issued := Open(sources);
    ghost var ids, yielded, reissued;
    outcome, out, cursors, origin, ids, disposed, yielded, reissued := Drain(sources, faulty, cursors, tasks, winner, cancelAt);
    issued := issued + reissued;
    if outcome == Completed {
      AllDone(sources, disposed, yielded, out, origin);
      forall s | 0 <= s < |sources|
        ensures s !in faulty
      {
        assert s in disposed;
        var k :| 0 <= k < |disposed| && disposed[k] == s;
      }
    }
    if outcome.Faulted? {
      assert sources[outcome.source][..yielded[outcome.source]] == sources[outcome.source];
    }
    YieldsPrefix(sources, out, origin, yielded);
    DisposeRest(|sources|, ids, disposed);
    ghost var before := disposed;
    var i := 0;
    while i < |cursors|
      invariant 0 <= i <= |cursors| && disposed == before + ids[..i]
      invariant !outcome.DisposeFaulted?
    {
      var s := cursors[i].source;
      if s in inFlight && outcome != Faulted(s) {
        DisposeStops(before, ids, i);
        outcome := DisposeFaulted(s);
        return;
      }
      assert ids[..i + 1] == ids[..i] + [s];
      disposed := disposed + [s];
      i := i + 1;
    }
    assert ids[..|ids|] == ids;
  }
}
