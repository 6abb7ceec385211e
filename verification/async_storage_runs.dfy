/**
 Whole runs of the storage: the order of destruction, when the announcement is made, and that the
 queue drains.
 */
module StorageRuns {
  import opened Basics
  import opened AsyncStorage

  /** Whether each action may be done when its turn comes. */
  ghost predicate Possible<K(!new)>(st: Storage<K>, actions: seq<Action<K>>)
    requires st.Inv()
    decreases |actions|
  {
    actions == [] ||
    (Enabled(st, actions[0]) && (ApplyInv(st, actions[0]); Possible(Apply(st, actions[0]), actions[1..])))
  }

  /** The state after the first `n` actions. */
  ghost function StateAt<K(!new)>(st: Storage<K>, actions: seq<Action<K>>, n: nat): Storage<K>
    requires st.Inv() && Possible(st, actions) && n <= |actions|
    decreases |actions|
  {
    if n == 0 then st
    else
      ApplyInv(st, actions[0]);
      StateAt(Apply(st, actions[0]), actions[1..], n - 1)
  }

  ghost function After<K(!new)>(st: Storage<K>, actions: seq<Action<K>>): Storage<K>
    requires st.Inv() && Possible(st, actions)
  {
    StateAt(st, actions, |actions|)
  }

  /** A run of a new storage. */
  ghost predicate FromEmpty<K(!new)>(actions: seq<Action<K>>, end: Storage<K>) {
    EmptyInv<K>();
    Possible(Empty<K>(), actions) && end == After(Empty<K>(), actions)
  }

  /**
   Whatever the program does, and whenever destroys complete, the invariant holds, and what has
   been released, started, finished or deleted stays so.
   */
  lemma {:induction false} RunInv<K(!new)>(st: Storage<K>, actions: seq<Action<K>>, n: nat)
    requires st.Inv() && Possible(st, actions) && n <= |actions|
    ensures var st' := StateAt(st, actions, n);
            && st'.Inv() && st.released <= st'.released && st.started <= st'.started
            && st.finished <= st'.finished && st.deleted <= st'.deleted
    decreases n
  {
    if n > 0 {
      ApplyInv(st, actions[0]);
      ApplyGrows(st, actions[0]);
      RunInv(Apply(st, actions[0]), actions[1..], n - 1);
    }
  }

  lemma ApplyGrows<K(!new)>(st: Storage<K>, a: Action<K>)
    requires st.Inv() && Enabled(st, a)
    ensures var st' := Apply(st, a);
            && st.released <= st'.released && st.started <= st'.started
            && st.finished <= st'.finished && st.deleted <= st'.deleted
  {
    match a
    case Assign(to, from) => AssignedGrows(st, to, from);
    case Emplace(_, _) =>
    case _ =>
  }

  lemma AssignedGrows<K(!new)>(st: Storage<K>, to: Slot<K>, from: Slot<K>)
    requires st.Inv()
    ensures var st' := Assigned(st, to, from);
            && st.released <= st'.released && st.started == st'.started
            && st.finished == st'.finished && st.deleted == st'.deleted
  {
    AssignedSteps(st, to, from);
  }

  /**
   After every run: cores have been started, finished and deleted in the order in which their
   counts reached zero, at most one is in work, and the next tick deletes at most the one whose
   destroy has finished, which has no holder.
   */
  lemma OneByOne<K(!new)>(actions: seq<Action<K>>, end: Storage<K>, sync: bool, c: nat)
    requires FromEmpty(actions, end)
    ensures end.deleted <= end.finished <= end.started <= end.released
    ensures |end.started| <= |end.deleted| + 1
    ensures c in end.cnt && c !in end.Tick(sync).cnt ==>
              && end.finished == end.deleted + [c] && end.Holders(c) == {}
              && end.Tick(sync).deleted == end.finished
  {
    EmptyInv<K>();
    RunInv(Empty<K>(), actions, |actions|);
    DestroyedInOrder(end);
    if c in end.cnt && c !in end.Tick(sync).cnt {
      DeletedLast(end, sync, c);
    }
  }

  // ---- how long a core lives ----------------------------------------------------------------

  /** Whether an action may change a pointer that is not null. */
  predicate Touches<K(==)>(a: Action<K>, s: Slot<K>) {
    match a
    case Erase(key) => s == Entry(key)
    case Assign(to, from) => to != from && (s == to || s == from)
    case Drop(id) => s == Held(id)
    case _ => false
  }

  lemma KeptByStep<K(!new)>(st: Storage<K>, a: Action<K>, s: Slot<K>)
    requires st.Inv() && Enabled(st, a) && s in st.ptrs && !Touches(a, s)
    ensures Apply(st, a).Inv() && s in Apply(st, a).ptrs && Apply(st, a).ptrs[s] == st.ptrs[s]
  {
    ApplyInv(st, a);
    ApplyPointers(st, a);
  }

  /** As long as a pointer is not erased, assigned or dropped, its core is there and not released. */
  lemma {:induction false} KeptWhileHeld<K(!new)>(st: Storage<K>, actions: seq<Action<K>>, n: nat, s: Slot<K>)
    requires st.Inv() && Possible(st, actions) && n <= |actions| && s in st.ptrs
    requires forall a | a in actions :: !Touches(a, s)
    ensures var st' := StateAt(st, actions, n);
            && s in st'.ptrs && st'.ptrs[s] == st.ptrs[s]
            && st.ptrs[s] in st'.cnt && st'.cnt[st.ptrs[s]] > 0 && st.ptrs[s] !in st'.released
    decreases n
  {
    if n == 0 {
      HolderCounted(st, s);
    } else {
      assert actions[0] in actions;
      KeptByStep(st, actions[0], s);
      KeptWhileHeld(Apply(st, actions[0]), actions[1..], n - 1, s);
    }
  }

  /** So the core that `emplace` creates outlives its entry in the map while the caller's pointer is kept. */
  lemma HandedOutKept<K(!new)>(st: Storage<K>, key: K, id: nat, actions: seq<Action<K>>, n: nat)
    requires st.Inv() && Entry(key) !in st.ptrs && Held(id) !in st.ptrs
    requires Apply(st, Emplace(key, id)).Inv() && Possible(Apply(st, Emplace(key, id)), actions) && n <= |actions|
    requires forall a | a in actions :: !Touches(a, Held(id))
    ensures var st' := StateAt(Apply(st, Emplace(key, id)), actions, n);
            && Held(id) in st'.ptrs && st'.ptrs[Held(id)] == st.next
            && st.next in st'.cnt && st.next !in st'.released && st.next !in st'.deleted
  {
    var created := Apply(st, Emplace(key, id));
    ApplyPointers(st, Emplace(key, id));
    KeptWhileHeld(created, actions, n, Held(id));
    RunInv(created, actions, n);
  }

  /** In every state of a run of a new storage, the released cores are those without a pointer. */
  lemma ReleasedInRuns<K(!new)>(actions: seq<Action<K>>, end: Storage<K>, c: nat)
    requires FromEmpty(actions, end)
    ensures c in end.released <==> c < end.next && !IsHeld(end.ptrs, c)
  {
    EmptyInv<K>();
    RunInv(Empty<K>(), actions, |actions|);
    ReleasedUnheld(end, c);
  }

  /** A core whose last pointer is dropped is released, stays so, and is deleted once the queue has drained. */
  lemma DroppedLast<K(!new)>(st: Storage<K>, id: nat, actions: seq<Action<K>>)
    requires st.Inv() && Held(id) in st.ptrs && st.Holders(st.ptrs[Held(id)]) == {Held(id)}
    requires Apply(st, Drop(id)).Inv() && Possible(Apply(st, Drop(id)), actions)
    ensures var c, st' := st.ptrs[Held(id)], Apply(st, Drop(id));
            && st'.toDel == st.toDel + [c] && c in After(st', actions).released
            && (Worked(st', actions) >= 2 * |st'.toDel| + 2 ==> c in After(st', actions).deleted)
  {
    var c, st' := st.ptrs[Held(id)], Apply(st, Drop(id));
    assert Held(id) in st.Holders(c);
    assert st'.released == st.released + [c] && st'.released[|st.released|] == c;
    RunInv(st', actions, |actions|);
    if Worked(st', actions) >= 2 * |st'.toDel| + 2 {
      Drains(st', actions);
    }
  }

  // ---- the announcement ---------------------------------------------------------------------

  ghost predicate TickAt<K(!new)>(actions: seq<Action<K>>, i: int) {
    0 <= i < |actions| && actions[i].DoTick?
  }

  /** Whether some tick of the run announces that all cores are destroyed. */
  ghost predicate Announced<K(!new)>(st: Storage<K>, actions: seq<Action<K>>)
    requires st.Inv() && Possible(st, actions)
  {
    exists i :: TickAt(actions, i) && StateAt(st, actions, i).Announces()
  }

  /** Whether every tick of the run comes when no destroy is running. */
  ghost predicate Prompt<K(!new)>(st: Storage<K>, actions: seq<Action<K>>)
    requires st.Inv() && Possible(st, actions)
  {
    forall i :: TickAt(actions, i) ==> StateAt(st, actions, i).finished == StateAt(st, actions, i).started
  }

  /** The announcement is made exactly if a tick comes while the last queued destroy is running. */
  lemma AnnouncedExactly<K(!new)>(st: Storage<K>, actions: seq<Action<K>>)
    requires st.Inv() && Possible(st, actions)
    ensures Announced(st, actions) <==>
            exists i :: TickAt(actions, i) &&
                        var s := StateAt(st, actions, i);
                        s.started == s.released && s.finished != s.started
  {
    forall i | TickAt(actions, i)
      ensures var s := StateAt(st, actions, i);
              s.Announces() <==> s.started == s.released && s.finished != s.started
    {
      RunInv(st, actions, i);
      AnnouncesWhen(StateAt(st, actions, i));
    }
  }

  /** A core is created and released, and two ticks come; `sync`: its destroy completes at once. */
  function OneCore<K>(key: K, sync: bool, again: bool): seq<Action<K>> {
    [TryEmplace(key)] + ([Erase(key)] + ([DoTick(sync)] + ([DoTick(again)] + [])))
  }

  /** A run of one action more: what it comes to, and whether it announces. */
  lemma FirstStep<K(!new)>(st: Storage<K>, a: Action<K>, rest: seq<Action<K>>)
    requires st.Inv() && Enabled(st, a)
    ensures Apply(st, a).Inv()
    ensures Possible(st, [a] + rest) <==> Possible(Apply(st, a), rest)
    ensures Possible(st, [a] + rest) ==>
              && After(st, [a] + rest) == After(Apply(st, a), rest)
              && (Announced(st, [a] + rest) <==> (a.DoTick? && st.Announces()) || Announced(Apply(st, a), rest))
  {
    ApplyInv(st, a);
    var actions, next := [a] + rest, Apply(st, a);
    assert actions[1..] == rest;
    if Possible(st, actions) {
      forall i | TickAt(rest, i)
        ensures TickAt(actions, i + 1) && StateAt(st, actions, i + 1) == StateAt(next, rest, i)
      {
      }
      assert forall i :: TickAt(actions, i) ==> i == 0 || TickAt(rest, i - 1);
      assert a.DoTick? ==> TickAt(actions, 0);
    }
  }

  lemma TwoTicks<K(!new)>(st: Storage<K>, sync: bool, again: bool)
    requires st.Inv()
    ensures var ticks := [DoTick(sync)] + ([DoTick(again)] + []);
            && Possible(st, ticks) && After(st, ticks) == st.Tick(sync).Tick(again)
            && (Announced(st, ticks) <==> st.Announces() || st.Tick(sync).Announces())
  {
    TickInv(st, sync);
    FirstStep(st, DoTick(sync), [DoTick(again)] + []);
    FirstStep(st.Tick(sync), DoTick(again), []);
  }

  /** What comes after a core's creation and release comes to a storage with that core in its queue. */
  lemma ReleaseFirst<K(!new)>(key: K, rest: seq<Action<K>>) returns (st: Storage<K>)
    ensures Empty<K>().Inv() && st.Inv()
    ensures st.task == None && st.toErase == None && st.toDel == [0] && st.deleted == []
    ensures var e, actions := Empty<K>(), [TryEmplace(key)] + ([Erase(key)] + rest);
            Possible(st, rest) ==>
              && Possible(e, actions) && After(e, actions) == After(st, rest)
              && (Announced(e, actions) <==> Announced(st, rest))
  {
    EmptyInv<K>();
    var st1 := Apply(Empty<K>(), TryEmplace(key));
    ApplyInv(Empty<K>(), TryEmplace(key));
    ApplyInv(st1, Erase(key));
    st := Apply(st1, Erase(key));
    FirstStep(st1, Erase(key), rest);
    FirstStep(Empty<K>(), TryEmplace(key), [Erase(key)] + rest);
  }

  lemma AfterTicks<K>(st: Storage<K>, c: nat, sync: bool, again: bool)
    requires st.task == None && st.toErase == None && st.toDel == [c] && st.deleted == []
    ensures !st.Announces() && (st.Tick(sync).Announces() <==> !sync)
    ensures st.Tick(sync).Tick(again).deleted == if sync then [c] else []
  {
  }

  /**
   A core whose destroy is still running at the second tick is announced as destroyed; one whose
   destroy completed at once is deleted by the second tick, without an announcement.
   */
  lemma OneCoreAnnounced<K(!new)>(key: K, sync: bool, again: bool)
    ensures Empty<K>().Inv() && Possible(Empty<K>(), OneCore(key, sync, again))
    ensures Announced(Empty<K>(), OneCore(key, sync, again)) <==> !sync
    ensures After(Empty<K>(), OneCore(key, sync, again)).deleted == if sync then [0] else []
  {
    var ticks: seq<Action<K>> := [DoTick(sync)] + ([DoTick(again)] + []);
    var st := ReleaseFirst(key, ticks);
    TwoTicks(st, sync, again);
    AfterTicks(st, 0, sync, again);
  }

  // ---- the queue drains ---------------------------------------------------------------------

  function Running<K(==)>(st: Storage<K>): bool {
    st.task.Some? && st.toErase.None?
  }

  /** Whether an action carries destruction on: a completion, or a tick that finds no destroy running. */
  predicate Works<K(==)>(st: Storage<K>, a: Action<K>) {
    a.Complete? || (a.DoTick? && !Running(st))
  }

  /** How many of the actions carry destruction on. */
  ghost function Worked<K(!new)>(st: Storage<K>, actions: seq<Action<K>>): nat
    requires st.Inv() && Possible(st, actions)
    decreases |actions|
  {
    if actions == [] then 0
    else
      ApplyInv(st, actions[0]);
      (if Works(st, actions[0]) then 1 else 0) + Worked(Apply(st, actions[0]), actions[1..])
  }

  /** How many such actions are needed at most until the first `r` released cores are deleted. */
  function Owed<K(==)>(st: Storage<K>, r: nat): nat {
    if |st.deleted| >= r then 0
    else 2 * (if r > |st.started| then r - |st.started| else 0) + (if Running(st) then 2 else 1)
  }

  lemma OwedAfter<K(!new)>(st: Storage<K>, a: Action<K>, r: nat)
    requires st.Inv() && Enabled(st, a) && r <= |st.released|
    ensures Works(st, a) ==> Owed(Apply(st, a), r) < Owed(st, r) || Owed(Apply(st, a), r) == 0
    ensures !Works(st, a) ==> Owed(Apply(st, a), r) == Owed(st, r)
    ensures a.DoTick? && !Works(st, a) ==> Apply(st, a) == st
  {
  }

  /**
   Every completion and every tick that finds no destroy running pays one off, in whatever order
   they come and whatever else the program does in between.
   */
  lemma {:induction false} Paid<K(!new)>(st: Storage<K>, actions: seq<Action<K>>, r: nat)
    requires st.Inv() && Possible(st, actions) && r <= |st.released|
    ensures Owed(After(st, actions), r) == 0
            || Owed(After(st, actions), r) + Worked(st, actions) <= Owed(st, r)
    decreases |actions|
  {
    if actions != [] {
      ApplyInv(st, actions[0]);
      ApplyGrows(st, actions[0]);
      OwedAfter(st, actions[0], r);
      Paid(Apply(st, actions[0]), actions[1..], r);
      if Owed(Apply(st, actions[0]), r) == 0 {
        RunInv(Apply(st, actions[0]), actions[1..], |actions| - 1);
      }
    }
  }

  /**
   Two such actions for every core in the queue and two more delete every core released so far, in
   the order of release, whatever else the program does in between.
   */
  lemma Drains<K(!new)>(st: Storage<K>, actions: seq<Action<K>>)
    requires st.Inv() && Possible(st, actions) && Worked(st, actions) >= 2 * |st.toDel| + 2
    ensures st.released <= After(st, actions).deleted
  {
    Paid(st, actions, |st.released|);
    RunInv(st, actions, |actions|);
    DestroyedInOrder(After(st, actions));
  }

  /** Ticks that find no destroy running. */
  ghost function FreeTicks<K(!new)>(st: Storage<K>, actions: seq<Action<K>>): nat
    requires st.Inv() && Possible(st, actions)
    decreases |actions|
  {
    if actions == [] then 0
    else
      ApplyInv(st, actions[0]);
      (if actions[0].DoTick? && !Running(st) then 1 else 0) + FreeTicks(Apply(st, actions[0]), actions[1..])
  }

  function TicksOwed<K(==)>(st: Storage<K>, r: nat): nat {
    if |st.deleted| >= r then 0 else (if r > |st.started| then r - |st.started| else 0) + 1
  }

  lemma {:induction false} TicksPaid<K(!new)>(st: Storage<K>, actions: seq<Action<K>>, r: nat)
    requires st.Inv() && Possible(st, actions) && r <= |st.released|
    ensures TicksOwed(After(st, actions), r) == 0
            || TicksOwed(After(st, actions), r) + FreeTicks(st, actions) <= TicksOwed(st, r)
    decreases |actions|
  {
    if actions != [] {
      ApplyInv(st, actions[0]);
      ApplyGrows(st, actions[0]);
      TicksPaid(Apply(st, actions[0]), actions[1..], r);
      if TicksOwed(Apply(st, actions[0]), r) == 0 {
        RunInv(Apply(st, actions[0]), actions[1..], |actions| - 1);
      }
    }
  }

  /** Counting ticks alone, one for every core in the queue and one more are enough. */
  lemma DrainsInTicks<K(!new)>(st: Storage<K>, actions: seq<Action<K>>)
    requires st.Inv() && Possible(st, actions) && FreeTicks(st, actions) > |st.toDel|
    ensures st.released <= After(st, actions).deleted
  {
    TicksPaid(st, actions, |st.released|);
    RunInv(st, actions, |actions|);
    DestroyedInOrder(After(st, actions));
  }

  /** Ticks and completions release nothing and change no pointer. */
  lemma {:induction false} Waits<K(!new)>(st: Storage<K>, actions: seq<Action<K>>)
    requires st.Inv() && Possible(st, actions)
    requires forall a | a in actions :: a.Complete? || a.DoTick?
    ensures After(st, actions).released == st.released && After(st, actions).ptrs == st.ptrs
    decreases |actions|
  {
    if actions != [] {
      assert actions[0] in actions;
      ApplyInv(st, actions[0]);
      Waits(Apply(st, actions[0]), actions[1..]);
    }
  }

  /** If the program does nothing but wait, everything released is deleted, and nothing else. */
  lemma DrainsCompletely<K(!new)>(st: Storage<K>, actions: seq<Action<K>>)
    requires st.Inv() && Possible(st, actions)
    requires forall a | a in actions :: a.Complete? || a.DoTick?
    requires Worked(st, actions) >= 2 * |st.toDel| + 2 || FreeTicks(st, actions) > |st.toDel|
    ensures var end := After(st, actions);
            end.Inv() && end.toDel == [] && end.task.None? && end.deleted == st.released && end.ptrs == st.ptrs
  {
    if FreeTicks(st, actions) > |st.toDel| {
      DrainsInTicks(st, actions);
    } else {
      Drains(st, actions);
    }
    Waits(st, actions);
    RunInv(st, actions, |actions|);
  }

  function TickCount<K>(actions: seq<Action<K>>): nat
    decreases |actions|
  {
    if actions == [] then 0 else (if actions[0].DoTick? then 1 else 0) + TickCount(actions[1..])
  }

  lemma PromptRest<K(!new)>(st: Storage<K>, actions: seq<Action<K>>)
    requires st.Inv() && Possible(st, actions) && Prompt(st, actions) && actions != []
    ensures Apply(st, actions[0]).Inv() && Prompt(Apply(st, actions[0]), actions[1..])
    ensures actions[0].DoTick? ==> st.finished == st.started
  {
    ApplyInv(st, actions[0]);
    var next, rest := Apply(st, actions[0]), actions[1..];
    forall i | TickAt(rest, i)
      ensures StateAt(next, rest, i).finished == StateAt(next, rest, i).started
    {
      assert TickAt(actions, i + 1) && StateAt(st, actions, i + 1) == StateAt(next, rest, i);
    }
    assert actions[0].DoTick? ==> TickAt(actions, 0);
  }

  lemma {:induction false} PromptTicksAreFree<K(!new)>(st: Storage<K>, actions: seq<Action<K>>)
    requires st.Inv() && Possible(st, actions) && Prompt(st, actions)
    ensures FreeTicks(st, actions) == TickCount(actions)
    decreases |actions|
  {
    if actions != [] {
      PromptRest(st, actions);
      PromptTicksAreFree(Apply(st, actions[0]), actions[1..]);
    }
  }

  /**
   The announcement may never come: if every destroy has completed by the time of the next tick, no
   tick makes it, although as many ticks as there are cores in the queue, and one, delete them all.
   */
  lemma NeverAnnounced<K(!new)>(st: Storage<K>, actions: seq<Action<K>>)
    requires st.Inv() && Possible(st, actions) && Prompt(st, actions)
    ensures !Announced(st, actions)
    ensures TickCount(actions) > |st.toDel| ==> st.released <= After(st, actions).deleted
  {
    AnnouncedExactly(st, actions);
    PromptTicksAreFree(st, actions);
    if TickCount(actions) > |st.toDel| {
      DrainsInTicks(st, actions);
    }
  }

  /** Such are all runs in which every destroy completes before the tick that starts it returns. */
  lemma {:induction false} SyncIsPrompt<K(!new)>(st: Storage<K>, actions: seq<Action<K>>, n: nat)
    requires st.Inv() && Possible(st, actions) && n <= |actions| && st.finished == st.started
    requires forall a | a in actions :: a.DoTick? ==> a.sync
    ensures StateAt(st, actions, n).finished == StateAt(st, actions, n).started
    decreases n
  {
    if n > 0 {
      assert actions[0] in actions;
      ApplyInv(st, actions[0]);
      SyncIsPrompt(Apply(st, actions[0]), actions[1..], n - 1);
    }
  }

  /** Hence, from a new storage on, they never announce, whatever there was to destroy. */
  lemma NeverAnnouncedIfSync<K(!new)>(actions: seq<Action<K>>)
    requires forall a | a in actions :: a.DoTick? ==> a.sync
    ensures Empty<K>().Inv() && (Possible(Empty<K>(), actions) ==> !Announced(Empty<K>(), actions))
  {
    EmptyInv<K>();
    var e := Empty<K>();
    if Possible(e, actions) {
      forall i | TickAt(actions, i)
        ensures StateAt(e, actions, i).finished == StateAt(e, actions, i).started
      {
        SyncIsPrompt(e, actions, i);
      }
      NeverAnnounced(e, actions);
    }
  }
}
